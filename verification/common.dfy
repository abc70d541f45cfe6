/** Shared failure-carrying datatypes used by every module of the model.

  - Option<T> stands for the source's nullable values (`T | null`, `None`).
  - Fetched<T> is the outcome of one awaited network request: the frontend
    only ever distinguishes "resolved with data" from "rejected".
  - Http<T> is a backend handler outcome: a value, or an HTTP error status.
 */
module Common {

  datatype Option<+T> = None | Some(value: T) {
    /** The payload, or `default` when there is none (`x ?? default`). */
    function GetOr(default: T): T {
      match this
      case Some(v) => v
      case None => default
    }
  }

  datatype Fetched<+T> = Resolved(data: T) | Rejected

  datatype Http<+T> = Ok(value: T) | Status(code: nat)

  /** The elements of `s` that satisfy `p`, in their order (a filtered
      list comprehension, a query with a `WHERE` clause). */
  function Filter<T(==)>(s: seq<T>, p: T -> bool): (r: seq<T>)
    ensures |r| <= |s|
    ensures forall x | x in r :: x in s && p(x)
    ensures forall x | x in s && p(x) :: x in r
  {
    if s == [] then [] else (if p(s[0]) then [s[0]] else []) + Filter(s[1..], p)
  }

  lemma {:induction false} FilterConcat<T>(a: seq<T>, b: seq<T>, p: T -> bool)
    ensures Filter(a + b, p) == Filter(a, p) + Filter(b, p)
  {
    if a == [] {
      assert a + b == b;
    } else {
      assert (a + b)[0] == a[0];
      assert (a + b)[1..] == a[1..] + b;
      FilterConcat(a[1..], b, p);
    }
  }

  /** Nothing passes when no element satisfies the predicate. */
  lemma {:induction false} FilterNone<T>(s: seq<T>, p: T -> bool)
    requires forall x | x in s :: !p(x)
    ensures Filter(s, p) == []
  {
    if s != [] {
      assert s[0] in s;
      assert forall x | x in s[1..] :: x in s;
      FilterNone(s[1..], p);
    }
  }

  /** Filtering depends only on the verdicts for the elements present. */
  lemma {:induction false} FilterSame<T>(s: seq<T>, p: T -> bool, q: T -> bool)
    requires forall x | x in s :: p(x) == q(x)
    ensures Filter(s, p) == Filter(s, q)
  {
    if s != [] {
      FilterSame(s[1..], p, q);
    }
  }

  /** Two filters in a row keep what both keep. */
  lemma {:induction false} FilterFilter<T>(s: seq<T>, p: T -> bool, q: T -> bool, both: T -> bool)
    requires forall x | x in s :: both(x) == (p(x) && q(x))
    ensures Filter(Filter(s, p), q) == Filter(s, both)
  {
    if s != [] {
      FilterFilter(s[1..], p, q, both);
      var head := if p(s[0]) then [s[0]] else [];
      FilterConcat(head, Filter(s[1..], p), q);
    }
  }

  /** Position of the first element satisfying `p` (`.first()` of a query,
      `next(...)`, `Array.find`). */
  function FirstIndex<T>(s: seq<T>, p: T -> bool): (r: Option<nat>)
    ensures r.Some? ==> r.value < |s| && p(s[r.value]) && forall k :: 0 <= k < r.value ==> !p(s[k])
    ensures r.None? ==> forall k :: 0 <= k < |s| ==> !p(s[k])
  {
    if s == [] then None
    else if p(s[0]) then Some(0)
    else match FirstIndex(s[1..], p)
      case None => None
      case Some(k) => Some(k + 1)
  }

  /** Ascending by `key`. */
  predicate SortedBy<T>(s: seq<T>, key: T -> int) {
    forall i, j :: 0 <= i < j < |s| ==> key(s[i]) <= key(s[j])
  }

  /** Filtering keeps a sorted sequence sorted. */
  lemma {:induction false} FilterSorted<T>(s: seq<T>, p: T -> bool, key: T -> int)
    requires SortedBy(s, key)
    ensures SortedBy(Filter(s, p), key)
  {
    if s != [] {
      FilterSorted(s[1..], p, key);
      var rest := Filter(s[1..], p);
      forall y | y in rest ensures key(s[0]) <= key(y) {
        var k :| 0 <= k < |s[1..]| && s[1..][k] == y;
        assert s[k + 1] == y;
      }
    }
  }

  /** Places `x` before the first element whose key is not smaller. */
  function InsertBy<T(==)>(x: T, s: seq<T>, key: T -> int): (r: seq<T>)
    requires SortedBy(s, key)
    ensures multiset(r) == multiset(s) + multiset{x}
    ensures SortedBy(r, key)
  {
    if s == [] || key(x) <= key(s[0]) then [x] + s
    else
      var rest := InsertBy(x, s[1..], key);
      assert s == [s[0]] + s[1..];
      HeadBelowRest(s, x, rest, key);
      [s[0]] + rest
  }

  /** The head of a sorted sequence is below everything after it, and
      below `x` too. */
  lemma HeadBelowRest<T>(s: seq<T>, x: T, rest: seq<T>, key: T -> int)
    requires SortedBy(s, key) && s != [] && key(s[0]) < key(x)
    requires multiset(rest) == multiset(s[1..]) + multiset{x}
    ensures forall k | 0 <= k < |rest| :: key(s[0]) <= key(rest[k])
  {
    forall k | 0 <= k < |rest| ensures key(s[0]) <= key(rest[k]) {
      assert rest[k] in multiset(rest);
      if rest[k] != x {
        assert rest[k] in multiset(s[1..]);
        var j :| 0 <= j < |s[1..]| && s[1..][j] == rest[k];
        assert s[1 + j] == rest[k];
      }
    }
  }

  /** A sort by `key` that keeps equal keys in their original order (an
      insertion sort, so the same elements come out, in key order). */
  function SortBy<T(==)>(s: seq<T>, key: T -> int): (r: seq<T>)
    ensures multiset(r) == multiset(s)
    ensures SortedBy(r, key)
  {
    if s == [] then []
    else
      assert s == [s[0]] + s[1..];
      InsertBy(s[0], SortBy(s[1..], key), key)
  }

  /** Every element of `s` is distinct. */
  predicate NoDup<T(==)>(s: seq<T>) {
    forall i, j :: 0 <= i < j < |s| ==> s[i] != s[j]
  }

  /** The sequence without the first occurrence of `x`. */
  function RemoveFirst<T(==)>(s: seq<T>, x: T): (r: seq<T>)
    requires x in s
    ensures |r| == |s| - 1
    ensures forall y | y in r :: y in s
    ensures forall y | y in s && y != x :: y in r
    ensures NoDup(s) ==> x !in r
  {
    if s[0] == x then
      assert forall y | y in s && y != x :: y in s[1..] by {
        forall y | y in s && y != x ensures y in s[1..] {
          var k :| 0 <= k < |s| && s[k] == y;
          assert s[1..][k - 1] == y;
        }
      }
      assert NoDup(s) ==> forall k :: 1 <= k < |s| ==> s[k] != x;
      s[1..]
    else
      var rest := RemoveFirst(s[1..], x);
      assert x in s[1..] by {
        var k :| 0 <= k < |s| && s[k] == x;
        assert s[1..][k - 1] == x;
      }
      assert forall y | y in s && y != x :: y in [s[0]] + rest by {
        forall y | y in s && y != x ensures y in [s[0]] + rest {
          var k :| 0 <= k < |s| && s[k] == y;
          if k > 0 { assert s[1..][k - 1] == y; }
        }
      }
      assert NoDup(s) ==> NoDup(s[1..]) by {
        if NoDup(s) {
          forall i, j | 0 <= i < j < |s[1..]| ensures s[1..][i] != s[1..][j] {
            assert s[1..][i] == s[i + 1] && s[1..][j] == s[j + 1];
          }
        }
      }
      [s[0]] + rest
  }

  /** Removing an element just appended, and present nowhere before,
      gives back the original sequence. */
  lemma RemoveFirstAppended<T>(s: seq<T>, x: T)
    requires x !in s
    ensures RemoveFirst(s + [x], x) == s
    decreases |s|
  {
    if s != [] {
      assert (s + [x])[1..] == s[1..] + [x];
      RemoveFirstAppended(s[1..], x);
    }
  }
}
