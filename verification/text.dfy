/** String operations the frontend relies on, with JavaScript's meaning:
  `String.prototype.trim`, `startsWith`, `includes`, `repeat`, and the
  decimal rendering of integers that template literals and `+` perform.
 */
module Text {
  import opened Common

  /** JavaScript's WhiteSpace and LineTerminator code points, the set that
      `trim()` strips (section 22.1.3.32 of ECMA-262 refers to them). */
  predicate IsSpace(c: char) {
    || c == ' ' || c == '\t' || c == '\n' || c == '\r'
    || c == '\U{000B}' || c == '\U{000C}' || c == '\U{00A0}' || c == '\U{1680}'
    || ('\U{2000}' <= c <= '\U{200A}')
    || c == '\U{2028}' || c == '\U{2029}' || c == '\U{202F}' || c == '\U{205F}'
    || c == '\U{3000}' || c == '\U{FEFF}'
  }

  predicate AllSpace(s: string) {
    forall i :: 0 <= i < |s| ==> IsSpace(s[i])
  }

  /** The number of white-space characters `s` starts with. */
  function Lead(s: string): (n: nat)
    ensures n <= |s|
  {
    if s != [] && IsSpace(s[0]) then 1 + Lead(s[1..]) else 0
  }

  /** The number of white-space characters `s` ends with. */
  function Trail(s: string): (n: nat)
    ensures n <= |s|
  {
    if s != [] && IsSpace(s[|s| - 1]) then 1 + Trail(s[..|s| - 1]) else 0
  }

  /** The leading run is all white space and stops at a character that is
      not. */
  lemma {:induction false} LeadSpaces(s: string)
    ensures forall i | 0 <= i < Lead(s) :: IsSpace(s[i])
    ensures Lead(s) < |s| ==> !IsSpace(s[Lead(s)])
    decreases |s|
  {
    if s != [] && IsSpace(s[0]) {
      LeadSpaces(s[1..]);
      forall i | 0 <= i < Lead(s) ensures IsSpace(s[i]) {
        if i > 0 {
          assert s[1..][i - 1] == s[i];
        }
      }
      if Lead(s) < |s| {
        assert s[1..][Lead(s) - 1] == s[Lead(s)];
      }
    }
  }

  /** The trailing run is all white space and stops at a character that is
      not. */
  lemma {:induction false} TrailSpaces(s: string)
    ensures forall i | |s| - Trail(s) <= i < |s| :: IsSpace(s[i])
    ensures Trail(s) < |s| ==> !IsSpace(s[|s| - 1 - Trail(s)])
    decreases |s|
  {
    if s != [] && IsSpace(s[|s| - 1]) {
      var p := s[..|s| - 1];
      TrailSpaces(p);
      forall i | |s| - Trail(s) <= i < |s| ensures IsSpace(s[i]) {
        if i < |s| - 1 {
          assert p[i] == s[i];
        }
      }
      if Trail(s) < |s| {
        assert p[|s| - 1 - Trail(s)] == s[|s| - 1 - Trail(s)];
      }
    }
  }

  /** `s` without its leading white space. */
  function TrimStart(s: string): string {
    s[Lead(s)..]
  }

  /** `s` without its trailing white space. */
  function TrimEnd(s: string): string {
    s[..|s| - Trail(s)]
  }

  /** `s.trim()`: the slice of `s` left after dropping the white space at
      both ends; what is dropped is white space, and the slice neither
      starts nor ends with it. */
  function Trim(s: string): (r: string)
    ensures var a := Lead(s);
            && a + |r| <= |s| && r == s[a..a + |r|]
            && AllSpace(s[..a]) && AllSpace(s[a + |r|..])
    ensures r == [] || (!IsSpace(r[0]) && !IsSpace(r[|r| - 1]))
  {
    var a := Lead(s);
    var b := |s| - Trail(s[a..]);
    TrimmedEnds(s, a, b);
    s[a..b]
  }

  lemma TrimmedEnds(s: string, a: nat, b: nat)
    requires a == Lead(s) && b == |s| - Trail(s[a..])
    ensures a <= b <= |s|
    ensures AllSpace(s[..a]) && AllSpace(s[b..])
    ensures a < b ==> !IsSpace(s[a]) && !IsSpace(s[b - 1])
  {
    LeadPrefix(s);
    TrailSuffix(s, a, b);
    TrimmedEdges(s, a, b);
  }

  lemma LeadPrefix(s: string)
    ensures AllSpace(s[..Lead(s)])
  {
    var a := Lead(s);
    LeadSpaces(s);
    forall i | 0 <= i < a ensures IsSpace(s[..a][i]) {
      assert s[..a][i] == s[i];
    }
  }

  lemma TrailSuffix(s: string, a: nat, b: nat)
    requires a <= |s| && b == |s| - Trail(s[a..])
    ensures AllSpace(s[b..])
  {
    var t := s[a..];
    TrailSpaces(t);
    forall i | 0 <= i < |s| - b ensures IsSpace(s[b..][i]) {
      assert s[b..][i] == t[b - a + i];
    }
  }

  lemma TrimmedEdges(s: string, a: nat, b: nat)
    requires a == Lead(s) && b == |s| - Trail(s[a..])
    ensures a < b ==> !IsSpace(s[a]) && !IsSpace(s[b - 1])
  {
    if a < b {
      var t := s[a..];
      LeadSpaces(s);
      TrailSpaces(t);
      assert t[|t| - 1 - Trail(t)] == s[b - 1];
    }
  }

  /** An input counts as blank exactly when trimming empties it. */
  lemma TrimEmptyIffAllSpace(s: string)
    ensures Trim(s) == [] <==> AllSpace(s)
  {
    var r := Trim(s);
    var a := Lead(s);
    if r == [] {
      forall i | 0 <= i < |s| ensures IsSpace(s[i]) {
        if i < a { assert s[..a][i] == s[i]; } else { assert s[a..][i - a] == s[i]; }
      }
    } else {
      assert !IsSpace(r[0]) && r[0] == s[a];
    }
  }

  /** Appending to text that is not all white space leaves its leading
      white space as it was. */
  lemma {:induction false} LeadAppend(s: string, t: string)
    requires !AllSpace(s)
    ensures Lead(s + t) == Lead(s)
    decreases |s|
  {
    var j :| 0 <= j < |s| && !IsSpace(s[j]);
    if IsSpace(s[0]) {
      assert (s + t)[1..] == s[1..] + t;
      assert s[1..][j - 1] == s[j];
      LeadAppend(s[1..], t);
    }
  }

  /** A trailing space added to text that is not all white space is trimmed
      away again. */
  lemma TrimTrailingSpace(s: string)
    requires !AllSpace(s)
    ensures Trim(s + " ") == Trim(s)
  {
    var a := Lead(s);
    LeadAppend(s, " ");
    var x := s[a..];
    assert (s + " ")[a..] == x + " ";
    assert (x + " ")[..|x|] == x;
    assert Trail(x + " ") == 1 + Trail(x);
    assert (s + " ")[a..|s| - Trail(x)] == s[a..|s| - Trail(x)];
  }

  /** Trimming twice is trimming once. */
  lemma TrimIdempotent(s: string)
    ensures Trim(Trim(s)) == Trim(s)
  {
    var r := Trim(s);
    if r != [] {
      assert Lead(r) == 0;
      assert Trail(r) == 0;
      assert r[0..] == r;
    }
  }

  function StartsWith(s: string, prefix: string): bool {
    |prefix| <= |s| && s[..|prefix|] == prefix
  }

  /** A copy of `t` starts at offset `k` of `s`. */
  predicate OccursAt(s: string, t: string, k: int) {
    0 <= k <= |s| - |t| && s[k..k + |t|] == t
  }

  /** `s.includes(t)`. */
  predicate Contains(s: string, t: string) {
    exists k | 0 <= k <= |s| :: OccursAt(s, t, k)
  }

  /** `s.repeat(n)`. */
  function Repeat(s: string, n: nat): (r: string)
    ensures |r| == n * |s|
    ensures forall k :: 0 <= k < |r| ==> r[k] in s
    ensures |s| > 0 ==> forall k :: 0 <= k < |r| ==> r[k] == s[k % |s|]
  {
    if n == 0 then []
    else
      var t := Repeat(s, n - 1);
      if |s| > 0 then RepeatStep(s, t); s + t else s + t
  }

  /** One more copy in front keeps every character at its place in the
      cycle. */
  lemma RepeatStep(s: string, t: string)
    requires |s| > 0 && forall k :: 0 <= k < |t| ==> t[k] == s[k % |s|]
    ensures forall k :: 0 <= k < |s + t| ==> (s + t)[k] == s[k % |s|]
  {
    forall k | 0 <= k < |s + t| ensures (s + t)[k] == s[k % |s|] {
      if k < |s| {
        ModUnique(k, |s|, 0, k);
      } else {
        assert (s + t)[k] == t[k - |s|];
        ModShift(k, |s|);
      }
    }
  }

  lemma ModShift(k: int, m: int)
    requires 0 < m <= k
    ensures (k - m) % m == k % m
  {
    ModUnique(k - m, m, k / m - 1, k % m);
  }

  /** A quotient-remainder split with the remainder in range is the one `%` gives. */
  lemma ModUnique(x: int, m: int, q: int, rr: int)
    requires 0 < m && 0 <= rr < m && x == q * m + rr
    ensures x % m == rr
  {
    var d := x / m - q;
    assert d * m == rr - x % m;
    MulBound(d, m);
  }

  lemma MulBound(d: int, m: int)
    requires 0 < m
    ensures d >= 1 ==> d * m >= m
    ensures d <= -1 ==> d * m <= -m
  {
  }

  // ---------------------------------------------------------------------
  // Decimal rendering of integers (`String(n)`, `${n}`, `n + ' B'`).

  predicate IsDigit(c: char) { '0' <= c <= '9' }

  function DigitChar(d: nat): (c: char)
    requires d < 10
    ensures IsDigit(c)
  {
    ('0' as int + d) as char
  }

  function DigitValue(c: char): (d: nat)
    requires IsDigit(c)
    ensures d < 10 && DigitChar(d) == c
  {
    (c as int - '0' as int)
  }

  /** Shortest decimal rendering of a natural number, no leading zero. */
  function NatToString(n: nat): (s: string)
    ensures |s| >= 1
    ensures forall i :: 0 <= i < |s| ==> IsDigit(s[i])
    ensures s[0] != '0' || n == 0
  {
    if n < 10 then [DigitChar(n)] else NatToString(n / 10) + [DigitChar(n % 10)]
  }

  /** Decimal value of a string of digits. */
  function DigitsValue(s: string): nat
    requires forall i :: 0 <= i < |s| ==> IsDigit(s[i])
  {
    if s == [] then 0 else 10 * DigitsValue(s[..|s| - 1]) + DigitValue(s[|s| - 1])
  }

  /** Reading back a rendered natural number gives the number. */
  lemma {:induction false} NatToStringRoundTrip(n: nat)
    ensures DigitsValue(NatToString(n)) == n
  {
    var s := NatToString(n);
    if n >= 10 {
      var q, d := n / 10, n % 10;
      NatToStringRoundTrip(q);
      assert s == NatToString(q) + [DigitChar(d)];
      assert s[..|s| - 1] == NatToString(q);
      assert DigitsValue(s) == 10 * q + d;
    }
  }

  /** JavaScript's rendering of an integer-valued number. */
  function IntToString(i: int): (s: string)
    ensures |s| >= 1
    ensures s[0] == '-' <==> i < 0
    ensures forall k :: (if i < 0 then 1 else 0) <= k < |s| ==> IsDigit(s[k])
  {
    if i < 0 then "-" + NatToString(-i) else NatToString(i)
  }

  /** `Number(s)` restricted to optional minus sign and decimal digits; every
      other text is `NaN` here (`None`). */
  function ParseInt(s: string): (r: Option<int>)
    ensures r.Some? ==> |s| >= 1 && (s[0] == '-' || IsDigit(s[0])) && forall k :: 1 <= k < |s| ==> IsDigit(s[k])
    ensures r.Some? && r.value < 0 ==> s[0] == '-'
  {
    if |s| >= 2 && s[0] == '-' && (forall i :: 1 <= i < |s| ==> IsDigit(s[i]))
    then Some(0 - DigitsValue(s[1..]))
    else if |s| >= 1 && (forall i :: 0 <= i < |s| ==> IsDigit(s[i]))
    then Some(DigitsValue(s))
    else None
  }

  /** Rendering then parsing an integer is the identity. */
  lemma IntToStringRoundTrip(i: int)
    ensures ParseInt(IntToString(i)) == Some(i)
  {
    var s := IntToString(i);
    if i < 0 {
      var t := NatToString(-i);
      assert s == ['-'] + t;
      NatToStringRoundTrip(-i);
      assert s[1..] == t;
      assert |s| >= 2 && s[0] == '-';
      assert forall k :: 1 <= k < |s| ==> IsDigit(s[k]) by {
        forall k | 1 <= k < |s| ensures IsDigit(s[k]) { assert s[k] == t[k - 1]; }
      }
      assert DigitsValue(s[1..]) == -i;
    } else {
      NatToStringRoundTrip(i);
      assert IsDigit(s[0]);
    }
  }

  /** Distinct integers render differently. */
  lemma IntToStringInjective(i: int, j: int)
    ensures IntToString(i) == IntToString(j) ==> i == j
  {
    IntToStringRoundTrip(i);
    IntToStringRoundTrip(j);
  }

  /** The first character of a rendered integer is a digit or the minus sign. */
  lemma IntToStringHead(i: int)
    ensures IntToString(i)[0] == '-' || IsDigit(IntToString(i)[0])
  {
  }

  // ---------------------------------------------------------------------
  // `parseInt(s)` with no radix.

  /** Length of the run of decimal digits that starts `s`. */
  function DigitRun(s: string): (n: nat)
    ensures n <= |s|
    ensures forall i :: 0 <= i < n ==> IsDigit(s[i])
    ensures n < |s| ==> !IsDigit(s[n])
  {
    if s != [] && IsDigit(s[0]) then 1 + DigitRun(s[1..]) else 0
  }

  /** `parseInt(s)`: skip leading white space, read an optional sign and
      then the longest run of decimal digits, ignoring what follows; no
      digit at all is `NaN` (`None`). */
  function ParseIntPrefix(s: string): (r: Option<int>)
    ensures r.Some? ==> exists k :: 0 <= k < |s| && IsDigit(s[k])
    ensures s != [] && IsDigit(s[0]) ==> r.Some? && r.value >= 0
  {
    var t := TrimStart(s);
    var signed := |t| > 0 && (t[0] == '-' || t[0] == '+');
    var body := if signed then t[1..] else t;
    var n := DigitRun(body);
    if n == 0 then None
    else
    assert IsDigit(s[Lead(s) + (if signed then 1 else 0)]) by {
      assert body[0] == s[Lead(s) + (if signed then 1 else 0)];
    }
    if signed && t[0] == '-' then Some(0 - DigitsValue(body[..n]))
    else Some(DigitsValue(body[..n]))
  }

  /** `parseInt` reads back what `String(n)` wrote, which is what makes a
      route built from an id lead back to that id. */
  lemma ParseIntPrefixRendered(i: int)
    ensures ParseIntPrefix(IntToString(i)) == Some(i)
  {
    var s := IntToString(i);
    IntToStringHead(i);
    assert !IsSpace(s[0]);
    assert TrimStart(s) == s;
    IntToStringRoundTrip(i);
    if i < 0 {
      var body := s[1..];
      assert forall k :: 0 <= k < |body| ==> IsDigit(body[k]);
      AllDigitsRun(body);
      assert body[..|body|] == body;
    } else {
      AllDigitsRun(s);
      assert s[..|s|] == s;
    }
  }

  lemma {:induction false} AllDigitsRun(s: string)
    requires forall k :: 0 <= k < |s| ==> IsDigit(s[k])
    ensures DigitRun(s) == |s|
  {
    if s != [] {
      AllDigitsRun(s[1..]);
    }
  }

  // ---------------------------------------------------------------------
  // Byte counts.

  /** `bytes + ' B'`: the integer branch shared by the size formatters. */
  function ByteLabel(bytes: int): (r: string)
    ensures |r| >= 3 && r[|r| - 2..] == " B"
  {
    IntToString(bytes) + " B"
  }

  /** The count can be read back from its label. */
  lemma ByteLabelRoundTrip(bytes: int)
    ensures var r := ByteLabel(bytes); ParseInt(r[..|r| - 2]) == Some(bytes)
  {
    var r := ByteLabel(bytes);
    assert r[..|r| - 2] == IntToString(bytes);
    IntToStringRoundTrip(bytes);
  }
}
