/** The client upload queue (frontend/src/components/UploadManager.tsx).

  Items are keyed by their position in the list. A drain pass works on the
  list as it was when the pass started (`snapshot`): it repeatedly scans for
  the lowest index that is pending there and is neither being processed nor
  settled, uploads that one file, and rescans. The two index sets and the
  "refresh owed" flag live in refs that survive clearing the list and are
  shared with any other pass, so a pass receives them as inputs.

  Every await of the pass is one `Attempt`: the events the event loop runs
  while the request is in flight (progress reports, further enqueues, the
  user clearing the list) and whether the request resolved.
 */
module UploadManager {
  import opened Common
  import opened Api
  import Services
  import FileStore

  datatype Status = Pending | Uploading | Completed | Error

  datatype UploadItem = UploadItem(file: FileHandle, progress: int, status: Status, error: Option<string>)

  /** The component's state: the visible list and the three refs. */
  datatype Manager = Manager(
    items: seq<UploadItem>,
    processing: set<nat>,
    completed: set<nat>,
    needsRefresh: bool)

  function NewItem(f: FileHandle): UploadItem {
    UploadItem(f, 0, Pending, None)
  }

  /** `handleUpload`: one pending item with progress 0 per file, appended
      after every existing item. */
  function Enqueue(items: seq<UploadItem>, files: seq<FileHandle>): (r: seq<UploadItem>)
    ensures |r| == |items| + |files|
    ensures r[..|items|] == items
    ensures forall k :: 0 <= k < |files| ==> r[|items| + k] == UploadItem(files[k], 0, Pending, None)
  {
    items + seq(|files|, k requires 0 <= k < |files| => NewItem(files[k]))
  }

  /** The four `setUploads(prev => prev.map(...))` updates of index `i`. */
  datatype Patch = MarkUploading | SetProgress(p: int) | MarkCompleted | MarkFailed

  function ApplyPatch(u: UploadItem, p: Patch): UploadItem {
    match p
    case MarkUploading => u.(status := Uploading)
    case SetProgress(v) => u.(progress := v)
    case MarkCompleted => u.(status := Completed, progress := 100)
    case MarkFailed => u.(status := Error, error := Some("Failed"))
  }

  /** Rewrite position `i` only; any other position, and a list too short to
      have position `i` (for one cleared meanwhile), is left as it was. */
  function PatchAt(items: seq<UploadItem>, i: nat, p: Patch): (r: seq<UploadItem>)
    ensures |r| == |items|
    ensures forall j :: 0 <= j < |items| && j != i ==> r[j] == items[j]
    ensures i < |items| ==> r[i] == ApplyPatch(items[i], p)
    ensures i >= |items| ==> r == items
  {
    seq(|items|, j requires 0 <= j < |items| => if j == i then ApplyPatch(items[j], p) else items[j])
  }

  /** The clear button: empties the list and nothing else. The refs keep the
      indices of earlier items. */
  function Clear(m: Manager): (r: Manager)
    ensures r.items == []
    ensures r.processing == m.processing && r.completed == m.completed && r.needsRefresh == m.needsRefresh
  {
    m.(items := [])
  }

  /** The effect's guard: a pass starts only when some item is pending. */
  predicate StartsPass(items: seq<UploadItem>) {
    exists i :: 0 <= i < |items| && items[i].status == Pending
  }

  /** Index `i` would be picked by a scan that reached it. */
  predicate EligibleAt(snapshot: seq<UploadItem>, processing: set<nat>, completed: set<nat>, i: nat) {
    i < |snapshot| && i !in processing && i !in completed && snapshot[i].status == Pending
  }

  function Eligible(snapshot: seq<UploadItem>, processing: set<nat>, completed: set<nat>): set<nat> {
    set i: nat | i < |snapshot| && EligibleAt(snapshot, processing, completed, i)
  }

  /** One pass of the inner `for` loop: the lowest eligible index, if any. */
  method Scan(snapshot: seq<UploadItem>, processing: set<nat>, completed: set<nat>) returns (pick: Option<nat>)
    ensures pick.Some? ==> EligibleAt(snapshot, processing, completed, pick.value)
    ensures pick.Some? ==> forall j: nat :: j < pick.value ==> !EligibleAt(snapshot, processing, completed, j)
    ensures pick.None? <==> Eligible(snapshot, processing, completed) == {}
  {
    var i := 0;
    while i < |snapshot|
      invariant 0 <= i <= |snapshot|
      invariant forall j: nat :: j < i ==> !EligibleAt(snapshot, processing, completed, j)
    {
      if i in processing || i in completed {
        i := i + 1;
        continue;
      }
      if snapshot[i].status == Pending {
        assert i in Eligible(snapshot, processing, completed);
        return Some(i);
      }
      i := i + 1;
    }
    return None;
  }

  /** Something the event loop runs while an upload is awaited. */
  datatype DuringEvent =
    | Progress(loaded: nat, total: Option<nat>)
    | Enqueued(files: seq<FileHandle>)
    | Cleared

  datatype Attempt = Attempt(during: seq<DuringEvent>, succeeded: bool)

  /** What `fileApi.upload` was called with. */
  datatype Request = Request(index: nat, file: FileHandle, folderId: Option<int>)

  datatype PassEvent = Started(index: nat) | Settled(index: nat, ok: bool)

  /** The list after the events that ran while index `i` was uploading. */
  function Await(items: seq<UploadItem>, i: nat, during: seq<DuringEvent>): seq<UploadItem>
    decreases |during|
  {
    if during == [] then items
    else
      var next :=
        match during[0]
        case Progress(loaded, total) =>
          (match Services.ProgressReport(loaded, total, true)
           case Some(p) => PatchAt(items, i, SetProgress(p))
           case None => items)
        case Enqueued(files) => Enqueue(items, files)
        case Cleared => [];
      Await(next, i, during[1..])
  }

  /** No enqueue and no clear happened during the await. */
  predicate Quiet(during: seq<DuringEvent>) {
    forall k :: 0 <= k < |during| ==> during[k].Progress?
  }

  /** Progress reports touch index `i` only and never its status. */
  lemma {:induction false} QuietAwait(items: seq<UploadItem>, i: nat, during: seq<DuringEvent>)
    requires Quiet(during)
    ensures |Await(items, i, during)| == |items|
    ensures forall j :: 0 <= j < |items| && j != i ==> Await(items, i, during)[j] == items[j]
    ensures i < |items| ==> Await(items, i, during)[i].status == items[i].status
    decreases |during|
  {
    if during != [] {
      var e := during[0];
      var next :=
        match Services.ProgressReport(e.loaded, e.total, true)
        case Some(p) => PatchAt(items, i, SetProgress(p))
        case None => items;
      assert Await(items, i, during) == Await(next, i, during[1..]);
      QuietAwait(next, i, during[1..]);
    }
  }

  /** The settled form of an item: completed with progress 100, or failed
      with the message 'Failed'. */
  predicate SettledAs(u: UploadItem, ok: bool) {
    if ok then u.status == Completed && u.progress == 100
    else u.status == Error && u.error == Some("Failed")
  }

  predicate AllQuiet(attempts: nat -> Attempt, n: nat) {
    forall k: nat :: k < n ==> Quiet(attempts(k).during)
  }

  /** The list-side effect of uploading index `i` once: mark it uploading,
      run what happens during the await, then record the outcome. */
  function RunAttempt(items: seq<UploadItem>, i: nat, a: Attempt): (r: seq<UploadItem>)
    ensures i < |r| ==> SettledAs(r[i], a.succeeded)
  {
    var after := Await(PatchAt(items, i, MarkUploading), i, a.during);
    PatchAt(after, i, if a.succeeded then MarkCompleted else MarkFailed)
  }

  /** Undisturbed, an attempt changes index `i` only, and leaves it settled. */
  lemma QuietAttempt(items: seq<UploadItem>, i: nat, a: Attempt)
    requires Quiet(a.during)
    ensures |RunAttempt(items, i, a)| == |items|
    ensures forall j :: 0 <= j < |items| && j != i ==> RunAttempt(items, i, a)[j] == items[j]
    ensures i < |items| ==> SettledAs(RunAttempt(items, i, a)[i], a.succeeded)
  {
    QuietAwait(PatchAt(items, i, MarkUploading), i, a.during);
  }

  /** Settling the picked index removes exactly it from the eligible set. */
  lemma SettleShrinks(snapshot: seq<UploadItem>, processing: set<nat>, completed: set<nat>, i: nat)
    requires i in Eligible(snapshot, processing, completed)
    ensures Eligible(snapshot, processing, completed + {i}) == Eligible(snapshot, processing, completed) - {i}
    ensures |Eligible(snapshot, processing, completed + {i})| == |Eligible(snapshot, processing, completed)| - 1
  {
    assert Eligible(snapshot, processing, completed + {i}) == Eligible(snapshot, processing, completed) - {i};
  }

  // ---------------------------------------------------------------------
  // The drain pass, with its loop state and invariants.

  /** The state a pass threads through its iterations; `done` holds the
      indices this pass has settled. */
  datatype PassState = PassState(
    items: seq<UploadItem>,
    completed: set<nat>,
    needsRefresh: bool,
    requests: seq<Request>,
    trace: seq<PassEvent>,
    done: set<nat>)

  /** One iteration that picked index `i`. */
  function Step(st: PassState, snapshot: seq<UploadItem>, folder: Option<int>, a: Attempt, i: nat): PassState
    requires i < |snapshot|
  {
    PassState(
      RunAttempt(st.items, i, a),
      st.completed + {i},
      st.needsRefresh || a.succeeded,
      st.requests + [Request(i, snapshot[i].file, folder)],
      st.trace + [Started(i), Settled(i, a.succeeded)],
      st.done + {i})
  }

  /** Picked index `i` is the lowest eligible one. */
  predicate Lowest(snapshot: seq<UploadItem>, processing: set<nat>, completed: set<nat>, i: nat) {
    EligibleAt(snapshot, processing, completed, i) &&
    forall j: nat :: j < i ==> !EligibleAt(snapshot, processing, completed, j)
  }

  /** Settled indices: the eligible ones not yet settled stay eligible, all
      requested ones are settled and lie below every remaining one. */
  predicate SetsInv(m: Manager, snapshot: seq<UploadItem>, st: PassState) {
    var E0 := Eligible(snapshot, m.processing, m.completed);
    && st.done <= E0
    && st.completed == m.completed + st.done
    && Eligible(snapshot, m.processing, st.completed) == E0 - st.done
    && |st.requests| + |E0 - st.done| == |E0|
    && (forall k :: 0 <= k < |st.requests| ==> st.requests[k].index in st.done)
    && (forall k, j :: 0 <= k < |st.requests| && j in E0 - st.done ==> st.requests[k].index < j)
  }

  /** The events of a pass that made `requests`: each upload is started,
      then settled with its attempt's outcome, before the next one. */
  function PassTrace(requests: seq<Request>, attempts: nat -> Attempt): seq<PassEvent>
    decreases |requests|
  {
    if requests == [] then []
    else
      var n := |requests| - 1;
      PassTrace(requests[..n], attempts) + [Started(requests[n].index), Settled(requests[n].index, attempts(n).succeeded)]
  }

  /** Event `2k` starts request `k` and event `2k + 1` settles it. */
  lemma {:induction false} PassTraceShape(requests: seq<Request>, attempts: nat -> Attempt)
    ensures |PassTrace(requests, attempts)| == 2 * |requests|
    ensures forall k :: 0 <= k < |requests| ==>
              PassTrace(requests, attempts)[2 * k] == Started(requests[k].index) &&
              PassTrace(requests, attempts)[2 * k + 1] == Settled(requests[k].index, attempts(k).succeeded)
    decreases |requests|
  {
    if requests != [] {
      var n := |requests| - 1;
      var prefix := requests[..n];
      PassTraceShape(prefix, attempts);
      var t := PassTrace(requests, attempts);
      var t0 := PassTrace(prefix, attempts);
      assert t == t0 + [Started(requests[n].index), Settled(requests[n].index, attempts(n).succeeded)];
      forall k | 0 <= k < |requests|
        ensures t[2 * k] == Started(requests[k].index)
        ensures t[2 * k + 1] == Settled(requests[k].index, attempts(k).succeeded)
      {
        if k < n {
          assert prefix[k] == requests[k];
          assert t[2 * k] == t0[2 * k];
          assert t[2 * k + 1] == t0[2 * k + 1];
        }
      }
    }
  }

  predicate RequestsInv(snapshot: seq<UploadItem>, folder: Option<int>, attempts: nat -> Attempt, st: PassState) {
    && (forall k1, k2 :: 0 <= k1 < k2 < |st.requests| ==> st.requests[k1].index < st.requests[k2].index)
    && (forall k :: 0 <= k < |st.requests| ==>
          st.requests[k].index < |snapshot| &&
          st.requests[k].file == snapshot[st.requests[k].index].file && st.requests[k].folderId == folder)
    && st.trace == PassTrace(st.requests, attempts)
  }

  predicate RefreshInv(m: Manager, attempts: nat -> Attempt, st: PassState) {
    st.needsRefresh <==> m.needsRefresh || exists k :: 0 <= k < |st.requests| && attempts(k).succeeded
  }

  /** With `k` the position of a request, the list shows request `k`'s
      outcome at its index, and every index outside `settled` is as before. */
  predicate ShowsOutcomes(before: seq<UploadItem>, after: seq<UploadItem>, settled: set<nat>, requests: seq<Request>, attempts: nat -> Attempt) {
    && |after| == |before|
    && (forall k :: 0 <= k < |requests| && requests[k].index < |before| ==>
          SettledAs(after[requests[k].index], attempts(k).succeeded))
    && (forall j :: 0 <= j < |before| && j !in settled ==> after[j] == before[j])
  }

  predicate ItemsInv(m: Manager, attempts: nat -> Attempt, st: PassState) {
    AllQuiet(attempts, |st.requests|) ==> ShowsOutcomes(m.items, st.items, st.done, st.requests, attempts)
  }

  /** Every index of `eligible` is requested exactly once, lowest first,
      with the file at that index and the given folder; no other index is. */
  predicate ServesInOrder(snapshot: seq<UploadItem>, folder: Option<int>, eligible: set<nat>, requests: seq<Request>) {
    && |requests| == |eligible|
    && (forall k :: 0 <= k < |requests| ==> requests[k].index in eligible)
    && (forall k1, k2 :: 0 <= k1 < k2 < |requests| ==> requests[k1].index < requests[k2].index)
    && (forall k :: 0 <= k < |requests| ==>
          requests[k].index < |snapshot| &&
          requests[k].file == snapshot[requests[k].index].file && requests[k].folderId == folder)
  }

  lemma StepSets(m: Manager, snapshot: seq<UploadItem>, folder: Option<int>, a: Attempt, st: PassState, i: nat)
    requires SetsInv(m, snapshot, st) && Lowest(snapshot, m.processing, st.completed, i)
    ensures SetsInv(m, snapshot, Step(st, snapshot, folder, a, i))
  {
    var E0 := Eligible(snapshot, m.processing, m.completed);
    var st' := Step(st, snapshot, folder, a, i);
    assert i in Eligible(snapshot, m.processing, st.completed);
    SettleShrinks(snapshot, m.processing, st.completed, i);
    assert E0 - st'.done == (E0 - st.done) - {i};
    StepOrder(E0, st.done, st.requests, Request(i, snapshot[i].file, folder));
  }

  /** Appending the lowest remaining index keeps every request below every
      index still to come. */
  lemma StepOrder(E0: set<nat>, done: set<nat>, requests: seq<Request>, r: Request)
    requires r.index in E0 - done
    requires forall j :: j in E0 - done ==> r.index <= j
    requires forall k :: 0 <= k < |requests| ==> requests[k].index in done
    requires forall k, j :: 0 <= k < |requests| && j in E0 - done ==> requests[k].index < j
    ensures forall k :: 0 <= k < |requests + [r]| ==> (requests + [r])[k].index in done + {r.index}
    ensures forall k, j :: 0 <= k < |requests + [r]| && j in E0 - (done + {r.index}) ==> (requests + [r])[k].index < j
  {
    var rs := requests + [r];
    forall k, j | 0 <= k < |rs| && j in E0 - (done + {r.index}) ensures rs[k].index < j {
      assert j in E0 - done;
      if k < |requests| {
        assert rs[k] == requests[k];
      } else {
        assert rs[k] == r;
      }
    }
  }

  /** The picked index is fresh and lies above every index already requested. */
  lemma PickAbove(m: Manager, snapshot: seq<UploadItem>, st: PassState, i: nat)
    requires SetsInv(m, snapshot, st) && Lowest(snapshot, m.processing, st.completed, i)
    ensures i !in st.done
    ensures forall k :: 0 <= k < |st.requests| ==> st.requests[k].index < i
  {
    assert i in Eligible(snapshot, m.processing, st.completed);
  }

  lemma StepRequests(snapshot: seq<UploadItem>, folder: Option<int>, attempts: nat -> Attempt, st: PassState, i: nat)
    requires RequestsInv(snapshot, folder, attempts, st) && i < |snapshot|
    requires forall k :: 0 <= k < |st.requests| ==> st.requests[k].index < i
    ensures RequestsInv(snapshot, folder, attempts, Step(st, snapshot, folder, attempts(|st.requests|), i))
  {
    var st' := Step(st, snapshot, folder, attempts(|st.requests|), i);
    assert st'.requests[..|st.requests|] == st.requests;
  }

  lemma StepItems(m: Manager, snapshot: seq<UploadItem>, folder: Option<int>, attempts: nat -> Attempt, st: PassState, i: nat)
    requires ItemsInv(m, attempts, st) && i < |snapshot| && i !in st.done
    requires forall k :: 0 <= k < |st.requests| ==> st.requests[k].index in st.done
    ensures ItemsInv(m, attempts, Step(st, snapshot, folder, attempts(|st.requests|), i))
  {
    var a := attempts(|st.requests|);
    var st' := Step(st, snapshot, folder, a, i);
    if AllQuiet(attempts, |st'.requests|) {
      assert AllQuiet(attempts, |st.requests|);
      assert Quiet(a.during);
      QuietAttempt(st.items, i, a);
    }
  }

  lemma StepRefresh(m: Manager, snapshot: seq<UploadItem>, folder: Option<int>, attempts: nat -> Attempt, st: PassState, i: nat)
    requires RefreshInv(m, attempts, st) && i < |snapshot|
    ensures RefreshInv(m, attempts, Step(st, snapshot, folder, attempts(|st.requests|), i))
  {
    var n := |st.requests|;
    var st' := Step(st, snapshot, folder, attempts(n), i);
    assert |st'.requests| == n + 1;
    if attempts(n).succeeded {
      assert st'.needsRefresh;
    } else if exists k :: 0 <= k < n + 1 && attempts(k).succeeded {
      var k :| 0 <= k < n + 1 && attempts(k).succeeded;
      assert k < n;
    }
  }

  /** What a finished pass has achieved, read off its final state. */
  lemma PassOutcome(m: Manager, snapshot: seq<UploadItem>, folder: Option<int>, attempts: nat -> Attempt, st: PassState)
    requires SetsInv(m, snapshot, st) && RequestsInv(snapshot, folder, attempts, st)
    requires st.done == Eligible(snapshot, m.processing, m.completed)
    ensures ServesInOrder(snapshot, folder, Eligible(snapshot, m.processing, m.completed), st.requests)
    ensures st.completed == m.completed + Eligible(snapshot, m.processing, m.completed)
  {
    var E0 := Eligible(snapshot, m.processing, m.completed);
    assert E0 - st.done == {};
  }

  predicate PassInv(m: Manager, snapshot: seq<UploadItem>, folder: Option<int>, attempts: nat -> Attempt, st: PassState) {
    SetsInv(m, snapshot, st) && RequestsInv(snapshot, folder, attempts, st) &&
    RefreshInv(m, attempts, st) && ItemsInv(m, attempts, st)
  }

  /** One iteration of the `while (hasMorePending)` loop: scan, and upload
      the picked index if there is one. */
  method Iterate(m: Manager, snapshot: seq<UploadItem>, folder: Option<int>, attempts: nat -> Attempt, st: PassState)
    returns (st': PassState, hasMorePending: bool)
    requires PassInv(m, snapshot, folder, attempts, st)
    ensures PassInv(m, snapshot, folder, attempts, st')
    ensures st.done <= st'.done <= Eligible(snapshot, m.processing, m.completed)
    ensures hasMorePending ==> |Eligible(snapshot, m.processing, m.completed) - st'.done| < |Eligible(snapshot, m.processing, m.completed) - st.done|
    ensures !hasMorePending ==> st'.done == Eligible(snapshot, m.processing, m.completed)
  {
    // processingRef holds the picked index exactly while it is awaited
    var pick := Scan(snapshot, m.processing, st.completed);
    if pick.Some? {
      var i := pick.value;
      PickAbove(m, snapshot, st, i);
      StepSets(m, snapshot, folder, attempts(|st.requests|), st, i);
      StepRequests(snapshot, folder, attempts, st, i);
      StepItems(m, snapshot, folder, attempts, st, i);
      StepRefresh(m, snapshot, folder, attempts, st, i);
      st' := Step(st, snapshot, folder, attempts(|st.requests|), i);
      hasMorePending := true;
    } else {
      st', hasMorePending := st, false;
    }
  }

  function Start(m: Manager): PassState {
    PassState(m.items, m.completed, m.needsRefresh, [], [], {})
  }

  lemma PassStart(m: Manager, snapshot: seq<UploadItem>, folder: Option<int>, attempts: nat -> Attempt)
    ensures PassInv(m, snapshot, folder, attempts, Start(m))
  {
  }

  /** `processUploads`: one drain pass over `snapshot`, uploading to the
      folder captured when the pass started. */
  method DrainPass(m: Manager, snapshot: seq<UploadItem>, folder: Option<int>, attempts: nat -> Attempt)
    returns (m': Manager, requests: seq<Request>, trace: seq<PassEvent>, refreshed: bool)
    // every index eligible at the start is uploaded once, lowest first, and no other
    ensures ServesInOrder(snapshot, folder, Eligible(snapshot, m.processing, m.completed), requests)
    // each upload is started, then settled, before the next one starts
    ensures trace == PassTrace(requests, attempts)
    // settled indices are remembered, so nothing is retried
    ensures m'.completed == m.completed + Eligible(snapshot, m.processing, m.completed)
    ensures m'.processing == m.processing
    // one refresh at most, owed by a success (or by an earlier pass)
    ensures refreshed <==> m.needsRefresh || exists k :: 0 <= k < |requests| && attempts(k).succeeded
    ensures !m'.needsRefresh
    // with no enqueue or clear meanwhile, the list shows each outcome
    ensures AllQuiet(attempts, |requests|) ==>
              ShowsOutcomes(m.items, m'.items, Eligible(snapshot, m.processing, m.completed), requests, attempts)
  {
    var st := Start(m);
    PassStart(m, snapshot, folder, attempts);
    var hasMorePending := true;
    while hasMorePending
      invariant PassInv(m, snapshot, folder, attempts, st)
      invariant !hasMorePending ==> st.done == Eligible(snapshot, m.processing, m.completed)
      decreases |Eligible(snapshot, m.processing, m.completed) - st.done|, hasMorePending
    {
      st, hasMorePending := Iterate(m, snapshot, folder, attempts, st);
    }
    PassOutcome(m, snapshot, folder, attempts, st);
    requests, trace, refreshed := st.requests, st.trace, st.needsRefresh;
    m' := Manager(st.items, m.processing, st.completed, false);
  }

  /** The effect body: start a pass over the current list when something is
      pending, uploading into the store's current folder, then bump the
      store's refresh counter if the pass owes one. */
  method OnUploadsChanged(m: Manager, store: FileStore.Store, attempts: nat -> Attempt)
    returns (m': Manager, store': FileStore.Store, requests: seq<Request>)
    ensures !StartsPass(m.items) ==> m' == m && store' == store && requests == []
    // a pass uploads every eligible index once, lowest first, into the current folder
    ensures StartsPass(m.items) ==>
              ServesInOrder(m.items, store.currentFolderId, Eligible(m.items, m.processing, m.completed), requests)
    ensures StartsPass(m.items) ==> m'.completed == m.completed + Eligible(m.items, m.processing, m.completed)
    // the counter moves by one exactly when a refresh is owed, and nothing else in the store changes
    ensures StartsPass(m.items) ==>
              (store'.refreshTrigger == store.refreshTrigger + 1 <==>
                 m.needsRefresh || exists k :: 0 <= k < |requests| && attempts(k).succeeded)
    ensures store'.refreshTrigger == store.refreshTrigger || store'.refreshTrigger == store.refreshTrigger + 1
    ensures store'.(refreshTrigger := store.refreshTrigger) == store
    ensures forall k :: 0 <= k < |requests| ==> requests[k].index < |m.items| && m.items[requests[k].index].status == Pending
  {
    if StartsPass(m.items) {
      var trace, refreshed;
      m', requests, trace, refreshed := DrainPass(m, m.items, store.currentFolderId, attempts);
      store' := if refreshed then FileStore.TriggerRefresh(store) else store;
    } else {
      m', store', requests := m, store, [];
    }
  }

  // ---------------------------------------------------------------------
  // One upload in flight per pass.

  /** Uploads started but not yet settled in a prefix of a pass's trace. */
  function InFlight(trace: seq<PassEvent>): int
    decreases |trace|
  {
    if trace == [] then 0
    else InFlight(trace[..|trace| - 1]) + (if trace[|trace| - 1].Started? then 1 else -1)
  }

  /** The shape `DrainPass` guarantees: start, settle, start, settle, ... */
  predicate Alternating(trace: seq<PassEvent>) {
    forall k :: 0 <= k < |trace| ==> (trace[k].Started? <==> k % 2 == 0)
  }

  /** Within one pass at most one upload is awaited at any moment: after
      every prefix of its trace the in-flight count is 0 or 1. */
  lemma {:induction false} OneInFlight(trace: seq<PassEvent>, p: nat)
    requires Alternating(trace) && p <= |trace|
    ensures InFlight(trace[..p]) == p % 2
    ensures 0 <= InFlight(trace[..p]) <= 1
  {
    if p > 0 {
      OneInFlight(trace, p - 1);
      assert trace[..p][..p - 1] == trace[..p - 1];
    }
  }

  /** The trace of any drain pass alternates, hence has one upload in
      flight at a time. */
  lemma PassTraceAlternates(requests: seq<Request>, attempts: nat -> Attempt)
    ensures Alternating(PassTrace(requests, attempts))
  {
    var trace := PassTrace(requests, attempts);
    PassTraceShape(requests, attempts);
    forall k | 0 <= k < |trace| ensures trace[k].Started? <==> k % 2 == 0 {
      var q := k / 2;
      assert q < |requests|;
      if k % 2 == 0 {
        assert k == 2 * q;
        assert trace[2 * q] == Started(requests[q].index);
      } else {
        assert k == 2 * q + 1;
        assert trace[2 * q + 1] == Settled(requests[q].index, attempts(q).succeeded);
      }
    }
  }

  /** Clearing keeps the settled indices, so a file enqueued later at such a
      position stays pending but no pass ever picks it. */
  lemma ReusedIndexSkipped(m: Manager, files: seq<FileHandle>, k: nat)
    requires k in m.completed && k < |files|
    ensures Enqueue(Clear(m).items, files)[k].status == Pending
    ensures k !in Eligible(Enqueue(Clear(m).items, files), m.processing, m.completed)
  {
  }
}
