/** The drop area wrapped around the explorer
  (frontend/src/components/UploadZone.tsx): a counter of nested drag-enter
  and drag-leave events decides when the overlay is shown, and a drop hands
  its files to the upload queue.
 */
module UploadZone {
  import opened Common
  import opened Api

  /** `dragCounterRef.current` and `dragActive`. */
  datatype Zone = Zone(counter: int, active: bool)

  const Idle := Zone(0, false)

  datatype DragEvent = Enter | Leave | Over | Drop(files: seq<FileHandle>)

  /** The overlay is shown exactly while the counter is positive. */
  predicate Consistent(z: Zone) {
    z.active <==> z.counter > 0
  }

  /** One handler run: the zone afterwards and the files passed to
      `triggerUpload`, if any. */
  function Step(z: Zone, e: DragEvent): (r: (Zone, Option<seq<FileHandle>>))
    ensures e.Over? ==> r == (z, None)
    ensures e.Drop? ==> r.0 == Idle
    ensures r.1.Some? <==> e.Drop? && |e.files| > 0
    ensures r.1.Some? ==> r.1.value == e.files
    ensures Consistent(z) ==> Consistent(r.0)
  {
    match e
    case Enter =>
      var c := z.counter + 1;
      (Zone(c, if c == 1 then true else z.active), None)
    case Leave =>
      var c := z.counter - 1;
      (Zone(c, if c == 0 then false else z.active), None)
    case Over => (z, None)
    case Drop(files) => (Idle, if |files| > 0 then Some(files) else None)
  }

  /** The zone after a run of events, and the batches enqueued, in order. */
  function Run(z: Zone, events: seq<DragEvent>): (r: (Zone, seq<seq<FileHandle>>))
    ensures Consistent(z) ==> Consistent(r.0)
    ensures |r.1| <= |events|
  {
    if events == [] then (z, [])
    else
      var (z', batches) := Run(z, events[..|events| - 1]);
      var (z'', out) := Step(z', events[|events| - 1]);
      (z'', batches + (if out.Some? then [out.value] else []))
  }

  /** Enters minus leaves since the last drop. */
  function Depth(events: seq<DragEvent>): int {
    if events == [] then 0
    else
      var d := Depth(events[..|events| - 1]);
      match events[|events| - 1]
      case Enter => d + 1
      case Leave => d - 1
      case Over => d
      case Drop(_) => 0
  }

  /** The non-empty dropped file lists, in order. */
  function Dropped(events: seq<DragEvent>): seq<seq<FileHandle>> {
    if events == [] then []
    else
      var e := events[0];
      (if e.Drop? && |e.files| > 0 then [e.files] else []) + Dropped(events[1..])
  }

  lemma {:induction false} DroppedSnoc(events: seq<DragEvent>, e: DragEvent)
    ensures Dropped(events + [e]) == Dropped(events) + (if e.Drop? && |e.files| > 0 then [e.files] else [])
    decreases |events|
  {
    if events == [] {
      assert [e][1..] == [];
    } else {
      assert (events + [e])[0] == events[0];
      assert (events + [e])[1..] == events[1..] + [e];
      DroppedSnoc(events[1..], e);
    }
  }

  /** From the idle zone, whatever the order of events, the counter is the
      number of enters minus leaves since the last drop, the overlay is on
      exactly when that number is positive, and the queue received exactly
      the non-empty drops. */
  lemma {:induction false} RunFromIdle(events: seq<DragEvent>)
    ensures var (z, batches) := Run(Idle, events);
            z.counter == Depth(events) && (z.active <==> Depth(events) > 0) &&
            batches == Dropped(events)
    decreases |events|
  {
    if events != [] {
      var init := events[..|events| - 1];
      var e := events[|events| - 1];
      RunFromIdle(init);
      assert events == init + [e];
      DroppedSnoc(init, e);
    }
  }

  /** Drag-over events anywhere in a run change nothing. */
  lemma {:induction false} OverIsInert(events: seq<DragEvent>, z: Zone)
    ensures Run(z, events + [Over]) == Run(z, events)
  {
    assert (events + [Over])[..|events|] == events;
    var batches := Run(z, events).1;
    assert batches + [] == batches;
  }

  /** A drop ends every drag, however unbalanced the events before it. */
  lemma DropResets(events: seq<DragEvent>, z: Zone, files: seq<FileHandle>)
    ensures Run(z, events + [Drop(files)]).0 == Idle
  {
    assert (events + [Drop(files)])[..|events|] == events;
  }
}
