/**
 The guest's disk collector: one refresh decides the source, reads the inventory, collects
 or reuses temperatures, and publishes a snapshot or a failure.
 */
module DiskCollector {
  import opened Common
  import opened SmartSource
  import opened DiskState

  const WAKE_MARGIN := 5 * SECOND
  const SNAPSHOT_TIMEOUT := 15 * SECOND

  /** What fallbackObservation may find for one disk. */
  datatype Probe = Failed(why: string) | InStandby | Measured(temperature: real)

  datatype Runtime = Runtime(disk: UnraidDisk, reading: Reading, collectionError: Option<string>, state: DiskState,
    reused: bool)

  /** The collector between refreshes; a failure leaves the last successful snapshot in place. */
  datatype Collector = Collector(source: SmartSource.State, tracker: Tracker, failed: bool, updatedAt: Option<int>,
    snapshot: seq<Runtime>)

  const NEW_COLLECTOR := Collector(SmartSource.INITIAL, map[], true, None, [])

  /** Everything one refresh learns from outside; None is an inventory that cannot be read. */
  datatype Input = Input(decisionAt: int, poll: int, configError: string, inventory: Option<seq<UnraidDisk>>,
    probes: seq<Probe>, finishedAt: int)

  const NOT_PROBED := "direct SMART temperature unavailable"

  function DirectObservation(d: UnraidDisk, p: Probe): Observation {
    match p
    case Failed(why) => Observation(d, 0.0, false, Some(why), Direct)
    case InStandby => Observation(d, 0.0, true, None, Direct)
    case Measured(t) => Observation(d, t, false, None, Direct)
  }

  /** Disks no worker came to keep their error. */
  function ProbeOf(probes: seq<Probe>, i: nat): Probe {
    if i < |probes| then probes[i] else Failed(NOT_PROBED)
  }

  function DirectObservations(disks: seq<UnraidDisk>, probes: seq<Probe>): (o: seq<Observation>)
    ensures |o| == |disks| && forall i :: 0 <= i < |o| ==> o[i] == DirectObservation(disks[i], ProbeOf(probes, i))
  {
    seq(|disks|, i requires 0 <= i < |disks| => DirectObservation(disks[i], ProbeOf(probes, i)))
  }

  function FirstError(observations: seq<Observation>): (message: string) {
    if observations == [] then ""
    else if observations[0].err.Some? then observations[0].disk.name + ": " + observations[0].err.value
    else FirstError(observations[1..])
  }

  function WakeGrace(poll: int): int {
    if poll > 0 then poll + WAKE_MARGIN else 0
  }

  /** The previous runtime of a disk: the last one with its ID. */
  function Previous(snapshot: seq<Runtime>, id: string): (r: Option<Runtime>) {
    if snapshot == [] then None
    else if snapshot[|snapshot| - 1].disk.id == id then Some(snapshot[|snapshot| - 1])
    else Previous(snapshot[..|snapshot| - 1], id)
  }

  /** One row of reuseFallbackSnapshot. */
  function ReusedRow(c: Collector, d: UnraidDisk): (r: Runtime) {
    var p := Previous(c.snapshot, d.id);
    var usable := !c.failed && p.Some?;
    Runtime(d,
            Reading(d.id, d.name, d.device, d.transport, d.rotational,
                    if usable then p.value.reading.temp else 0.0, if usable then p.value.reading.unavailable else true),
            if p.Some? then p.value.collectionError else None, Lookup(c.tracker, d.id), true)
  }

  function ReusedRows(c: Collector, disks: seq<UnraidDisk>): (rows: seq<Runtime>)
    ensures |rows| == |disks| && forall i :: 0 <= i < |rows| ==> rows[i] == ReusedRow(c, disks[i])
  {
    seq(|disks|, i requires 0 <= i < |disks| => ReusedRow(c, disks[i]))
  }

  function DiskIds(disks: seq<UnraidDisk>): set<string> {
    set d | d in disks :: d.id
  }

  function BuiltRows(tracker: Tracker, readings: seq<Reading>, observations: seq<Observation>): (rows: seq<Runtime>)
    requires |readings| == |observations|
    ensures |rows| == |observations|
    ensures forall i :: 0 <= i < |rows| ==>
      rows[i] == Runtime(observations[i].disk, readings[i], observations[i].err, Lookup(tracker,
          observations[i].disk.id), false)
  {
    seq(|observations|, i requires 0 <= i < |observations| =>
      Runtime(observations[i].disk, readings[i], observations[i].err, Lookup(tracker, observations[i].disk.id), false))
  }

  function ObservationsOf(d: Decision, disks: seq<UnraidDisk>, i: Input): (o: seq<Observation>)
    ensures |o| == |disks|
  {
    if d.source.Emhttpd? then EmhttpdObservations(disks, i.poll > 0) else DirectObservations(disks, i.probes)
  }

  /** The collector after a refresh. */
  function Refreshed(c: Collector, i: Input): (c': Collector) {
    var d := Decide(c.source, i.decisionAt, i.poll);
    var source := Evaluated(c.source, i.decisionAt, i.poll, i.configError);
    if i.inventory.None? then
      c.(source := source, tracker := Invalidated(c.tracker), failed := true, updatedAt := None)
    else
      var disks := i.inventory.value;
      if d.source.Direct? && !d.directDue then
        Collector(source, Retain(c.tracker, DiskIds(disks)), false, Some(i.finishedAt), ReusedRows(c, disks))
      else
        var observations := ObservationsOf(d, disks, i);
        var (tracker, readings) := Applied(c.tracker, observations, i.finishedAt, WakeGrace(i.poll));
        var source' := if d.source.Direct?
                       then Recorded(Begun(source, i.decisionAt), i.finishedAt, FirstError(observations)) else source;
        Collector(source', tracker, false, Some(i.finishedAt), BuiltRows(tracker, readings, observations))
  }

  class SnapshotCollector {
    const monitor: SourceMonitor
    const tracker: DiskTracker
    var failed: bool
    var updatedAt: Option<int>
    var lastSuccessfulSnapshot: seq<Runtime>

    function Current(): Collector
      reads this, monitor, tracker
    {
      Collector(monitor.Current(), tracker.states, failed, updatedAt, lastSuccessfulSnapshot)
    }

    constructor ()
      ensures fresh(monitor) && fresh(tracker) && Current() == NEW_COLLECTOR
    {
      var m := new SourceMonitor();
      var t := new DiskTracker();
      monitor, tracker := m, t;
      failed, updatedAt, lastSuccessfulSnapshot := true, None, [];
    }

    method PublishDiskFailure()
      modifies this
      ensures failed && updatedAt.None? && lastSuccessfulSnapshot == old(lastSuccessfulSnapshot)
    {
      failed, updatedAt := true, None;
    }

    method PublishDiskSuccess(rows: seq<Runtime>, now: int)
      modifies this
      ensures !failed && updatedAt == Some(now) && lastSuccessfulSnapshot == rows
    {
      failed, updatedAt, lastSuccessfulSnapshot := false, Some(now), rows;
    }

    /** reuseFallbackSnapshot. */
    method ReuseFallbackSnapshot(disks: seq<UnraidDisk>) returns (rows: seq<Runtime>)
      modifies tracker
      ensures rows == ReusedRows(old(Current()), disks)
      ensures tracker.states == Retain(old(tracker.states), DiskIds(disks))
    {
      ghost var c := Current();
      var previous: map<string, Runtime> := map[];
      for k := 0 to |lastSuccessfulSnapshot|
        invariant forall id: string :: (id in previous <==> Previous(lastSuccessfulSnapshot[..k], id).Some?)
        invariant forall id :: id in previous ==> Previous(lastSuccessfulSnapshot[..k], id) == Some(previous[id])
      {
        var runtime := lastSuccessfulSnapshot[k];
        assert lastSuccessfulSnapshot[..k + 1][..k] == lastSuccessfulSnapshot[..k];
        previous := previous[runtime.disk.id := runtime];
      }
      assert lastSuccessfulSnapshot[..|lastSuccessfulSnapshot|] == lastSuccessfulSnapshot;
      rows := [];
      var present: set<string> := {};
      for k := 0 to |disks|
        invariant |rows| == k && forall j :: 0 <= j < k ==> rows[j] == ReusedRow(c, disks[j])
        invariant present == set j | 0 <= j < k :: disks[j].id
      {
        var disk := disks[k];
        present := present + {disk.id};
        var temp, unavailable, collectionError := 0.0, true, None;
        if disk.id in previous {
          collectionError := previous[disk.id].collectionError;
          if !failed {
            temp, unavailable := previous[disk.id].reading.temp, previous[disk.id].reading.unavailable;
          }
        }
        var state := if disk.id in tracker.states then tracker.states[disk.id] else ZERO;
        rows := rows + [Runtime(disk, Reading(disk.id, disk.name, disk.device, disk.transport, disk.rotational, temp,
            unavailable),
                                collectionError, state, true)];
      }
      assert present == DiskIds(disks);
      tracker.DropAbsent(present);
    }

    /** refreshWithContext. */
    method RefreshWithContext(i: Input)
      modifies this, monitor, tracker
      ensures Current() == Refreshed(old(Current()), i)
    {
      hide Invalidated, Retain, Begun, Recorded, Evaluated, Decide, FirstError, DirectObservations,
        EmhttpdObservations;
      var decision := monitor.Evaluate(i.decisionAt, i.poll, i.configError);
      if i.inventory.None? {
        tracker.InvalidateContinuity();
        PublishDiskFailure();
        return;
      }
      var disks := i.inventory.value;
      if decision.source.Direct? && !decision.directDue {
        var rows := ReuseFallbackSnapshot(disks);
        PublishDiskSuccess(rows, i.finishedAt);
        return;
      }
      var observations: seq<Observation>;
      if decision.source.Emhttpd? {
        observations := MakeDiskObservations(disks, i.poll > 0);
      } else {
        monitor.BeginDirectAttempt(i.decisionAt);
        observations := DirectObservations(disks, i.probes);
      }
      var grace := 0;
      if i.poll > 0 {
        grace := i.poll + WAKE_MARGIN;
      }
      var readings := tracker.Apply(observations, i.finishedAt, grace);
      if decision.source.Direct? {
        monitor.RecordFallbackResult(i.finishedAt, FirstError(observations));
      }
      PublishDiskSuccess(BuiltRows(tracker.states, readings, observations), i.finishedAt);
    }

    /** snapshot: the readings while they are neither failed nor expired. */
    method Snapshot(now: int) returns (readings: Option<seq<Reading>>)
      ensures readings.Some? <==> !failed && updatedAt.Some? && now < updatedAt.value + SNAPSHOT_TIMEOUT
      ensures readings.Some? ==> |readings.value| == |lastSuccessfulSnapshot|
      ensures readings.Some? ==>
        forall k :: 0 <= k < |lastSuccessfulSnapshot| ==> readings.value[k] == lastSuccessfulSnapshot[k].reading
    {
      if failed || updatedAt.None? || now >= updatedAt.value + SNAPSHOT_TIMEOUT {
        return None;
      }
      return Some(seq(|lastSuccessfulSnapshot|, k requires 0 <= k < |lastSuccessfulSnapshot|
        reads this => lastSuccessfulSnapshot[k].reading));
    }
  }

  // ----- runs -----

  /** A heartbeat during a refresh counts after it: only the decision at its start reads heartbeats. */
  datatype Event = Heartbeat(at: int) | Refresh(input: Input)

  function Step(c: Collector, e: Event): Collector {
    match e
    case Heartbeat(at) => c.(source := Noted(c.source, at))
    case Refresh(i) => Refreshed(c, i)
  }

  function Run(events: seq<Event>): (c: Collector) {
    if events == [] then NEW_COLLECTOR else Step(Run(events[..|events| - 1]), events[|events| - 1])
  }

  /** What selectedDisks guarantees for every inventory. */
  ghost predicate DistinctRun(events: seq<Event>) {
    forall i :: 0 <= i < |events| && events[i].Refresh? && events[i].input.inventory.Some? ==>
      DistinctInventory(events[i].input.inventory.value)
  }

  /** A published row agrees with its thermal state. */
  ghost predicate RowCoherent(r: Runtime) {
    r.reading.id == r.disk.id
    && (r.reading.unavailable <==> r.state.thermal.Unavailable?)
    && (r.reading.temp != 0.0 ==> r.state.thermal.Valid?)
  }

  ghost predicate Coherent(c: Collector) {
    (forall i :: 0 <= i < |c.snapshot| ==> RowCoherent(c.snapshot[i]))
    && (forall i, j :: 0 <= i < j < |c.snapshot| ==> c.snapshot[i].disk.id != c.snapshot[j].disk.id)
    && (c.failed ==> forall id :: id in c.tracker ==> c.tracker[id].thermal.Unavailable?)
    && (!c.failed ==>
          (forall i :: 0 <= i < |c.snapshot| ==> c.snapshot[i].state == Lookup(c.tracker, c.snapshot[i].disk.id))
          && forall id :: id in c.tracker ==> exists i :: 0 <= i < |c.snapshot| && c.snapshot[i].disk.id == id)
    && (c.source.fallbackActive ==> forall id :: id in c.tracker ==> !c.tracker[id].thermal.Waking?)
  }

  lemma {:induction false} PreviousAt(snapshot: seq<Runtime>, id: string)
    ensures var p := Previous(snapshot, id);
            if p.Some? then exists i :: 0 <= i < |snapshot| && snapshot[i] == p.value && snapshot[i].disk.id == id
            else forall i :: 0 <= i < |snapshot| ==> snapshot[i].disk.id != id
  {
    if snapshot != [] {
      PreviousAt(snapshot[..|snapshot| - 1], id);
    }
  }

  lemma ReuseCoherent(c: Collector, i: Input)
    requires Coherent(c) && i.inventory.Some? && DistinctInventory(i.inventory.value)
    requires var d := Decide(c.source, i.decisionAt, i.poll); d.source.Direct? && !d.directDue
    ensures Coherent(Refreshed(c, i))
  {
    var disks, c' := i.inventory.value, Refreshed(c, i);
    forall k | 0 <= k < |disks| ensures RowCoherent(c'.snapshot[k]) {
      PreviousAt(c.snapshot, disks[k].id);
      var p := Previous(c.snapshot, disks[k].id);
      if !c.failed && p.Some? {
        var j :| 0 <= j < |c.snapshot| && c.snapshot[j] == p.value && c.snapshot[j].disk.id == disks[k].id;
        assert RowCoherent(c.snapshot[j]) && c.snapshot[j].state == Lookup(c.tracker, disks[k].id);
      }
    }
    forall id | id in c'.tracker ensures exists k :: 0 <= k < |disks| && c'.snapshot[k].disk.id == id {
      var k :| 0 <= k < |disks| && disks[k].id == id;
      assert c'.snapshot[k].disk.id == id;
    }
  }

  /** The refresh observes every disk, from emhttpd or directly. */
  predicate Collects(c: Collector, i: Input) {
    var d := Decide(c.source, i.decisionAt, i.poll);
    i.inventory.Some? && (d.source.Emhttpd? || d.directDue)
  }

  /** A collected row shows what its observation makes of the disk's previous state. */
  lemma CollectedRow(c: Collector, i: Input, k: nat)
    requires Collects(c, i) && DistinctInventory(i.inventory.value) && k < |i.inventory.value|
    ensures var c', d := Refreshed(c, i), i.inventory.value[k];
            var o := ObservationsOf(Decide(c.source, i.decisionAt, i.poll), i.inventory.value, i)[k];
            var s := Lookup(c.tracker, d.id);
            |c'.snapshot| == |i.inventory.value| && c'.snapshot[k].disk == d == o.disk
            && d.id in c'.tracker && c'.tracker[d.id] == Observed(s, o, i.finishedAt, WakeGrace(i.poll))
            && c'.snapshot[k].state == c'.tracker[d.id]
            && c'.snapshot[k].reading == Published(s, o, i.finishedAt, WakeGrace(i.poll))
  {
    hide Fold, Observed, Published, Recorded, Begun, Evaluated;
    var o := ObservationsOf(Decide(c.source, i.decisionAt, i.poll), i.inventory.value, i);
    assert forall j :: 0 <= j < |o| ==> o[j].disk == i.inventory.value[j];
    AppliedAt(c.tracker, o, i.finishedAt, WakeGrace(i.poll));
  }

  /** After collecting, exactly the disks of the inventory are tracked. */
  lemma CollectedKeys(c: Collector, i: Input)
    requires Collects(c, i) && DistinctInventory(i.inventory.value)
    ensures Refreshed(c, i).tracker.Keys == DiskIds(i.inventory.value)
    ensures !Refreshed(c, i).failed && |Refreshed(c, i).snapshot| == |i.inventory.value|
    ensures Refreshed(c, i).source.fallbackActive <==> Decide(c.source, i.decisionAt, i.poll).source.Direct?
  {
    hide Fold, Observed, Published;
    var o := ObservationsOf(Decide(c.source, i.decisionAt, i.poll), i.inventory.value, i);
    assert forall j :: 0 <= j < |o| ==> o[j].disk == i.inventory.value[j];
    AppliedAt(c.tracker, o, i.finishedAt, WakeGrace(i.poll));
    SameIds(o, i.inventory.value);
  }

  lemma SameIds(observations: seq<Observation>, disks: seq<UnraidDisk>)
    requires |observations| == |disks| && forall j :: 0 <= j < |disks| ==> observations[j].disk == disks[j]
    ensures Ids(observations) == DiskIds(disks)
  {
    forall id ensures id in Ids(observations) <==> id in DiskIds(disks) {
      if id in Ids(observations) {
        var j :| 0 <= j < |observations| && observations[j].disk.id == id;
        assert disks[j] in disks;
      }
      if id in DiskIds(disks) {
        var j :| 0 <= j < |disks| && disks[j].id == id;
        assert observations[j] in observations;
      }
    }
  }

  lemma CoherentFromRows(c: Collector, disks: seq<UnraidDisk>)
    requires DistinctInventory(disks) && !c.failed && |c.snapshot| == |disks| && c.tracker.Keys == DiskIds(disks)
    requires forall k :: 0 <= k < |disks| ==>
      c.snapshot[k].disk == disks[k] && RowCoherent(c.snapshot[k])
      && disks[k].id in c.tracker && c.snapshot[k].state == c.tracker[disks[k].id]
      && (c.source.fallbackActive ==> !c.snapshot[k].state.thermal.Waking?)
    ensures Coherent(c)
  {
    forall id | id in c.tracker
      ensures exists k :: 0 <= k < |c.snapshot| && c.snapshot[k].disk.id == id
      ensures c.source.fallbackActive ==> !c.tracker[id].thermal.Waking?
    {
      var k :| 0 <= k < |disks| && disks[k].id == id;
      assert c.snapshot[k].disk.id == id;
    }
  }

  lemma CollectCoherent(c: Collector, i: Input)
    requires Collects(c, i) && DistinctInventory(i.inventory.value)
    ensures Coherent(Refreshed(c, i))
  {
    hide Refreshed, Coherent, DistinctInventory;
    var disks, c' := i.inventory.value, Refreshed(c, i);
    CollectedKeys(c, i);
    forall k | 0 <= k < |disks|
      ensures c'.snapshot[k].disk == disks[k] && RowCoherent(c'.snapshot[k])
      ensures disks[k].id in c'.tracker && c'.snapshot[k].state == c'.tracker[disks[k].id]
      ensures c'.source.fallbackActive ==> !c'.snapshot[k].state.thermal.Waking?
    {
      CollectedRow(c, i, k);
    }
    CoherentFromRows(c', disks);
  }

  /** In every reachable state the published rows agree with the thermal states. */
  lemma {:induction false} RunIsCoherent(events: seq<Event>)
    requires DistinctRun(events)
    ensures Coherent(Run(events))
  {
    if events != [] {
      var before, e := events[..|events| - 1], events[|events| - 1];
      RunIsCoherent(before);
      var c := Run(before);
      if e.Refresh? && e.input.inventory.Some? {
        var d := Decide(c.source, e.input.decisionAt, e.input.poll);
        if d.source.Direct? && !d.directDue {
          ReuseCoherent(c, e.input);
        } else {
          CollectCoherent(c, e.input);
        }
      }
    }
  }
}
