/**
 What the collector publishes, told by what it was given: the rows of the inventory, the answers
 of the probes, and the events of a run.
 */
module DiskRows {
  import opened Common
  import opened SmartSource
  import opened DiskState
  import opened DiskCollector
  import opened DiskTraces

  /** A disk in standby: spun down for emhttpd, or found so by its probe. */
  predicate RestsNow(d: UnraidDisk, direct: bool, p: Probe) {
    if direct then p.InStandby? else d.spundown
  }

  /** The temperature there is for an active disk; without polling emhttpd has none. */
  function MeasuredNow(d: UnraidDisk, direct: bool, p: Probe, poll: int): (t: Option<real>) {
    if direct then (if p.Measured? then Some(p.temperature) else None)
    else if poll > 0 then d.emhttpd
    else None
  }

  /** Less than a poll and 5 s have passed; without polling there is no grace. */
  predicate InGrace(since: int, poll: int, at: int) {
    at - since < if poll > 0 then poll + 5 * SECOND else 0
  }

  /** A disk without a temperature may be waking: from now on, or still. */
  predicate MayWake(before: DiskState, poll: int, at: int) {
    (before.thermal.Standby? && InGrace(at, poll, at))
    || (before.thermal.Waking? && before.wakeStartedAt.Some? && InGrace(before.wakeStartedAt.value, poll, at))
  }

  predicate Shows(row: Runtime, thermal: Thermal, temp: real) {
    row.state.thermal == thermal && row.reading.temp == temp && row.reading.unavailable == thermal.Unavailable?
  }

  /** The published row of a disk, from its inventory row, its probe and its state before. */
  predicate RowIs(row: Runtime, before: DiskState, d: UnraidDisk, direct: bool, p: Probe, poll: int, at: int) {
    RowNames(row, d)
    && if RestsNow(d, direct, p) then Shows(row, Standby, 0.0)
       else if MeasuredNow(d, direct, p, poll).Some? then Shows(row, Valid, MeasuredNow(d, direct, p, poll).value)
       else if !direct && MayWake(before, poll, at) then Shows(row, Waking, 0.0)
       else Shows(row, Unavailable, 0.0)
  }

  predicate RowNames(row: Runtime, d: UnraidDisk) {
    row.disk == d && row.reading.id == d.id && row.reading.name == d.name && row.reading.device == d.device
    && row.reading.transport == d.transport && row.reading.rotational == d.rotational
  }

  /** One observation, however it was made. */
  lemma RowOf(d: UnraidDisk, o: Observation, before: DiskState, direct: bool, p: Probe, poll: int, at: int,
    row: Runtime)
    requires o == if direct then DirectObservation(d, p) else EmhttpdObservation(d, poll > 0)
    requires row.disk == d && row.state == Observed(before, o, at, WakeGrace(poll))
    requires row.reading == Published(before, o, at, WakeGrace(poll))
    ensures RowIs(row, before, d, direct, p, poll, at)
  {
  }

  /**
   Every row published by a refresh that collects, in every run: standby, valid with its
   temperature, waking or unavailable, each exactly when the inventory row, the probe and the
   state before say so.
   */
  lemma RowsAre(events: seq<DiskCollector.Event>, n: nat, r: nat)
    requires FirstRun(events, n) && n > 0 && events[n - 1].Refresh?
    requires Collects(DiskCollector.Run(events[..n - 1]), events[n - 1].input)
    requires r < |events[n - 1].input.inventory.value|
    ensures var c, i, c' := DiskCollector.Run(events[..n - 1]), events[n - 1].input, DiskCollector.Run(events[..n]);
            var d := i.inventory.value[r];
            !c'.failed && |c'.snapshot| == |i.inventory.value| && StateOf(c', d.id) == c'.snapshot[r].state
            && RowIs(c'.snapshot[r], StateOf(c, d.id), d, Decide(c.source, i.decisionAt, i.poll).source.Direct?,
                     ProbeOf(i.probes, r), i.poll, i.finishedAt)
  {
    hide DiskCollector.Run, Refreshed, Decide, RowIs, Observed, Published, DirectObservation, EmhttpdObservation;
    var c, i := DiskCollector.Run(events[..n - 1]), events[n - 1].input;
    var d, decision := i.inventory.value[r], Decide(c.source, i.decisionAt, i.poll);
    DiskTraces.RunStep(events, n);
    CollectedKeys(c, i);
    CollectedRow(c, i, r);
    RowOf(d, ObservationsOf(decision, i.inventory.value, i)[r], StateOf(c, d.id), decision.source.Direct?,
          ProbeOf(i.probes, r), i.poll, i.finishedAt, Refreshed(c, i).snapshot[r]);
  }

  /**
   Every row published by a refresh between two direct reads: it repeats the last reading of
   its disk, under the names of the current inventory, unless the last refresh failed or did
   not have the disk.
   */
  lemma ReusedRowsAre(events: seq<DiskCollector.Event>, n: nat, r: nat)
    requires FirstRun(events, n) && n > 0 && events[n - 1].Refresh? && events[n - 1].input.inventory.Some?
    requires !Collects(DiskCollector.Run(events[..n - 1]), events[n - 1].input)
    requires r < |events[n - 1].input.inventory.value|
    ensures var c, i, c' := DiskCollector.Run(events[..n - 1]), events[n - 1].input, DiskCollector.Run(events[..n]);
            var d := i.inventory.value[r];
            !c'.failed && |c'.snapshot| == |i.inventory.value| && RowNames(c'.snapshot[r], d)
            && (forall j :: 0 <= j < |c.snapshot| && c.snapshot[j].disk.id == d.id && !c.failed ==>
                  c'.snapshot[r].reading.temp == c.snapshot[j].reading.temp
                  && c'.snapshot[r].reading.unavailable == c.snapshot[j].reading.unavailable)
            && (c.failed || (forall j :: 0 <= j < |c.snapshot| ==> c.snapshot[j].disk.id != d.id) ==>
                  c'.snapshot[r].reading.temp == 0.0 && c'.snapshot[r].reading.unavailable)
  {
    hide DiskCollector.Run;
    var c := DiskCollector.Run(events[..n - 1]);
    DiskTraces.RunStep(events, n);
    RunIsCoherent(events[..n - 1]);
    PreviousAt(c.snapshot, events[n - 1].input.inventory.value[r].id);
  }

  /** A failed refresh publishes nothing, and a heartbeat changes nothing published. */
  lemma OtherEventsKeepRows(events: seq<DiskCollector.Event>, n: nat)
    requires 0 < n <= |events|
    ensures var c, e, c' := DiskCollector.Run(events[..n - 1]), events[n - 1], DiskCollector.Run(events[..n]);
            (e.Refresh? && e.input.inventory.None? ==> c'.failed && c'.snapshot == c.snapshot)
            && (e.Heartbeat? ==> c'.failed == c.failed && c'.snapshot == c.snapshot && c'.tracker == c.tracker)
  {
    hide DiskCollector.Run;
    DiskTraces.RunStep(events, n);
  }

  // ----- the wake grace, in events -----

  /** Refresh k had the disk in its inventory, under this source. */
  ghost predicate Lists(events: seq<DiskCollector.Event>, k: int, id: string, m: int) {
    0 <= k < |events| && events[k].Refresh? && events[k].input.inventory.Some?
    && 0 <= m < |events[k].input.inventory.value| && events[k].input.inventory.value[m].id == id
  }

  predicate DirectAt(events: seq<DiskCollector.Event>, k: int)
    requires 0 <= k < |events| && events[k].Refresh?
  {
    Decide(DiskCollector.Run(events[..k]).source, events[k].input.decisionAt, events[k].input.poll).source.Direct?
  }

  /** Refresh k collected the disk in standby. */
  ghost predicate RestedAt(events: seq<DiskCollector.Event>, k: int, id: string) {
    exists m :: Lists(events, k, id, m) && Collects(DiskCollector.Run(events[..k]), events[k].input)
                && RestsNow(events[k].input.inventory.value[m], DirectAt(events, k), ProbeOf(events[k].input.probes, m))
  }

  /** Refresh k polled emhttpd and found the disk active but without a temperature, within the grace since w. */
  ghost predicate StillWaking(events: seq<DiskCollector.Event>, k: int, id: string, w: int) {
    exists m :: Lists(events, k, id, m) && !DirectAt(events, k)
                && !events[k].input.inventory.value[m].spundown
                && (events[k].input.poll <= 0 || events[k].input.inventory.value[m].emhttpd.None?)
                && InGrace(w, events[k].input.poll, events[k].input.finishedAt)
  }

  /** Event k is a heartbeat, or a refresh in fallback that attempted nothing and found the disk. */
  ghost predicate Passes(events: seq<DiskCollector.Event>, k: int, id: string)
    requires 0 <= k < |events|
  {
    events[k].Heartbeat? || KeptInFallback(events, k, id)
  }

  /** The disk rested at event i, woke at event j at time w, and has been waking since. */
  ghost predicate Woke(events: seq<DiskCollector.Event>, i: int, j: int, n: int, id: string, w: int) {
    0 <= i < j < n <= |events| && RestedAt(events, i, id)
    && (forall k :: i < k < j ==> Passes(events, k, id))
    && StillWaking(events, j, id, w) && events[j].input.finishedAt == w
    && forall k :: j < k < n ==> Passes(events, k, id) || StillWaking(events, k, id, w)
  }

  lemma StandbyIsRest(events: seq<DiskCollector.Event>, k: nat, id: string)
    requires k < |events| && IsStandby(EffectAt(events, k, id))
    ensures RestedAt(events, k, id)
  {
    hide DiskCollector.Run, Decide;
    var i := events[k].input;
    var m := IndexOf(i.inventory.value, id).value;
    assert Lists(events, k, id, m);
  }

  lemma FailureIsWaking(events: seq<DiskCollector.Event>, k: nat, id: string, w: int)
    requires k < |events| && IsEmhttpdFailure(EffectAt(events, k, id))
    requires EffectAt(events, k, id).at - w < EffectAt(events, k, id).grace
    ensures StillWaking(events, k, id, w) && events[k].input.finishedAt == EffectAt(events, k, id).at
  {
    hide DiskCollector.Run, Decide;
    var i := events[k].input;
    var m := IndexOf(i.inventory.value, id).value;
    assert Lists(events, k, id, m);
  }

  lemma KeptPasses(events: seq<DiskCollector.Event>, k: nat, id: string)
    requires k < |events| && (EffectAt(events, k, id).Nothing? || EffectAt(events, k, id).Kept?)
    ensures Passes(events, k, id)
  {
    if events[k].Refresh? {
      KeptIsFallback(events, k, id);
    }
  }

  /**
   A waking disk was collected in standby under the same ID; every refresh since had it in its
   inventory; the first that polled emhttpd again was at w, and no refresh since found a
   temperature, or was a poll and 5 s or more after w.
   */
  lemma WakeGraceIsEarned(events: seq<DiskCollector.Event>, n: nat, id: string)
    requires FirstRun(events, n) && StateOf(DiskCollector.Run(events[..n]), id).thermal.Waking?
    ensures var s := StateOf(DiskCollector.Run(events[..n]), id);
            s.wakeStartedAt.Some? && exists i, j :: Woke(events, i, j, n, id, s.wakeStartedAt.value)
  {
    hide DiskCollector.Run, EffectAt, Passes, StillWaking, RestedAt;
    WakingComesFrom(events, n, id);
    var w := StateOf(DiskCollector.Run(events[..n]), id).wakeStartedAt.value;
    var i: nat, j: nat :| WokeFrom(events, i, j, n, id, w);
    StandbyIsRest(events, i, id);
    FailureIsWaking(events, j, id, w);
    forall k | i < k < j ensures Passes(events, k, id) {
      KeptPasses(events, k, id);
    }
    forall k | j < k < n ensures Passes(events, k, id) || StillWaking(events, k, id, w) {
      if IsEmhttpdFailure(EffectAt(events, k, id)) {
        FailureIsWaking(events, k, id, w);
      } else {
        KeptPasses(events, k, id);
      }
    }
    assert Woke(events, i, j, n, id, w);
  }
}
