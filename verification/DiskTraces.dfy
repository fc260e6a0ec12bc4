/**
 Where published temperatures and wake graces come from, over every run of the collector.
 */
module DiskTraces {
  import opened Common
  import opened SmartSource
  import opened DiskState
  import opened DiskCollector

  /**
   What an event means for one disk: nothing, losing it (the inventory failed or no longer
   lists it), keeping its last direct result, or a new observation.
   */
  datatype Effect = Nothing | Lost | Kept | Saw(o: Observation, at: int, grace: int)

  function IndexOf(disks: seq<UnraidDisk>, id: string): (r: Option<nat>)
    ensures r.Some? ==> r.value < |disks| && disks[r.value].id == id
    ensures r.None? ==> forall k :: 0 <= k < |disks| ==> disks[k].id != id
  {
    if disks == [] then None
    else if disks[|disks| - 1].id == id then Some(|disks| - 1)
    else IndexOf(disks[..|disks| - 1], id)
  }

  function EffectOn(c: Collector, e: DiskCollector.Event, id: string): (f: Effect) {
    if e.Heartbeat? then Nothing
    else
      var i := e.input;
      var d := Decide(c.source, i.decisionAt, i.poll);
      if i.inventory.None? || IndexOf(i.inventory.value, id).None? then Lost
      else if d.source.Direct? && !d.directDue then Kept
      else Saw(ObservationsOf(d, i.inventory.value, i)[IndexOf(i.inventory.value, id).value], i.finishedAt,
          WakeGrace(i.poll))
  }

  function EffectAt(events: seq<DiskCollector.Event>, k: nat, id: string): (f: Effect)
    requires k < |events|
  {
    EffectOn(DiskCollector.Run(events[..k]), events[k], id)
  }

  function StateOf(c: Collector, id: string): DiskState {
    Lookup(c.tracker, id)
  }

  /** The tracker follows the effects and nothing else. */
  lemma TrackerFollows(c: Collector, e: DiskCollector.Event, id: string)
    requires e.Refresh? && e.input.inventory.Some? ==> DistinctInventory(e.input.inventory.value)
    ensures var s, s' := StateOf(c, id), StateOf(DiskCollector.Step(c, e), id);
            match EffectOn(c, e, id)
            case Nothing => s' == s
            case Kept => s' == s
            case Lost => s'.thermal.Unavailable?
            case Saw(o, at, grace) => s' == Observed(s, o, at, grace)
  {
    if e.Refresh? && e.input.inventory.Some? {
      var i := e.input;
      var index := IndexOf(i.inventory.value, id);
      if Collects(c, i) {
        hide Refreshed, Observed;
        CollectedKeys(c, i);
        if index.Some? {
          CollectedRow(c, i, index.value);
        }
      } else if index.Some? {
        assert i.inventory.value[index.value] in i.inventory.value;
      }
    }
  }

  /** From event i on, the disk was at most kept, never lost or observed again. */
  ghost predicate OnlyKeptSince(events: seq<DiskCollector.Event>, i: nat, n: nat, id: string)
    requires n <= |events|
  {
    forall k :: i < k < n ==> EffectAt(events, k, id).Nothing? || EffectAt(events, k, id).Kept?
  }

  predicate IsValid(f: Effect) {
    f.Saw? && !f.o.standby && f.o.err.None?
  }

  predicate IsStandby(f: Effect) {
    f.Saw? && f.o.standby
  }

  predicate IsEmhttpdFailure(f: Effect) {
    f.Saw? && !f.o.standby && f.o.err.Some? && f.o.source.Emhttpd?
  }

  ghost predicate FirstRun(events: seq<DiskCollector.Event>, n: nat) {
    DistinctRun(events) && n <= |events|
  }

  lemma LastStep(events: seq<DiskCollector.Event>, n: nat, id: string)
    requires FirstRun(events, n) && n > 0
    ensures DiskCollector.Run(events[..n]) == DiskCollector.Step(DiskCollector.Run(events[..n - 1]), events[n - 1])
    ensures var s, s' := StateOf(DiskCollector.Run(events[..n - 1]), id), StateOf(DiskCollector.Run(events[..n]), id);
            match EffectAt(events, n - 1, id)
            case Nothing => s' == s
            case Kept => s' == s
            case Lost => s'.thermal.Unavailable?
            case Saw(o, at, grace) => s' == Observed(s, o, at, grace)
  {
    assert events[..n][..n - 1] == events[..n - 1];
    TrackerFollows(DiskCollector.Run(events[..n - 1]), events[n - 1], id);
  }

  lemma {:induction false} ValidComesFrom(events: seq<DiskCollector.Event>, n: nat, id: string)
    requires FirstRun(events, n) && StateOf(DiskCollector.Run(events[..n]), id).thermal.Valid?
    ensures exists i :: 0 <= i < n && IsValid(EffectAt(events, i, id)) && OnlyKeptSince(events, i, n, id)
  {
    hide EffectAt, EffectOn, DiskCollector.Step, Refreshed;
    if n > 0 {
      LastStep(events, n, id);
      if EffectAt(events, n - 1, id).Nothing? || EffectAt(events, n - 1, id).Kept? {
        ValidComesFrom(events, n - 1, id);
      }
    }
  }

  lemma {:induction false} StandbyComesFrom(events: seq<DiskCollector.Event>, n: nat, id: string)
    requires FirstRun(events, n) && StateOf(DiskCollector.Run(events[..n]), id).thermal.Standby?
    ensures exists i :: 0 <= i < n && IsStandby(EffectAt(events, i, id)) && OnlyKeptSince(events, i, n, id)
  {
    hide EffectAt, EffectOn, DiskCollector.Step, Refreshed;
    if n > 0 {
      LastStep(events, n, id);
      if EffectAt(events, n - 1, id).Nothing? || EffectAt(events, n - 1, id).Kept? {
        StandbyComesFrom(events, n - 1, id);
      }
    }
  }

  /** Since event j every observation was a failure of emhttpd within the grace counted from w. */
  ghost predicate WithinGraceSince(events: seq<DiskCollector.Event>, j: nat, n: nat, id: string, w: int)
    requires n <= |events|
  {
    forall k :: j <= k < n ==>
      var f := EffectAt(events, k, id);
      f.Nothing? || f.Kept? || (IsEmhttpdFailure(f) && f.at - w < f.grace)
  }

  /** A disk went from standby, seen at event i, to a failed observation at event j at time w. */
  ghost predicate WokeFrom(events: seq<DiskCollector.Event>, i: nat, j: nat, n: nat, id: string, w: int)
    requires n <= |events|
  {
    i < j < n && IsStandby(EffectAt(events, i, id)) && OnlyKeptSince(events, i, j, id)
    && IsEmhttpdFailure(EffectAt(events, j, id)) && EffectAt(events, j, id).at == w
    && WithinGraceSince(events, j, n, id, w)
  }

  /**
   A waking disk was seen in standby under the same ID; since then it was never lost, only
   failed emhttpd observations were made of it, and all of them, from the first one at w,
   are less than the grace in force away from w.
   */
  lemma {:induction false} WakingComesFrom(events: seq<DiskCollector.Event>, n: nat, id: string)
    requires FirstRun(events, n) && StateOf(DiskCollector.Run(events[..n]), id).thermal.Waking?
    ensures var s := StateOf(DiskCollector.Run(events[..n]), id);
            s.wakeStartedAt.Some? && exists i, j :: WokeFrom(events, i, j, n, id, s.wakeStartedAt.value)
  {
    hide EffectAt, EffectOn, DiskCollector.Step, Refreshed, OnlyKeptSince;
    if n > 0 {
      var s, f := StateOf(DiskCollector.Run(events[..n - 1]), id), EffectAt(events, n - 1, id);
      LastStep(events, n, id);
      if s.thermal.Waking? && !(f.Saw? && f.o.source.Direct?) {
        WakingComesFrom(events, n - 1, id);
        var i, j :| WokeFrom(events, i, j, n - 1, id, s.wakeStartedAt.value);
        assert WokeFrom(events, i, j, n, id, s.wakeStartedAt.value);
      } else {
        StandbyComesFrom(events, n - 1, id);
        var i :| 0 <= i < n - 1 && IsStandby(EffectAt(events, i, id)) && OnlyKeptSince(events, i, n - 1, id);
        assert WokeFrom(events, i, n - 1, n, id, f.at);
      }
    }
  }

  /** No disk is waking after a refresh that ends in fallback. */
  lemma NeverWakingInFallback(events: seq<DiskCollector.Event>, id: string)
    requires DistinctRun(events) && DiskCollector.Run(events).source.fallbackActive
    ensures !StateOf(DiskCollector.Run(events), id).thermal.Waking?
  {
    RunIsCoherent(events);
  }

  lemma FallbackAfter(c: Collector, i: Input)
    ensures Refreshed(c, i).source.fallbackActive <==> Decide(c.source, i.decisionAt, i.poll).source.Direct?
  {
    hide Applied, Fold, ReusedRows, BuiltRows, Retain, Invalidated, ObservationsOf;
  }

  /** A direct source that is not due continues an episode that was already going on. */
  lemma KeptMeansOngoing(c: Collector, e: DiskCollector.Event, id: string)
    ensures EffectOn(c, e, id).Kept? ==> c.source.fallbackActive
    ensures EffectOn(c, e, id).Nothing? ==> e.Heartbeat?
    ensures EffectOn(c, e, id).Nothing? ==> DiskCollector.Step(c, e).source.fallbackActive == c.source.fallbackActive
    ensures EffectOn(c, e, id).Saw? ==>
      (DiskCollector.Step(c, e).source.fallbackActive <==> EffectOn(c, e, id).o.source.Direct?)
  {
    hide Refreshed, IndexOf;
    if e.Refresh? {
      FallbackAfter(c, e.input);
    }
  }

  /** What emhttpd reported is not kept by any later refresh. */
  lemma {:induction false} EmhttpdIsNotKept(events: seq<DiskCollector.Event>, i: nat, n: nat, id: string)
    requires FirstRun(events, n) && i < n && OnlyKeptSince(events, i, n, id)
    requires EffectAt(events, i, id).Saw? && EffectAt(events, i, id).o.source.Emhttpd?
    ensures !DiskCollector.Run(events[..n]).source.fallbackActive
    ensures forall k :: i < k < n ==> events[k].Heartbeat?
  {
    hide EffectOn, DiskCollector.Step;
    var c := DiskCollector.Run(events[..n - 1]);
    LastStep(events, n, id);
    KeptMeansOngoing(c, events[n - 1], id);
    if i < n - 1 {
      EmhttpdIsNotKept(events, i, n - 1, id);
      assert !EffectAt(events, n - 1, id).Kept?;
    }
  }

  // ----- published readings -----

  /** Event i observed the temperature, and the disk was at most kept since. */
  ghost predicate ObservedAt(events: seq<DiskCollector.Event>, i: nat, n: nat, id: string, t: real)
    requires n <= |events|
  {
    i < n && IsValid(EffectAt(events, i, id)) && EffectAt(events, i, id).o.temperature == t
        && OnlyKeptSince(events, i, n, id)
  }

  lemma ReusedRowFrom(c: Collector, i: Input, k: nat)
    requires Coherent(c) && i.inventory.Some? && k < |i.inventory.value| && !Collects(c, i)
    requires Refreshed(c, i).snapshot[k].state.thermal.Valid?
    ensures !c.failed
    ensures exists j :: 0 <= j < |c.snapshot| && c.snapshot[j].disk.id == i.inventory.value[k].id
                        && c.snapshot[j].state.thermal.Valid?
                        && c.snapshot[j].reading.temp == Refreshed(c, i).snapshot[k].reading.temp
  {
    var id := i.inventory.value[k].id;
    PreviousAt(c.snapshot, id);
    if !c.failed {
      assert id in c.tracker;
      var m :| 0 <= m < |c.snapshot| && c.snapshot[m].disk.id == id;
      var j :| 0 <= j < |c.snapshot| && c.snapshot[j] == Previous(c.snapshot, id).value && c.snapshot[j].disk.id == id;
      assert c.snapshot[j].state == Lookup(c.tracker, id);
    }
  }

  lemma StaysObserved(events: seq<DiskCollector.Event>, i: nat, n: nat, id: string, t: real)
    requires 0 < n <= |events| && ObservedAt(events, i, n - 1, id, t)
    requires EffectAt(events, n - 1, id).Nothing? || EffectAt(events, n - 1, id).Kept?
    ensures ObservedAt(events, i, n, id, t)
  {
    hide EffectAt;
  }

  /** A reused row of an inventory means that its disk was kept. */
  lemma ReuseKeeps(c: Collector, e: DiskCollector.Event, k: nat)
    requires e.Refresh? && e.input.inventory.Some? && !Collects(c, e.input) && k < |e.input.inventory.value|
    ensures EffectOn(c, e, e.input.inventory.value[k].id).Kept?
    ensures |Refreshed(c, e.input).snapshot| == |e.input.inventory.value|
    ensures Refreshed(c, e.input).snapshot[k].disk == e.input.inventory.value[k]
  {
  }

  lemma RefreshSize(c: Collector, i: Input)
    ensures i.inventory.None? ==> Refreshed(c, i).failed
    ensures i.inventory.Some? ==> |Refreshed(c, i).snapshot| == |i.inventory.value|
  {
    hide Applied, Fold;
  }

  lemma RunStep(events: seq<DiskCollector.Event>, n: nat)
    requires 0 < n <= |events|
    ensures DiskCollector.Run(events[..n]) == DiskCollector.Step(DiskCollector.Run(events[..n - 1]), events[n - 1])
  {
    assert events[..n][..n - 1] == events[..n - 1];
  }

  /** Every valid published row shows the observation its state came from. */
  lemma {:induction false} RowsShowObservations(events: seq<DiskCollector.Event>, n: nat, r: nat) returns (i: nat)
    requires FirstRun(events, n) && !DiskCollector.Run(events[..n]).failed
        && r < |DiskCollector.Run(events[..n]).snapshot|
    requires DiskCollector.Run(events[..n]).snapshot[r].state.thermal.Valid?
    ensures var row := DiskCollector.Run(events[..n]).snapshot[r];
            ObservedAt(events, i, n, row.disk.id, row.reading.temp)
    decreases n, 2
  {
    hide Refreshed, Collects, ObservedAt, Decide, Coherent;
    assert n > 0;
    var c, e := DiskCollector.Run(events[..n - 1]), events[n - 1];
    var row := DiskCollector.Run(events[..n]).snapshot[r];
    RunStep(events, n);
    if e.Heartbeat? {
      i := RowsShowObservations(events, n - 1, r);
      StaysObserved(events, i, n, row.disk.id, row.reading.temp);
    } else {
      RefreshSize(c, e.input);
      i := RefreshShows(events, n, r);
    }
  }

  lemma RefreshShows(events: seq<DiskCollector.Event>, n: nat, r: nat) returns (i: nat)
    requires FirstRun(events, n) && n > 0 && events[n - 1].Refresh? && events[n - 1].input.inventory.Some?
    requires DiskCollector.Run(events[..n]) == Refreshed(DiskCollector.Run(events[..n - 1]), events[n - 1].input)
    requires r < |DiskCollector.Run(events[..n]).snapshot|
    requires DiskCollector.Run(events[..n]).snapshot[r].state.thermal.Valid?
    ensures var row := DiskCollector.Run(events[..n]).snapshot[r];
            ObservedAt(events, i, n, row.disk.id, row.reading.temp)
    decreases n, 1
  {
    hide Refreshed, EffectOn, DiskCollector.Run, Coherent;
    var c, e := DiskCollector.Run(events[..n - 1]), events[n - 1];
    var row := DiskCollector.Run(events[..n]).snapshot[r];
    if Collects(c, e.input) {
      CollectedRowShows(c, e, r);
      i := n - 1;
    } else {
      RefreshSize(c, e.input);
      i := ReuseShows(events, n, r);
    }
  }

  lemma ReuseShows(events: seq<DiskCollector.Event>, n: nat, r: nat) returns (i: nat)
    requires FirstRun(events, n) && n > 0 && events[n - 1].Refresh? && events[n - 1].input.inventory.Some?
    requires !Collects(DiskCollector.Run(events[..n - 1]), events[n - 1].input)
    requires DiskCollector.Run(events[..n]) == Refreshed(DiskCollector.Run(events[..n - 1]), events[n - 1].input)
    requires r < |events[n - 1].input.inventory.value| <= |DiskCollector.Run(events[..n]).snapshot|
    requires DiskCollector.Run(events[..n]).snapshot[r].state.thermal.Valid?
    ensures var row := DiskCollector.Run(events[..n]).snapshot[r];
            ObservedAt(events, i, n, row.disk.id, row.reading.temp)
    decreases n, 0
  {
    hide Refreshed, EffectOn, DiskCollector.Run, Coherent, ObservedAt, Collects;
    var c, e := DiskCollector.Run(events[..n - 1]), events[n - 1];
    RunIsCoherent(events[..n - 1]);
    ReuseKeeps(c, e, r);
    ReusedRowFrom(c, e.input, r);
    var row := DiskCollector.Run(events[..n]).snapshot[r];
    var j :| 0 <= j < |c.snapshot| && c.snapshot[j].disk.id == row.disk.id && c.snapshot[j].state.thermal.Valid?
             && c.snapshot[j].reading.temp == row.reading.temp;
    i := RowsShowObservations(events, n - 1, j);
    StaysObserved(events, i, n, row.disk.id, row.reading.temp);
  }

  lemma IndexOfUnique(disks: seq<UnraidDisk>, k: nat)
    requires DistinctInventory(disks) && k < |disks|
    ensures IndexOf(disks, disks[k].id) == Some(k)
  {
  }

  lemma CollectedRowShows(c: Collector, e: DiskCollector.Event, r: nat)
    requires e.Refresh? && Collects(c, e.input) && DistinctInventory(e.input.inventory.value)
    requires r < |Refreshed(c, e.input).snapshot| && Refreshed(c, e.input).snapshot[r].state.thermal.Valid?
    ensures var row := Refreshed(c, e.input).snapshot[r];
            var f := EffectOn(c, e, row.disk.id);
            IsValid(f) && f.o.temperature == row.reading.temp
  {
    hide Refreshed, Decide, IndexOf, ObservationsOf;
    CollectedKeys(c, e.input);
    CollectedRow(c, e.input, r);
    IndexOfUnique(e.input.inventory.value, r);
  }

  /** Refresh k neither failed, nor lost the disk, nor attempted a direct read, nor left the fallback. */
  ghost predicate KeptInFallback(events: seq<DiskCollector.Event>, k: nat, id: string)
    requires k < |events| && events[k].Refresh?
  {
    var i := events[k].input;
    var d := Decide(DiskCollector.Run(events[..k]).source, i.decisionAt, i.poll);
    d.source.Direct? && !d.directDue && i.inventory.Some? && exists m ::
          0 <= m < |i.inventory.value| && i.inventory.value[m].id == id
  }

  /** The current inventory of the last refresh gave the temperature, under emhttpd and with polling. */
  ghost predicate ParsedNow(events: seq<DiskCollector.Event>, i: nat, id: string, t: real)
    requires i < |events|
  {
    events[i].Refresh? && events[i].input.poll > 0 && events[i].input.inventory.Some?
    && Decide(DiskCollector.Run(events[..i]).source, events[i].input.decisionAt, events[i].input.poll).source.Emhttpd?
    && exists m :: 0 <= m < |events[i].input.inventory.value|
                   && var d := events[i].input.inventory.value[m]; d.id == id && !d.spundown && d.emhttpd == Some(t)
  }

  /** A direct attempt measured the temperature. */
  ghost predicate MeasuredDirectly(events: seq<DiskCollector.Event>, i: nat, id: string, t: real)
    requires i < |events|
  {
    events[i].Refresh? && events[i].input.inventory.Some?
    && Decide(DiskCollector.Run(events[..i]).source, events[i].input.decisionAt, events[i].input.poll).directDue
    && exists m :: 0 <= m < |events[i].input.inventory.value|
                   && events[i].input.inventory.value[m].id == id && ProbeOf(events[i].input.probes, m) == Measured(t)
  }

  lemma OriginOfEffect(events: seq<DiskCollector.Event>, i: nat, id: string)
    requires i < |events| && IsValid(EffectAt(events, i, id))
    ensures var o := EffectAt(events, i, id).o;
            if o.source.Emhttpd? then ParsedNow(events, i, id, o.temperature)
            else MeasuredDirectly(events, i, id, o.temperature)
  {
    var input := events[i].input;
    var m := IndexOf(input.inventory.value, id).value;
    assert input.inventory.value[m].id == id;
  }

  lemma KeptIsFallback(events: seq<DiskCollector.Event>, k: nat, id: string)
    requires k < |events| && events[k].Refresh?
    ensures EffectAt(events, k, id).Kept? ==> KeptInFallback(events, k, id)
    ensures !EffectAt(events, k, id).Nothing?
  {
  }

  /**
   No revival: a valid published temperature was parsed from the inventory of the refresh that
   published it, the last one, with emhttpd as the source; or it was measured by the direct
   attempt after which every refresh stayed in the same fallback episode, attempted nothing,
   read the inventory and found the disk in it.
   */
  lemma NoRevival(events: seq<DiskCollector.Event>, r: nat)
    requires DistinctRun(events) && !DiskCollector.Run(events).failed && r < |DiskCollector.Run(events).snapshot|
    requires DiskCollector.Run(events).snapshot[r].state.thermal.Valid?
    ensures var row := DiskCollector.Run(events).snapshot[r];
            var id, t := row.disk.id, row.reading.temp;
            exists i :: 0 <= i < |events|
              && ((ParsedNow(events, i, id, t) && forall k :: i < k < |events| ==> events[k].Heartbeat?)
                  || (MeasuredDirectly(events, i, id, t)
                      && forall k :: i < k < |events| && events[k].Refresh? ==> KeptInFallback(events, k, id)))
  {
    hide DiskCollector.Run, Decide, IsValid, ParsedNow, MeasuredDirectly;
    assert events[..|events|] == events;
    var row := DiskCollector.Run(events).snapshot[r];
    var i := RowsShowObservations(events, |events|, r);
    OriginOfEffect(events, i, row.disk.id);
    if EffectAt(events, i, row.disk.id).o.source.Emhttpd? {
      EmhttpdIsNotKept(events, i, |events|, row.disk.id);
    } else {
      forall k | i < k < |events| && events[k].Refresh? ensures KeptInFallback(events, k, row.disk.id) {
        KeptIsFallback(events, k, row.disk.id);
      }
    }
  }

  /** Every successful publication tells unavailable disks apart and shows no invented temperature. */
  lemma PublicationsAreCoherent(events: seq<DiskCollector.Event>, r: nat)
    requires DistinctRun(events) && r < |DiskCollector.Run(events).snapshot|
    ensures var row := DiskCollector.Run(events).snapshot[r];
            (row.reading.unavailable <==> row.state.thermal.Unavailable?)
            && (row.reading.temp != 0.0 ==> row.state.thermal.Valid?)
  {
    RunIsCoherent(events);
  }

  // ----- the cadence of the collector -----

  /** What the scheduler of direct reads sees of an event. */
  function ScheduleOf(e: DiskCollector.Event): SmartSource.Event {
    match e
    case Heartbeat(at) => SmartSource.Heartbeat(at)
    case Refresh(i) => SmartSource.Refresh(i.decisionAt, i.poll, i.inventory.Some?)
  }

  function Schedule(events: seq<DiskCollector.Event>): (s: seq<SmartSource.Event>)
    ensures |s| == |events| && forall k :: 0 <= k < |s| ==> s[k] == ScheduleOf(events[k])
  {
    seq(|events|, k requires 0 <= k < |events| => ScheduleOf(events[k]))
  }

  /** Two states that decide alike, now and after any further event. */
  predicate SameScheduler(a: SmartSource.State, b: SmartSource.State) {
    a.initialized == b.initialized && a.startedAt == b.startedAt && a.heartbeatSeen == b.heartbeatSeen
    && a.lastHeartbeat == b.lastHeartbeat && a.fallbackActive == b.fallbackActive && a.lastAttempt == b.lastAttempt
  }

  lemma StepSchedules(c: Collector, s: SmartSource.State, e: DiskCollector.Event)
    requires SameScheduler(c.source, s)
    ensures SameScheduler(DiskCollector.Step(c, e).source, SmartSource.Step(s, ScheduleOf(e)))
    ensures BeginsDirect(c, e) <==> Attempts(s, ScheduleOf(e))
  {
    hide Applied, ReusedRows, BuiltRows, Retain, Invalidated, ObservationsOf, FirstError;
  }

  /** The refresh begins a direct read of the disks. */
  predicate BeginsDirect(c: Collector, e: DiskCollector.Event) {
    e.Refresh? && Collects(c, e.input) && Decide(c.source, e.input.decisionAt, e.input.poll).source.Direct?
  }

  lemma {:induction false} RunSchedules(events: seq<DiskCollector.Event>)
    ensures SameScheduler(DiskCollector.Run(events).source, SmartSource.Run(Schedule(events)))
  {
    hide SameScheduler, DiskCollector.Step, SmartSource.Step;
    if events == [] {
      assert SameScheduler(NEW_COLLECTOR.source, SmartSource.INITIAL) by { InitiallyScheduled(); }
    } else {
      var n := |events| - 1;
      RunSchedules(events[..n]);
      assert Schedule(events)[..n] == Schedule(events[..n]);
      StepSchedules(DiskCollector.Run(events[..n]), SmartSource.Run(Schedule(events[..n])), events[n]);
    }
  }

  lemma InitiallyScheduled()
    ensures SameScheduler(NEW_COLLECTOR.source, SmartSource.INITIAL)
  {
  }

  /**
   Any two refreshes of the collector that begin direct reads are at least the interval in
   force at the later one apart, also when emhttpd recovered, or inventories could not be read,
   in between; provided that no interval breaks the cadence.
   */
  lemma DirectReadsAreSpaced(events: seq<DiskCollector.Event>, lag: nat, i: nat, j: nat)
    requires Timed(Schedule(events), lag) && Harmless(Intervals(Schedule(events)), lag) && i < j < |events|
    requires BeginsDirect(DiskCollector.Run(events[..i]), events[i])
    requires BeginsDirect(DiskCollector.Run(events[..j]), events[j])
    ensures events[j].input.decisionAt - events[i].input.decisionAt >= events[j].input.poll
  {
    hide Timed, Harmless, Intervals, Attempts, BeginsDirect;
    forall k | k == i || k == j ensures AttemptAt(Schedule(events), k) {
      RunSchedules(events[..k]);
      assert Schedule(events)[..k] == Schedule(events[..k]);
      StepSchedules(DiskCollector.Run(events[..k]), SmartSource.Run(Schedule(events[..k])), events[k]);
    }
    HarmlessPairKeeps(Schedule(events), lag, i, j);
    assert events[i].Refresh? && events[j].Refresh? by { DirectIsRefresh(events, i); DirectIsRefresh(events, j); }
  }

  lemma DirectIsRefresh(events: seq<DiskCollector.Event>, k: nat)
    requires k < |events|
    ensures BeginsDirect(DiskCollector.Run(events[..k]), events[k]) ==> events[k].Refresh?
  {
  }
}
