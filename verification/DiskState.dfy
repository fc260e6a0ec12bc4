/**
 The thermal state of every disk: how an observation changes it, what is published for it,
 and the wake grace after a standby.
 */
module DiskState {
  import opened Common
  import opened SmartSource

  datatype Thermal = Unavailable | Valid | Standby | Waking

  datatype DiskState = DiskState(thermal: Thermal, wakeStartedAt: Option<int>, lastValidAt: Option<int>,
    lastSource: Option<Source>)

  const ZERO := DiskState(Unavailable, None, None, None)

  type Tracker = map<string, DiskState>

  /** A Go map read: the zero state for an absent disk. */
  function Lookup(t: Tracker, id: string): DiskState {
    if id in t then t[id] else ZERO
  }

  /** An inventory row; emhttpd is what parseEmhttpdTemperature makes of its temperature field. */
  datatype UnraidDisk = UnraidDisk(id: string, name: string, device: string, transport: string,
    emhttpd: Option<real>, rotational: bool, spundown: bool)

  ghost predicate DistinctInventory(disks: seq<UnraidDisk>) {
    forall i, j :: 0 <= i < j < |disks| ==> disks[i].id != disks[j].id
  }

  datatype Observation = Observation(disk: UnraidDisk, temperature: real, standby: bool, err: Option<string>,
    source: Source)

  datatype Reading = Reading(id: string, name: string, device: string, transport: string, rotational: bool,
    temp: real, unavailable: bool)

  const DISABLED := "SMART polling is disabled; active disk temperature is not refreshed"
  const NOT_PARSED := "emhttpd temperature is unavailable"

  function EmhttpdObservation(d: UnraidDisk, polling: bool): Observation {
    if d.spundown then Observation(d, 0.0, true, None, Emhttpd)
    else if !polling then Observation(d, 0.0, false, Some(DISABLED), Emhttpd)
    else if d.emhttpd.None? then Observation(d, 0.0, false, Some(NOT_PARSED), Emhttpd)
    else Observation(d, d.emhttpd.value, false, None, Emhttpd)
  }

  function EmhttpdObservations(disks: seq<UnraidDisk>, polling: bool): (o: seq<Observation>)
    ensures |o| == |disks| && forall i :: 0 <= i < |o| ==> o[i] == EmhttpdObservation(disks[i], polling)
  {
    seq(|disks|, i requires 0 <= i < |disks| => EmhttpdObservation(disks[i], polling))
  }

  /**
   What emhttpd tells of a disk: it is in standby exactly when it is spun down; otherwise it has
   its temperature when polling is on and there is one, and an error when not.
   */
  predicate FromEmhttpd(d: UnraidDisk, polling: bool, o: Observation) {
    o.disk == d && o.source.Emhttpd? && o.standby == d.spundown
    && (o.err.None? <==> d.spundown || (polling && d.emhttpd.Some?))
    && (!d.spundown && polling && d.emhttpd.Some? ==> o.temperature == d.emhttpd.value)
  }

  /** makeDiskObservations. */
  method MakeDiskObservations(disks: seq<UnraidDisk>, polling: bool) returns (observations: seq<Observation>)
    ensures observations == EmhttpdObservations(disks, polling)
    ensures |observations| == |disks|
    ensures forall i :: 0 <= i < |disks| ==> FromEmhttpd(disks[i], polling, observations[i])
  {
    observations := [];
    for i := 0 to |disks|
      invariant |observations| == i
      invariant forall k :: 0 <= k < i ==> observations[k] == EmhttpdObservation(disks[k], polling)
    {
      var disk := disks[i];
      var observation := Observation(disk, 0.0, disk.spundown, None, Emhttpd);
      if disk.spundown {
        observations := observations + [observation];
        continue;
      }
      if !polling {
        observations := observations + [observation.(err := Some(DISABLED))];
        continue;
      }
      if disk.emhttpd.Some? {
        observation := observation.(temperature := disk.emhttpd.value);
      } else {
        observation := observation.(err := Some(NOT_PARSED));
      }
      observations := observations + [observation];
    }
  }

  /** A waking disk is within its grace. */
  predicate Graced(s: DiskState, now: int, grace: int) {
    s.wakeStartedAt.Some? && now - s.wakeStartedAt.value < grace
  }

  /** The state after one observation. */
  function Observed(s: DiskState, o: Observation, now: int, grace: int): (s': DiskState) {
    if o.standby then s.(thermal := Standby, wakeStartedAt := None)
    else if o.err.None? then DiskState(Valid, None, Some(now), Some(o.source))
    else
      var w := if o.source.Emhttpd? && s.thermal.Standby? then s.(thermal := Waking, wakeStartedAt := Some(now)) else s;
      if o.source.Emhttpd? && w.thermal.Waking? && Graced(w, now, grace) then w else w.(thermal := Unavailable)
  }

  function Published(s: DiskState, o: Observation, now: int, grace: int): (r: Reading) {
    var s' := Observed(s, o, now, grace);
    Reading(o.disk.id, o.disk.name, o.disk.device, o.disk.transport, o.disk.rotational,
            if s'.thermal.Valid? then o.temperature else 0.0, s'.thermal.Unavailable?)
  }

  function Ids(observations: seq<Observation>): set<string> {
    set o | o in observations :: o.disk.id
  }

  /** The tracker and the readings after the first observations in order. */
  function Fold(t: Tracker, observations: seq<Observation>, now: int, grace: int): (r: (Tracker, seq<Reading>))
    ensures |r.1| == |observations|
  {
    if observations == [] then (t, [])
    else
      var (before, readings) := Fold(t, observations[..|observations| - 1], now, grace);
      var o := observations[|observations| - 1];
      var s := Lookup(before, o.disk.id);
      (before[o.disk.id := Observed(s, o, now, grace)], readings + [Published(s, o, now, grace)])
  }

  function Retain(t: Tracker, ids: set<string>): (r: Tracker) {
    map id | id in t && id in ids :: t[id]
  }

  function Applied(t: Tracker, observations: seq<Observation>, now: int, grace: int): (r: (Tracker, seq<Reading>)) {
    var (t', readings) := Fold(t, observations, now, grace);
    (Retain(t', Ids(observations)), readings)
  }

  function Invalidated(t: Tracker): (r: Tracker) {
    map id | id in t :: t[id].(thermal := Unavailable, wakeStartedAt := None)
  }

  /** diskStateTracker. */
  class DiskTracker {
    var states: Tracker

    constructor ()
      ensures states == map[]
    {
      states := map[];
    }

    method InvalidateContinuity()
      modifies this
      ensures states == Invalidated(old(states))
    {
      var todo := states.Keys;
      while todo != {}
        invariant todo <= states.Keys == old(states).Keys
        invariant forall id :: id in states ==>
          states[id] == if id in todo then old(states)[id] else Invalidated(old(states))[id]
        decreases |todo|
      {
        var id :| id in todo;
        states := states[id := states[id].(thermal := Unavailable, wakeStartedAt := None)];
        todo := todo - {id};
      }
    }

    /** The deletion loop at the end of apply. */
    method DropAbsent(present: set<string>)
      modifies this
      ensures states == Retain(old(states), present)
    {
      var todo := states.Keys;
      while todo != {}
        invariant todo <= states.Keys <= old(states).Keys
        invariant forall id :: id in states ==> states[id] == old(states)[id]
        invariant forall id :: id in old(states) ==> (id in states <==> id in todo || id in present)
        decreases |todo|
      {
        var id :| id in todo;
        todo := todo - {id};
        if id !in present {
          states := states - {id};
        }
      }
    }

    method Apply(observations: seq<Observation>, now: int, grace: int) returns (readings: seq<Reading>)
      modifies this
      ensures (states, readings) == Applied(old(states), observations, now, grace)
    {
      ghost var t := states;
      var present: set<string> := {};
      readings := [];
      for i := 0 to |observations|
        invariant (states, readings) == Fold(t, observations[..i], now, grace)
        invariant present == Ids(observations[..i])
      {
        assert observations[..i + 1][..i] == observations[..i];
        assert observations[..i + 1] == observations[..i] + [observations[i]];
        var o := observations[i];
        var disk := o.disk;
        present := present + {disk.id};
        var state := if disk.id in states then states[disk.id] else ZERO;
        var temperature, unavailable := o.temperature, false;
        if o.standby {
          temperature := 0.0;
          state := state.(thermal := Standby, wakeStartedAt := None);
        } else if o.err.None? {
          state := state.(thermal := Valid, wakeStartedAt := None, lastValidAt := Some(now),
              lastSource := Some(o.source));
        } else {
          if o.source.Emhttpd? && state.thermal.Standby? {
            state := state.(thermal := Waking, wakeStartedAt := Some(now));
          }
          temperature := 0.0;
          if !(o.source.Emhttpd? && state.thermal.Waking? && Graced(state, now, grace)) {
            unavailable := true;
            state := state.(thermal := Unavailable);
          }
        }
        states := states[disk.id := state];
        readings := readings + [Reading(disk.id, disk.name, disk.device, disk.transport, disk.rotational,
            temperature, unavailable)];
      }
      assert observations[..|observations|] == observations;
      DropAbsent(present);
    }
  }

  ghost predicate DistinctDisks(observations: seq<Observation>) {
    forall i, j :: 0 <= i < j < |observations| ==> observations[i].disk.id != observations[j].disk.id
  }

  /** With distinct IDs every disk is observed once, in the state it had before the call. */
  lemma {:induction false} FoldAt(t: Tracker, observations: seq<Observation>, now: int, grace: int, i: nat)
    requires DistinctDisks(observations) && i < |observations|
    ensures var (t', readings) := Fold(t, observations, now, grace);
            var o := observations[i];
            o.disk.id in t' && t'[o.disk.id] == Observed(Lookup(t, o.disk.id), o, now, grace)
            && readings[i] == Published(Lookup(t, o.disk.id), o, now, grace)
  {
    var n := |observations| - 1;
    if i < n {
      FoldAt(t, observations[..n], now, grace, i);
    } else {
      FoldElsewhere(t, observations[..n], now, grace, observations[n].disk.id);
    }
  }

  lemma {:induction false} FoldElsewhere(t: Tracker, observations: seq<Observation>, now: int, grace: int, id: string)
    requires forall i :: 0 <= i < |observations| ==> observations[i].disk.id != id
    ensures Lookup(Fold(t, observations, now, grace).0, id) == Lookup(t, id)
  {
    if observations != [] {
      FoldElsewhere(t, observations[..|observations| - 1], now, grace, id);
    }
  }

  /** After apply the tracker holds exactly the observed disks. */
  lemma AppliedAt(t: Tracker, observations: seq<Observation>, now: int, grace: int)
    requires DistinctDisks(observations)
    ensures var (t', readings) := Applied(t, observations, now, grace);
            t'.Keys == Ids(observations) && |readings| == |observations|
            && forall i :: 0 <= i < |observations| ==>
              var o := observations[i];
              o.disk.id in t' && t'[o.disk.id] == Observed(Lookup(t, o.disk.id), o, now, grace)
              && readings[i] == Published(Lookup(t, o.disk.id), o, now, grace)
  {
    var folded := Fold(t, observations, now, grace);
    forall i | 0 <= i < |observations|
      ensures var o := observations[i];
              o.disk.id in folded.0 && folded.0[o.disk.id] == Observed(Lookup(t, o.disk.id), o, now, grace)
              && folded.1[i] == Published(Lookup(t, o.disk.id), o, now, grace)
    {
      FoldAt(t, observations, now, grace, i);
    }
    forall id | id in Ids(observations) ensures id in folded.0 {
      var i :| 0 <= i < |observations| && observations[i].disk.id == id;
    }
  }
}
