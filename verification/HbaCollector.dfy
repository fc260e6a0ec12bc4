/**
 The HBA collector: a refresh runs without the lock, is accepted only before its deadline,
 and its snapshot expires by itself. Refreshes follow each other; reads happen at any time.
 */
module HbaCollector {
  import opened Common

  const SECOND := 1_000_000_000
  const COLLECTION_TIMEOUT := 15 * SECOND

  datatype Hba = Hba(id: string, model: string, pciAddress: string, temp: real, iocTemp: Option<real>,
    boardTemp: Option<real>)

  datatype Collector = Collector(failed: bool, lastSuccessfulAt: Option<int>, snapshot: seq<Hba>)

  const NEW_COLLECTOR := Collector(true, None, [])

  /**
   What refresh does once the backend has answered: None is an error, and cancelled is the
   context's state when it is asked after the clock.
   */
  function Completed(c: Collector, startedAt: int, finishedAt: int, result: Option<seq<Hba>>,
    cancelled: bool): Collector {
    if finishedAt >= startedAt + COLLECTION_TIMEOUT || result.None? || cancelled then c.(failed := true)
    else Collector(false, Some(finishedAt), result.value)
  }

  function Stale(c: Collector, now: int, interval: nat): bool {
    c.lastSuccessfulAt.None? || now >= c.lastSuccessfulAt.value + interval + COLLECTION_TIMEOUT
  }

  /** snapshot in enabled mode. */
  function SnapshotAt(c: Collector, now: int, interval: nat): (r: Option<seq<Hba>>) {
    if c.failed || Stale(c, now, interval) then None else Some(c.snapshot)
  }

  class HbaMonitor {
    const interval: nat
    const enabled: bool
    var failed: bool
    var lastSuccessfulAt: Option<int>
    var lastSuccessfulSnapshot: seq<Hba>

    function Current(): Collector
      reads this
    {
      Collector(failed, lastSuccessfulAt, lastSuccessfulSnapshot)
    }

    constructor (interval: nat, enabled: bool)
      ensures this.interval == interval && this.enabled == enabled
      ensures Current() == NEW_COLLECTOR.(failed := enabled)
    {
      this.interval, this.enabled := interval, enabled;
      failed, lastSuccessfulAt, lastSuccessfulSnapshot := enabled, None, [];
    }

    /** The locked end of refresh. */
    method Complete(startedAt: int, finishedAt: int, result: Option<seq<Hba>>, cancelled: bool)
      modifies this
      ensures Current() == Completed(old(Current()), startedAt, finishedAt, result, cancelled)
    {
      var deadline := startedAt + COLLECTION_TIMEOUT;
      var error := result.None?;
      if finishedAt >= deadline {
        error := true;
      } else if !error {
        error := cancelled;
      }
      failed := error;
      if error {
        return;
      }
      lastSuccessfulAt := Some(finishedAt);
      lastSuccessfulSnapshot := result.value;
    }

    method Snapshot(now: int) returns (r: Option<seq<Hba>>)
      ensures !enabled ==> r == Some([])
      ensures enabled ==> r == SnapshotAt(Current(), now, interval)
    {
      if !enabled {
        return Some([]);
      }
      if failed || lastSuccessfulAt.None? || now >= lastSuccessfulAt.value + interval + COLLECTION_TIMEOUT {
        return None;
      }
      return Some(lastSuccessfulSnapshot);
    }
  }

  // ----- runs -----

  datatype Event =
    | Begin(at: int)
    | End(at: int, result: Option<seq<Hba>>, cancelled: bool)
    | Read(at: int, answer: Option<seq<Hba>>)

  /** The collector, and the start of the refresh that is running. */
  datatype State = State(collector: Collector, running: Option<int>)

  ghost predicate Next(interval: nat, s: State, e: Event, s': State) {
    match e
    case Begin(at) => s.running.None? && s' == s.(running := Some(at))
    case End(at, result, cancelled) =>
      s.running.Some? && s' == State(Completed(s.collector, s.running.value, at, result, cancelled), None)
    case Read(at, answer) => answer == SnapshotAt(s.collector, at, interval) && s' == s
  }

  ghost predicate IsRun(interval: nat, states: seq<State>, events: seq<Event>) {
    |states| == |events| + 1 && states[0] == State(NEW_COLLECTOR, None)
    && forall i :: 0 <= i < |events| ==> Next(interval, states[i], events[i], states[i + 1])
  }

  /** Event b began a refresh that event e ended in time with these readings. */
  ghost predicate Collected(events: seq<Event>, b: int, e: int, readings: seq<Hba>) {
    0 <= b < e < |events| && events[b].Begin? && events[e].End?
    && (forall k :: b < k < e ==> events[k].Read?)
    && events[e].result == Some(readings) && !events[e].cancelled && events[e].at < events[b].at + COLLECTION_TIMEOUT
  }

  /** The refresh that is running was begun by the last event that is not a read. */
  ghost predicate RunningSince(events: seq<Event>, b: int, n: nat, startedAt: int)
    requires n <= |events|
  {
    0 <= b < n && events[b] == Begin(startedAt) && forall k :: b < k < n ==> events[k].Read?
  }

  /** The last refresh to end before event n is the one from b to e, which collected the readings. */
  ghost predicate LastCollection(events: seq<Event>, b: int, e: int, n: nat, readings: seq<Hba>)
    requires n <= |events|
  {
    Collected(events, b, e, readings) && e < n && forall k :: e < k < n ==> !events[k].End?
  }

  lemma {:induction false} RunningBegan(interval: nat, states: seq<State>, events: seq<Event>, n: nat)
    requires IsRun(interval, states, events) && n < |states| && states[n].running.Some?
    ensures exists b :: RunningSince(events, b, n, states[n].running.value)
  {
    if n > 0 {
      assert Next(interval, states[n - 1], events[n - 1], states[n]);
      if events[n - 1].Begin? {
        assert RunningSince(events, n - 1, n, states[n].running.value);
      } else {
        RunningBegan(interval, states, events, n - 1);
        var b :| RunningSince(events, b, n - 1, states[n - 1].running.value);
        assert RunningSince(events, b, n, states[n].running.value);
      }
    }
  }

  /** A collector without an error holds the readings of the last ended refresh. */
  lemma {:induction false} HoldsLastCollection(interval: nat, states: seq<State>, events: seq<Event>, n: nat)
    requires IsRun(interval, states, events) && n < |states| && !states[n].collector.failed
    ensures exists b, e :: LastCollection(events, b, e, n, states[n].collector.snapshot)
                           && states[n].collector.lastSuccessfulAt == Some(events[e].at)
  {
    if n > 0 {
      assert Next(interval, states[n - 1], events[n - 1], states[n]);
      if events[n - 1].End? {
        RunningBegan(interval, states, events, n - 1);
        var b :| RunningSince(events, b, n - 1, states[n - 1].running.value);
        assert LastCollection(events, b, n - 1, n, states[n].collector.snapshot);
      } else {
        HoldsLastCollection(interval, states, events, n - 1);
        var b, e :| LastCollection(events, b, e, n - 1, states[n - 1].collector.snapshot)
                    && states[n - 1].collector.lastSuccessfulAt == Some(events[e].at);
        assert LastCollection(events, b, e, n, states[n].collector.snapshot);
      }
    }
  }

  /**
   In every interleaving, a read that answers at time t answers with the readings of a
   collection that finished before its deadline and less than the interval plus the
   collection timeout before t, and no refresh has ended, let alone failed, since.
   */
  lemma AnswersAreRecent(interval: nat, states: seq<State>, events: seq<Event>, r: nat)
    requires IsRun(interval, states, events) && r < |events| && events[r].Read? && events[r].answer.Some?
    ensures exists b, e :: LastCollection(events, b, e, r, events[r].answer.value)
                           && events[r].at < events[e].at + interval + COLLECTION_TIMEOUT
  {
    assert Next(interval, states[r], events[r], states[r + 1]);
    HoldsLastCollection(interval, states, events, r);
    var b, e :| LastCollection(events, b, e, r, states[r].collector.snapshot)
                && states[r].collector.lastSuccessfulAt == Some(events[e].at);
    assert LastCollection(events, b, e, r, events[r].answer.value);
  }

  /** The converse: the readings of the last ended refresh are answered until they expire. */
  lemma RecentIsAnswered(interval: nat, states: seq<State>, events: seq<Event>, e: nat, r: nat)
    requires IsRun(interval, states, events) && e < r < |events| && events[r].Read?
    requires events[e].End? && events[e].result.Some? && !events[e].cancelled
    requires states[e].running.Some? && events[e].at < states[e].running.value + COLLECTION_TIMEOUT
    requires forall k :: e < k < r ==> !events[k].End?
    requires events[r].at < events[e].at + interval + COLLECTION_TIMEOUT
    ensures events[r].answer == events[e].result
  {
    assert Next(interval, states[e], events[e], states[e + 1]);
    UnchangedWithoutEnd(interval, states, events, e + 1, r);
    assert Next(interval, states[r], events[r], states[r + 1]);
  }

  lemma {:induction false} UnchangedWithoutEnd(interval: nat, states: seq<State>, events: seq<Event>, i: nat, j: nat)
    requires IsRun(interval, states, events) && i <= j < |states|
    requires forall k :: i <= k < j ==> !events[k].End?
    ensures states[j].collector == states[i].collector
  {
    if i < j {
      UnchangedWithoutEnd(interval, states, events, i, j - 1);
      assert Next(interval, states[j - 1], events[j - 1], states[j]);
    }
  }
}
