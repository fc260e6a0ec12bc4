/**
 Choosing the source of disk temperatures: emhttpd while its polls arrive, direct SMART
 reads while they do not, and when a direct read is due.
 */
module SmartSource {
  import opened Common

  /** Times and durations are in nanoseconds. */
  const SECOND := 1_000_000_000
  const POLL_MARGIN := 15 * SECOND

  datatype Source = Emhttpd | Direct

  datatype State = State(
    initialized: bool, startedAt: int, heartbeatSeen: bool, lastHeartbeat: int,
    fallbackActive: bool, fallbackSince: Option<int>, lastAttempt: Option<int>,
    pollInterval: int, configError: string, lastFallbackError: string, fallbackErrorAt: Option<int>)

  const INITIAL := State(false, 0, false, 0, false, None, None, 0, "", "", None)

  datatype Decision = Decision(source: Source, directDue: bool, justEntered: bool, justRecovered: bool)

  function Noted(s: State, now: int): State {
    s.(lastHeartbeat := now, heartbeatSeen := true)
  }

  /** The moment the silence of emhttpd is counted from. */
  function Reference(s: State, now: int): int {
    if s.heartbeatSeen then s.lastHeartbeat else if s.initialized then s.startedAt else now
  }

  predicate Silent(s: State, now: int, poll: int) {
    poll > 0 && now - Reference(s, now) > poll + POLL_MARGIN
  }

  function Decide(s: State, now: int, poll: int): (d: Decision) {
    var fallback := Silent(s, now, poll);
    var entered := fallback && !s.fallbackActive;
    Decision(if fallback then Direct else Emhttpd,
             fallback && (entered || s.lastAttempt.None? || now - s.lastAttempt.value >= poll),
             entered, !fallback && s.fallbackActive)
  }

  function Evaluated(s: State, now: int, poll: int, configError: string): (s': State) {
    var d := Decide(s, now, poll);
    var s1 := s.(initialized := true, startedAt := if s.initialized then s.startedAt else now,
                 pollInterval := poll, configError := configError, fallbackActive := d.source.Direct?);
    if d.justEntered then s1.(fallbackSince := Some(now))
    else if d.justRecovered then s1.(fallbackSince := None, lastFallbackError := "", fallbackErrorAt := None)
    else s1
  }

  function Begun(s: State, now: int): State {
    s.(lastAttempt := Some(now))
  }

  function Recorded(s: State, now: int, message: string): State {
    if message == s.lastFallbackError then s
    else s.(lastFallbackError := message, fallbackErrorAt := if message != "" then Some(now) else None)
  }

  /** smartSourceState. */
  class SourceMonitor {
    var initialized: bool
    var startedAt: int
    var heartbeatSeen: bool
    var lastHeartbeat: int
    var fallbackActive: bool
    var fallbackSince: Option<int>
    var lastAttempt: Option<int>
    var pollInterval: int
    var configError: string
    var lastFallbackError: string
    var fallbackErrorAt: Option<int>

    function Current(): State
      reads this
    {
      State(initialized, startedAt, heartbeatSeen, lastHeartbeat, fallbackActive, fallbackSince, lastAttempt,
            pollInterval, configError, lastFallbackError, fallbackErrorAt)
    }

    constructor ()
      ensures Current() == INITIAL
    {
      initialized, startedAt, heartbeatSeen, lastHeartbeat := false, 0, false, 0;
      fallbackActive, fallbackSince, lastAttempt := false, None, None;
      pollInterval, configError, lastFallbackError, fallbackErrorAt := 0, "", "", None;
    }

    method NoteEmhttpPoll(now: int)
      modifies this
      ensures Current() == Noted(old(Current()), now)
    {
      lastHeartbeat := now;
      heartbeatSeen := true;
    }

    method Evaluate(now: int, poll: int, error: string) returns (decision: Decision)
      modifies this
      ensures decision == Decide(old(Current()), now, poll)
      ensures Current() == Evaluated(old(Current()), now, poll, error)
    {
      if !initialized {
        startedAt := now;
        initialized := true;
      }
      pollInterval, configError := poll, error;
      var reference := startedAt;
      if heartbeatSeen {
        reference := lastHeartbeat;
      }
      var fallback := poll > 0 && now - reference > poll + POLL_MARGIN;
      decision := Decision(Emhttpd, false, false, false);
      if fallback {
        decision := decision.(source := Direct);
      }
      if fallback != fallbackActive {
        fallbackActive := fallback;
        if fallback {
          fallbackSince := Some(now);
          decision := decision.(justEntered := true);
        } else {
          fallbackSince, lastFallbackError, fallbackErrorAt := None, "", None;
          decision := decision.(justRecovered := true);
        }
      }
      if fallback && (decision.justEntered || lastAttempt.None? || now - lastAttempt.value >= poll) {
        decision := decision.(directDue := true);
      }
    }

    method BeginDirectAttempt(now: int)
      modifies this
      ensures Current() == Begun(old(Current()), now)
    {
      lastAttempt := Some(now);
    }

    method RecordFallbackResult(now: int, message: string)
      modifies this
      ensures Current() == Recorded(old(Current()), now, message)
    {
      if message == lastFallbackError {
        return;
      }
      lastFallbackError := message;
      fallbackErrorAt := None;
      if message != "" {
        fallbackErrorAt := Some(now);
      }
    }
  }

  // ----- runs -----

  /** A poll of emhttpd, or a refresh that may fail to read the inventory before it attempts anything. */
  datatype Event = Heartbeat(at: int) | Refresh(at: int, poll: int, inventoryRead: bool)

  predicate Attempts(s: State, e: Event) {
    e.Refresh? && e.inventoryRead && Decide(s, e.at, e.poll).directDue
  }

  /** The scheduling part of one event. */
  function Step(s: State, e: Event): State {
    match e
    case Heartbeat(at) => Noted(s, at)
    case Refresh(at, poll, _) =>
      var s' := Evaluated(s, at, poll, "");
      if Attempts(s, e) then Begun(s', at) else s'
  }

  function Run(events: seq<Event>): State {
    if events == [] then INITIAL else Step(Run(events[..|events| - 1]), events[|events| - 1])
  }

  /** Event i of a run begins a direct attempt. */
  predicate AttemptAt(events: seq<Event>, i: nat)
    requires i < |events|
  {
    Attempts(Run(events[..i]), events[i])
  }

  /** The poll intervals of the refreshes, in order. */
  function Intervals(events: seq<Event>): (p: seq<int>) {
    if events == [] then []
    else
      var last := events[|events| - 1];
      Intervals(events[..|events| - 1]) + if last.Refresh? then [last.poll] else []
  }

  /**
   Refreshes happen at non-decreasing times; a heartbeat may be noted late, stamped at most a
   lag before a refresh that it follows.
   */
  ghost predicate Timed(events: seq<Event>, lag: nat) {
    forall i, j :: 0 <= i < j < |events| && events[i].Refresh? ==>
      events[j].at >= events[i].at - (if events[j].Heartbeat? then lag else 0)
  }

  /** Any two direct attempts are at least the interval apart that is in force at the later one. */
  ghost predicate KeepsIntervals(events: seq<Event>) {
    forall i, j :: 0 <= i < j < |events| && AttemptAt(events, i) && AttemptAt(events, j) ==>
      events[j].at - events[i].at >= events[j].poll
  }

  /**
   Between two refreshes that may attempt a read, one that may end the episode: polling is
   off, its interval is longer, or heartbeats may be late by more than the margin and a
   nanosecond.
   */
  predicate Breaks(first: int, between: int, later: int, lag: nat) {
    first > 0 && later > 0 && (between <= 0 || between > first || lag > POLL_MARGIN + 1)
  }

  /** No positive interval is followed by a breaking one and then by a positive one. */
  ghost predicate Harmless(p: seq<int>, lag: nat) {
    forall i, k, j :: 0 <= i < k < j < |p| ==> !Breaks(p[i], p[k], p[j], lag)
  }

  lemma {:induction false} IntervalsPrefix(events: seq<Event>, n: nat)
    requires n <= |events|
    ensures Intervals(events[..n]) <= Intervals(events)
  {
    if n < |events| {
      IntervalsPrefix(events[..|events| - 1], n);
      assert events[..|events| - 1][..n] == events[..n];
    } else {
      assert events[..n] == events;
    }
  }

  /** The place of a refresh among the intervals. */
  lemma PlaceOf(events: seq<Event>, e: nat, n: nat) returns (m: nat)
    requires e < n <= |events| && events[e].Refresh?
    ensures m == |Intervals(events[..e])| < |Intervals(events[..n])| <= |Intervals(events)|
    ensures Intervals(events)[m] == events[e].poll
  {
    m := |Intervals(events[..e])|;
    assert events[..e + 1][..e] == events[..e];
    assert events[..n][..e + 1] == events[..e + 1];
    IntervalsPrefix(events[..n], e + 1);
    IntervalsPrefix(events, n);
  }

  lemma HarmlessAt(events: seq<Event>, lag: nat, i: nat, k: nat, j: nat)
    requires Harmless(Intervals(events), lag) && i < k < j < |events|
    requires events[i].Refresh? && events[k].Refresh? && events[j].Refresh?
    ensures !Breaks(events[i].poll, events[k].poll, events[j].poll, lag)
  {
    var a := PlaceOf(events, i, k);
    var b := PlaceOf(events, k, j);
    var c := PlaceOf(events, j, |events|);
  }

  /**
   After an attempt with some interval, either emhttpd has been heard again, or the episode
   goes on and emhttpd was already silent at the attempt.
   */
  ghost predicate Spaced(s: State, interval: int) {
    s.initialized && s.lastAttempt.Some?
    && ((s.heartbeatSeen && s.lastHeartbeat >= s.lastAttempt.value - POLL_MARGIN - 1)
        || (s.fallbackActive && s.lastAttempt.value - Reference(s, 0) > interval + POLL_MARGIN))
  }

  lemma AttemptStartsSpaced(s: State, e: Event)
    requires Attempts(s, e)
    ensures Spaced(Step(s, e), e.poll) && Step(s, e).lastAttempt == Some(e.at) && Step(s, e).fallbackActive
  {
  }

  lemma StepKeepsSpaced(s: State, e: Event, interval: int)
    requires Spaced(s, interval) && !Attempts(s, e)
    requires if e.Refresh? then 0 < e.poll <= interval && e.at >= s.lastAttempt.value
             else e.at >= s.lastAttempt.value - POLL_MARGIN - 1
    ensures Spaced(Step(s, e), interval) && Step(s, e).lastAttempt == s.lastAttempt
  {
  }

  /** No event between two others attempts a read. */
  ghost predicate NoneBetween(events: seq<Event>, i: int, n: int)
    requires 0 <= i && n <= |events|
  {
    forall k :: i < k < n ==> !AttemptAt(events, k)
  }

  lemma RunStep(events: seq<Event>, n: nat)
    requires n < |events|
    ensures Run(events[..n + 1]) == Step(Run(events[..n]), events[n])
    ensures AttemptAt(events, n) <==> Attempts(Run(events[..n]), events[n])
    ensures AttemptAt(events, n) ==> events[n].Refresh? && events[n].poll > 0
  {
    assert events[..n + 1][..n] == events[..n];
  }

  /** While only refreshes that cannot end the episode follow an attempt, the run stays spaced. */
  lemma {:induction false} StaysSpaced(events: seq<Event>, lag: nat, i: nat, n: nat)
    requires Timed(events, lag) && lag <= POLL_MARGIN + 1
    requires i < n <= |events| && AttemptAt(events, i) && NoneBetween(events, i, n)
    requires forall k :: i < k < n && events[k].Refresh? ==> 0 < events[k].poll <= events[i].poll
    ensures Spaced(Run(events[..n]), events[i].poll) && Run(events[..n]).lastAttempt == Some(events[i].at)
  {
    hide Attempts, Spaced, Step;
    RunStep(events, n - 1);
    RunStep(events, i);
    if n == i + 1 {
      AttemptStartsSpaced(Run(events[..i]), events[i]);
    } else {
      StaysSpaced(events, lag, i, n - 1);
      assert !AttemptAt(events, n - 1);
      assert Run(events[..n - 1]).lastAttempt.Some?;
      StepKeepsSpaced(Run(events[..n - 1]), events[n - 1], events[i].poll);
    }
  }

  /** Heartbeats alone neither end an episode nor forget its attempt. */
  lemma {:induction false} HeartbeatsKeepEpisode(events: seq<Event>, i: nat, n: nat)
    requires i < n <= |events| && AttemptAt(events, i)
    requires forall k :: i < k < n ==> events[k].Heartbeat?
    ensures Run(events[..n]).fallbackActive && Run(events[..n]).lastAttempt == Some(events[i].at)
  {
    hide Attempts;
    RunStep(events, n - 1);
    RunStep(events, i);
    if n == i + 1 {
      AttemptStartsSpaced(Run(events[..i]), events[i]);
    } else {
      HeartbeatsKeepEpisode(events, i, n - 1);
    }
  }

  lemma DueFromSpaced(s: State, interval: int, now: int, poll: int)
    requires Decide(s, now, poll).directDue && s.lastAttempt.Some?
    requires s.fallbackActive || Spaced(s, interval)
    ensures now - s.lastAttempt.value >= poll
  {
  }

  /** Two attempts with none in between. */
  lemma NeighboursKeep(events: seq<Event>, lag: nat, i: nat, j: nat)
    requires Timed(events, lag) && Harmless(Intervals(events), lag)
    requires i < j < |events| && AttemptAt(events, i) && AttemptAt(events, j) && NoneBetween(events, i, j)
    ensures events[j].at - events[i].at >= events[j].poll
  {
    hide Decide, Spaced, Timed, Harmless;
    RunStep(events, i);
    RunStep(events, j);
    if k :| i < k < j && events[k].Refresh? {
      forall k | i < k < j && events[k].Refresh?
        ensures 0 < events[k].poll <= events[i].poll && lag <= POLL_MARGIN + 1
      {
        HarmlessAt(events, lag, i, k, j);
      }
      StaysSpaced(events, lag, i, j);
    } else {
      HeartbeatsKeepEpisode(events, i, j);
    }
    DueFromSpaced(Run(events[..j]), events[i].poll, events[j].at, events[j].poll);
  }

  lemma {:induction false} HarmlessPairKeeps(events: seq<Event>, lag: nat, i: nat, j: nat)
    requires Timed(events, lag) && Harmless(Intervals(events), lag)
    requires i < j < |events| && AttemptAt(events, i) && AttemptAt(events, j)
    ensures events[j].at - events[i].at >= events[j].poll
    decreases j - i
  {
    hide AttemptAt, Harmless;
    if k :| i < k < j && AttemptAt(events, k) {
      HarmlessPairKeeps(events, lag, k, j);
      RunStep(events, i);
      RunStep(events, k);
    } else {
      NeighboursKeep(events, lag, i, j);
    }
  }

  // ----- the runs that break it -----

  /** A run continued. */
  function RunFrom(s: State, events: seq<Event>): State {
    if events == [] then s else Step(RunFrom(s, events[..|events| - 1]), events[|events| - 1])
  }

  lemma {:induction false} RunConcat(a: seq<Event>, b: seq<Event>)
    ensures Run(a + b) == RunFrom(Run(a), b)
  {
    hide Step;
    if b == [] {
      assert a + b == a;
    } else {
      RunConcat(a, b[..|b| - 1]);
      assert (a + b)[..|a + b| - 1] == a + b[..|b| - 1];
    }
  }

  lemma {:induction false} IntervalsConcat(a: seq<Event>, b: seq<Event>)
    ensures Intervals(a + b) == Intervals(a) + Intervals(b)
  {
    if b == [] {
      assert a + b == a;
    } else {
      IntervalsConcat(a, b[..|b| - 1]);
      assert (a + b)[..|a + b| - 1] == a + b[..|b| - 1];
    }
  }

  /** Refreshes at one time that cannot read the inventory. */
  function Refreshes(p: seq<int>, at: int): (events: seq<Event>)
    ensures |events| == |p| && forall k :: 0 <= k < |p| ==> events[k] == Refresh(at, p[k], false)
  {
    seq(|p|, k requires 0 <= k < |p| => Refresh(at, p[k], false))
  }

  lemma {:induction false} IntervalsOfRefreshes(p: seq<int>, at: int)
    ensures Intervals(Refreshes(p, at)) == p
  {
    if p != [] {
      IntervalsOfRefreshes(p[..|p| - 1], at);
      assert Refreshes(p, at)[..|p| - 1] == Refreshes(p[..|p| - 1], at);
      assert p == p[..|p| - 1] + [p[|p| - 1]];
    }
  }

  /** They keep the heartbeat and the last attempt; the last one decides whether the fallback runs. */
  lemma {:induction false} AfterRefreshes(s: State, p: seq<int>, at: int)
    requires s.heartbeatSeen
    ensures var s' := RunFrom(s, Refreshes(p, at));
            s'.heartbeatSeen && s'.lastHeartbeat == s.lastHeartbeat && s'.lastAttempt == s.lastAttempt
            && (s'.fallbackActive <==>
                  if p == [] then s.fallbackActive
                  else p[|p| - 1] > 0 && at - s.lastHeartbeat > p[|p| - 1] + POLL_MARGIN)
  {
    if p != [] {
      AfterRefreshes(s, p[..|p| - 1], at);
      assert Refreshes(p, at)[..|p| - 1] == Refreshes(p[..|p| - 1], at);
    }
  }

  lemma TimedConcat(a: seq<Event>, b: seq<Event>, t: int, lag: nat)
    requires Timed(a, lag) && Timed(b, lag)
    requires forall i :: 0 <= i < |a| && a[i].Refresh? ==> a[i].at <= t
    requires forall i :: 0 <= i < |b| ==> b[i].at >= t - (if b[i].Heartbeat? then lag else 0)
    ensures Timed(a + b, lag)
  {
    var all := a + b;
    assert forall i :: 0 <= i < |a| ==> all[i] == a[i];
    assert forall i :: |a| <= i < |all| ==> all[i] == b[i - |a|];
  }

  /** The first positive interval after k. */
  lemma {:induction false} NextPositive(p: seq<int>, k: nat, j: nat) returns (m: nat)
    requires k < j < |p| && p[j] > 0
    ensures k < m <= j && p[m] > 0 && forall x :: k < x < m ==> p[x] <= 0
  {
    if x :| k < x < j && p[x] > 0 {
      m := NextPositive(p, k, x);
    } else {
      m := j;
    }
  }

  /** What happens at one time after an attempt, and the last heartbeat then seen. */
  datatype Middle = Middle(events: seq<Event>, heartbeat: int)

  /** Refreshes with the intervals q at time t; a late heartbeat ends them, after one that is not. */
  function MiddleOf(q: seq<int>, t: int, late: Option<nat>): (m: Middle) {
    if late.Some? then
      Middle([Heartbeat(t)] + Refreshes(q, t) + [Heartbeat(t - late.value)], t - late.value)
    else Middle(Refreshes(q, t), 0)
  }

  /** The fallback runs after the middle. */
  predicate StaysActive(q: seq<int>, t: int, late: Option<nat>) {
    q == [] || (q[|q| - 1] > 0 && late.None? && t > q[|q| - 1] + POLL_MARGIN)
  }

  lemma AfterMiddle(s: State, q: seq<int>, t: int, late: Option<nat>)
    requires s.heartbeatSeen && s.fallbackActive && (late.None? ==> s.lastHeartbeat == 0)
    ensures var s' := RunFrom(s, MiddleOf(q, t, late).events);
            s'.heartbeatSeen && s'.lastHeartbeat == MiddleOf(q, t, late).heartbeat
            && s'.lastAttempt == s.lastAttempt && (s'.fallbackActive <==> StaysActive(q, t, late))
  {
    if late.Some? {
      var a, b, c := [Heartbeat(t)], Refreshes(q, t), [Heartbeat(t - late.value)];
      assert RunFrom(s, a) == Noted(s, t) by { assert a[..0] == []; }
      RunFromConcat(s, a, b);
      AfterRefreshes(Noted(s, t), q, t);
      RunFromConcat(s, a + b, c);
      assert c[..0] == [];
    } else {
      AfterRefreshes(s, q, t);
    }
  }

  lemma {:induction false} RunFromConcat(s: State, a: seq<Event>, b: seq<Event>)
    ensures RunFrom(s, a + b) == RunFrom(RunFrom(s, a), b)
  {
    hide Step;
    if b == [] {
      assert a + b == a;
    } else {
      RunFromConcat(s, a, b[..|b| - 1]);
      assert (a + b)[..|a + b| - 1] == a + b[..|b| - 1];
    }
  }

  lemma MiddleHasIntervals(q: seq<int>, t: int, late: Option<nat>)
    ensures Intervals(MiddleOf(q, t, late).events) == q
  {
    hide Intervals;
    IntervalsOfRefreshes(q, t);
    if late.Some? {
      var a, b, c := [Heartbeat(t)], Refreshes(q, t), [Heartbeat(t - late.value)];
      IntervalsOfOne(a[0]);
      IntervalsOfOne(c[0]);
      IntervalsConcat(a, b);
      IntervalsConcat(a + b, c);
    }
  }

  /** No event is earlier than a time, but for late heartbeats, and no refresh is later. */
  ghost predicate AtTime(events: seq<Event>, t: int, lag: nat) {
    (forall i :: 0 <= i < |events| ==> events[i].at >= t - (if events[i].Heartbeat? then lag else 0))
    && forall i :: 0 <= i < |events| && events[i].Refresh? ==> events[i].at <= t
  }

  lemma MiddleIsAtTime(q: seq<int>, t: int, late: Option<nat>, lag: nat)
    requires late.Some? ==> late.value <= lag
    ensures AtTime(MiddleOf(q, t, late).events, t, lag)
  {
  }

  lemma MiddleIsTimed(q: seq<int>, t: int, late: Option<nat>, lag: nat)
    requires late.Some? ==> late.value <= lag
    ensures Timed(MiddleOf(q, t, late).events, lag)
  {
    hide Timed;
    TimedOfRefreshes(q, t, lag);
    if late.Some? {
      var a, b, c := [Heartbeat(t)], Refreshes(q, t), [Heartbeat(t - late.value)];
      TimedOfOne(a[0], lag);
      TimedOfOne(c[0], lag);
      TimedConcat(a, b, t, lag);
      MiddleIsAtTime(q, t, late, lag);
      assert a + b == MiddleOf(q, t, late).events[..1 + |q|];
      TimedConcat(a + b, c, t, lag);
    }
  }

  /** The choices of a run that has an attempt at time t, at interval i, and is followed up at interval j. */
  datatype Plan = Plan(i: nat, t: int, late: Option<nat>, j: nat, u: int, read: bool, w: int) {
    /** The heartbeat counted from at interval j. */
    function Heartbeat(): int {
      if late.Some? then t - late.value else 0
    }

    ghost predicate Fits(p: seq<int>, lag: nat) {
      i < j < |p| && p[i] > 0 && p[i] + POLL_MARGIN < t <= u <= w && (late.Some? ==> late.value <= lag)
    }

    /** The events up to the attempt, between it and the follow-up, and after that. */
    function Before(p: seq<int>): seq<Event>
      requires i < |p|
    {
      [Event.Heartbeat(0)] + Refreshes(p[..i], 0)
    }

    function First(p: seq<int>): Event
      requires i < |p|
    {
      Refresh(t, p[i], true)
    }

    function Between(p: seq<int>): seq<Event>
      requires i < j < |p|
    {
      MiddleOf(p[i + 1..j], t, late).events
    }

    function Second(p: seq<int>): Event
      requires j < |p|
    {
      Refresh(u, p[j], read)
    }

    function After(p: seq<int>): seq<Event>
      requires j < |p|
    {
      Refreshes(p[j + 1..], w)
    }

    function Events(p: seq<int>): seq<Event>
      requires i < j < |p|
    {
      Before(p) + [First(p)] + Between(p) + [Second(p)] + After(p)
    }
  }

  lemma IntervalsOfOne(e: Event)
    ensures Intervals([e]) == if e.Refresh? then [e.poll] else []
  {
    assert [e][..0] == [];
  }

  lemma Parts(p: seq<int>, i: nat, j: nat)
    requires i < j < |p|
    ensures p == p[..i] + [p[i]] + p[i + 1..j] + [p[j]] + p[j + 1..]
  {
  }

  lemma IntervalsOfFive(a: seq<Event>, b: seq<Event>, c: seq<Event>, d: seq<Event>, e: seq<Event>)
    ensures Intervals(a + b + c + d + e) == Intervals(a) + Intervals(b) + Intervals(c) + Intervals(d) + Intervals(e)
  {
    hide Intervals;
    IntervalsConcat(a, b);
    IntervalsConcat(a + b, c);
    IntervalsConcat(a + b + c, d);
    IntervalsConcat(a + b + c + d, e);
  }

  lemma PlanHasIntervals(p: seq<int>, plan: Plan)
    requires plan.i < plan.j < |p|
    ensures Intervals(plan.Events(p)) == p
  {
    hide Intervals, MiddleOf, Refreshes;
    MiddleHasIntervals(p[plan.i + 1..plan.j], plan.t, plan.late);
    IntervalsOfRefreshes(p[..plan.i], 0);
    IntervalsOfRefreshes(p[plan.j + 1..], plan.w);
    IntervalsOfOne(Heartbeat(0));
    IntervalsOfOne(plan.First(p));
    IntervalsOfOne(plan.Second(p));
    IntervalsConcat([Heartbeat(0)], Refreshes(p[..plan.i], 0));
    IntervalsOfFive(plan.Before(p), [plan.First(p)], plan.Between(p), [plan.Second(p)], plan.After(p));
    Parts(p, plan.i, plan.j);
  }

  lemma TimedOfOne(e: Event, lag: nat)
    ensures Timed([e], lag)
  {
  }

  lemma TimedOfRefreshes(p: seq<int>, at: int, lag: nat)
    ensures Timed(Refreshes(p, at), lag)
  {
  }

  lemma PlanIsTimed(p: seq<int>, plan: Plan, lag: nat)
    requires plan.Fits(p, lag)
    ensures Timed(plan.Events(p), lag)
  {
    hide Intervals, Timed, MiddleOf;
    var before, first, between, second, after :=
      plan.Before(p), [plan.First(p)], plan.Between(p), [plan.Second(p)], plan.After(p);
    MiddleIsTimed(p[plan.i + 1..plan.j], plan.t, plan.late, lag);
    MiddleIsAtTime(p[plan.i + 1..plan.j], plan.t, plan.late, lag);
    TimedOfOne(Heartbeat(0), lag);
    TimedOfOne(first[0], lag);
    TimedOfOne(second[0], lag);
    TimedOfRefreshes(p[..plan.i], 0, lag);
    TimedOfRefreshes(p[plan.j + 1..], plan.w, lag);
    TimedConcat([Heartbeat(0)], Refreshes(p[..plan.i], 0), 0, lag);
    TimedConcat(between, second, plan.t, lag);
    TimedConcat(between + second, after, plan.u, lag);
    TimedConcat(first, between + second + after, plan.t, lag);
    var rest := first + (between + second + after);
    assert forall k :: 0 <= k < |rest| ==> rest[k].at >= 0 - (if rest[k].Heartbeat? then lag else 0);
    TimedConcat(before, rest, 0, lag);
    assert plan.Events(p) == before + rest;
  }

  lemma StepOfOne(a: seq<Event>, e: Event)
    ensures Run(a + [e]) == Step(Run(a), e)
  {
    assert (a + [e])[..|a|] == a;
  }

  lemma FirstAttempts(p: seq<int>, plan: Plan, lag: nat)
    requires plan.Fits(p, lag)
    ensures var s := Run(plan.Before(p));
            Attempts(s, plan.First(p)) && Step(s, plan.First(p)).heartbeatSeen
            && Step(s, plan.First(p)).lastHeartbeat == 0
  {
    hide Refreshes;
    RunConcat([Heartbeat(0)], Refreshes(p[..plan.i], 0));
    assert [] + [Heartbeat(0)] == [Heartbeat(0)];
    StepOfOne([], Heartbeat(0));
    AfterRefreshes(Noted(INITIAL, 0), p[..plan.i], 0);
  }

  /** The state in which a planned run comes to its follow-up. */
  ghost predicate ComesTo(p: seq<int>, plan: Plan, s: State)
    requires plan.i < plan.j < |p|
  {
    s.heartbeatSeen && s.lastHeartbeat == plan.Heartbeat() && s.lastAttempt == Some(plan.t)
    && (s.fallbackActive <==> StaysActive(p[plan.i + 1..plan.j], plan.t, plan.late))
  }

  lemma PlanComesTo(p: seq<int>, plan: Plan, lag: nat) returns (x: nat, y: nat)
    requires plan.Fits(p, lag)
    ensures var events := plan.Events(p);
            x < y < |events| && events[x] == plan.First(p) && events[y] == plan.Second(p) && AttemptAt(events, x)
            && ComesTo(p, plan, Run(events[..y]))
            && (plan.j + 1 < |p| ==> y + 1 < |events| && events[y + 1] == Refresh(plan.w, p[plan.j + 1], false))
  {
    hide Refreshes, RunFrom, Run, Evaluated, MiddleOf;
    var events := plan.Events(p);
    x, y := |plan.Before(p)|, |plan.Before(p)| + 1 + |plan.Between(p)|;
    assert events[..x] == plan.Before(p) && events[x] == plan.First(p);
    assert events[..y] == plan.Before(p) + [plan.First(p)] + plan.Between(p) && events[y] == plan.Second(p);
    FirstAttempts(p, plan, lag);
    AttemptStartsSpaced(Run(plan.Before(p)), plan.First(p));
    StepOfOne(plan.Before(p), plan.First(p));
    MiddleHeartbeat(p[plan.i + 1..plan.j], plan.t, plan.late);
    AfterMiddle(Run(plan.Before(p) + [plan.First(p)]), p[plan.i + 1..plan.j], plan.t, plan.late);
    RunConcat(plan.Before(p) + [plan.First(p)], plan.Between(p));
  }

  lemma MiddleHeartbeat(q: seq<int>, t: int, late: Option<nat>)
    ensures MiddleOf(q, t, late).heartbeat == if late.Some? then t - late.value else 0
  {
  }

  /** The intervals let j follow i, with the episode ended in between. */
  ghost predicate Splits(p: seq<int>, i: int, j: int, late: bool) {
    0 <= i < j - 1 && j < |p| && p[i] > 0 && p[j] > 0 && (p[j - 1] <= 0 || p[j - 1] > p[i] || late)
  }

  /** A run whose second attempt comes too early. */
  function BreakingPlan(p: seq<int>, i: nat, j: nat, late: bool): (plan: Plan)
    requires i < j < |p|
  {
    var t := p[i] + POLL_MARGIN + 1;
    var r := if late then t - POLL_MARGIN - 2 else 0;
    var u := if r + p[j] + POLL_MARGIN + 1 < t then t else r + p[j] + POLL_MARGIN + 1;
    Plan(i, t, if late then Some(POLL_MARGIN + 2) else None, j, u, true, u)
  }

  lemma BreakingPlanBreaks(p: seq<int>, i: nat, j: nat, late: bool, lag: nat)
    requires Splits(p, i, j, late) && (late ==> lag >= POLL_MARGIN + 2)
    ensures var events := BreakingPlan(p, i, j, late).Events(p);
            Intervals(events) == p && Timed(events, lag) && !KeepsIntervals(events)
  {
    hide Intervals, Timed, Run, Plan.Events;
    var plan := BreakingPlan(p, i, j, late);
    PlanHasIntervals(p, plan);
    PlanIsTimed(p, plan, lag);
    var x, y := PlanComesTo(p, plan, lag);
    var events := plan.Events(p);
    assert p[i + 1..j][|p[i + 1..j]| - 1] == p[j - 1];
    assert AttemptAt(events, y);
    assert events[y].at - events[x].at < events[y].poll;
  }

  /**
   The exact cadence: with a list of poll intervals and a bound on the lag of heartbeats, every
   run keeps its intervals if and only if no positive interval is followed by a zero, a longer
   one, or with such a lag any, and then by a positive one.
   */
  lemma CadenceIsExact(p: seq<int>, lag: nat)
    ensures (forall events :: Intervals(events) == p && Timed(events, lag) ==> KeepsIntervals(events)) <==>
            Harmless(p, lag)
  {
    hide AttemptAt, Timed, Intervals, BreakingPlan;
    if Harmless(p, lag) {
      forall events | Intervals(events) == p && Timed(events, lag) ensures KeepsIntervals(events) {
        HarmlessKeeps(events, lag);
      }
    } else {
      var i, k, j :| 0 <= i < k < j < |p| && Breaks(p[i], p[k], p[j], lag);
      var m := NextPositive(p, k, j);
      var late := lag > POLL_MARGIN + 1;
      assert Splits(p, i, m, late);
      BreakingPlanBreaks(p, i, m, late, lag);
    }
  }

  lemma HarmlessKeeps(events: seq<Event>, lag: nat)
    requires Timed(events, lag) && Harmless(Intervals(events), lag)
    ensures KeepsIntervals(events)
  {
    hide Decide, Timed, Harmless;
    forall i, j | 0 <= i < j < |events| && AttemptAt(events, i) && AttemptAt(events, j)
      ensures events[j].at - events[i].at >= events[j].poll
    {
      HarmlessPairKeeps(events, lag, i, j);
    }
  }

  // ----- one constant interval -----

  /** One positive interval, and heartbeats noted no later than the margin allows. */
  ghost predicate Steady(events: seq<Event>, poll: int) {
    poll > 0 && Timed(events, POLL_MARGIN)
    && forall i :: 0 <= i < |events| && events[i].Refresh? ==> events[i].poll == poll
  }

  lemma {:induction false} SteadyIsHarmless(events: seq<Event>, poll: int)
    requires Steady(events, poll)
    ensures forall m :: 0 <= m < |Intervals(events)| ==> Intervals(events)[m] == poll
    ensures Harmless(Intervals(events), POLL_MARGIN)
  {
    if events != [] {
      SteadyIsHarmless(events[..|events| - 1], poll);
    }
  }

  /** In any steady run two direct attempts are at least a poll interval apart, also across episodes. */
  lemma AttemptsAreSpaced(events: seq<Event>, poll: int, i: nat, j: nat)
    requires Steady(events, poll) && i < j < |events|
    requires AttemptAt(events, i) && AttemptAt(events, j)
    ensures events[j].at - events[i].at >= poll
  {
    hide AttemptAt;
    RunStep(events, j);
    SteadyIsHarmless(events, poll);
    HarmlessPairKeeps(events, POLL_MARGIN, i, j);
  }

  lemma {:induction false} LastAttemptIsOne(events: seq<Event>) returns (i: nat)
    requires Run(events).lastAttempt.Some?
    ensures i < |events| && AttemptAt(events, i) && Run(events).lastAttempt == Some(events[i].at)
  {
    hide Attempts;
    var n := |events| - 1;
    RunStep(events, n);
    assert events[..n + 1] == events;
    if AttemptAt(events, n) {
      i := n;
    } else {
      i := LastAttemptIsOne(events[..n]);
      assert events[..n][..i] == events[..i];
    }
  }

  /** The interval must be constant: switching polling off and on again repeats an attempt at once. */
  lemma ChangingIntervalBreaksCadence()
    ensures exists events: seq<Event> ::
      |events| == 4 && AttemptAt(events, 1) && AttemptAt(events, 3) && events[3].at - events[1].at < events[3].poll
  {
    var e0 := Refresh(0, 60 * SECOND, true);
    var e1 := Refresh(76 * SECOND, 60 * SECOND, true);
    var e2 := Refresh(81 * SECOND, 0, true);
    var e3 := Refresh(86 * SECOND, 60 * SECOND, true);
    var events := [e0, e1, e2, e3];
    assert events[..0] == [] && events[..1] == [e0] && events[..2] == [e0, e1] && events[..3] == [e0, e1, e2];
    assert [e0][..0] == [] && [e0, e1][..1] == [e0] && [e0, e1, e2][..2] == [e0, e1];
    assert Run([]) == INITIAL;
    var s1 := Step(INITIAL, e0);
    assert Run([e0]) == s1;
    assert Attempts(s1, e1);
    var s2 := Step(s1, e1);
    assert Run([e0, e1]) == s2;
    var s3 := Step(s2, e2);
    assert Run([e0, e1, e2]) == s3;
    assert Attempts(s3, e3);
    assert AttemptAt(events, 1) && AttemptAt(events, 3);
  }
}
