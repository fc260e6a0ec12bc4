/**
 When a due direct read stays due: a refresh that finds one due but does not begin it, because
 its inventory cannot be read, must not use it up.
 */
module DueReads {
  import opened Common
  import opened SmartSource

  predicate DueAt(events: seq<Event>, i: nat)
    requires i < |events|
  {
    events[i].Refresh? && Decide(Run(events[..i]), events[i].at, events[i].poll).directDue
  }

  predicate DirectAt(events: seq<Event>, i: nat)
    requires i < |events|
  {
    events[i].Refresh? && Decide(Run(events[..i]), events[i].at, events[i].poll).source.Direct?
  }

  /**
   The event the silence of emhttpd is counted from at event n: the last heartbeat, or before
   any heartbeat the first refresh of the run.
   */
  ghost predicate CountsFrom(events: seq<Event>, since: int, n: int) {
    0 <= since <= n < |events|
    && (if events[since].Heartbeat? then since < n else since == 0)
    && forall k :: since < k < n ==> events[k].Refresh?
  }

  lemma {:induction false} ReferenceIs(events: seq<Event>, since: nat, n: nat)
    requires since < n <= |events| && (events[since].Refresh? ==> since == 0)
    requires forall k :: since < k < n ==> events[k].Refresh?
    ensures var s := Run(events[..n]);
            Reference(s, 0) == events[since].at && (s.initialized || s.heartbeatSeen)
            && s.heartbeatSeen == events[since].Heartbeat?
  {
    hide Decide;
    RunStep(events, n - 1);
    if since == n - 1 {
      assert events[..0] == [];
    } else {
      ReferenceIs(events, since, n - 1);
    }
  }

  /** In every run the fallback is chosen exactly when emhttpd has been silent for longer than a poll and 15 s. */
  lemma FallbackIffSilent(events: seq<Event>, since: nat, n: nat)
    requires CountsFrom(events, since, n) && events[n].Refresh?
    ensures DirectAt(events, n) <==>
            events[n].poll > 0 && events[n].at - events[since].at > events[n].poll + 15 * SECOND
    ensures Run(events[..n + 1]).fallbackActive <==> DirectAt(events, n)
  {
    RunStep(events, n);
    if since < n {
      ReferenceIs(events, since, n);
    } else {
      assert events[..0] == [];
    }
  }

  /**
   In fallback a read is due exactly when the refresh before was not in fallback, no attempt was
   ever made, or the last one is a poll interval ago.
   */
  lemma DueIffWaited(events: seq<Event>, k: nat, n: nat)
    requires k < n < |events| && events[k].Refresh? && OnlyHeartbeats(events, k + 1, n) && DirectAt(events, n)
    ensures (forall x :: 0 <= x < n ==> !AttemptAt(events, x)) ==> DueAt(events, n)
    ensures forall x :: 0 <= x < n && AttemptAt(events, x) && NotBegun(events, x + 1, n) ==>
      (DueAt(events, n) <==> !DirectAt(events, k) || events[n].at - events[x].at >= events[n].poll)
  {
    hide AttemptAt, Run;
    RunStep(events, k);
    HeartbeatsKeep(events, k + 1, n);
    ActiveMeansDirect(events, k);
    var s := Run(events[..n]);
    assert s.lastAttempt.Some? ==> exists x :: 0 <= x < n && AttemptAt(events, x) by {
      if s.lastAttempt.Some? {
        var x := LastAttemptBefore(events, n);
      }
    }
    forall x | 0 <= x < n && AttemptAt(events, x) && NotBegun(events, x + 1, n)
      ensures s.lastAttempt == Some(events[x].at)
    {
      RunStep(events, x);
      AttemptStartsSpaced(Run(events[..x]), events[x]);
      LastAttemptStays(events, x + 1, n);
    }
  }

  lemma ActiveMeansDirect(events: seq<Event>, k: nat)
    requires k < |events| && events[k].Refresh?
    ensures Run(events[..k + 1]).fallbackActive <==> DirectAt(events, k)
  {
    RunStep(events, k);
  }

  /** No attempt begins from event i up to event j. */
  ghost predicate NotBegun(events: seq<Event>, i: int, j: int)
    requires 0 <= i && j <= |events|
  {
    forall k :: i <= k < j ==> !AttemptAt(events, k)
  }

  /** Once due, a read is due at every later refresh in fallback until it begins. */
  ghost predicate KeepsDue(events: seq<Event>) {
    forall i, j :: 0 <= i < j < |events| && DueAt(events, i) && NotBegun(events, i, j) && DirectAt(events, j) ==>
      DueAt(events, j)
  }

  /**
   After an attempt at interval x, the read found due at interval i and not begun may no longer
   be due at the next one: the interval rises; or the episode may end and start anew before i,
   because polling was off, its interval was longer, or heartbeats may be late enough.
   */
  predicate Drops(p: seq<int>, x: int, i: int, lag: nat) {
    0 <= x < i && i + 1 < |p| && p[x] > 0 && p[i] > 0 && p[i + 1] > 0
    && (p[i + 1] > p[i]
        || (x < i - 1
            && (p[i - 1] <= 0
                || (p[i - 1] > p[x] && p[i] + 1 - p[i - 1] < p[i + 1])
                || p[i] + POLL_MARGIN + 1 - lag < p[i + 1])))
  }

  ghost predicate NeverDrops(p: seq<int>, lag: nat) {
    forall x, i :: !Drops(p, x, i, lag)
  }

  // ----- what heartbeats leave alone -----

  ghost predicate OnlyHeartbeats(events: seq<Event>, i: int, n: int)
    requires 0 <= i && n <= |events|
  {
    forall k :: i <= k < n ==> events[k].Heartbeat?
  }

  lemma {:induction false} HeartbeatsKeep(events: seq<Event>, i: nat, n: nat)
    requires i <= n <= |events| && OnlyHeartbeats(events, i, n)
    ensures Run(events[..n]).fallbackActive == Run(events[..i]).fallbackActive
    ensures |Intervals(events[..n])| == |Intervals(events[..i])|
  {
    if i < n {
      HeartbeatsKeep(events, i, n - 1);
      RunStep(events, n - 1);
      assert events[..n][..n - 1] == events[..n - 1];
    }
  }

  lemma {:induction false} LastAttemptStays(events: seq<Event>, i: nat, j: nat)
    requires i <= j <= |events| && NotBegun(events, i, j)
    ensures Run(events[..j]).lastAttempt == Run(events[..i]).lastAttempt
  {
    hide Attempts;
    if i < j {
      LastAttemptStays(events, i, j - 1);
      RunStep(events, j - 1);
      UnbegunKeepsAttempt(Run(events[..j - 1]), events[j - 1]);
    }
  }

  lemma UnbegunKeepsAttempt(s: State, e: Event)
    requires !Attempts(s, e)
    ensures Step(s, e).lastAttempt == s.lastAttempt
  {
  }

  /** The last refresh from event i up to event n. */
  lemma {:induction false} LastRefresh(events: seq<Event>, i: nat, n: nat) returns (k: nat)
    requires i < n <= |events| && !OnlyHeartbeats(events, i, n)
    ensures i <= k < n && events[k].Refresh? && OnlyHeartbeats(events, k + 1, n)
  {
    if events[n - 1].Refresh? {
      k := n - 1;
    } else {
      k := LastRefresh(events, i, n - 1);
    }
  }

  /** Refreshes with only heartbeats between them are neighbours among the intervals. */
  lemma NextPlace(events: seq<Event>, k: nat, n: nat)
    requires k < n <= |events| && events[k].Refresh? && OnlyHeartbeats(events, k + 1, n)
    ensures |Intervals(events[..n])| == |Intervals(events[..k])| + 1
  {
    HeartbeatsKeep(events, k + 1, n);
    assert events[..k + 1][..k] == events[..k];
  }

  lemma RefreshKeepsReference(s: State, e: Event)
    requires e.Refresh?
    ensures Step(s, e).initialized && Reference(Step(s, e), 0) == Reference(s, e.at)
    ensures s.initialized ==> Reference(s, e.at) == Reference(s, 0)
  {
  }

  lemma {:induction false} SameReference(events: seq<Event>, x: nat, n: nat)
    requires x < n <= |events| && events[x].Refresh? && forall k :: x < k < n ==> events[k].Refresh?
    ensures var s := Run(events[..n]);
            s.initialized && Reference(s, 0) == Reference(Run(events[..x]), events[x].at)
  {
    hide Step, Run, Reference;
    RunStep(events, n - 1);
    RefreshKeepsReference(Run(events[..n - 1]), events[n - 1]);
    if x < n - 1 {
      SameReference(events, x, n - 1);
    }
  }

  lemma RefreshKeepsHeartbeat(s: State, e: Event)
    requires e.Refresh?
    ensures Step(s, e).heartbeatSeen == s.heartbeatSeen && Step(s, e).lastHeartbeat == s.lastHeartbeat
  {
  }

  lemma {:induction false} HeardSince(events: seq<Event>, lag: nat, x: nat, n: nat)
    requires Timed(events, lag) && x < n <= |events| && events[x].Refresh?
    requires exists k :: x < k < n && events[k].Heartbeat?
    ensures var s := Run(events[..n]); s.heartbeatSeen && s.lastHeartbeat >= events[x].at - lag
  {
    hide Timed, Evaluated, Attempts, Run;
    RunStep(events, n - 1);
    if events[n - 1].Heartbeat? {
      LateBy(events, lag, x, n - 1);
    } else {
      HeardSince(events, lag, x, n - 1);
      RefreshKeepsHeartbeat(Run(events[..n - 1]), events[n - 1]);
    }
  }

  lemma LateBy(events: seq<Event>, lag: nat, i: nat, j: nat)
    requires Timed(events, lag) && i < j < |events| && events[i].Refresh?
    ensures events[j].at >= events[i].at - (if events[j].Heartbeat? then lag else 0)
  {
  }

  // ----- intervals that keep due reads -----

  lemma InactiveAfter(s: State, e: Event)
    requires e.Refresh? && !Step(s, e).fallbackActive
    ensures e.poll <= 0 || e.at - Reference(s, e.at) <= e.poll + POLL_MARGIN
  {
  }

  /** An episode with an attempt in it was ended by the last refresh before it is over. */
  lemma EpisodeEnded(events: seq<Event>, x: nat, i: nat) returns (k: nat)
    requires x < i < |events| && AttemptAt(events, x) && !Run(events[..i]).fallbackActive
    ensures x < k < i && events[k].Refresh? && OnlyHeartbeats(events, k + 1, i)
    ensures events[k].poll <= 0
            || events[k].at - Reference(Run(events[..k]), events[k].at) <= events[k].poll + POLL_MARGIN
  {
    hide AttemptAt, Run, Step, Reference;
    if OnlyHeartbeats(events, x + 1, i) {
      HeartbeatsKeepEpisode(events, x, i);
      assert false;
    }
    k := LastRefresh(events, x + 1, i);
    HeartbeatsKeep(events, k + 1, i);
    RunStep(events, k);
    InactiveAfter(Run(events[..k]), events[k]);
  }

  /** The entry at event i comes late enough after the attempt at x for the next interval. */
  lemma EntryIsLate(events: seq<Event>, lag: nat, x: nat, k: nat, i: nat, next: int)
    requires Timed(events, lag) && x < k < i < |events| && AttemptAt(events, x)
    requires events[k].Refresh? && OnlyHeartbeats(events, k + 1, i) && DirectAt(events, i)
    requires events[k].at - Reference(Run(events[..k]), events[k].at) <= events[k].poll + POLL_MARGIN
    requires events[k].poll <= events[x].poll || events[i].poll + 1 - events[k].poll >= next
    requires events[i].poll + POLL_MARGIN + 1 - lag >= next
    ensures events[i].at - events[x].at >= next
  {
    RunStep(events, x);
    LateBy(events, lag, x, k);
    if exists h :: x < h < i && events[h].Heartbeat? {
      HeardSince(events, lag, x, i);
    } else {
      SameReference(events, x, k);
      SameReference(events, x, i);
    }
  }

  /** The remembered attempt is the last one. */
  lemma {:induction false} LastAttemptBefore(events: seq<Event>, i: nat) returns (x: nat)
    requires i <= |events| && Run(events[..i]).lastAttempt.Some?
    ensures x < i && AttemptAt(events, x) && NotBegun(events, x + 1, i)
    ensures Run(events[..i]).lastAttempt == Some(events[x].at)
  {
    hide Attempts, Step, Spaced, AttemptAt;
    RunStep(events, i - 1);
    if AttemptAt(events, i - 1) {
      x := i - 1;
      AttemptStartsSpaced(Run(events[..i - 1]), events[i - 1]);
    } else {
      UnbegunKeepsAttempt(Run(events[..i - 1]), events[i - 1]);
      x := LastAttemptBefore(events, i - 1);
    }
  }

  /** When a due read is not due later, the attempt before was less than the later interval ago. */
  lemma NotDueMeans(events: seq<Event>, i: nat, j: nat) returns (x: nat)
    requires i < j < |events| && DueAt(events, i) && NotBegun(events, i, j)
    requires DirectAt(events, j) && !DueAt(events, j)
    ensures x < i && AttemptAt(events, x) && NotBegun(events, x + 1, i) && events[j].at - events[x].at < events[j].poll
    ensures events[x].poll > 0 && events[i].poll > 0 && events[j].poll > 0
    ensures Run(events[..i]).fallbackActive ==> events[i].at - events[x].at >= events[i].poll
  {
    LastAttemptStays(events, i, j);
    x := LastAttemptBefore(events, i);
    RunStep(events, x);
  }

  /** The places of three refreshes of which the last two are neighbours. */
  lemma PlacesOf(events: seq<Event>, x: nat, i: nat, j: nat) returns (a: nat, b: nat)
    requires x < i < j < |events| && OnlyHeartbeats(events, i + 1, j)
    requires events[x].Refresh? && events[i].Refresh? && events[j].Refresh?
    ensures a < b && b + 1 < |Intervals(events)| && b == |Intervals(events[..i])| && a == |Intervals(events[..x])|
    ensures var p := Intervals(events);
            p[a] == events[x].poll && p[b] == events[i].poll && p[b + 1] == events[j].poll
  {
    a := PlaceOf(events, x, i);
    b := PlaceOf(events, i, j);
    var c := PlaceOf(events, j, |events|);
    NextPlace(events, i, j);
  }

  /** A due read is still due at the next refresh in fallback. */
  lemma NextIsDue(events: seq<Event>, lag: nat, i: nat, j: nat)
    requires Timed(events, lag) && NeverDrops(Intervals(events), lag)
    requires i < j < |events| && OnlyHeartbeats(events, i + 1, j)
    requires DueAt(events, i) && NotBegun(events, i, j) && DirectAt(events, j)
    ensures DueAt(events, j)
  {
    hide Timed, Run, Intervals, Decide, Attempts;
    if !DueAt(events, j) {
      var x := NotDueMeans(events, i, j);
      LateBy(events, lag, i, j);
      RunStep(events, x);
      var a, b := PlacesOf(events, x, i, j);
      assert !Drops(Intervals(events), a, b, lag);
      if !Run(events[..i]).fallbackActive {
        var k := EpisodeEnded(events, x, i);
        var a', c := PlacesOf(events, x, k, i);
        NextPlace(events, k, i);
        DueIsDirect(events, i);
        EntryIsLate(events, lag, x, k, i, events[j].poll);
      }
    }
  }

  lemma EntersAt(events: seq<Event>, j: nat)
    requires j < |events| && DirectAt(events, j) && !Run(events[..j]).fallbackActive
    ensures DueAt(events, j)
  {
  }

  lemma {:induction false} DueStays(events: seq<Event>, lag: nat, i: nat, j: nat)
    requires Timed(events, lag) && NeverDrops(Intervals(events), lag)
    requires i < j < |events| && DueAt(events, i) && NotBegun(events, i, j) && DirectAt(events, j)
    ensures DueAt(events, j)
    decreases j
  {
    hide Timed, NeverDrops, Run, Intervals, Decide, AttemptAt;
    DueIsDirect(events, i);
    var k := LastRefresh(events, i, j);
    if k == i {
      NextIsDue(events, lag, i, j);
    } else if DirectAt(events, k) {
      DueStays(events, lag, i, k);
      NextIsDue(events, lag, k, j);
    } else {
      NotDirectEnds(events, k);
      HeartbeatsKeep(events, k + 1, j);
      EntersAt(events, j);
    }
  }

  lemma DueIsDirect(events: seq<Event>, i: nat)
    requires i < |events| && DueAt(events, i)
    ensures DirectAt(events, i) && events[i].Refresh?
  {
  }

  lemma NotDirectEnds(events: seq<Event>, k: nat)
    requires k < |events| && events[k].Refresh? && !DirectAt(events, k)
    ensures !Run(events[..k + 1]).fallbackActive
  {
    RunStep(events, k);
  }

  // ----- intervals that do not -----

  /** A planned run whose follow-up finds the read due and whose next refresh does not. */
  ghost predicate PlansDrop(p: seq<int>, plan: Plan) {
    plan.i < plan.j && plan.j + 1 < |p| && !plan.read && p[plan.j] > 0 && p[plan.j + 1] > 0
    && plan.u - plan.Heartbeat() > p[plan.j] + POLL_MARGIN && plan.w - plan.Heartbeat() > p[plan.j + 1] + POLL_MARGIN
    && plan.w - plan.t < p[plan.j + 1]
    && (StaysActive(p[plan.i + 1..plan.j], plan.t, plan.late) ==> plan.u - plan.t >= p[plan.j])
  }

  lemma PlanDrops(p: seq<int>, plan: Plan, lag: nat)
    requires plan.Fits(p, lag) && PlansDrop(p, plan)
    ensures !KeepsDue(plan.Events(p))
  {
    hide StaysActive, Run, Plan.Events, Plan.First;
    var events := plan.Events(p);
    var x, y := PlanComesTo(p, plan, lag);
    RunStep(events, y);
    assert DueAt(events, y) && NotBegun(events, y, y + 1);
    assert DirectAt(events, y + 1) && !DueAt(events, y + 1);
  }

  function Max(a: int, b: int): int {
    if a >= b then a else b
  }

  /** The run that a dropping triple allows. */
  function DroppingPlan(p: seq<int>, x: nat, i: nat, lag: nat): (plan: Plan)
    requires Drops(p, x, i, lag)
  {
    var high := Max(p[x], Max(p[i], p[i + 1])) + POLL_MARGIN + 1;
    if p[i + 1] > p[i] then Plan(x, high, None, i, high + p[i], false, high + p[i])
    else if p[i - 1] <= 0 then Plan(x, high, None, i, high, false, high)
    else if p[i - 1] > p[x] && p[i] + 1 - p[i - 1] < p[i + 1] then
      var t := p[i - 1] + POLL_MARGIN;
      var u := Max(t, p[i] + POLL_MARGIN + 1);
      Plan(x, t, None, i, u, false, Max(u, p[i + 1] + POLL_MARGIN + 1))
    else
      var t := p[x] + POLL_MARGIN + 1;
      var u := Max(t, t - lag + p[i] + POLL_MARGIN + 1);
      Plan(x, t, Some(lag), i, u, false, u)
  }

  lemma DroppingPlanDrops(p: seq<int>, x: nat, i: nat, lag: nat)
    requires Drops(p, x, i, lag)
    ensures DroppingPlan(p, x, i, lag).Fits(p, lag) && PlansDrop(p, DroppingPlan(p, x, i, lag))
  {
    var q := p[x + 1..i];
    assert q != [] ==> q[|q| - 1] == p[i - 1];
  }

  /**
   The exact condition: with a list of poll intervals and a bound on the lag of heartbeats, no
   run uses up a due read without beginning it if and only if the intervals never drop one.
   */
  lemma DueIsExact(p: seq<int>, lag: nat)
    ensures (forall events :: Intervals(events) == p && Timed(events, lag) ==> KeepsDue(events)) <==> NeverDrops(p, lag)
  {
    hide Timed, Intervals, Plan.Events, DroppingPlan, Drops, DueAt, DirectAt, AttemptAt;
    if NeverDrops(p, lag) {
      forall events | Intervals(events) == p && Timed(events, lag) ensures KeepsDue(events) {
        NeverDropsKeeps(events, lag);
      }
    } else {
      var x, i :| Drops(p, x, i, lag);
      assert 0 <= x < i by { DropsInOrder(p, x, i, lag); }
      var plan := DroppingPlan(p, x, i, lag);
      DroppingPlanDrops(p, x, i, lag);
      PlanHasIntervals(p, plan);
      PlanIsTimed(p, plan, lag);
      PlanDrops(p, plan, lag);
    }
  }

  lemma DropsInOrder(p: seq<int>, x: int, i: int, lag: nat)
    requires Drops(p, x, i, lag)
    ensures 0 <= x < i
  {
  }

  lemma NeverDropsKeeps(events: seq<Event>, lag: nat)
    requires Timed(events, lag) && NeverDrops(Intervals(events), lag)
    ensures KeepsDue(events)
  {
    hide Timed, NeverDrops, Intervals, DueAt, DirectAt, NotBegun;
    forall i, j | 0 <= i < j < |events| && DueAt(events, i) && NotBegun(events, i, j) && DirectAt(events, j)
      ensures DueAt(events, j)
    {
      DueStays(events, lag, i, j);
    }
  }

  /** With one constant interval a due read is never used up. */
  lemma DueStaysDue(events: seq<Event>, poll: int)
    requires Steady(events, poll)
    ensures KeepsDue(events)
  {
    SteadyIsHarmless(events, poll);
    NeverDropsKeeps(events, POLL_MARGIN);
  }

  /** Polling switched off and on again, and an unreadable inventory at the re-entry, use up the read. */
  lemma UnreadInventoryUsesUpRead()
    ensures exists events: seq<Event> ::
      |events| == 5 && DueAt(events, 3) && !events[3].inventoryRead && DirectAt(events, 4) && !DueAt(events, 4)
  {
    var e0 := Refresh(0, 60 * SECOND, true);
    var e1 := Refresh(76 * SECOND, 60 * SECOND, true);
    var e2 := Refresh(81 * SECOND, 0, true);
    var e3 := Refresh(86 * SECOND, 60 * SECOND, false);
    var e4 := Refresh(91 * SECOND, 60 * SECOND, true);
    var events := [e0, e1, e2, e3, e4];
    StepOfOne([], e0);
    StepOfOne([e0], e1);
    StepOfOne([e0, e1], e2);
    StepOfOne([e0, e1, e2], e3);
    assert [] + [e0] == [e0] && [e0] + [e1] == [e0, e1] && [e0, e1] + [e2] == [e0, e1, e2];
    assert [e0, e1, e2] + [e3] == events[..4] && events[..3] == [e0, e1, e2];
    assert DueAt(events, 3) && DirectAt(events, 4) && !DueAt(events, 4);
  }
}
