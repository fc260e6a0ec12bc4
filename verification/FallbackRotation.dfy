/**
 One cycle of the direct SMART fallback: up to three workers claim disks from a shared counter,
 starting at a cursor that survives the cycle, until the counter passes the last disk or the
 cycle's time is over. Every interleaving of the workers' atomic steps.
 */
module FallbackRotation {
  import opened Common
  import opened Modular

  const WORKERS := 3

  /** Where a worker stands; it ends because the counter ran out or because time did. */
  datatype Worker = Checking | Ready | Working(claim: nat) | Exhausted | OutOfTime

  /** slots holds the observations written so far; an unwritten slot still has its initial error. */
  datatype State = State(start: nat, next: nat, expired: bool, workers: seq<Worker>, slots: seq<Option<int>>)

  datatype Event = Expire | Check(worker: nat) | Claim(worker: nat) | Finish(worker: nat, result: int)

  /** The disk of a claim. */
  function Position(start: nat, claim: nat, n: nat): (p: nat)
    requires start < n && claim < n
    ensures p < n && p == (start + claim) % n
  {
    RotatesOnce(start + claim, n);
    if start + claim < n then start + claim else start + claim - n
  }

  lemma RotatesOnce(x: nat, n: nat)
    requires x < 2 * n
    ensures x % n == if x < n then x else x - n
  {
    if x < n {
      ModIs(n, x, 0, x);
    } else {
      ModIs(n, x, 1, x - n);
    }
  }

  function Initial(start: nat, n: nat): State {
    State(start, 0, false, seq(Min(WORKERS, n), i => Checking), seq(n, i => None))
  }

  ghost predicate Next(s: State, e: Event, s': State) {
    match e
    case Expire => s' == s.(expired := true)
    case Check(w) =>
      w < |s.workers| && s.workers[w].Checking?
      && s' == s.(workers := s.workers[w := if s.expired then OutOfTime else Ready])
    case Claim(w) =>
      w < |s.workers| && s.workers[w].Ready?
      && s' == s.(next := s.next + 1,
          workers := s.workers[w := if s.next >= |s.slots| then Exhausted else Working(s.next)])
    case Finish(w, result) =>
      w < |s.workers| && s.workers[w].Working? && s.start < |s.slots| && s.workers[w].claim < |s.slots|
      && s' == s.(workers := s.workers[w := Checking],
                  slots := s.slots[Position(s.start, s.workers[w].claim, |s.slots|) := Some(result)])
  }

  ghost predicate IsRun(start: nat, n: nat, states: seq<State>, events: seq<Event>) {
    start < n && |states| == |events| + 1 && states[0] == Initial(start, n)
    && forall i :: 0 <= i < |events| ==> Next(states[i], events[i], states[i + 1])
  }

  function ExhaustedCount(workers: seq<Worker>): (k: nat)
    ensures k <= |workers|
  {
    if workers == [] then 0
    else ExhaustedCount(workers[..|workers| - 1]) + (if workers[|workers| - 1].Exhausted? then 1 else 0)
  }

  /** The number of disks claimed so far. */
  function Claimed(s: State): nat {
    Min(s.next, |s.slots|)
  }

  /** A worker is on its way to writing the slot of a claim. */
  ghost predicate InProgress(s: State, claim: nat) {
    exists w :: 0 <= w < |s.workers| && s.workers[w] == Working(claim)
  }

  /**
   The counter only overshoots by the workers it has turned away; every claim below it is
   being worked on by exactly one worker or is written, and nothing else is written.
   */
  ghost predicate Ordered(s: State) {
    s.start < |s.slots| && |s.workers| == Min(WORKERS, |s.slots|)
    && s.next == Claimed(s) + ExhaustedCount(s.workers)
    && (forall w :: 0 <= w < |s.workers| && s.workers[w].Working? ==> s.workers[w].claim < Claimed(s))
    && (forall v, w :: 0 <= v < w < |s.workers| && s.workers[v].Working? ==> s.workers[v] != s.workers[w])
    && (forall c :: 0 <= c < |s.slots| ==>
          (s.slots[Position(s.start, c, |s.slots|)].Some? <==> c < s.next && !InProgress(s, c)))
  }

  lemma {:induction false} CountAfter(workers: seq<Worker>, w: nat, to: Worker)
    requires w < |workers| && !workers[w].Exhausted?
    ensures ExhaustedCount(workers[w := to]) == ExhaustedCount(workers) + (if to.Exhausted? then 1 else 0)
  {
    var n := |workers| - 1;
    var changed := workers[w := to];
    if w < n {
      assert changed[..n] == workers[..n][w := to];
      CountAfter(workers[..n], w, to);
    } else {
      assert changed[..n] == workers[..n];
    }
  }

  lemma {:induction false} NoneExhausted(k: nat)
    ensures ExhaustedCount(seq(k, i => Checking)) == 0
  {
    if k > 0 {
      assert seq(k, i => Checking)[..k - 1] == seq(k - 1, i => Checking);
      NoneExhausted(k - 1);
    }
  }

  lemma StepKeepsOrder(s: State, e: Event, s': State)
    requires Ordered(s) && Next(s, e, s')
    ensures Ordered(s')
  {
    if !e.Expire? {
      CountAfter(s.workers, e.worker, s'.workers[e.worker]);
      forall c | 0 <= c < |s.slots|
        ensures s'.slots[Position(s.start, c, |s.slots|)].Some? <==> c < s'.next && !InProgress(s', c)
      {
        ProgressAfter(s, e, s', c);
      }
    }
  }

  lemma ProgressAfter(s: State, e: Event, s': State, c: nat)
    requires Ordered(s) && Next(s, e, s') && !e.Expire? && c < |s.slots|
    ensures s'.slots[Position(s.start, c, |s.slots|)].Some? <==> c < s'.next && !InProgress(s', c)
  {
    assert forall v :: 0 <= v < |s.workers| && v != e.worker ==> s'.workers[v] == s.workers[v];
    assert s'.workers[e.worker] == Working(c) ==> InProgress(s', c);
    assert s.workers[e.worker] == Working(c) ==> InProgress(s, c);
    if InProgress(s, c) && s.workers[e.worker] != Working(c) {
      var v :| 0 <= v < |s.workers| && s.workers[v] == Working(c);
      assert s'.workers[v] == Working(c);
    }
  }

  lemma {:induction false} AlwaysOrdered(start: nat, n: nat, states: seq<State>, events: seq<Event>, i: nat)
    requires IsRun(start, n, states, events) && i < |states|
    ensures Ordered(states[i]) && |states[i].slots| == n && states[i].start == start
  {
    if i > 0 {
      AlwaysOrdered(start, n, states, events, i - 1);
      StepKeepsOrder(states[i - 1], events[i - 1], states[i]);
    } else {
      NoneExhausted(Min(WORKERS, n));
    }
  }

  /** The counter never exceeds the number of disks by more than the number of workers. */
  lemma CounterIsBounded(start: nat, n: nat, states: seq<State>, events: seq<Event>, i: nat)
    requires IsRun(start, n, states, events) && i < |states|
    ensures states[i].next <= n + Min(WORKERS, n)
  {
    AlwaysOrdered(start, n, states, events, i);
  }

  lemma {:induction false} CounterGrows(start: nat, n: nat, states: seq<State>, events: seq<Event>, i: nat, j: nat)
    requires IsRun(start, n, states, events) && i <= j < |states|
    ensures states[i].next <= states[j].next
  {
    if i < j {
      CounterGrows(start, n, states, events, i, j - 1);
      assert Next(states[j - 1], events[j - 1], states[j]);
    }
  }

  /** No disk is claimed twice in a cycle, whoever claims it. */
  lemma NeverClaimedTwice(start: nat, n: nat, states: seq<State>, events: seq<Event>, i: nat, j: nat)
    requires IsRun(start, n, states, events) && i < j < |events| && events[i].Claim? && events[j].Claim?
    requires states[i].next < n && states[j].next < n
    ensures Position(start, states[i].next, n) != Position(start, states[j].next, n)
  {
    assert Next(states[i], events[i], states[i + 1]);
    CounterGrows(start, n, states, events, i + 1, j);
  }

  ghost predicate AllEnded(s: State) {
    forall w :: 0 <= w < |s.workers| ==> s.workers[w].Exhausted? || s.workers[w].OutOfTime?
  }

  /** The cursor collectFallback leaves for the next cycle. */
  function CursorAfter(start: nat, claims: nat, n: nat): (cursor: nat)
    requires n > 0
    ensures cursor < n
  {
    (start + claims) % n
  }

  /**
   When all workers have ended, exactly the next claimed positions after the cursor have an
   observation and every other slot keeps its error; a worker was turned away only if every
   disk was claimed.
   */
  lemma CycleOutcome(start: nat, n: nat, states: seq<State>, events: seq<Event>)
    requires IsRun(start, n, states, events) && AllEnded(states[|events|])
    ensures |states[|events|].slots| == n
    ensures var s := states[|events|];
            forall c :: 0 <= c < n ==> (s.slots[Position(start, c, n)].Some? <==> c < Claimed(s))
    ensures var s := states[|events|];
            (exists w :: 0 <= w < |s.workers| && s.workers[w].Exhausted?) ==> Claimed(s) == n
  {
    AlwaysOrdered(start, n, states, events, |events|);
    var s := states[|events|];
    if w :| 0 <= w < |s.workers| && s.workers[w].Exhausted? {
      SomeExhausted(s.workers, w);
    }
  }

  lemma {:induction false} SomeExhausted(workers: seq<Worker>, w: nat)
    requires w < |workers| && workers[w].Exhausted?
    ensures ExhaustedCount(workers) > 0
  {
    if w < |workers| - 1 {
      SomeExhausted(workers[..|workers| - 1], w);
    }
  }

  // ----- rotation over cycles of one inventory -----

  /** How many claims after the cursor a disk comes. */
  function Distance(cursor: nat, disk: nat, n: nat): (d: nat)
    requires cursor < n && disk < n
    ensures d < n && Position(cursor, d, n) == disk
  {
    if cursor <= disk then disk - cursor else n - cursor + disk
  }

  /** The cursor before cycle i, when cycle k makes claims[k] claims. */
  function CursorAt(cursor: nat, claims: seq<nat>, i: nat, n: nat): (c: nat)
    requires n > 0 && cursor < n && i <= |claims|
    ensures c < n
  {
    if i == 0 then cursor else CursorAfter(CursorAt(cursor, claims, i - 1, n), claims[i - 1], n)
  }

  /** Cycle i claims the disk. */
  predicate ClaimsDisk(cursor: nat, claims: seq<nat>, i: nat, disk: nat, n: nat)
    requires cursor < n && i < |claims| && disk < n
  {
    Distance(CursorAt(cursor, claims, i, n), disk, n) < claims[i]
  }

  lemma {:induction false} DistanceShrinks(cursor: nat, claims: seq<nat>, i: nat, disk: nat, n: nat)
    requires cursor < n && i <= |claims| && disk < n
    requires forall k :: 0 <= k < |claims| ==> 1 <= claims[k] <= n
    requires forall k :: 0 <= k < i ==> !ClaimsDisk(cursor, claims, k, disk, n)
    ensures Distance(CursorAt(cursor, claims, i, n), disk, n) <= n - 1 - i
  {
    if i > 0 {
      DistanceShrinks(cursor, claims, i - 1, disk, n);
      var before := CursorAt(cursor, claims, i - 1, n);
      assert !ClaimsDisk(cursor, claims, i - 1, disk, n);
      RotatesOnce(before + claims[i - 1], n);
    }
  }

  /** When every cycle claims at least one disk, every disk is claimed within n cycles. */
  lemma EveryDiskGetsItsTurn(cursor: nat, claims: seq<nat>, disk: nat, n: nat)
    requires cursor < n && disk < n && |claims| == n
    requires forall k :: 0 <= k < n ==> 1 <= claims[k] <= n
    ensures exists i :: 0 <= i < n && ClaimsDisk(cursor, claims, i, disk, n)
  {
    if forall i :: 0 <= i < n ==> !ClaimsDisk(cursor, claims, i, disk, n) {
      DistanceShrinks(cursor, claims, n, disk, n);
      assert false;
    }
  }

  /** A finished cycle: a run in which every worker has ended. */
  datatype Cycle = Cycle(states: seq<State>, events: seq<Event>) {
    ghost predicate Complete(start: nat, n: nat) {
      IsRun(start, n, states, events) && AllEnded(states[|events|])
    }

    function Outcome(): State
      requires states != []
    {
      states[|states| - 1]
    }
  }

  /** Cycles on one inventory of n disks, each starting at the cursor the one before left. */
  ghost predicate IsRotation(n: nat, cursors: seq<nat>, cycles: seq<Cycle>) {
    |cursors| == |cycles|
    && (forall k :: 0 <= k < |cycles| ==> cycles[k].Complete(cursors[k], n))
    && forall k :: 0 < k < |cycles| ==> cursors[k] == CursorAfter(cursors[k - 1], Claimed(cycles[k - 1].Outcome()), n)
  }

  lemma {:induction false} CursorsFollow(n: nat, cursors: seq<nat>, cycles: seq<Cycle>, claims: seq<nat>, i: nat)
    requires IsRotation(n, cursors, cycles) && i < |cycles| == |claims| && n > 0 && cursors[0] < n
    requires forall k :: 0 <= k < |cycles| ==> claims[k] == Claimed(cycles[k].Outcome())
    ensures CursorAt(cursors[0], claims, i, n) == cursors[i]
  {
    if i > 0 {
      CursorsFollow(n, cursors, cycles, claims, i - 1);
    }
  }

  /**
   Whatever the workers' interleavings: when every cycle begins at least one observation,
   every disk is observed in one of n consecutive cycles.
   */
  lemma EveryDiskIsObserved(n: nat, cursors: seq<nat>, cycles: seq<Cycle>, disk: nat)
    requires IsRotation(n, cursors, cycles) && |cycles| == n && disk < n
    requires forall k :: 0 <= k < n ==> Claimed(cycles[k].Outcome()) >= 1
    ensures exists i :: 0 <= i < n && |cycles[i].Outcome().slots| == n && cycles[i].Outcome().slots[disk].Some?
  {
    hide AllEnded;
    forall k | 0 <= k < n ensures cursors[k] < n && |cycles[k].Outcome().slots| == n {
      CycleOutcome(cursors[k], n, cycles[k].states, cycles[k].events);
    }
    var claims: seq<nat> := seq(n, k requires 0 <= k < n => Claimed(cycles[k].Outcome()));
    EveryDiskGetsItsTurn(cursors[0], claims, disk, n);
    var i :| 0 <= i < n && ClaimsDisk(cursors[0], claims, i, disk, n);
    CursorsFollow(n, cursors, cycles, claims, i);
    ClaimedIsObserved(n, cursors[i], cycles[i], disk, Distance(cursors[i], disk, n));
  }

  lemma ClaimedIsObserved(n: nat, start: nat, cycle: Cycle, disk: nat, c: nat)
    requires cycle.Complete(start, n) && c < n && disk == Position(start, c, n)
    ensures |cycle.Outcome().slots| == n
    ensures c < Claimed(cycle.Outcome()) ==> cycle.Outcome().slots[disk].Some?
  {
    CycleOutcome(start, n, cycle.states, cycle.events);
  }

  /** n cycles are needed: with one claim a cycle, the disk before the cursor waits for all others. */
  lemma BoundIsReached(n: nat, i: nat)
    requires 1 <= n && i < n
    ensures ClaimsDisk(0, seq(n, k => 1), i, n - 1, n) <==> i == n - 1
  {
    OneByOne(n, i);
  }

  lemma {:induction false} OneByOne(n: nat, i: nat)
    requires i < n
    ensures CursorAt(0, seq(n, k => 1), i, n) == i
  {
    if i > 0 {
      OneByOne(n, i - 1);
      RotatesOnce(i, n);
    }
  }
}
