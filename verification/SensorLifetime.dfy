/**
 The lifetime of a sensor in virt-temp.c under every interleaving of opening, writing,
 closing, storing a label and rmdir. misc_open and misc_deregister exclude each other on the
 misc mutex: an open that has begun finishes before the device is deregistered, and none
 begins afterwards.
 */
module SensorLifetime {
  /** How far drop_sensor has come: removed is set, the device is deregistered, the reference dropped. */
  datatype Drop = Live | Marked | Deregistered | Dropped

  /** A file being opened, being turned away, or open. */
  datatype File = Opening | Rejecting | Opened

  datatype State = State(drop: Drop, files: map<nat, File>, refs: int, freed: bool, temperature: int)

  datatype Event =
    | OpenGet(file: nat)
    | OpenCheck(file: nat)
    | OpenReject(file: nat)
    | Write(file: nat, value: int, ok: bool)
    | Close(file: nat)
    | StoreLabel(ok: bool)
    | Mark
    | Deregister
    | DropReference

  const INITIAL := State(Live, map[], 1, false, 100000)

  predicate Removed(s: State) {
    !s.drop.Live?
  }

  /** config_item_put: the last reference frees the sensor. */
  function Put(s: State): State {
    s.(refs := s.refs - 1, freed := s.refs == 1)
  }

  predicate InFlight(s: State) {
    exists f :: f in s.files && !s.files[f].Opened?
  }

  /** One atomic step: what it needs, and the state it leaves. */
  ghost predicate Next(s: State, e: Event, s': State) {
    match e
    case OpenGet(f) =>
      (s.drop.Live? || s.drop.Marked?) && f !in s.files
      && s' == s.(files := s.files[f := Opening], refs := s.refs + 1)
    case OpenCheck(f) =>
      f in s.files && s.files[f].Opening?
      && s' == s.(files := s.files[f := if Removed(s) then Rejecting else Opened])
    case OpenReject(f) =>
      f in s.files && s.files[f].Rejecting? && s' == Put(s.(files := s.files - {f}))
    case Write(f, value, ok) =>
      f in s.files && s.files[f].Opened? && ok == !Removed(s)
      && s' == if ok then s.(temperature := value) else s
    case Close(f) =>
      f in s.files && s.files[f].Opened? && s' == Put(s.(files := s.files - {f}))
    case StoreLabel(ok) =>
      !s.drop.Dropped? && ok == !Removed(s) && s' == s
    case Mark =>
      s.drop.Live? && s' == s.(drop := Marked)
    case Deregister =>
      s.drop.Marked? && !InFlight(s) && s' == s.(drop := Deregistered)
    case DropReference =>
      s.drop.Deregistered? && s' == Put(s.(drop := Dropped))
  }

  ghost predicate IsRun(states: seq<State>, events: seq<Event>) {
    |states| == |events| + 1 && states[0] == INITIAL
    && forall i :: 0 <= i < |events| ==> Next(states[i], events[i], states[i + 1])
  }

  /** The count is the configfs reference plus one for every file. */
  ghost predicate Counted(s: State) {
    s.refs == (if s.drop.Dropped? then 0 else 1) + |s.files|
    && (s.freed <==> s.refs == 0)
    && (InFlight(s) ==> s.drop.Live? || s.drop.Marked?)
  }

  lemma StepKeepsCount(s: State, e: Event, s': State)
    requires Counted(s) && Next(s, e, s')
    ensures Counted(s') && !s.freed
  {
    if e.OpenGet? || e.OpenCheck? {
      assert s'.files.Keys == s.files.Keys + {e.file};
      if e.OpenGet? {
        assert |s'.files.Keys| == |s.files.Keys| + 1;
      } else {
        assert s'.files.Keys == s.files.Keys;
      }
    }
    if e.OpenReject? || e.Close? {
      assert s'.files.Keys == s.files.Keys - {e.file};
      assert |s'.files.Keys| == |s.files.Keys| - 1;
    }
    assert |s.files| == |s.files.Keys| && |s'.files| == |s'.files.Keys|;
  }

  /** In every reachable state the count is exact, and no step ever touches freed memory. */
  lemma {:induction false} NoUseAfterFree(states: seq<State>, events: seq<Event>, i: nat)
    requires IsRun(states, events) && i < |states|
    ensures Counted(states[i])
    ensures i < |events| ==> !states[i].freed
  {
    hide Next, Put;
    if i > 0 {
      NoUseAfterFree(states, events, i - 1);
      StepKeepsCount(states[i - 1], events[i - 1], states[i]);
    }
    if i < |events| {
      StepKeepsCount(states[i], events[i], states[i + 1]);
    }
  }

  /** Memory is freed exactly when rmdir is over and the last file is closed. */
  lemma FreedExactlyAtTheEnd(states: seq<State>, events: seq<Event>, i: nat)
    requires IsRun(states, events) && i < |states|
    ensures states[i].freed <==> states[i].drop.Dropped? && states[i].files == map[]
  {
    NoUseAfterFree(states, events, i);
    assert |states[i].files| == 0 <==> states[i].files == map[];
  }

  lemma {:induction false} RemovedByMark(states: seq<State>, events: seq<Event>, i: nat)
    requires IsRun(states, events) && i < |states|
    ensures Removed(states[i]) <==> exists k :: 0 <= k < i && events[k].Mark?
  {
    if i > 0 {
      RemovedByMark(states, events, i - 1);
      assert Next(states[i - 1], events[i - 1], states[i]);
      if Removed(states[i]) && !events[i - 1].Mark? {
        assert Removed(states[i - 1]);
      }
    }
  }

  /** A write or a label store succeeds if and only if the sensor was not removed before it. */
  lemma LiveUntilRemoved(states: seq<State>, events: seq<Event>, i: nat)
    requires IsRun(states, events) && i < |events|
    requires events[i].Write? || events[i].StoreLabel?
    ensures events[i].ok <==> forall k :: 0 <= k < i ==> !events[k].Mark?
  {
    RemovedByMark(states, events, i);
    assert Next(states[i], events[i], states[i + 1]);
  }
}
