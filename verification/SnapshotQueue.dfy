/**
 The queue of capacity one between the snapshot receiver and the publication loop:
 sendLatestSnapshot replaces a pending snapshot by a newer one. One producer, one consumer,
 every interleaving of their channel operations.
 */
module SnapshotQueue {
  import opened Common

  /** The producer is between sends, found the channel full, or has drained it. */
  datatype Producer = Idle | FoundFull | Drained | Stopped

  /** Snapshots are numbered in the order of production; next is the one being sent. */
  datatype State = State(next: nat, slot: Option<nat>, producer: Producer, cancelled: bool,
    received: seq<nat>, sent: Option<nat>)

  datatype Event = TrySend | Drain | FinalSend | Stop | Cancel | Receive

  const INITIAL := State(0, None, Idle, false, [], None)

  /** A completed send: the channel had room. */
  function Send(s: State): State {
    s.(slot := Some(s.next), sent := Some(s.next), next := s.next + 1, producer := Idle)
  }

  predicate Enabled(s: State, e: Event) {
    match e
    case TrySend => s.producer.Idle? && (s.slot.None? || !s.cancelled)
    case Drain => s.producer.FoundFull?
    case FinalSend => s.producer.Drained? && s.slot.None?
    case Stop => (s.producer.Idle? || s.producer.Drained?) && s.cancelled
    case Cancel => true
    case Receive => s.slot.Some?
  }

  function Apply(s: State, e: Event): State
    requires Enabled(s, e)
  {
    match e
    case TrySend => if s.slot.None? then Send(s) else s.(producer := FoundFull)
    case Drain => s.(slot := None, producer := Drained)
    case FinalSend => Send(s)
    case Stop => s.(producer := Stopped)
    case Cancel => s.(cancelled := true)
    case Receive => s.(slot := None, received := s.received + [s.slot.value])
  }

  ghost predicate IsRun(states: seq<State>, events: seq<Event>) {
    |states| == |events| + 1 && states[0] == INITIAL
    && forall i :: 0 <= i < |events| ==>
      Enabled(states[i], events[i]) && states[i + 1] == Apply(states[i], events[i])
  }

  ghost predicate Increasing(s: seq<nat>) {
    forall i, j :: 0 <= i < j < |s| ==> s[i] < s[j]
  }

  function Last(s: seq<nat>): Option<nat> {
    if s == [] then None else Some(s[|s| - 1])
  }

  /**
   What was received is increasing and older than what is pending. Between sends the newest
   completed send is pending or received; only while its successor is being sent is it
   neither. After draining the channel is empty.
   */
  ghost predicate Ordered(s: State) {
    Increasing(s.received)
    && (s.sent.Some? <==> s.next > 0) && (s.sent.Some? ==> s.sent.value == s.next - 1)
    && (s.slot.Some? ==> s.slot == s.sent)
    && (forall i :: 0 <= i < |s.received| ==>
          s.received[i] < (if s.slot.Some? then s.slot.value else s.next))
    && (s.producer.Drained? ==> s.slot.None?)
    && (!s.producer.Drained? && !s.producer.Stopped? ==> s.slot == s.sent || Last(s.received) == s.sent)
  }

  lemma StepKeepsOrder(s: State, e: Event)
    requires Ordered(s) && Enabled(s, e)
    ensures Ordered(Apply(s, e))
  {
    var s' := Apply(s, e);
    if e.Receive? {
      assert s'.received[|s.received|] == s.slot.value;
      assert forall i :: 0 <= i < |s.received| ==> s'.received[i] == s.received[i];
    }
  }

  lemma {:induction false} AlwaysOrdered(states: seq<State>, events: seq<Event>, i: nat)
    requires IsRun(states, events) && i < |states|
    ensures Ordered(states[i])
  {
    if i > 0 {
      AlwaysOrdered(states, events, i - 1);
      StepKeepsOrder(states[i - 1], events[i - 1]);
    }
  }

  /** The last send of sendLatestSnapshot never waits: only the producer fills the channel. */
  lemma FinalSendNeverBlocks(states: seq<State>, events: seq<Event>, i: nat)
    requires IsRun(states, events) && i < |states| && states[i].producer.Drained?
    ensures Enabled(states[i], FinalSend)
  {
    AlwaysOrdered(states, events, i);
  }

  /** The consumer sees a strictly increasing selection of the completed sends. */
  lemma ReceivesInOrder(states: seq<State>, events: seq<Event>, i: nat)
    requires IsRun(states, events) && i < |states|
    ensures Increasing(states[i].received)
    ensures forall k :: 0 <= k < |states[i].received| ==> states[i].received[k] < states[i].next
  {
    AlwaysOrdered(states, events, i);
  }

  /** Between two sends, the newest completed send is waiting or was the last one received. */
  lemma NewestIsNeverLost(states: seq<State>, events: seq<Event>, i: nat)
    requires IsRun(states, events) && i < |states| && states[i].producer.Idle? && states[i].next > 0
    ensures states[i].slot == Some(states[i].next - 1)
            || Last(states[i].received) == Some(states[i].next - 1)
  {
    AlwaysOrdered(states, events, i);
  }

  /** A snapshot that is neither pending nor received was followed by a newer completed send or one under way. */
  lemma OnlyNewerReplaces(states: seq<State>, events: seq<Event>, i: nat)
    requires IsRun(states, events) && i < |events| && events[i].Drain? && states[i].slot.Some?
    ensures states[i].slot.value < states[i].next && states[i + 1].producer.Drained?
    ensures Enabled(states[i + 1], FinalSend) && Apply(states[i + 1], FinalSend).slot == Some(states[i].next)
  {
    AlwaysOrdered(states, events, i);
    AlwaysOrdered(states, events, i + 1);
  }
}
