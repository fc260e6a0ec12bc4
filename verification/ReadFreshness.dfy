/**
 Reading a sensor without its lock: writers, serialized by the lock, store the temperature
 and then the timestamp; a reader loads the timestamp, compares it with the clock, and only
 then loads the temperature. Acquire and release keep these orders.
 */
module ReadFreshness {
  import opened Modular

  const FAILSAFE_MILLI := 100000

  /** A writer holding the lock: nobody, after storing the temperature, after reading the clock. */
  datatype Writer = Free | StoredTemperature | ReadClock(stamp: int)

  /** write is the number of the write whose timestamp was loaded, value the number of the one read. */
  datatype Reader =
    | Loaded(stamp: int, write: nat)
    | Fresh(at: int, write: nat)
    | Done(at: int, stale: bool, write: nat, from: nat, result: int)

  datatype State = State(now: int, temperature: int, lastUpdate: int, writer: Writer, readers: map<nat, Reader>,
    values: seq<int>, stamps: seq<int>)

  datatype Event =
    | Tick(jiffies: nat)
    | StoreTemperature(value: int)
    | ReadJiffies
    | StoreTimestamp
    | LoadTimestamp(reader: nat)
    | Compare(reader: nat)
    | LoadTemperature(reader: nat)

  /** make_sensor stores the failsafe and the current time: write 0. */
  function Initial(now: int): State {
    State(now, FAILSAFE_MILLI, now, Free, map[], [FAILSAFE_MILLI], [now])
  }

  ghost predicate Next(timeout: nat, s: State, e: Event, s': State) {
    match e
    case Tick(d) => s' == s.(now := s.now + d)
    case StoreTemperature(v) =>
      s.writer.Free? && s' == s.(writer := StoredTemperature, temperature := v, values := s.values + [v])
    case ReadJiffies => s.writer.StoredTemperature? && s' == s.(writer := ReadClock(s.now))
    case StoreTimestamp =>
      s.writer.ReadClock?
      && s' == s.(writer := Free, lastUpdate := s.writer.stamp, stamps := s.stamps + [s.writer.stamp])
    case LoadTimestamp(r) =>
      r !in s.readers && s.stamps != [] && s' == s.(readers := s.readers[r := Loaded(s.lastUpdate, |s.stamps| - 1)])
    case Compare(r) =>
      r in s.readers && s.readers[r].Loaded?
      && var reader := s.readers[r];
      s' == s.(readers := s.readers[r :=
        if s.now - reader.stamp > timeout then Done(s.now, true, reader.write, reader.write, FAILSAFE_MILLI)
        else Fresh(s.now, reader.write)])
    case LoadTemperature(r) =>
      r in s.readers && s.readers[r].Fresh? && s.values != []
      && var reader := s.readers[r];
      s' == s.(readers := s.readers[r := Done(reader.at, false, reader.write, |s.values| - 1, s.temperature)])
  }

  ghost predicate IsRun(timeout: nat, states: seq<State>, events: seq<Event>) {
    |states| == |events| + 1 && states[0] == Initial(states[0].now)
    && forall i :: 0 <= i < |events| ==> Next(timeout, states[i], events[i], states[i + 1])
  }

  /** What is true of a reader: its timestamp is that of its write, and it reads that write or a later one. */
  ghost predicate ReaderOk(timeout: nat, s: State, r: Reader)
    requires |s.stamps| <= |s.values|
  {
    r.write < |s.stamps|
    && match r
       case Loaded(stamp, write) => stamp == s.stamps[write]
       case Fresh(at, write) => at - s.stamps[write] <= timeout
       case Done(at, stale, write, from, result) =>
         if stale then at - s.stamps[write] > timeout && result == FAILSAFE_MILLI
         else at - s.stamps[write] <= timeout && write <= from < |s.values| && result == s.values[from]
  }

  ghost predicate Coherent(timeout: nat, s: State) {
    |s.stamps| > 0
    && |s.values| == |s.stamps| + (if s.writer.Free? then 0 else 1)
    && s.temperature == s.values[|s.values| - 1] && s.lastUpdate == s.stamps[|s.stamps| - 1] <= s.now
    && (s.writer.ReadClock? ==> s.lastUpdate <= s.writer.stamp <= s.now)
    && (forall i, j :: 0 <= i <= j < |s.stamps| ==> s.stamps[i] <= s.stamps[j])
    && forall r :: r in s.readers ==> ReaderOk(timeout, s, s.readers[r])
  }

  /** Writers only append, so nothing learned about a reader is lost. */
  lemma ReaderStaysOk(timeout: nat, s: State, s': State, r: Reader)
    requires |s.stamps| <= |s.values| && |s'.stamps| <= |s'.values|
    requires s.stamps <= s'.stamps && s.values <= s'.values && ReaderOk(timeout, s, r)
    ensures ReaderOk(timeout, s', r)
  {
  }

  lemma StepKeepsReader(timeout: nat, s: State, e: Event, s': State, r: nat)
    requires Coherent(timeout, s) && Next(timeout, s, e, s') && r in s'.readers
    requires |s'.stamps| <= |s'.values| && s.stamps <= s'.stamps && s.values <= s'.values
    ensures ReaderOk(timeout, s', s'.readers[r])
  {
    if r in s.readers && s'.readers[r] == s.readers[r] {
      ReaderStaysOk(timeout, s, s', s.readers[r]);
    } else if r in s.readers {
      assert ReaderOk(timeout, s, s.readers[r]);
    }
  }

  lemma StepKeepsCoherent(timeout: nat, s: State, e: Event, s': State)
    requires Coherent(timeout, s) && Next(timeout, s, e, s')
    ensures Coherent(timeout, s')
  {
    hide ReaderOk;
    forall r | r in s'.readers ensures ReaderOk(timeout, s', s'.readers[r]) {
      StepKeepsReader(timeout, s, e, s', r);
    }
  }

  /**
   In every interleaving a read judged fresh returns the value of the write whose timestamp
   it loaded, or of a later one; no write it can return is older than the timeout at the
   moment of the comparison; and a read judged stale returns the failsafe.
   */
  lemma {:induction false} FreshReads(timeout: nat, states: seq<State>, events: seq<Event>, i: nat, r: nat)
    requires IsRun(timeout, states, events) && i < |states|
    ensures Coherent(timeout, states[i])
    ensures r in states[i].readers && states[i].readers[r].Done? ==>
      var d := states[i].readers[r];
      if d.stale then d.result == FAILSAFE_MILLI
      else d.write <= d.from < |states[i].values| && d.result == states[i].values[d.from]
           && (d.from < |states[i].stamps| ==> d.at - states[i].stamps[d.from] <= timeout)
  {
    if i > 0 {
      FreshReads(timeout, states, events, i - 1, r);
      StepKeepsCoherent(timeout, states[i - 1], events[i - 1], states[i]);
    }
    if r in states[i].readers {
      assert ReaderOk(timeout, states[i], states[i].readers[r]);
    }
  }

  // ----- the wrapping comparison -----

  /** The kernel's time_after(a, b) on unsigned counters that wrap at twice half. */
  predicate TimeAfter(half: nat, a: int, b: int)
    requires half > 0
  {
    (b - a) % (2 * half) >= half
  }

  /** is_stale on wrapping counters, for true times now and updated. */
  predicate WrappedStale(half: nat, now: int, updated: int, timeout: nat)
    requires half > 0
  {
    TimeAfter(half, now % (2 * half), (updated % (2 * half) + timeout) % (2 * half))
  }

  /** The wrapped test looks only at the elapsed time past the timeout, modulo the counter. */
  lemma WrappedStaleIs(half: nat, now: int, updated: int, timeout: nat)
    requires half > 0
    ensures WrappedStale(half, now, updated, timeout) <==>
            (timeout - (now - updated)) % (2 * half) >= half
  {
    var m := 2 * half;
    var b := updated % m + timeout;
    var k := now / m - updated / m - b / m;
    DifferenceOfRemainders(m, now, updated, b, timeout);
    ModOfSum(m, timeout - (now - updated), k);
  }

  lemma DifferenceOfRemainders(m: nat, now: int, updated: int, b: int, timeout: nat)
    requires m > 0 && b == updated % m + timeout
    ensures b % m - now % m == timeout - (now - updated) + (now / m - updated / m - b / m) * m
  {
    var qn, qu, qb := now / m, updated / m, b / m;
    assert now == qn * m + now % m && updated == qu * m + updated % m && b == qb * m + b % m;
    assert (qn - qu - qb) * m == qn * m - qu * m - qb * m;
  }

  /**
   For a sensor last written before now, the wrapped test equals the true one exactly when
   the time is within the timeout, or the excess is not in the second half of a turn of the
   counter. Up to half a turn past the timeout it is always right.
   */
  lemma WrappedIsTrue(half: nat, now: int, updated: int, timeout: nat)
    requires updated <= now && timeout < half
    ensures var excess := now - updated - timeout;
            (WrappedStale(half, now, updated, timeout) <==> now - updated > timeout)
            <==> (excess <= 0 || 0 < excess % (2 * half) <= half)
    ensures now - updated <= timeout + half ==>
      (WrappedStale(half, now, updated, timeout) <==> now - updated > timeout)
  {
    var m, excess := 2 * half, now - updated - timeout;
    WrappedStaleIs(half, now, updated, timeout);
    ModOfNegation(m, excess);
    if excess <= 0 {
      ModIs(m, -excess, 0, -excess);
    } else if excess <= half {
      ModIs(m, excess, 0, excess);
    }
  }

  /** With 32-bit jiffies at 250 Hz, a sensor silent for half a turn past its 10 s is shown as fresh. */
  lemma WrappedReadCanBeWrong()
    ensures !WrappedStale(0x8000_0000, 0x8000_0000 + 2501, 0, 2500)
  {
    var half, now := 0x8000_0000, 0x8000_0000 + 2501;
    WrappedIsTrue(half, now, 0, 2500);
    assert (now - 2500) % (2 * half) == half + 1;
  }
}
