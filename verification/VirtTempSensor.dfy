/**
 One sensor of virt-temp.c: storing its label, with the hwmon device unregistered while the
 label changes and the previous label restored when registration fails; writing its
 temperature; and reading it through the stale failsafe.
 */
module VirtTempSensor {
  import opened Common
  import Decimal
  import Labels

  const FAILSAFE_MILLI := 100000
  const HWMON_NAME_SIZE := 103        // sizeof("unraid_") + 96 - 1
  const NAME_PREFIX := "unraid_"
  const UNDERSCORE: byte := 95

  datatype Errno = NotExist | NoDevice | Exists | InvalidArgument | Other

  /** struct virt_temp_sensor; registered is "hwmon is not NULL", time is unbounded jiffies. */
  datatype State = State(text: seq<byte>, hwmonName: seq<byte>, registered: bool,
    temperature: int, lastUpdate: int, removed: bool)

  /** What make_sensor leaves behind. */
  function NewSensor(now: int): State {
    State([], [], false, FAILSAFE_MILLI, now, false)
  }

  // ----- make_hwmon_name -----

  predicate IsUpper(c: byte) {
    65 <= c <= 90 || (0xC0 <= c <= 0xDE && c != 0xD7)
  }

  /** The kernel's isalnum, whose table covers Latin-1. */
  predicate IsAlnum(c: byte) {
    48 <= c <= 57 || IsUpper(c) || 97 <= c <= 122 || (c >= 0xDF && c != 0xF7)
  }

  function Lower(c: byte): byte {
    if IsUpper(c) then c + 32 else c
  }

  /** The start of the first " (", or the length. */
  function NameEnd(text: seq<byte>, from: nat): (end: nat)
    requires from <= |text|
    ensures from <= end <= |text|
    decreases |text| - from
  {
    if from + 1 >= |text| then |text|
    else if text[from] == 32 && text[from + 1] == 40 then from
    else NameEnd(text, from + 1)
  }

  function AppendToName(name: seq<byte>, c: byte): (r: seq<byte>)
    requires name != []
  {
    if |name| + 1 >= HWMON_NAME_SIZE then name
    else if IsAlnum(c) then name + [Lower(c)]
    else if name[|name| - 1] != UNDERSCORE then name + [UNDERSCORE]
    else name
  }

  function NameBody(input: seq<byte>): (name: seq<byte>)
    ensures Ascii(NAME_PREFIX) <= name && |name| < HWMON_NAME_SIZE
  {
    if input == [] then Ascii(NAME_PREFIX)
    else AppendToName(NameBody(input[..|input| - 1]), input[|input| - 1])
  }

  function HwmonName(text: seq<byte>): (name: seq<byte>) {
    var body := NameBody(text[..NameEnd(text, 0)]);
    var cut := if |body| > |NAME_PREFIX| && body[|body| - 1] == UNDERSCORE then body[..|body| - 1] else body;
    if |cut| == |NAME_PREFIX| then cut + Ascii("sensor") else cut
  }

  /** The loop of make_hwmon_name over the label up to its end. */
  method MakeNameBody(input: seq<byte>) returns (name: seq<byte>)
    ensures name == NameBody(input)
  {
    name := Ascii(NAME_PREFIX);
    var i := 0;
    while i < |input| && |name| + 1 < HWMON_NAME_SIZE
      invariant i <= |input| && name == NameBody(input[..i])
    {
      assert input[..i + 1][..i] == input[..i];
      if IsAlnum(input[i]) {
        name := name + [Lower(input[i])];
      } else if name[|name| - 1] != UNDERSCORE {
        name := name + [UNDERSCORE];
      }
      i := i + 1;
    }
    FullName(input, i);
  }

  /** make_hwmon_name: the name fits its buffer. */
  method MakeHwmonName(text: seq<byte>) returns (name: seq<byte>)
    ensures name == HwmonName(text) && |name| < HWMON_NAME_SIZE
  {
    hide Ascii, NameEnd;
    var end := NameEnd(text, 0);
    name := MakeNameBody(text[..end]);
    if |name| > |NAME_PREFIX| && name[|name| - 1] == UNDERSCORE {
      name := name[..|name| - 1];
    }
    if |name| == |NAME_PREFIX| {
      name := name + Ascii("sensor");
    }
  }

  lemma {:induction false} FullName(input: seq<byte>, k: nat)
    requires k <= |input| && (k < |input| ==> |NameBody(input[..k])| + 1 >= HWMON_NAME_SIZE)
    ensures NameBody(input) == NameBody(input[..k])
  {
    if k < |input| {
      assert input[..|input| - 1][..k] == input[..k];
      FullName(input[..|input| - 1], k);
    } else {
      assert input[..k] == input;
    }
  }

  // ----- sensor_label_store -----

  /** register_hwmon, where works says whether the hwmon core accepts the device. */
  function Register(s: State, works: bool): (r: (State, Option<Errno>)) {
    if s.text == [] then (s, Some(InvalidArgument))
    else (s.(hwmonName := HwmonName(s.text), registered := works), if works then None else Some(Other))
  }

  /** sensor_label_store; the two flags answer the first and the second registration. */
  function StoreLabel(s: State, page: seq<byte>, works: bool, rollbackWorks: bool): (r: (State, Option<Errno>)) {
    var t := Labels.Strim(page);
    if !Labels.AcceptedByKernel(page) then (s, Some(InvalidArgument))
    else if s.removed then (s, Some(NoDevice))
    else if s.text == t then (if s.registered then (s, None) else Register(s, works))
    else
      var (stored, err) := Register(s.(registered := false, text := t), works);
      if err.None? then (stored, None)
      else
        var restored := stored.(text := s.text);
        (if s.text == [] then restored else Register(restored, rollbackWorks).0, err)
  }

  /** What a lock-free reader of the hwmon device relies on at any moment. */
  predicate Readable(s: State) {
    s.registered ==> s.text != [] && s.hwmonName == HwmonName(s.text)
  }

  /** What holds whenever the sensor's lock is free. */
  predicate Consistent(s: State) {
    Readable(s) && (s.registered ==> !s.removed)
  }

  /** One atomic change leaves the label and the name alone unless no hwmon device exists. */
  predicate StableWhileRegistered(s: State, s': State) {
    s.registered || s'.registered ==> s'.text == s.text && s'.hwmonName == s.hwmonName
  }

  /** temperature_write under the sensor's lock. */
  function WriteTemperature(s: State, page: seq<byte>, now: int): (r: (State, Option<Errno>)) {
    match Decimal.ParseWrite(page)
    case Err(_) => (s, Some(InvalidArgument))
    case Ok(value) =>
      if s.removed then (s, Some(NoDevice)) else (s.(temperature := value, lastUpdate := now), None)
  }

  /** read_value for a stale timeout in the unit of the clock. */
  function ReadValue(s: State, now: int, timeout: nat): (value: int) {
    if now - s.lastUpdate > timeout then FAILSAFE_MILLI else s.temperature
  }

  lemma AcceptedIsVisible(page: seq<byte>)
    ensures Labels.AcceptedByKernel(page) ==> Labels.Strim(page) != []
  {
  }

  class LockedSensor {
    var text: seq<byte>
    var hwmonName: seq<byte>
    var registered: bool
    var temperature: int
    var lastUpdate: int
    var removed: bool
    /** Every state a reader without the lock could see, in order. */
    ghost var history: seq<State>

    function Current(): State
      reads this
    {
      State(text, hwmonName, registered, temperature, lastUpdate, removed)
    }

    ghost predicate Valid()
      reads this
    {
      history != [] && history[|history| - 1] == Current() && Consistent(Current())
      && (forall i :: 0 <= i < |history| ==> Readable(history[i]))
      && (forall i :: 0 <= i < |history| - 1 ==> StableWhileRegistered(history[i], history[i + 1]))
    }

    constructor (now: int)
      ensures Valid() && Current() == NewSensor(now) && history == [NewSensor(now)]
    {
      text, hwmonName, registered := [], [], false;
      temperature, lastUpdate, removed := FAILSAFE_MILLI, now, false;
      history := [NewSensor(now)];
    }

    method UnregisterHwmon()
      requires Valid()
      modifies this`registered, this`history
      ensures Valid() && old(history) <= history
      ensures Current() == old(Current()).(registered := false)
    {
      registered := false;
      history := history + [Current()];
    }

    method SetLabel(value: seq<byte>)
      requires Valid() && !registered
      modifies this`text, this`history
      ensures Valid() && old(history) <= history
      ensures Current() == old(Current()).(text := value)
    {
      text := value;
      history := history + [Current()];
    }

    method RegisterHwmon(works: bool) returns (err: Option<Errno>)
      requires Valid() && !registered && !removed
      modifies this`hwmonName, this`registered, this`history
      ensures Valid() && old(history) <= history
      ensures (Current(), err) == Register(old(Current()), works)
    {
      if text == [] {
        return Some(InvalidArgument);
      }
      hwmonName := MakeHwmonName(text);
      history := history + [Current()];
      registered := works;
      history := history + [Current()];
      return if works then None else Some(Other);
    }

    /** sensor_label_store, step by step, in front of readers that take no lock. */
    method StoreLabelLocked(page: seq<byte>, works: bool, rollbackWorks: bool) returns (err: Option<Errno>)
      requires Valid()
      modifies this
      ensures Valid() && old(history) <= history
      ensures (Current(), err) == StoreLabel(old(Current()), page, works, rollbackWorks)
    {
      hide Labels.AcceptedByKernel, Labels.Strim, HwmonName;
      AcceptedIsVisible(page);
      if !Labels.AcceptedByKernel(page) {
        return Some(InvalidArgument);
      }
      var trimmed := Labels.Strim(page);
      if removed {
        return Some(NoDevice);
      }
      if text == trimmed {
        if !registered {
          err := RegisterHwmon(works);
          return;
        }
        return None;
      }
      var previous := text;
      UnregisterHwmon();
      SetLabel(trimmed);
      err := RegisterHwmon(works);
      if err.None? {
        return;
      }
      SetLabel(previous);
      if previous != [] {
        var _ := RegisterHwmon(rollbackWorks);
      }
    }

    /** unregister_sensor up to the release of the lock. */
    method MarkRemoved()
      requires Valid()
      modifies this
      ensures Valid() && old(history) <= history
      ensures Current() == old(Current()).(removed := true, registered := false)
    {
      removed := true;
      history := history + [Current()];
      registered := false;
      history := history + [Current()];
    }

    /** temperature_write. */
    method WriteTemperatureLocked(page: seq<byte>, now: int) returns (err: Option<Errno>)
      requires Valid()
      modifies this
      ensures Valid() && old(history) <= history
      ensures (Current(), err) == WriteTemperature(old(Current()), page, now)
    {
      var value := Decimal.ParseWrite(page);
      if value.Err? {
        return Some(InvalidArgument);
      }
      if removed {
        return Some(NoDevice);
      }
      temperature := value.value;
      history := history + [Current()];
      lastUpdate := now;
      history := history + [Current()];
      return None;
    }
  }

  /** A store keeps the sensor consistent whatever the two registrations answer. */
  lemma StoreKeepsConsistent(s: State, page: seq<byte>, works: bool, rollbackWorks: bool)
    requires Consistent(s)
    ensures Consistent(StoreLabel(s, page, works, rollbackWorks).0)
  {
    assert Labels.AcceptedByKernel(page) ==> Labels.Strim(page) != [];
  }

  /**
   A store succeeds exactly when the text is acceptable, the sensor is not removed and the
   label is already live or its registration works. Success leaves the trimmed label live;
   failure leaves the previous label.
   */
  lemma StoreOutcome(s: State, page: seq<byte>, works: bool, rollbackWorks: bool)
    ensures var (s', err) := StoreLabel(s, page, works, rollbackWorks);
            && (err.None? <==> Labels.AcceptedByKernel(page) && !s.removed
                               && (works || (s.registered && s.text == Labels.Strim(page))))
            && (err.None? ==> s'.text == Labels.Strim(page) && s'.registered)
            && (err.Some? ==> s'.text == s.text)
            && (s.removed ==> s' == s && (Labels.AcceptedByKernel(page) ==> err == Some(NoDevice)))
            && s'.temperature == s.temperature && s'.lastUpdate == s.lastUpdate && s'.removed == s.removed
  {
    assert Labels.AcceptedByKernel(page) ==> Labels.Strim(page) != [];
  }

  /** After any failed store, even a failed rollback, the next one that registers goes live. */
  lemma RepeatHeals(s: State, page: seq<byte>, rollbackWorks: bool, again: bool)
    requires Consistent(s) && !s.removed && Labels.AcceptedByKernel(page)
    ensures var s' := StoreLabel(s, page, false, rollbackWorks).0;
            var (s'', err) := StoreLabel(s', page, true, again);
            err.None? && s''.registered && s''.text == Labels.Strim(page) && Consistent(s'')
  {
    StoreKeepsConsistent(s, page, false, rollbackWorks);
    var s' := StoreLabel(s, page, false, rollbackWorks).0;
    StoreOutcome(s, page, false, rollbackWorks);
    StoreKeepsConsistent(s', page, true, again);
    StoreOutcome(s', page, true, again);
  }

  /** The hwmon core refuses these characters in a name. */
  predicate BadNameByte(c: byte) {
    c == 45 || c == 42 || c == 32 || c == 9 || c == 10
  }

  lemma {:induction false} NameBodyIsClean(input: seq<byte>)
    ensures forall c :: c in NameBody(input) ==> !BadNameByte(c)
  {
    if input != [] {
      NameBodyIsClean(input[..|input| - 1]);
    }
  }

  /** Any label gives a name the hwmon core can register: not empty and without bad characters. */
  lemma NameIsRegistrable(text: seq<byte>)
    ensures |NAME_PREFIX| < |HwmonName(text)| < HWMON_NAME_SIZE
    ensures forall c :: c in HwmonName(text) ==> !BadNameByte(c)
  {
    hide NameBody, NameEnd;
    NameBodyIsClean(text[..NameEnd(text, 0)]);
  }

  predicate Plain(c: byte) {
    48 <= c <= 57 || 97 <= c <= 122
  }

  lemma {:induction false} PlainEnd(text: seq<byte>, from: nat)
    requires from <= |text| && forall i :: from <= i < |text| ==> Plain(text[i])
    ensures NameEnd(text, from) == |text|
    decreases |text| - from
  {
    if from + 1 < |text| {
      PlainEnd(text, from + 1);
    }
  }

  lemma {:induction false} PlainBody(text: seq<byte>)
    requires |text| <= 95 && forall i :: 0 <= i < |text| ==> Plain(text[i])
    ensures NameBody(text) == Ascii(NAME_PREFIX) + text
  {
    if text != [] {
      PlainBody(text[..|text| - 1]);
      assert text == text[..|text| - 1] + [text[|text| - 1]];
    }
  }

  /** A label of lower-case letters and digits is its own name after the prefix. */
  lemma PlainName(text: seq<byte>)
    requires 0 < |text| <= 95 && forall i :: 0 <= i < |text| ==> Plain(text[i])
    ensures HwmonName(text) == Ascii("unraid_") + text
  {
    hide NameBody, NameEnd;
    PlainEnd(text, 0);
    PlainBody(text);
    assert text[..|text|] == text;
  }
}
