/**
 A temperature crosses the kernel boundary as decimal text: Go's strconv.FormatInt with a
 newline, read back by the kernel's kstrtol_from_user.
 */
module Decimal {
  import opened Common

  const MAX_WRITE_SIZE := 32
  const INT64_LIMIT: int := 0x8000_0000_0000_0000
  const MINUS: byte := 45
  const NEWLINE: byte := 10

  predicate IsInt64(n: int) {
    -INT64_LIMIT <= n < INT64_LIMIT
  }

  function Digits(n: nat): (s: seq<byte>) {
    (if n < 10 then [] else Digits(n / 10)) + [(48 + n % 10) as byte]
  }

  function FormatInt(n: int): (s: seq<byte>) {
    if n < 0 then [MINUS] + Digits(-n) else Digits(n)
  }

  predicate AllDigits(s: seq<byte>) {
    forall i :: 0 <= i < |s| ==> 48 <= s[i] <= 57
  }

  function Value(s: seq<byte>): int
    requires AllDigits(s)
  {
    if s == [] then 0 else 10 * Value(s[..|s| - 1]) + (s[|s| - 1] as int - 48)
  }

  datatype WriteError = MessageSize | NotANumber | OutOfRange

  /** kstrtol in base 10: an optional sign, digits, and an optional newline at the end. */
  function Kstrtol(s: seq<byte>): (r: Result<int, WriteError>) {
    var text := if s != [] && s[|s| - 1] == NEWLINE then s[..|s| - 1] else s;
    var signed := text != [] && (text[0] == MINUS || text[0] == 43);
    var body := if signed then text[1..] else text;
    if body == [] || !AllDigits(body) then Err(NotANumber)
    else
      var n: int := if signed && text[0] == MINUS then -Value(body) else Value(body);
      if IsInt64(n) then Ok(n) else Err(OutOfRange)
  }

  /** What temperature_write makes of the bytes it is given. */
  function ParseWrite(s: seq<byte>): (r: Result<int, WriteError>) {
    if |s| == 0 || |s| > MAX_WRITE_SIZE then Err(MessageSize) else Kstrtol(s)
  }

  function Pow10(k: nat): int {
    if k == 0 then 1 else 10 * Pow10(k - 1)
  }

  lemma {:induction false} DigitsShape(n: nat, k: nat)
    requires k > 0 && n < Pow10(k)
    ensures 0 < |Digits(n)| <= k && AllDigits(Digits(n))
  {
    if n >= 10 {
      DigitsShape(n / 10, k - 1);
    }
  }

  lemma {:induction false} DigitsValue(n: nat)
    ensures AllDigits(Digits(n)) && Value(Digits(n)) == n
  {
    if n >= 10 {
      DigitsValue(n / 10);
      LastDigit(Digits(n / 10), (48 + n % 10) as byte);
    } else {
      LastDigit([], (48 + n) as byte);
      assert Digits(n) == [] + [(48 + n) as byte];
    }
  }

  lemma LastDigit(s: seq<byte>, d: byte)
    requires AllDigits(s) && 48 <= d <= 57
    ensures AllDigits(s + [d]) && Value(s + [d]) == 10 * Value(s) + (d as int - 48)
  {
    assert (s + [d])[..|s|] == s;
  }

  lemma PowersOfTen()
    ensures Pow10(19) == 10_000_000_000_000_000_000
  {
    assert Pow10(4) == 10_000 && Pow10(8) == 100_000_000 && Pow10(12) == 1_000_000_000_000;
    assert Pow10(16) == 10_000_000_000_000_000;
  }

  lemma FormattedParses(n: int)
    requires IsInt64(n) && |Digits(if n < 0 then -n else n)| < MAX_WRITE_SIZE - 1
    requires var d := Digits(if n < 0 then -n else n);
             d != [] && AllDigits(d) && Value(d) == if n < 0 then -n else n
    ensures ParseWrite(FormatInt(n) + [NEWLINE]) == Ok(n)
  {
    hide Digits, Value;
    var text := FormatInt(n);
    assert (text + [NEWLINE])[..|text|] == text;
    assert n < 0 ==> text[1..] == Digits(-n);
  }

  /** Every int64 fits the kernel's write limit and is read back unchanged. */
  lemma WriteRoundTrip(n: int)
    requires IsInt64(n)
    ensures ParseWrite(FormatInt(n) + [NEWLINE]) == Ok(n)
  {
    hide Pow10, Digits, Value, ParseWrite, FormatInt;
    PowersOfTen();
    DigitsShape(if n < 0 then -n else n, 19);
    DigitsValue(if n < 0 then -n else n);
    FormattedParses(n);
  }

  /** Most significant digit first, after the sign. */
  lemma FormatForExample()
    ensures FormatInt(-350) == [45, 51, 53, 48]
  {
    assert Digits(3) == [51];
    assert Digits(35) == [51, 53];
    assert Digits(350) == [51, 53, 48];
  }
}
