/**
 Sensor labels on both sides of the kernel boundary: Go normalizes a presentation string
 and cuts it to 95 bytes between two characters; virt-temp.c trims and checks what it
 receives.
 */
module Labels {
  import opened Common

  const MAX_LABEL_SIZE := 95
  const LABEL_SIZE := 96      // C buffer, one byte for the terminating NUL
  const NEWLINE: byte := 10

  /** A Unicode scalar value. */
  type Rune = r: int | 0 <= r < 0x110000 && !(0xD800 <= r < 0xE000)

  const REPLACEMENT: Rune := 0xFFFD

  predicate Continuation(b: byte) {
    0x80 <= b < 0xC0
  }

  /** utf8.RuneStart. */
  predicate RuneStart(b: byte) {
    !Continuation(b)
  }

  /** Go's UTF-8 decoding of the first character: an ill-formed byte is U+FFFD, width 1. */
  function DecodeRune(s: seq<byte>): (r: (Rune, nat))
    requires s != []
    ensures 1 <= r.1 <= |s|
    ensures s[0] < 0x80 ==> r == (s[0] as int, 1)
  {
    var b := s[0] as int;
    if b < 0x80 then (b, 1)
    else if 0xC2 <= b < 0xE0 && |s| >= 2 && Continuation(s[1]) then
      ((b - 0xC0) * 0x40 + (s[1] as int - 0x80), 2)
    else if 0xE0 <= b < 0xF0 && |s| >= 3 && Continuation(s[1]) && Continuation(s[2])
            && (b == 0xE0 ==> s[1] >= 0xA0) && (b == 0xED ==> s[1] < 0xA0) then
      ((b - 0xE0) * 0x1000 + (s[1] as int - 0x80) * 0x40 + (s[2] as int - 0x80), 3)
    else if 0xF0 <= b < 0xF5 && |s| >= 4 && Continuation(s[1]) && Continuation(s[2]) && Continuation(s[3])
            && (b == 0xF0 ==> s[1] >= 0x90) && (b == 0xF4 ==> s[1] < 0x90) then
      ((b - 0xF0) * 0x40000 + (s[1] as int - 0x80) * 0x1000 + (s[2] as int - 0x80) * 0x40 + (s[3] as int - 0x80), 4)
    else (REPLACEMENT, 1)
  }

  function Runes(s: seq<byte>): (rs: seq<Rune>)
    decreases |s|
  {
    if s == [] then [] else
      var (r, width) := DecodeRune(s);
      [r] + Runes(s[width..])
  }

  function EncodeRune(r: Rune): (s: seq<byte>)
    ensures 1 <= |s| <= 4 && RuneStart(s[0])
    ensures r < 0x80 ==> s == [r as byte]
    ensures r >= 0x80 ==> s[0] >= 0xC2 && forall k :: 0 <= k < |s| ==> s[k] >= 0x80
    ensures forall k :: 1 <= k < |s| ==> Continuation(s[k])
  {
    if r < 0x80 then [r as byte]
    else if r < 0x800 then [(0xC0 + r / 0x40) as byte, Tail(r)]
    else if r < 0x10000 then [(0xE0 + r / 0x1000) as byte, Tail(r / 0x40), Tail(r)]
    else [(0xF0 + r / 0x40000) as byte, Tail(r / 0x1000), Tail(r / 0x40), Tail(r)]
  }

  function Tail(n: nat): (b: byte)
    ensures Continuation(b)
  {
    (0x80 + n % 0x40) as byte
  }

  function Utf8(rs: seq<Rune>): (s: seq<byte>) {
    if rs == [] then [] else EncodeRune(rs[0]) + Utf8(rs[1..])
  }

  /** unicode.IsControl. */
  predicate IsControl(r: Rune) {
    r < 0x20 || 0x7F <= r < 0xA0
  }

  /** unicode.IsSpace. */
  predicate IsSpace(r: Rune) {
    9 <= r <= 13 || r in {0x20, 0x85, 0xA0, 0x1680, 0x2028, 0x2029, 0x202F, 0x205F, 0x3000} || 0x2000 <= r <= 0x200A
  }

  /** Control characters become spaces. */
  function Blank(rs: seq<Rune>): (b: seq<Rune>)
    ensures |b| == |rs| && forall i :: 0 <= i < |b| ==> !IsControl(b[i])
  {
    seq(|rs|, i requires 0 <= i < |rs| => if IsControl(rs[i]) then 0x20 else rs[i])
  }

  function DropLeft<T>(s: seq<T>, drop: T -> bool): (r: seq<T>)
    ensures r != [] ==> !drop(r[0])
    ensures |r| <= |s| && r == s[|s| - |r|..]
    ensures forall i :: 0 <= i < |s| - |r| ==> drop(s[i])
  {
    if s != [] && drop(s[0]) then DropLeft(s[1..], drop) else s
  }

  function DropRight<T>(s: seq<T>, drop: T -> bool): (r: seq<T>)
    ensures r <= s
    ensures r != [] ==> !drop(r[|r| - 1])
    ensures forall i :: |r| <= i < |s| ==> drop(s[i])
  {
    if s != [] && drop(s[|s| - 1]) then DropRight(s[..|s| - 1], drop) else s
  }

  function Trim<T>(s: seq<T>, drop: T -> bool): (r: seq<T>) {
    DropRight(DropLeft(s, drop), drop)
  }

  /** The characters normalizeHWMonLabel keeps. */
  function NormalRunes(text: seq<byte>): (rs: seq<Rune>) {
    Trim(Blank(Runes(text)), IsSpace)
  }

  /** normalizeHWMonLabel. */
  function Normalize(text: seq<byte>): (s: seq<byte>) {
    Utf8(NormalRunes(text))
  }

  /** The characters of the label or, when it has none, of the fallback. */
  function LabelRunes(text: seq<byte>, fallback: seq<byte>): (rs: seq<Rune>) {
    if NormalRunes(text) == [] then NormalRunes(fallback) else NormalRunes(text)
  }

  /** The leading characters that fit a budget of bytes. */
  function Fitting(rs: seq<Rune>, budget: nat): (s: seq<byte>) {
    if rs == [] || |EncodeRune(rs[0])| > budget then []
    else EncodeRune(rs[0]) + Fitting(rs[1..], budget - |EncodeRune(rs[0])|)
  }

  /** What sanitizeHWMonLabel makes of a label and its fallback. */
  function Sanitized(text: seq<byte>, fallback: seq<byte>): (s: seq<byte>) {
    Fitting(LabelRunes(text, fallback), MAX_LABEL_SIZE)
  }

  /** The end of sanitizeHWMonLabel: stepping back to a rune start never splits a character. */
  method CutLabel(s: seq<byte>, ghost rs: seq<Rune>) returns (r: seq<byte>)
    requires s == Utf8(rs)
    ensures r == Fitting(rs, MAX_LABEL_SIZE)
  {
    if |s| <= MAX_LABEL_SIZE {
      assert rs[..|rs|] == rs;
      FittingIsLongest(rs, MAX_LABEL_SIZE, |rs|);
      return s;
    }
    var limit := MAX_LABEL_SIZE;
    while limit > 0 && !RuneStart(s[limit])
      invariant 0 <= limit <= MAX_LABEL_SIZE
      invariant forall p :: limit < p <= MAX_LABEL_SIZE ==> !RuneStart(s[p])
    {
      limit := limit - 1;
    }
    ghost var k := CutAtBoundary(rs, limit);
    FittingIsLongest(rs, MAX_LABEL_SIZE, k);
    return s[..limit];
  }

  /** sanitizeHWMonLabel. */
  method SanitizeLabel(text: seq<byte>, fallback: seq<byte>) returns (r: seq<byte>)
    ensures r == Sanitized(text, fallback)
  {
    r := Normalize(text);
    if r == [] {
      r := Normalize(fallback);
    }
    assert r == Utf8(LabelRunes(text, fallback)) by { Utf8Empty(NormalRunes(text)); }
    r := CutLabel(r, LabelRunes(text, fallback));
  }

  lemma Utf8Empty(rs: seq<Rune>)
    ensures Utf8(rs) == [] <==> rs == []
  {
  }

  lemma {:induction false} Utf8Prefix(rs: seq<Rune>, k: nat)
    requires k <= |rs|
    ensures Utf8(rs[..k]) <= Utf8(rs)
    ensures k < |rs| ==> Utf8(rs[..k + 1]) == Utf8(rs[..k]) + EncodeRune(rs[k])
  {
    if k > 0 {
      Utf8Prefix(rs[1..], k - 1);
      assert rs[..k][1..] == rs[1..][..k - 1];
      if k < |rs| {
        assert rs[..k + 1][1..] == rs[1..][..k];
      }
    } else if |rs| > 0 {
      assert rs[..1] == [rs[0]];
    }
  }

  /** The positions a cut may stop at are exactly the character boundaries. */
  lemma {:induction false} StartsAreBoundaries(rs: seq<Rune>, p: nat)
    requires p < |Utf8(rs)|
    ensures RuneStart(Utf8(rs)[p]) <==> exists k :: 0 <= k < |rs| && p == |Utf8(rs[..k])|
  {
    var first := |EncodeRune(rs[0])|;
    if p == 0 {
      assert Utf8(rs[..0]) == [];
    } else if p < first {
      forall k | 0 <= k < |rs| ensures p != |Utf8(rs[..k])| {
        if k > 0 {
          assert rs[..k][0] == rs[0];
        }
      }
    } else {
      StartsAreBoundaries(rs[1..], p - first);
      forall k | 0 < k < |rs| ensures |Utf8(rs[..k])| == first + |Utf8(rs[1..][..k - 1])| {
        assert rs[..k][1..] == rs[1..][..k - 1];
      }
      if RuneStart(Utf8(rs)[p]) {
        var k :| 0 <= k < |rs[1..]| && p - first == |Utf8(rs[1..][..k])|;
        assert p == |Utf8(rs[..k + 1])|;
      } else {
        forall k | 0 <= k < |rs| ensures p != |Utf8(rs[..k])| {
          if k > 0 {
            assert p - first != |Utf8(rs[1..][..k - 1])|;
          }
        }
      }
    }
  }

  lemma CutAtBoundary(rs: seq<Rune>, limit: nat) returns (k: nat)
    requires limit <= MAX_LABEL_SIZE < |Utf8(rs)|
    requires limit == 0 || RuneStart(Utf8(rs)[limit])
    requires forall p :: limit < p <= MAX_LABEL_SIZE ==> !RuneStart(Utf8(rs)[p])
    ensures k < |rs| && Utf8(rs)[..limit] == Utf8(rs[..k]) && |Utf8(rs[..k + 1])| > MAX_LABEL_SIZE
  {
    hide EncodeRune, RuneStart;
    StartsAreBoundaries(rs, limit);
    k :| 0 <= k < |rs| && limit == |Utf8(rs[..k])|;
    Utf8Prefix(rs, k);
    Utf8Prefix(rs, k + 1);
    var next := |Utf8(rs[..k + 1])|;
    if next <= MAX_LABEL_SIZE {
      assert rs[..|rs|] == rs;
      StartsAreBoundaries(rs, next);
      assert false;
    }
  }

  /** The whole characters that fit are the longest prefix of whole characters within the budget. */
  lemma {:induction false} FittingIsLongest(rs: seq<Rune>, budget: nat, k: nat)
    requires k <= |rs| && |Utf8(rs[..k])| <= budget
    requires k < |rs| ==> |Utf8(rs[..k + 1])| > budget
    ensures Fitting(rs, budget) == Utf8(rs[..k])
  {
    if k > 0 {
      assert rs[..k][1..] == rs[1..][..k - 1];
      assert k < |rs| ==> rs[..k + 1][1..] == rs[1..][..k];
      FittingIsLongest(rs[1..], budget - |EncodeRune(rs[0])|, k - 1);
    } else if rs != [] {
      assert rs[..1] == [rs[0]] && Utf8([rs[0]]) == EncodeRune(rs[0]);
    }
  }

  // ----- what sanitizing keeps -----

  lemma DecodeEncodedTwo(r: Rune, rest: seq<byte>)
    requires 0x80 <= r < 0x800
    ensures DecodeRune(EncodeRune(r) + rest) == (r, 2)
  {
    var s := EncodeRune(r) + rest;
    assert s[0] as int == 0xC0 + r / 0x40 && s[1] as int == 0x80 + r % 0x40;
  }

  lemma DecodeEncodedThree(r: Rune, rest: seq<byte>)
    requires 0x800 <= r < 0x10000
    ensures DecodeRune(EncodeRune(r) + rest) == (r, 3)
  {
    var s := EncodeRune(r) + rest;
    assert s[0] as int == 0xE0 + r / 0x1000 && s[1] as int == 0x80 + r / 0x40 % 0x40 && s[2] as int == 0x80 + r % 0x40;
  }

  lemma DecodeEncodedFour(r: Rune, rest: seq<byte>)
    requires 0x10000 <= r
    ensures DecodeRune(EncodeRune(r) + rest) == (r, 4)
  {
    var a, b, c, d := r / 0x40000, r / 0x1000 % 0x40, r / 0x40 % 0x40, r % 0x40;
    assert r == a * 0x40000 + b * 0x1000 + c * 0x40 + d;
    assert a < 5 && (a == 0 ==> b >= 0x10) && (a == 4 ==> b < 0x10);
    var s := EncodeRune(r) + rest;
    assert s[0] as int == 0xF0 + a && s[1] as int == 0x80 + b && s[2] as int == 0x80 + c && s[3] as int == 0x80 + d;
  }

  /** Decoding gives back every character that was encoded. */
  lemma DecodeEncoded(r: Rune, rest: seq<byte>)
    ensures DecodeRune(EncodeRune(r) + rest) == (r, |EncodeRune(r)|)
  {
    if r < 0x80 {
    } else if r < 0x800 {
      DecodeEncodedTwo(r, rest);
    } else if r < 0x10000 {
      DecodeEncodedThree(r, rest);
    } else {
      DecodeEncodedFour(r, rest);
    }
  }

  lemma {:induction false} RunesOfUtf8(rs: seq<Rune>)
    ensures Runes(Utf8(rs)) == rs
  {
    hide DecodeRune, EncodeRune;
    if rs != [] {
      var first, rest := EncodeRune(rs[0]), Utf8(rs[1..]);
      DecodeEncoded(rs[0], rest);
      RunesOfUtf8(rs[1..]);
      assert (first + rest)[|first|..] == rest && Utf8(rs) == first + rest;
      assert Utf8(rs) != [] by { EncodedIsSome(rs[0]); }
    }
  }

  lemma EncodedIsSome(r: Rune)
    ensures EncodeRune(r) != []
  {
  }

  /** A character that neither becomes a space nor is trimmed. */
  predicate Visible(r: Rune) {
    !IsControl(r) && !IsSpace(r)
  }

  /** The text with a space for every control character. */
  ghost predicate BlankedTo(rs: seq<Rune>, blanked: seq<Rune>) {
    |blanked| == |rs| && forall i :: 0 <= i < |rs| ==> blanked[i] == if IsControl(rs[i]) then 0x20 else rs[i]
  }

  lemma NormalRunesOf(rs: seq<Rune>, blanked: seq<Rune>)
    requires rs != [] && Visible(rs[0]) && Visible(rs[|rs| - 1]) && BlankedTo(rs, blanked)
    ensures NormalRunes(Utf8(rs)) == blanked
  {
    hide Utf8, Runes, IsSpace, IsControl;
    RunesOfUtf8(rs);
    assert Blank(rs) == blanked by { BlankIs(rs, blanked); }
    assert DropLeft(blanked, IsSpace) == blanked;
    assert DropRight(blanked, IsSpace) == blanked;
  }

  lemma BlankIs(rs: seq<Rune>, blanked: seq<Rune>)
    requires BlankedTo(rs, blanked)
    ensures Blank(rs) == blanked
  {
  }

  /**
   A text that begins and ends with visible characters is kept but for its control characters,
   which become spaces, up to the last whole character within 95 bytes.
   */
  lemma SanitizedKeepsText(rs: seq<Rune>, blanked: seq<Rune>, fallback: seq<byte>)
    requires rs != [] && Visible(rs[0]) && Visible(rs[|rs| - 1]) && BlankedTo(rs, blanked)
    ensures Sanitized(Utf8(rs), fallback) == Fitting(blanked, MAX_LABEL_SIZE)
    ensures |Utf8(blanked)| <= MAX_LABEL_SIZE ==> Sanitized(Utf8(rs), fallback) == Utf8(blanked)
  {
    hide Utf8, NormalRunes, Fitting;
    NormalRunesOf(rs, blanked);
    if |Utf8(blanked)| <= MAX_LABEL_SIZE {
      assert blanked[..|blanked|] == blanked;
      FittingIsLongest(blanked, MAX_LABEL_SIZE, |blanked|);
    }
  }

  lemma {:induction false} AsciiIsUtf8(text: seq<byte>, rs: seq<Rune>)
    requires |rs| == |text| && forall i :: 0 <= i < |text| ==> text[i] < 0x80 && rs[i] == text[i] as int
    ensures Utf8(rs) == text
  {
    if text != [] {
      AsciiIsUtf8(text[1..], rs[1..]);
    }
  }

  /** Printable ASCII without outer spaces that fits is sent as it is. */
  lemma AsciiIsUnchanged(text: seq<byte>, fallback: seq<byte>)
    requires 0 < |text| <= 95 && forall i :: 0 <= i < |text| ==> 0x20 <= text[i] < 0x7F
    requires text[0] != 0x20 && text[|text| - 1] != 0x20
    ensures Sanitized(text, fallback) == text
  {
    hide Sanitized, Utf8;
    var rs: seq<Rune> := seq(|text|, i requires 0 <= i < |text| => text[i] as int);
    AsciiIsUtf8(text, rs);
    SanitizedKeepsText(rs, rs, fallback);
  }

  /** A text of spaces and control characters only gives way to the fallback. */
  lemma BlankTextFallsBack(rs: seq<Rune>, fallback: seq<byte>)
    requires forall i :: 0 <= i < |rs| ==> IsControl(rs[i]) || IsSpace(rs[i])
    ensures Sanitized(Utf8(rs), fallback) == Fitting(NormalRunes(fallback), MAX_LABEL_SIZE)
  {
    hide Utf8, Runes, Fitting;
    RunesOfUtf8(rs);
    var b := Blank(rs);
    assert forall i :: 0 <= i < |b| ==> IsSpace(b[i]);
    NothingLeft(b, IsSpace);
  }

  lemma {:induction false} NothingLeft<T>(s: seq<T>, drop: T -> bool)
    requires forall i :: 0 <= i < |s| ==> drop(s[i])
    ensures DropLeft(s, drop) == []
  {
    if s != [] {
      NothingLeft(s[1..], drop);
    }
  }

  /** A label that validateHWMonSamples lets through. */
  predicate ValidLabel(text: seq<byte>) {
    0 < |text| <= MAX_LABEL_SIZE && 0 !in text && 9 !in text && 13 !in text && NEWLINE !in text
  }

  /** A label made by sanitizeHWMonLabel from a string that has a visible character. */
  ghost predicate Presentable(text: seq<byte>) {
    ValidLabel(text) && !KernelSpace(text[0])
  }

  /** The kernel's isspace, whose table counts byte 0xA0 as a space. */
  predicate KernelSpace(b: byte) {
    9 <= b <= 13 || b == 32 || b == 0xA0
  }

  /** The kernel's strim. */
  function Strim(s: seq<byte>): (r: seq<byte>) {
    Trim(s, KernelSpace)
  }

  /** sensor_label_store's checks on what was written to the label attribute. */
  predicate AcceptedByKernel(page: seq<byte>) {
    0 < |page| <= LABEL_SIZE && 0 !in page
    && var t := Strim(page); 0 < |t| < LABEL_SIZE && 9 !in t && 13 !in t && NEWLINE !in t
  }

  /** Trimming a line leaves bytes of its text, and any only if one of them is no space to the kernel. */
  lemma TrimmedLine(text: seq<byte>)
    ensures var t := Strim(text + [NEWLINE]);
            |t| <= |text| && (forall b :: b in t ==> b in text)
            && (t != [] <==> exists i :: 0 <= i < |text| && !KernelSpace(text[i]))
  {
    hide DropLeft, DropRight;
    var page := text + [NEWLINE];
    var left := DropLeft(page, KernelSpace);
    var t := DropRight(left, KernelSpace);
    var cut := |page| - |left|;
    assert forall i :: 0 <= i < |t| ==> t[i] == page[cut + i];
    assert t != [] ==> cut + |t| - 1 < |text| && !KernelSpace(text[cut + |t| - 1]) by {
      assert KernelSpace(page[|text|]);
    }
    if i :| 0 <= i < |text| && !KernelSpace(text[i]) {
      assert !KernelSpace(page[i]);
      assert left[i - cut] == page[i];
    }
  }

  /** The kernel accepts a valid label exactly when a byte of it is no space to the kernel. */
  lemma AcceptedIffVisible(text: seq<byte>)
    requires ValidLabel(text)
    ensures AcceptedByKernel(text + [NEWLINE]) <==> Strim(text + [NEWLINE]) != []
    ensures AcceptedByKernel(text + [NEWLINE]) <==> exists i :: 0 <= i < |text| && !KernelSpace(text[i])
  {
    hide Strim, KernelSpace;
    TrimmedLine(text);
  }

  /** A label of one space passes Go's validation and is refused by the kernel. */
  lemma BlankLabelIsRefused()
    ensures ValidLabel([32]) && !AcceptedByKernel([32, NEWLINE])
  {
    var text: seq<byte> := [32];
    hide Strim;
    AcceptedIffVisible(text);
    assert text + [NEWLINE] == [32, NEWLINE];
  }

  lemma NormalRunesShape(text: seq<byte>)
    ensures var rs := NormalRunes(text);
            (forall i :: 0 <= i < |rs| ==> !IsControl(rs[i])) && (rs != [] ==> !IsSpace(rs[0]))
  {
    var b := Blank(Runes(text));
    var left := DropLeft(b, IsSpace);
    assert forall i :: 0 <= i < |left| ==> left[i] in b;
    assert left != [] ==> !IsSpace(left[0]);
  }

  /** A string that starts with a printing ASCII character never normalizes to nothing. */
  lemma VisibleStart(s: seq<byte>)
    requires s != [] && 0x21 <= s[0] < 0x7F
    ensures NormalRunes(s) != []
  {
    var rs := Runes(s);
    assert rs[0] == s[0] as int;
    var b := Blank(rs);
    assert b[0] == rs[0] && !IsSpace(b[0]);
    var left := DropLeft(b, IsSpace);
    assert left == b;
    assert !IsSpace(left[0]);
  }

  lemma {:induction false} FittingBytes(rs: seq<Rune>, budget: nat)
    requires forall i :: 0 <= i < |rs| ==> !IsControl(rs[i])
    ensures |Fitting(rs, budget)| <= budget
    ensures forall p :: 0 <= p < |Fitting(rs, budget)| ==> Fitting(rs, budget)[p] >= 0x20
    ensures rs != [] && !IsSpace(rs[0]) && budget >= 4 ==>
              Fitting(rs, budget) != [] && !KernelSpace(Fitting(rs, budget)[0])
  {
    if rs != [] && |EncodeRune(rs[0])| <= budget {
      FittingBytes(rs[1..], budget - |EncodeRune(rs[0])|);
    }
  }

  lemma FittingIsPresentable(rs: seq<Rune>)
    requires rs != [] && !IsSpace(rs[0]) && forall i :: 0 <= i < |rs| ==> !IsControl(rs[i])
    ensures Presentable(Fitting(rs, MAX_LABEL_SIZE))
  {
    FittingBytes(rs, MAX_LABEL_SIZE);
    assert forall b :: b in Fitting(rs, MAX_LABEL_SIZE) ==> b >= 0x20;
  }

  /** Every sanitized label passes validation and, with its newline, the kernel's checks. */
  lemma SanitizedIsAccepted(text: seq<byte>, fallback: seq<byte>)
    requires fallback != [] && 0x21 <= fallback[0] < 0x7F
    ensures Presentable(Sanitized(text, fallback)) && AcceptedByKernel(Sanitized(text, fallback) + [NEWLINE])
  {
    VisibleStart(fallback);
    NormalRunesShape(text);
    NormalRunesShape(fallback);
    FittingIsPresentable(LabelRunes(text, fallback));
    AcceptedIffVisible(Sanitized(text, fallback));
  }

  lemma {:induction false} DropRightOfLine(s: seq<byte>)
    ensures DropRight(s + [NEWLINE], KernelSpace) == DropRight(s, KernelSpace)
  {
    var page := s + [NEWLINE];
    assert page[..|page| - 1] == s;
  }

  lemma {:induction false} DropLeftOfLine(text: seq<byte>)
    ensures var left, line := DropLeft(text, KernelSpace), DropLeft(text + [NEWLINE], KernelSpace);
            line == if left == [] then [] else left + [NEWLINE]
  {
    var page := text + [NEWLINE];
    if text != [] {
      assert page[1..] == text[1..] + [NEWLINE];
      if KernelSpace(text[0]) {
        DropLeftOfLine(text[1..]);
      }
    } else {
      assert DropLeft(page[1..], KernelSpace) == [];
    }
  }

  /**
   What the kernel stores is the trimmed label. It is the label Go sent exactly when neither
   the first nor the last byte is one the kernel counts as a space.
   */
  lemma KernelLabel(text: seq<byte>)
    requires ValidLabel(text)
    ensures Strim(text + [NEWLINE]) == Strim(text)
    ensures Strim(text) == text <==> !KernelSpace(text[0]) && !KernelSpace(text[|text| - 1])
  {
    DropLeftOfLine(text);
    var left := DropLeft(text, KernelSpace);
    DropRightOfLine(left);
    assert |DropRight(left, KernelSpace)| <= |left|;
  }

  /** The disk name "à" is sent whole and stored as its first byte only. */
  lemma LabelCanLoseAByte()
    ensures Presentable([0xC3, 0xA0]) && Strim([0xC3, 0xA0]) == [0xC3]
  {
    var text: seq<byte> := [0xC3, 0xA0];
    assert DropLeft(text, KernelSpace) == text;
    assert text[..1] == [0xC3];
    assert DropRight(text, KernelSpace) == DropRight(text[..1], KernelSpace) == [0xC3];
  }
}
