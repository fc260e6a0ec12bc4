/**
 The identity of a virtual sensor on both sides of the kernel boundary: Go turns an ID
 into a configfs directory name and a device path, and virt-temp.c turns the directory
 name back into the ID and publishes a device node for it.
 */
module SensorId {
  import opened Common

  const MAX_ID_SIZE := 84     // len("disk:") + 79
  const ID_SIZE := 85         // C buffer, one byte for the terminating NUL
  const DEVICE_NODE_SIZE := 11 + 2 * (ID_SIZE - 1)
  const COLON: byte := 58

  datatype Family = Disk | Hba

  function FamilyName(f: Family): seq<byte> {
    if f.Disk? then Ascii("disk") else Ascii("hba")
  }

  function HexDigit(n: int): (c: byte)
    requires 0 <= n < 16
  {
    if n < 10 then (48 + n) as byte else (87 + n) as byte
  }

  /** Go's hex.EncodeToString and the kernel's bin2hex: two lower-case digits a byte. */
  function Hex(s: seq<byte>): (h: seq<byte>)
    ensures |h| == 2 * |s|
  {
    seq(2 * |s|, k requires 0 <= k < 2 * |s| =>
      HexDigit(if k % 2 == 0 then s[k / 2] as int / 16 else s[k / 2] as int % 16))
  }

  /** The kernel's hex_to_bin, which accepts both cases; -1 for any other byte. */
  function HexValue(c: byte): (v: int)
    ensures -1 <= v < 16
  {
    if 48 <= c <= 57 then c as int - 48
    else if 97 <= c <= 102 then c as int - 87
    else if 65 <= c <= 70 then c as int - 55
    else -1
  }

  predicate IsHex(h: seq<byte>) {
    forall k :: 0 <= k < |h| ==> HexValue(h[k]) >= 0
  }

  function Unhex(h: seq<byte>): (s: seq<byte>)
    requires IsHex(h) && |h| % 2 == 0
    ensures |s| == |h| / 2
  {
    seq(|h| / 2, i requires 0 <= i < |h| / 2 =>
      (16 * HexValue(h[2 * i]) + HexValue(h[2 * i + 1])) as byte)
  }

  function HasPrefix(s: seq<byte>, prefix: seq<byte>): bool {
    |prefix| <= |s| && s[..|prefix|] == prefix
  }

  /** What validateHWMonSamples demands of the ID of a sensor in a family. */
  predicate ValidId(f: Family, id: seq<byte>) {
    var prefix := FamilyName(f) + [COLON];
    HasPrefix(id, prefix) && |id| > |prefix| && |id| <= MAX_ID_SIZE && 0 !in id
  }

  /** hwmonSensorKey: the configfs directory name. */
  function SensorKey(f: Family, id: seq<byte>): (key: seq<byte>)
    requires |id| > |FamilyName(f)|
  {
    Hex(id[|FamilyName(f)| + 1..])
  }

  /** hwmonTemperatureDevicePath below the device root. */
  function DevicePath(root: seq<byte>, id: seq<byte>): (path: seq<byte>) {
    root + Ascii("/virt-temp/") + Hex(id)
  }

  datatype DecodeError = Invalid | NameTooLong

  /** decode_sensor_id as a value: the ID named by a directory of a family. */
  function DecodeSensorId(f: Family, name: seq<byte>): (r: Result<seq<byte>, DecodeError>) {
    if |name| == 0 || |name| % 2 == 1 then Err(Invalid)
    else if |FamilyName(f)| + 1 + |name| / 2 >= ID_SIZE then Err(NameTooLong)
    else if !IsHex(name) || 0 in Unhex(name) then Err(Invalid)
    else Ok(FamilyName(f) + [COLON] + Unhex(name))
  }

  /** The device node make_device_names asks for; scnprintf cuts it to its buffer. */
  function DeviceNode(id: seq<byte>): (node: seq<byte>) {
    var text := Ascii("virt-temp/") + Hex(id);
    text[..Min(|text|, DEVICE_NODE_SIZE - 1)]
  }

  /** The C string held by a buffer. */
  ghost predicate HoldsString(buffer: array<byte>, s: seq<byte>)
    reads buffer
  {
    |s| < buffer.Length && buffer[..|s|] == s && buffer[|s|] == 0 && 0 !in s
  }

  /** hex2bin: fills part of a buffer, stopping at the first byte that is no digit. */
  method HexToBinary(buffer: array<byte>, offset: nat, name: seq<byte>) returns (ok: bool)
    requires |name| % 2 == 0 && offset + |name| / 2 <= buffer.Length
    modifies buffer
    ensures ok <==> IsHex(name)
    ensures ok ==> buffer[offset..offset + |name| / 2] == Unhex(name)
  {
    for i := 0 to |name| / 2
      invariant IsHex(name[..2 * i])
      invariant buffer[offset..offset + i] == Unhex(name[..2 * i])
    {
      if HexValue(name[2 * i]) < 0 || HexValue(name[2 * i + 1]) < 0 {
        return false;
      }
      buffer[offset + i] := (16 * HexValue(name[2 * i]) + HexValue(name[2 * i + 1])) as byte;
    }
    assert name[..2 * (|name| / 2)] == name;
    return true;
  }

  /** memcpy to the start of a buffer. */
  method CopyToFront(buffer: array<byte>, s: seq<byte>)
    requires |s| <= buffer.Length
    modifies buffer
    ensures buffer[..] == s + old(buffer[|s|..])
  {
    for i := 0 to |s|
      invariant buffer[..i] == s[..i]
      invariant buffer[i..] == old(buffer[i..])
    {
      buffer[i] := s[i];
    }
    assert buffer[..] == buffer[..|s|] + buffer[|s|..];
  }

  /** Completes the C string of an ID around the suffix that is already in place. */
  method PrefixAndTerminate(id: array<byte>, f: Family, length: nat, ghost suffix: seq<byte>)
    requires |FamilyName(f)| + 1 + length < id.Length
    requires suffix == id[|FamilyName(f)| + 1..|FamilyName(f)| + 1 + length] && 0 !in suffix
    modifies id
    ensures HoldsString(id, FamilyName(f) + [COLON] + suffix)
  {
    var prefix := FamilyName(f) + [COLON];
    FamilyNames();
    assert 0 !in prefix;
    CopyToFront(id, prefix);
    assert id[..][|prefix|..|prefix| + length] == suffix;
    id[|prefix| + length] := 0;
    assert id[..|prefix| + length] == prefix + suffix;
  }

  /**
   decode_sensor_id on its caller's 85-byte buffer. Every store is inside the buffer, and
   on success the buffer holds the ID as a C string.
   */
  method DecodeInto(id: array<byte>, f: Family, name: seq<byte>) returns (err: Option<DecodeError>)
    requires id.Length == ID_SIZE
    modifies id
    ensures err.None? <==> DecodeSensorId(f, name).Ok?
    ensures err.None? ==> HoldsString(id, DecodeSensorId(f, name).value)
    ensures err.Some? ==> DecodeSensorId(f, name) == Err(err.value)
  {
    var n, length := |FamilyName(f)|, |name| / 2;
    if |name| == 0 || |name| % 2 == 1 {
      return Some(Invalid);
    }
    if length == 0 || n + 1 + length >= ID_SIZE {
      return Some(NameTooLong);
    }
    var ok := HexToBinary(id, n + 1, name);
    if !ok || 0 in id[n + 1..n + 1 + length] {
      return Some(Invalid);
    }
    PrefixAndTerminate(id, f, length, Unhex(name));
    return None;
  }

  lemma UnhexHex(s: seq<byte>)
    ensures IsHex(Hex(s)) && Unhex(Hex(s)) == s
  {
    hide HexDigit, HexValue;
    var h := Hex(s);
    forall k | 0 <= k < |h| ensures HexValue(h[k]) >= 0 {
      ValueOfDigit(if k % 2 == 0 then s[k / 2] as int / 16 else s[k / 2] as int % 16);
    }
    forall i | 0 <= i < |s| ensures Unhex(h)[i] == s[i] {
      ValueOfDigit(s[i] as int / 16);
      ValueOfDigit(s[i] as int % 16);
      assert h[2 * i] == HexDigit(s[i] as int / 16);
      assert h[2 * i + 1] == HexDigit(s[i] as int % 16);
    }
  }

  lemma ValueOfDigit(n: int)
    requires 0 <= n < 16
    ensures HexValue(HexDigit(n)) == n
  {
  }

  /** Lower-case digits, the high half of a byte first. */
  lemma HexForExample()
    ensures Hex([0x1F, 0xA0]) == Ascii("1fa0")
  {
  }

  lemma HexInjective(a: seq<byte>, b: seq<byte>)
    requires Hex(a) == Hex(b)
    ensures a == b
  {
    UnhexHex(a);
    UnhexHex(b);
  }

  lemma FamilyNames()
    ensures FamilyName(Disk) == [100, 105, 115, 107] && FamilyName(Hba) == [104, 98, 97]
  {
  }

  /** Kernel decoding of the key Go computes gives back the ID. */
  lemma IdRoundTrip(f: Family, id: seq<byte>)
    requires ValidId(f, id)
    ensures DecodeSensorId(f, SensorKey(f, id)) == Ok(id)
  {
    var n := |FamilyName(f)|;
    UnhexHex(id[n + 1..]);
    assert id == FamilyName(f) + [COLON] + id[n + 1..];
  }

  /** The kernel accepts exactly the names of valid IDs, up to the case of the digits. */
  lemma DecodedIdsAreValid(f: Family, name: seq<byte>)
    requires DecodeSensorId(f, name).Ok?
    ensures ValidId(f, DecodeSensorId(f, name).value)
    ensures Unhex(SensorKey(f, DecodeSensorId(f, name).value)) == Unhex(name)
  {
    var n, id := |FamilyName(f)|, DecodeSensorId(f, name).value;
    FamilyNames();
    assert id[n + 1..] == Unhex(name);
    assert id[..n + 1] == FamilyName(f) + [COLON];
    UnhexHex(id[n + 1..]);
  }

  /** The node the kernel publishes below the device root is the path Go opens. */
  lemma NodeIsPath(f: Family, id: seq<byte>, root: seq<byte>)
    requires ValidId(f, id)
    ensures root + Ascii("/") + DeviceNode(id) == DevicePath(root, id)
  {
    assert Ascii("/virt-temp/") == Ascii("/") + Ascii("virt-temp/");
    assert root + Ascii("/") + (Ascii("virt-temp/") + Hex(id)) == DevicePath(root, id);
  }

  /** Directory names are injective in a family. */
  lemma KeysInjective(f: Family, a: seq<byte>, b: seq<byte>)
    requires ValidId(f, a) && ValidId(f, b)
    requires SensorKey(f, a) == SensorKey(f, b)
    ensures a == b
  {
    IdRoundTrip(f, a);
    IdRoundTrip(f, b);
  }

  /** Device paths are injective across families: the prefix is part of the path. */
  lemma DevicePathsInjective(f: Family, a: seq<byte>, g: Family, b: seq<byte>, root: seq<byte>)
    requires ValidId(f, a) && ValidId(g, b)
    requires DevicePath(root, a) == DevicePath(root, b)
    ensures f == g && a == b
  {
    var prefix := root + Ascii("/virt-temp/");
    assert Hex(a) == DevicePath(root, a)[|prefix|..] == DevicePath(root, b)[|prefix|..] == Hex(b);
    HexInjective(a, b);
    FamilyNames();
    assert a[0] == FamilyName(f)[0] && b[0] == FamilyName(g)[0];
  }
}
