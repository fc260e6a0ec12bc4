/** Types shared by every component of the model. */
module Common {

  datatype Option<+T> = None | Some(value: T)

  datatype Result<+T, +E> = Ok(value: T) | Err(error: E)

  /** Go strings and C buffers are sequences of bytes. */
  newtype byte = x: int | 0 <= x < 256

  /** The bytes of a string literal. */
  function Ascii(s: string): (r: seq<byte>)
    ensures |r| == |s|
  {
    seq(|s|, i requires 0 <= i < |s| => (s[i] as int % 256) as byte)
  }

  function Min(a: int, b: int): int {
    if a <= b then a else b
  }

  /** Simple case folding of one character towards ASCII: two letters have a non-ASCII fold. */
  function FoldCase(c: int): int {
    if 65 <= c <= 90 then c + 32 else if c == 0x17F then 115 else if c == 0x212A then 107 else c
  }
}
