/** Types shared by every module: machine integers, bytes and failure values. */
module Prelude {
  datatype Option<+T> = None | Some(value: T)

  datatype Result<+T, +E> = Success(value: T) | Failure(error: E)

  const U32: nat := 0x1_0000_0000
  const U64: nat := 0x1_0000_0000_0000_0000
  /** `usize` on the 64-bit targets the crates are built for. */
  const USIZE_MAX: nat := U64 - 1
  const U32_MAX: nat := U32 - 1
  const I64_MAX: int := 0x7FFF_FFFF_FFFF_FFFF
  const I64_MIN: int := -I64_MAX - 1

  type u32 = x: int | 0 <= x < U32
  type u64 = x: int | 0 <= x < U64
  type byte = x: int | 0 <= x < 256
  type Bytes = seq<byte>

  /** A Rust `String` is its UTF-8 bytes; a buffer length always fits a `u64`. */
  type Text = b: Bytes | |b| < U64 witness []

  /** A `[u8; 32]` value. */
  type Digest = b: Bytes | |b| == 32 witness seq(32, _ => 0)

  function Min(a: int, b: int): int {
    if a <= b then a else b
  }

  function Max(a: int, b: int): int {
    if a <= b then b else a
  }

  /** The bytes of an ASCII literal. */
  function Ascii(s: string): (b: Bytes)
    ensures |b| == |s|
    ensures forall i | 0 <= i < |s| :: b[i] == s[i] as int % 128
  {
    seq(|s|, i requires 0 <= i < |s| => s[i] as int % 128)
  }
}
