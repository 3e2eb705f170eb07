/** Bytes and the small result types shared by the decoder, the parser and the pipeline. */
module Bytes {

  /** An unsigned 8-bit byte, as Rust's `u8`. Arithmetic on it must stay in range. */
  newtype U8 = x: int | 0 <= x < 256

  /** The bytes the form decoder gives a meaning to. */
  const NUL: U8 := 0x00
  const SPACE: U8 := 0x20
  const PERCENT: U8 := 0x25
  const AMPERSAND: U8 := 0x26
  const PLUS: U8 := 0x2B
  const EQUALS: U8 := 0x3D

  datatype Option<+T> = None | Some(value: T)

  datatype Result<+R, +E> = Success(value: R) | Failure(error: E)

  /** The bytes of an ASCII string literal, for stating concrete examples. */
  function Ascii(s: string): (r: seq<U8>)
    requires forall i :: 0 <= i < |s| ==> s[i] as int < 128
    ensures |r| == |s|
    ensures forall i :: 0 <= i < |s| ==> r[i] as int == s[i] as int
  {
    seq(|s|, i requires 0 <= i < |s| => s[i] as int as U8)
  }
}
