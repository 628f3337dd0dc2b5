/** Shared vocabulary of the block codecs: bytes, the strategy tags of a
    compressed block, and the failures a decoder can report. */
module Blocks {

  /** One byte of a block; the source works on Python `bytes`. */
  type byte = b: int | 0 <= b < 256

  /** Strategy tags as stored in a compressed block. */
  const Raw: int := 0
  const RleTag: int := 1
  const DictTag: int := 2
  const DeltaTag: int := 3
  const HybridTag: int := 4

  /** The exceptions the decoders raise, as values. */
  datatype Error =
    | InvalidDictionaryIndex(index: int, size: nat)
    | HybridDecodeFailure(first: Error, second: Error)
    | UnknownStrategy(tag: int)

  datatype Result<T> = Ok(value: T) | Err(error: Error)

  /** `0x80 | b`: sets the literal flag. */
  function SetHigh(b: byte): (r: byte)
    ensures r >= 0x80 && r % 0x80 == b % 0x80
  {
    if b < 0x80 then b + 0x80 else b
  }

  /** `b & 0x80 != 0`: the literal flag is set. */
  predicate HighBit(b: byte) {
    b >= 0x80
  }

  /** `b & 0x7F`: the byte with its literal flag cleared. */
  function LowBits(b: byte): (r: byte)
    ensures r < 0x80
    ensures HighBit(b) ==> r == b - 0x80
    ensures !HighBit(b) ==> r == b
  {
    b % 0x80
  }

  /** All bytes of `s` have the high bit clear. */
  predicate AllBelow128(s: seq<byte>) {
    forall i :: 0 <= i < |s| ==> s[i] < 0x80
  }

  /** `[v] * n` */
  function Repeat(v: byte, n: nat): (r: seq<byte>)
    ensures |r| == n && forall i :: 0 <= i < n ==> r[i] == v
  {
    seq(n, _ => v)
  }
}
