/**
  Fixed-width integers and their little-endian byte encoding, as Rust's
  `to_le_bytes` writes them and an aligned native read on a little-endian
  machine reads them back.
*/
module Bytes {
  const TWO_8: int := 0x100
  const TWO_16: int := 0x1_0000
  const TWO_31: int := 0x8000_0000
  const TWO_32: int := 0x1_0000_0000
  const TWO_64: int := 0x1_0000_0000_0000_0000

  type byte = x: int | 0 <= x < TWO_8
  type u16 = x: int | 0 <= x < TWO_16
  type u32 = x: int | 0 <= x < TWO_32
  type u64 = x: int | 0 <= x < TWO_64

  /** `x as u16` for a non-negative integer: the low 16 bits. */
  function TruncU16(x: nat): (r: u16)
    ensures x < TWO_16 ==> r == x
  {
    x % TWO_16
  }

  /** `x as u32` (and any wrapping `i32`/`u32` arithmetic read as bits). */
  function WrapU32(x: int): (r: u32)
    ensures 0 <= x < TWO_32 ==> r == x
    ensures (r - x) % TWO_32 == 0
  {
    x % TWO_32
  }

  function LE16(x: u16): (bs: seq<byte>)
    ensures |bs| == 2
  {
    [x % TWO_8, x / TWO_8]
  }

  function LE32(x: u32): (bs: seq<byte>)
    ensures |bs| == 4
  {
    [x % TWO_8, (x / TWO_8) % TWO_8, (x / TWO_16) % TWO_8, x / 0x100_0000]
  }

  function FromLE16(bs: seq<byte>): u16
    requires |bs| == 2
  {
    bs[0] as int + TWO_8 * bs[1] as int
  }

  function FromLE32(bs: seq<byte>): u32
    requires |bs| == 4
  {
    bs[0] as int + TWO_8 * bs[1] as int + TWO_16 * bs[2] as int + 0x100_0000 * bs[3] as int
  }

  lemma LE16RoundTrip(x: u16)
    ensures FromLE16(LE16(x)) == x
  {
  }

  lemma LE32RoundTrip(x: u32)
    ensures FromLE32(LE32(x)) == x
  {
    assert x == x % TWO_8 + TWO_8 * (x / TWO_8);
    assert x / TWO_8 == (x / TWO_8) % TWO_8 + TWO_8 * (x / TWO_16);
    assert x / TWO_16 == (x / TWO_16) % TWO_8 + TWO_8 * (x / 0x100_0000);
  }

  /** Reading four bytes as a two's-complement `i32`. */
  function AsI32(x: u32): (i: int)
    ensures -TWO_31 <= i < TWO_31
    ensures WrapU32(i) == x
  {
    if x < TWO_31 then x else x - TWO_32
  }

  /** A signed offset in range survives the round trip through its bits. */
  lemma AsI32Wrap(i: int)
    requires -TWO_31 <= i < TWO_31
    ensures AsI32(WrapU32(i)) == i
  {
  }

  /** The operands an instruction carries, each as four little-endian bytes. */
  function EncodeOperands(xs: seq<u32>): (bs: seq<byte>)
    ensures |bs| == 4 * |xs|
  {
    if xs == [] then [] else LE32(xs[0]) + EncodeOperands(xs[1..])
  }

  /** The `n` four-byte operands at the front of `bs`. */
  function DecodeOperands(bs: seq<byte>, n: nat): (xs: seq<u32>)
    requires |bs| >= 4 * n
    ensures |xs| == n
  {
    if n == 0 then [] else [FromLE32(bs[..4])] + DecodeOperands(bs[4..], n - 1)
  }

  /** Decoding the encoded operands gives them back, whatever follows. */
  lemma {:induction false} DecodeEncodeOperands(xs: seq<u32>, rest: seq<byte>)
    ensures DecodeOperands(EncodeOperands(xs) + rest, |xs|) == xs
  {
    if xs != [] {
      var bs := EncodeOperands(xs) + rest;
      assert bs[..4] == LE32(xs[0]);
      assert bs[4..] == EncodeOperands(xs[1..]) + rest;
      LE32RoundTrip(xs[0]);
      DecodeEncodeOperands(xs[1..], rest);
    }
  }
}
