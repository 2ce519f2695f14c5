/**
  The NaN-boxed value word of crates/starlight/src/vm/value.rs, kept as its
  raw 64 bits. Only the encodings the modelled code writes are named.
*/
module JsValues {
  import opened Bytes

  datatype JsValue = JsValue(bits: u64)

  /** `UNDEFINED_NULL_TAG`, the second tag after `FIRST_TAG` (0xfff9). */
  const UNDEFINED_NULL_TAG: int := 0xfff9 + 1

  /** `ExtendedTag::Undefined`: the tag doubled, one bit below the data bits. */
  const UNDEFINED_ETAG: int := UNDEFINED_NULL_TAG * 2

  /** `NUM_DATA_BITS`: the 48 payload bits below the 16 tag bits. */
  const NUM_DATA_BITS: nat := 48

  function Pow2(n: nat): (p: nat)
    ensures p > 0
  {
    if n == 0 then 1 else 2 * Pow2(n - 1)
  }

  /** `encode_undefined_value`: `new_extended(0, ExtendedTag::Undefined)`. */
  function EncodeUndefined(): (v: JsValue)
    ensures v.bits == 0xFFFA_0000_0000_0000
  {
    assert Pow2(NUM_DATA_BITS - 1) == 0x8000_0000_0000 by {
      assert Pow2(7) == 0x80;
      assert Pow2(15) == 0x8000 by { assert Pow2(8) == 0x100; }
      assert Pow2(31) == 0x8000_0000 by { assert Pow2(16) == 0x1_0000; assert Pow2(24) == 0x100_0000; }
      assert Pow2(47) == 0x8000_0000_0000 by { assert Pow2(32) == 0x1_0000_0000; assert Pow2(40) == 0x100_0000_0000; }
    }
    JsValue(UNDEFINED_ETAG * Pow2(NUM_DATA_BITS - 1))
  }

  /** The all-zero word `write_bytes(.., 0, ..)` leaves behind. */
  const ZERO: JsValue := JsValue(0)

  /** The boxed undefined is not the zero word. */
  lemma UndefinedIsNotZero()
    ensures EncodeUndefined() != ZERO
  {
  }
}
