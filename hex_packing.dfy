/**
 * Packing of two i16 values into one i32 and back (`combine_hex` and
 * `split_hex`, src/utils.rs). Signed integers are held as their
 * two's-complement bit patterns: an i16 as a bv16 and an i32 as a bv32;
 * `I16` and `I32` give the values they stand for. The casts and shifts
 * the source applies are spelled out one by one.
 */
module HexPacking {

  /** The value an i16 bit pattern stands for. */
  function I16(b: bv16): int
  {
    if b < 0x8000 then b as int else b as int - 0x1_0000
  }

  /** The value an i32 bit pattern stands for. */
  function I32(b: bv32): int
  {
    if b < 0x8000_0000 then b as int else b as int - 0x1_0000_0000
  }

  /** `x as i32` for an i16: sign extension. */
  function Widen(x: bv16): bv32
  {
    if x & 0x8000 == 0 then x as bv32 else x as bv32 | 0xFFFF_0000
  }

  /** `x as i16` for an i32: the low 16 bits. */
  function Truncate(x: bv32): bv16
  {
    (x & 0xFFFF) as bv16
  }

  /** `x >> 16` on an i32: the shift is arithmetic, copying the sign bit. */
  function Asr16(x: bv32): bv32
  {
    if x & 0x8000_0000 == 0 then x >> 16 else !((!x) >> 16)
  }

  lemma WidenNonNegative(x: bv16)
    requires x & 0x8000 == 0
    ensures Widen(x) == x as bv32
  {}

  lemma WidenNegative(x: bv16)
    requires x & 0x8000 != 0
    ensures Widen(x) == x as bv32 | 0xFFFF_0000
  {}

  lemma HighBitsShiftOut(x: bv16)
    ensures ((x as bv32) | 0xFFFF_0000) << 16 == (x as bv32) << 16
  {}

  /** Shifting left by 16 discards the bits sign extension added. */
  lemma WidenShift(x: bv16)
    ensures Widen(x) << 16 == (x as bv32) << 16
  {
    if x & 0x8000 == 0 {
      WidenNonNegative(x);
    } else {
      WidenNegative(x);
      HighBitsShiftOut(x);
    }
  }

  /**
   * `combine_hex`: `((max as i32) << 16) | (min as u16 as i32)`.
   */
  function CombineHex(max: bv16, min: bv16): bv32
  {
    (Widen(max) << 16) | (min as bv32)
  }

  /** `split_hex`: `((combined >> 16) as i16, (combined & 0xFFFF) as i16)`. */
  function SplitHex(combined: bv32): (bv16, bv16)
  {
    (Truncate(Asr16(combined)), Truncate(combined & 0xFFFF))
  }

  /**
   * Whatever the signs, a packed value is max's 16 bits above min's 16 bits:
   * the sign extension of max is shifted out, and min is zero-extended.
   */
  lemma CombineHalves(max: bv16, min: bv16)
    ensures CombineHex(max, min) == ((max as bv32) << 16) | (min as bv32)
    ensures CombineHex(max, min) >> 16 == max as bv32
    ensures CombineHex(max, min) & 0xFFFF == min as bv32
  {
    WidenShift(max);
  }

  lemma AsrLowNonNegative(x: bv32)
    requires x & 0x8000_0000 == 0
    ensures (x >> 16) & 0xFFFF == x >> 16
  {}

  lemma AsrLowNegative(x: bv32)
    requires x & 0x8000_0000 != 0
    ensures !((!x) >> 16) & 0xFFFF == x >> 16
  {}

  /** The low 16 bits of the arithmetic shift are the upper half, whatever the sign. */
  lemma AsrLow(x: bv32)
    ensures Asr16(x) & 0xFFFF == x >> 16
  {
    if x & 0x8000_0000 == 0 {
      AsrLowNonNegative(x);
    } else {
      AsrLowNegative(x);
    }
  }

  /** `split_hex` yields the upper and the lower 16 bits. */
  lemma SplitHalves(c: bv32)
    ensures SplitHex(c).0 as bv32 == c >> 16
    ensures SplitHex(c).1 as bv32 == c & 0xFFFF
  {
    AsrLow(c);
  }

  /** Splitting a packed pair gives the pair back. */
  lemma SplitCombine(max: bv16, min: bv16)
    ensures SplitHex(CombineHex(max, min)) == (max, min)
  {
    CombineHalves(max, min);
    AsrLow(CombineHex(max, min));
  }

  /** Packing the halves of a value gives the value back. */
  lemma CombineSplit(c: bv32)
    ensures CombineHex(SplitHex(c).0, SplitHex(c).1) == c
  {
    SplitHalves(c);
    CombineHalves(SplitHex(c).0, SplitHex(c).1);
  }

  /** A packed value is negative exactly when max is; min's sign never reaches the upper half. */
  lemma CombineSign(max: bv16, min: bv16)
    ensures I32(CombineHex(max, min)) < 0 <==> I16(max) < 0
  {
    CombineHalves(max, min);
  }

  /** The first half of a split is negative exactly when the value is. */
  lemma SplitSign(c: bv32)
    ensures I16(SplitHex(c).0) < 0 <==> I32(c) < 0
  {
    SplitHalves(c);
  }
}
