/**
 * Byte slices as the locator sees them, the little-endian 32-bit word read,
 * and addresses inside a loaded section.
 */
module Bytes {

  type byte = bv8

  /** A Rust slice never spans more than isize::MAX bytes. */
  const MAX_SLICE_LEN: nat := 0x7FFF_FFFF_FFFF_FFFF

  /** A `&[u8]` view: a finite byte sequence within the slice length bound. */
  type ByteSlice = s: seq<byte> | |s| <= MAX_SLICE_LEN witness []

  /** The unaligned little-endian u32 read at `o`: byte `o + k` becomes bits 8k+7..8k. */
  function WordAt(code: seq<byte>, o: nat): (w: bv32)
    requires o + 4 <= |code|
    ensures w & 0xFF == code[o] as bv32
    ensures (w >> 8) & 0xFF == code[o + 1] as bv32
    ensures (w >> 16) & 0xFF == code[o + 2] as bv32
    ensures w >> 24 == code[o + 3] as bv32
  {
    code[o] as bv32 | (code[o + 1] as bv32 << 8) | (code[o + 2] as bv32 << 16) | (code[o + 3] as bv32 << 24)
  }

  /** `n as u64`: the low 64 bits of n, built from its binary digits. */
  function U64(n: nat): bv64
    decreases n
  {
    if n == 0 then 0
    else if n % 2 == 0 then U64(n / 2) << 1
    else (U64(n / 2) << 1) | 1
  }

  /** `base + offset as u64`, wrapping as a release build does. */
  function AddressAt(base: bv64, offset: nat): bv64
  {
    base + U64(offset)
  }
}
