/**
 * The AArch64 word classifier of the function resolver
 * (`find_fn_string_refs`, aarch64 variant): each 32-bit instruction word is
 * compared against five fixed templates, in this order: RET, ADRP,
 * ADD (immediate, 64-bit), and the two prologue forms
 * STP x29, x30, [sp, #imm]! and SUB sp, sp, #imm. Anything else is opaque.
 *
 * Every template test is also related to the A64 encoding fields it stands
 * for (Arm Architecture Reference Manual for A-profile, section C6.2), so
 * the contracts say what the masks recognise, not only how they are written.
 */
module A64Decode {

  // The templates exactly as the resolver writes them.
  const RET_X30: bv32 := 0xD65F_03C0
  const ADRP_MASK: bv32 := 0x9F00_0000
  const ADRP_BITS: bv32 := 0x9000_0000
  const ADD_MASK: bv32 := 0xFFC0_0000
  const ADD_BITS: bv32 := 0x9100_0000
  const STP_MASK: bv32 := 0xFFC0_7FFF
  const STP_BITS: bv32 := 0xA980_7BFD
  const SUB_MASK: bv32 := 0xFFC0_03FF
  const SUB_BITS: bv32 := 0xD100_03FF

  /**
   * What the resolver makes of one word; a register is its number 0..31.
   * Addresses and immediates have type `A` (bv64 for decoded words), so the
   * resolver's reasoning does not depend on how addresses are represented.
   */
  datatype Insn<A> =
    | Ret
    | Adrp(rd: bv32, page: A)
    | AddImm(rd: bv32, rn: bv32, imm: A)
    | Prologue
    | Other

  // ---- Encoding fields (names from the Arm encoding diagrams) ----

  /** Rd (or Rt), bits 4:0. */
  function Rd(w: bv32): bv32 { w & 0x1F }

  /** Rn, bits 9:5. */
  function Rn(w: bv32): bv32 { (w >> 5) & 0x1F }

  /** Rt2, bits 14:10. */
  function Rt2(w: bv32): bv32 { (w >> 10) & 0x1F }

  /** sh, bit 22: whether an immediate add/sub shifts its imm12 left by 12. */
  function Sh(w: bv32): bv32 { (w >> 22) & 1 }

  /** imm12, bits 21:10. */
  function Imm12(w: bv32): bv32 { (w >> 10) & 0xFFF }

  /** ADRP: op (bit 31) = 1 and bits 28:24 = 10000. */
  predicate IsAdrpClass(w: bv32) { w >> 31 == 1 && (w >> 24) & 0x1F == 0x10 }

  /** ADD (immediate), 64-bit: sf:op:S = 100 and bits 28:23 = 100010. */
  predicate IsAddImm64Class(w: bv32) { w >> 29 == 4 && (w >> 23) & 0x3F == 0x22 }

  /** SUB (immediate), 64-bit: sf:op:S = 110 and bits 28:23 = 100010. */
  predicate IsSubImm64Class(w: bv32) { w >> 29 == 6 && (w >> 23) & 0x3F == 0x22 }

  /** STP (64-bit registers), pre-index: bits 31:22 = 1010100110; imm7 is free. */
  predicate IsStpPreIndex64Class(w: bv32) { w >> 22 == 0x2A6 }

  /** STP x29, x30, [sp, #imm]! for any imm7. */
  predicate IsFramePush(w: bv32) { IsStpPreIndex64Class(w) && Rd(w) == 29 && Rn(w) == 31 && Rt2(w) == 30 }

  /** SUB sp, sp, #imm12 without the LSL #12 shift. */
  predicate IsStackAlloc(w: bv32) { IsSubImm64Class(w) && Sh(w) == 0 && Rd(w) == 31 && Rn(w) == 31 }

  // ---- The template tests ----

  predicate MatchesAdrp(w: bv32)
    ensures MatchesAdrp(w) <==> IsAdrpClass(w)
  {
    w & ADRP_MASK == ADRP_BITS
  }

  /** The ADD mask also fixes bits 23:22, so it accepts only the unshifted form. */
  predicate MatchesAdd(w: bv32)
    ensures MatchesAdd(w) <==> IsAddImm64Class(w) && Sh(w) == 0
  {
    w & ADD_MASK == ADD_BITS
  }

  predicate MatchesStp(w: bv32)
    ensures MatchesStp(w) <==> IsFramePush(w)
  {
    w & STP_MASK == STP_BITS
  }

  predicate MatchesSub(w: bv32)
    ensures MatchesSub(w) <==> IsStackAlloc(w)
  {
    w & SUB_MASK == SUB_BITS
  }

  // ---- ADRP arithmetic ----

  /** immhi:immlo, the 21-bit page immediate, zero-extended (the source's `imm`). */
  function ImmHiLo(w: bv32): (imm: bv64)
    ensures imm < 0x20_0000
    ensures imm & 3 == ((w >> 29) & 3) as bv64
    ensures imm >> 2 == ((w >> 5) & 0x7FFFF) as bv64
  {
    ((((w >> 5) & 0x7FFFF) << 2) | ((w >> 29) & 3)) as bv64
  }

  /** Arithmetic shift right by 31 of an i64 held as its bit pattern. */
  function Asr31(x: bv64): bv64
  {
    if x & 0x8000_0000_0000_0000 == 0 then x >> 31 else !((!x) >> 31)
  }

  /** Two's-complement sign extension of a 21-bit value to 64 bits. */
  function SignExtend21(x: bv64): bv64
  {
    if x & 0x10_0000 == 0 then x else x | 0xFFFF_FFFF_FFE0_0000
  }

  /** The source's `(imm << 43) >> 31` on an i64. */
  function ShiftPair(imm: bv64): bv64
  {
    Asr31(imm << 43)
  }

  /** A 21-bit page offset, sign-extended and scaled by 4096. */
  function ScaledOffset(imm: bv64): bv64
  {
    SignExtend21(imm) << 12
  }

  lemma ShiftPairPositive(imm: bv64)
    requires imm < 0x20_0000 && imm & 0x10_0000 == 0
    ensures (imm << 43) & 0x8000_0000_0000_0000 == 0 && (imm << 43) >> 31 == imm << 12
  {}

  lemma ShiftPairNegative(imm: bv64)
    requires imm < 0x20_0000 && imm & 0x10_0000 != 0
    ensures (imm << 43) & 0x8000_0000_0000_0000 != 0
    ensures !((!(imm << 43)) >> 31) == (imm | 0xFFFF_FFFF_FFE0_0000) << 12
  {}

  /** The shift pair on a 21-bit immediate is its sign extension scaled by 4096. */
  lemma ShiftPairIsScaledOffset(imm: bv64)
    requires imm < 0x20_0000
    ensures ShiftPair(imm) == ScaledOffset(imm)
  {
    if imm & 0x10_0000 == 0 {
      ShiftPairPositive(imm);
    } else {
      ShiftPairNegative(imm);
    }
  }

  /**
   * The page ADRP writes, as the source computes it from the immediate:
   * `(ip & !0xFFF).wrapping_add(((imm << 43) >> 31) as u64)`; by
   * `ShiftPairIsScaledOffset` the added term is the sign-extended
   * immediate times 4096.
   */
  function PageOf(ip: bv64, imm: bv64): bv64
  {
    (ip & !0xFFF) + ShiftPair(imm)
  }

  /**
   * The immediate an ADD contributes: imm12, shifted left by 12 when bits
   * 23:22 read 01. For a word the ADD template accepts, bits 23:22 are 00,
   * so the shifted form never arises.
   */
  function AddOffset(w: bv32): (imm: bv64)
    ensures MatchesAdd(w) ==> imm == Imm12(w) as bv64 && imm < 0x1000
  {
    var imm12 := (w >> 10) & 0xFFF;
    (if (w >> 22) & 3 == 1 then imm12 << 12 else imm12) as bv64
  }

  // ---- Disjointness of the templates ----

  lemma RetIsNoOtherTemplate()
    ensures !IsAdrpClass(RET_X30) && !IsAddImm64Class(RET_X30)
    ensures !IsFramePush(RET_X30) && !IsStackAlloc(RET_X30)
  {}

  lemma AdrpIsNoOtherTemplate(w: bv32)
    requires IsAdrpClass(w)
    ensures !IsAddImm64Class(w) && !IsFramePush(w) && !IsStackAlloc(w)
  {}

  lemma AddIsNoPrologue(w: bv32)
    requires IsAddImm64Class(w)
    ensures !IsFramePush(w) && !IsStackAlloc(w)
  {}

  /** Classifies a word fetched at address `ip`, testing the templates in the source's order. */
  function Decode(w: bv32, ip: bv64): Insn<bv64>
  {
    if w == RET_X30 then Ret
    else if MatchesAdrp(w) then Adrp(w & 0x1F, PageOf(ip, ImmHiLo(w)))
    else if MatchesAdd(w) then AddImm(w & 0x1F, (w >> 5) & 0x1F, AddOffset(w))
    else if MatchesStp(w) || MatchesSub(w) then Prologue
    else Other
  }

  /** RET is recognised by its one encoding, RET x30. */
  lemma DecodeRet(w: bv32, ip: bv64)
    ensures Decode(w, ip).Ret? <==> w == RET_X30
  {
    RetIsNoOtherTemplate();
  }

  /** Every ADRP encoding is recognised, with Rd as its register and the page-aligned address `PageOf` computes. */
  lemma DecodeAdrp(w: bv32, ip: bv64)
    ensures Decode(w, ip).Adrp? <==> IsAdrpClass(w)
    ensures Decode(w, ip).Adrp? ==> Decode(w, ip) == Adrp(Rd(w), PageOf(ip, ImmHiLo(w)))
    ensures Decode(w, ip).Adrp? ==> Decode(w, ip).page & 0xFFF == 0
  {
    RetIsNoOtherTemplate();
  }

  /** Only the unshifted 64-bit ADD (immediate) is recognised, and it contributes exactly imm12. */
  lemma DecodeAdd(w: bv32, ip: bv64)
    ensures Decode(w, ip).AddImm? <==> IsAddImm64Class(w) && Sh(w) == 0
    ensures Decode(w, ip).AddImm? ==>
      Decode(w, ip).rd == Rd(w) && Decode(w, ip).rn == Rn(w) && Decode(w, ip).imm == Imm12(w) as bv64
  {
    RetIsNoOtherTemplate();
    if IsAdrpClass(w) {
      AdrpIsNoOtherTemplate(w);
    }
  }

  /** A prologue is STP x29, x30, [sp, #imm]! with any imm7, or SUB sp, sp, #imm12. */
  lemma DecodePrologue(w: bv32, ip: bv64)
    ensures Decode(w, ip).Prologue? <==> IsFramePush(w) || IsStackAlloc(w)
  {
    RetIsNoOtherTemplate();
    if IsAdrpClass(w) {
      AdrpIsNoOtherTemplate(w);
    } else if IsAddImm64Class(w) {
      AddIsNoPrologue(w);
    }
  }
}
