# BuildLimitChanger signature locator — a verified Dafny model

BuildLimitChanger is a mod loaded into the game's process. At start-up it
finds one function of the game's code and hooks it. It has no symbols to go on. Instead:

1. It looks for the marker string `"A dimension task group"`, NUL-terminated,
   in the module's data sections (`.rodata`, `.rdata`, `.data`). The sections
   are taken in the order the module lists them, and the first hit wins.
2. It scans the first `.text` section for the first function that computes
   that string's address. On AArch64 this is a word-by-word decoder of
   ADRP/ADD pairs between a prologue (`STP x29, x30, [sp, #imm]!` or
   `SUB sp, sp, #imm`) and a `RET`. On x86 it is a three-state machine over
   the decoded instructions, running from a one-operand `push` to a `ret`.
3. It hooks that function.

Alongside these sits a small utility that packs two `i16` values into one
`i32` and splits them apart again (`combine_hex`, `split_hex`).

The model follows the source component by component. The three parts of
src/searcher.rs (the AArch64 resolver, with its word classifier as a module
of its own, the x86 resolver and the string locator) and the two other
components each have a module. `Bytes` and `Wrappers` are support modules
with no source file of their own.

| file | module | form |
|---|---|---|
| `bytes.dfy` | `Bytes` | byte slices, the little-endian word read, `base + offset` addresses |
| `wrappers.dfy` | `Wrappers` | `Option`, `Result` and `Result::ok` |
| `a64_decode.dfy` | `A64Decode` | the five instruction templates, tied to the A64 encoding fields (Arm Architecture Reference Manual for A-profile, section C6.2) |
| `a64_resolver.dfy` | `A64Resolver` | the AArch64 `find_fn_string_refs`: the state machine as a function, the source's `while` loop as a method proved to compute it, and what the machine finds |
| `x86_resolver.dfy` | `X86Resolver` | the x86 `find_fn_string_refs` in the same shape, over the decoder's instruction stream |
| `string_locator.dfy` | `StringLocator` | `get_string_addr`: a first-occurrence specification and the search loop |
| `pipeline.dfy` | `Pipeline` | the selection chain in `init` (`filter`/`find_map`/`find`/`and_then`) |
| `hex_packing.dfy` | `HexPacking` | `combine_hex` and `split_hex` on two's-complement bit patterns |

Representation choices:

- Addresses are `bv64`. `base + offset as u64` is a wrapping 64-bit
  addition, and `AddressAt` spells it out.
- A byte slice is a byte sequence no longer than `isize::MAX`.
- Signed integers are held as their bit patterns. `I16` and `I32` give the
  values those patterns stand for.

The resolvers and the string locator are loops that update local state.
Each is a `method` with a `while` loop, and its postcondition equates the
result with a specification function (`Scan`, `StringAddr`). Lemmas then
characterise those functions declaratively. They say exactly which
"function" in the code is found, or which occurrence of the string.

The selection chain and the packing utility are expression code and are
modelled as functions and lemmas. All of these are functions of their
inputs, so the same sections always give the same outcome.

In three places the code departs from the usual reading of what it looks
for: the customary `stp x29, x30, [sp, #-16]!` prologue, a priority among
section names, and the `ADD ..., LSL #12` form. The model follows the code:

- The AArch64 prologue test accepts `STP x29, x30, [sp, #imm]!` with any
  7-bit offset, not only `#-16`. The mask at src/searcher.rs:25 leaves imm7
  free (`A64Decode.MatchesStp`).
- The data sections are consulted in the order the module lists them, with
  the three names only as a filter. No name is preferred over another
  (src/lib.rs:18-20, `Pipeline.FindStringAddrIsFirstHit`).
- The ADD template at src/searcher.rs:17 also fixes bits 23:22. So the
  `LSL #12` branch at src/searcher.rs:21 can never be taken, and the model
  proves it (`A64Decode.AddOffset`, `A64Decode.DecodeAdd`).

## Model

| member | source | states |
|---|---|---|
| Bytes.WordAt | src/searcher.rs:8 | the unaligned little-endian u32 read at byte o: byte o+k supplies bits 8k+7..8k |
| Wrappers.ToOption | src/lib.rs:24 | `Result::ok`: `Some` exactly for `Ok`, carrying its value |
| A64Decode.MatchesAdrp | src/searcher.rs:14 | the ADRP mask accepts exactly the ADRP encodings (op = 1, bits 28:24 = 10000) |
| A64Decode.MatchesAdd | src/searcher.rs:17 | the ADD mask accepts exactly the 64-bit ADD (immediate) encodings whose shift field is 0 |
| A64Decode.MatchesStp | src/searcher.rs:25 | the STP mask accepts exactly `STP x29, x30, [sp, #imm]!` (64-bit, pre-index) for every imm7 |
| A64Decode.MatchesSub | src/searcher.rs:25 | the SUB mask accepts exactly the unshifted `SUB sp, sp, #imm12` |
| A64Decode.ImmHiLo | src/searcher.rs:15 | the ADRP immediate `immhi:immlo` is below 2^21, its low two bits are immlo (word bits 30:29) and its bits 20:2 are immhi (word bits 23:5) |
| A64Decode.ShiftPairIsScaledOffset | src/searcher.rs:16 | `(imm << 43) >> 31` on an i64 is the 21-bit immediate sign-extended and multiplied by 4096 |
| A64Decode.AddOffset | src/searcher.rs:20-21 | for every word the ADD mask accepts, the added immediate is imm12 (< 4096): the shifted branch never fires |
| A64Decode.RetIsNoOtherTemplate | src/searcher.rs:11-25 | the RET word fits none of the other four templates |
| A64Decode.AdrpIsNoOtherTemplate | src/searcher.rs:14-25 | an ADRP encoding fits neither the ADD nor a prologue template |
| A64Decode.AddIsNoPrologue | src/searcher.rs:17-25 | an ADD (immediate) encoding fits no prologue template |
| A64Decode.DecodeRet | src/searcher.rs:11 | a word is classified RET exactly when it is 0xD65F03C0 |
| A64Decode.DecodeAdrp | src/searcher.rs:14-16 | a word is classified ADRP exactly when it is an ADRP encoding; the register is Rd and the page is `(ip & !0xFFF)` wrapping-plus the shifted immediate, so it is 4096-aligned |
| A64Decode.DecodeAdd | src/searcher.rs:17-21 | a word is classified ADD exactly when it is an unshifted 64-bit ADD (immediate); it carries Rd, Rn and imm12 |
| A64Decode.DecodePrologue | src/searcher.rs:25 | a word is classified as a prologue exactly when it is the frame-pointer STP (any offset) or `SUB sp, sp, #imm12` |
| A64Resolver.FetchIsRet | src/searcher.rs:8-11 | the word read at byte `offset` is taken for RET exactly when the four bytes there are C0 03 5F D6, the little-endian layout of 0xD65F03C0 |
| A64Resolver.DecodedFrom | src/searcher.rs:7 | reading on from word j covers whole words only, leaving fewer than four bytes |
| A64Resolver.Decoded | src/searcher.rs:7 | the loop reads exactly `len / 4` words |
| A64Resolver.DecodedAt | src/searcher.rs:7-9 | word i of the decoded sequence is the word fetched at byte offset 4i |
| A64Resolver.Run | src/searcher.rs:7-31 | the machine returns only while processing a RET word |
| A64Resolver.FindFnStringRefs | src/searcher.rs:2-32 | the source's loop returns what the state machine `Scan` computes, on every input |
| A64Resolver.AdvanceKeepsInv | src/searcher.rs:11-28 | every step that does not return keeps the meaning of the state: a candidate start is the address of the first prologue since the last RET, with no RET since; a set flag means an ADRP+ADD pair for the target followed that prologue; a pending ADRP is the previous word |
| A64Resolver.AdvanceReturnSound | src/searcher.rs:11-12 | a returning RET closes a function that refers to the target, and returns its prologue's address |
| A64Resolver.RunSound | src/searcher.rs:7-31 | from a state meaning what it should, whatever the scan returns is the prologue address of the earliest-starting function that refers to the target and ends at the RET where the scan stops |
| A64Resolver.RunReaches | src/searcher.rs:7-31 | from a state on track for a function referring to the target that ends at word r, the scan returns at r or earlier |
| A64Resolver.RunFindsFirstFunction | src/searcher.rs:2-32 | the machine returns exactly when some function (prologue, no RET before its own, an ADRP+ADD forming the target inside) exists, and then with the first such function's prologue address |
| A64Resolver.ScanFindsFirstFunction | src/searcher.rs:2-32 | on a code section: `Ok` exactly when some such function exists, and then `Ok(base_ip + 4o)` for the first one's prologue word o |
| A64Resolver.ScanIgnoresTrailingBytes | src/searcher.rs:7-8 | bytes after the last whole word never change the result |
| X86Resolver.Run | src/searcher.rs:50-72 | the machine returns only while processing a `ret` |
| X86Resolver.FindFnStringRefs | src/searcher.rs:36-73 | the source's loop returns what the state machine `Scan` computes, on every instruction stream |
| X86Resolver.StartsAreSeparated | src/searcher.rs:54-64 | two function starts with no `ret` between them are the same: a second `push` in state 1 does not move the start |
| X86Resolver.SeekingStepKeepsInv | src/searcher.rs:54-58 | a step in state 0 never returns and keeps the state's meaning |
| X86Resolver.OpenStepKeepsInv | src/searcher.rs:59-69 | a non-returning step in state 1 or 2 keeps the state's meaning: `ret` in state 1 closes the function, a displacement equal to the target moves to state 2 |
| X86Resolver.AdvanceKeepsInv | src/searcher.rs:54-69 | every step that does not return keeps the meaning of the state |
| X86Resolver.AdvanceReturnSound | src/searcher.rs:65-68 | a `ret` in state 2 closes a function that refers to the target and returns its `push` address |
| X86Resolver.RunSound | src/searcher.rs:50-72 | whatever the scan returns is the start of a function ending where it stops, with no function ending earlier; exhaustion means there is no function at all |
| X86Resolver.ScanFindsFirstFunction | src/searcher.rs:36-73 | `Ok` exactly when some function (one-operand `push`, target displacement, then `ret`, no `ret` between) exists, and then the `ip` of the `push` of the one ending first, whose start is unique |
| StringLocator.NulTerminated | src/searcher.rs:77-79 | the pattern is the text followed by one 0 byte |
| StringLocator.FirstFrom | src/searcher.rs:80-81 | the search from `from` yields the first occurrence at or after `from`, or none when there is none |
| StringLocator.First | src/searcher.rs:80-81 | the first occurrence exists exactly when any occurrence does, and no occurrence precedes it |
| StringLocator.GetStringAddr | src/searcher.rs:75-83 | the source's search returns what `StringAddr` specifies |
| StringLocator.OccursAtNulTerminated | src/searcher.rs:77-80 | an occurrence of the pattern is the text with a 0 byte right after it |
| StringLocator.StringAddrIsFirstOccurrence | src/searcher.rs:75-83 | `Some(base_va + p)` exactly when the NUL-terminated text occurs, with p the smallest such offset; `None` exactly when none does |
| HexPacking.CombineHalves | src/utils.rs:1-3 | `combine_hex(max, min)` is max's 16 bits above min's 16 bits: the upper half is max, the lower half is min zero-extended, whatever the signs |
| HexPacking.SplitHalves | src/utils.rs:5-7 | `split_hex(c)` yields c's upper 16 bits (through the arithmetic shift) and its lower 16 bits |
| HexPacking.SplitCombine | src/utils.rs:1-7 | `split_hex(combine_hex(max, min)) == (max, min)` for all i16 pairs |
| HexPacking.CombineSplit | src/utils.rs:1-7 | `combine_hex(split_hex(c).0, split_hex(c).1) == c` for every i32 |
| HexPacking.CombineSign | src/utils.rs:2 | the packed value is negative exactly when max is |
| HexPacking.SplitSign | src/utils.rs:6 | the first half of a split is negative exactly when the value is |
| HexPacking.AsrLow | src/utils.rs:6 | the low 16 bits of the arithmetic shift by 16 are the upper half, for either sign |
| HexPacking.WidenShift | src/utils.rs:2 | shifting the sign-extended i16 left by 16 loses every extension bit |
| Pipeline.FindMap | src/lib.rs:20 | `find_map` yields a value exactly when some element yields one |
| Pipeline.FindMapIsFirst | src/lib.rs:20 | that value is the one yielded by the first element that yields anything |
| Pipeline.FindMapSkips | src/lib.rs:19-20 | an element that yields nothing can be inserted anywhere without changing the result |
| Pipeline.LocateHits | src/lib.rs:19-20 | a section contributes an address exactly when it is named `.rodata`, `.rdata` or `.data` and holds the NUL-terminated text, and that address is its `addr` plus the first occurrence's offset |
| Pipeline.FindStringAddrIsFirstHit | src/lib.rs:18-20 | the string address exists exactly when some data section holds the text, and is the first such section (in enumeration order) `addr` plus the in-section offset of the first occurrence |
| Pipeline.OtherSectionsIgnored | src/lib.rs:19 | a section with any other name, inserted anywhere, never changes the string address |
| Pipeline.FindTextIsFirst | src/lib.rs:24 | the `.text` lookup succeeds exactly when a section has that name, and yields the first one |
| Pipeline.FirstTextUnique | src/lib.rs:24 | the first `.text` section is unique and is the one the lookup yields |
| Pipeline.InitFindsString | src/lib.rs:18-29 | `init` reports a missing string exactly when no data section holds it; otherwise it goes on with the first hit's address |
| Pipeline.InitHooksResolved | src/lib.rs:22-26 | with the string found, `init` hooks exactly when the first `.text` section exists and the resolver, run on it with its `addr` as base, answers `Ok`; it hooks that answer, and otherwise does nothing |
| Pipeline.InitHooksFirstA64Function | src/lib.rs:22-25 | on AArch64, `init` hooks exactly when the first `.text` section holds a function computing the string's address, and hooks `addr + 4o` for the first such function's prologue o |
| Pipeline.InitHooksFirstX86Function | src/lib.rs:22-25 | on x86, `init` hooks exactly when the decoded first `.text` section holds a function referring to the string's address, and hooks the `push` address of the one ending first |

## Left out

- Reading the module's sections (src/sections.rs: the `dl_iterate_phdr`/`dlopen` walk, ELF and PE parsing, raw memory views): sections are an input `(name, addr, bytes)`. src/sections.rs is not part of this model. A failure of `get_sections`, which makes `init` panic, is likewise not modelled.
- The x86 instruction decoder (`iced_x86`, src/searcher.rs:37-51) is a foreign library. `X86Resolver` takes the decoder's output as a given sequence of `(ip, mnemonic, op_count, displacement)` records. In `Pipeline` the decoder is a function parameter of `Arch.X86`, so nothing is claimed about how bytes decode.
- The 32-bit x86 build (`BITNESS = 32`, usize of 32 bits) is not modelled separately: addresses are 64-bit throughout.
- `memchr::memmem` is not modelled. `get_string_addr` is specified by its first-occurrence result and carried out by a plain left-to-right comparison.
- Logging, timing (`Instant`), config and logger set-up, the ctor/`mod_init`/`JNI_OnLoad` entry points and the Android JNI helpers (src/lib.rs:14, 23, 28, 31, 34-67; src/utils.rs:9-73) are I/O glue.
- `hook::setup_hook` is represented by the `Hook` outcome. Its `try_into().unwrap()` (a panic if the address does not fit a 32-bit `usize`) is not modelled.
- Bytes.AddressAt: `base + offset as u64` is modelled as a wrapping 64-bit addition, as a release build computes it. A debug build panics on overflow instead.
- Bytes.U64: `offset as u64` is defined from the binary digits of the offset. No lemma relates it to `offset mod 2^64`.
- Pipeline.STR_VAL: the marker string is written as its 22 ASCII bytes. The correspondence with the characters of `"A dimension task group"` is by construction, not proved.
- HexPacking.CombineHalves: the packing lemmas are stated on bit patterns and signs. The integer identity `combine_hex(max, min) == max * 65536 + (min mod 65536)` is not proved.
