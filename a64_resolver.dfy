/**
 * The AArch64 function resolver (`find_fn_string_refs`, aarch64 variant,
 * src/searcher.rs). It walks a code section in whole 4-byte words and keeps
 * three pieces of state: the start of the candidate function (set by a
 * prologue when none is active), whether the target address was computed
 * since then, and the register/page of an ADRP that the very next
 * instruction may complete with an ADD.
 *
 * `Run` is the state machine as a function over the decoded words, and
 * `FindFnStringRefs` is the source's loop, proved to compute it.
 * `RunFindsFirstFunction` then says what the machine finds, in terms of
 * the words alone: the earliest-ending function that starts with a
 * prologue, has no RET before its own, and contains an ADRP+ADD pair that
 * forms the target; of the functions ending there, the earliest start.
 *
 * The machine is generic in the address type `A` and takes the address
 * addition `add` as a parameter; the resolver itself uses bv64 with
 * wrapping addition (`WrappingAdd`).
 */
module A64Resolver {
  import opened Wrappers
  import opened Bytes
  import opened A64Decode

  const NOT_FOUND: string := "Failed to find references"

  /** `u64::wrapping_add`. */
  function WrappingAdd(x: bv64, y: bv64): bv64
  {
    x + y
  }

  /** A decoded word and the address it was fetched from. */
  datatype Word<A> = Word(insn: Insn<A>, ip: A)

  /** The word the loop reads at byte `offset`: `ip = base_ip + offset`, the word read little-endian. */
  function Fetch(code: ByteSlice, base: bv64, offset: nat): Word<bv64>
    requires offset + 4 <= |code|
  {
    var ip := AddressAt(base, offset);
    Word(Decode(WordAt(code, offset), ip), ip)
  }

  /** The loop's RET test, in terms of the code bytes: the four bytes C0 03 5F D6 of `RET`, in memory order. */
  lemma FetchIsRet(code: ByteSlice, base: bv64, offset: nat)
    requires offset + 4 <= |code|
    ensures Fetch(code, base, offset).insn.Ret? <==> code[offset..offset + 4] == [0xC0, 0x03, 0x5F, 0xD6]
  {
    var w := WordAt(code, offset);
    DecodeRet(w, AddressAt(base, offset));
    if code[offset..offset + 4] == [0xC0, 0x03, 0x5F, 0xD6] {
      assert code[offset] == 0xC0 && code[offset + 1] == 0x03 && code[offset + 2] == 0x5F && code[offset + 3] == 0xD6;
      RetBytes(w);
    }
  }

  /** A word whose little-endian bytes are C0 03 5F D6 is RET x30. */
  lemma RetBytes(w: bv32)
    requires w & 0xFF == 0xC0 && (w >> 8) & 0xFF == 0x03 && (w >> 16) & 0xFF == 0x5F && w >> 24 == 0xD6
    ensures w == RET_X30
  {}

  /** The words the loop reads from byte offset 4j on; a trailing partial word is not read. */
  function DecodedFrom(code: ByteSlice, base: bv64, j: nat): (ds: seq<Word<bv64>>)
    requires 4 * j <= |code|
    decreases |code| - 4 * j
    ensures 4 * (j + |ds|) <= |code| < 4 * (j + |ds|) + 4
  {
    if 4 * j + 4 <= |code| then [Fetch(code, base, 4 * j)] + DecodedFrom(code, base, j + 1) else []
  }

  /** The words the loop reads, decoded: word i is the one fetched at byte offset 4i. */
  function Decoded(code: ByteSlice, base: bv64): (ds: seq<Word<bv64>>)
    ensures |ds| == |code| / 4
  {
    DecodedFrom(code, base, 0)
  }

  lemma {:induction false} DecodedFromAt(code: ByteSlice, base: bv64, j: nat, i: nat)
    requires 4 * j <= |code| && j <= i && 4 * i + 4 <= |code|
    decreases i - j
    ensures i - j < |DecodedFrom(code, base, j)| && 0 < |DecodedFrom(code, base, i)|
    ensures DecodedFrom(code, base, j)[i - j] == DecodedFrom(code, base, i)[0]
  {
    if j < i {
      DecodedFromAt(code, base, j + 1, i);
      var rest := DecodedFrom(code, base, j + 1);
      assert DecodedFrom(code, base, j) == [Fetch(code, base, 4 * j)] + rest;
      assert DecodedFrom(code, base, j)[i - j] == rest[i - (j + 1)];
    }
  }

  /** Word i of the decoded code is the one fetched at byte offset 4i. */
  lemma DecodedAt(code: ByteSlice, base: bv64, i: nat)
    requires i < |Decoded(code, base)| || 4 * i + 4 <= |code|
    ensures i < |Decoded(code, base)| && 4 * i + 4 <= |code|
    ensures Decoded(code, base)[i] == Fetch(code, base, 4 * i)
  {
    DecodedFromAt(code, base, 0, i);
    assert DecodedFrom(code, base, i)[0] == Fetch(code, base, 4 * i);
  }

  /** An ADRP waiting for its ADD: the register it wrote and the page it computed. */
  datatype Pending<A> = Pending(rd: bv32, page: A)

  /** The loop's variables `current_fn`, `found_target` and `last_adrp`. */
  datatype ScanState<A> = ScanState(currentFn: Option<A>, foundTarget: bool, lastAdrp: Option<Pending<A>>)

  /** The state before the first word and after every RET that does not return. */
  function Start<A>(): ScanState<A>
  {
    ScanState(None, false, None)
  }

  datatype StepResult<A> = Return(fn: A) | Continue(next: ScanState<A>)

  /** One iteration of the loop body on a decoded word. */
  function Advance<A(==)>(st: ScanState<A>, w: Word<A>, add: (A, A) -> A, target: A): StepResult<A>
  {
    match w.insn
    case Ret =>
      if st.foundTarget && st.currentFn.Some? then Return(st.currentFn.value) else Continue(Start())
    case Adrp(rd, page) =>
      Continue(st.(lastAdrp := Some(Pending(rd, page))))
    case AddImm(rd, rn, imm) =>
      var hit := st.lastAdrp.Some? && rd == st.lastAdrp.value.rd && rn == st.lastAdrp.value.rd
                 && add(st.lastAdrp.value.page, imm) == target;
      Continue(ScanState(st.currentFn, st.foundTarget || hit, None))
    case Prologue =>
      if st.currentFn.None? then Continue(ScanState(Some(w.ip), false, None))
      else Continue(st.(lastAdrp := None))
    case Other =>
      Continue(st.(lastAdrp := None))
  }

  /** Where the scan stopped: at the RET of word `at`, returning `fn`, or at the end of the code. */
  datatype Halt<A> = Returned(fn: A, at: nat) | Exhausted

  /** The loop from word `i` on, in state `st`. */
  function Run<A(==)>(ds: seq<Word<A>>, add: (A, A) -> A, target: A, i: nat, st: ScanState<A>): (h: Halt<A>)
    decreases |ds| - i
    ensures h.Returned? ==> i <= h.at < |ds| && ds[h.at].insn.Ret?
  {
    if i < |ds| then
      match Advance(st, ds[i], add, target)
      case Return(f) => Returned(f, i)
      case Continue(next) => Run(ds, add, target, i + 1, next)
    else Exhausted
  }

  /** A step that does not return hands its new state to the rest of the run. */
  lemma RunContinues<A>(ds: seq<Word<A>>, add: (A, A) -> A, target: A, i: nat, st: ScanState<A>, next: ScanState<A>)
    requires i < |ds| && Advance(st, ds[i], add, target) == Continue(next)
    ensures Run(ds, add, target, i, st) == Run(ds, add, target, i + 1, next)
  {}

  /** A step on the word at byte 4i that continues moves the scan to word i + 1. */
  lemma ScanContinuesAt(code: ByteSlice, base: bv64, target: bv64, i: nat, offset: nat, st: ScanState<bv64>, next: ScanState<bv64>)
    requires offset == 4 * i && offset + 4 <= |code|
    requires Advance(st, Fetch(code, base, offset), WrappingAdd, target) == Continue(next)
    ensures Run(Decoded(code, base), WrappingAdd, target, i, st) == Run(Decoded(code, base), WrappingAdd, target, i + 1, next)
  {
    DecodedAt(code, base, i);
  }

  /** A step on the word at byte 4i that returns ends the scan there. */
  lemma ScanReturnsAt(code: ByteSlice, base: bv64, target: bv64, i: nat, offset: nat, st: ScanState<bv64>)
    requires offset == 4 * i && offset + 4 <= |code|
    requires Advance(st, Fetch(code, base, offset), WrappingAdd, target).Return?
    ensures Run(Decoded(code, base), WrappingAdd, target, i, st)
         == Returned(Advance(st, Fetch(code, base, offset), WrappingAdd, target).fn, i)
  {
    DecodedAt(code, base, i);
  }

  /** Fewer than four bytes from byte 4i on: the scan is over. */
  lemma ScanEndsAt(code: ByteSlice, base: bv64, target: bv64, i: nat, st: ScanState<bv64>)
    requires 4 * i <= |code| < 4 * i + 4
    ensures Run(Decoded(code, base), WrappingAdd, target, i, st) == Exhausted
  {}

  /** The resolver's result on a code section loaded at `base`. */
  function Scan(code: ByteSlice, base: bv64, target: bv64): Result<bv64>
  {
    match Run(Decoded(code, base), WrappingAdd, target, 0, Start())
    case Returned(f, _) => Ok(f)
    case Exhausted => Err(NOT_FOUND)
  }

  /** `find_fn_string_refs` (aarch64): the source's loop over the code bytes. */
  method FindFnStringRefs(code: ByteSlice, baseIp: bv64, target: bv64) returns (r: Result<bv64>)
    ensures r == Scan(code, baseIp, target)
  {
    ghost var ds := Decoded(code, baseIp);
    var offset, len := 0, |code|;
    var currentFn: Option<bv64>, foundTarget := None, false;
    var lastAdrp: Option<Pending<bv64>> := None;
    ghost var i := 0;
    while offset + 4 <= len
      invariant offset == 4 * i && offset <= len
      invariant Run(ds, WrappingAdd, target, i, ScanState(currentFn, foundTarget, lastAdrp))
             == Run(ds, WrappingAdd, target, 0, Start())
      decreases len - offset
    {
      var word := Fetch(code, baseIp, offset);
      ghost var st := ScanState(currentFn, foundTarget, lastAdrp);
      match word.insn {
        case Ret =>
          if foundTarget {
            if currentFn.Some? {
              ScanReturnsAt(code, baseIp, target, i, offset, st);
              return Ok(currentFn.value);
            }
          }
          currentFn, foundTarget, lastAdrp := None, false, None;
        case Adrp(rd, page) =>
          lastAdrp := Some(Pending(rd, page));
        case AddImm(rd, rn, imm) =>
          if lastAdrp.Some? {
            if rd == lastAdrp.value.rd && rn == lastAdrp.value.rd {
              if WrappingAdd(lastAdrp.value.page, imm) == target {
                foundTarget := true;
              }
            }
          }
          lastAdrp := None;
        case Prologue =>
          if currentFn.None? {
            currentFn := Some(word.ip);
            foundTarget := false;
          }
          lastAdrp := None;
        case Other =>
          lastAdrp := None;
      }
      ScanContinuesAt(code, baseIp, target, i, offset, st, ScanState(currentFn, foundTarget, lastAdrp));
      offset, i := offset + 4, i + 1;
    }
    ScanEndsAt(code, baseIp, target, i, ScanState(currentFn, foundTarget, lastAdrp));
    return Err(NOT_FOUND);
  }

  // ---- What the machine finds, stated over the decoded words ----

  /** Words a, a+1 are `ADRP xN, page` then `ADD xN, xN, #imm` with page + imm == target. */
  ghost predicate RefersAt<A>(ds: seq<Word<A>>, add: (A, A) -> A, target: A, a: nat)
  {
    a + 1 < |ds| && ds[a].insn.Adrp? && ds[a + 1].insn.AddImm?
    && ds[a + 1].insn.rd == ds[a].insn.rd && ds[a + 1].insn.rn == ds[a].insn.rd
    && add(ds[a].insn.page, ds[a + 1].insn.imm) == target
  }

  /** No RET among words lo..hi-1. */
  ghost predicate NoRetIn<A>(ds: seq<Word<A>>, lo: nat, hi: nat)
  {
    forall k: nat :: lo <= k < hi && k < |ds| ==> !ds[k].insn.Ret?
  }

  /**
   * Words o..r form a function that refers to the target: a prologue at o,
   * a RET at r and none in between, and an ADRP+ADD pair for the target
   * strictly inside.
   */
  ghost predicate FunctionAt<A>(ds: seq<Word<A>>, add: (A, A) -> A, target: A, o: nat, r: nat)
  {
    o < r < |ds| && ds[o].insn.Prologue? && ds[r].insn.Ret? && NoRetIn(ds, o, r)
    && exists a: nat :: o < a && a + 1 < r && RefersAt(ds, add, target, a)
  }

  /** (o, r) ends first among all such functions, and starts first among those ending at r. */
  ghost predicate IsFirstFunction<A>(ds: seq<Word<A>>, add: (A, A) -> A, target: A, o: nat, r: nat)
  {
    FunctionAt(ds, add, target, o, r)
    && forall o': nat, r': nat :: FunctionAt(ds, add, target, o', r') ==> r < r' || (r == r' && o <= o')
  }

  /** No prologue among the words before `hi` that have no RET between them and `i`. */
  ghost predicate NoPrologueSinceRet<A>(ds: seq<Word<A>>, hi: nat, i: nat)
  {
    forall k: nat :: k < hi && k < |ds| && NoRetIn(ds, k, i) ==> !ds[k].insn.Prologue?
  }

  /** The active candidate started at word o: no RET since, no earlier prologue since the last RET. */
  ghost predicate CandidateAt<A>(ds: seq<Word<A>>, add: (A, A) -> A, target: A, o: nat, i: nat, found: bool)
  {
    o < i <= |ds| && ds[o].insn.Prologue? && NoRetIn(ds, o, i) && NoPrologueSinceRet(ds, o, i)
    && (found ==> exists a: nat :: o < a && a + 1 < i && RefersAt(ds, add, target, a))
  }

  /** What the state means before word i is processed. */
  ghost predicate Inv<A>(ds: seq<Word<A>>, add: (A, A) -> A, target: A, i: nat, st: ScanState<A>)
  {
    i <= |ds|
    && (st.lastAdrp.Some? ==> 0 < i && ds[i - 1].insn == Adrp(st.lastAdrp.value.rd, st.lastAdrp.value.page))
    && (st.currentFn.None? ==> NoPrologueSinceRet(ds, i, i))
    && (st.currentFn.Some? ==>
          exists o: nat :: CandidateAt(ds, add, target, o, i, st.foundTarget) && st.currentFn.value == ds[o].ip)
  }

  /** Stepping past a word that is not RET keeps "no prologue since the last RET" below `hi`. */
  lemma NoPrologueSinceRetExtend<A>(ds: seq<Word<A>>, hi: nat, i: nat)
    requires NoPrologueSinceRet(ds, hi, i) && i < |ds| && !ds[i].insn.Ret?
    ensures NoPrologueSinceRet(ds, hi, i + 1)
  {
    forall k: nat | k < hi && k < |ds| && NoRetIn(ds, k, i + 1)
      ensures !ds[k].insn.Prologue?
    {
      assert NoRetIn(ds, k, i);
    }
  }

  /** A step that continues keeps the invariant. */
  lemma AdvanceKeepsInv<A>(ds: seq<Word<A>>, add: (A, A) -> A, target: A, i: nat, st: ScanState<A>)
    requires Inv(ds, add, target, i, st) && i < |ds|
    requires Advance(st, ds[i], add, target).Continue?
    ensures Inv(ds, add, target, i + 1, Advance(st, ds[i], add, target).next)
  {
    var next := Advance(st, ds[i], add, target).next;
    if ds[i].insn.Ret? {
      assert next == Start();
    } else if st.currentFn.None? {
      NoPrologueSinceRetExtend(ds, i, i);
      if ds[i].insn.Prologue? {
        assert CandidateAt(ds, add, target, i, i + 1, false);
      } else {
        assert NoPrologueSinceRet(ds, i + 1, i + 1);
      }
    } else {
      var o: nat :| CandidateAt(ds, add, target, o, i, st.foundTarget) && st.currentFn.value == ds[o].ip;
      NoPrologueSinceRetExtend(ds, o, i);
      assert NoRetIn(ds, o, i + 1);
      if next.foundTarget && !st.foundTarget {
        assert RefersAt(ds, add, target, i - 1);
      }
      assert CandidateAt(ds, add, target, o, i + 1, next.foundTarget);
    }
  }

  /** A step that returns does so at the first function ending at word i, from its candidate start. */
  lemma AdvanceReturnSound<A>(ds: seq<Word<A>>, add: (A, A) -> A, target: A, i: nat, st: ScanState<A>)
    requires Inv(ds, add, target, i, st) && i < |ds|
    requires Advance(st, ds[i], add, target).Return?
    ensures exists o: nat :: FunctionAt(ds, add, target, o, i)
                        && (forall o': nat :: FunctionAt(ds, add, target, o', i) ==> o <= o')
                        && Advance(st, ds[i], add, target).fn == ds[o].ip
  {
    var o: nat :| CandidateAt(ds, add, target, o, i, st.foundTarget) && st.currentFn.value == ds[o].ip;
    assert FunctionAt(ds, add, target, o, i);
    forall o': nat | FunctionAt(ds, add, target, o', i)
      ensures o <= o'
    {
      assert NoRetIn(ds, o', i);
    }
  }

  /** Whatever the scan returns from an invariant state is the start of the function ending where it stops. */
  lemma {:induction false} RunSound<A>(ds: seq<Word<A>>, add: (A, A) -> A, target: A, i: nat, st: ScanState<A>)
    requires Inv(ds, add, target, i, st)
    decreases |ds| - i
    ensures Run(ds, add, target, i, st).Returned? ==>
      exists o: nat :: FunctionAt(ds, add, target, o, Run(ds, add, target, i, st).at)
                  && (forall o': nat :: FunctionAt(ds, add, target, o', Run(ds, add, target, i, st).at) ==> o <= o')
                  && Run(ds, add, target, i, st).fn == ds[o].ip
  {
    if i < |ds| {
      match Advance(st, ds[i], add, target)
      case Return(f) =>
        AdvanceReturnSound(ds, add, target, i, st);
      case Continue(next) =>
        AdvanceKeepsInv(ds, add, target, i, st);
        RunSound(ds, add, target, i + 1, next);
    }
  }

  /**
   * The state a function (o, a, r) needs before word i: a candidate once
   * past o, the match once past a + 1, the ADRP of a pending at a + 1.
   */
  ghost predicate OnTrack<A>(ds: seq<Word<A>>, st: ScanState<A>, i: nat, o: nat, a: nat)
    requires a < |ds| && ds[a].insn.Adrp?
  {
    (o < i ==> st.currentFn.Some?)
    && (a + 1 < i ==> st.foundTarget)
    && (i == a + 1 ==> st.lastAdrp == Some(Pending(ds[a].insn.rd, ds[a].insn.page)))
  }

  /** A step inside a function (o, a, r), before its RET, that does not return keeps the state on track. */
  lemma AdvanceOnTrack<A>(ds: seq<Word<A>>, add: (A, A) -> A, target: A, i: nat, st: ScanState<A>, o: nat, a: nat, r: nat)
    requires o < r < |ds| && NoRetIn(ds, o, r) && ds[o].insn.Prologue?
    requires o < a && a + 1 < r && RefersAt(ds, add, target, a)
    requires i < r && OnTrack(ds, st, i, o, a)
    requires Advance(st, ds[i], add, target).Continue?
    ensures OnTrack(ds, Advance(st, ds[i], add, target).next, i + 1, o, a)
  {
    if o <= i {
      assert !ds[i].insn.Ret?;
    }
  }

  /** At the RET of a function (o, a, r), a state on track returns. */
  lemma AdvanceReturnsAtEnd<A>(ds: seq<Word<A>>, add: (A, A) -> A, target: A, st: ScanState<A>, o: nat, a: nat, r: nat)
    requires o < a && a + 1 < r < |ds| && ds[a].insn.Adrp? && ds[r].insn.Ret? && OnTrack(ds, st, r, o, a)
    ensures Advance(st, ds[r], add, target).Return?
  {}

  /** From a state on track for a function (o, a, r), the scan stops at r or earlier. */
  lemma {:induction false} RunReaches<A>(ds: seq<Word<A>>, add: (A, A) -> A, target: A, i: nat, st: ScanState<A>, o: nat, a: nat, r: nat)
    requires o < r < |ds| && ds[o].insn.Prologue? && ds[r].insn.Ret? && NoRetIn(ds, o, r)
    requires o < a && a + 1 < r && RefersAt(ds, add, target, a)
    requires i <= r && OnTrack(ds, st, i, o, a)
    decreases r - i
    ensures Run(ds, add, target, i, st).Returned? && Run(ds, add, target, i, st).at <= r
  {
    if i == r {
      AdvanceReturnsAtEnd(ds, add, target, st, o, a, r);
    } else if Advance(st, ds[i], add, target).Continue? {
      AdvanceOnTrack(ds, add, target, i, st, o, a, r);
      RunReaches(ds, add, target, i + 1, Advance(st, ds[i], add, target).next, o, a, r);
    }
  }

  /**
   * The scan returns exactly when some function refers to the target, and
   * then it returns the address of the first one's prologue: of the
   * functions, the earliest-ending, and of those the earliest-starting.
   */
  lemma RunFindsFirstFunction<A>(ds: seq<Word<A>>, add: (A, A) -> A, target: A)
    ensures Run(ds, add, target, 0, Start()).Returned? <==> exists o: nat, r: nat :: FunctionAt(ds, add, target, o, r)
    ensures Run(ds, add, target, 0, Start()).Returned? ==>
      exists o: nat :: IsFirstFunction(ds, add, target, o, Run(ds, add, target, 0, Start()).at)
                  && Run(ds, add, target, 0, Start()).fn == ds[o].ip
  {
    var h := Run(ds, add, target, 0, Start());
    RunSound(ds, add, target, 0, Start());
    forall o': nat, r': nat | FunctionAt(ds, add, target, o', r')
      ensures h.Returned? && h.at <= r'
    {
      var a: nat :| o' < a && a + 1 < r' && RefersAt(ds, add, target, a);
      RunReaches(ds, add, target, 0, Start(), o', a, r');
    }
    if h.Returned? {
      var o: nat :| FunctionAt(ds, add, target, o, h.at)
               && (forall o': nat :: FunctionAt(ds, add, target, o', h.at) ==> o <= o')
               && h.fn == ds[o].ip;
      assert IsFirstFunction(ds, add, target, o, h.at);
    }
  }

  /**
   * The resolver's answer on a code section: `Ok` exactly when some function
   * in it refers to the target, and then the address `base + 4 * o` of the
   * first such function's prologue.
   */
  lemma ScanFindsFirstFunction(code: ByteSlice, base: bv64, target: bv64)
    ensures Scan(code, base, target).Ok? <==>
      exists o: nat, r: nat :: FunctionAt(Decoded(code, base), WrappingAdd, target, o, r)
    ensures Scan(code, base, target).Ok? ==>
      exists o: nat, r: nat :: IsFirstFunction(Decoded(code, base), WrappingAdd, target, o, r)
                     && 4 * o < |code| && Scan(code, base, target).value == AddressAt(base, 4 * o)
  {
    var ds := Decoded(code, base);
    RunFindsFirstFunction(ds, WrappingAdd, target);
    if Scan(code, base, target).Ok? {
      var h := Run(ds, WrappingAdd, target, 0, Start());
      var o: nat :| IsFirstFunction(ds, WrappingAdd, target, o, h.at) && h.fn == ds[o].ip;
      DecodedAt(code, base, o);
    }
  }

  /** Only whole words are read: bytes past the last multiple of four never matter. */
  lemma {:induction false} ScanIgnoresTrailingBytes(code: ByteSlice, base: bv64, target: bv64)
    ensures Scan(code, base, target) == Scan(code[..4 * (|code| / 4)], base, target)
  {
    var whole: ByteSlice := code[..4 * (|code| / 4)];
    var ds, ws := Decoded(code, base), Decoded(whole, base);
    assert |ws| == |ds|;
    forall i: nat | i < |ds|
      ensures ds[i] == ws[i]
    {
      DecodedAt(code, base, i);
      DecodedAt(whole, base, i);
      assert WordAt(code, 4 * i) == WordAt(whole, 4 * i);
    }
    assert ds == ws;
  }
}
