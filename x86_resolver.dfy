/**
 * The x86 function resolver (`find_fn_string_refs`, x86 and x86_64 variant,
 * src/searcher.rs). The instruction decoder is a foreign library, so the
 * resolver is modelled over the instructions it would hand out, in order:
 * for each one the four things the loop reads (`ip()`, `mnemonic()`,
 * `op_count()`, `memory_displacement64()`).
 *
 * The loop is a three-state machine: state 0 waits for a one-operand
 * `push` and remembers its address; state 1 goes back to 0 on `ret` and to
 * 2 on an instruction whose displacement is the target; state 2 returns
 * the remembered address at the next `ret`.
 *
 * `Run` is that machine as a function, `FindFnStringRefs` is the loop,
 * proved to compute it, and `ScanFindsFirstFunction` says what it finds:
 * the earliest-ending function that opens with a `push` taken in state 0,
 * has no `ret` before its own, and mentions the target in between.
 */
module X86Resolver {
  import opened Wrappers

  const NOT_FOUND: string := "Failed to find references"

  /** The mnemonics the loop tells apart; every other one is `OtherMnemonic`. */
  datatype Mnemonic = Push | Ret | OtherMnemonic

  /** One decoded instruction as the loop sees it. */
  datatype Instr = Instr(ip: bv64, mnemonic: Mnemonic, opCount: nat, disp: bv64)

  /** The loop's `state`: 0, 1 and 2. */
  datatype Phase = Seeking | InFunction | Referenced

  /** The loop's variables `state` and `current_fn_ip`. */
  datatype ScanState = ScanState(phase: Phase, fnIp: bv64)

  function Start(): ScanState
  {
    ScanState(Seeking, 0)
  }

  datatype StepResult = Return(fn: bv64) | Continue(next: ScanState)

  /** One iteration of the loop body. */
  function Advance(st: ScanState, ins: Instr, target: bv64): StepResult
  {
    match st.phase
    case Seeking =>
      if ins.mnemonic == Push && ins.opCount == 1 then Continue(ScanState(InFunction, ins.ip)) else Continue(st)
    case InFunction =>
      if ins.mnemonic == Ret then Continue(st.(phase := Seeking))
      else if ins.disp == target then Continue(st.(phase := Referenced))
      else Continue(st)
    case Referenced =>
      if ins.mnemonic == Ret then Return(st.fnIp) else Continue(st)
  }

  /** Where the scan stopped: at the `ret` of instruction `at`, returning `fn`, or at the end. */
  datatype Halt = Returned(fn: bv64, at: nat) | Exhausted

  /** The loop from instruction `i` on, in state `st`. */
  function Run(ins: seq<Instr>, target: bv64, i: nat, st: ScanState): (h: Halt)
    decreases |ins| - i
    ensures h.Returned? ==> i <= h.at < |ins| && ins[h.at].mnemonic == Ret
  {
    if i < |ins| then
      match Advance(st, ins[i], target)
      case Return(f) => Returned(f, i)
      case Continue(next) => Run(ins, target, i + 1, next)
    else Exhausted
  }

  /** The resolver's result on the decoded instructions of a code section. */
  function Scan(ins: seq<Instr>, target: bv64): Result<bv64>
  {
    match Run(ins, target, 0, Start())
    case Returned(f, _) => Ok(f)
    case Exhausted => Err(NOT_FOUND)
  }

  /** `find_fn_string_refs` (x86): the source's loop over the decoder's output. */
  method FindFnStringRefs(ins: seq<Instr>, target: bv64) returns (r: Result<bv64>)
    ensures r == Scan(ins, target)
  {
    var currentFnIp: bv64 := 0;
    var state := Seeking;
    var k := 0;
    while k < |ins|
      invariant k <= |ins|
      invariant Run(ins, target, k, ScanState(state, currentFnIp)) == Run(ins, target, 0, Start())
    {
      var instr := ins[k];
      k := k + 1;
      match state {
        case Seeking =>
          if instr.mnemonic == Push && instr.opCount == 1 {
            currentFnIp := instr.ip;
            state := InFunction;
          }
        case InFunction =>
          if instr.mnemonic == Ret {
            state := Seeking;
          } else if instr.disp == target {
            state := Referenced;
          }
        case Referenced =>
          if instr.mnemonic == Ret {
            return Ok(currentFnIp);
          }
      }
    }
    return Err(NOT_FOUND);
  }

  // ---- What the machine finds, stated over the instructions ----

  /** Instruction i is a one-operand `push`, the only kind that opens a function. */
  predicate IsEntry(ins: seq<Instr>, i: nat)
  {
    i < |ins| && ins[i].mnemonic == Push && ins[i].opCount == 1
  }

  predicate IsRet(ins: seq<Instr>, i: nat)
  {
    i < |ins| && ins[i].mnemonic == Ret
  }

  /** No `ret` strictly between lo and hi. */
  ghost predicate NoRetBetween(ins: seq<Instr>, lo: nat, hi: nat)
  {
    forall k: nat :: lo < k < hi ==> !IsRet(ins, k)
  }

  /** Every entry before i is followed by a `ret` before i. */
  ghost predicate AllClosed(ins: seq<Instr>, i: nat)
  {
    forall p: nat :: p < i && IsEntry(ins, p) ==> exists k: nat :: p < k < i && IsRet(ins, k)
  }

  /** The push at p opens a function: every earlier entry was closed by a `ret` before it. */
  ghost predicate IsStart(ins: seq<Instr>, p: nat)
  {
    IsEntry(ins, p) && AllClosed(ins, p)
  }

  /** Some instruction strictly between p and r has the target as its displacement. */
  ghost predicate RefersBetween(ins: seq<Instr>, target: bv64, p: nat, r: nat)
  {
    exists m: nat :: p < m < r && m < |ins| && ins[m].disp == target
  }

  /** Instructions p..r form a function that refers to the target. */
  ghost predicate FunctionAt(ins: seq<Instr>, target: bv64, p: nat, r: nat)
  {
    IsStart(ins, p) && p < r && IsRet(ins, r) && NoRetBetween(ins, p, r) && RefersBetween(ins, target, p, r)
  }

  /** No function refers to the target and ends before i. */
  ghost predicate NoFunctionBefore(ins: seq<Instr>, target: bv64, i: nat)
  {
    forall p: nat, r: nat :: r < i ==> !FunctionAt(ins, target, p, r)
  }

  /** What the state means before instruction i is processed. */
  ghost predicate Inv(ins: seq<Instr>, target: bv64, i: nat, st: ScanState)
  {
    i <= |ins| && NoFunctionBefore(ins, target, i)
    && (st.phase == Seeking ==> AllClosed(ins, i))
    && (st.phase != Seeking ==>
          exists p: nat :: p < i && IsStart(ins, p) && NoRetBetween(ins, p, i) && st.fnIp == ins[p].ip
                        && (st.phase == Referenced <==> RefersBetween(ins, target, p, i)))
  }

  /** Two starts with no `ret` between them are the same start. */
  lemma StartsAreSeparated(ins: seq<Instr>, p: nat, q: nat, r: nat)
    requires IsStart(ins, p) && IsStart(ins, q) && p <= r && q <= r
    requires NoRetBetween(ins, p, r) && NoRetBetween(ins, q, r)
    ensures p == q
  {}

  /** A step in state 0 keeps the invariant. */
  lemma SeekingStepKeepsInv(ins: seq<Instr>, target: bv64, i: nat, st: ScanState)
    requires Inv(ins, target, i, st) && i < |ins| && st.phase == Seeking
    ensures Advance(st, ins[i], target).Continue?
    ensures Inv(ins, target, i + 1, Advance(st, ins[i], target).next)
  {
    var next := Advance(st, ins[i], target).next;
    assert NoFunctionBefore(ins, target, i + 1);
    if next.phase == InFunction {
      assert IsStart(ins, i);
      assert !RefersBetween(ins, target, i, i + 1);
    } else {
      assert AllClosed(ins, i + 1) by {
        forall p: nat | p < i + 1 && IsEntry(ins, p)
          ensures exists k: nat :: p < k < i + 1 && IsRet(ins, k)
        {
          var k: nat :| p < k < i && IsRet(ins, k);
        }
      }
    }
  }

  /** A step in state 1 or 2 inside the function opened at p that does not return keeps the invariant. */
  lemma OpenStepKeepsInv(ins: seq<Instr>, target: bv64, i: nat, st: ScanState, p: nat)
    requires i < |ins| && NoFunctionBefore(ins, target, i) && st.phase != Seeking
    requires p < i && IsStart(ins, p) && NoRetBetween(ins, p, i) && st.fnIp == ins[p].ip
    requires st.phase == Referenced <==> RefersBetween(ins, target, p, i)
    requires Advance(st, ins[i], target).Continue?
    ensures Inv(ins, target, i + 1, Advance(st, ins[i], target).next)
  {
    var next := Advance(st, ins[i], target).next;
    forall p': nat, r: nat | r < i + 1 && FunctionAt(ins, target, p', r)
      ensures false
    {
      StartsAreSeparated(ins, p, p', i);
    }
    if next.phase == Seeking {
      assert AllClosed(ins, i + 1) by {
        forall p': nat | p' < i + 1 && IsEntry(ins, p')
          ensures exists k: nat :: p' < k < i + 1 && IsRet(ins, k)
        {
          if p' < p {
            var k: nat :| p' < k < p && IsRet(ins, k);
          } else {
            assert p' < i && IsRet(ins, i);
          }
        }
      }
    } else {
      assert NoRetBetween(ins, p, i + 1);
      if next.phase == Referenced && st.phase == InFunction {
        assert RefersBetween(ins, target, p, i + 1);
      } else if next.phase == InFunction {
        assert !RefersBetween(ins, target, p, i + 1);
      }
    }
  }

  /** A step that continues keeps the invariant. */
  lemma AdvanceKeepsInv(ins: seq<Instr>, target: bv64, i: nat, st: ScanState)
    requires Inv(ins, target, i, st) && i < |ins|
    requires Advance(st, ins[i], target).Continue?
    ensures Inv(ins, target, i + 1, Advance(st, ins[i], target).next)
  {
    if st.phase == Seeking {
      SeekingStepKeepsInv(ins, target, i, st);
    } else {
      var p: nat :| p < i && IsStart(ins, p) && NoRetBetween(ins, p, i) && st.fnIp == ins[p].ip
                 && (st.phase == Referenced <==> RefersBetween(ins, target, p, i));
      OpenStepKeepsInv(ins, target, i, st, p);
    }
  }

  /** A step that returns does so at the end of the first function, with its start's address. */
  lemma AdvanceReturnSound(ins: seq<Instr>, target: bv64, i: nat, st: ScanState)
    requires Inv(ins, target, i, st) && i < |ins|
    requires Advance(st, ins[i], target).Return?
    ensures exists p: nat :: FunctionAt(ins, target, p, i) && Advance(st, ins[i], target).fn == ins[p].ip
  {
    var p: nat :| p < i && IsStart(ins, p) && NoRetBetween(ins, p, i) && st.fnIp == ins[p].ip
               && (st.phase == Referenced <==> RefersBetween(ins, target, p, i));
    assert FunctionAt(ins, target, p, i);
  }

  /**
   * From an invariant state the scan returns at the end r of a function
   * starting at p, with no function ending earlier, or it runs out with
   * no function at all.
   */
  lemma {:induction false} RunSound(ins: seq<Instr>, target: bv64, i: nat, st: ScanState)
    requires Inv(ins, target, i, st)
    decreases |ins| - i
    ensures Run(ins, target, i, st).Returned? ==>
      NoFunctionBefore(ins, target, Run(ins, target, i, st).at)
      && exists p: nat :: FunctionAt(ins, target, p, Run(ins, target, i, st).at)
                      && Run(ins, target, i, st).fn == ins[p].ip
    ensures Run(ins, target, i, st).Exhausted? ==> NoFunctionBefore(ins, target, |ins|)
  {
    if i < |ins| {
      match Advance(st, ins[i], target)
      case Return(f) =>
        AdvanceReturnSound(ins, target, i, st);
      case Continue(next) =>
        AdvanceKeepsInv(ins, target, i, st);
        RunSound(ins, target, i + 1, next);
    }
  }

  /**
   * The resolver returns `Ok` exactly when some function refers to the
   * target, and then the address of the `push` opening the function that
   * ends first; that function's start is unique.
   */
  lemma ScanFindsFirstFunction(ins: seq<Instr>, target: bv64)
    ensures Scan(ins, target).Ok? <==> exists p: nat, r: nat :: FunctionAt(ins, target, p, r)
    ensures Scan(ins, target).Ok? ==>
      exists p: nat, r: nat :: FunctionAt(ins, target, p, r) && Scan(ins, target).value == ins[p].ip
        && (forall p': nat, r': nat :: FunctionAt(ins, target, p', r') ==> r <= r' && (r == r' ==> p == p'))
  {
    assert Inv(ins, target, 0, Start());
    RunSound(ins, target, 0, Start());
    var h := Run(ins, target, 0, Start());
    if h.Returned? {
      var p: nat :| FunctionAt(ins, target, p, h.at) && h.fn == ins[p].ip;
      forall p': nat, r': nat | FunctionAt(ins, target, p', r')
        ensures h.at <= r' && (h.at == r' ==> p == p')
      {
        if h.at == r' {
          StartsAreSeparated(ins, p, p', r');
        }
      }
    } else {
      assert forall p: nat, r: nat :: !FunctionAt(ins, target, p, r);
    }
  }
}
