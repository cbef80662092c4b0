/** One unwinding step through the exception index: find the entry, extract its
    instructions, run them (ElfInterfaceArm::StepExidx). */
module ArmStep {
  import opened Machine
  import opened IndexLookup
  import opened ArmExidx
  import opened ArmExtract
  import opened ArmPrologue
  import opened ExidxIndex

  /** The step fails, the frame is the last one, or these are the caller's registers. */
  datatype Result = NoFrame | LastFrame | Caller(regs: seq<nat>, finished: bool)

  function Stopped(status: Status): Result { if status == NoUnwind then LastFrame else NoFrame }

  /** The return address goes to the pc unless the pc itself was popped. */
  function CallerOf(a: Arm): Result
    requires |a.regs| == 16
  {
    var regs := if a.pcSet then a.regs else a.regs[PC := a.regs[LR]];
    Caller(regs[SP := a.cfa], regs[PC] == 0)
  }

  function Execution(process: Memory, data: seq<Byte>, regs: seq<nat>): Result
    requires |regs| == 16
  {
    var o := Evaluate(process, Arm(data, regs[SP], regs, false));
    EvaluateKeepsRegisters(process, Arm(data, regs[SP], regs, false));
    if o.Finished? then CallerOf(o.arm) else Stopped(o.status)
  }

  lemma {:induction false} EvaluateKeepsRegisters(m: Memory, a: Arm)
    requires |a.regs| == 16
    ensures Evaluate(m, a).Finished? ==> |Evaluate(m, a).arm.regs| == 16
    decreases |a.data|
  {
    hide DecodeStep;
    if DecodeStep(m, a).Go? {
      EvaluateKeepsRegisters(m, DecodeStep(m, a).arm);
    }
  }

  function StepOutcome(t: Table, process: Memory, pc: nat, bias: nat, regs: seq<nat>): Result
    requires |regs| == 16
  {
    if pc < bias then NoFrame
    else
      match EntryFor(t, Wrap(W32, pc - bias))
      case None => NoFrame
      case Some(entry) =>
        match Extract(t.mem, Wrap(W32, entry))
        case Rejected(status) => Stopped(status)
        case Bytes(data) => Execution(process, data, regs)
  }

  /** The step as it is composed, over the index and its memo. */
  method StepExidx(index: Index, process: Memory, pc: nat, bias: nat, regs: seq<nat>) returns (r: Result)
    requires index.Valid() && |regs| == 16
    modifies index
    ensures index.Valid() && r == StepOutcome(index.table, process, pc, bias, regs)
  {
    hide Evaluate;
    hide Extract;
    hide EntryFor;
    if pc < bias {
      return NoFrame;
    }
    var entry := index.FindEntry(Wrap(W32, pc - bias));
    if entry.None? {
      return NoFrame;
    }
    var extracted := ExtractEntryData(index.table.mem, Wrap(W32, entry.value));
    if extracted.Rejected? {
      return Stopped(extracted.status);
    }
    var arm := new Unwinder(process, extracted.data, regs[SP], regs);
    var ok := arm.Eval();
    if !ok {
      return Stopped(arm.status);
    }
    EvaluateKeepsRegisters(process, Arm(extracted.data, regs[SP], regs, false));
    var result := arm.regs;
    if !arm.pcSet {
      result := result[PC := result[LR]];
    }
    r := Caller(result[SP := arm.cfa], result[PC] == 0);
  }

  /** The index lists functions at ascending addresses, and the pc, relative to the load
      bias, lies in the i-th. */
  predicate InFunction(t: Table, ds: seq<int>, i: nat, pc: nat) {
    && t.start != 0 && Lists(t, ds) && i < |ds|
    && (forall j, k :: 0 <= j < k < |ds| ==> AddressOf(t, j, ds[j]) < AddressOf(t, k, ds[k]))
    && AddressOf(t, i, ds[i]) <= pc && (i + 1 < |ds| ==> pc < AddressOf(t, i + 1, ds[i + 1]))
  }

  lemma KeysOfFunctions(t: Table, ds: seq<int>)
    requires Lists(t, ds)
    ensures |Keys(t)| == |ds| && forall j :: 0 <= j < |ds| ==> Keys(t)[j] == Some(AddressOf(t, j, ds[j]))
  {
    hide AddrAt;
    hide AddressOf;
    forall j | 0 <= j < |ds| ensures Keys(t)[j] == Some(AddressOf(t, j, ds[j])) {
      assert HasDisplacement(t, j, ds[j]);
      hide HasDisplacement;
      ListedAddress(t, j, ds[j]);
    }
  }

  /** The scan of ascending addresses ends at the last one not above the pc. */
  lemma LastNotAbove(keys: seq<Option<nat>>, i: nat, pc: nat)
    requires Sorted(keys) && i < |keys| && keys[i].value <= pc && (i + 1 < |keys| ==> pc < keys[i + 1].value)
    ensures Linear(keys, pc, |keys|) == Some(i)
  {
    hide Linear;
    LinearIsFloor(keys, pc, |keys|);
  }

  /** The search ends at the entry of the function. */
  lemma EntryOfFunction(t: Table, ds: seq<int>, i: nat, pc: nat)
    requires InFunction(t, ds, i, pc)
    ensures EntryFor(t, pc) == Some((t.start + 8 * i) % TWO64)
  {
    hide Linear;
    hide EntryFor;
    hide AddrAt;
    hide AddressOf;
    hide Lists;
    hide Keys;
    KeysOfFunctions(t, ds);
    var keys := Keys(t);
    assert Sorted(keys) && Distinct(keys);
    LastNotAbove(keys, i, pc);
    EntryIsLinear(t, pc);
  }

  /** k finish instructions, as an assembler pads the last word. */
  function Finishes(k: nat): (bs: seq<Byte>)
    ensures |bs| == k && forall i :: 0 <= i < k ==> bs[i] == OP_FINISH
  {
    seq(k, _ => OP_FINISH)
  }

  /** The last operand byte looks like a finish instruction and no padding follows. */
  predicate Ambiguous(code: seq<Byte>, k: nat) { k == 0 && code != [] && code[|code| - 1] == OP_FINISH }

  /** What extraction appends, compared with what the code needs. */
  lemma Completed(code: seq<Byte>, k: nat)
    requires code + Finishes(k) != []
    ensures Ambiguous(code, k) ==> Terminated(code + Finishes(k)) == code
    ensures !Ambiguous(code, k) ==> Terminated(code + Finishes(k)) == code + ([OP_FINISH] + Finishes(if k == 0 then 0 else k - 1))
  {
    var ops := code + Finishes(k);
    if k == 0 {
      assert ops == code;
      assert [OP_FINISH] + Finishes(0) == [OP_FINISH];
    } else {
      assert Finishes(k) == [OP_FINISH] + Finishes(k - 1);
      assert ops[|ops| - 1] == OP_FINISH;
    }
  }

  /** The entry of function i stores these instructions, in some form. */
  predicate Describes(t: Table, i: nat, form: Form, ops: seq<Byte>, d: int) {
    var entry := Wrap(W32, (t.start + 8 * i) % TWO64);
    entry % 2 == 0 && Fits(form, |ops|) && Stores(t.mem, entry, form, ops, d)
  }

  /** The caller's frame: pushed registers and the stack pointer as they were before
      the prologue, and the return address, pushed or not, in the pc. */
  function CallerFrame(steps: seq<Step>, from: seq<nat>, sp: nat, regs: seq<nat>): Result
    requires AllValid(steps) && |regs| == |from| == 16
  {
    var restored := Restored(steps, from, regs);
    Caller(restored[PC := restored[LR]][SP := sp], restored[LR] == 0)
  }

  /** Where the stack pointer behind the prologue is found when the frame is unwound: in
      sp itself, or at a distance from a frame register, which the description bridges
      by moves of the vsp. */
  datatype Base = InSp | FromRegister(reg: nat, moves: seq<Byte>)

  predicate IsBase(base: Base) { base.FromRegister? ==> IsFrameRegister(base.reg) && AreMoves(base.moves) }

  /** The instructions of a prologue with such a base. */
  function Description(base: Base, steps: seq<Step>): seq<Byte>
    requires AllValid(steps) && IsBase(base)
  {
    match base
    case InSp => UnwindCode(steps)
    case FromRegister(r, moves) => [0x90 + r] + (moves + UnwindCode(steps))
  }

  function BaseValue(base: Base, regs: seq<nat>): nat
    requires |regs| == 16 && IsBase(base)
  {
    match base
    case InSp => regs[SP]
    case FromRegister(r, moves) => AfterMoves(regs[r], moves)
  }

  /** The base is reached first, with anything behind the description. */
  lemma BaseFirst(process: Memory, base: Base, steps: seq<Step>, regs: seq<nat>, tail: seq<Byte>)
    requires |regs| == 16 && AllValid(steps) && IsBase(base)
    ensures Evaluate(process, Arm(Description(base, steps) + tail, regs[SP], regs, false))
         == Evaluate(process, Arm(UnwindCode(steps) + tail, BaseValue(base, regs), regs, false))
  {
    hide Evaluate;
    hide UnwindCode;
    hide AfterMoves;
    var code := UnwindCode(steps);
    if base.FromRegister? {
      var moves := base.moves;
      assert [0x90 + base.reg] + (moves + code) + tail == [0x90 + base.reg] + (moves + (code + tail));
      FrameRegisterFirst(process, base.reg, moves + (code + tail), regs[SP], regs);
      MovesFirst(process, moves, code + tail, regs[base.reg], regs);
    }
  }

  /** Evaluation of the described instructions, with or without what follows them. */
  lemma DescriptionUnwinds(process: Memory, base: Base, steps: seq<Step>, from: seq<nat>, sp: nat, regs: seq<nat>, padding: seq<Byte>)
    requires |regs| == |from| == 16 && AllValid(steps) && Total(steps) <= sp < TWO32 && IsBase(base)
    requires Saved(process, from, sp, steps) && BaseValue(base, regs) == sp - Total(steps)
    ensures Evaluate(process, Arm(Description(base, steps) + ([OP_FINISH] + padding), regs[SP], regs, false))
         == Finished(Arm(padding, sp, Restored(steps, from, regs), false))
    ensures Evaluate(process, Arm(Description(base, steps), regs[SP], regs, false)) == Failed(Truncated)
  {
    hide Evaluate;
    hide Saved;
    hide Total;
    hide UnwindCode;
    hide Description;
    hide BaseValue;
    UnwindUndoesPrologue(process, from, sp, steps, regs, padding);
    BaseFirst(process, base, steps, regs, [OP_FINISH] + padding);
    BaseFirst(process, base, steps, regs, []);
    assert Description(base, steps) + [] == Description(base, steps) && UnwindCode(steps) + [] == UnwindCode(steps);
  }

  /** From any pc in a function whose entry describes its prologue, in whatever form and
      with whatever base, a step reaches the caller's frame, except when the last operand
      byte equals the finish instruction and nothing pads it: then it fails; and except
      when the table's displacement reads as the mark of the last frame: then it ends
      the stack. */
  lemma StepReachesCaller(t: Table, ds: seq<int>, i: nat, pc: nat, bias: nat, form: Form, k: nat, d: int, process: Memory,
                          base: Base, steps: seq<Step>, from: seq<nat>, sp: nat, regs: seq<nat>)
    requires pc >= bias && InFunction(t, ds, i, Wrap(W32, pc - bias))
    requires |regs| == |from| == 16 && AllValid(steps) && Total(steps) <= sp < TWO32 && IsBase(base)
    requires Describes(t, i, form, Description(base, steps) + Finishes(k), d)
    requires Saved(process, from, sp, steps) && BaseValue(base, regs) == sp - Total(steps)
    ensures StepOutcome(t, process, pc, bias, regs)
         == if ReadsAsMark(form, d) then LastFrame
            else if Ambiguous(Description(base, steps), k) then NoFrame
            else CallerFrame(steps, from, sp, regs)
  {
    hide Evaluate;
    hide Extract;
    hide EntryFor;
    hide Terminated;
    hide Saved;
    hide Total;
    hide Description;
    hide BaseValue;
    hide Keys;
    var code := Description(base, steps);
    var ops := code + Finishes(k);
    hide Lists;
    EntryOfFunction(t, ds, i, Wrap(W32, pc - bias));
    ExtractionRoundTrip(t.mem, Wrap(W32, (t.start + 8 * i) % TWO64), form, ops, d);
    Completed(code, k);
    DescriptionUnwinds(process, base, steps, from, sp, regs, Finishes(if k == 0 then 0 else k - 1));
  }

  /** The usual frame: r11 holds the place 4 * k + 4 above the stack pointer that the
      pushes left, and the description steps back by as much. */
  lemma UsualFrame(k: nat, regs: seq<nat>)
    requires k < 64 && |regs| == 16 && 4 * k + 4 <= regs[11] < TWO32
    ensures IsBase(FromRegister(11, [0x40 + k])) && BaseValue(FromRegister(11, [0x40 + k]), regs) == regs[11] - (4 * k + 4)
  {
    var moves: seq<Byte> := [0x40 + k];
    assert moves[1..] == [] && AreMoves(moves) && (0x40 + k) % 64 == k;
    WrapSmall(W32, regs[11] - (4 * k + 4));
    var at := regs[11] - (4 * k + 4);
    assert AfterMoves(at, []) == at;
    assert AfterMoves(regs[11], moves) == AfterMoves(Wrap(W32, at), moves[1..]);
  }

  /** A function marked as not to be unwound, by the mark in its entry or by a pop of
      nothing, is the last frame. */
  lemma MarkedIsLast(t: Table, ds: seq<int>, i: nat, pc: nat, bias: nat, process: Memory, regs: seq<nat>)
    requires pc >= bias && InFunction(t, ds, i, Wrap(W32, pc - bias)) && |regs| == 16
    requires var entry := Wrap(W32, (t.start + 8 * i) % TWO64);
      entry % 2 == 0 && Holds(t.mem, Wrap(W32, entry + 4), [1, 0, 0, 0])
    ensures StepOutcome(t, process, pc, bias, regs) == LastFrame
  {
    hide EntryFor;
    hide Extract;
    hide Lists;
    hide Holds;
    hide Wrap;
    EntryOfFunction(t, ds, i, Wrap(W32, pc - bias));
    MarkRejects(t.mem, Wrap(W32, (t.start + 8 * i) % TWO64));
  }

  lemma RefusalIsLast(process: Memory, rest: seq<Byte>, regs: seq<nat>)
    requires |regs| == 16
    ensures Execution(process, [0x80, 0x00] + rest, regs) == LastFrame
  {
    hide DecodeStep;
    EmptyPopRefuses(process, rest, regs[SP], regs);
  }

  /** A pc that is popped is the caller's pc; the link register is not looked at. */
  lemma PoppedPcStays(process: Memory, mask: nat, regs: seq<nat>, from: seq<nat>)
    requires 0 < mask < 4096 && BitAt(mask, 11) && !BitAt(mask, 9) && |regs| == |from| == 16
    requires var rs := MaskRegs(mask, 4, 16);
      WordsAt(process, regs[SP], rs, from) && regs[SP] + 4 * |rs| < TWO32
    ensures var rs := MaskRegs(mask, 4, 16);
      Execution(process, [0x80 + mask / 256, mask % 256] + [OP_FINISH], regs)
      == Caller(Overlay(regs, from, rs)[SP := regs[SP] + 4 * |rs|], from[PC] == 0)
  {
    hide MaskRegs;
    hide WordsAt;
    hide BitAt;
    var rs := MaskRegs(mask, 4, 16);
    HighPop(process, mask, [OP_FINISH], regs[SP], regs, from);
    MaskListsBits(mask, 4, 16, PC);
    var a := DecodeStep(process, Arm([0x80 + mask / 256, mask % 256] + [OP_FINISH], regs[SP], regs, false)).arm;
    assert Evaluate(process, a) == Finished(a.(data := [])) by {
      assert a.data[1..] == [];
    }
    EvaluateGo(process, Arm([0x80 + mask / 256, mask % 256] + [OP_FINISH], regs[SP], regs, false));
    hide Evaluate;
    hide DecodeStep;
  }

  // ---------------------------------------------------- a step that fails

  /** A function that pushes r8, r9 and r11, described by 0x80 0xb0: the operand of its
      only instruction is the byte of the finish instruction. */
  const PUSHES: seq<Step> := [PushHigh(0xb0)]

  /** An index of one entry at 0x1000, for the function at 0x1000, with its instructions
      in the table word at 0x1008. */
  const SMALL_INDEX: Memory :=
    map[0x1000 := 0, 0x1001 := 0, 0x1002 := 0, 0x1003 := 0,
        0x1004 := 4, 0x1005 := 0, 0x1006 := 0, 0x1007 := 0,
        0x1008 := 0xb0, 0x1009 := 0x80, 0x100a := 0, 0x100b := 0x81]

  const SMALL_TABLE := Table(SMALL_INDEX, 0x1000, 1)

  lemma SmallMask()
    ensures MaskRegs(0xb0, 4, 16) == [8, 9, 11]
  {
    assert MaskRegs(0, 14, 16) == MaskRegs(0, 15, 16) == MaskRegs(0, 16, 16) == [];
    assert MaskRegs(0, 12, 16) == MaskRegs(0, 13, 16) == MaskRegs(0, 14, 16);
    assert MaskRegs(2, 10, 16) == MaskRegs(1, 11, 16) == [11] + MaskRegs(0, 12, 16);
    assert MaskRegs(11, 8, 16) == [8] + MaskRegs(5, 9, 16) == [8] + ([9] + MaskRegs(2, 10, 16));
    assert MaskRegs(44, 6, 16) == MaskRegs(22, 7, 16) == MaskRegs(11, 8, 16);
    assert MaskRegs(0xb0, 4, 16) == MaskRegs(88, 5, 16) == MaskRegs(44, 6, 16);
  }

  lemma SmallMaskValid()
    ensures !BitAt(0xb0, 9) && !BitAt(0xb0, 11)
  {
    assert BitAt(0xb0, 9) == BitAt(44, 7) == BitAt(11, 5) == BitAt(2, 3) == BitAt(0, 1);
    assert BitAt(0xb0, 11) == BitAt(44, 9) == BitAt(11, 7) == BitAt(2, 5) == BitAt(0, 3) == BitAt(0, 1);
  }

  lemma SmallPrologue()
    ensures AllValid(PUSHES) && UnwindCode(PUSHES) == [0x80, 0xb0] && Total(PUSHES) == 12
  {
    hide MaskRegs;
    hide BitAt;
    SmallMask();
    SmallMaskValid();
    assert PUSHES[..0] == [];
    assert UnwindCode([]) == [] && Total([]) == 0;
  }

  lemma SmallTableFound()
    ensures InFunction(SMALL_TABLE, [0], 0, 0x1000)
  {
    hide ToLE;
    FourBytes(0);
    assert Holds(SMALL_INDEX, 0x1000, [0, 0, 0, 0]);
    hide Holds;
    assert HasDisplacement(SMALL_TABLE, 0, 0);
    assert AddressOf(SMALL_TABLE, 0, 0) == 0x1000;
  }

  lemma FourBytes(v: nat)
    requires v < 256
    ensures ToLE(v, 4) == [v, 0, 0, 0]
  {
    assert ToLE(0, 1) == [0] && ToLE(0, 2) == [0, 0] && ToLE(0, 3) == [0, 0, 0];
  }

  lemma SmallTableDescribes()
    ensures Describes(SMALL_TABLE, 0, Personality12(1), [0x80, 0xb0], 4)
  {
    hide ToLE;
    FourBytes(4);
    assert Holds(SMALL_INDEX, 0x1004, [4, 0, 0, 0]) && Holds(SMALL_INDEX, 0x1008, [0xb0, 0x80, 0, 0x81]);
    hide Holds;
    var bs := Packed(Personality12(1), [0x80, 0xb0]);
    assert bs == [0x81, 0, 0x80, 0xb0] && bs[4..] == [];
    assert HoldsWords(SMALL_INDEX, 0x1008, bs);
    hide HoldsWords;
  }

  /** The step from the function's own address, over the memory its prologue leaves,
      fails although the entry describes the prologue. */
  lemma AmbiguousPrologueFails(m: Memory, from: seq<nat>, regs: seq<nat>)
    requires AreWords(from) && |regs| == 16 && regs[SP] == 0x2000 - 12
    ensures AllValid(PUSHES) && Total(PUSHES) == 12
    ensures StepOutcome(SMALL_TABLE, Execute(m, from, 0x2000, PUSHES), 0x1000, 0, regs) == NoFrame
  {
    hide Execute;
    hide StepOutcome;
    hide Describes;
    hide InFunction;
    SmallPrologue();
    SmallTableFound();
    SmallTableDescribes();
    ExecuteSaves(m, from, 0x2000, PUSHES);
    assert UnwindCode(PUSHES) + Finishes(0) == [0x80, 0xb0];
    WrapSmall(W32, 0x1000);
    StepReachesCaller(SMALL_TABLE, [0], 0, 0x1000, 0, Personality12(1), 0, 4, Execute(m, from, 0x2000, PUSHES), InSp, PUSHES, from, 0x2000, regs);
  }
}
