/** A step from anywhere in a function to its caller: the bytes of a section whose
    instructions describe the function's prologue, and the stack it built. */
module FrameUnwind {
  import opened Machine
  import opened DwarfCfa
  import opened DwarfStep
  import opened DwarfEval
  import opened DwarfUnwind
  import opened CfaCode
  import opened CfaShape
  import opened EhUnwind
  import Fr = DwarfFrame
  import Eh = EhFrame
  import Asm = EhCode

  /** The instructions of a unit describe a prologue. */
  predicate DescribesPrologue(w: Width, u: Unit, c: Fr.Convention, steps: seq<Fr.Placed>) {
    && u.cieCode == Fr.EntryCode(w, c) && u.fdeCode == Fr.FrameCode(w, c, Fr.AtEntry(c), steps)
    && u.cie.dataAlign == Fr.Downward(w) && u.cie.returnReg == c.ra
  }

  /** A prologue that only saves registers of this machine and has a moderate frame. */
  predicate ProperPrologue(w: Width, c: Fr.Convention, steps: seq<Fr.Placed>, total: nat) {
    && Fr.AllAllowed(c, Fr.AtEntry(c), steps, total) && Fr.Moderate(w, Fr.AfterAll(c, Fr.AtEntry(c), steps))
    && c.sp < total && c.ra < total && c.sp != c.ra && total <= CFA_REG
  }

  /** The frame as it is when the pc is reached. */
  function FrameAt(w: Width, u: Unit, c: Fr.Convention, steps: seq<Fr.Placed>, pc: nat): Fr.Layout
    requires UnitFits(w, u)
  {
    Fr.LayoutAt(c, Fr.AtEntry(c), steps, StartOf(w, u), u.cie.codeAlign, pc)
  }

  lemma {:induction false} LayoutIsModerate(w: Width, c: Fr.Convention, l: Fr.Layout, steps: seq<Fr.Placed>, at: nat, align: nat, pc: nat)
    requires Fr.Moderate(w, Fr.AfterAll(c, l, steps))
    ensures Fr.Moderate(w, Fr.LayoutAt(c, l, steps, at, align, pc))
    decreases |steps|
  {
    hide Fr.After;
    Fr.DepthGrows(c, l, steps);
    if steps != [] && at + steps[0].length * align <= pc {
      LayoutIsModerate(w, c, Fr.After(c, l, steps[0].step), steps[1..], at + steps[0].length * align, align, pc);
    }
  }

  /** The row of the unit at any pc of the function describes the frame there. */
  lemma RowOfFrame(s: Eh.Section, u: Unit, c: Fr.Convention, steps: seq<Fr.Placed>, pc: nat, total: nat)
    requires UnitFits(s.w, u) && DescribesPrologue(s.w, u, c, steps) && ProperPrologue(s.w, c, steps, total)
    requires StartOf(s.w, u) <= pc && StartOf(s.w, u) + Fr.Extent(steps, u.cie.codeAlign) < s.w.Modulus()
    ensures RowOfUnit(s, u, pc).Row? && Fr.Describes(s.w, RowOfUnit(s, u, pc).rules, FrameAt(s.w, u, c, steps, pc))
  {
    hide RowAt;
    hide Fits;
    hide StartOf;
    hide CieCodeAt;
    hide FdeCodeAt;
    hide Asm.CieFits;
    hide Asm.FdeFits;
    hide Asm.CieBytes;
    hide Asm.FdeBytes;
    hide Fr.Describes;
    hide Fr.EntryCode;
    hide Fr.FrameCode;
    hide Fr.LayoutAt;
    hide Fr.Extent;
    hide Fr.AllAllowed;
    hide Fr.Downward;
    hide Fr.Moderate;
    var at, p := StartOf(s.w, u), CieProgramOf(s, u);
    Fr.RowOfEntry(p, pc, CieCodeAt(s.w, u), at, c);
    var row := RowAt(p, pc, CieCodeAt(s.w, u), State(at, map[], at, []), u.cieCode);
    Fr.RowOfPrologue(FdeProgramOf(s, u, row.rules), pc, FdeCodeAt(s.w, u), State(at, row.rules, at, row.stack),
                     c, Fr.AtEntry(c), steps, total);
  }

  /** Evaluating that row leads to the caller. */
  lemma CallerOfFrame(s: Eh.Section, u: Unit, c: Fr.Convention, steps: seq<Fr.Placed>, pc: nat,
                      from: seq<nat>, process: Memory, pcReg: nat, regs: seq<nat>)
    requires UnitFits(s.w, u) && DescribesPrologue(s.w, u, c, steps) && ProperPrologue(s.w, c, steps, |regs|)
    requires StartOf(s.w, u) <= pc && StartOf(s.w, u) + Fr.Extent(steps, u.cie.codeAlign) < s.w.Modulus()
    requires Fr.Kept(s.w, c, FrameAt(s.w, u, c, steps, pc), from, regs, process) && Fr.AreWords(s.w, from)
    requires pcReg < |regs| && pcReg != c.sp
    ensures CallerOf(s, u, process, pcReg, c.sp, pc, regs)
         == Some(Fr.CallerRegisters(c, FrameAt(s.w, u, c, steps, pc), from, regs, pcReg))
  {
    hide RowOfUnit;
    hide UnitFits;
    hide Simultaneous;
    hide Fr.Describes;
    hide Fr.Kept;
    hide Fr.Moderate;
    hide Fr.Extent;
    hide Fr.LayoutAt;
    hide StartOf;
    hide Fr.CallerRegisters;
    RowOfFrame(s, u, c, steps, pc, |regs|);
    LayoutIsModerate(s.w, c, Fr.AtEntry(c), steps, StartOf(s.w, u), u.cie.codeAlign, pc);
    KeptSizes(s.w, c, FrameAt(s.w, u, c, steps, pc), from, regs, process);
    var f := Frame(s.w, s.mem, process, RowOfUnit(s, u, pc).rules, u.cie.returnReg, pcReg, c.sp);
    Fr.FrameUnwinds(f, c, FrameAt(s.w, u, c, steps, pc), from, regs);
  }

  lemma KeptSizes(w: Width, c: Fr.Convention, l: Fr.Layout, from: seq<nat>, regs: seq<nat>, mem: Memory)
    requires Fr.Kept(w, c, l, from, regs, mem)
    ensures |regs| == |from| && c.sp < |from| && c.ra < |from|
  {
  }

  // ----------------------------------------------------- the shape of the lists

  /** The instructions that describe a prologue behind its entry. */
  predicate Describing(code: seq<Insn>) {
    forall k :: 0 <= k < |code| ==> code[k].AdvanceLoc? || code[k].CfaOffset? || code[k].OffsetRule? || code[k].CfaRegister?
  }

  lemma {:induction false} FrameCodeDescribes(w: Width, c: Fr.Convention, l: Fr.Layout, steps: seq<Fr.Placed>)
    ensures Describing(Fr.FrameCode(w, c, l, steps))
    decreases |steps|
  {
    if steps != [] {
      FrameCodeDescribes(w, c, Fr.After(c, l, steps[0].step), steps[1..]);
      hide Fr.FrameCode;
      var tail := Fr.FrameCode(w, c, Fr.After(c, l, steps[0].step), steps[1..]);
      hide Fr.After;
      assert Describing(Fr.StepCode(w, c, l, steps[0].step));
      assert Describing(Fr.StepCode(w, c, l, steps[0].step) + tail);
    }
  }

  lemma {:induction false} SpanBehind(align: nat, code: seq<Insn>, tail: seq<Insn>)
    requires forall k :: 0 <= k < |code| ==> !code[k].AdvanceLoc?
    ensures Span(align, code + tail) == Span(align, tail)
    decreases |code|
  {
    if code == [] {
      assert code + tail == tail;
    } else {
      assert (code + tail)[1..] == code[1..] + tail;
      SpanBehind(align, code[1..], tail);
    }
  }

  /** The advances cover the prologue. */
  lemma {:induction false} SpanIsExtent(w: Width, c: Fr.Convention, l: Fr.Layout, steps: seq<Fr.Placed>, align: nat)
    ensures Span(align, Fr.FrameCode(w, c, l, steps)) == Fr.Extent(steps, align)
    decreases |steps|
  {
    if steps != [] {
      hide Fr.After;
      var rest := Fr.FrameCode(w, c, Fr.After(c, l, steps[0].step), steps[1..]);
      var code := Fr.StepCode(w, c, l, steps[0].step);
      SpanIsExtent(w, c, Fr.After(c, l, steps[0].step), steps[1..], align);
      SpanBehind(align, code, rest);
      SpanCons(align, Fr.FormFor(steps[0].length), steps[0].length, code + rest);
    }
  }

  lemma SpanCons(align: nat, form: Size, length: nat, tail: seq<Insn>)
    ensures Span(align, [AdvanceLoc(form, length)] + tail) == length * align + Span(align, tail)
  {
    assert ([AdvanceLoc(form, length)] + tail)[1..] == tail;
  }

  /** Lists that describe a prologue have the shape that makes a section unwindable. */
  lemma PrologueShaped(w: Width, u: Unit, c: Fr.Convention, steps: seq<Fr.Placed>, total: nat)
    requires UnitFits(w, u) && DescribesPrologue(w, u, c, steps)
    requires FdeFrom(w, u).pcStart + Fr.Extent(steps, u.cie.codeAlign) <= FdeFrom(w, u).pcEnd
    requires Separate(RuleRegs(u.cieCode) + RuleRegs(u.fdeCode), total)
    ensures WellShaped(FdeFrom(w, u), Code(u.cieCode, u.fdeCode), total)
  {
    hide UnitFits;
    hide Separate;
    hide RuleRegs;
    hide Fr.Extent;
    hide Fr.FrameCode;
    FrameCodeDescribes(w, c, Fr.AtEntry(c), steps);
    SpanIsExtent(w, c, Fr.AtEntry(c), steps, u.cie.codeAlign);
    EntryIsStill(w, c);
    hide Span;
    hide OpenAfter;
    hide Fr.EntryCode;
  }

  lemma EntryIsStill(w: Width, c: Fr.Convention)
    ensures Unmoving(Fr.EntryCode(w, c)) && OpenAfter(Fr.EntryCode(w, c), 0) == Some(0)
  {
    var code, slot := Fr.EntryCode(w, c), [OffsetRule(c.ra, 1)];
    assert slot[1..] == [] && OpenAfter([], 0) == Some(0) && OpenAfter(slot, 0) == Some(0);
    assert code[1..] == if c.stored then slot else [];
  }

  lemma ExtentInRange(w: Width, u: Unit, c: Fr.Convention, steps: seq<Fr.Placed>, total: nat)
    requires UnitFits(w, u) && DescribesPrologue(w, u, c, steps)
    requires WellShaped(FdeFrom(w, u), Code(u.cieCode, u.fdeCode), total) && FdeFrom(w, u).pcEnd < w.Modulus()
    ensures StartOf(w, u) + Fr.Extent(steps, u.cie.codeAlign) < w.Modulus()
  {
    hide UnitFits;
    hide Span;
    hide Separate;
    hide Fr.Extent;
    SpanIsExtent(w, c, Fr.AtEntry(c), steps, u.cie.codeAlign);
  }

  // ------------------------------------------------------------------ the step

  /** The unit describes a proper prologue, and at this pc the registers and the memory of
      the process are those of a function that was called with the registers `from` to
      return to and has kept its frame. */
  predicate InFrame(w: Width, u: Unit, c: Fr.Convention, steps: seq<Fr.Placed>, pc: nat, from: seq<nat>, regs: seq<nat>, process: Memory) {
    && UnitFits(w, u) && DescribesPrologue(w, u, c, steps) && ProperPrologue(w, c, steps, |regs|)
    && Fr.Kept(w, c, FrameAt(w, u, c, steps, pc), from, regs, process) && Fr.AreWords(w, from)
  }

  /** The registers after a step out of such a frame. */
  predicate Returned(w: Width, u: Unit, c: Fr.Convention, steps: seq<Fr.Placed>, pc: nat, pcReg: nat,
                     from: seq<nat>, before: seq<nat>, after: seq<nat>) {
    UnitFits(w, u) && |before| == |from| && c.sp < |from| && c.ra < |from|
    && after == Fr.CallerRegisters(c, FrameAt(w, u, c, steps, pc), from, before, pcReg)
  }

  /** A step over the bytes of a section out of a function whose unit describes its
      prologue, at any pc of it, in the prologue or behind it: it succeeds, and the
      registers are exactly the caller's stack pointer, the return address as its pc,
      the words stored for the saved registers, and the others as they were. */
  method StepToCaller(s: Eh.Section, ghost start: nat, ghost end: nat, ghost junk: Eh.IndexCie, index: seq<Eh.FdeInfo>,
                      d: DwarfSection, r: Registers, process: Memory, pcReg: nat, spReg: nat, pc: nat, order: Rules -> seq<nat>,
                      ghost units: seq<Unit>, ghost k: nat, ghost c: Fr.Convention, ghost steps: seq<Fr.Placed>, ghost from: seq<nat>)
    returns (ok: bool, finished: bool)
    requires Assembly(s, start, end, junk, index, units, d.sec, |r.regs|) && GoodCaches(d)
    requires |r.regs| <= |r.saved| == SAVED_REGS && pcReg < |r.regs| && spReg < |r.regs| && pcReg != spReg == c.sp
    requires forall rules: Rules :: IsOrder(order(rules), rules)
    requires |d.sec.fdes| == |units| && FoundAs(d.sec, k, pc)
    requires InFrame(s.w, units[k], c, steps, pc, from, r.regs, process)
    modifies d, r
    ensures GoodCaches(d)
    ensures ok && Returned(s.w, units[k], c, steps, pc, pcReg, from, old(r.regs), r.regs)
    ensures c.ra < |from| && finished == (from[c.ra] == 0)
  {
    hide Assembly;
    hide InFrame;
    hide FoundAs;
    hide CallerOf;
    hide UnitFits;
    FrameGives(s, start, end, junk, index, units, d.sec, k, pc, c, steps, from, process, pcReg, r.regs);
    ok, finished := StepOverBytes(s, start, end, junk, index, d, r, process, pcReg, spReg, pc, order, units, k);
  }

  lemma FrameGives(s: Eh.Section, start: nat, end: nat, junk: Eh.IndexCie, index: seq<Eh.FdeInfo>, units: seq<Unit>, sec: Section,
                   k: nat, pc: nat, c: Fr.Convention, steps: seq<Fr.Placed>, from: seq<nat>, process: Memory, pcReg: nat, regs: seq<nat>)
    requires Assembly(s, start, end, junk, index, units, sec, |regs|) && |sec.fdes| == |units| && FoundAs(sec, k, pc)
    requires InFrame(s.w, units[k], c, steps, pc, from, regs, process) && pcReg < |regs| && pcReg != c.sp
    ensures UnitFits(s.w, units[k]) && |regs| == |from| && c.sp < |from| && c.ra < |from|
    ensures var caller := CallerOf(s, units[k], process, pcReg, c.sp, pc, regs);
      caller.Some? && Returned(s.w, units[k], c, steps, pc, pcReg, from, regs, caller.value) && caller.value[pcReg] == from[c.ra]
  {
    hide CallerOf;
    hide UnitFits;
    hide WrittenIn;
    hide WellShaped;
    hide Indexed;
    hide Shadowed;
    hide FrameAt;
    hide Fr.Kept;
    hide DescribesPrologue;
    hide ProperPrologue;
    var u := units[k];
    assert WellShaped(FdeFrom(s.w, u), Code(u.cieCode, u.fdeCode), |regs|);
    ExtentInRange(s.w, u, c, steps, |regs|);
    KeptSizes(s.w, c, FrameAt(s.w, u, c, steps, pc), from, regs, process);
    CallerOfFrame(s, u, c, steps, pc, from, process, pcReg, regs);
  }

  // --------------------------------------------------- running and unwinding

  /** Where a part of the prologue ends, its layout is in force. */
  lemma {:induction false} LayoutBehind(c: Fr.Convention, l: Fr.Layout, front: seq<Fr.Placed>, back: seq<Fr.Placed>, at: nat, align: nat)
    requires back != [] ==> back[0].length * align > 0
    ensures Fr.LayoutAt(c, l, front + back, at, align, at + Fr.Extent(front, align)) == Fr.AfterAll(c, l, front)
    decreases |front|
  {
    hide Fr.After;
    var all := front + back;
    if front == [] {
      assert all == back;
    } else {
      var next := at + front[0].length * align;
      assert all[1..] == front[1..] + back && all[0] == front[0];
      LayoutBehind(c, Fr.After(c, l, front[0].step), front[1..], back, next, align);
    }
  }

  lemma {:induction false} ExtentOfFront(front: seq<Fr.Placed>, back: seq<Fr.Placed>, align: nat)
    ensures Fr.Extent(front, align) <= Fr.Extent(front + back, align)
    decreases |front|
  {
    if front == [] {
      assert front + back == back;
    } else {
      assert (front + back)[1..] == front[1..] + back;
      ExtentOfFront(front[1..], back, align);
    }
  }

  /** A call can be made and a part of the prologue executed. */
  predicate Executes(w: Width, c: Fr.Convention, front: seq<Fr.Placed>, from: seq<nat>) {
    && c.sp < |from| && c.ra < |from| && c.sp != c.ra && Fr.AreWords(w, from) && Fr.Below(w, from[c.sp], 1) >= 0
    && Fr.AllAllowed(c, Fr.AtEntry(c), front, |from|) && Fr.HasRoom(w, Fr.AfterAll(c, Fr.AtEntry(c), front), from[c.sp])
  }

  /** The machine after the call and that part. */
  function Entered(w: Width, c: Fr.Convention, front: seq<Fr.Placed>, from: seq<nat>, mem: Memory): (m: Fr.Thread)
    requires Executes(w, c, front, from)
    ensures Fr.Built(w, c, Fr.AfterAll(c, Fr.AtEntry(c), front), from, m)
  {
    Fr.CallBuilds(w, c, from, mem);
    Fr.Run(w, c, Fr.AtEntry(c), from, Fr.Called(w, c, from, mem), front)
  }

  /** Unwinding undoes the call and the prologue: wherever between two steps of it the
      machine is stopped, the rules of that pc give back every register of the caller,
      with the return address as its pc. */
  lemma UnwindingUndoesPrologue(s: Eh.Section, u: Unit, c: Fr.Convention, front: seq<Fr.Placed>, back: seq<Fr.Placed>,
                                from: seq<nat>, mem: Memory, pcReg: nat)
    requires UnitFits(s.w, u) && DescribesPrologue(s.w, u, c, front + back) && ProperPrologue(s.w, c, front + back, |from|)
    requires StartOf(s.w, u) + Fr.Extent(front + back, u.cie.codeAlign) < s.w.Modulus()
    requires Executes(s.w, c, front, from) && pcReg < |from| && pcReg != c.sp
    requires back != [] ==> back[0].length * u.cie.codeAlign > 0
    ensures var m := Entered(s.w, c, front, from, mem);
      |m.regs| == |from| && CallerOf(s, u, m.mem, pcReg, c.sp, StartOf(s.w, u) + Fr.Extent(front, u.cie.codeAlign), m.regs)
      == Some(from[pcReg := from[c.ra]])
  {
    hide UnitFits;
    hide CallerOf;
    hide StartOf;
    hide DescribesPrologue;
    hide ProperPrologue;
    hide Entered;
    hide Fr.Extent;
    hide Fr.LayoutAt;
    hide Fr.AfterAll;
    hide Fr.CallerRegisters;
    hide Fr.Kept;
    hide Fr.AllAllowed;
    hide Fr.HasRoom;
    hide Fr.SlotsHold;
    hide Fr.Below;
    var m, align := Entered(s.w, c, front, from, mem), u.cie.codeAlign;
    var l := Fr.AfterAll(c, Fr.AtEntry(c), front);
    var pc := StartOf(s.w, u) + Fr.Extent(front, align);
    LayoutBehind(c, Fr.AtEntry(c), front, back, StartOf(s.w, u), align);
    ExtentOfFront(front, back, align);
    Fr.BuiltIsKept(s.w, c, l, from, m);
    CallerOfFrame(s, u, c, front + back, pc, from, m.mem, pcReg, m.regs);
    CallerIsFrom(s.w, c, l, from, m, pcReg);
  }

  /** Right behind the steps, what is not saved is still there. */
  lemma CallerIsFrom(w: Width, c: Fr.Convention, l: Fr.Layout, from: seq<nat>, m: Fr.Thread, pcReg: nat)
    requires Fr.Built(w, c, l, from, m) && pcReg < |from| && pcReg != c.sp
    ensures Fr.CallerRegisters(c, l, from, m.regs, pcReg) == from[pcReg := from[c.ra]]
  {
    hide Fr.SlotsHold;
    hide Fr.Below;
  }
}
