/** A whole DWARF step: the rules chosen through the caches, applied to the registers. */
module DwarfUnwind {
  import opened Machine
  import opened DwarfCfa
  import opened DwarfStep
  import opened DwarfEval

  /** A section whose rows can be cached, seen from a machine with `total` registers:
      no rule that holds anywhere is for a register without a bit of its own. */
  ghost predicate Unwindable(sec: Section, total: nat) {
    && Ordered(sec) && CiesSettled(sec) && WellBehaved(sec)
    && forall pc: nat, a: Answer :: Correct(sec, pc, a) ==> Separate(a.rules.Keys, total)
  }

  /** What was cached so far is right. */
  ghost predicate GoodCaches(d: DwarfSection)
    reads d
  {
    GoodCies(d.sec, d.cies) && GoodRows(d.sec, d.rows)
  }

  function FrameFor(sec: Section, process: Memory, a: Answer, pcReg: nat, spReg: nat): Frame {
    Frame(sec.w, sec.mem, process, a.rules, a.cie.returnReg, pcReg, spReg)
  }

  /** The rules of the FDE that covers pc, interpreted afresh, turn the old registers
      into the new ones. There is only one such answer. */
  ghost predicate Unwound(sec: Section, process: Memory, pcReg: nat, spReg: nat, pc: nat, before: seq<nat>, after: seq<nat>)
    requires pcReg < |before| && spReg < |before|
  {
    exists a :: Correct(sec, pc, a) && Simultaneous(FrameFor(sec, process, a, pcReg, spReg), before) == Some(after)
  }

  /** DwarfSection::Step with its evaluation. Whatever earlier steps have cached, and in
      whatever order the rules are visited, the registers become those that the freshly
      interpreted rules assign to the old ones, all at once. */
  method Step(d: DwarfSection, r: Registers, process: Memory, pcReg: nat, spReg: nat, pc: nat, order: Rules -> seq<nat>)
    returns (ok: bool, finished: bool)
    requires Unwindable(d.sec, |r.regs|) && GoodCaches(d)
    requires |r.regs| <= |r.saved| == SAVED_REGS
    requires pcReg < |r.regs| && spReg < |r.regs| && pcReg != spReg
    requires forall rules: Rules :: IsOrder(order(rules), rules)
    modifies d, r
    ensures GoodCaches(d)
    ensures ok ==> |r.regs| == |old(r.regs)| && finished == (r.regs[pcReg] == 0) && Unwound(d.sec, process, pcReg, spReg, pc, old(r.regs), r.regs)
    ensures Fresh(d.sec, pc).Some? ==>
      var after := Simultaneous(FrameFor(d.sec, process, Fresh(d.sec, pc).value.answer, pcReg, spReg), old(r.regs));
      ok == after.Some? && (ok ==> after == Some(r.regs))
  {
    hide Stepped;
    hide Fresh;
    hide Correct;
    hide WellBehaved;
    WellBehavedIsTransparent(d.sec, [pc], 0);
    RowCacheTransparency(d.sec);
    StepIsCorrect(d.sec, Caches(d.rows, d.cies), pc);
    finished := false;
    var a := d.Step(pc);
    if a.None? {
      return false, finished;
    }
    ok, finished := r.Eval(FrameFor(d.sec, process, a.value, pcReg, spReg), order(a.value.rules));
  }
}
