/** Applying a row: registers are overwritten one by one while a snapshot keeps
    the values they had (DwarfSection::Eval over RegsInfo). */
module DwarfEval {
  import opened Machine
  import opened DwarfMemory
  import opened DwarfCfa
  import DwarfOp

  // --------------------------------------------------------- the snapshot

  /** The registers, the bits of saved_reg_map that are set, and saved_regs. */
  datatype RegsInfo = RegsInfo(regs: seq<nat>, mask: set<nat>, saved: seq<nat>)

  const SAVED_REGS: nat := 64

  /** The bits that `1 << reg` contributes to the 64-bit map: the shift is done on
      a 32-bit int, so its count is taken modulo 32 and bit 31 is sign-extended. */
  function MaskBits(reg: nat): set<nat> {
    if Slot(reg) == 31 then BitsFrom(31) else {Slot(reg)}
  }

  function Slot(reg: nat): nat { reg % 32 }

  function BitsFrom(low: nat): (bits: set<nat>)
    ensures forall b :: b in bits <==> low <= b < 64
    decreases 64 - low
  {
    if low >= 64 then {} else {low} + BitsFrom(low + 1)
  }

  predicate IsSaved(i: RegsInfo, reg: nat) { i.mask * MaskBits(reg) != {} }

  function Get(i: RegsInfo, reg: nat): nat
    requires reg < |i.regs| && reg < |i.saved|
  {
    if IsSaved(i, reg) then i.saved[reg] else i.regs[reg]
  }

  /** Save a register and then write through the pointer that Save returned. */
  function SaveAndSet(i: RegsInfo, reg: nat, value: nat): RegsInfo
    requires reg < |i.regs| && reg < |i.saved|
  {
    RegsInfo(i.regs[reg := value], i.mask + MaskBits(reg), i.saved[reg := i.regs[reg]])
  }

  /** A register and the value it is given. */
  datatype Write = Write(reg: nat, value: nat)

  predicate DistinctRegs(ws: seq<Write>) {
    forall i, j :: 0 <= i < j < |ws| ==> ws[i].reg != ws[j].reg
  }

  function WriteAll(i: RegsInfo, ws: seq<Write>): (r: RegsInfo)
    requires |i.regs| <= |i.saved| && forall k :: 0 <= k < |ws| ==> ws[k].reg < |i.regs|
    ensures |r.regs| == |i.regs| && |r.saved| == |i.saved|
    decreases |ws|
  {
    if ws == [] then i
    else
      var last := ws[|ws| - 1];
      SaveAndSet(WriteAll(i, ws[..|ws| - 1]), last.reg, last.value)
  }

  predicate Written(ws: seq<Write>, reg: nat) { exists k :: 0 <= k < |ws| && ws[k].reg == reg }

  /** No ruled register shares its bit with another register of the machine. */
  predicate Separate(ruled: set<nat>, total: nat) {
    forall r: nat, q: nat :: r in ruled && r < total && q < total && Slot(r) == Slot(q) ==> r == q
  }

  predicate Within(ws: seq<Write>, ruled: set<nat>, total: nat) {
    forall k :: 0 <= k < |ws| ==> ws[k].reg in ruled && ws[k].reg < total
  }

  /** Machines of at most 32 registers are always safe. */
  lemma SmallMachinesSeparate(ruled: set<nat>, total: nat)
    requires total <= 32
    ensures Separate(ruled, total)
  {
  }

  /** ARM64 has 33 registers: the snapshot is safe unless x0 or the pc has a rule. */
  lemma Arm64Separate(ruled: set<nat>)
    ensures Separate(ruled, 33) <==> 0 !in ruled && 32 !in ruled
  {
    if 0 in ruled || 32 in ruled {
      assert Slot(0) == Slot(32);
    }
  }

  /** With separate bits, the map tells exactly which registers were written. */
  lemma {:induction false} WritesTracked(start: seq<nat>, junk: seq<nat>, ws: seq<Write>, ruled: set<nat>)
    requires |start| <= |junk| == SAVED_REGS && Separate(ruled, |start|) && DistinctRegs(ws) && Within(ws, ruled, |start|)
    ensures var i := WriteAll(RegsInfo(start, {}, junk), ws);
      forall r :: 0 <= r < |start| ==>
        (IsSaved(i, r) <==> Written(ws, r))
        && (Written(ws, r) ==> i.saved[r] == start[r]) && (!Written(ws, r) ==> i.regs[r] == start[r])
    decreases |ws|
  {
    if ws != [] {
      var front, last := ws[..|ws| - 1], ws[|ws| - 1];
      WritesTracked(start, junk, front, ruled);
      var before := WriteAll(RegsInfo(start, {}, junk), front);
      var after := SaveAndSet(before, last.reg, last.value);
      assert !Written(front, last.reg);
      forall r | 0 <= r < |start|
        ensures IsSaved(after, r) <==> Written(ws, r)
        ensures Written(ws, r) ==> after.saved[r] == start[r]
        ensures !Written(ws, r) ==> after.regs[r] == start[r]
      {
        WrittenSnoc(front, last, r);
        assert ws == front + [last];
        SavedAfter(before, last.reg, last.value, r, ruled);
      }
    }
  }

  lemma NothingWritten(i: RegsInfo)
    requires |i.regs| <= |i.saved|
    ensures WriteAll(i, []) == i
  {
  }

  lemma WrittenSnoc(ws: seq<Write>, w: Write, reg: nat)
    ensures Written(ws + [w], reg) <==> Written(ws, reg) || w.reg == reg
  {
    if Written(ws, reg) {
      var k :| 0 <= k < |ws| && ws[k].reg == reg;
      assert (ws + [w])[k].reg == reg;
    }
    assert (ws + [w])[|ws|] == w;
  }

  lemma SavedAfter(i: RegsInfo, reg: nat, value: nat, r: nat, ruled: set<nat>)
    requires reg < |i.regs| <= |i.saved| && r < |i.regs| && reg in ruled && Separate(ruled, |i.regs|)
    ensures IsSaved(SaveAndSet(i, reg, value), r) <==> IsSaved(i, r) || r == reg
  {
    var m, b, c := i.mask, MaskBits(reg), MaskBits(r);
    assert (m + b) * c == m * c + b * c;
    if r == reg {
      assert Slot(r) in b * c;
    } else {
      assert b * c == {};
    }
  }

  /** Whatever registers with rules are written, every read through the snapshot gives
      the register's value from before. */
  ghost predicate SnapshotFaithful(ruled: set<nat>, total: nat)
    requires total <= SAVED_REGS
  {
    forall regs: seq<nat>, junk: seq<nat>, ws: seq<Write>, r ::
      |regs| == total && |junk| == SAVED_REGS && DistinctRegs(ws) && Within(ws, ruled, total) && 0 <= r < total ==>
      Get(WriteAll(RegsInfo(regs, {}, junk), ws), r) == regs[r]
  }

  /** Saving a register makes one that shares its bit look saved too. */
  lemma SharedBitMisreads(r: nat, q: nat, regs: seq<nat>, junk: seq<nat>)
    requires r != q && Slot(r) == Slot(q) && r < |regs| && q < |regs| <= |junk|
    ensures Get(WriteAll(RegsInfo(regs, {}, junk), [Write(r, 0)]), q) == junk[q]
  {
    var ws := [Write(r, 0)];
    assert ws[..0] == [];
    var i := RegsInfo(regs, {}, junk);
    assert WriteAll(i, ws[..0]) == i;
    assert Slot(r) in MaskBits(r) * MaskBits(q);
  }

  /** The snapshot is faithful exactly when ruled registers have bits of their own. */
  lemma SnapshotExactly(ruled: set<nat>, total: nat)
    requires total <= SAVED_REGS
    ensures SnapshotFaithful(ruled, total) <==> Separate(ruled, total)
  {
    if Separate(ruled, total) {
      forall regs: seq<nat>, junk: seq<nat>, ws: seq<Write>, r |
        |regs| == total && |junk| == SAVED_REGS && DistinctRegs(ws) && Within(ws, ruled, total) && 0 <= r < total
        ensures Get(WriteAll(RegsInfo(regs, {}, junk), ws), r) == regs[r]
      {
        WritesTracked(regs, junk, ws, ruled);
      }
    } else {
      var r: nat, q: nat :| r in ruled && r < total && q < total && Slot(r) == Slot(q) && r != q;
      var regs, junk := seq(total, k => 1), seq(SAVED_REGS, k => 0);
      var ws := [Write(r, 0)];
      assert DistinctRegs(ws) && Within(ws, ruled, total);
      SharedBitMisreads(r, q, regs, junk);
      assert Get(WriteAll(RegsInfo(regs, {}, junk), ws), q) != regs[q];
    }
  }

  // ------------------------------------------------------------- the rules

  /** What one unwinding step works on. */
  datatype Frame = Frame(w: Width, code: Memory, mem: Memory, rules: Rules,
                         returnReg: nat, pcReg: nat, spReg: nat)

  function ContextOf(f: Frame, regs: seq<nat>): DwarfOp.Context {
    DwarfOp.Context(f.w, f.code, f.mem, regs)
  }

  /** The CFA under the registers of the callee; only two kinds of rule can give it. */
  function CfaValue(f: Frame, regs: seq<nat>): Option<nat> {
    if CFA_REG !in f.rules then None
    else
      match f.rules[CFA_REG]
      case Register(r, add) => if r >= |regs| then None else Some(Wrap(f.w, regs[r] + add))
      case ValExpression(len, end) => DwarfOp.ExpressionValue(ContextOf(f, regs), len, end)
      case _ => None
  }

  /** The caller's value of a register under its rule, from the callee's registers. */
  function RuleValue(f: Frame, loc: Location, cfa: nat, regs: seq<nat>, current: nat): Option<nat> {
    match loc
    case Undefined => Some(current)
    case Offset(v) => ReadLE(f.mem, (cfa + v) % TWO64, f.w.Size())
    case ValOffset(v) => Some(Wrap(f.w, cfa + v))
    case Register(r, add) => if r % TWO32 >= |regs| then None else Some(Wrap(f.w, regs[r % TWO32] + add))
    case Expression(len, end) =>
      (match DwarfOp.ExpressionValue(ContextOf(f, regs), len, end)
       case None => None
       case Some(a) => ReadLE(f.mem, a, f.w.Size()))
    case ValExpression(len, end) => DwarfOp.ExpressionValue(ContextOf(f, regs), len, end)
  }

  predicate HasRule(f: Frame, r: nat) { r in f.rules && r != CFA_REG }

  /** Every rule for a register of this machine has a value. */
  predicate RulesDefined(f: Frame, cfa: nat, regs: seq<nat>) {
    forall r :: 0 <= r < |regs| && HasRule(f, r) ==> RuleValue(f, f.rules[r], cfa, regs, regs[r]).Some?
  }

  /** All rules applied at once to the old registers. */
  function Restored(f: Frame, cfa: nat, regs: seq<nat>): (s: seq<nat>)
    requires RulesDefined(f, cfa, regs)
    ensures |s| == |regs|
  {
    seq(|regs|, r requires 0 <= r < |regs| =>
      if HasRule(f, r) then RuleValue(f, f.rules[r], cfa, regs, regs[r]).value else regs[r])
  }

  /** The caller's registers, with the pc taken from the return address register
      and the stack pointer from the CFA; None when Eval must fail. */
  function Simultaneous(f: Frame, regs: seq<nat>): Option<seq<nat>>
    requires f.pcReg < |regs| && f.spReg < |regs|
  {
    if f.returnReg >= |regs| || CfaValue(f, regs).None? then None
    else
      var cfa := CfaValue(f, regs).value;
      if !RulesDefined(f, cfa, regs) then None
      else
        var restored := Restored(f, cfa, regs);
        var noReturn := HasRule(f, f.returnReg) && f.rules[f.returnReg].Undefined?;
        var pc := if noReturn then 0 else restored[f.returnReg];
        Some(restored[f.pcReg := pc][f.spReg := cfa])
  }

  /** A visiting order of the rule map: every key once. */
  predicate IsOrder(order: seq<nat>, rules: Rules) {
    && (forall i :: 0 <= i < |order| ==> order[i] in rules)
    && (forall r :: r in rules ==> r in order)
    && (forall i, j :: 0 <= i < j < |order| ==> order[i] != order[j])
  }

  /** Each write gives a register the value its rule has under the old registers. */
  predicate ByRule(f: Frame, cfa: nat, regs: seq<nat>, ws: seq<Write>) {
    forall k :: 0 <= k < |ws| ==> WriteByRule(f, cfa, regs, ws[k])
  }

  predicate WriteByRule(f: Frame, cfa: nat, regs: seq<nat>, w: Write) {
    w.reg < |regs| && HasRule(f, w.reg)
    && RuleValue(f, f.rules[w.reg], cfa, regs, regs[w.reg]) == Some(w.value)
  }

  lemma WriteSnoc(i: RegsInfo, ws: seq<Write>, w: Write)
    requires |i.regs| <= |i.saved| && w.reg < |i.regs| && forall k :: 0 <= k < |ws| ==> ws[k].reg < |i.regs|
    ensures forall k :: 0 <= k < |ws + [w]| ==> (ws + [w])[k].reg < |i.regs|
    ensures WriteAll(i, ws + [w]) == SaveAndSet(WriteAll(i, ws), w.reg, w.value)
  {
    assert (ws + [w])[..|ws|] == ws;
  }

  /** Right after a register is saved, before it is written, the snapshot still shows
      every register as it was. */
  lemma SavedView(before: seq<nat>, junk: seq<nat>, ws: seq<Write>, reg: nat, ruled: set<nat>)
    requires |before| <= |junk| == SAVED_REGS && Separate(ruled, |before|)
    requires DistinctRegs(ws) && !Written(ws, reg) && Within(ws, ruled, |before|) && reg < |before| && reg in ruled
    ensures var i := WriteAll(RegsInfo(before, {}, junk), ws);
      i.regs[reg] == before[reg]
      && forall r :: 0 <= r < |before| ==> Get(SaveAndSet(i, reg, i.regs[reg]), r) == before[r]
  {
    hide WriteAll;
    hide Separate;
    hide IsSaved;
    WritesTracked(before, junk, ws, ruled);
    var w := Write(reg, before[reg]);
    var kept := ws + [w];
    WriteSnoc(RegsInfo(before, {}, junk), ws, w);
    assert DistinctRegs(kept) by {
      forall i | 0 <= i < |ws| ensures ws[i].reg != reg {
        assert ws[i].reg == reg ==> Written(ws, reg);
      }
    }
    WritesTracked(before, junk, kept, ruled);
    hide Written;
  }

  class Registers {
    var regs: seq<nat>
    var mask: set<nat>
    var saved: seq<nat>

    constructor (rs: seq<nat>, junk: seq<nat>)
      requires |rs| <= |junk| == SAVED_REGS
      ensures regs == rs && saved == junk && mask == {}
    {
      regs, saved, mask := rs, junk, {};
    }

    function Info(): RegsInfo
      reads this
    {
      RegsInfo(regs, mask, saved)
    }

    /** The registers as the rules and the expressions see them. */
    method View() returns (view: seq<nat>)
      requires |regs| <= |saved|
      ensures |view| == |regs| && forall r :: 0 <= r < |regs| ==> view[r] == Get(Info(), r)
    {
      view := seq(|regs|, r requires 0 <= r < |regs| && |regs| <= |saved| reads this => Get(Info(), r));
    }

    method Save(reg: nat)
      requires reg < |regs| && reg < |saved|
      modifies this`mask, this`saved
      ensures Info() == SaveAndSet(old(Info()), reg, old(regs)[reg])
    {
      mask := mask + MaskBits(reg);
      saved := saved[reg := regs[reg]];
    }

    /** Applies one rule: save, evaluate through the snapshot, write. */
    method EvalRegister(f: Frame, reg: nat, cfa: nat, ghost before: seq<nat>, ghost junk: seq<nat>, ghost ws: seq<Write>)
      returns (ok: bool)
      requires |before| <= |junk| == SAVED_REGS && Separate(f.rules.Keys, |before|)
      requires DistinctRegs(ws) && !Written(ws, reg) && Within(ws, f.rules.Keys, |before|)
      requires Info() == WriteAll(RegsInfo(before, {}, junk), ws) && reg < |before| && HasRule(f, reg)
      modifies this
      ensures ok == RuleValue(f, f.rules[reg], cfa, before, before[reg]).Some?
      ensures ok ==> Info() == WriteAll(RegsInfo(before, {}, junk),
        ws + [Write(reg, RuleValue(f, f.rules[reg], cfa, before, before[reg]).value)])
    {
      hide RuleValue;
      hide WriteAll;
      hide IsSaved;
      hide Separate;
      hide Written;
      ghost var info := Info();
      Save(reg);
      SavedView(before, junk, ws, reg, f.rules.Keys);
      var view := View();
      assert view == before;
      var value := RuleValue(f, f.rules[reg], cfa, view, regs[reg]);
      ok := value.Some?;
      if ok {
        WriteSnoc(RegsInfo(before, {}, junk), ws, Write(reg, value.value));
        regs := regs[reg := value.value];
        assert Info() == SaveAndSet(info, reg, value.value);
      }
    }

    /** Eval in the given visiting order. Whatever the order, it succeeds exactly
        when every rule has a value under the old registers, and then the registers
        are the simultaneous assignment. Registers with rules need bits of their own
        in the snapshot's map. */
    method Eval(f: Frame, order: seq<nat>) returns (ok: bool, finished: bool)
      requires |regs| <= |saved| == SAVED_REGS && Separate(f.rules.Keys, |regs|) && IsOrder(order, f.rules)
      requires f.pcReg < |regs| && f.spReg < |regs| && f.pcReg != f.spReg
      modifies this
      ensures ok == Simultaneous(f, old(regs)).Some?
      ensures ok ==> regs == Simultaneous(f, old(regs)).value && finished == (regs[f.pcReg] == 0)
    {
      hide WriteAll;
      hide RuleValue;
      hide CfaValue;
      finished := false;
      mask := {};
      if f.returnReg >= |regs| {
        return false, finished;
      }
      var cfa := CfaValue(f, regs);
      if cfa.None? {
        return false, finished;
      }
      var noReturn := false;
      ghost var before, junk := regs, saved;
      ghost var ws: seq<Write> := [];
      NothingWritten(Info());
      for i := 0 to |order|
        invariant DistinctRegs(ws) && Within(ws, f.rules.Keys, |before|)
        invariant Info() == WriteAll(RegsInfo(before, {}, junk), ws)
        invariant forall r: nat :: Written(ws, r) <==> r in order[..i] && r < |before|
        invariant ByRule(f, cfa.value, before, ws)
        invariant noReturn <==> f.returnReg in order[..i] && f.rules[f.returnReg].Undefined?
      {
        var reg := order[i];
        assert order[..i + 1] == order[..i] + [reg];
        if reg < |regs| {
          assert reg !in order[..i];
          var good := EvalRegister(f, reg, cfa.value, before, junk, ws);
          if !good {
            return false, finished;
          }
          ghost var w := Write(reg, RuleValue(f, f.rules[reg], cfa.value, before, before[reg]).value);
          forall r ensures Written(ws + [w], r) <==> Written(ws, r) || r == reg {
            WrittenSnoc(ws, w, r);
          }
          ws := ws + [w];
          if reg == f.returnReg && f.rules[reg].Undefined? {
            noReturn := true;
          }
        }
      }
      assert order[..|order|] == order;
      ApplyingAll(f, cfa.value, before, junk, ws);
      regs := regs[f.pcReg := if noReturn then 0 else regs[f.returnReg]];
      finished := regs[f.pcReg] == 0;
      regs := regs[f.spReg := cfa.value];
      ok := true;
    }
  }

  lemma {:induction false} ValueWritten(before: seq<nat>, junk: seq<nat>, ws: seq<Write>, k: nat)
    requires |before| <= |junk| && DistinctRegs(ws) && k < |ws|
    requires forall j :: 0 <= j < |ws| ==> ws[j].reg < |before|
    ensures WriteAll(RegsInfo(before, {}, junk), ws).regs[ws[k].reg] == ws[k].value
    decreases |ws|
  {
    if k < |ws| - 1 {
      ValueWritten(before, junk, ws[..|ws| - 1], k);
    }
  }

  /** One write per rule leaves the simultaneous assignment behind. */
  lemma ApplyingAll(f: Frame, cfa: nat, before: seq<nat>, junk: seq<nat>, ws: seq<Write>)
    requires |before| <= |junk| == SAVED_REGS && Separate(f.rules.Keys, |before|)
    requires DistinctRegs(ws) && Within(ws, f.rules.Keys, |before|)
    requires forall r :: 0 <= r < |before| ==> (Written(ws, r) <==> HasRule(f, r))
    requires ByRule(f, cfa, before, ws)
    ensures RulesDefined(f, cfa, before)
    ensures WriteAll(RegsInfo(before, {}, junk), ws).regs == Restored(f, cfa, before)
  {
    WritesTracked(before, junk, ws, f.rules.Keys);
    var after := WriteAll(RegsInfo(before, {}, junk), ws).regs;
    forall r | 0 <= r < |before| && HasRule(f, r)
      ensures RuleValue(f, f.rules[r], cfa, before, before[r]) == Some(after[r])
    {
      var k :| 0 <= k < |ws| && ws[k].reg == r;
      ValueWritten(before, junk, ws, k);
    }
  }
}
