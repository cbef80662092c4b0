/** What the shape of an instruction list says about the runs of its assembled bytes:
    whether they move, in which direction, what they leave remembered and for which
    registers they make rules. */
module CfaShape {
  import opened Machine
  import opened DwarfMemory
  import opened DwarfCfa
  import opened CfaRows
  import opened CfaCode
  import opened DwarfStep
  import Operands

  predicate IsMove(i: Insn) { i.SetLoc? || i.AdvanceLoc? }

  predicate Unmoving(code: seq<Insn>) { forall k :: 0 <= k < |code| ==> !IsMove(code[k]) }

  predicate WithoutSetLoc(code: seq<Insn>) { forall k :: 0 <= k < |code| ==> !code[k].SetLoc? }

  /** Remembered rows that are open behind a list, from d open ones; None if it closes
      one that is not there. */
  function OpenAfter(code: seq<Insn>, d: nat): Option<nat> {
    if code == [] then Some(d)
    else if code[0].Remember? then OpenAfter(code[1..], d + 1)
    else if !code[0].RestoreRemembered? then OpenAfter(code[1..], d)
    else if d == 0 then None
    else OpenAfter(code[1..], d - 1)
  }

  /** The distance that the advances of a list cover. */
  function Span(codeAlign: nat, code: seq<Insn>): nat {
    if code == [] then 0
    else (if code[0].AdvanceLoc? then code[0].delta * codeAlign else 0) + Span(codeAlign, code[1..])
  }

  predicate EndsInRestore(code: seq<Insn>) { code != [] && code[|code| - 1].RestoreRemembered? }

  /** The registers an instruction can give a rule. */
  function RuleOf(i: Insn): set<nat> {
    match i
    case OffsetRule(r, _) => {r}
    case OffsetExtended(r, _) => {r}
    case OffsetExtendedSf(r, _) => {r}
    case GnuNegativeOffset(r, _) => {r}
    case ValOffsetRule(r, _) => {r}
    case ValOffsetSf(r, _) => {r}
    case UndefinedRule(r) => {r}
    case RegisterRule(r, _) => {r}
    case ExpressionRule(r, _) => {r}
    case ValExpressionRule(r, _) => {r}
    case DefCfa(_, _) => {CFA_REG}
    case DefCfaSf(_, _) => {CFA_REG}
    case CfaExpression(_) => {CFA_REG}
    case _ => {}
  }

  function RuleRegs(code: seq<Insn>): set<nat> {
    if code == [] then {} else RuleOf(code[0]) + RuleRegs(code[1..])
  }

  // ----------------------------------------------------- single instructions

  lemma InterpretedKind(p: Program, op: Byte, xs: seq<nat>, cursor: nat)
    requires OperandKinds(op).Some? && |xs| == |OperandKinds(op).value|
    ensures var i := Interpret(p, op, xs, cursor);
      (i.SetLoc? || i.Advance? ==> 1 <= op <= 4) && (i.RestoreState? ==> op == 0x0b)
  {
    hide Factored;
    hide ProductDefined;
    hide NegationDefined;
  }

  lemma ShapeKind(i: Insn)
    requires !IsPacked(i)
    ensures 1 <= Shape(i).0 <= 4 ==> IsMove(i)
    ensures Shape(i).0 == 0x0b ==> i.RestoreRemembered?
  {
  }

  /** Only instructions that move decode to a move, and only a restore to a restore. */
  lemma DecodedKind(p: Program, off: nat, i: Insn)
    requires Fits(p.w, i) && Holds(p.mem, off, Bytes(p.w, i))
    ensures Decode(p, off).Op? && Decode(p, off).next == off + |Bytes(p.w, i)|
    ensures Decode(p, off).instr.SetLoc? || Decode(p, off).instr.Advance? ==> IsMove(i)
    ensures Decode(p, off).instr.RestoreState? ==> i.RestoreRemembered?
  {
    hide Decode;
    hide Interpret;
    hide Bytes;
    hide Holds;
    hide Operands.Values;
    hide TooBig;
    hide Slot;
    hide OperandKinds;
    hide Fits;
    if IsPacked(i) {
      PackedDecodes(p, off, i);
    } else {
      PlainDecodes(p, off, i);
      var (op, args) := Shape(i);
      InterpretedKind(p, op, Operands.Values(p.w, args), off + |Bytes(p.w, i)|);
      ShapeKind(i);
    }
  }

  /** One turn of the interpreter over an assembled instruction. */
  lemma StepOfInsn(p: Program, pc: nat, off: nat, s: State, i: Insn)
    requires Fits(p.w, i) && Holds(p.mem, off, Bytes(p.w, i)) && off < p.end && s.pc <= pc
    ensures var next := off + |Bytes(p.w, i)|;
      var after := Effect(p, s.(start := s.pc), i, next);
      if after.Some? then Step(p, pc, off, s) == Continue(next, after.value) else Step(p, pc, off, s).Stop? && Step(p, pc, off, s).outcome.Failed?
  {
    hide Decode;
    hide Exec;
    hide Effect;
    hide Bytes;
    hide Holds;
    hide Fits;
    BytesNotEmpty(p.w, i);
    InsnEffect(p, s.(start := s.pc), off, i);
  }

  lemma EffectLocation(p: Program, s: State, i: Insn, next: nat)
    requires Effect(p, s, i, next).Some?
    ensures var t := Effect(p, s, i, next).value;
      (!IsMove(i) ==> t.pc == s.pc) && (i.AdvanceLoc? ==> t.pc == Wrap(p.w, s.pc + i.delta * p.codeAlign))
  {
    hide Wrap;
    hide Slot;
    hide TooBig;
  }

  lemma EffectStack(p: Program, s: State, i: Insn, next: nat)
    requires Effect(p, s, i, next).Some?
    ensures var t := Effect(p, s, i, next).value;
      if i.Remember? then t.stack == s.stack + [Saved(s.rules, s.start)]
      else if i.RestoreRemembered? && s.stack != [] then t.stack == s.stack[..|s.stack| - 1]
      else t.stack == s.stack
  {
    hide Wrap;
    hide Slot;
    hide TooBig;
  }

  /** All rules that are in force, remembered or given by the CIE are for these registers. */
  predicate KeysWithin(p: Program, s: State, regs: set<nat>) {
    && s.rules.Keys <= regs
    && (forall k :: 0 <= k < |s.stack| ==> s.stack[k].rules.Keys <= regs)
    && (p.cieRules.Some? ==> p.cieRules.value.Keys <= regs)
  }

  lemma EffectKeys(p: Program, s: State, i: Insn, next: nat, regs: set<nat>)
    requires Effect(p, s, i, next).Some? && KeysWithin(p, s, regs) && RuleOf(i) <= regs
    ensures KeysWithin(p, Effect(p, s, i, next).value, regs)
  {
    hide Wrap;
    hide Slot;
    hide TooBig;
  }

  // ----------------------------------------------------------- whole programs

  /** The program's bytes from off to its end are the assembled list. */
  predicate Runs(p: Program, off: nat, code: seq<Insn>) {
    AllFit(p.w, code) && Holds(p.mem, off, Assembled(p.w, code)) && p.end == off + |Assembled(p.w, code)|
  }

  /** The first instruction, and the program behind it. */
  lemma RunsRest(p: Program, off: nat, code: seq<Insn>)
    requires Runs(p, off, code) && code != []
    ensures Fits(p.w, code[0]) && Holds(p.mem, off, Bytes(p.w, code[0])) && off < p.end
    ensures off < off + |Bytes(p.w, code[0])| && Runs(p, off + |Bytes(p.w, code[0])|, code[1..])
  {
    hide Holds;
    hide Bytes;
    hide Fits;
    HoldsAppend(p.mem, off, Bytes(p.w, code[0]), Assembled(p.w, code[1..]));
    BytesNotEmpty(p.w, code[0]);
  }

  /** A list without moves assembles to a program that stays still. */
  lemma {:induction false} UnmovingIsStill(p: Program, off: nat, code: seq<Insn>)
    requires Runs(p, off, code) && Unmoving(code)
    ensures Still(p, off)
    decreases |code|
  {
    hide Decode;
    hide Bytes;
    hide Runs;
    if code == [] {
      RunsNothing(p, off, code);
    } else {
      RunsRest(p, off, code);
      DecodedKind(p, off, code[0]);
      UnmovingIsStill(p, off + |Bytes(p.w, code[0])|, code[1..]);
    }
  }

  lemma RunsNothing(p: Program, off: nat, code: seq<Insn>)
    requires Runs(p, off, code) && code == []
    ensures p.end == off
  {
  }

  /** Without moves every instruction is executed, and what stays remembered is what the
      list leaves open. */
  lemma {:induction false} RowLeavesOpen(p: Program, pc: nat, off: nat, s: State, code: seq<Insn>)
    requires AllFit(p.w, code) && Unmoving(code) && s.pc <= pc && OpenAfter(code, |s.stack|).Some?
    requires RowAt(p, pc, off, s, code).Row?
    ensures |RowAt(p, pc, off, s, code).stack| == OpenAfter(code, |s.stack|).value
    decreases |code|
  {
    hide Effect;
    hide Bytes;
    hide Fits;
    if code != [] {
      var next := off + |Bytes(p.w, code[0])|;
      var at := s.(start := s.pc);
      EffectLocation(p, at, code[0], next);
      EffectStack(p, at, code[0], next);
      RowLeavesOpen(p, pc, next, Effect(p, at, code[0], next).value, code[1..]);
    }
  }

  lemma {:induction false} RowKeys(p: Program, pc: nat, off: nat, s: State, code: seq<Insn>, regs: set<nat>)
    requires AllFit(p.w, code) && KeysWithin(p, s, regs) && RuleRegs(code) <= regs
    requires RowAt(p, pc, off, s, code).Row?
    ensures RowAt(p, pc, off, s, code).rules.Keys <= regs
    ensures forall k :: 0 <= k < |RowAt(p, pc, off, s, code).stack| ==> RowAt(p, pc, off, s, code).stack[k].rules.Keys <= regs
    decreases |code|
  {
    hide Effect;
    hide Bytes;
    hide Fits;
    hide RuleOf;
    if code != [] && s.pc <= pc {
      var next := off + |Bytes(p.w, code[0])|;
      var at := s.(start := s.pc);
      EffectKeys(p, at, code[0], next, regs);
      RowKeys(p, pc, next, Effect(p, at, code[0], next).value, code[1..], regs);
    }
  }

  /** A list of advances that stays below a limit never moves backwards, and the row it
      gives ends at the limit at the latest. */
  lemma {:induction false} AdvancesMoveForward(p: Program, pc: nat, off: nat, s: State, code: seq<Insn>)
    requires Runs(p, off, code) && WithoutSetLoc(code) && s.pc + Span(p.codeAlign, code) <= p.pcEnd < p.w.Modulus()
    ensures NonDecreasing(p, pc, off, s)
    ensures Run(p, pc, off, s).Row? ==> Run(p, pc, off, s).end <= p.pcEnd
    decreases |code|
  {
    hide Step;
    hide Bytes;
    hide Runs;
    hide Effect;
    hide Span;
    if code == [] {
      RunsNothing(p, off, code);
      StopsAtEnd(p, pc, off, s);
    } else if s.pc > pc {
      StopsAtEnd(p, pc, off, s);
    } else {
      RunsRest(p, off, code);
      StepOfInsn(p, pc, off, s, code[0]);
      var next := off + |Bytes(p.w, code[0])|;
      var after := Effect(p, s.(start := s.pc), code[0], next);
      if after.Some? {
        NextLocation(p, s.(start := s.pc), next, code);
        AdvancesMoveForward(p, pc, next, after.value, code[1..]);
      }
    }
  }

  /** An advance that stays below the limit does not wrap. */
  lemma NextLocation(p: Program, s: State, next: nat, code: seq<Insn>)
    requires code != [] && !code[0].SetLoc? && Effect(p, s, code[0], next).Some?
    requires s.pc + Span(p.codeAlign, code) < p.w.Modulus()
    ensures var t := Effect(p, s, code[0], next).value;
      s.pc <= t.pc && t.pc + Span(p.codeAlign, code[1..]) == s.pc + Span(p.codeAlign, code)
  {
    hide Effect;
    hide Wrap;
    EffectLocation(p, s, code[0], next);
    if code[0].AdvanceLoc? {
      WrapSmall(p.w, s.pc + code[0].delta * p.codeAlign);
    }
  }

  /** A run past pc, or at the end of its program, stops with the current row. */
  lemma StopsAtEnd(p: Program, pc: nat, off: nat, s: State)
    requires s.pc > pc || off >= p.end
    ensures Step(p, pc, off, s) == Stop(Row(s.rules, s.start, if s.pc > pc then s.pc else p.pcEnd, s.stack))
  {
  }

  /** A list that does not end in a restore does not end in a stale one, wherever it is
      stopped: only a move can stop it before its end. */
  lemma {:induction false} NoStaleRestore(p: Program, pc: nat, off: nat, s: State, code: seq<Insn>)
    requires Runs(p, off, code) && !EndsInRestore(code) && Run(p, pc, off, s).Row?
    ensures !EndsInStaleRestore(p, pc, off, s)
    decreases |code|
  {
    hide Step;
    hide Bytes;
    hide Runs;
    hide Effect;
    hide Decode;
    if code == [] {
      RunsNothing(p, off, code);
      StopsAtEnd(p, pc, off, s);
    } else if s.pc > pc {
      StopsAtEnd(p, pc, off, s);
    } else {
      var i, rest := code[0], code[1..];
      RunsRest(p, off, code);
      StepOfInsn(p, pc, off, s, i);
      DecodedKind(p, off, i);
      var next := off + |Bytes(p.w, i)|;
      var after := Effect(p, s.(start := s.pc), i, next);
      if after.Some? {
        EffectLocation(p, s.(start := s.pc), i, next);
        if rest != [] {
          assert rest[|rest| - 1] == code[|code| - 1];
          if after.value.pc <= pc {
            RunsRest(p, next, rest);
            StepOfInsn(p, pc, next, after.value, rest[0]);
          }
        }
        NoStaleRestore(p, pc, next, after.value, rest);
      }
    }
  }
}
