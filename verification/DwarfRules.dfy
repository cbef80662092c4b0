/** What the rules of a row say about the caller, instruction by instruction: bytes in
    memory, sums, and the value of an expression's tree (section 6.4.1 of DWARF 4). */
module DwarfRules {
  import opened Machine
  import opened DwarfMemory
  import opened DwarfCfa
  import opened Cfa = CfaCode
  import opened Postfix = DwarfPostfix
  import opened Op = DwarfOp
  import Eval = DwarfEval

  /** A computed value without the reason of a fault. */
  function Known(c: Computed): Option<nat> { if c.Value? then Some(c.v) else None }

  /** The block is the code of the tree, and the bytes before `next` are the block. */
  predicate HasTree(w: Width, code: Memory, block: seq<Byte>, next: nat, tree: Expr) {
    && Encodable(w, tree) && Ops(tree) <= 1000 && block == Postfix.Code(w, tree)
    && |block| <= next < TWO64 && Holds(code, next - |block|, block)
  }

  /** The value of an expression in a rule is the value of its tree; a fault is none. */
  lemma ExpressionMeans(c: Context, tree: Expr, block: seq<Byte>, next: nat)
    requires HasTree(c.w, c.code, block, next, tree)
    ensures ExpressionValue(c, |block|, next) == Known(Meaning(c, tree))
  {
    hide Meaning;
    hide Postfix.Code;
    hide Holds;
    hide Evaluate;
    hide Ops;
    PostfixCompilation(c, tree, next - |block|);
    WrapSmall(W64, next - |block|);
  }

  /** Instructions that give a register of the caller a rule. */
  predicate MakesRule(i: Insn) {
    i.OffsetRule? || i.OffsetExtended? || i.OffsetExtendedSf? || i.GnuNegativeOffset? || i.ValOffsetRule? || i.ValOffsetSf?
    || i.RegisterRule? || i.ExpressionRule? || i.ValExpressionRule?
  }

  /** The word at an address of the process. */
  function WordAt(c: Context, a: int): Computed { NumberAt(c.mem, a % TWO64, c.w.Size()) }

  /** The caller's value of a register after the instruction that gives it a rule. */
  function RuleMeaning(c: Context, align: int, i: Insn, tree: Expr, cfa: nat): Computed
    requires MakesRule(i)
  {
    match i
    case OffsetRule(_, n) => WordAt(c, cfa + Signed(c.w, n * align))
    case OffsetExtendedSf(_, d) => WordAt(c, cfa + Signed(c.w, d * align))
    case OffsetExtended(_, n) => WordAt(c, cfa + n)
    case GnuNegativeOffset(_, n) => WordAt(c, cfa - n)
    case ValOffsetRule(_, n) => Value(Wrap(c.w, cfa + n * align))
    case ValOffsetSf(_, d) => Value(Wrap(c.w, cfa + d * align))
    case RegisterRule(_, q) => RegisterMeaning(c, q, 0)
    case ExpressionRule(_, _) => if Meaning(c, tree).Value? then NumberAt(c.mem, Meaning(c, tree).v, c.w.Size()) else Meaning(c, tree)
    case ValExpressionRule(_, _) => Meaning(c, tree)
  }

  lemma SignedIsCongruent(w: Width, x: int)
    ensures Wrap(w, Signed(w, x)) == Wrap(w, x)
  {
    match w
    case W32 =>
    case W64 =>
  }

  /** Adding a rule's slot adds the number it holds, to an address and to a word. */
  lemma SlotAdds(w: Width, a: nat, x: int)
    ensures (a + Slot(w, x)) % TWO64 == (a + Signed(w, x)) % TWO64
    ensures Wrap(w, a + Slot(w, x)) == Wrap(w, a + x)
  {
    hide Wrap;
    hide Signed;
    Mod64Add(Signed(w, x), a);
    Reduce(w, Signed(w, x));
    SignedIsCongruent(w, x);
    WrapAdd(w, a, Slot(w, x));
    WrapAdd(w, a, x);
  }

  /** Reading through a rule is reading a number at its address. */
  lemma OffsetReads(f: Eval.Frame, v: nat, cfa: nat, a: int, regs: seq<nat>, current: nat)
    requires (cfa + v) % TWO64 == a % TWO64
    ensures Eval.RuleValue(f, Offset(v), cfa, regs, current) == Known(WordAt(Eval.ContextOf(f, regs), a))
  {
  }

  lemma SlotReads(f: Eval.Frame, x: int, cfa: nat, regs: seq<nat>, current: nat)
    ensures Eval.RuleValue(f, Offset(Slot(f.w, x)), cfa, regs, current)
         == Known(WordAt(Eval.ContextOf(f, regs), cfa + Signed(f.w, x)))
  {
    hide Eval.RuleValue;
    hide WordAt;
    hide Slot;
    hide Signed;
    SlotAdds(f.w, cfa, x);
    OffsetReads(f, Slot(f.w, x), cfa, cfa + Signed(f.w, x), regs, current);
  }

  /** The rule that an instruction leaves for its register. */
  function RuleAfter(p: Program, s: State, i: Insn, next: nat): Option<Location>
    requires MakesRule(i)
  {
    match Cfa.Effect(p, s, i, next)
    case None => None
    case Some(t) => if i.reg in t.rules then Some(t.rules[i.reg]) else None
  }

  function Place(w: Width, align: int, i: Insn, next: nat): Location
    requires MakesRule(i)
  {
    match i
    case OffsetRule(_, n) => Offset(Slot(w, n * align))
    case OffsetExtendedSf(_, d) => Offset(Slot(w, d * align))
    case OffsetExtended(_, n) => Offset(n)
    case GnuNegativeOffset(_, n) => Offset(Slot(w, 0 - n))
    case ValOffsetRule(_, n) => ValOffset(Slot(w, n * align))
    case ValOffsetSf(_, d) => ValOffset(Slot(w, d * align))
    case RegisterRule(_, q) => Register(q, 0)
    case ExpressionRule(_, block) => Expression(|block|, next)
    case ValExpressionRule(_, block) => ValExpression(|block|, next)
  }

  lemma RuleIsPlace(p: Program, s: State, i: Insn, next: nat)
    requires MakesRule(i) && !Overflows(p, i)
    ensures RuleAfter(p, s, i, next) == Some(Place(p.w, p.dataAlign, i, next))
  {
    hide Slot;
    hide Overflows;
  }

  lemma StoredRules(f: Eval.Frame, align: int, i: Insn, next: nat, cfa: nat, regs: seq<nat>, current: nat, tree: Expr)
    requires i.OffsetRule? || i.OffsetExtended? || i.OffsetExtendedSf? || i.GnuNegativeOffset?
    requires Fits(f.w, i)
    ensures Eval.RuleValue(f, Place(f.w, align, i, next), cfa, regs, current)
         == Known(RuleMeaning(Eval.ContextOf(f, regs), align, i, tree, cfa))
  {
    hide Eval.RuleValue;
    hide WordAt;
    hide Slot;
    hide Signed;
    match i
    case OffsetRule(_, n) => SlotReads(f, n * align, cfa, regs, current);
    case OffsetExtendedSf(_, d) => SlotReads(f, d * align, cfa, regs, current);
    case OffsetExtended(_, n) => OffsetReads(f, n, cfa, cfa + n, regs, current);
    case GnuNegativeOffset(_, n) =>
      SlotReads(f, 0 - n, cfa, regs, current);
      SignedValue(f.w, 0 - n);
  }

  lemma ComputedRules(f: Eval.Frame, align: int, i: Insn, next: nat, cfa: nat, regs: seq<nat>, current: nat, tree: Expr)
    requires i.ValOffsetRule? || i.ValOffsetSf? || i.RegisterRule?
    requires Fits(f.w, i)
    ensures Eval.RuleValue(f, Place(f.w, align, i, next), cfa, regs, current)
         == Known(RuleMeaning(Eval.ContextOf(f, regs), align, i, tree, cfa))
  {
    hide Slot;
    hide Wrap;
    hide ExpressionValue;
    match i
    case ValOffsetRule(_, n) => SlotAdds(f.w, cfa, n * align);
    case ValOffsetSf(_, d) => SlotAdds(f.w, cfa, d * align);
    case RegisterRule(_, q) =>
  }

  lemma ExpressionRules(f: Eval.Frame, align: int, i: Insn, next: nat, cfa: nat, regs: seq<nat>, current: nat, tree: Expr)
    requires (i.ExpressionRule? || i.ValExpressionRule?) && HasTree(f.w, f.code, i.block, next, tree)
    ensures Eval.RuleValue(f, Place(f.w, align, i, next), cfa, regs, current)
         == Known(RuleMeaning(Eval.ContextOf(f, regs), align, i, tree, cfa))
  {
    hide HasTree;
    hide Meaning;
    hide ExpressionValue;
    ExpressionMeans(Eval.ContextOf(f, regs), tree, i.block, next);
  }

  /** Every instruction that gives a register a rule: the caller's value is the word
      stored at its place, the sum, the other register or the value of the tree, and
      there is none exactly if memory is missing, the register is not one of this
      machine or the tree has a fault. */
  lemma RuleOfInstruction(p: Program, s: State, i: Insn, next: nat, f: Eval.Frame, cfa: nat, regs: seq<nat>, current: nat, tree: Expr)
    requires MakesRule(i) && Fits(p.w, i) && !Overflows(p, i) && p.w == f.w
    requires i.ExpressionRule? || i.ValExpressionRule? ==> HasTree(f.w, f.code, i.block, next, tree)
    ensures RuleAfter(p, s, i, next).Some?
    ensures Eval.RuleValue(f, RuleAfter(p, s, i, next).value, cfa, regs, current)
         == Known(RuleMeaning(Eval.ContextOf(f, regs), p.dataAlign, i, tree, cfa))
  {
    hide Eval.RuleValue;
    hide RuleMeaning;
    hide RuleAfter;
    hide HasTree;
    hide Overflows;
    hide Place;
    RuleIsPlace(p, s, i, next);
    if i.ExpressionRule? || i.ValExpressionRule? {
      ExpressionRules(f, p.dataAlign, i, next, cfa, regs, current, tree);
    } else if i.ValOffsetRule? || i.ValOffsetSf? || i.RegisterRule? {
      ComputedRules(f, p.dataAlign, i, next, cfa, regs, current, tree);
    } else {
      StoredRules(f, p.dataAlign, i, next, cfa, regs, current, tree);
    }
  }

  // ------------------------------------------------------------------ the CFA

  predicate DefinesCfa(i: Insn) {
    i.DefCfa? || i.DefCfaSf? || i.CfaRegister? || i.CfaOffset? || i.CfaOffsetSf? || i.CfaExpression?
  }

  /** The CFA after an instruction that defines it, over a register and an offset before. */
  function CfaMeaning(c: Context, align: int, i: Insn, tree: Expr, reg: nat, add: nat): Computed
    requires DefinesCfa(i)
  {
    match i
    case DefCfa(r, n) => RegisterMeaning(c, r, n)
    case DefCfaSf(r, d) => RegisterMeaning(c, r, d * align)
    case CfaRegister(r) => RegisterMeaning(c, r, add)
    case CfaOffset(n) => RegisterMeaning(c, reg, n)
    case CfaOffsetSf(d) => RegisterMeaning(c, reg, d * align)
    case CfaExpression(_) => Meaning(c, tree)
  }

  /** Every instruction that defines the CFA: it is a register plus the offset, or the
      value of the tree. */
  lemma CfaOfInstruction(p: Program, s: State, i: Insn, next: nat, f: Eval.Frame, regs: seq<nat>, tree: Expr)
    requires DefinesCfa(i) && !Overflows(p, i) && p.w == f.w
    requires i.CfaExpression? ==> HasTree(f.w, f.code, i.block, next, tree)
    requires Cfa.Effect(p, s, i, next).Some? && f.rules == Cfa.Effect(p, s, i, next).value.rules
    ensures var was := if CfaIsRegister(s.rules) then s.rules[CFA_REG] else Register(0, 0);
      Eval.CfaValue(f, regs) == Known(CfaMeaning(Eval.ContextOf(f, regs), p.dataAlign, i, tree, was.reg, was.add))
  {
    hide HasTree;
    hide Meaning;
    hide Overflows;
    hide Slot;
    hide Wrap;
    hide ExpressionValue;
    hide Cfa.Effect;
    hide RegisterMeaning;
    hide Eval.CfaValue;
    CfaIsPlace(p, s, i, next);
    var loc := f.rules[CFA_REG];
    if i.DefCfaSf? {
      SlotCfa(f, regs, i.reg, i.d * p.dataAlign);
    } else if i.CfaOffsetSf? {
      SlotCfa(f, regs, s.rules[CFA_REG].reg, i.d * p.dataAlign);
    } else if i.CfaExpression? {
      ExpressionMeans(Eval.ContextOf(f, regs), tree, i.block, next);
      ExpressionCfa(f, regs);
    } else {
      RegisterCfa(f, regs, loc.reg, loc.add);
    }
  }

  lemma RegisterCfa(f: Eval.Frame, regs: seq<nat>, r: nat, add: nat)
    requires CFA_REG in f.rules && f.rules[CFA_REG] == Register(r, add)
    ensures Eval.CfaValue(f, regs) == Known(RegisterMeaning(Eval.ContextOf(f, regs), r, add))
  {
    hide Wrap;
  }

  lemma SlotCfa(f: Eval.Frame, regs: seq<nat>, r: nat, x: int)
    requires CFA_REG in f.rules && f.rules[CFA_REG] == Register(r, Slot(f.w, x))
    ensures Eval.CfaValue(f, regs) == Known(RegisterMeaning(Eval.ContextOf(f, regs), r, x))
  {
    hide Wrap;
    hide Slot;
    if r < |regs| {
      SlotAdds(f.w, regs[r], x);
    }
  }

  lemma ExpressionCfa(f: Eval.Frame, regs: seq<nat>)
    requires CFA_REG in f.rules && f.rules[CFA_REG].ValExpression?
    ensures Eval.CfaValue(f, regs) == ExpressionValue(Eval.ContextOf(f, regs), f.rules[CFA_REG].len, f.rules[CFA_REG].end)
  {
  }

  function CfaPlace(w: Width, align: int, i: Insn, next: nat, reg: nat, add: nat): Location
    requires DefinesCfa(i)
  {
    match i
    case DefCfa(r, n) => Register(r, n)
    case DefCfaSf(r, d) => Register(r, Slot(w, d * align))
    case CfaRegister(r) => Register(r, add)
    case CfaOffset(n) => Register(reg, n)
    case CfaOffsetSf(d) => Register(reg, Slot(w, d * align))
    case CfaExpression(block) => ValExpression(|block|, next)
  }

  lemma CfaIsPlace(p: Program, s: State, i: Insn, next: nat)
    requires DefinesCfa(i) && !Overflows(p, i) && Cfa.Effect(p, s, i, next).Some?
    ensures i.CfaRegister? || i.CfaOffset? || i.CfaOffsetSf? ==> CfaIsRegister(s.rules)
    ensures var was, rules := if CfaIsRegister(s.rules) then s.rules[CFA_REG] else Register(0, 0), Cfa.Effect(p, s, i, next).value.rules;
      CFA_REG in rules && rules[CFA_REG] == CfaPlace(p.w, p.dataAlign, i, next, was.reg, was.add)
  {
    hide Slot;
    hide Overflows;
  }

  // ----------------------------------------------------------- undefined rules

  /** An undefined return address ends the stack: the pc is zero. Any other register
      without a value keeps the one it has. */
  lemma UndefinedRules(f: Eval.Frame, regs: seq<nat>, r: nat)
    requires f.pcReg < |regs| && f.spReg < |regs| && f.pcReg != f.spReg && Eval.Simultaneous(f, regs).Some?
    ensures var after := Eval.Simultaneous(f, regs).value;
      && |after| == |regs|
      && (f.returnReg in f.rules && f.returnReg != CFA_REG && f.rules[f.returnReg] == Undefined ==> after[f.pcReg] == 0)
      && (r < |regs| && r != f.pcReg && r != f.spReg && r in f.rules && f.rules[r] == Undefined ==> after[r] == regs[r])
      && (r < |regs| && r != f.pcReg && r != f.spReg && r !in f.rules ==> after[r] == regs[r])
  {
    hide Eval.CfaValue;
  }
}
