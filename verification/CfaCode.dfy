/** Call-frame programs as an assembler writes them (section 6.4.2 of DWARF 4), the
    table of rows they stand for, and the proof that the byte interpreter builds it. */
module CfaCode {
  import opened Machine
  import opened DwarfMemory
  import opened DwarfCfa
  import opened Operands

  // ----------------------------------------------------------- instructions

  /** The instructions of section 6.4.2 and two GNU ones, with the numbers a compiler
      gives. Offsets are those before factoring. */
  datatype Insn =
    | SetLoc(addr: nat)
    | AdvanceLoc(form: Size, delta: nat)
    | OffsetRule(reg: nat, n: nat)                  // packed into the opcode
    | RestorePacked(reg: nat)
    | OffsetExtended(reg: nat, n: nat)
    | RestoreExtended(reg: nat)
    | UndefinedRule(reg: nat)
    | SameValue(reg: nat)
    | RegisterRule(reg: nat, other: nat)
    | Remember
    | RestoreRemembered
    | DefCfa(reg: nat, n: nat)
    | CfaRegister(reg: nat)
    | CfaOffset(n: nat)
    | CfaExpression(block: seq<Byte>)
    | ExpressionRule(reg: nat, block: seq<Byte>)
    | OffsetExtendedSf(reg: nat, d: int)
    | DefCfaSf(reg: nat, d: int)
    | CfaOffsetSf(d: int)
    | ValOffsetRule(reg: nat, n: nat)
    | ValOffsetSf(reg: nat, d: int)
    | ValExpressionRule(reg: nat, block: seq<Byte>)
    | GnuArgsSize(n: nat)
    | GnuNegativeOffset(reg: nat, n: nat)
    | NoOperation

  datatype Size = Packed | One | Two | Four

  /** The number is a non-negative or signed value of the address width. */
  predicate Unsigned(w: Width, n: int) { 0 <= n < w.Modulus() }
  predicate InSigned(w: Width, d: int) { -(w.Modulus() / 2) <= d < w.Modulus() / 2 }
  predicate IsReg(r: nat) { r < TWO32 }

  /** Every number fits its field. */
  predicate Fits(w: Width, i: Insn) {
    match i
    case SetLoc(a) => Unsigned(w, a)
    case AdvanceLoc(Packed, d) => d < 64
    case AdvanceLoc(One, d) => d < 256
    case AdvanceLoc(Two, d) => d < 0x1_0000
    case AdvanceLoc(Four, d) => d < TWO32
    case OffsetRule(r, n) => r < 64 && InSigned(w, n)
    case RestorePacked(r) => r < 64
    case OffsetExtended(r, n) => IsReg(r) && Unsigned(w, n)
    case RestoreExtended(r) => IsReg(r)
    case UndefinedRule(r) => IsReg(r)
    case SameValue(r) => IsReg(r)
    case RegisterRule(r, q) => IsReg(r) && IsReg(q)
    case Remember => true
    case RestoreRemembered => true
    case DefCfa(r, n) => IsReg(r) && Unsigned(w, n)
    case CfaRegister(r) => IsReg(r)
    case CfaOffset(n) => Unsigned(w, n)
    case CfaExpression(block) => Unsigned(w, |block|)
    case ExpressionRule(r, block) => IsReg(r) && Unsigned(w, |block|)
    case OffsetExtendedSf(r, d) => IsReg(r) && InSigned(w, d) && SlebReadable(d)
    case DefCfaSf(r, d) => IsReg(r) && InSigned(w, d) && SlebReadable(d)
    case CfaOffsetSf(d) => InSigned(w, d) && SlebReadable(d)
    case ValOffsetRule(r, n) => IsReg(r) && InSigned(w, n)
    case ValOffsetSf(r, d) => IsReg(r) && InSigned(w, d) && SlebReadable(d)
    case ValExpressionRule(r, block) => IsReg(r) && Unsigned(w, |block|)
    case GnuArgsSize(n) => Unsigned(w, n)
    case GnuNegativeOffset(r, n) => IsReg(r) && InSigned(w, n)
    case NoOperation => true
  }

  /** Opcode and operands; a packed instruction has its first operand in the opcode. */
  function Shape(i: Insn): (int, seq<Arg>) {
    match i
    case SetLoc(a) => (0x01, [Num(ABSPTR, a)])
    case AdvanceLoc(Packed, d) => (0x40 + d, [])
    case AdvanceLoc(One, d) => (0x02, [Num(UDATA1, d)])
    case AdvanceLoc(Two, d) => (0x03, [Num(UDATA2, d)])
    case AdvanceLoc(Four, d) => (0x04, [Num(UDATA4, d)])
    case OffsetRule(r, n) => (0x80 + r, [U(n)])
    case RestorePacked(r) => (0xc0 + r, [])
    case OffsetExtended(r, n) => (0x05, [U(r), U(n)])
    case RestoreExtended(r) => (0x06, [U(r)])
    case UndefinedRule(r) => (0x07, [U(r)])
    case SameValue(r) => (0x08, [U(r)])
    case RegisterRule(r, q) => (0x09, [U(r), U(q)])
    case Remember => (0x0a, [])
    case RestoreRemembered => (0x0b, [])
    case DefCfa(r, n) => (0x0c, [U(r), U(n)])
    case CfaRegister(r) => (0x0d, [U(r)])
    case CfaOffset(n) => (0x0e, [U(n)])
    case CfaExpression(block) => (0x0f, [Block(block)])
    case ExpressionRule(r, block) => (0x10, [U(r), Block(block)])
    case OffsetExtendedSf(r, d) => (0x11, [U(r), S(d)])
    case DefCfaSf(r, d) => (0x12, [U(r), S(d)])
    case CfaOffsetSf(d) => (0x13, [S(d)])
    case ValOffsetRule(r, n) => (0x14, [U(r), U(n)])
    case ValOffsetSf(r, d) => (0x15, [U(r), S(d)])
    case ValExpressionRule(r, block) => (0x16, [U(r), Block(block)])
    case GnuArgsSize(n) => (0x2e, [U(n)])
    case GnuNegativeOffset(r, n) => (0x2f, [U(r), U(n)])
    case NoOperation => (0x00, [])
  }

  predicate IsPacked(i: Insn) { i.OffsetRule? || i.RestorePacked? || (i.AdvanceLoc? && i.form.Packed?) }

  lemma ShapeFits(w: Width, i: Insn)
    requires Fits(w, i)
    ensures 0 <= Shape(i).0 < 256 && ArgsFit(w, Shape(i).1)
  {
    hide OperandKinds;
    assert Pow256(2) == 0x1_0000 && Pow256(4) == TWO32 && Pow256(6) == 0x1_0000_0000_0000 && Pow256(8) == TWO64;
  }

  /** The interpreter's operand table has the kinds of every unpacked instruction. */
  lemma ShapeKinds(w: Width, i: Insn)
    requires Fits(w, i) && !IsPacked(i)
    ensures 0 <= Shape(i).0 < 64 && OperandKinds(Shape(i).0) == Some(Kinds(Shape(i).1))
  {
    hide Fits;
    hide Kinds;
    NoKinds();
    var args := Shape(i).1;
    if |args| == 1 {
      assert args == [args[0]];
      KindsOne(args[0]);
    } else if |args| == 2 {
      assert args == [args[0], args[1]];
      KindsTwo(args[0], args[1]);
    }
  }

  function Bytes(w: Width, i: Insn): seq<Byte>
    requires Fits(w, i)
  {
    ShapeFits(w, i);
    [Shape(i).0] + ArgsBytes(w, Shape(i).1)
  }

  // ---------------------------------------------------------------- meaning

  /** A signed number as the 64-bit slot of a rule holds it. */
  function Slot(w: Width, x: int): nat { Signed(w, x) % TWO64 }

  /** The product of a factored offset exceeds 64 signed bits. */
  predicate Overflows(p: Program, i: Insn) {
    match i
    case OffsetRule(_, n) => TooBig(n * p.dataAlign)
    case OffsetExtendedSf(_, d) => TooBig(d * p.dataAlign)
    case DefCfaSf(_, d) => TooBig(d * p.dataAlign)
    case CfaOffsetSf(d) => TooBig(d * p.dataAlign)
    case ValOffsetRule(_, n) => TooBig(n * p.dataAlign)
    case ValOffsetSf(_, d) => TooBig(d * p.dataAlign)
    case _ => false
  }

  predicate TooBig(x: int) { x < -(TWO64 / 2) || x >= TWO64 / 2 }

  /** Why an instruction fails: only a CFA given by a register can be adjusted, a
      restore needs the CIE's rules, and an overflow is undefined. */
  function Failure(p: Program, s: State, i: Insn): Error {
    if Overflows(p, i) && (i.CfaOffsetSf? ==> CfaIsRegister(s.rules)) then UndefinedOperation else IllegalState
  }

  function WithRule(s: State, reg: nat, loc: Location): Option<State> { Some(s.(rules := s.rules[reg := loc])) }

  /** The register gets back its rule from the CIE, or none. */
  function Reset(p: Program, s: State, reg: nat): Option<State> {
    match p.cieRules
    case None => None
    case Some(initial) =>
      if reg in initial then WithRule(s, reg, initial[reg]) else Some(s.(rules := s.rules - {reg}))
  }

  /** What an instruction whose bytes end at `next` does to the current row, None if
      it fails. */
  function Effect(p: Program, s: State, i: Insn, next: nat): Option<State> {
    if Overflows(p, i) then None
    else
      match i
      case NoOperation => Some(s)
      case GnuArgsSize(_) => Some(s)
      case SetLoc(a) => Some(s.(pc := a))
      case AdvanceLoc(_, d) => Some(s.(pc := Wrap(p.w, s.pc + d * p.codeAlign)))
      case OffsetRule(r, n) => WithRule(s, r, Offset(Slot(p.w, n * p.dataAlign)))
      case OffsetExtendedSf(r, d) => WithRule(s, r, Offset(Slot(p.w, d * p.dataAlign)))
      case OffsetExtended(r, n) => WithRule(s, r, Offset(n))
      case GnuNegativeOffset(r, n) => WithRule(s, r, Offset(Slot(p.w, 0 - n)))
      case ValOffsetRule(r, n) => WithRule(s, r, ValOffset(Slot(p.w, n * p.dataAlign)))
      case ValOffsetSf(r, d) => WithRule(s, r, ValOffset(Slot(p.w, d * p.dataAlign)))
      case RestorePacked(r) => Reset(p, s, r)
      case RestoreExtended(r) => Reset(p, s, r)
      case UndefinedRule(r) => WithRule(s, r, Undefined)
      case SameValue(r) => Some(s.(rules := s.rules - {r}))
      case RegisterRule(r, q) => WithRule(s, r, Register(q, 0))
      case ExpressionRule(r, block) => WithRule(s, r, Expression(|block|, next))
      case ValExpressionRule(r, block) => WithRule(s, r, ValExpression(|block|, next))
      case DefCfa(r, n) => WithRule(s, CFA_REG, Register(r, n))
      case DefCfaSf(r, d) => WithRule(s, CFA_REG, Register(r, Slot(p.w, d * p.dataAlign)))
      case CfaExpression(block) => WithRule(s, CFA_REG, ValExpression(|block|, next))
      case CfaRegister(r) =>
        if CfaIsRegister(s.rules) then WithRule(s, CFA_REG, s.rules[CFA_REG].(reg := r)) else None
      case CfaOffset(n) =>
        if CfaIsRegister(s.rules) then WithRule(s, CFA_REG, s.rules[CFA_REG].(add := n)) else None
      case CfaOffsetSf(d) =>
        if CfaIsRegister(s.rules) then WithRule(s, CFA_REG, s.rules[CFA_REG].(add := Slot(p.w, d * p.dataAlign))) else None
      case Remember => Some(s.(stack := s.stack + [Saved(s.rules, s.start)]))
      case RestoreRemembered =>
        if s.stack == [] then Some(s)
        else
          var top := s.stack[|s.stack| - 1];
          Some(State(s.pc, top.rules, top.start, s.stack[..|s.stack| - 1]))
  }

  lemma RegValue(w: Width, r: nat)
    requires IsReg(r)
    ensures SlotOf(w, U(r)) == r && RegKey(r) == r
  {
    WrapSmall(w, r);
  }

  lemma SignedValue(w: Width, d: int)
    requires InSigned(w, d)
    ensures Signed(w, Wrap(w, d)) == d && Signed(w, d) == d
  {
    match w
    case W32 =>
    case W64 =>
  }

  lemma FactoredValue(w: Width, d: int, align: int)
    requires InSigned(w, d)
    ensures Factored(w, Wrap(w, d), align) == Slot(w, d * align)
    ensures ProductDefined(w, Wrap(w, d), align) <==> !TooBig(d * align)
    ensures d >= 0 ==> Factored(w, d, align) == Slot(w, d * align) && (ProductDefined(w, d, align) <==> !TooBig(d * align))
    ensures d >= 0 ==> NegationDefined(w, Wrap(w, d))
  {
    SignedValue(w, d);
  }

  /** An instruction with its own opcode, up to its interpretation. */
  lemma PlainDecodes(p: Program, off: nat, i: Insn)
    requires Fits(p.w, i) && !IsPacked(i) && Holds(p.mem, off, Bytes(p.w, i))
    ensures Shape(i).0 < 64 && OperandKinds(Shape(i).0).Some?
    ensures var (op, args) := Shape(i);
      var next := off + |Bytes(p.w, i)|;
      |Values(p.w, args)| == |OperandKinds(op).value| && Decode(p, off) == Op(Interpret(p, op, Values(p.w, args), next), next)
  {
    hide Shape;
    hide Interpret;
    hide ReadOperands;
    hide UlebAt;
    hide OperandKinds;
    hide Fits;
    hide Kinds;
    hide Values;
    hide ArgsFit;
    hide ArgsBytes;
    ShapeFits(p.w, i);
    ShapeKinds(p.w, i);
    var (op, args) := Shape(i);
    HoldsAppend(p.mem, off, [op], ArgsBytes(p.w, args));
    ArgsRead(p.w, p.mem, args, off + 1);
    assert p.mem[off] == op;
  }

  /** Without operands, or with a location or a size as the only one. */
  lemma SimpleEffect(p: Program, s: State, i: Insn, next: nat)
    requires Fits(p.w, i) && (i.NoOperation? || i.Remember? || i.RestoreRemembered? || i.SetLoc? || i.AdvanceLoc? || i.GnuArgsSize?)
    requires !IsPacked(i)
    ensures MeansEffect(p, s, i, next)
  {
    hide Wrap;
    hide Kinds;
    ShapeKinds(p.w, i);
    if i.SetLoc? {
      ValuesOne(p.w, Num(ABSPTR, i.addr));
      WrapSmall(p.w, i.addr);
    } else if i.AdvanceLoc? {
      ValuesOne(p.w, Shape(i).1[0]);
      WrapSmall(p.w, i.delta);
    }
  }

  /** Instructions with one register, offset or block. */
  lemma OneOperandEffect(p: Program, s: State, i: Insn, next: nat)
    requires Fits(p.w, i)
    requires i.RestoreExtended? || i.UndefinedRule? || i.SameValue? || i.CfaRegister? || i.CfaOffset? || i.CfaOffsetSf? || i.CfaExpression?
    ensures MeansEffect(p, s, i, next)
  {
    hide Wrap;
    hide Signed;
    hide Kinds;
    ShapeKinds(p.w, i);
    ValuesOne(p.w, Shape(i).1[0]);
    if i.CfaOffset? {
      WrapSmall(p.w, i.n);
    } else if i.CfaOffsetSf? {
      FactoredValue(p.w, i.d, p.dataAlign);
    } else if i.CfaExpression? {
      WrapSmall(p.w, |i.block|);
    } else {
      RegValue(p.w, i.reg);
    }
  }

  predicate IsFactored(i: Insn) {
    i.OffsetExtendedSf? || i.DefCfaSf? || i.ValOffsetSf? || i.ValOffsetRule? || i.GnuNegativeOffset?
  }

  /** Instructions with a register and a number or block taken as it is. */
  lemma TwoOperandEffect(p: Program, s: State, i: Insn, next: nat)
    requires Fits(p.w, i) && |Shape(i).1| == 2 && !IsFactored(i)
    ensures MeansEffect(p, s, i, next)
  {
    hide Wrap;
    hide Signed;
    hide Kinds;
    hide Values;
    ShapeKinds(p.w, i);
    ValuesTwo(p.w, Shape(i).1[0], Shape(i).1[1]);
    RegValue(p.w, i.reg);
    match i
    case RegisterRule(_, q) => RegValue(p.w, q);
    case OffsetExtended(_, n) => WrapSmall(p.w, n);
    case DefCfa(_, n) => WrapSmall(p.w, n);
    case ExpressionRule(_, block) => WrapSmall(p.w, |block|);
    case ValExpressionRule(_, block) => WrapSmall(p.w, |block|);
  }

  /** Instructions with a register and a factored offset. */
  lemma FactoredEffect(p: Program, s: State, i: Insn, next: nat)
    requires Fits(p.w, i) && IsFactored(i)
    ensures MeansEffect(p, s, i, next)
  {
    hide Wrap;
    hide Signed;
    hide Kinds;
    hide Values;
    hide Factored;
    hide ProductDefined;
    hide NegationDefined;
    hide TooBig;
    hide Slot;
    ShapeKinds(p.w, i);
    ValuesTwo(p.w, Shape(i).1[0], Shape(i).1[1]);
    RegValue(p.w, i.reg);
    if i.ValOffsetRule? || i.GnuNegativeOffset? {
      FactoredValue(p.w, i.n, if i.ValOffsetRule? then p.dataAlign else -1);
      assert i.n * -1 == 0 - i.n;
    } else {
      FactoredValue(p.w, i.d, p.dataAlign);
    }
  }

  /** The interpretation of an unpacked instruction has its effect. */
  predicate MeansEffect(p: Program, s: State, i: Insn, next: nat) {
    var (op, args) := Shape(i);
    0 <= op < 64 && OperandKinds(op).Some? && |Values(p.w, args)| == |OperandKinds(op).value| &&
    DoesEffect(p, s, Interpret(p, op, Values(p.w, args), next), i, next)
  }

  /** Executing the decoded instruction has the effect, or fails for the reason given. */
  predicate DoesEffect(p: Program, s: State, instr: Instr, i: Insn, next: nat) {
    Exec(p, s, instr) == Effect(p, s, i, next)
    && (Effect(p, s, i, next).None? ==> FailureOf(s, instr) == Failure(p, s, i))
  }

  lemma OffsetDecodes(p: Program, off: nat, r: nat)
    requires r < 64 && off in p.mem && p.mem[off] == 0x80 + r && UlebAt(p.mem, off + 1).Got?
    ensures var u := UlebAt(p.mem, off + 1);
      Decode(p, off) == Op(Checked(ProductDefined(p.w, u.value, p.dataAlign), SetRule(r, Offset(Factored(p.w, u.value, p.dataAlign)))), u.next)
  {
    hide Factored;
    hide ProductDefined;
    hide UlebAt;
    hide Interpret;
    hide OperandKinds;
    hide ReadOperands;
  }

  lemma PackedOffset(p: Program, off: nat, r: nat, n: nat)
    requires r < 64 && InSigned(p.w, n) && Holds(p.mem, off, [0x80 + r] + EncodeUleb(n))
    ensures Decode(p, off) == Op(Checked(!TooBig(n * p.dataAlign), SetRule(r, Offset(Slot(p.w, n * p.dataAlign)))), off + 1 + |EncodeUleb(n)|)
  {
    hide Decode;
    hide Factored;
    hide ProductDefined;
    hide TooBig;
    hide Slot;
    hide UlebAt;
    hide UlebValue;
    hide EncodeUleb;
    HoldsAppend(p.mem, off, [0x80 + r], EncodeUleb(n));
    assert p.mem[off] == 0x80 + r;
    EncodeUlebValue(n);
    UlebRoundTrip(p.mem, off + 1, EncodeUleb(n), n);
    OffsetDecodes(p, off, r);
    FactoredValue(p.w, n, p.dataAlign);
  }

  /** The high bits and the low bits of a packed opcode. */
  lemma PackedParts(b: Byte, high: nat, low: nat)
    requires high < 4 && low < 64 && b == 64 * high + low
    ensures b / 64 == high && b % 64 == low
  {
  }

  lemma PackedAdvance(p: Program, off: nat, d: nat)
    requires d < 64 && Holds(p.mem, off, [0x40 + d])
    ensures Decode(p, off) == Op(Advance(d * p.codeAlign), off + 1)
  {
    hide Interpret;
    hide OperandKinds;
    hide ReadOperands;
    hide UlebAt;
    assert p.mem[off] == 0x40 + d;
    PackedParts(0x40 + d, 1, d);
  }

  lemma PackedRestore(p: Program, off: nat, r: nat)
    requires r < 64 && Holds(p.mem, off, [0xc0 + r])
    ensures Decode(p, off) == Op(Instr.Restore(r), off + 1)
  {
    hide Interpret;
    hide OperandKinds;
    hide ReadOperands;
    hide UlebAt;
    assert p.mem[off] == 0xc0 + r;
    PackedParts(0xc0 + r, 3, r);
  }

  lemma PackedBytes(w: Width, i: Insn)
    requires Fits(w, i) && IsPacked(i)
    ensures Bytes(w, i) == match i
      case OffsetRule(r, n) => [0x80 + r] + EncodeUleb(n)
      case RestorePacked(r) => [0xc0 + r]
      case AdvanceLoc(_, d) => [0x40 + d]
  {
    var args := Shape(i).1;
    if i.OffsetRule? {
      assert args[1..] == [];
      assert ArgsBytes(w, args) == EncodeUleb(i.n) + [];
    } else {
      assert ArgsBytes(w, args) == [];
    }
  }

  /** What the interpreter makes of a packed instruction. */
  function PackedInstr(p: Program, i: Insn): Instr
    requires IsPacked(i)
  {
    match i
    case OffsetRule(r, n) => Checked(!TooBig(n * p.dataAlign), SetRule(r, Offset(Slot(p.w, n * p.dataAlign))))
    case RestorePacked(r) => Instr.Restore(r)
    case AdvanceLoc(_, d) => Advance(d * p.codeAlign)
  }

  lemma PackedDecodes(p: Program, off: nat, i: Insn)
    requires Fits(p.w, i) && IsPacked(i) && Holds(p.mem, off, Bytes(p.w, i))
    ensures Decode(p, off) == Op(PackedInstr(p, i), off + |Bytes(p.w, i)|)
  {
    hide Decode;
    hide Bytes;
    hide TooBig;
    hide Slot;
    hide Holds;
    hide EncodeUleb;
    PackedBytes(p.w, i);
    match i
    case OffsetRule(r, n) => PackedOffset(p, off, r, n);
    case RestorePacked(r) => PackedRestore(p, off, r);
    case AdvanceLoc(_, d) => PackedAdvance(p, off, d);
  }

  lemma PackedMeans(p: Program, s: State, i: Insn, next: nat)
    requires IsPacked(i)
    ensures DoesEffect(p, s, PackedInstr(p, i), i, next)
  {
    hide Wrap;
    hide Slot;
    hide TooBig;
  }

  lemma PackedEffect(p: Program, s: State, off: nat, i: Insn)
    requires Fits(p.w, i) && IsPacked(i) && Holds(p.mem, off, Bytes(p.w, i))
    ensures var next := off + |Bytes(p.w, i)|;
      Decode(p, off).Op? && Decode(p, off).next == next && DoesEffect(p, s, Decode(p, off).instr, i, next)
  {
    hide Decode;
    hide Bytes;
    hide Holds;
    hide DoesEffect;
    hide PackedInstr;
    PackedDecodes(p, off, i);
    PackedMeans(p, s, i, off + |Bytes(p.w, i)|);
  }

  /** One instruction of an assembled program: it decodes to its own length and does
      to the row what it stands for. */
  lemma InsnEffect(p: Program, s: State, off: nat, i: Insn)
    requires Fits(p.w, i) && Holds(p.mem, off, Bytes(p.w, i))
    ensures var next := off + |Bytes(p.w, i)|;
      Decode(p, off).Op? && Decode(p, off).next == next && DoesEffect(p, s, Decode(p, off).instr, i, next)
  {
    hide Decode;
    hide Exec;
    hide Effect;
    hide Interpret;
    hide Values;
    var next := off + |Bytes(p.w, i)|;
    if IsPacked(i) {
      PackedEffect(p, s, off, i);
    } else {
      PlainDecodes(p, off, i);
      if IsFactored(i) {
        FactoredEffect(p, s, i, next);
      } else if |Shape(i).1| == 2 {
        TwoOperandEffect(p, s, i, next);
      } else if i.NoOperation? || i.Remember? || i.RestoreRemembered? || i.SetLoc? || i.AdvanceLoc? || i.GnuArgsSize? {
        SimpleEffect(p, s, i, next);
      } else {
        OneOperandEffect(p, s, i, next);
      }
    }
  }

  // ------------------------------------------------------------ whole programs

  predicate AllFit(w: Width, code: seq<Insn>) { forall k :: 0 <= k < |code| ==> Fits(w, code[k]) }

  function Assembled(w: Width, code: seq<Insn>): seq<Byte>
    requires AllFit(w, code)
  {
    if code == [] then [] else Bytes(w, code[0]) + Assembled(w, code[1..])
  }

  /** The row that a list of instructions gives at pc (section 6.4.3 of DWARF 4): they
      are applied in turn until the location passes pc; each one opens the current row
      at the location it is issued at. */
  function RowAt(p: Program, pc: nat, off: nat, s: State, code: seq<Insn>): Outcome
    requires AllFit(p.w, code)
    decreases |code|
  {
    if s.pc > pc then Row(s.rules, s.start, s.pc, s.stack)
    else if code == [] then Row(s.rules, s.start, p.pcEnd, s.stack)
    else
      var next := off + |Bytes(p.w, code[0])|;
      match Effect(p, s.(start := s.pc), code[0], next)
      case None => Failed(Failure(p, s, code[0]))
      case Some(s') => RowAt(p, pc, next, s', code[1..])
  }

  /** The byte interpreter builds the row that the assembled instructions stand for,
      from every state and at every pc. */
  lemma {:induction false} InterpreterBuildsRow(p: Program, pc: nat, off: nat, s: State, code: seq<Insn>)
    requires AllFit(p.w, code) && Holds(p.mem, off, Assembled(p.w, code)) && p.end == off + |Assembled(p.w, code)|
    ensures Run(p, pc, off, s) == RowAt(p, pc, off, s, code)
    decreases |code|
  {
    hide Decode;
    hide Exec;
    hide Effect;
    hide Bytes;
    hide Holds;
    hide Fits;
    if code != [] {
      var i, rest := code[0], code[1..];
      var next := off + |Bytes(p.w, i)|;
      BytesNotEmpty(p.w, i);
      HoldsAppend(p.mem, off, Bytes(p.w, i), Assembled(p.w, rest));
      InsnEffect(p, s.(start := s.pc), off, i);
      var after := Effect(p, s.(start := s.pc), i, next);
      if after.Some? {
        InterpreterBuildsRow(p, pc, next, after.value, rest);
      }
    }
  }

  lemma BytesNotEmpty(w: Width, i: Insn)
    requires Fits(w, i)
    ensures |Bytes(w, i)| > 0
  {
  }

  /** The register has the CIE's rule or none, every other rule is as it was. */
  ghost predicate ResetTo(before: Rules, after: Rules, reg: nat, initial: Rules) {
    after - {reg} == before - {reg} && (reg in after <==> reg in initial) && (reg in after ==> after[reg] == initial[reg])
  }

  predicate IsRestore(i: Insn) { i.RestorePacked? || i.RestoreExtended? }

  lemma RestoreEffect(p: Program, s: State, i: Insn, next: nat)
    requires IsRestore(i) && p.cieRules.Some?
    ensures Effect(p, s, i, next).Some?
    ensures var t := Effect(p, s, i, next).value;
      t == s.(rules := t.rules) && ResetTo(s.rules, t.rules, i.reg, p.cieRules.value)
  {
    var t := Effect(p, s, i, next).value;
    assert t.rules - {i.reg} == s.rules - {i.reg};
  }

  ghost predicate ContinuesReset(p: Program, pc: nat, off: nat, s: State, reg: nat, next: nat) {
    exists rules: Rules :: RunsOnWith(p, pc, off, s, reg, next, rules)
  }

  ghost predicate RunsOnWith(p: Program, pc: nat, off: nat, s: State, reg: nat, next: nat, rules: Rules) {
    p.cieRules.Some? && ResetTo(s.rules, rules, reg, p.cieRules.value)
    && Run(p, pc, off, s) == Run(p, pc, next, State(s.pc, rules, s.pc, s.stack))
  }

  /** A restore instruction, packed or not, in an encoded program: the run goes on with
      exactly the CIE's rule for the register, or none, and every other rule as it was. */
  lemma RestoreInCode(p: Program, pc: nat, off: nat, s: State, i: Insn)
    requires IsRestore(i) && Fits(p.w, i) && Holds(p.mem, off, Bytes(p.w, i))
    requires off < p.end && s.pc <= pc && p.cieRules.Some?
    ensures ContinuesReset(p, pc, off, s, i.reg, off + |Bytes(p.w, i)|)
  {
    hide Decode;
    hide Exec;
    hide Effect;
    hide Bytes;
    hide Fits;
    hide ResetTo;
    var at, next := s.(start := s.pc), off + |Bytes(p.w, i)|;
    BytesNotEmpty(p.w, i);
    RestoreEffect(p, at, i, next);
    InsnEffect(p, at, off, i);
    assert RunsOnWith(p, pc, off, s, i.reg, next, Effect(p, at, i, next).value.rules);
  }
}
