/** The call-frame interpreter: a byte-coded program that builds the row of
    register rules in force at one pc (sections 6.4.1 to 6.4.3 of DWARF 4). */
module DwarfCfa {
  import opened Machine
  import opened DwarfMemory

  /** Where a register of the calling frame is found. */
  datatype Location =
    | Undefined
    | Offset(value: nat)                       // in memory at cfa + value
    | ValOffset(value: nat)                    // is cfa + value
    | Register(reg: nat, add: nat)             // is reg + add
    | Expression(len: nat, end: nat)           // in memory at the expression's value
    | ValExpression(len: nat, end: nat)        // is the expression's value

  type Rules = map<nat, Location>

  /** The key under which the CFA's own rule is kept. */
  const CFA_REG: nat := 0xffff

  /** What one instruction asks for, with its operands already read. */
  datatype Instr =
    | Nop
    | SetLoc(pc: nat)
    | Advance(delta: nat)
    | SetRule(reg: nat, loc: Location)
    | Forget(reg: nat)
    | Restore(reg: nat)
    | RememberState
    | RestoreState
    | DefCfaRegister(reg: nat)
    | DefCfaOffset(offset: nat)
    | Overflow(adjustsCfa: bool)               // a factored offset exceeds 64 bits

  datatype Decoded = Bad(error: Error) | Op(instr: Instr, next: nat)

  /** One program and the constants it runs against. The rules of the CIE are
      None exactly while the CIE's own program runs. */
  datatype Program = Program(w: Width, mem: Memory, codeAlign: nat, dataAlign: int,
                             pcEnd: nat, end: nat, cieRules: Option<Rules>)

  /** A remembered row: remember_state copies the row's start along with its rules. */
  datatype Saved = Saved(rules: Rules, start: nat)

  datatype State = State(pc: nat, rules: Rules, start: nat, stack: seq<Saved>)

  datatype Outcome =
    | Failed(error: Error)
    | Backwards                                 // a block length wrapped the cursor
    | Row(rules: Rules, start: nat, end: nat, stack: seq<Saved>)

  // --------------------------------------------------------------- decoding

  /** The operand encodings of the instructions whose two high bits are zero. */
  function OperandKinds(op: Byte): Option<seq<Byte>> {
    match op
    case 0x00 => Some([])
    case 0x01 => Some([ABSPTR])
    case 0x02 => Some([UDATA1])
    case 0x03 => Some([UDATA2])
    case 0x04 => Some([UDATA4])
    case 0x05 => Some([ULEB128, ULEB128])
    case 0x06 => Some([ULEB128])
    case 0x07 => Some([ULEB128])
    case 0x08 => Some([ULEB128])
    case 0x09 => Some([ULEB128, ULEB128])
    case 0x0a => Some([])
    case 0x0b => Some([])
    case 0x0c => Some([ULEB128, ULEB128])
    case 0x0d => Some([ULEB128])
    case 0x0e => Some([ULEB128])
    case 0x0f => Some([BLOCK])
    case 0x10 => Some([ULEB128, BLOCK])
    case 0x11 => Some([ULEB128, SLEB128])
    case 0x12 => Some([ULEB128, SLEB128])
    case 0x13 => Some([SLEB128])
    case 0x14 => Some([ULEB128, ULEB128])
    case 0x15 => Some([ULEB128, SLEB128])
    case 0x16 => Some([ULEB128, BLOCK])
    case 0x2e => Some([ULEB128])
    case 0x2f => Some([ULEB128, ULEB128])
    case _ => None
  }

  /** A signed offset times the data alignment factor, kept in the address width
      and then sign-extended into a 64-bit slot. */
  function Factored(w: Width, v: nat, dataAlign: int): nat {
    Signed(w, Signed(w, v) * dataAlign) % TWO64
  }

  /** The product is computed in 64 signed bits; beyond them it is undefined. */
  predicate ProductDefined(w: Width, v: nat, dataAlign: int) {
    -(TWO64 / 2) <= Signed(w, v) * dataAlign < TWO64 / 2
  }

  /** The negation of the least number of the address width is undefined. */
  predicate NegationDefined(w: Width, v: nat) { Signed(w, v) != -(w.Modulus() / 2) }

  /** An instruction whose operand can be computed, or what is left of it if not. */
  function Checked(defined: bool, i: Instr): Instr {
    if defined then i else Overflow(i.DefCfaOffset?)
  }

  /** Rule maps are keyed by 32-bit register numbers. */
  function RegKey(v: nat): nat { v % TWO32 }

  function Interpret(p: Program, op: Byte, xs: seq<nat>, cursor: nat): Instr
    requires OperandKinds(op).Some? && |xs| == |OperandKinds(op).value|
  {
    match op
    case 0x01 => SetLoc(xs[0])
    case 0x02 => Advance(xs[0] * p.codeAlign)
    case 0x03 => Advance(xs[0] * p.codeAlign)
    case 0x04 => Advance(xs[0] * p.codeAlign)
    case 0x05 => SetRule(RegKey(xs[0]), Offset(xs[1]))
    case 0x06 => Restore(RegKey(xs[0]))
    case 0x07 => SetRule(RegKey(xs[0]), Undefined)
    case 0x08 => Forget(RegKey(xs[0]))
    case 0x09 => SetRule(RegKey(xs[0]), Register(xs[1], 0))
    case 0x0a => RememberState
    case 0x0b => RestoreState
    case 0x0c => SetRule(CFA_REG, Register(xs[0], xs[1]))
    case 0x0d => DefCfaRegister(xs[0])
    case 0x0e => DefCfaOffset(xs[0])
    case 0x0f => SetRule(CFA_REG, ValExpression(xs[0], cursor))
    case 0x10 => SetRule(RegKey(xs[0]), Expression(xs[1], cursor))
    case 0x11 => Checked(ProductDefined(p.w, xs[1], p.dataAlign), SetRule(RegKey(xs[0]), Offset(Factored(p.w, xs[1], p.dataAlign))))
    case 0x12 => Checked(ProductDefined(p.w, xs[1], p.dataAlign), SetRule(CFA_REG, Register(xs[0], Factored(p.w, xs[1], p.dataAlign))))
    case 0x13 => Checked(ProductDefined(p.w, xs[0], p.dataAlign), DefCfaOffset(Factored(p.w, xs[0], p.dataAlign)))
    case 0x14 => Checked(ProductDefined(p.w, xs[1], p.dataAlign), SetRule(RegKey(xs[0]), ValOffset(Factored(p.w, xs[1], p.dataAlign))))
    case 0x15 => Checked(ProductDefined(p.w, xs[1], p.dataAlign), SetRule(RegKey(xs[0]), ValOffset(Factored(p.w, xs[1], p.dataAlign))))
    case 0x16 => SetRule(RegKey(xs[0]), ValExpression(xs[1], cursor))
    case 0x2f => Checked(NegationDefined(p.w, xs[1]), SetRule(RegKey(xs[0]), Offset(Factored(p.w, xs[1], -1))))
    case _ => Nop
  }

  function Decode(p: Program, off: nat): Decoded {
    if off !in p.mem then Bad(MemoryInvalid)
    else
      var low := p.mem[off] % 64;
      match p.mem[off] / 64
      case 1 => Op(Advance(low * p.codeAlign), off + 1)
      case 2 =>
        (match UlebAt(p.mem, off + 1)
         case Fail(e) => Bad(e)
         case Got(v, next) =>
           Op(Checked(ProductDefined(p.w, v, p.dataAlign), SetRule(low, Offset(Factored(p.w, v, p.dataAlign)))), next))
      case 3 => Op(Restore(low), off + 1)
      case _ =>
        (match OperandKinds(low)
         case None => Bad(IllegalValue)
         case Some(kinds) =>
           match ReadOperands(p.w, p.mem, kinds, off + 1)
           case Fail(e) => Bad(e)
           case Got(xs, next) => Op(Interpret(p, low, xs, next), next))
  }

  // -------------------------------------------------------------- execution

  predicate CfaIsRegister(rules: Rules) { CFA_REG in rules && rules[CFA_REG].Register? }

  /** Why an instruction has no effect: the state is illegal for it, or its operand
      is undefined. */
  function FailureOf(s: State, i: Instr): Error {
    if i.Overflow? && (i.adjustsCfa ==> CfaIsRegister(s.rules)) then UndefinedOperation else IllegalState
  }

  /** Effect of one instruction, None if it fails. */
  function Exec(p: Program, s: State, i: Instr): Option<State> {
    match i
    case Nop => Some(s)
    case Overflow(_) => None
    case SetLoc(pc) => Some(s.(pc := Wrap(p.w, pc)))
    case Advance(delta) => Some(s.(pc := Wrap(p.w, s.pc + delta)))
    case SetRule(reg, loc) => Some(s.(rules := s.rules[reg := loc]))
    case Forget(reg) => Some(s.(rules := s.rules - {reg}))
    case Restore(reg) =>
      if p.cieRules.None? then None
      else if reg in p.cieRules.value then Some(s.(rules := s.rules[reg := p.cieRules.value[reg]]))
      else Some(s.(rules := s.rules - {reg}))
    case RememberState => Some(s.(stack := s.stack + [Saved(s.rules, s.start)]))
    case RestoreState =>
      if s.stack == [] then Some(s)
      else
        var top := s.stack[|s.stack| - 1];
        Some(s.(rules := top.rules, start := top.start, stack := s.stack[..|s.stack| - 1]))
    case DefCfaRegister(reg) =>
      if CfaIsRegister(s.rules)
      then Some(s.(rules := s.rules[CFA_REG := Register(reg, s.rules[CFA_REG].add)])) else None
    case DefCfaOffset(offset) =>
      if CfaIsRegister(s.rules)
      then Some(s.(rules := s.rules[CFA_REG := Register(s.rules[CFA_REG].reg, offset)])) else None
  }

  /** What one turn of the interpreter loop does at a cursor. */
  datatype Turn = Stop(outcome: Outcome) | Continue(off: nat, s: State)

  function Step(p: Program, pc: nat, off: nat, s: State): (t: Turn)
    ensures t.Continue? ==> off < t.off && off < p.end && s.pc <= pc
  {
    if s.pc > pc then Stop(Row(s.rules, s.start, s.pc, s.stack))
    else if off >= p.end then Stop(Row(s.rules, s.start, p.pcEnd, s.stack))
    else
      match Decode(p, off)
      case Bad(e) => Stop(Failed(e))
      case Op(i, next) =>
        match Exec(p, s.(start := s.pc), i)
        case None => Stop(Failed(FailureOf(s, i)))
        case Some(s') => if next <= off then Stop(Backwards) else Continue(next, s')
  }

  /** The whole run from a cursor and a state. */
  function Run(p: Program, pc: nat, off: nat, s: State): Outcome
    decreases p.end - off
  {
    match Step(p, pc, off, s)
    case Stop(outcome) => outcome
    case Continue(next, s') => Run(p, pc, next, s')
  }

  /** The state a run starts in: the CIE's rules are laid over the given ones. */
  function Initial(p: Program, pcStart: nat, rules: Rules, stack: seq<Saved>): State {
    var all := if p.cieRules.Some? then rules + p.cieRules.value else rules;
    State(Wrap(p.w, pcStart), all, Wrap(p.w, pcStart), stack)
  }

  /** GetLocationInfo as a function of everything it reads. */
  function LocationInfo(p: Program, pcStart: nat, pc: nat, off: nat, rules: Rules, stack: seq<Saved>): Outcome {
    Run(p, pc, off, Initial(p, pcStart, rules, stack))
  }

  /** The interpreter object: the stack of remembered rows outlives a call, so
      what a CIE program leaves on it is still there for the FDE program. */
  class Interpreter {
    var curPc: nat
    var stack: seq<Saved>

    constructor ()
      ensures stack == []
    {
      curPc, stack := 0, [];
    }

    method GetLocationInfo(p: Program, pcStart: nat, pc: nat, startOffset: nat, locRegs: Rules)
      returns (outcome: Outcome)
      modifies this
      ensures outcome == LocationInfo(p, pcStart, pc, startOffset, locRegs, old(stack))
      ensures outcome.Row? ==> stack == outcome.stack
    {
      var rules := locRegs;
      if p.cieRules.Some? {
        rules := rules + p.cieRules.value;
      }
      var off := startOffset;
      curPc := Wrap(p.w, pcStart);
      var start := curPc;
      while curPc <= pc && off < p.end
        invariant Run(p, pc, off, State(curPc, rules, start, stack))
               == LocationInfo(p, pcStart, pc, startOffset, locRegs, old(stack))
        decreases p.end - off
      {
        start := curPc;
        var d := Decode(p, off);
        if d.Bad? {
          return Failed(d.error);
        }
        var next := Exec(p, State(curPc, rules, start, stack), d.instr);
        if next.None? {
          return Failed(FailureOf(State(curPc, rules, start, stack), d.instr));
        }
        if d.next <= off {
          return Backwards;
        }
        curPc, rules, start, stack := next.value.pc, next.value.rules, next.value.start, next.value.stack;
        off := d.next;
      }
      outcome := Row(rules, start, if curPc > pc then curPc else p.pcEnd, stack);
    }
  }
}
