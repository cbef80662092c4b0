/** The expression stack machine (section 2.5.1 of DWARF 4). */
module DwarfOp {
  import opened Machine
  import opened DwarfMemory
  import opened Operands

  /** What an evaluation reads: the bytes of the expression, the memory of the
      process and the registers before the frame is unwound. */
  datatype Context = Context(w: Width, code: Memory, mem: Memory, regs: seq<nat>)

  /** Required stack depth and operand encodings of an operation. */
  datatype Shape = Shape(depth: nat, kinds: seq<Byte>)

  /** Outcome of one handler; the top of the stack is element 0. */
  datatype Effect = Stuck(error: Error) | Next(off: nat, stack: seq<nat>, isRegister: bool)

  datatype Result = Failed(error: Error) | Done(stack: seq<nat>, isRegister: bool)

  /** Evaluation stops with an error after this many operations. */
  const MAX_DECODES: nat := 1001

  function ShapeOf(op: Byte): Option<Shape> {
    if 0x30 <= op <= 0x6f then Some(Shape(0, []))
    else if 0x70 <= op <= 0x8f then Some(Shape(0, [SLEB128]))
    else
      match op
      case 0x03 => Some(Shape(0, [ABSPTR]))
      case 0x06 => Some(Shape(1, []))
      case 0x08 => Some(Shape(0, [UDATA1]))
      case 0x09 => Some(Shape(0, [SDATA1]))
      case 0x0a => Some(Shape(0, [UDATA2]))
      case 0x0b => Some(Shape(0, [SDATA2]))
      case 0x0c => Some(Shape(0, [UDATA4]))
      case 0x0d => Some(Shape(0, [SDATA4]))
      case 0x0e => Some(Shape(0, [UDATA8]))
      case 0x0f => Some(Shape(0, [SDATA8]))
      case 0x10 => Some(Shape(0, [ULEB128]))
      case 0x11 => Some(Shape(0, [SLEB128]))
      case 0x12 => Some(Shape(1, []))
      case 0x13 => Some(Shape(1, []))
      case 0x14 => Some(Shape(2, []))
      case 0x15 => Some(Shape(0, [UDATA1]))
      case 0x16 => Some(Shape(2, []))
      case 0x17 => Some(Shape(3, []))
      case 0x18 => Some(Shape(2, []))
      case 0x19 => Some(Shape(1, []))
      case 0x1f => Some(Shape(1, []))
      case 0x20 => Some(Shape(1, []))
      case 0x23 => Some(Shape(1, [ULEB128]))
      case 0x28 => Some(Shape(1, [SDATA2]))
      case 0x2f => Some(Shape(0, [SDATA2]))
      case 0x90 => Some(Shape(0, [ULEB128]))
      case 0x91 => Some(Shape(0, [SLEB128]))
      case 0x92 => Some(Shape(0, [ULEB128, SLEB128]))
      case 0x93 => Some(Shape(0, [ULEB128]))
      case 0x94 => Some(Shape(1, [UDATA1]))
      case 0x95 => Some(Shape(0, [UDATA1]))
      case 0x96 => Some(Shape(0, []))
      case 0x97 => Some(Shape(0, []))
      case 0x98 => Some(Shape(0, [UDATA2]))
      case 0x99 => Some(Shape(0, [UDATA4]))
      case 0x9a => Some(Shape(0, []))
      case 0x9b => Some(Shape(0, []))
      case 0x9c => Some(Shape(0, []))
      case 0x9d => Some(Shape(0, [ULEB128, ULEB128]))
      case 0x9e => Some(Shape(0, [ULEB128]))
      case 0x9f => Some(Shape(1, []))
      case _ => if 0x1a <= op <= 0x2e then Some(Shape(2, [])) else None
  }

  /** Signed division rounds toward zero. */
  function Truncated(a: int, b: int): int
    requires b != 0
  {
    var q: int := Quotient(Magnitude(a), Magnitude(b));
    if (a < 0) == (b < 0) then q else -q
  }

  function Magnitude(a: int): nat { if a < 0 then -a else a }

  function Quotient(a: nat, b: nat): nat
    requires b > 0
  {
    a / b
  }

  function Remainder(a: nat, b: nat): nat
    requires b > 0
  {
    a % b
  }

  function Complement(w: Width, x: int): nat { Wrap(w, -x - 1) }

  function Bit(b: bool): nat { if b then 1 else 0 }

  function BitAnd(a: nat, b: nat): nat {
    if a == 0 || b == 0 then 0 else Bit(a % 2 == 1 && b % 2 == 1) + 2 * BitAnd(a / 2, b / 2)
  }

  function BitOr(a: nat, b: nat): nat {
    if a == 0 then b else Bit(a % 2 == 1 || b % 2 == 1) + 2 * BitOr(a / 2, b / 2)
  }

  function BitXor(a: nat, b: nat): nat {
    if a == 0 then b else Bit(a % 2 != b % 2) + 2 * BitXor(a / 2, b / 2)
  }

  lemma {:induction false} ZeroHasNoBits(k: nat)
    ensures !BitAt(0, k)
  {
    if k > 0 {
      ZeroHasNoBits(k - 1);
    }
  }

  /** The bitwise operators, bit by bit. */
  lemma {:induction false} BitwiseOperators(a: nat, b: nat, k: nat)
    ensures BitAt(BitAnd(a, b), k) <==> BitAt(a, k) && BitAt(b, k)
    ensures BitAt(BitOr(a, b), k) <==> BitAt(a, k) || BitAt(b, k)
    ensures BitAt(BitXor(a, b), k) <==> BitAt(a, k) != BitAt(b, k)
    decreases k
  {
    ZeroHasNoBits(k);
    if k > 0 {
      ZeroHasNoBits(k - 1);
      BitwiseOperators(a / 2, b / 2, k - 1);
      HalfOf(a, b);
    } else {
      LowBits(a, b);
    }
  }

  lemma HalfOf(a: nat, b: nat)
    ensures BitAnd(a, b) / 2 == BitAnd(a / 2, b / 2)
    ensures BitOr(a, b) / 2 == BitOr(a / 2, b / 2)
    ensures BitXor(a, b) / 2 == BitXor(a / 2, b / 2)
  {
  }

  lemma LowBits(a: nat, b: nat)
    ensures BitAnd(a, b) % 2 == 1 <==> a % 2 == 1 && b % 2 == 1
    ensures BitOr(a, b) % 2 == 1 <==> a % 2 == 1 || b % 2 == 1
    ensures BitXor(a, b) % 2 == 1 <==> a % 2 != b % 2
  {
  }

  /** Signed division: the remainder is smaller than the divisor and has the sign of
      the dividend. */
  lemma TruncatesTowardZero(a: int, b: int)
    requires b != 0
    ensures Magnitude(a - b * Truncated(a, b)) < Magnitude(b)
    ensures a >= 0 ==> a - b * Truncated(a, b) >= 0
    ensures a <= 0 ==> a - b * Truncated(a, b) <= 0
  {
    hide Quotient;
    hide Remainder;
    var x, y := Magnitude(a), Magnitude(b);
    var q: int := Quotient(x, y);
    DivisionLaw(x, y);
    assert b * q == if b < 0 then -(y * q) else y * q;
    assert b * -q == -(b * q);
  }

  lemma DivisionLaw(x: nat, y: nat)
    requires y > 0
    ensures x == y * Quotient(x, y) + Remainder(x, y) && Remainder(x, y) < y
  {
  }

  /** What an operator makes of its operands: a value, or the error it stops with. */
  datatype Computed = Value(v: nat) | Fault(error: Error)

  function Least(w: Width): int { -(w.Modulus() / 2) }

  /** Two-operand handlers: `top` was pushed last. Shifts by the word size or more and
      the least number divided by -1 are undefined. */
  function Combine(w: Width, op: Byte, top: nat, below: nat): Computed {
    match op
    case 0x1a => Value(BitAnd(below, top))
    case 0x1b => Divided(w, below, top)
    case 0x1c => Value(Wrap(w, below - top))
    case 0x1d => if top == 0 then Fault(IllegalValue) else Value(Remainder(below, top))
    case 0x1e => Value(Wrap(w, below * top))
    case 0x21 => Value(BitOr(below, top))
    case 0x22 => Value(Wrap(w, below + top))
    case 0x24 => if top >= w.Bits() then Fault(UndefinedOperation) else Value(Wrap(w, below * Pow2(top)))
    case 0x25 => if top >= w.Bits() then Fault(UndefinedOperation) else Value(Quotient(below, Pow2(top)))
    case 0x26 => if top >= w.Bits() then Fault(UndefinedOperation) else Value(Wrap(w, Signed(w, below) / Pow2(top)))
    case 0x27 => Value(BitXor(below, top))
    case 0x29 => Value(Bit(below == top))
    case 0x2a => Value(Bit(below >= top))
    case 0x2b => Value(Bit(below > top))
    case 0x2c => Value(Bit(below <= top))
    case 0x2d => Value(Bit(below < top))
    case 0x2e => Value(Bit(below != top))
    case _ => Fault(IllegalValue)
  }

  function Divided(w: Width, dividend: nat, divisor: nat): Computed {
    var a, b := Signed(w, dividend), Signed(w, divisor);
    if b == 0 then Fault(IllegalValue)
    else if a == Least(w) && b == -1 then Fault(UndefinedOperation)
    else Value(Wrap(w, Truncated(a, b)))
  }

  /** The least number has no negation. */
  function Negated(w: Width, x: nat): Computed {
    if Signed(w, x) == Least(w) then Fault(UndefinedOperation) else Value(Wrap(w, -Signed(w, x)))
  }

  function Absolute(w: Width, x: nat): Computed { if Signed(w, x) < 0 then Negated(w, x) else Value(x) }

  /** The 16-bit branch offset inside an operand. */
  function Branch(x: nat): int {
    var y := x % 0x1_0000;
    if y >= 0x8000 then y - 0x1_0000 else y
  }

  /** The computed value on top of the rest of the stack. */
  function Replaced(off: nat, c: Computed, rest: seq<nat>, isReg: bool): Effect {
    match c
    case Value(v) => Next(off, [v] + rest, isReg)
    case Fault(e) => Stuck(e)
  }

  function Loaded(m: Memory, a: nat, n: nat): Computed {
    match ReadLE(m, a, n)
    case None => Fault(MemoryInvalid)
    case Some(v) => Value(v)
  }

  /** The handler of one operation, its operands read and the cursor behind them. */
  function Handle(c: Context, op: Byte, xs: seq<nat>, s: seq<nat>, off: nat, isReg: bool): Effect
    requires ShapeOf(op).Some? && |xs| == |ShapeOf(op).value.kinds| && |s| >= ShapeOf(op).value.depth
  {
    if 0x30 <= op <= 0x4f then Next(off, [op - 0x30] + s, isReg)
    else if 0x50 <= op <= 0x6f then Next(off, [op - 0x50] + s, true)
    else if 0x70 <= op <= 0x8f then
      if op - 0x70 >= |c.regs| then Stuck(IllegalValue)
      else Next(off, [Wrap(c.w, c.regs[op - 0x70] + xs[0])] + s, isReg)
    else if 0x08 <= op <= 0x11 || op == 0x03 then Next(off, xs + s, isReg)
    else
      match op
      case 0x06 => Replaced(off, Loaded(c.mem, s[0], c.w.Size()), s[1..], isReg)
      case 0x94 =>
        if xs[0] > c.w.Size() || xs[0] == 0 then Stuck(IllegalValue)
        else Replaced(off, Loaded(c.mem, s[0], xs[0]), s[1..], isReg)
      case 0x12 => Next(off, [s[0]] + s, isReg)
      case 0x13 => Next(off, s[1..], isReg)
      case 0x14 => Next(off, [s[1]] + s, isReg)
      case 0x15 =>
        if xs[0] > |s| then Stuck(StackIndexNotValid)
        else if xs[0] == |s| then Stuck(UndefinedOperation)
        else Next(off, [s[xs[0]]] + s, isReg)
      case 0x16 => Next(off, [s[1], s[0]] + s[2..], isReg)
      case 0x17 => Next(off, [s[1], s[2], s[0]] + s[3..], isReg)
      case 0x19 => Replaced(off, Absolute(c.w, s[0]), s[1..], isReg)
      case 0x1f => Replaced(off, Negated(c.w, s[0]), s[1..], isReg)
      case 0x20 => Next(off, [Complement(c.w, s[0])] + s[1..], isReg)
      case 0x23 => Next(off, [Wrap(c.w, s[0] + xs[0])] + s[1..], isReg)
      case 0x28 => Next((if s[0] != 0 then off + Branch(xs[0]) else off - Branch(xs[0])) % TWO64, s[1..], isReg)
      case 0x2f => Next((off + Branch(xs[0])) % TWO64, s, isReg)
      case 0x90 => Next(off, [xs[0]] + s, true)
      case 0x92 =>
        if xs[0] >= |c.regs| then Stuck(IllegalValue)
        else Next(off, [Wrap(c.w, c.regs[xs[0]] + xs[1])] + s, isReg)
      case 0x96 => Next(off, s, isReg)
      case _ =>
        if !IsBinary(op) then Stuck(NotImplemented)
        else Replaced(off, Combine(c.w, op, s[0], s[1]), s[2..], isReg)
  }

  /** The operators on the two topmost values. */
  predicate IsBinary(op: Byte) { ShapeOf(op).Some? && ShapeOf(op).value.depth >= 2 && op > 0x18 }

  function DecodeOp(c: Context, off: nat, s: seq<nat>, isReg: bool): Effect {
    if off !in c.code then Stuck(MemoryInvalid)
    else if ShapeOf(c.code[off]).None? then Stuck(IllegalValue)
    else if |s| < ShapeOf(c.code[off]).value.depth then Stuck(StackIndexNotValid)
    else
      match ReadOperands(c.w, c.code, ShapeOf(c.code[off]).value.kinds, off + 1)
      case Fail(e) => Stuck(e)
      case Got(xs, next) => Handle(c, c.code[off], xs, s, next, isReg)
  }

  /** Evaluation from a cursor, with n operations already decoded. */
  function Loop(c: Context, end: nat, off: nat, s: seq<nat>, isReg: bool, n: nat): Result
    requires n < MAX_DECODES
    decreases MAX_DECODES - n
  {
    if off >= end then Done(s, isReg)
    else
      match DecodeOp(c, off, s, isReg)
      case Stuck(e) => Failed(e)
      case Next(off', s', isReg') =>
        if n + 1 == MAX_DECODES then Failed(TooManyIterations) else Loop(c, end, off', s', isReg', n + 1)
  }

  lemma LoopStep(c: Context, end: nat, off: nat, s: seq<nat>, isReg: bool, n: nat)
    requires n < MAX_DECODES
    ensures var e, r := DecodeOp(c, off, s, isReg), Loop(c, end, off, s, isReg, n);
      if off >= end then r == Done(s, isReg)
      else if e.Stuck? then r == Failed(e.error)
      else if n + 1 == MAX_DECODES then r == Failed(TooManyIterations)
      else r == Loop(c, end, e.off, e.stack, e.isRegister, n + 1)
  {
    hide DecodeOp;
  }

  function Evaluate(c: Context, start: nat, end: nat): Result {
    Loop(c, end, start, [], false, 0)
  }

  /** The value of an expression used as a rule: registers names are not supported. */
  function ExpressionValue(c: Context, len: nat, end: nat): Option<nat> {
    match Evaluate(c, (end - len) % TWO64, end)
    case Failed(_) => None
    case Done(s, isReg) => if s == [] || isReg then None else Some(s[0])
  }

  /** The expression opens with the marker of a dex pc: const4u "DEX1", drop. */
  predicate MarksDexPc(c: Context, start: nat, end: nat) {
    start < end && start in c.code && c.code[start] == 0x0c &&
    match DecodeOp(c, start, [], false)
    case Stuck(_) => false
    case Next(off, s, _) => s == [DEX1] && off < end && off in c.code && c.code[off] == 0x13
  }

  const DEX1: nat := 0x31584544

  // ----------------------------------------------------- the machine object

  class StackMachine {
    const ctx: Context
    var cur: nat
    var stack: seq<nat>
    var operands: seq<nat>
    var isRegister: bool
    var dexPcSet: bool
    ghost var decodes: nat

    constructor (c: Context)
      ensures ctx == c
    {
      ctx := c;
      cur, stack, operands, isRegister, dexPcSet, decodes := 0, [], [], false, false, 0;
    }

    /** The outcome that an operation reports, with the state it leaves. */
    predicate Reports(e: Effect, ok: bool, error: Error)
      reads this
    {
      e == if ok then Next(cur, stack, isRegister) else Stuck(error)
    }

    method StackPop() returns (v: nat)
      requires stack != []
      modifies this`stack
      ensures v == old(stack)[0] && stack == old(stack)[1..]
    {
      v := stack[0];
      stack := stack[1..];
    }

    /** Operands are read one after the other, each cut to the address width. */
    method ReadOperandList(kinds: seq<Byte>) returns (ok: bool, error: Error)
      requires BLOCK !in kinds
      modifies this`cur, this`operands
      ensures ReadOperands(ctx.w, ctx.code, kinds, old(cur)) == if ok then Got(operands, cur) else Fail(error)
    {
      hide ReadEncodedValue;
      hide Wrap;
      hide ReadOperands;
      operands, error := [], MemoryInvalid;
      ghost var all := ReadOperands(ctx.w, ctx.code, kinds, cur);
      assert kinds[0..] == kinds && (all.Got? ==> [] + all.value == all.value);
      for i := 0 to |kinds|
        invariant |operands| == i
        invariant all == Prepended(operands, ReadOperands(ctx.w, ctx.code, kinds[i..], cur))
      {
        assert kinds[i..][1..] == kinds[i + 1..];
        OperandsStep(ctx.w, ctx.code, kinds[i..], cur);
        var v := ReadEncodedValue(ctx.w, ctx.code, NO_BASES, kinds[i], cur);
        if v.Fail? {
          return false, v.error;
        }
        PrependedSnoc(operands, Wrap(ctx.w, v.value), ReadOperands(ctx.w, ctx.code, kinds[i + 1..], v.next));
        operands := operands + [Wrap(ctx.w, v.value)];
        cur := v.next;
      }
      assert kinds[|kinds|..] == [];
      NoOperands(ctx.w, ctx.code, cur);
      assert operands + [] == operands;
      ok := true;
    }

    /** One operation: opcode, table, required depth, operands, handler. */
    method Decode() returns (ok: bool, op: Byte, error: Error)
      modifies this
      ensures dexPcSet == old(dexPcSet) && decodes == old(decodes) + 1
      ensures ok ==> old(cur) in ctx.code && op == ctx.code[old(cur)]
      ensures Reports(DecodeOp(ctx, old(cur), old(stack), old(isRegister)), ok, error)
    {
      hide Handle;
      hide ReadOperands;
      hide ShapeOf;
      decodes := decodes + 1;
      op, error := 0, MemoryInvalid;
      if cur !in ctx.code {
        return false, op, error;
      }
      op := ctx.code[cur];
      cur := cur + 1;
      var shape := ShapeOf(op);
      if shape.None? {
        return false, op, IllegalValue;
      }
      if |stack| < shape.value.depth {
        return false, op, StackIndexNotValid;
      }
      NoBlocks(op);
      ok, error := ReadOperandList(shape.value.kinds);
      if ok {
        ok, error := CallHandler(op);
      }
    }

    /** Operands and stack are as the table demands for the operation. */
    predicate Ready(op: Byte)
      reads this
    {
      ShapeOf(op).Some? && |operands| == |ShapeOf(op).value.kinds| && |stack| >= ShapeOf(op).value.depth
    }

    /** The dispatch of the callback table. */
    method CallHandler(op: Byte) returns (ok: bool, error: Error)
      requires Ready(op)
      modifies this`cur, this`stack, this`isRegister
      ensures Reports(Handle(ctx, op, operands, old(stack), old(cur), old(isRegister)), ok, error)
    {
      hide Handle;
      if IsPush(op) {
        ok, error := PushValue(op);
      } else if op == 0x06 || op == 0x94 {
        ok, error := Dereference(op);
      } else if 0x12 <= op <= 0x17 {
        ok, error := Shuffle(op);
      } else if op == 0x19 || op == 0x1f || op == 0x20 || op == 0x23 {
        ok, error := OnTop(op);
      } else if op == 0x28 || op == 0x2f || op == 0x96 {
        ok, error := Jump(op);
      } else if IsBinary(op) {
        ok, error := OnTwo(op);
      } else {
        NotHandled(ctx, op, operands, stack, cur, isRegister);
        ok, error := false, NotImplemented;
      }
    }

    /** op_lit, op_push, op_reg, op_regx, op_breg, op_bregx. */
    method PushValue(op: Byte) returns (ok: bool, error: Error)
      requires Ready(op) && IsPush(op)
      modifies this`stack, this`isRegister
      ensures Reports(Handle(ctx, op, operands, old(stack), old(cur), old(isRegister)), ok, error)
    {
      hide Wrap;
      ok, error := true, IllegalValue;
      if 0x30 <= op <= 0x4f {
        stack := [op - 0x30] + stack;
      } else if 0x50 <= op <= 0x6f {
        isRegister := true;
        stack := [op - 0x50] + stack;
      } else if 0x70 <= op <= 0x8f {
        var reg := op - 0x70;
        if reg >= |ctx.regs| {
          return false, IllegalValue;
        }
        stack := [Wrap(ctx.w, ctx.regs[reg] + operands[0])] + stack;
      } else if op == 0x90 {
        isRegister := true;
        stack := [operands[0]] + stack;
      } else if op == 0x92 {
        if operands[0] >= |ctx.regs| {
          return false, IllegalValue;
        }
        stack := [Wrap(ctx.w, ctx.regs[operands[0]] + operands[1])] + stack;
      } else {
        stack := [operands[0]] + stack;
        assert operands == [operands[0]];
      }
    }

    /** op_deref and op_deref_size. */
    method Dereference(op: Byte) returns (ok: bool, error: Error)
      requires Ready(op) && (op == 0x06 || op == 0x94)
      modifies this`stack
      ensures Reports(Handle(ctx, op, operands, old(stack), old(cur), old(isRegister)), ok, error)
    {
      hide ReadLE;
      var size := ctx.w.Size();
      if op == 0x94 {
        if operands[0] > size || operands[0] == 0 {
          return false, IllegalValue;
        }
        size := operands[0];
      }
      var addr := StackPop();
      var value := ReadLE(ctx.mem, addr, size);
      if value.None? {
        return false, MemoryInvalid;
      }
      stack := [value.value] + stack;
      ok, error := true, IllegalValue;
    }

    /** op_dup, op_drop, op_over, op_pick, op_swap, op_rot. */
    method Shuffle(op: Byte) returns (ok: bool, error: Error)
      requires Ready(op) && 0x12 <= op <= 0x17
      modifies this`stack
      ensures Reports(Handle(ctx, op, operands, old(stack), old(cur), old(isRegister)), ok, error)
    {
      ok, error := true, StackIndexNotValid;
      if op == 0x12 {
        stack := [stack[0]] + stack;
      } else if op == 0x13 {
        var top := StackPop();
      } else if op == 0x14 {
        stack := [stack[1]] + stack;
      } else if op == 0x15 {
        var index := operands[0];
        if index > |stack| {
          return false, StackIndexNotValid;
        }
        if index == |stack| {
          return false, UndefinedOperation;
        }
        stack := [stack[index]] + stack;
      } else if op == 0x16 {
        var top := stack[0];
        stack := stack[0 := stack[1]];
        stack := stack[1 := top];
        assert stack == [old(stack)[1], old(stack)[0]] + old(stack)[2..];
      } else {
        var top := stack[0];
        stack := stack[0 := stack[1]];
        stack := stack[1 := stack[2]];
        stack := stack[2 := top];
        assert stack == [old(stack)[1], old(stack)[2], old(stack)[0]] + old(stack)[3..];
      }
    }

    /** op_abs, op_neg, op_not, op_plus_uconst: the top is overwritten. */
    method OnTop(op: Byte) returns (ok: bool, error: Error)
      requires Ready(op) && (op == 0x19 || op == 0x1f || op == 0x20 || op == 0x23)
      modifies this`stack
      ensures Reports(Handle(ctx, op, operands, old(stack), old(cur), old(isRegister)), ok, error)
    {
      hide Wrap;
      hide Signed;
      ok, error := true, UndefinedOperation;
      var top := stack[0];
      var signed := Signed(ctx.w, top);
      if op == 0x19 && signed >= 0 {
        assert stack == [top] + stack[1..];
      } else if op == 0x19 || op == 0x1f {
        if signed == Least(ctx.w) {
          return false, UndefinedOperation;
        }
        stack := stack[0 := Wrap(ctx.w, -signed)];
        assert stack == [Wrap(ctx.w, -signed)] + old(stack)[1..];
      } else if op == 0x20 {
        stack := stack[0 := Complement(ctx.w, top)];
        assert stack == [Complement(ctx.w, top)] + old(stack)[1..];
      } else {
        stack := stack[0 := Wrap(ctx.w, top + operands[0])];
        assert stack == [Wrap(ctx.w, top + operands[0])] + old(stack)[1..];
      }
    }

    /** op_bra, op_skip, op_nop: the cursor moves. */
    method Jump(op: Byte) returns (ok: bool, error: Error)
      requires Ready(op) && (op == 0x28 || op == 0x2f || op == 0x96)
      modifies this`cur, this`stack
      ensures Reports(Handle(ctx, op, operands, old(stack), old(cur), old(isRegister)), ok, error)
    {
      ok, error := true, IllegalValue;
      if op == 0x28 {
        var top := StackPop();
        var offset := Branch(operands[0]);
        cur := (if top != 0 then cur + offset else cur - offset) % TWO64;
      } else if op == 0x2f {
        cur := (cur + Branch(operands[0])) % TWO64;
      }
    }

    /** The operators that pop one value and overwrite the next. */
    method OnTwo(op: Byte) returns (ok: bool, error: Error)
      requires Ready(op) && IsBinary(op)
      modifies this`stack
      ensures Reports(Handle(ctx, op, operands, old(stack), old(cur), old(isRegister)), ok, error)
    {
      hide Combine;
      BinaryOperation(ctx, op, operands, stack, cur, isRegister);
      ok, error := true, IllegalValue;
      var top := StackPop();
      var value := Combine(ctx.w, op, top, stack[0]);
      if value.Fault? {
        return false, value.error;
      }
      stack := stack[0 := value.v];
      assert stack == [value.v] + old(stack)[2..];
    }

    /** The loop behind the two unrolled operations. */
    method EvalRest(end: nat) returns (r: Result)
      requires decodes == 2
      modifies this
      ensures r == Loop(ctx, end, old(cur), old(stack), old(isRegister), 2)
      ensures decodes <= MAX_DECODES && dexPcSet == old(dexPcSet)
    {
      hide DecodeOp;
      hide Loop;
      ghost var result := Loop(ctx, end, cur, stack, isRegister, 2);
      var iterations := 2;
      while cur < end
        invariant iterations == decodes <= 1000
        invariant Loop(ctx, end, cur, stack, isRegister, iterations) == result
        invariant dexPcSet == old(dexPcSet)
        decreases MAX_DECODES - iterations
      {
        LoopStep(ctx, end, cur, stack, isRegister, iterations);
        var ok, op, error := Decode();
        if !ok {
          return Failed(error);
        }
        if iterations == 1000 {
          return Failed(TooManyIterations);
        }
        iterations := iterations + 1;
      }
      LoopStep(ctx, end, cur, stack, isRegister, iterations);
      r := Done(stack, isRegister);
    }

    /** The first two operations are unrolled to look for the dex pc marker. No
        evaluation decodes more than 1001 operations. */
    method Eval(start: nat, end: nat) returns (r: Result)
      modifies this
      ensures r == Evaluate(ctx, start, end)
      ensures decodes <= MAX_DECODES
      ensures r.Done? ==> dexPcSet == MarksDexPc(ctx, start, end)
    {
      isRegister, stack, cur, dexPcSet, decodes := false, [], start, false, 0;
      var ok, op, error;
      if cur >= end {
        return Done(stack, isRegister);
      }
      ok, op, error := Decode();
      if !ok {
        return Failed(error);
      }
      var checkForDrop := op == 0x0c && stack == [DEX1];
      if cur >= end {
        return Done(stack, isRegister);
      }
      ok, op, error := Decode();
      if !ok {
        return Failed(error);
      }
      if checkForDrop && op == 0x13 {
        dexPcSet := true;
      }
      r := EvalRest(end);
    }
  }

  // ---------------------------------------------------------- about the machine

  /** Operands in front of the rest of a list. */
  function Prepended(xs: seq<nat>, r: Read<seq<nat>>): Read<seq<nat>> {
    if r.Fail? then r else Got(xs + r.value, r.next)
  }

  lemma PrependedSnoc(xs: seq<nat>, x: nat, r: Read<seq<nat>>)
    ensures Prepended(xs, Prepended([x], r)) == Prepended(xs + [x], r)
  {
    if r.Got? {
      assert xs + ([x] + r.value) == xs + [x] + r.value;
    }
  }

  lemma OperandsStep(w: Width, m: Memory, kinds: seq<Byte>, off: nat)
    requires kinds != [] && kinds[0] != BLOCK
    ensures var v := ReadEncodedValue(w, m, NO_BASES, kinds[0], off);
      ReadOperands(w, m, kinds, off)
      == if v.Fail? then Fail(v.error) else Prepended([Wrap(w, v.value)], ReadOperands(w, m, kinds[1..], v.next))
  {
    hide ReadEncodedValue;
    hide Wrap;
  }

  lemma NoBlocks(op: Byte)
    requires ShapeOf(op).Some?
    ensures BLOCK !in ShapeOf(op).value.kinds
  {
  }

  predicate IsPush(op: Byte) { 0x30 <= op <= 0x8f || 0x08 <= op <= 0x11 || op == 0x03 || op == 0x90 || op == 0x92 }

  lemma BinaryOperation(c: Context, op: Byte, xs: seq<nat>, s: seq<nat>, off: nat, isReg: bool)
    requires ShapeOf(op).Some? && |xs| == |ShapeOf(op).value.kinds| && |s| >= ShapeOf(op).value.depth && IsBinary(op)
    ensures |s| >= 2 && Handle(c, op, xs, s, off, isReg) == Replaced(off, Combine(c.w, op, s[0], s[1]), s[2..], isReg)
  {
    hide Combine;
  }

  lemma NotHandled(c: Context, op: Byte, xs: seq<nat>, s: seq<nat>, off: nat, isReg: bool)
    requires ShapeOf(op).Some? && |xs| == |ShapeOf(op).value.kinds| && |s| >= ShapeOf(op).value.depth
    requires !IsPush(op) && !IsBinary(op) && !(0x12 <= op <= 0x17)
    requires op != 0x06 && op != 0x94 && op != 0x19 && op != 0x1f && op != 0x20 && op != 0x23 && op != 0x28 && op != 0x2f && op != 0x96
    ensures Handle(c, op, xs, s, off, isReg) == Stuck(NotImplemented)
  {
    hide Combine;
  }
}
