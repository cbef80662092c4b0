/** Expression trees, their postfix code, and the proof that the stack machine
    computes the value of the tree. */
module DwarfPostfix {
  import opened Machine
  import opened DwarfMemory
  import opened DwarfOp
  import opened Operands

  datatype UnaryOp = Deref | Abs | Neg | Not

  datatype BinaryOp = And | Or | Xor | Plus | Minus | Mul | Div | Mod | Shl | Shr | Shra
                    | Eq | Ne | Ge | Gt | Le | Lt

  datatype Expr =
    | Lit(n: nat)
    | Const(op: Byte, value: int)            // op is the constant's own opcode
    | Breg(reg: nat, offset: int)
    | Bregx(reg: nat, offset: int)           // for registers from 32 up, too
    | PlusConst(arg: Expr, k: nat)
    | DerefSize(arg: Expr, size: nat)
    | Unary(u: UnaryOp, arg: Expr)
    | Binary(b: BinaryOp, left: Expr, right: Expr)

  // ---------------------------------------------------------------- meaning

  /** The operators have no value where C++ leaves them undefined: shifts by the word
      size or more, the least number divided by -1 or negated. */
  function BinaryMeaning(w: Width, b: BinaryOp, x: nat, y: nat): Computed {
    match b
    case And => Value(BitAnd(x, y))
    case Or => Value(BitOr(x, y))
    case Xor => Value(BitXor(x, y))
    case Plus => Value(Wrap(w, x + y))
    case Minus => Value(Wrap(w, x - y))
    case Mul => Value(Wrap(w, x * y))
    case Div =>
      if Signed(w, y) == 0 then Fault(IllegalValue)
      else if Signed(w, x) == Least(w) && Signed(w, y) == -1 then Fault(UndefinedOperation)
      else Value(Wrap(w, Truncated(Signed(w, x), Signed(w, y))))
    case Mod => if y == 0 then Fault(IllegalValue) else Value(Remainder(x, y))
    case Shl => if y >= w.Bits() then Fault(UndefinedOperation) else Value(Wrap(w, x * Pow2(y)))
    case Shr => if y >= w.Bits() then Fault(UndefinedOperation) else Value(Quotient(x, Pow2(y)))
    case Shra => if y >= w.Bits() then Fault(UndefinedOperation) else Value(Wrap(w, Signed(w, x) / Pow2(y)))
    case Eq => Value(Bit(x == y))
    case Ne => Value(Bit(x != y))
    case Ge => Value(Bit(x >= y))
    case Gt => Value(Bit(x > y))
    case Le => Value(Bit(x <= y))
    case Lt => Value(Bit(x < y))
  }

  /** The little-endian number in n bytes of memory. */
  function NumberAt(m: Memory, a: nat, n: nat): Computed {
    if Readable(m, a, n) then Value(LittleEndian(Fetch(m, a, n))) else Fault(MemoryInvalid)
  }

  function UnaryMeaning(c: Context, u: UnaryOp, x: nat): Computed {
    var least := Signed(c.w, x) == Least(c.w);
    match u
    case Deref => NumberAt(c.mem, x, c.w.Size())
    case Abs =>
      if Signed(c.w, x) >= 0 then Value(x)
      else if least then Fault(UndefinedOperation)
      else Value(Wrap(c.w, -Signed(c.w, x)))
    case Neg => if least then Fault(UndefinedOperation) else Value(Wrap(c.w, -Signed(c.w, x)))
    case Not => Value(Complement(c.w, x))
  }

  function SizedMeaning(c: Context, size: nat, x: nat): Computed {
    if size == 0 || size > c.w.Size() then Fault(IllegalValue) else NumberAt(c.mem, x, size)
  }

  function RegisterMeaning(c: Context, reg: nat, offset: int): Computed {
    if reg < |c.regs| then Value(Wrap(c.w, c.regs[reg] + offset)) else Fault(IllegalValue)
  }

  /** The value of a tree, or the first fault in evaluation order. */
  function Meaning(c: Context, e: Expr): Computed {
    match e
    case Lit(n) => Value(n)
    case Const(_, v) => Value(Wrap(c.w, v))
    case Breg(r, off) => RegisterMeaning(c, r, off)
    case Bregx(r, off) => RegisterMeaning(c, r, off)
    case PlusConst(a, k) =>
      (match Meaning(c, a)
       case Fault(e) => Fault(e)
       case Value(x) => Value(Wrap(c.w, x + k)))
    case DerefSize(a, size) =>
      (match Meaning(c, a)
       case Fault(e) => Fault(e)
       case Value(x) => SizedMeaning(c, size, x))
    case Unary(u, a) =>
      (match Meaning(c, a)
       case Fault(e) => Fault(e)
       case Value(x) => UnaryMeaning(c, u, x))
    case Binary(b, l, r) =>
      (match Meaning(c, l)
       case Fault(e) => Fault(e)
       case Value(x) =>
         match Meaning(c, r)
         case Fault(e) => Fault(e)
         case Value(y) => BinaryMeaning(c.w, b, x, y))
  }

  // ------------------------------------------------------------ compilation

  function UnaryCode(u: UnaryOp): Byte {
    match u case Deref => 0x06 case Abs => 0x19 case Neg => 0x1f case Not => 0x20
  }

  function BinaryCode(b: BinaryOp): Byte {
    match b
    case And => 0x1a case Div => 0x1b case Minus => 0x1c case Mod => 0x1d case Mul => 0x1e
    case Or => 0x21 case Plus => 0x22 case Shl => 0x24 case Shr => 0x25 case Shra => 0x26
    case Xor => 0x27 case Eq => 0x29 case Ge => 0x2a case Gt => 0x2b case Le => 0x2c
    case Lt => 0x2d case Ne => 0x2e
  }

  function ConstSize(w: Width, op: Byte): nat {
    match op
    case 0x03 => w.Size()
    case 0x08 => 1 case 0x09 => 1
    case 0x0a => 2 case 0x0b => 2
    case 0x0c => 4 case 0x0d => 4
    case 0x0e => 8 case 0x0f => 8
    case _ => 0
  }

  predicate SignedConst(op: Byte) { op == 0x09 || op == 0x0b || op == 0x0d || op == 0x0f }

  predicate ConstFits(w: Width, op: Byte, v: int) {
    if op == 0x10 then 0 <= v < TWO64
    else if op == 0x11 then SlebReadable(v)
    else
      var n := ConstSize(w, op);
      n > 0 && if SignedConst(op) then -(Pow256(n) / 2) <= v < Pow256(n) / 2 else 0 <= v < Pow256(n)
  }

  function ConstBytes(w: Width, op: Byte, v: int): seq<Byte>
    requires ConstFits(w, op, v)
  {
    if op == 0x10 then EncodeUleb(v)
    else if op == 0x11 then EncodeSleb(v)
    else ToLE(v % Pow256(ConstSize(w, op)), ConstSize(w, op))
  }

  /** Numbers fit the fields an assembler has for them, and signed ones are at least
      -2^62: below that their encoding has ten bytes and is not read back. */
  predicate Encodable(w: Width, e: Expr) {
    match e
    case Lit(n) => n < 32
    case Const(op, v) => ConstFits(w, op, v)
    case Breg(r, off) => r < 32 && SlebReadable(off)
    case Bregx(r, off) => r < TWO32 && SlebReadable(off)
    case PlusConst(a, k) => k < TWO64 && Encodable(w, a)
    case DerefSize(a, size) => size < 256 && Encodable(w, a)
    case Unary(_, a) => Encodable(w, a)
    case Binary(_, l, r) => Encodable(w, l) && Encodable(w, r)
  }

  function Code(w: Width, e: Expr): (code: seq<Byte>)
    requires Encodable(w, e)
    ensures |code| > 0
  {
    match e
    case Lit(n) => [0x30 + n]
    case Const(op, v) => [op] + ConstBytes(w, op, v)
    case Breg(r, off) => [0x70 + r] + EncodeSleb(off)
    case Bregx(r, off) => [0x92] + (EncodeUleb(r) + EncodeSleb(off))
    case PlusConst(a, k) => Code(w, a) + ([0x23] + EncodeUleb(k))
    case DerefSize(a, size) => Code(w, a) + [0x94, size]
    case Unary(u, a) => Code(w, a) + [UnaryCode(u)]
    case Binary(b, l, r) => Code(w, l) + (Code(w, r) + [BinaryCode(b)])
  }

  /** Operations in the code of a tree. */
  function Ops(e: Expr): (n: nat)
    ensures n > 0
  {
    match e
    case PlusConst(a, _) => Ops(a) + 1
    case DerefSize(a, _) => Ops(a) + 1
    case Unary(_, a) => Ops(a) + 1
    case Binary(_, l, r) => Ops(l) + Ops(r) + 1
    case _ => 1
  }

  // ------------------------------------------------------- operand decoding

  /** The encoding behind each constant opcode. */
  function ConstKind(op: Byte): Byte {
    match op
    case 0x03 => ABSPTR
    case 0x08 => UDATA1 case 0x09 => SDATA1
    case 0x0a => UDATA2 case 0x0b => SDATA2
    case 0x0c => UDATA4 case 0x0d => SDATA4
    case 0x0e => UDATA8 case 0x0f => SDATA8
    case 0x10 => ULEB128
    case _ => SLEB128
  }

  lemma ConstShape(w: Width, op: Byte)
    requires op == 0x10 || op == 0x11 || ConstSize(w, op) > 0
    ensures ShapeOf(op) == Some(Shape(0, [ConstKind(op)])) && ConstKind(op) < 15
    ensures 0x08 <= op <= 0x11 || op == 0x03
  {
  }

  lemma ConstFormat(w: Width, m: Memory, off: nat, op: Byte)
    requires op != 0x10 && op != 0x11 && ConstSize(w, op) > 0
    ensures ReadFormat(w, m, ConstKind(op), off)
         == if SignedConst(op) then ReadSigned(m, off, ConstSize(w, op)) else ReadFixed(m, off, ConstSize(w, op))
  {
    hide ReadSigned;
    hide ReadFixed;
    hide UlebAt;
    hide SlebAt;
  }

  /** Every constant opcode reads its constant back, as a 64-bit pattern. */
  lemma ConstOperand(w: Width, m: Memory, off: nat, op: Byte, v: int)
    requires ConstFits(w, op, v) && Holds(m, off, ConstBytes(w, op, v))
    ensures ReadEncodedValue(w, m, NO_BASES, ConstKind(op), off) == Got(v % TWO64, off + |ConstBytes(w, op, v)|)
  {
    hide ReadEncodedValue;
    hide EncodeUleb;
    hide EncodeSleb;
    hide ToLE;
    hide Holds;
    hide ReadFormat;
    hide ReadSigned;
    hide ReadFixed;
    if op == 0x10 {
      UlebOperand(w, m, off, v);
      SmallMod(v, TWO64);
    } else if op == 0x11 {
      SlebOperand(w, m, off, v);
    } else {
      ConstShape(w, op);
      PlainEncoding(w, m, ConstKind(op), off);
      ConstFormat(w, m, off, op);
      if SignedConst(op) {
        SignedOperand(m, off, ConstSize(w, op), v);
      } else {
        UnsignedOperand(m, off, ConstSize(w, op), v);
      }
    }
  }

  // --------------------------------------------------- one operation at a time

  lemma HoldsOne(m: Memory, off: nat, b: Byte, rest: seq<Byte>)
    requires Holds(m, off, [b] + rest)
    ensures off in m && m[off] == b && Holds(m, off + 1, rest)
  {
    HoldsAppend(m, off, [b], rest);
  }

  /** An operation with one plain operand, up to its handler. */
  lemma DecodeOneOperand(c: Context, op: Byte, kind: Byte, off: nat, s: seq<nat>, isReg: bool)
    requires off in c.code && c.code[off] == op
    requires ShapeOf(op).Some? && ShapeOf(op).value.kinds == [kind] && |s| >= ShapeOf(op).value.depth && kind < 15
    requires ReadEncodedValue(c.w, c.code, NO_BASES, kind, off + 1).Got?
    ensures var r := ReadEncodedValue(c.w, c.code, NO_BASES, kind, off + 1);
      DecodeOp(c, off, s, isReg) == Handle(c, op, [Wrap(c.w, r.value)], s, r.next, isReg)
  {
    OneOperand(c.w, c.code, kind, off + 1);
  }

  lemma ConstHandle(c: Context, op: Byte, x: nat, s: seq<nat>, off: nat, isReg: bool)
    requires (0x08 <= op <= 0x11 || op == 0x03) && ShapeOf(op) == Some(Shape(0, [ConstKind(op)]))
    ensures Handle(c, op, [x], s, off, isReg) == Next(off, [x] + s, isReg)
  {
  }

  lemma ConstStep(c: Context, op: Byte, v: int, off: nat, s: seq<nat>, isReg: bool)
    requires ConstFits(c.w, op, v) && Holds(c.code, off, [op] + ConstBytes(c.w, op, v))
    ensures DecodeOp(c, off, s, isReg) == Next(off + 1 + |ConstBytes(c.w, op, v)|, [Wrap(c.w, v)] + s, isReg)
  {
    hide DecodeOp;
    hide Handle;
    hide ReadEncodedValue;
    hide Wrap;
    HoldsOne(c.code, off, op, ConstBytes(c.w, op, v));
    hide Holds;
    hide ConstBytes;
    ConstShape(c.w, op);
    ConstHandle(c, op, Wrap(c.w, v % TWO64), s, off + 1 + |ConstBytes(c.w, op, v)|, isReg);
    ConstOperand(c.w, c.code, off + 1, op, v);
    DecodeOneOperand(c, op, ConstKind(op), off, s, isReg);
    Reduce(c.w, v);
  }

  /** A signed offset survives the cut to 64 bits and then to the word. */
  lemma OffsetWraps(w: Width, a: nat, v: int)
    ensures Wrap(w, a + Wrap(w, v % TWO64)) == Wrap(w, a + v)
  {
    Reduce(w, v);
    WrapAdd(w, a, v);
  }

  /** A register with an operand slot that holds x. */
  function BregEffect(c: Context, r: nat, x: nat, off: nat, s: seq<nat>, isReg: bool): Effect {
    if r < |c.regs| then Next(off, [Wrap(c.w, c.regs[r] + x)] + s, isReg) else Stuck(IllegalValue)
  }

  lemma BregEffectOf(c: Context, r: nat, v: int, off: nat, s: seq<nat>, isReg: bool)
    ensures BregEffect(c, r, Wrap(c.w, v % TWO64), off, s, isReg) == Replaced(off, RegisterMeaning(c, r, v), s, isReg)
    ensures BregEffect(c, r, Wrap(c.w, v), off, s, isReg) == Replaced(off, RegisterMeaning(c, r, v), s, isReg)
  {
    if r < |c.regs| {
      OffsetWraps(c.w, c.regs[r], v);
      WrapAdd(c.w, c.regs[r], v);
    }
  }

  lemma BregHandles(c: Context, r: nat, x: nat, off: nat, s: seq<nat>, isReg: bool)
    requires r < 32
    ensures ShapeOf(0x70 + r) == Some(Shape(0, [SLEB128])) && Handle(c, 0x70 + r, [x], s, off, isReg) == BregEffect(c, r, x, off, s, isReg)
  {
  }

  lemma BregStep(c: Context, r: nat, v: int, off: nat, s: seq<nat>, isReg: bool)
    requires r < 32 && SlebReadable(v) && Holds(c.code, off, [0x70 + r] + EncodeSleb(v))
    ensures DecodeOp(c, off, s, isReg) == Replaced(off + 1 + |EncodeSleb(v)|, RegisterMeaning(c, r, v), s, isReg)
  {
    hide DecodeOp;
    hide Handle;
    hide EncodeSleb;
    hide Wrap;
    hide ReadEncodedValue;
    HoldsOne(c.code, off, 0x70 + r, EncodeSleb(v));
    SlebOperand(c.w, c.code, off + 1, v);
    BregHandles(c, r, Wrap(c.w, v % TWO64), off + 1 + |EncodeSleb(v)|, s, isReg);
    DecodeOneOperand(c, 0x70 + r, SLEB128, off, s, isReg);
    BregEffectOf(c, r, v, off + 1 + |EncodeSleb(v)|, s, isReg);
  }

  lemma BregxHandles(c: Context, xs: seq<nat>, s: seq<nat>, off: nat, isReg: bool)
    requires |xs| == 2
    ensures ShapeOf(0x92) == Some(Shape(0, [ULEB128, SLEB128])) && Handle(c, 0x92, xs, s, off, isReg) == BregEffect(c, xs[0], xs[1], off, s, isReg)
  {
  }

  lemma BregxStep(c: Context, r: nat, v: int, off: nat, s: seq<nat>, isReg: bool)
    requires r < TWO32 && SlebReadable(v) && Holds(c.code, off, [0x92] + (EncodeUleb(r) + EncodeSleb(v)))
    ensures DecodeOp(c, off, s, isReg) == Replaced(off + 1 + |EncodeUleb(r)| + |EncodeSleb(v)|, RegisterMeaning(c, r, v), s, isReg)
  {
    hide Handle;
    hide EncodeSleb;
    hide EncodeUleb;
    hide Wrap;
    hide ReadOperands;
    var args := [U(r), S(v)];
    HoldsOne(c.code, off, 0x92, EncodeUleb(r) + EncodeSleb(v));
    assert args[1..] == [S(v)] && [S(v)][1..] == [];
    assert ArgsBytes(c.w, [S(v)]) == EncodeSleb(v) + [] == EncodeSleb(v);
    assert ArgsBytes(c.w, args) == EncodeUleb(r) + EncodeSleb(v);
    ArgsRead(c.w, c.code, args, off + 1);
    KindsTwo(U(r), S(v));
    ValuesTwo(c.w, U(r), S(v));
    WrapSmall(c.w, r);
    var next := off + 1 + |EncodeUleb(r)| + |EncodeSleb(v)|;
    BregxHandles(c, Values(c.w, args), s, next, isReg);
    BregEffectOf(c, r, v, next, s, isReg);
  }

  lemma PlusConstHandles(c: Context, k: nat, off: nat, x: nat, s: seq<nat>, isReg: bool)
    ensures ShapeOf(0x23) == Some(Shape(1, [ULEB128]))
    ensures Handle(c, 0x23, [k], [x] + s, off, isReg) == Next(off, [Wrap(c.w, x + k)] + s, isReg)
  {
    assert ([x] + s)[1..] == s;
  }

  lemma PlusConstDecodes(c: Context, k: nat, off: nat, x: nat, s: seq<nat>, isReg: bool)
    requires k < TWO64 && Holds(c.code, off, [0x23] + EncodeUleb(k))
    ensures DecodeOp(c, off, [x] + s, isReg)
         == Next(off + 1 + |EncodeUleb(k)|, [Wrap(c.w, x + Wrap(c.w, k))] + s, isReg)
  {
    hide DecodeOp;
    hide Handle;
    hide EncodeUleb;
    hide ReadEncodedValue;
    hide Wrap;
    HoldsOne(c.code, off, 0x23, EncodeUleb(k));
    UlebOperand(c.w, c.code, off + 1, k);
    PlusConstHandles(c, Wrap(c.w, k), off + 1 + |EncodeUleb(k)|, x, s, isReg);
    DecodeOneOperand(c, 0x23, ULEB128, off, [x] + s, isReg);
  }

  lemma DerefSizeHandles(c: Context, size: nat, off: nat, x: nat, s: seq<nat>, isReg: bool)
    ensures ShapeOf(0x94) == Some(Shape(1, [UDATA1]))
    ensures Handle(c, 0x94, [size], [x] + s, off, isReg) == Replaced(off, SizedMeaning(c, size, x), s, isReg)
  {
    assert ([x] + s)[1..] == s;
  }

  lemma DerefSizeStep(c: Context, size: nat, off: nat, x: nat, s: seq<nat>, isReg: bool)
    requires size < 256 && Holds(c.code, off, [0x94, size])
    ensures DecodeOp(c, off, [x] + s, isReg) == Replaced(off + 2, SizedMeaning(c, size, x), s, isReg)
  {
    hide DecodeOp;
    hide Handle;
    hide ReadEncodedValue;
    hide Wrap;
    assert [0x94, size] == [0x94] + [size];
    HoldsOne(c.code, off, 0x94, [size]);
    var arg := Num(UDATA1, size);
    assert ArgBytes(c.w, arg) == [size] by {
      SmallMod(size, 256);
      assert Pow256(1) == 256 && ToLE(size, 1) == [size] + ToLE(size / 256, 0);
    }
    NumRead(c.w, c.code, arg, off + 1);
    WrapSmall(W64, size);
    WrapSmall(c.w, size);
    DerefSizeHandles(c, size, off + 2, x, s, isReg);
    DecodeOneOperand(c, 0x94, UDATA1, off, [x] + s, isReg);
  }

  lemma UnaryStep(c: Context, u: UnaryOp, off: nat, x: nat, s: seq<nat>, isReg: bool)
    requires Holds(c.code, off, [UnaryCode(u)])
    ensures DecodeOp(c, off, [x] + s, isReg) == Replaced(off + 1, UnaryMeaning(c, u, x), s, isReg)
  {
    hide Wrap;
    hide Signed;
    hide LittleEndian;
    assert c.code[off] == [UnaryCode(u)][0];
    assert ([x] + s)[1..] == s;
  }

  lemma BinaryShape(b: BinaryOp)
    ensures ShapeOf(BinaryCode(b)) == Some(Shape(2, [])) && IsBinary(BinaryCode(b))
  {
  }

  lemma BinaryCombine(w: Width, b: BinaryOp, x: nat, y: nat)
    ensures Combine(w, BinaryCode(b), y, x) == BinaryMeaning(w, b, x, y)
  {
  }

  /** Each operator combines the two topmost values in tree order and keeps the rest. */
  lemma BinaryStep(c: Context, b: BinaryOp, off: nat, x: nat, y: nat, s: seq<nat>, isReg: bool)
    requires Holds(c.code, off, [BinaryCode(b)])
    ensures DecodeOp(c, off, [y] + ([x] + s), isReg) == Replaced(off + 1, BinaryMeaning(c.w, b, x, y), s, isReg)
  {
    hide Handle;
    hide Combine;
    hide BinaryMeaning;
    assert c.code[off] == [BinaryCode(b)][0];
    var stack := [y] + ([x] + s);
    assert stack[0] == y && stack[1] == x && stack[2..] == s;
    BinaryShape(b);
    BinaryCombine(c.w, b, x, y);
    BinaryOperation(c, BinaryCode(b), [], stack, off + 1, isReg);
  }

  // ---------------------------------------------------------- whole programs

  predicate IsLeaf(e: Expr) { e.Lit? || e.Const? || e.Breg? || e.Bregx? }

  lemma LitStep(c: Context, n: nat, off: nat, s: seq<nat>, isReg: bool)
    requires n < 32 && Holds(c.code, off, [0x30 + n])
    ensures DecodeOp(c, off, s, isReg) == Next(off + 1, [n] + s, isReg)
  {
    assert c.code[off] == [0x30 + n][0];
  }

  /** What one operation must do for the code of a leaf to be right. */
  lemma LeafStep(c: Context, e: Expr, off: nat, s: seq<nat>, isReg: bool)
    requires IsLeaf(e) && Encodable(c.w, e) && Holds(c.code, off, Code(c.w, e))
    ensures DecodeOp(c, off, s, isReg) == Replaced(off + |Code(c.w, e)|, Meaning(c, e), s, isReg)
  {
    hide DecodeOp;
    hide EncodeSleb;
    hide EncodeUleb;
    hide Wrap;
    match e
    case Lit(n) =>
      LitStep(c, n, off, s, isReg);
    case Const(op, v) =>
      ConstStep(c, op, v, off, s, isReg);
    case Breg(r, v) =>
      BregStep(c, r, v, off, s, isReg);
    case Bregx(r, v) =>
      BregxStep(c, r, v, off, s, isReg);
  }

  /** One turn of the evaluation loop, when the operation's effect is known. */
  lemma LoopTurn(c: Context, end: nat, off: nat, s: seq<nat>, isReg: bool, n: nat, d: Effect)
    requires n < MAX_DECODES && off < end && DecodeOp(c, off, s, isReg) == d
    ensures Loop(c, end, off, s, isReg, n)
         == match d
            case Stuck(e) => Failed(e)
            case Next(off', s', isReg') =>
              if n + 1 == MAX_DECODES then Failed(TooManyIterations) else Loop(c, end, off', s', isReg', n + 1)
  {
  }

  /** Running code from any stack s: the evaluation goes on behind it with the value on
      top of s', or fails with the value's fault. Past the limit it fails anyhow. */
  ghost predicate Leaves(c: Context, end: nat, off: nat, s: seq<nat>, isReg: bool, n: nat,
                         value: Computed, s': seq<nat>, len: nat, ops: nat)
    requires n < MAX_DECODES
  {
    var r := Loop(c, end, off, s, isReg, n);
    if n + ops >= MAX_DECODES then r.Failed?
    else if value.Fault? then r == Failed(value.error)
    else r == Loop(c, end, off + len, [value.v] + s', isReg, n + ops)
  }

  /** The code of a tree pushes its value. */
  ghost predicate Pushes(c: Context, end: nat, off: nat, s: seq<nat>, isReg: bool, n: nat,
                         value: Computed, len: nat, ops: nat)
    requires n < MAX_DECODES
  {
    Leaves(c, end, off, s, isReg, n, value, s, len, ops)
  }

  /** One operation that turns the stack s into [v] + s'. */
  lemma OnePushes(c: Context, end: nat, off: nat, s: seq<nat>, isReg: bool, n: nat, v: Computed, s': seq<nat>, len: nat)
    requires n < MAX_DECODES && off < end && DecodeOp(c, off, s, isReg) == Replaced(off + len, v, s', isReg)
    ensures Leaves(c, end, off, s, isReg, n, v, s', len, 1)
  {
    hide DecodeOp;
    LoopTurn(c, end, off, s, isReg, n, DecodeOp(c, off, s, isReg));
  }

  /** A tree's code followed by one operation on its value. */
  lemma ThenOne(c: Context, end: nat, off: nat, s: seq<nat>, isReg: bool, n: nat,
                x: nat, len: nat, ops: nat, v: Computed, s': seq<nat>, last: nat)
    requires n + ops < MAX_DECODES && off + len < end
    requires Pushes(c, end, off, s, isReg, n, Value(x), len, ops)
    requires DecodeOp(c, off + len, [x] + s, isReg) == Replaced(off + len + last, v, s', isReg)
    ensures Leaves(c, end, off, s, isReg, n, v, s', len + last, ops + 1)
  {
    hide DecodeOp;
    hide Loop;
    OnePushes(c, end, off + len, [x] + s, isReg, n + ops, v, s', last);
  }

  /** A failing start fails the whole, whatever was to follow. */
  lemma FailsAlready(c: Context, end: nat, off: nat, s: seq<nat>, isReg: bool, n: nat,
                     v: Computed, s1: seq<nat>, len: nat, ops: nat, v2: Computed, s2: seq<nat>, len2: nat, ops2: nat)
    requires n < MAX_DECODES && ops <= ops2 && Leaves(c, end, off, s, isReg, n, v, s1, len, ops)
    requires n + ops >= MAX_DECODES || (v.Fault? && v2 == v)
    ensures Leaves(c, end, off, s, isReg, n, v2, s2, len2, ops2)
  {
    hide Loop;
  }

  /** A tree's code, and then code that works on its value. */
  lemma Chained(c: Context, end: nat, off: nat, s: seq<nat>, isReg: bool, n: nat,
                x: nat, len: nat, ops: nat, v: Computed, s': seq<nat>, len2: nat, ops2: nat)
    requires n + ops < MAX_DECODES && Pushes(c, end, off, s, isReg, n, Value(x), len, ops)
    requires Leaves(c, end, off + len, [x] + s, isReg, n + ops, v, s', len2, ops2)
    ensures Leaves(c, end, off, s, isReg, n, v, s', len + len2, ops + ops2)
  {
    hide Loop;
  }

  lemma {:induction false} CodePushes(c: Context, e: Expr, end: nat, off: nat, s: seq<nat>, isReg: bool, n: nat)
    requires n < MAX_DECODES && Encodable(c.w, e) && Holds(c.code, off, Code(c.w, e))
    requires off + |Code(c.w, e)| <= end
    ensures Pushes(c, end, off, s, isReg, n, Meaning(c, e), |Code(c.w, e)|, Ops(e))
    decreases e, 2
  {
    hide DecodeOp;
    hide Loop;
    match e
    case PlusConst(_, _) => PlusConstPushes(c, e, end, off, s, isReg, n);
    case DerefSize(_, _) => DerefSizePushes(c, e, end, off, s, isReg, n);
    case Unary(_, _) => UnaryPushes(c, e, end, off, s, isReg, n);
    case Binary(_, _, _) => BinaryPushes(c, e, end, off, s, isReg, n);
    case _ =>
      LeafStep(c, e, off, s, isReg);
      OnePushes(c, end, off, s, isReg, n, Meaning(c, e), s, |Code(c.w, e)|);
  }

  lemma PlusConstParts(c: Context, e: Expr)
    requires e.PlusConst? && Encodable(c.w, e)
    ensures Encodable(c.w, e.arg) && e.k < TWO64 && Code(c.w, e) == Code(c.w, e.arg) + ([0x23] + EncodeUleb(e.k)) && Ops(e) == Ops(e.arg) + 1
    ensures var x := Meaning(c, e.arg);
      Meaning(c, e) == if x.Fault? then x else Value(Wrap(c.w, x.v + e.k))
  {
    hide Wrap;
    hide EncodeUleb;
  }

  lemma {:induction false} PlusConstPushes(c: Context, e: Expr, end: nat, off: nat, s: seq<nat>, isReg: bool, n: nat)
    requires e.PlusConst? && n < MAX_DECODES && Encodable(c.w, e) && Holds(c.code, off, Code(c.w, e))
    requires off + |Code(c.w, e)| <= end
    ensures Pushes(c, end, off, s, isReg, n, Meaning(c, e), |Code(c.w, e)|, Ops(e))
    decreases e, 0
  {
    hide DecodeOp;
    hide Leaves;
    hide Holds;
    hide Wrap;
    hide EncodeUleb;
    hide Code;
    hide Meaning;
    hide Ops;
    hide Encodable;
    PlusConstParts(c, e);
    var len, tail := |Code(c.w, e.arg)|, [0x23] + EncodeUleb(e.k);
    HoldsAppend(c.code, off, Code(c.w, e.arg), tail);
    CodePushes(c, e.arg, end, off, s, isReg, n);
    if Meaning(c, e.arg).Value? && n + Ops(e.arg) < MAX_DECODES {
      var x := Meaning(c, e.arg).v;
      PlusConstDecodes(c, e.k, off + len, x, s, isReg);
      WrapAdd(c.w, x, e.k);
      ThenOne(c, end, off, s, isReg, n, x, len, Ops(e.arg), Value(Wrap(c.w, x + e.k)), s, |tail|);
    } else {
      FailsAlready(c, end, off, s, isReg, n, Meaning(c, e.arg), s, len, Ops(e.arg), Meaning(c, e), s, |Code(c.w, e)|, Ops(e));
    }
  }

  lemma {:induction false} DerefSizePushes(c: Context, e: Expr, end: nat, off: nat, s: seq<nat>, isReg: bool, n: nat)
    requires e.DerefSize? && n < MAX_DECODES && Encodable(c.w, e) && Holds(c.code, off, Code(c.w, e))
    requires off + |Code(c.w, e)| <= end
    ensures Pushes(c, end, off, s, isReg, n, Meaning(c, e), |Code(c.w, e)|, Ops(e))
    decreases e, 0
  {
    hide DecodeOp;
    hide Leaves;
    hide Holds;
    hide Wrap;
    var len := |Code(c.w, e.arg)|;
    HoldsAppend(c.code, off, Code(c.w, e.arg), [0x94, e.size]);
    CodePushes(c, e.arg, end, off, s, isReg, n);
    if Meaning(c, e.arg).Value? && n + Ops(e.arg) < MAX_DECODES {
      var x := Meaning(c, e.arg).v;
      DerefSizeStep(c, e.size, off + len, x, s, isReg);
      ThenOne(c, end, off, s, isReg, n, x, len, Ops(e.arg), SizedMeaning(c, e.size, x), s, 2);
    } else {
      FailsAlready(c, end, off, s, isReg, n, Meaning(c, e.arg), s, len, Ops(e.arg), Meaning(c, e), s, |Code(c.w, e)|, Ops(e));
    }
  }

  lemma {:induction false} UnaryPushes(c: Context, e: Expr, end: nat, off: nat, s: seq<nat>, isReg: bool, n: nat)
    requires e.Unary? && n < MAX_DECODES && Encodable(c.w, e) && Holds(c.code, off, Code(c.w, e))
    requires off + |Code(c.w, e)| <= end
    ensures Pushes(c, end, off, s, isReg, n, Meaning(c, e), |Code(c.w, e)|, Ops(e))
    decreases e, 0
  {
    hide DecodeOp;
    hide Leaves;
    hide Holds;
    hide Wrap;
    var len := |Code(c.w, e.arg)|;
    HoldsAppend(c.code, off, Code(c.w, e.arg), [UnaryCode(e.u)]);
    CodePushes(c, e.arg, end, off, s, isReg, n);
    if Meaning(c, e.arg).Value? && n + Ops(e.arg) < MAX_DECODES {
      var x := Meaning(c, e.arg).v;
      UnaryStep(c, e.u, off + len, x, s, isReg);
      ThenOne(c, end, off, s, isReg, n, x, len, Ops(e.arg), UnaryMeaning(c, e.u, x), s, 1);
    } else {
      FailsAlready(c, end, off, s, isReg, n, Meaning(c, e.arg), s, len, Ops(e.arg), Meaning(c, e), s, |Code(c.w, e)|, Ops(e));
    }
  }

  lemma BinaryParts(c: Context, e: Expr)
    requires e.Binary? && Encodable(c.w, e)
    ensures Encodable(c.w, e.left) && Encodable(c.w, e.right) && Ops(e) == Ops(e.left) + Ops(e.right) + 1
    ensures Code(c.w, e) == Code(c.w, e.left) + (Code(c.w, e.right) + [BinaryCode(e.b)])
    ensures Meaning(c, e.left).Fault? ==> Meaning(c, e) == Meaning(c, e.left)
  {
    hide BinaryMeaning;
    hide BinaryCode;
  }

  lemma {:induction false} BinaryPushes(c: Context, e: Expr, end: nat, off: nat, s: seq<nat>, isReg: bool, n: nat)
    requires e.Binary? && n < MAX_DECODES && Encodable(c.w, e) && Holds(c.code, off, Code(c.w, e))
    requires off + |Code(c.w, e)| <= end
    ensures Pushes(c, end, off, s, isReg, n, Meaning(c, e), |Code(c.w, e)|, Ops(e))
    decreases e, 1
  {
    hide DecodeOp;
    hide Leaves;
    hide Holds;
    hide Code;
    hide Meaning;
    hide Ops;
    hide Encodable;
    hide BinaryCode;
    BinaryParts(c, e);
    var left, right, op := Code(c.w, e.left), Code(c.w, e.right), [BinaryCode(e.b)];
    var all, len := Meaning(c, e), |Code(c.w, e)|;
    HoldsAppend(c.code, off, left, right + op);
    HoldsAppend(c.code, off + |left|, right, op);
    CodePushes(c, e.left, end, off, s, isReg, n);
    var off1, n1 := off + |left|, n + Ops(e.left);
    if Meaning(c, e.left).Fault? || n1 >= MAX_DECODES {
      FailsAlready(c, end, off, s, isReg, n, Meaning(c, e.left), s, |left|, Ops(e.left), all, s, len, Ops(e));
    } else {
      var x := Meaning(c, e.left).v;
      RightPushes(c, e, end, off1, s, isReg, n1, x);
      Chained(c, end, off, s, isReg, n, x, |left|, Ops(e.left), all, s, |right| + 1, Ops(e.right) + 1);
    }
  }

  /** The right operand and the operator, above the value of the left one. */
  lemma {:induction false} RightPushes(c: Context, e: Expr, end: nat, off: nat, s: seq<nat>, isReg: bool, n: nat, x: nat)
    requires e.Binary? && n < MAX_DECODES && Encodable(c.w, e) && Meaning(c, e.left) == Value(x)
    requires Holds(c.code, off, Code(c.w, e.right)) && Holds(c.code, off + |Code(c.w, e.right)|, [BinaryCode(e.b)])
    requires off + |Code(c.w, e.right)| + 1 <= end
    ensures Leaves(c, end, off, [x] + s, isReg, n, Meaning(c, e), s, |Code(c.w, e.right)| + 1, Ops(e.right) + 1)
    decreases e, 0
  {
    hide DecodeOp;
    hide Leaves;
    hide Holds;
    hide Wrap;
    hide BinaryMeaning;
    var len, ops, right := |Code(c.w, e.right)|, Ops(e.right), Meaning(c, e.right);
    CodePushes(c, e.right, end, off, [x] + s, isReg, n);
    if right.Fault? || n + ops >= MAX_DECODES {
      FailsAlready(c, end, off, [x] + s, isReg, n, right, [x] + s, len, ops, Meaning(c, e), s, len + 1, ops + 1);
    } else {
      BinaryStep(c, e.b, off + len, x, right.v, s, isReg);
      ThenOne(c, end, off, [x] + s, isReg, n, right.v, len, ops, BinaryMeaning(c.w, e.b, x, right.v), s, 1);
    }
  }

  /** Compilation preserves meaning: evaluating the code of a tree of at most 1000
      operations leaves exactly its value on the stack, or fails with its fault; code of
      a larger tree never succeeds. */
  lemma PostfixCompilation(c: Context, e: Expr, start: nat)
    requires Encodable(c.w, e) && Holds(c.code, start, Code(c.w, e))
    ensures var r := Evaluate(c, start, start + |Code(c.w, e)|);
      match Meaning(c, e)
      case Value(v) => if Ops(e) <= 1000 then r == Done([v], false) else r.Failed?
      case Fault(error) => if Ops(e) <= 1000 then r == Failed(error) else r.Failed?
  {
    hide DecodeOp;
    hide Code;
    hide Meaning;
    hide Ops;
    var end := start + |Code(c.w, e)|;
    CodePushes(c, e, end, start, [], false, 0);
    if Meaning(c, e).Value? && Ops(e) <= 1000 {
      assert [Meaning(c, e).v] + [] == [Meaning(c, e).v];
    }
  }
}
