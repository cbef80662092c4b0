/** What each operation of the stack machine does, said of the bytes it reads and the
    positions of the stack, not of its handler. */
module DwarfOpLaws {
  import opened Machine
  import opened DwarfMemory
  import opened DwarfOp
  import opened Operands
  import opened DwarfPostfix

  /** Memory holds the value as a little-endian number of n bytes. */
  predicate Stored(m: Memory, a: nat, v: nat, n: nat) { v < Pow256(n) && Holds(m, a, ToLE(v, n)) }

  lemma StoredReads(m: Memory, a: nat, v: nat, n: nat)
    requires Stored(m, a, v, n)
    ensures ReadLE(m, a, n) == Some(v)
  {
    HoldsFetch(m, a, ToLE(v, n));
    ToLERoundTrip(v, n);
  }

  lemma MissingByteFails(m: Memory, a: nat, n: nat, i: nat)
    requires i < n && a + i !in m
    ensures ReadLE(m, a, n) == None
  {
  }

  // --------------------------------------------------------------- decoding

  /** An operation without operands, up to its handler. */
  lemma DecodesAlone(c: Context, op: Byte, off: nat, s: seq<nat>, isReg: bool)
    requires Holds(c.code, off, [op]) && ShapeOf(op).Some? && ShapeOf(op).value.kinds == []
    ensures DecodeOp(c, off, s, isReg)
         == if |s| < ShapeOf(op).value.depth then Stuck(StackIndexNotValid) else Handle(c, op, [], s, off + 1, isReg)
  {
    hide Handle;
    hide ShapeOf;
    assert c.code[off] == [op][0];
    NoOperands(c.w, c.code, off + 1);
  }

  /** An operation with one operand of fixed size. */
  lemma DecodesWith(c: Context, op: Byte, arg: Arg, off: nat, s: seq<nat>, isReg: bool)
    requires ArgFits(c.w, arg) && arg.Num? && Holds(c.code, off, [op] + ArgBytes(c.w, arg))
    requires ShapeOf(op).Some? && ShapeOf(op).value.kinds == [arg.kind]
    ensures DecodeOp(c, off, s, isReg)
         == if |s| < ShapeOf(op).value.depth then Stuck(StackIndexNotValid)
            else Handle(c, op, [SlotOf(c.w, arg)], s, off + 1 + |ArgBytes(c.w, arg)|, isReg)
  {
    hide Handle;
    hide ShapeOf;
    hide ArgBytes;
    hide ArgFits;
    hide ReadOperands;
    HoldsOne(c.code, off, op, ArgBytes(c.w, arg));
    var args := [arg];
    assert args[1..] == [] && ArgsBytes(c.w, []) == [];
    assert ArgsBytes(c.w, args) == ArgBytes(c.w, arg) + [] == ArgBytes(c.w, arg);
    ArgsRead(c.w, c.code, args, off + 1);
    KindsOne(arg);
    ValuesOne(c.w, arg);
  }

  // ------------------------------------------------------------- dereferences

  /** DW_OP_deref replaces an address by the word stored there; one unreadable byte of
      it is an error. */
  lemma DerefLoads(c: Context, off: nat, a: nat, s: seq<nat>, isReg: bool, v: nat, i: nat)
    requires Holds(c.code, off, [0x06])
    ensures Stored(c.mem, a, v, c.w.Size()) ==> DecodeOp(c, off, [a] + s, isReg) == Next(off + 1, [v] + s, isReg)
    ensures i < c.w.Size() && a + i !in c.mem ==> DecodeOp(c, off, [a] + s, isReg) == Stuck(MemoryInvalid)
    ensures DecodeOp(c, off, [], isReg) == Stuck(StackIndexNotValid)
  {
    hide Stored;
    hide ReadLE;
    DecodesAlone(c, 0x06, off, [a] + s, isReg);
    DecodesAlone(c, 0x06, off, [], isReg);
    assert ([a] + s)[1..] == s;
    if Stored(c.mem, a, v, c.w.Size()) {
      StoredReads(c.mem, a, v, c.w.Size());
    }
    if i < c.w.Size() && a + i !in c.mem {
      MissingByteFails(c.mem, a, c.w.Size(), i);
    }
  }

  lemma ByteArg(w: Width, n: nat)
    requires n < 256
    ensures var arg := Num(UDATA1, n);
      ArgFits(w, arg) && ArgBytes(w, arg) == [n] && SlotOf(w, arg) == n
  {
    SmallMod(n, 256);
    assert Pow256(1) == 256 && ToLE(n, 1) == [n] + ToLE(n / 256, 0);
    WrapSmall(w, n);
  }

  /** DW_OP_deref_size loads that many bytes, from one to the size of a word. */
  lemma DerefSizeLoads(c: Context, off: nat, n: nat, a: nat, s: seq<nat>, isReg: bool, v: nat)
    requires n < 256 && Holds(c.code, off, [0x94, n])
    ensures 1 <= n <= c.w.Size() && Stored(c.mem, a, v, n) ==> DecodeOp(c, off, [a] + s, isReg) == Next(off + 2, [v] + s, isReg)
    ensures n == 0 || n > c.w.Size() ==> DecodeOp(c, off, [a] + s, isReg) == Stuck(IllegalValue)
  {
    hide Stored;
    hide ReadLE;
    var arg := Num(UDATA1, n);
    ByteArg(c.w, n);
    hide ArgBytes;
    hide SlotOf;
    assert [0x94, n] == [0x94] + [n];
    DecodesWith(c, 0x94, arg, off, [a] + s, isReg);
    assert ([a] + s)[1..] == s;
    if Stored(c.mem, a, v, n) {
      StoredReads(c.mem, a, v, n);
    }
  }

  // ----------------------------------------------------------------- shuffles

  /** dup, drop, over, swap and rot on the positions of the stack. */
  lemma DupLaw(c: Context, off: nat, x: nat, s: seq<nat>, isReg: bool)
    requires Holds(c.code, off, [0x12])
    ensures DecodeOp(c, off, [x] + s, isReg) == Next(off + 1, [x, x] + s, isReg)
    ensures DecodeOp(c, off, [], isReg) == Stuck(StackIndexNotValid)
  {
    DecodesAlone(c, 0x12, off, [x] + s, isReg);
    DecodesAlone(c, 0x12, off, [], isReg);
    assert [x] + ([x] + s) == [x, x] + s;
  }

  lemma DropLaw(c: Context, off: nat, x: nat, s: seq<nat>, isReg: bool)
    requires Holds(c.code, off, [0x13])
    ensures DecodeOp(c, off, [x] + s, isReg) == Next(off + 1, s, isReg)
    ensures DecodeOp(c, off, [], isReg) == Stuck(StackIndexNotValid)
  {
    DecodesAlone(c, 0x13, off, [x] + s, isReg);
    DecodesAlone(c, 0x13, off, [], isReg);
    assert ([x] + s)[1..] == s;
  }

  lemma OverLaw(c: Context, off: nat, x: nat, y: nat, s: seq<nat>, isReg: bool)
    requires Holds(c.code, off, [0x14])
    ensures DecodeOp(c, off, [x, y] + s, isReg) == Next(off + 1, [y, x, y] + s, isReg)
    ensures DecodeOp(c, off, [x], isReg) == Stuck(StackIndexNotValid)
  {
    DecodesAlone(c, 0x14, off, [x, y] + s, isReg);
    DecodesAlone(c, 0x14, off, [x], isReg);
    assert [y] + ([x, y] + s) == [y, x, y] + s;
  }

  lemma SwapLaw(c: Context, off: nat, x: nat, y: nat, s: seq<nat>, isReg: bool)
    requires Holds(c.code, off, [0x16])
    ensures DecodeOp(c, off, [x, y] + s, isReg) == Next(off + 1, [y, x] + s, isReg)
    ensures DecodeOp(c, off, [x], isReg) == Stuck(StackIndexNotValid)
  {
    DecodesAlone(c, 0x16, off, [x, y] + s, isReg);
    DecodesAlone(c, 0x16, off, [x], isReg);
    assert ([x, y] + s)[2..] == s;
  }

  lemma RotLaw(c: Context, off: nat, x: nat, y: nat, z: nat, s: seq<nat>, isReg: bool)
    requires Holds(c.code, off, [0x17])
    ensures DecodeOp(c, off, [x, y, z] + s, isReg) == Next(off + 1, [y, z, x] + s, isReg)
    ensures DecodeOp(c, off, [x, y], isReg) == Stuck(StackIndexNotValid)
  {
    DecodesAlone(c, 0x17, off, [x, y, z] + s, isReg);
    DecodesAlone(c, 0x17, off, [x, y], isReg);
    assert ([x, y, z] + s)[3..] == s;
  }

  /** pick copies the element at an index; at the depth it is undefined, beyond it an
      error. */
  lemma PickLaw(c: Context, off: nat, i: nat, s: seq<nat>, isReg: bool)
    requires i < 256 && Holds(c.code, off, [0x15, i])
    ensures i < |s| ==> DecodeOp(c, off, s, isReg) == Next(off + 2, [s[i]] + s, isReg)
    ensures i == |s| ==> DecodeOp(c, off, s, isReg) == Stuck(UndefinedOperation)
    ensures i > |s| ==> DecodeOp(c, off, s, isReg) == Stuck(StackIndexNotValid)
  {
    var arg := Num(UDATA1, i);
    ByteArg(c.w, i);
    hide ArgBytes;
    hide SlotOf;
    assert [0x15, i] == [0x15] + [i];
    DecodesWith(c, 0x15, arg, off, s, isReg);
  }

  // -------------------------------------------------------------------- jumps

  /** A signed two-byte displacement behind an opcode. */
  function Displacement(d: int): seq<Byte>
    requires -0x8000 <= d < 0x8000
  {
    ToLE(d % 0x1_0000, 2)
  }

  lemma JumpOperand(c: Context, op: Byte, d: int, off: nat, s: seq<nat>, isReg: bool)
    requires -0x8000 <= d < 0x8000 && Holds(c.code, off, [op] + Displacement(d))
    requires op == 0x28 || op == 0x2f
    ensures DecodeOp(c, off, s, isReg)
         == if op == 0x28 && s == [] then Stuck(StackIndexNotValid)
            else Handle(c, op, [Wrap(c.w, d % TWO64)], s, off + 3, isReg)
  {
    hide Handle;
    hide Wrap;
    HoldsOne(c.code, off, op, Displacement(d));
    assert Pow256(2) == 0x1_0000;
    SignedOperand(c.code, off + 1, 2, d);
    PlainEncoding(c.w, c.code, SDATA2, off + 1);
    hide ReadEncodedValue;
    hide ReadSigned;
    hide ToLE;
    hide Holds;
    OneOperand(c.w, c.code, SDATA2, off + 1);
    hide ReadOperands;
  }

  lemma BranchOf(w: Width, d: int)
    requires -0x8000 <= d < 0x8000
    ensures Branch(Wrap(w, d % TWO64)) == d
  {
    Reduce(w, d);
    match w
    case W32 =>
    case W64 =>
  }

  /** skip goes on at the displacement from behind itself, forwards or backwards. */
  lemma SkipLaw(c: Context, off: nat, d: int, s: seq<nat>, isReg: bool)
    requires -0x8000 <= d < 0x8000 && Holds(c.code, off, [0x2f] + Displacement(d))
    ensures DecodeOp(c, off, s, isReg) == Next((off + 3 + d) % TWO64, s, isReg)
  {
    hide Wrap;
    hide Branch;
    hide Holds;
    hide DecodeOp;
    hide Displacement;
    JumpOperand(c, 0x2f, d, off, s, isReg);
    BranchOf(c.w, d);
  }

  /** bra pops a value and goes on at the displacement, or, on zero, at its opposite. */
  lemma BraLaw(c: Context, off: nat, d: int, x: nat, s: seq<nat>, isReg: bool)
    requires -0x8000 <= d < 0x8000 && Holds(c.code, off, [0x28] + Displacement(d))
    ensures DecodeOp(c, off, [x] + s, isReg) == Next((if x != 0 then off + 3 + d else off + 3 - d) % TWO64, s, isReg)
    ensures DecodeOp(c, off, [], isReg) == Stuck(StackIndexNotValid)
  {
    hide Wrap;
    hide Branch;
    hide Holds;
    hide DecodeOp;
    hide Displacement;
    JumpOperand(c, 0x28, d, off, [x] + s, isReg);
    JumpOperand(c, 0x28, d, off, [], isReg);
    BranchOf(c.w, d);
    assert ([x] + s)[1..] == s;
  }

  // ---------------------------------------------------------------- registers

  /** A register name pushes its number and marks the result as a register. */
  lemma RegLaw(c: Context, off: nat, r: nat, s: seq<nat>, isReg: bool)
    requires r < 32 && Holds(c.code, off, [0x50 + r])
    ensures DecodeOp(c, off, s, isReg) == Next(off + 1, [r] + s, true)
  {
    DecodesAlone(c, 0x50 + r, off, s, isReg);
  }

  lemma RegxLaw(c: Context, off: nat, r: nat, s: seq<nat>, isReg: bool)
    requires r < TWO32 && Holds(c.code, off, [0x90] + EncodeUleb(r))
    ensures DecodeOp(c, off, s, isReg) == Next(off + 1 + |EncodeUleb(r)|, [r] + s, true)
  {
    hide Wrap;
    hide EncodeUleb;
    DecodesWith(c, 0x90, U(r), off, s, isReg);
    WrapSmall(c.w, r);
  }

  lemma NopLaw(c: Context, off: nat, s: seq<nat>, isReg: bool)
    requires Holds(c.code, off, [0x96])
    ensures DecodeOp(c, off, s, isReg) == Next(off + 1, s, isReg)
  {
    DecodesAlone(c, 0x96, off, s, isReg);
  }

  // --------------------------------------------------------------- complement

  /** The bits of 2^n - 1 - x are the opposite of those of x. */
  lemma {:induction false} ComplementBits(x: nat, n: nat, k: nat)
    requires x < Pow2(n)
    ensures BitAt(Pow2(n) - 1 - x, k) <==> k < n && !BitAt(x, k)
    decreases n
  {
    if n == 0 {
      ZeroHasNoBits(k);
    } else {
      var y := Pow2(n) - 1 - x;
      assert y / 2 == Pow2(n - 1) - 1 - x / 2 && (y % 2 == 1 <==> x % 2 == 0);
      if k > 0 {
        ComplementBits(x / 2, n - 1, k - 1);
      }
    }
  }

  lemma WordPow2(w: Width)
    ensures Pow2(w.Bits()) == w.Modulus()
  {
    assert Pow2(8) == 256 && Pow2(16) == 0x1_0000;
    assert Pow2(24) == 0x100_0000 && Pow2(32) == TWO32;
    if w.W64? {
      assert Pow2(40) == 0x100_0000_0000 && Pow2(48) == 0x1_0000_0000_0000;
      assert Pow2(56) == 0x100_0000_0000_0000 && Pow2(64) == TWO64;
    }
  }

  /** DW_OP_not: every bit of the word is inverted. */
  lemma NotLaw(w: Width, x: nat, k: nat)
    requires x < w.Modulus()
    ensures BitAt(Complement(w, x), k) <==> k < w.Bits() && !BitAt(x, k)
  {
    WordPow2(w);
    hide Pow2;
    assert Complement(w, x) == w.Modulus() - 1 - x by {
      match w
      case W32 =>
      case W64 =>
    }
    ComplementBits(x, w.Bits(), k);
  }

  // ------------------------------------------------------------ the dex pc

  /** DW_OP_const4u "DEX1", DW_OP_drop. */
  const DEX_PC_MARK: seq<Byte> := [0x0c] + ([0x44, 0x45, 0x58, 0x31] + [0x13])

  lemma FirstDigit(b: Byte, rest: nat)
    ensures (b + 256 * rest) % 256 == b && (b + 256 * rest) / 256 == rest
  {
  }

  lemma {:induction false} ImageOfNumber(bs: seq<Byte>)
    ensures ToLE(LittleEndian(bs), |bs|) == bs
  {
    if bs != [] {
      ImageOfNumber(bs[1..]);
      FirstDigit(bs[0], LittleEndian(bs[1..]));
    }
  }

  /** The four characters, as the number that the operand is compared with. */
  lemma DexCharacters(bs: seq<Byte>)
    requires |bs| == 4
    ensures LittleEndian(bs) == DEX1 <==> bs == [0x44, 0x45, 0x58, 0x31]
  {
    var chars: seq<Byte> := [0x44, 0x45, 0x58, 0x31];
    assert chars[1..] == [0x45, 0x58, 0x31] && chars[1..][1..] == [0x58, 0x31] && chars[1..][1..][1..] == [0x31];
    assert LittleEndian([0x31]) == 0x31 && LittleEndian([0x58, 0x31]) == 0x3158 && LittleEndian([0x45, 0x58, 0x31]) == 0x31_5845;
    assert LittleEndian(chars) == DEX1;
    ImageOfNumber(bs);
    ImageOfNumber(chars);
  }

  lemma FourBytes(c: Context, bs: seq<Byte>)
    requires |bs| == 4
    ensures var arg := Num(UDATA4, LittleEndian(bs));
      ArgFits(c.w, arg) && ArgBytes(c.w, arg) == bs && SlotOf(c.w, arg) == LittleEndian(bs)
  {
    LittleEndianBound(bs);
    ImageOfNumber(bs);
    hide LittleEndian;
    hide ToLE;
    assert Pow256(2) == 0x1_0000 && Pow256(4) == TWO32;
    SmallMod(LittleEndian(bs), TWO32);
    WrapSmall(c.w, LittleEndian(bs));
  }

  /** What DW_OP_const4u pushes. */
  lemma FourByteConstant(c: Context, off: nat)
    requires off in c.code && c.code[off] == 0x0c
    ensures DecodeOp(c, off, [], false)
         == if Readable(c.code, off + 1, 4) then Next(off + 5, [LittleEndian(Fetch(c.code, off + 1, 4))], false) else Stuck(MemoryInvalid)
  {
    hide LittleEndian;
    hide ReadOperands;
    if Readable(c.code, off + 1, 4) {
      hide DecodeOp;
      hide ArgBytes;
      hide SlotOf;
      hide ArgFits;
      var bs := Fetch(c.code, off + 1, 4);
      FourBytes(c, bs);
      HoldsAppend(c.code, off, [0x0c], bs);
      DecodesWith(c, 0x0c, Num(UDATA4, LittleEndian(bs)), off, [], false);
    } else {
      NotReadFour(c, off + 1);
    }
  }

  lemma NotReadFour(c: Context, off: nat)
    requires !Readable(c.code, off, 4)
    ensures ReadOperands(c.w, c.code, [UDATA4], off) == Fail(MemoryInvalid)
  {
    var kinds := [UDATA4];
    assert ReadEncodedValue(c.w, c.code, NO_BASES, kinds[0], off) == Fail(MemoryInvalid);
  }

  lemma HoldsMark(m: Memory, start: nat)
    ensures Holds(m, start, DEX_PC_MARK) <==>
      && start in m && m[start] == 0x0c && Holds(m, start + 1, [0x44, 0x45, 0x58, 0x31]) && start + 5 in m && m[start + 5] == 0x13
  {
    var op, chars, drop: seq<Byte> := [0x0c], [0x44, 0x45, 0x58, 0x31], [0x13];
    HoldsAppend(m, start, op, chars + drop);
    HoldsAppend(m, start + 1, chars, drop);
    HoldsByte(m, start, 0x0c);
    HoldsByte(m, start + 5, 0x13);
  }

  lemma HoldsByte(m: Memory, a: nat, b: Byte)
    ensures Holds(m, a, [b]) <==> a in m && m[a] == b
  {
    if a in m && m[a] == b {
      assert Holds(m, a, [b]);
    }
  }

  lemma HoldsFour(m: Memory, a: nat, bs: seq<Byte>)
    requires |bs| == 4
    ensures Holds(m, a, bs) <==> Readable(m, a, 4) && Fetch(m, a, 4) == bs
  {
  }

  /** An expression is marked as a dex pc exactly if it begins with those six bytes. */
  lemma DexPcExactly(c: Context, start: nat, end: nat)
    ensures MarksDexPc(c, start, end) <==> start + 5 < end && Holds(c.code, start, DEX_PC_MARK)
  {
    hide DecodeOp;
    hide Holds;
    hide LittleEndian;
    HoldsMark(c.code, start);
    HoldsFour(c.code, start + 1, [0x44, 0x45, 0x58, 0x31]);
    if start in c.code && c.code[start] == 0x0c {
      FourByteConstant(c, start);
      if Readable(c.code, start + 1, 4) {
        DexCharacters(Fetch(c.code, start + 1, 4));
      }
    }
  }
}
