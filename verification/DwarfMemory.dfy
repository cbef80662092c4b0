/** The cursor the DWARF readers share: LEB128 and encoded pointer values
    (section 7.6 of DWARF 4 and section 10.5 of LSB Core). */
module DwarfMemory {
  import opened Machine

  /** The error codes the DWARF readers report. UndefinedOperation is not one of them:
      it marks an input for which the source computes something that C++ leaves
      undefined, such as a shift by the width of a word. */
  datatype Error = MemoryInvalid | IllegalValue | IllegalState | StackIndexNotValid | NotImplemented
                 | TooManyIterations | UndefinedOperation

  /** Outcome of a read at a cursor: the value and the cursor after it. */
  datatype Read<+T> = Fail(error: Error) | Got(value: T, next: nat)

  /** Bases a relative pointer may be added to; None is the source's "not set". */
  datatype Bases = Bases(pc: Option<nat>, text: Option<nat>, data: Option<nat>, func: Option<nat>)

  // DW_EH_PE_* encodings, with the three the source adds for operands.
  const ABSPTR: Byte := 0x00
  const ULEB128: Byte := 0x01
  const UDATA2: Byte := 0x02
  const UDATA4: Byte := 0x03
  const UDATA8: Byte := 0x04
  const SLEB128: Byte := 0x09
  const SDATA2: Byte := 0x0a
  const SDATA4: Byte := 0x0b
  const SDATA8: Byte := 0x0c
  const UDATA1: Byte := 0x0d
  const SDATA1: Byte := 0x0e
  const BLOCK: Byte := 0x0f
  const ALIGNED: Byte := 0x50
  const OMIT: Byte := 0xff

  // ---------------------------------------------------------------- LEB128

  /** A LEB128 byte string: every byte but the last has its top bit set. */
  predicate IsLeb(bs: seq<Byte>) {
    |bs| > 0 && bs[|bs| - 1] < 128 && forall i :: 0 <= i < |bs| - 1 ==> bs[i] >= 128
  }

  function Pow128(n: nat): (r: nat)
    ensures r > 0
  {
    if n == 0 then 1 else 128 * Pow128(n - 1)
  }

  /** The number an unsigned LEB128 string denotes. */
  function UlebValue(bs: seq<Byte>): nat {
    if bs == [] then 0 else bs[0] % 128 + 128 * UlebValue(bs[1..])
  }

  /** The number a signed LEB128 string denotes: bit 6 of the last byte is the sign. */
  function SlebValue(bs: seq<Byte>): int
    requires bs != []
  {
    if Negative(bs) then UlebValue(bs) - Pow128(|bs|) else UlebValue(bs)
  }

  /** The LEB128 string that starts at off, if it is readable to its end. */
  function LebAt(m: Memory, off: nat): (r: Option<seq<Byte>>)
    ensures r.Some? ==> IsLeb(r.value) && Holds(m, off, r.value)
    decreases TWO64 - off
  {
    if off !in m then None
    else if m[off] < 128 then Some([m[off]])
    else
      match LebAt(m, off + 1)
      case None => None
      case Some(rest) => Some([m[off]] + rest)
  }

  /** A group is shifted by seven times its index; from the eleventh group on that is
      more than a 64-bit word has, which only a zero survives. */
  predicate GroupsDefined(bs: seq<Byte>) { forall i :: 10 <= i < |bs| ==> bs[i] % 128 == 0 }

  predicate Negative(bs: seq<Byte>)
    requires bs != []
  {
    bs[|bs| - 1] % 128 >= 64
  }

  /** The sign is extended by a shift of seven times the number of groups. */
  predicate SignDefined(bs: seq<Byte>)
    requires bs != []
  {
    |bs| <= 9 || !Negative(bs)
  }

  function UlebAt(m: Memory, off: nat): (r: Read<nat>)
    ensures r.Got? ==> r.value < TWO64
  {
    match LebAt(m, off)
    case None => Fail(MemoryInvalid)
    case Some(bs) =>
      if GroupsDefined(bs) then Got(UlebValue(bs) % TWO64, off + |bs|) else Fail(UndefinedOperation)
  }

  /** The signed value as its 64-bit two's complement pattern. */
  function SlebAt(m: Memory, off: nat): (r: Read<nat>)
    ensures r.Got? ==> r.value < TWO64
  {
    match LebAt(m, off)
    case None => Fail(MemoryInvalid)
    case Some(bs) =>
      if GroupsDefined(bs) && SignDefined(bs) then Got(SlebValue(bs) % TWO64, off + |bs|)
      else Fail(UndefinedOperation)
  }

  /** Any LEB128 string in memory is found again, whatever follows it. */
  lemma {:induction false} LebFound(m: Memory, off: nat, bs: seq<Byte>)
    requires IsLeb(bs) && Holds(m, off, bs)
    ensures LebAt(m, off) == Some(bs)
    decreases |bs|
  {
    assert off in m && m[off] == bs[0];
    if |bs| == 1 {
      assert bs == [bs[0]];
    } else {
      var rest := bs[1..];
      assert bs == [bs[0]] + rest;
      HoldsAppend(m, off, [bs[0]], rest);
      LebFound(m, off + 1, rest);
    }
  }

  lemma {:induction false} UlebSnoc(bs: seq<Byte>, b: Byte)
    ensures UlebValue(bs + [b]) == UlebValue(bs) + (b % 128) * Pow128(|bs|)
  {
    if bs == [] {
      assert bs + [b] == [b];
      assert UlebValue([b][1..]) == 0;
    } else {
      UlebSnoc(bs[1..], b);
      assert (bs + [b])[1..] == bs[1..] + [b];
      var v, p := b % 128, Pow128(|bs| - 1);
      assert 128 * (v * p) == v * (128 * p);
    }
  }

  /** The shortest unsigned encoding, as an assembler emits it. */
  function EncodeUleb(v: nat): (bs: seq<Byte>)
    ensures IsLeb(bs)
  {
    if v < 128 then [v] else [v % 128 + 128] + EncodeUleb(v / 128)
  }

  /** The shortest signed encoding. */
  function EncodeSleb(v: int): (bs: seq<Byte>)
    ensures IsLeb(bs)
    decreases if v < 0 then -v else v
  {
    if -64 <= v < 64 then [v % 128] else [v % 128 + 128] + EncodeSleb(v / 128)
  }

  lemma {:induction false} EncodeUlebValue(v: nat)
    ensures UlebValue(EncodeUleb(v)) == v
  {
    if v < 128 {
      assert UlebValue(EncodeUleb(v)[1..]) == 0;
    } else {
      EncodeUlebValue(v / 128);
      assert EncodeUleb(v)[1..] == EncodeUleb(v / 128);
    }
  }

  lemma SlebCons(b: Byte, rest: seq<Byte>)
    requires rest != []
    ensures SlebValue([b] + rest) == b % 128 + 128 * SlebValue(rest)
  {
    var bs := [b] + rest;
    assert bs[1..] == rest;
    assert bs[|bs| - 1] == rest[|rest| - 1];
  }

  lemma SlebOne(v: int)
    requires -64 <= v < 64
    ensures SlebValue([v % 128]) == v
  {
    assert UlebValue([v % 128][1..]) == 0;
  }

  lemma {:induction false} EncodeSlebValue(v: int)
    ensures SlebValue(EncodeSleb(v)) == v
    decreases if v < 0 then -v else v
  {
    if -64 <= v < 64 {
      SlebOne(v);
    } else {
      hide SlebValue;
      EncodeSlebValue(v / 128);
      SlebCons(v % 128 + 128, EncodeSleb(v / 128));
    }
  }

  /** A nonzero group makes the value at least its weight. */
  lemma {:induction false} GroupWeight(bs: seq<Byte>, i: nat)
    requires i < |bs| && bs[i] % 128 != 0
    ensures UlebValue(bs) >= Pow128(i)
    decreases |bs|
  {
    if i > 0 {
      GroupWeight(bs[1..], i - 1);
    }
  }

  lemma {:induction false} Pow128Grows(m: nat, n: nat)
    requires m <= n
    ensures Pow128(m) <= Pow128(n)
    decreases n - m
  {
    if m < n {
      Pow128Grows(m, n - 1);
    }
  }

  lemma Pow128Of10()
    ensures Pow128(9) == 0x8000_0000_0000_0000 && Pow128(10) == 64 * TWO64
  {
    assert Pow128(3) == 0x20_0000 && Pow128(6) == 0x400_0000_0000;
  }

  /** A value of 64 bits leaves the groups that cannot be shifted empty. */
  lemma SmallValueDefined(bs: seq<Byte>)
    requires UlebValue(bs) < 64 * TWO64
    ensures GroupsDefined(bs)
  {
    forall i | 10 <= i < |bs| ensures bs[i] % 128 == 0 {
      if bs[i] % 128 != 0 {
        GroupWeight(bs, i);
        Pow128Grows(10, i);
        Pow128Of10();
      }
    }
  }

  /** Decoding undoes encoding for every 64-bit value, at any address and with
      anything behind the encoding; redundant trailing groups do not matter. */
  lemma UlebRoundTrip(m: Memory, off: nat, bs: seq<Byte>, v: nat)
    requires IsLeb(bs) && UlebValue(bs) == v < TWO64 && Holds(m, off, bs)
    ensures UlebAt(m, off) == Got(v, off + |bs|)
  {
    hide UlebValue;
    hide GroupsDefined;
    hide LebAt;
    LebFound(m, off, bs);
    SmallValueDefined(bs);
  }

  /** A signed string of any length that denotes a 64-bit value is read as that value
      exactly if it has at most nine bytes or its sign bit is clear; otherwise the
      sign extension is undefined. */
  lemma SlebRoundTrip(m: Memory, off: nat, bs: seq<Byte>, v: int)
    requires IsLeb(bs) && SlebValue(bs) == v && -(TWO64 / 2) <= v < TWO64 / 2 && Holds(m, off, bs)
    ensures SlebAt(m, off) == Got(v % TWO64, off + |bs|) <==> |bs| <= 9 || !Negative(bs)
    ensures |bs| > 9 && Negative(bs) ==> SlebAt(m, off) == Fail(UndefinedOperation)
  {
    LebFound(m, off, bs);
    if !Negative(bs) {
      SmallValueDefined(bs);
    }
  }

  /** The least 64-bit number, in its shortest encoding, is not read. */
  lemma LeastSlebNotRead(m: Memory, off: nat)
    requires Holds(m, off, LEAST_SLEB)
    ensures SlebValue(LEAST_SLEB) == -0x8000_0000_0000_0000 && EncodeSleb(-0x8000_0000_0000_0000) == LEAST_SLEB
    ensures SlebAt(m, off) == Fail(UndefinedOperation)
  {
    LeastSlebEncoding(9);
    assert ZeroGroups(4) == [0x80, 0x80, 0x80, 0x80, 0x7f];
    assert ZeroGroups(9) == LEAST_SLEB;
    EncodeSlebValue(-0x8000_0000_0000_0000);
    Pow128Of10();
    SlebRoundTrip(m, off, LEAST_SLEB, -0x8000_0000_0000_0000);
  }

  const LEAST_SLEB: seq<Byte> := [0x80, 0x80, 0x80, 0x80, 0x80, 0x80, 0x80, 0x80, 0x80, 0x7f]

  lemma Shifted(v: int)
    requires v < 0
    ensures EncodeSleb(128 * v) == [0x80] + EncodeSleb(v)
  {
    assert 128 * v / 128 == v && 128 * v % 128 == 0;
  }

  /** n groups of zeros and the last group of ones. */
  function ZeroGroups(n: nat): seq<Byte> { if n == 0 then [0x7f] else [0x80] + ZeroGroups(n - 1) }

  lemma {:induction false} LeastSlebEncoding(n: nat)
    ensures var p: int := Pow128(n);
      EncodeSleb(-p) == ZeroGroups(n)
    decreases n
  {
    if n > 0 {
      var q: int := Pow128(n - 1);
      Shifted(-q);
      LeastSlebEncoding(n - 1);
    }
  }

  /** The signed numbers whose shortest encoding is read back: those from -2^62 up. */
  predicate SlebReadable(v: int) { -0x4000_0000_0000_0000 <= v < 0x8000_0000_0000_0000 }

  lemma {:induction false} EncodeSlebLength(v: int, n: nat)
    requires n > 0
    ensures var bound: int := 64 * Pow128(n - 1);
      |EncodeSleb(v)| <= n <==> -bound <= v < bound
    decreases n
  {
    if !(-64 <= v < 64) {
      if n > 1 {
        EncodeSlebLength(v / 128, n - 1);
        var b: int := 64 * Pow128(n - 2);
        assert 64 * Pow128(n - 1) == 128 * b;
      }
    } else {
      Pow128Grows(0, n - 1);
    }
  }

  lemma {:induction false} EncodeSlebSign(v: int)
    ensures Negative(EncodeSleb(v)) <==> v < 0
    decreases if v < 0 then -v else v
  {
    if !(-64 <= v < 64) {
      EncodeSlebSign(v / 128);
      var rest := EncodeSleb(v / 128);
      assert EncodeSleb(v)[|EncodeSleb(v)| - 1] == rest[|rest| - 1];
    }
  }

  /** Which encoded numbers the signed reader delivers: exactly those from -2^62 up. */
  lemma SlebReadsExactly(m: Memory, off: nat, v: int)
    requires -(TWO64 / 2) <= v < TWO64 / 2 && Holds(m, off, EncodeSleb(v))
    ensures SlebAt(m, off) == (if SlebReadable(v) then Got(v % TWO64, off + |EncodeSleb(v)|) else Fail(UndefinedOperation))
  {
    EncodeSlebValue(v);
    EncodeSlebSign(v);
    EncodeSlebLength(v, 9);
    assert Pow128(4) == 0x1000_0000 && Pow128(8) == 0x100_0000_0000_0000;
    SlebRoundTrip(m, off, EncodeSleb(v), v);
  }

  lemma SignedOfPattern(v: int)
    requires -(TWO64 / 2) <= v < TWO64 / 2
    ensures Signed(W64, v % TWO64) == v
  {
  }

  // ------------------------------------------------------- encoded values

  function GetEncodedSize(w: Width, encoding: Byte): nat {
    match encoding % 16
    case 0x00 => w.Size()
    case 0x0d => 1
    case 0x0e => 1
    case 0x02 => 2
    case 0x0a => 2
    case 0x03 => 4
    case 0x0b => 4
    case 0x04 => 8
    case 0x0c => 8
    case _ => 0
  }

  /** The base that bits 4 to 6 of an encoding select. An aligned encoding with a
      format in its low bits aborts in the source and fails here. */
  function BaseOf(encoding: Byte, bases: Bases): Option<nat> {
    match encoding / 16 % 8
    case 0 => Some(0)
    case 1 => bases.pc
    case 2 => bases.text
    case 3 => bases.data
    case 4 => bases.func
    case _ => None
  }

  function ReadFixed(m: Memory, off: nat, n: nat): (r: Read<nat>)
    ensures r.Got? ==> r.value < TWO64
  {
    match ReadLE(m, off, n)
    case None => Fail(MemoryInvalid)
    case Some(v) => Got(v % TWO64, off + n)
  }

  /** A sign-extended n-byte read, as its 64-bit pattern. */
  function ReadSigned(m: Memory, off: nat, n: nat): (r: Read<nat>)
    ensures r.Got? ==> r.value < TWO64
  {
    match ReadLE(m, off, n)
    case None => Fail(MemoryInvalid)
    case Some(v) =>
      var s := if v >= Pow256(n) / 2 then v - Pow256(n) else v;
      Got(s % TWO64, off + n)
  }

  /** The raw value, before the base is added. */
  function ReadFormat(w: Width, m: Memory, encoding: Byte, off: nat): (r: Read<nat>)
    ensures r.Got? ==> r.value < TWO64
  {
    match encoding % 16
    case 0x00 => ReadFixed(m, off, w.Size())
    case 0x01 => UlebAt(m, off)
    case 0x09 => SlebAt(m, off)
    case 0x0d => ReadFixed(m, off, 1)
    case 0x0e => ReadSigned(m, off, 1)
    case 0x02 => ReadFixed(m, off, 2)
    case 0x0a => ReadSigned(m, off, 2)
    case 0x03 => ReadFixed(m, off, 4)
    case 0x0b => ReadSigned(m, off, 4)
    case 0x04 => ReadFixed(m, off, 8)
    case 0x0c => ReadSigned(m, off, 8)
    case _ => Fail(MemoryInvalid)
  }

  function ReadEncodedValue(w: Width, m: Memory, bases: Bases, encoding: Byte, off: nat): (r: Read<nat>)
    ensures r.Got? ==> r.value < TWO64 && r.next >= off
  {
    if encoding == OMIT then Got(0, off)
    else if encoding == ALIGNED then
      var up := off + (w.Size() - 1);
      if up >= TWO64 then Fail(MemoryInvalid) else ReadFixed(m, up - up % w.Size(), w.Size())
    else
      match ReadFormat(w, m, encoding, off)
      case Fail(e) => Fail(e)
      case Got(v, next) =>
        match BaseOf(encoding, bases)
        case None => Fail(MemoryInvalid)
        case Some(base) => Got((v + base) % TWO64, next)
  }

  /** A fixed-size encoding moves the cursor by its declared size. */
  lemma EncodedSizeIsStride(w: Width, m: Memory, bases: Bases, encoding: Byte, off: nat)
    requires encoding != OMIT && encoding != ALIGNED && GetEncodedSize(w, encoding) > 0
    requires ReadEncodedValue(w, m, bases, encoding, off).Got?
    ensures ReadEncodedValue(w, m, bases, encoding, off).next == off + GetEncodedSize(w, encoding)
  {
  }

  /** The bare formats, which the operand tables use, add no base. */
  lemma PlainEncoding(w: Width, m: Memory, encoding: Byte, off: nat)
    requires encoding < 16
    ensures ReadEncodedValue(w, m, NO_BASES, encoding, off) == ReadFormat(w, m, encoding, off)
  {
    hide ReadFormat;
  }

  const NO_BASES := Bases(None, None, None, None)

  /** Reads operands one after the other, each cut to the address width. A block
      is its length, and the cursor jumps over its contents, modulo 2^64. */
  function ReadOperands(w: Width, m: Memory, kinds: seq<Byte>, off: nat): (r: Read<seq<nat>>)
    ensures r.Got? ==> |r.value| == |kinds|
    decreases |kinds|
  {
    if kinds == [] then Got([], off)
    else
      var first :=
        if kinds[0] == BLOCK then
          match UlebAt(m, off)
          case Fail(e) => Fail(e)
          case Got(len, next) => Got(len, (next + len) % TWO64)
        else
          ReadEncodedValue(w, m, NO_BASES, kinds[0], off);
      match first
      case Fail(e) => Fail(e)
      case Got(v, next) =>
        match ReadOperands(w, m, kinds[1..], next)
        case Fail(e) => Fail(e)
        case Got(vs, last) => Got([Wrap(w, v)] + vs, last)
  }

  /** A single operand that is not a block. */
  lemma OneOperand(w: Width, m: Memory, kind: Byte, off: nat)
    requires kind != BLOCK && ReadEncodedValue(w, m, NO_BASES, kind, off).Got?
    ensures var r := ReadEncodedValue(w, m, NO_BASES, kind, off);
      ReadOperands(w, m, [kind], off) == Got([Wrap(w, r.value)], r.next)
  {
    var kinds, r := [kind], ReadEncodedValue(w, m, NO_BASES, kind, off);
    assert kinds[1..] == [];
    assert ReadOperands(w, m, kinds[1..], r.next) == Got([], r.next);
    assert [Wrap(w, r.value)] + [] == [Wrap(w, r.value)];
  }

  // ------------------------------------------------------- encoded operands

  lemma UlebOperand(w: Width, m: Memory, off: nat, v: nat)
    requires v < TWO64 && Holds(m, off, EncodeUleb(v))
    ensures ReadEncodedValue(w, m, NO_BASES, ULEB128, off) == Got(v, off + |EncodeUleb(v)|)
  {
    hide EncodeUleb;
    hide UlebValue;
    hide UlebAt;
    hide ReadEncodedValue;
    EncodeUlebValue(v);
    UlebRoundTrip(m, off, EncodeUleb(v), v);
    PlainEncoding(w, m, ULEB128, off);
  }

  lemma SlebOperand(w: Width, m: Memory, off: nat, v: int)
    requires SlebReadable(v) && Holds(m, off, EncodeSleb(v))
    ensures ReadEncodedValue(w, m, NO_BASES, SLEB128, off) == Got(v % TWO64, off + |EncodeSleb(v)|)
  {
    hide EncodeSleb;
    hide SlebAt;
    hide ReadEncodedValue;
    SlebReadsExactly(m, off, v);
    PlainEncoding(w, m, SLEB128, off);
  }

  lemma SmallMod(v: int, p: int)
    requires -p <= v < p && p > 0
    ensures v % p == if v < 0 then v + p else v
  {
    if v < 0 {
      assert (v + p) / p == 0;
      assert v == p * (-1) + (v + p);
    }
  }

  lemma UnsignedOperand(m: Memory, off: nat, n: nat, v: int)
    requires 0 <= v < Pow256(n) && Holds(m, off, ToLE(v % Pow256(n), n))
    ensures ReadFixed(m, off, n) == Got(v % TWO64, off + n)
  {
    SmallMod(v, Pow256(n));
    HoldsFetch(m, off, ToLE(v, n));
    ToLERoundTrip(v, n);
  }

  lemma SignedOperand(m: Memory, off: nat, n: nat, v: int)
    requires -(Pow256(n) / 2) <= v < Pow256(n) / 2 && Holds(m, off, ToLE(v % Pow256(n), n))
    ensures ReadSigned(m, off, n) == Got(v % TWO64, off + n)
  {
    SmallMod(v, Pow256(n));
    HoldsFetch(m, off, ToLE(v % Pow256(n), n));
    ToLERoundTrip(v % Pow256(n), n);
  }

  // ------------------------------------------------------ the cursor object

  lemma {:induction false} Pow2Of7(n: nat)
    ensures Pow2(7 * n) == Pow128(n)
  {
    if n > 0 {
      Pow2Of7(n - 1);
      var k := 7 * (n - 1);
      assert Pow2(k + 7) == 2 * Pow2(k + 6);
      assert Pow2(k + 6) == 2 * Pow2(k + 5);
      assert Pow2(k + 5) == 2 * Pow2(k + 4);
      assert Pow2(k + 4) == 2 * Pow2(k + 3);
      assert Pow2(k + 3) == 2 * Pow2(k + 2);
      assert Pow2(k + 2) == 2 * Pow2(k + 1);
      assert Pow2(k + 1) == 2 * Pow2(k);
    }
  }

  /** One more group: the running 64-bit sum stays the denoted value. */
  lemma GroupAdded(bs: seq<Byte>, b: Byte, cur: nat)
    requires cur == UlebValue(bs) % TWO64
    ensures (cur + (b % 128) * Pow2(7 * |bs|) % TWO64) % TWO64 == UlebValue(bs + [b]) % TWO64
  {
    UlebSnoc(bs, b);
    Pow2Of7(|bs|);
    Mod64Add(UlebValue(bs), (b % 128) * Pow128(|bs|));
  }

  /** Bytes with their top bit set never end an encoding. */
  lemma {:induction false} LebPrefix(m: Memory, off: nat, bs: seq<Byte>)
    requires Holds(m, off, bs) && forall i :: 0 <= i < |bs| ==> bs[i] >= 128
    ensures LebAt(m, off).Some? <==> LebAt(m, off + |bs|).Some?
    decreases |bs|
  {
    if bs != [] {
      assert off in m && m[off] == bs[0];
      assert bs == [bs[0]] + bs[1..];
      HoldsAppend(m, off, [bs[0]], bs[1..]);
      LebPrefix(m, off + 1, bs[1..]);
    }
  }

  class Cursor {
    const memory: Memory
    var cur: nat

    constructor (m: Memory)
      ensures memory == m && cur == 0
    {
      memory := m;
      cur := 0;
    }

    method ReadByte() returns (ok: bool, b: Byte)
      modifies this
      ensures ok == (old(cur) in memory)
      ensures ok ==> b == memory[old(cur)] && cur == old(cur) + 1
      ensures !ok ==> cur == old(cur)
    {
      ok, b := cur in memory, 0;
      if ok {
        b := memory[cur];
        cur := cur + 1;
      }
    }

    /** The loop both LEB128 readers run: groups are shifted and added. It also tells
        whether every shift was defined. */
    method ReadGroups() returns (ok: bool, value: nat, shift: nat, last: Byte, defined: bool)
      modifies this
      ensures ok == LebAt(memory, old(cur)).Some?
      ensures ok ==> defined == GroupsDefined(LebAt(memory, old(cur)).value)
      ensures ok ==>
        var bs := LebAt(memory, old(cur)).value;
        value == UlebValue(bs) % TWO64 && shift == 7 * |bs| && last == bs[|bs| - 1] && cur == old(cur) + |bs|
    {
      hide UlebValue;
      hide GroupsDefined;
      hide LebAt;
      hide Pow2;
      EmptyGroups();
      value, shift, last, defined := 0, 0, 128, true;
      ghost var bs: seq<Byte> := [];
      while last >= 128
        invariant cur == old(cur) + |bs| && shift == 7 * |bs|
        invariant value == UlebValue(bs) % TWO64
        invariant defined == GroupsDefined(bs)
        invariant Holds(memory, old(cur), bs)
        invariant forall i :: 0 <= i < |bs| - 1 ==> bs[i] >= 128
        invariant bs == [] ==> last >= 128
        invariant bs != [] ==> bs[|bs| - 1] == last
        decreases last >= 128, TWO64 - cur
      {
        LebPrefix(memory, old(cur), bs);
        ok, last := ReadByte();
        if !ok {
          return;
        }
        GroupAdded(bs, last, value);
        GroupsSnoc(bs, last);
        value := (value + (last % 128) * Pow2(shift) % TWO64) % TWO64;
        defined := defined && (shift < 64 || last % 128 == 0);
        shift := shift + 7;
        HoldsAppend(memory, old(cur), bs, [last]);
        bs := bs + [last];
      }
      LebFound(memory, old(cur), bs);
      ok := true;
    }

    method ReadULEB128() returns (r: Read<nat>)
      modifies this
      ensures r == UlebAt(memory, old(cur))
      ensures r.Got? ==> cur == r.next
    {
      var ok, value, shift, last, defined := ReadGroups();
      if !ok {
        return Fail(MemoryInvalid);
      }
      r := if defined then Got(value, cur) else Fail(UndefinedOperation);
    }

    /** The sign is or-ed in above the groups; those bits are clear, so it is a sum. */
    method ReadSLEB128() returns (r: Read<nat>)
      modifies this
      ensures r == SlebAt(memory, old(cur))
      ensures r.Got? ==> cur == r.next
    {
      var ok, value, shift, last, defined := ReadGroups();
      if !ok {
        return Fail(MemoryInvalid);
      }
      if last % 128 >= 64 {
        ghost var bs := LebAt(memory, old(cur)).value;
        Pow2Of7(|bs|);
        ghost var p: int := Pow128(|bs|);
        Mod64Add(UlebValue(bs), -p);
        defined := defined && shift < 64;
        value := (value - Pow2(shift)) % TWO64;
      }
      r := if defined then Got(value, cur) else Fail(UndefinedOperation);
    }
  }

  lemma EmptyGroups()
    ensures UlebValue([]) == 0 && GroupsDefined([])
  {
  }

  lemma GroupsSnoc(bs: seq<Byte>, b: Byte)
    ensures GroupsDefined(bs + [b]) <==> GroupsDefined(bs) && (7 * |bs| < 64 || b % 128 == 0)
  {
    var all := bs + [b];
    assert all[|bs|] == b;
    if GroupsDefined(all) {
      forall i | 10 <= i < |bs| ensures bs[i] % 128 == 0 {
        assert all[i] == bs[i];
      }
    }
  }
}
