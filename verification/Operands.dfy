/** Lists of operands as an assembler writes them, and the proof that they are read back. */
module Operands {
  import opened Machine
  import opened DwarfMemory

  /** An operand: a number in an encoding, or a block of bytes. */
  datatype Arg = Num(kind: Byte, v: int) | Block(content: seq<Byte>)

  function FixedSize(w: Width, kind: Byte): nat {
    match kind
    case 0x00 => w.Size()
    case 0x0d => 1
    case 0x02 => 2
    case 0x03 => 4
    case _ => 0
  }

  predicate ArgFits(w: Width, a: Arg) {
    match a
    case Block(content) => |content| < w.Modulus()
    case Num(kind, v) =>
      if kind == ULEB128 then 0 <= v < TWO64
      else if kind == SLEB128 then SlebReadable(v)
      else FixedSize(w, kind) > 0 && 0 <= v < Pow256(FixedSize(w, kind))
  }

  predicate ArgsFit(w: Width, args: seq<Arg>) { forall i :: 0 <= i < |args| ==> ArgFits(w, args[i]) }

  function ArgBytes(w: Width, a: Arg): seq<Byte>
    requires ArgFits(w, a)
  {
    match a
    case Block(content) => EncodeUleb(|content|) + content
    case Num(kind, v) =>
      if kind == ULEB128 then EncodeUleb(v)
      else if kind == SLEB128 then EncodeSleb(v)
      else ToLE(v % Pow256(FixedSize(w, kind)), FixedSize(w, kind))
  }

  function ArgsBytes(w: Width, args: seq<Arg>): seq<Byte>
    requires ArgsFit(w, args)
  {
    if args == [] then [] else ArgBytes(w, args[0]) + ArgsBytes(w, args[1..])
  }

  function Kind(a: Arg): Byte { if a.Block? then BLOCK else a.kind }

  function Kinds(args: seq<Arg>): (ks: seq<Byte>)
    ensures |ks| == |args|
  {
    if args == [] then [] else [Kind(args[0])] + Kinds(args[1..])
  }

  /** What an operand slot of the address width holds. */
  function SlotOf(w: Width, a: Arg): nat { Wrap(w, if a.Block? then |a.content| else a.v) }

  function Values(w: Width, args: seq<Arg>): (vs: seq<nat>)
    ensures |vs| == |args|
  {
    if args == [] then [] else [SlotOf(w, args[0])] + Values(w, args[1..])
  }

  lemma FixedFormat(w: Width, m: Memory, kind: Byte, off: nat)
    requires FixedSize(w, kind) > 0
    ensures kind < 15 && kind != BLOCK && ReadFormat(w, m, kind, off) == ReadFixed(m, off, FixedSize(w, kind))
  {
    hide ReadFixed;
    hide UlebAt;
    hide SlebAt;
    hide ReadSigned;
  }

  lemma NumRead(w: Width, m: Memory, a: Arg, off: nat)
    requires a.Num? && ArgFits(w, a) && Holds(m, off, ArgBytes(w, a))
    ensures a.kind != BLOCK
    ensures ReadEncodedValue(w, m, NO_BASES, a.kind, off) == Got(a.v % TWO64, off + |ArgBytes(w, a)|)
  {
    hide ReadEncodedValue;
    if a.kind == ULEB128 {
      UlebOperand(w, m, off, a.v);
      WrapSmall(W64, a.v);
    } else if a.kind == SLEB128 {
      SlebOperand(w, m, off, a.v);
    } else {
      FixedFormat(w, m, a.kind, off);
      UnsignedOperand(m, off, FixedSize(w, a.kind), a.v);
      PlainEncoding(w, m, a.kind, off);
    }
  }

  lemma BlockRead(m: Memory, content: seq<Byte>, off: nat)
    requires |content| < TWO64 && Holds(m, off, EncodeUleb(|content|) + content)
    ensures UlebAt(m, off) == Got(|content|, off + |EncodeUleb(|content|)|)
    ensures off + |EncodeUleb(|content|) + content| < TWO64
    ensures Holds(m, off + |EncodeUleb(|content|)|, content)
  {
    var leb := EncodeUleb(|content|);
    HoldsAppend(m, off, leb, content);
    EncodeUlebValue(|content|);
    UlebRoundTrip(m, off, leb, |content|);
    assert off + |leb + content| - 1 in m;
  }

  /** Reading one operand: its slot and the cursor behind it. */
  function OperandAt(w: Width, m: Memory, kind: Byte, off: nat): Read<nat> {
    if kind == BLOCK then
      match UlebAt(m, off)
      case Fail(e) => Fail(e)
      case Got(len, next) => Got(Wrap(w, len), (next + len) % TWO64)
    else
      match ReadEncodedValue(w, m, NO_BASES, kind, off)
      case Fail(e) => Fail(e)
      case Got(v, next) => Got(Wrap(w, v), next)
  }

  lemma OperandsCons(w: Width, m: Memory, kinds: seq<Byte>, off: nat)
    requires kinds != [] && OperandAt(w, m, kinds[0], off).Got?
    ensures var first := OperandAt(w, m, kinds[0], off);
      var rest := ReadOperands(w, m, kinds[1..], first.next);
      ReadOperands(w, m, kinds, off) == if rest.Fail? then rest else Got([first.value] + rest.value, rest.next)
  {
    hide ReadEncodedValue;
    hide UlebAt;
    hide Wrap;
  }

  lemma NoOperands(w: Width, m: Memory, off: nat)
    ensures ReadOperands(w, m, [], off) == Got([], off)
  {
  }

  /** Any list of encoded operands is read back, and the cursor ends behind it. */
  lemma {:induction false} ArgsRead(w: Width, m: Memory, args: seq<Arg>, off: nat)
    requires ArgsFit(w, args) && Holds(m, off, ArgsBytes(w, args))
    ensures ReadOperands(w, m, Kinds(args), off) == Got(Values(w, args), off + |ArgsBytes(w, args)|)
    decreases |args|
  {
    hide ReadOperands;
    hide OperandAt;
    hide Holds;
    hide ArgBytes;
    hide SlotOf;
    hide Kind;
    hide ArgFits;
    if args == [] {
      NoOperands(w, m, off);
      return;
    }
    var a, rest := args[0], args[1..];
    HoldsAppend(m, off, ArgBytes(w, a), ArgsBytes(w, rest));
    ArgRead(w, m, a, off);
    ArgsRead(w, m, rest, off + |ArgBytes(w, a)|);
    assert Kinds(args)[1..] == Kinds(rest);
    OperandsCons(w, m, Kinds(args), off);
  }

  lemma ArgRead(w: Width, m: Memory, a: Arg, off: nat)
    requires ArgFits(w, a) && Holds(m, off, ArgBytes(w, a))
    ensures OperandAt(w, m, Kind(a), off) == Got(SlotOf(w, a), off + |ArgBytes(w, a)|)
  {
    hide ReadEncodedValue;
    hide UlebAt;
    hide Wrap;
    if a.Num? {
      NumRead(w, m, a, off);
      Reduce(w, a.v);
    } else {
      BlockRead(m, a.content, off);
    }
  }

  // ------------------------------------------------------------ short lists

  function U(v: int): Arg { Num(ULEB128, v) }
  function S(v: int): Arg { Num(SLEB128, v) }

  lemma NoKinds()
    ensures Kinds([]) == []
  {
  }

  lemma KindsOne(a: Arg)
    ensures Kinds([a]) == [Kind(a)]
  {
    assert [a][1..] == [];
  }

  lemma KindsTwo(a: Arg, b: Arg)
    ensures Kinds([a, b]) == [Kind(a), Kind(b)]
  {
    assert [a, b][1..] == [b];
    KindsOne(b);
  }

  lemma ValuesOne(w: Width, a: Arg)
    ensures Values(w, [a]) == [SlotOf(w, a)]
  {
    assert [a][1..] == [];
  }

  lemma ValuesTwo(w: Width, a: Arg, b: Arg)
    ensures Values(w, [a, b]) == [SlotOf(w, a), SlotOf(w, b)]
  {
    assert [a, b][1..] == [b];
    ValuesOne(w, b);
  }
}
