/** The ARM exception-index unwinder: unwind instructions and their interpreter
    (section 9.3 of ARM IHI 0038B). */
module ArmExidx {
  import opened Machine
  import opened DwarfMemory

  datatype Status = NoStatus | NoUnwind | Finish | Reserved | Spare | Truncated | ReadFailed
                  | Malformed | InvalidAlignment | InvalidPersonality
                  | UndefinedShift    // not a status of the source: its shift is undefined

  const SP: nat := 13
  const LR: nat := 14
  const PC: nat := 15
  const OP_FINISH: Byte := 0xb0

  /** The instruction bytes still to decode, the virtual stack pointer, the sixteen
      registers, and whether the pc has been popped. */
  datatype Arm = Arm(data: seq<Byte>, cfa: nat, regs: seq<nat>, pcSet: bool)

  /** One decoded instruction: go on, or stop with a status. */
  datatype Turn = Go(arm: Arm) | Stop(status: Status)

  datatype Outcome = Finished(arm: Arm) | Failed(status: Status)

  /** Registers selected by a mask, from `reg` up. */
  function MaskRegs(mask: nat, reg: nat, limit: nat): (rs: seq<nat>)
    ensures forall i :: 0 <= i < |rs| ==> reg <= rs[i] < limit
    decreases limit - reg
  {
    if reg >= limit then []
    else if mask % 2 == 1 then [reg] + MaskRegs(mask / 2, reg + 1, limit)
    else MaskRegs(mask / 2, reg + 1, limit)
  }

  function RangeRegs(from: nat, count: nat): (rs: seq<nat>)
    ensures forall i :: 0 <= i < |rs| ==> from <= rs[i] < from + count
    decreases count
  {
    if count == 0 then [] else [from] + RangeRegs(from + 1, count - 1)
  }

  lemma {:induction false} RangeIndex(from: nat, count: nat)
    ensures |RangeRegs(from, count)| == count
    ensures forall i :: 0 <= i < count ==> RangeRegs(from, count)[i] == from + i
    decreases count
  {
    if count > 0 {
      RangeIndex(from + 1, count - 1);
    }
  }

  /** Pops words into the listed registers, first register at the lowest address. */
  function Pop(m: Memory, rs: seq<nat>, cfa: nat, regs: seq<nat>): (r: Option<(nat, seq<nat>)>)
    requires forall i :: 0 <= i < |rs| ==> rs[i] < |regs|
    ensures r.Some? ==> |r.value.1| == |regs|
    decreases |rs|
  {
    if rs == [] then Some((cfa, regs))
    else
      match ReadLE(m, cfa, 4)
      case None => None
      case Some(v) => Pop(m, rs[1..], Wrap(W32, cfa + 4), regs[rs[0] := v])
  }

  lemma PopStep(m: Memory, rs: seq<nat>, cfa: nat, regs: seq<nat>)
    requires forall i :: 0 <= i < |rs| ==> rs[i] < |regs|
    ensures var word := ReadLE(m, cfa, 4);
      Pop(m, rs, cfa, regs) == if rs == [] then Some((cfa, regs)) else if word.None? then None
                               else Pop(m, rs[1..], Wrap(W32, cfa + 4), regs[rs[0] := word.value])
  {
    hide ReadLE;
    hide Wrap;
  }

  function Popped(m: Memory, a: Arm, data: seq<Byte>, rs: seq<nat>): (t: Turn)
    requires forall i :: 0 <= i < |rs| ==> rs[i] < |a.regs|
    ensures t.Go? ==> t.arm.data == data && |t.arm.regs| == |a.regs| && t.arm.pcSet == a.pcSet
  {
    match Pop(m, rs, a.cfa, a.regs)
    case None => Stop(ReadFailed)
    case Some((cfa, regs)) => Go(Arm(data, cfa, regs, a.pcSet))
  }

  function Moved(a: Arm, data: seq<Byte>, delta: int): Turn {
    Go(a.(data := data, cfa := Wrap(W32, a.cfa + delta)))
  }

  /** How many bytes a LEB128 number takes at the front of the data; None if it is cut off. */
  function LebLength(data: seq<Byte>): (n: Option<nat>)
    ensures n.Some? ==> 0 < n.value <= |data|
  {
    if data == [] then None
    else if data[0] < 128 then Some(1)
    else
      match LebLength(data[1..])
      case None => None
      case Some(k) => Some(k + 1)
  }

  /** Pop under a 12-bit mask of r4 to r15. A popped sp becomes the new vsp. */
  function PopHigh(m: Memory, a: Arm, data: seq<Byte>, mask: nat): Turn
    requires |a.regs| == 16
  {
    if mask == 0 then Stop(NoUnwind)
    else
      var rs := MaskRegs(mask, 4, 16);
      match Popped(m, a, data, rs)
      case Stop(s) => Stop(s)
      case Go(b) =>
        Go(b.(cfa := if SP in rs then b.regs[SP] else b.cfa, pcSet := b.pcSet || PC in rs))
  }

  /** Instructions 10110001 to 10110011, with their operand bytes. */
  function DecodeWithOperand(m: Memory, a: Arm, op: Byte, data: seq<Byte>): Turn
    requires |a.regs| == 16
  {
    if data == [] then Stop(Truncated)
    else
      var x, rest := data[0], data[1..];
      match op
      case 0xb1 => if x == 0 || x >= 16 then Stop(Spare) else Popped(m, a, rest, MaskRegs(x, 0, 4))
      case 0xb2 =>
        (match LebLength(data)
         case None => Stop(Truncated)
         case Some(n) =>
           if UlebValue(data[..n]) >= TWO32 then Stop(UndefinedShift)
           else Moved(a, data[n..], 0x204 + UlebValue(data[..n]) * 4))
      case 0xb3 => Moved(a, rest, x % 16 * 8 + 12)
      case 0xc6 => Moved(a, rest, x % 16 * 8 + 8)
      case 0xc7 => if x == 0 || x >= 16 then Stop(Spare) else Moved(a, rest, |MaskRegs(x, 0, 4)| * 4)
      case _ => Moved(a, rest, x % 16 * 8 + 8)
  }

  function DecodeStep(m: Memory, a: Arm): (t: Turn)
    requires |a.regs| == 16
    ensures t.Go? ==> |t.arm.data| < |a.data| && |t.arm.regs| == 16
    ensures t == Stop(Finish) ==> a.data != []
  {
    if a.data == [] then Stop(Truncated)
    else
      var op: int, data := a.data[0], a.data[1..];
      if op < 0x40 then Moved(a, data, op * 4 + 4)
      else if op < 0x80 then Moved(a, data, -(op % 64 * 4 + 4))
      else if op < 0x90 then
        if data == [] then Stop(Truncated) else PopHigh(m, a, data[1..], op % 16 * 256 + data[0])
      else if op < 0xa0 then
        if op % 16 == 13 || op % 16 == 15 then Stop(Reserved)
        else Go(a.(data := data, cfa := a.regs[op % 16]))
      else if op < 0xb0 then
        Popped(m, a, data, RangeRegs(4, op % 8 + 1) + if op % 16 >= 8 then [LR] else [])
      else if op == OP_FINISH then Stop(Finish)
      else if op < 0xb4 || op == 0xc6 || op == 0xc7 || op == 0xc8 || op == 0xc9 then DecodeWithOperand(m, a, op, data)
      else if op < 0xb8 then Stop(Spare)
      else if op < 0xc0 then Moved(a, data, op % 8 * 8 + 12)
      else if op < 0xc6 then Moved(a, data, op % 8 * 8 + 8)
      else if op < 0xd0 then Stop(Spare)
      else if op < 0xd8 then Moved(a, data, op % 8 * 8 + 8)
      else Stop(Spare)
  }

  /** Decodes until an instruction stops; every instruction consumes a byte. */
  function Evaluate(m: Memory, a: Arm): Outcome
    requires |a.regs| == 16
    decreases |a.data|
  {
    match DecodeStep(m, a)
    case Go(b) => Evaluate(m, b)
    case Stop(Finish) => Finished(a.(data := a.data[1..]))
    case Stop(s) => Failed(s)
  }

  /** Handlers look only at the bytes they are given, not at the whole data. */
  lemma DataIrrelevant(m: Memory, a: Arm, op: Byte, data: seq<Byte>, mask: nat, other: seq<Byte>)
    requires |a.regs| == 16
    ensures DecodeWithOperand(m, a, op, data) == DecodeWithOperand(m, a.(data := other), op, data)
    ensures PopHigh(m, a, data, mask) == PopHigh(m, a.(data := other), data, mask)
  {
    hide MaskRegs;
    hide Pop;
    hide LebLength;
    hide UlebValue;
    hide Wrap;
  }

  /** A handler reports what the specified turn is: the new state, or the status. */
  predicate Reports(t: Turn, ok: bool, status: Status, a: Arm) {
    match t
    case Go(b) => ok && a == b
    case Stop(s) => !ok && status == s
  }

  class Unwinder {
    const mem: Memory
    var data: seq<Byte>
    var cfa: nat
    var regs: seq<nat>
    var pcSet: bool
    var status: Status

    constructor (m: Memory, bytes: seq<Byte>, sp: nat, rs: seq<nat>)
      requires |rs| == 16
      ensures mem == m && State() == Arm(bytes, sp, rs, false) && |regs| == 16
    {
      mem := m;
      data, cfa, regs, pcSet, status := bytes, sp, rs, false, NoStatus;
    }

    function State(): Arm
      reads this
    {
      Arm(data, cfa, regs, pcSet)
    }

    method GetByte() returns (ok: bool, b: Byte)
      modifies this`data, this`status
      ensures ok == (old(data) != [])
      ensures ok ==> b == old(data)[0] && data == old(data)[1..]
      ensures !ok ==> status == Truncated
    {
      ok, b := data != [], 0;
      if !ok {
        status := Truncated;
        return;
      }
      b := data[0];
      data := data[1..];
    }

    method PopOne(reg: nat) returns (ok: bool)
      requires reg < |regs|
      modifies this`cfa, this`regs, this`status
      ensures |regs| == |old(regs)|
      ensures ok == ReadLE(mem, old(cfa), 4).Some?
      ensures ok ==> cfa == Wrap(W32, old(cfa) + 4) && regs == old(regs)[reg := ReadLE(mem, old(cfa), 4).value]
      ensures !ok ==> status == ReadFailed
    {
      var word := ReadLE(mem, cfa, 4);
      ok := word.Some?;
      if !ok {
        status := ReadFailed;
        return;
      }
      regs := regs[reg := word.value];
      cfa := Wrap(W32, cfa + 4);
    }

    /** The loops over a register mask. */
    method PopMask(mask: nat, first: nat, limit: nat) returns (ok: bool)
      requires |regs| == 16 && limit <= 16
      modifies this`cfa, this`regs, this`status
      ensures |regs| == 16
      ensures var p := Pop(mem, MaskRegs(mask, first, limit), old(cfa), old(regs));
        ok == p.Some? && (ok ==> p.value == (cfa, regs)) && (!ok ==> status == ReadFailed)
    {
      ghost var p := Pop(mem, MaskRegs(mask, first, limit), cfa, regs);
      var reg, left := first, mask;
      while reg < limit
        invariant |regs| == 16
        invariant Pop(mem, MaskRegs(left, reg, limit), cfa, regs) == p
      {
        if left % 2 == 1 {
          assert MaskRegs(left, reg, limit)[1..] == MaskRegs(left / 2, reg + 1, limit);
          ok := PopOne(reg);
          if !ok {
            return;
          }
        }
        reg, left := reg + 1, left / 2;
      }
      ok := true;
    }

    method PopRange(from: nat, count: nat, lr: bool) returns (ok: bool)
      requires |regs| == 16 && from + count <= 16
      modifies this`cfa, this`regs, this`status
      ensures |regs| == 16
      ensures var p := Pop(mem, RangeRegs(from, count) + if lr then [LR] else [], old(cfa), old(regs));
        ok == p.Some? && (ok ==> p.value == (cfa, regs)) && (!ok ==> status == ReadFailed)
    {
      hide ReadLE;
      hide Wrap;
      hide Pop;
      hide RangeRegs;
      ghost var rs := RangeRegs(from, count) + if lr then [LR] else [];
      ghost var p := Pop(mem, rs, cfa, regs);
      RangeIndex(from, count);
      var i := 0;
      while i < count
        invariant i <= count && |regs| == 16
        invariant Pop(mem, rs[i..], cfa, regs) == p
      {
        PopStep(mem, rs[i..], cfa, regs);
        assert rs[i..][1..] == rs[i + 1..];
        ok := PopOne(from + i);
        if !ok {
          return;
        }
        i := i + 1;
      }
      PopStep(mem, rs[i..], cfa, regs);
      if lr {
        assert rs[i..] == [LR] && rs[i..][1..] == [];
        ok := PopOne(LR);
        if !ok {
          return;
        }
        PopStep(mem, [], cfa, regs);
      }
      ok := true;
    }

    /** vsp = vsp + 0x204 + (uleb128 << 2). A group that does not fit 32 bits where it
        is shifted to is undefined. */
    method AddUleb() returns (ok: bool)
      modifies this`data, this`cfa, this`status
      ensures match LebLength(old(data))
        case None => !ok && status == Truncated
        case Some(n) =>
          var u := UlebValue(old(data)[..n]);
          if u >= TWO32 then !ok && status == UndefinedShift
          else ok && data == old(data)[n..] && cfa == Wrap(W32, old(cfa) + 0x204 + u * 4)
    {
      ghost var input, read := data, 0;
      var result, shift := 0, 0;
      var b: Byte := 128;
      while b >= 128
        invariant read <= |input| && data == input[read..]
        invariant b >= 128 ==> (LebLength(input).Some? <==> LebLength(data).Some?)
        invariant b >= 128 && LebLength(data).Some? ==> LebLength(input).value == read + LebLength(data).value
        invariant cfa == old(cfa)
        invariant b < 128 ==> LebLength(input) == Some(read)
        invariant shift == 7 * read && result == UlebValue(input[..read])
        decreases b >= 128, |data|
      {
        ok, b := GetByte();
        if !ok {
          return;
        }
        assert input[..read + 1] == input[..read] + [b];
        UlebSnoc(input[..read], b);
        Pow2Of7(read);
        result := result + (b % 128) * Pow2(shift);
        shift := shift + 7;
        read := read + 1;
      }
      if result >= TWO32 {
        status := UndefinedShift;
        return false;
      }
      cfa := Wrap(W32, cfa + 0x204 + result * 4);
      ok := true;
    }
  
    /** Instructions that are one opcode and one operand byte or number. */
    method DecodeOperand(op: Byte) returns (ok: bool)
      requires |regs| == 16 && op in {0xb1, 0xb2, 0xb3, 0xc6, 0xc7, 0xc8, 0xc9}
      modifies this
      ensures |regs| == 16
      ensures Reports(DecodeWithOperand(mem, old(State()), op, old(data)), ok, status, State())
      ensures !ok ==> status != Finish
    {
      if op == 0xb2 {
        ok := AddUleb();
        return;
      }
      var x: Byte;
      ok, x := GetByte();
      if !ok {
        return;
      }
      if op == 0xb1 || op == 0xc7 {
        if x == 0 || x >= 16 {
          status := Spare;
          return false;
        }
        if op == 0xb1 {
          ok := PopMask(x, 0, 4);
        } else {
          cfa := Wrap(W32, cfa + |MaskRegs(x, 0, 4)| * 4);
        }
      } else {
        var words: int := x % 16;
        cfa := Wrap(W32, cfa + words * 8 + if op == 0xb3 then 12 else 8);
      }
    }

    /** Pop under the 12-bit mask of r4 to r15 whose high bits are in the opcode. */
    method DecodePopHigh(op: Byte) returns (ok: bool)
      requires |regs| == 16
      modifies this
      ensures |regs| == 16
      ensures old(data) == [] ==> !ok && status == Truncated
      ensures old(data) != [] ==>
        Reports(PopHigh(mem, old(State()), old(data)[1..], op % 16 * 256 + old(data)[0]), ok, status, State())
      ensures !ok ==> status != Finish
    {
      hide Pop;
      hide MaskRegs;
      var low: Byte;
      ok, low := GetByte();
      if !ok {
        return;
      }
      var high: int := op % 16;
      var mask := high * 256 + low;
      if mask == 0 {
        status := NoUnwind;
        return false;
      }
      ok := PopMask(mask, 4, 16);
      if !ok {
        return;
      }
      if SP in MaskRegs(mask, 4, 16) {
        cfa := regs[SP];
      }
      if PC in MaskRegs(mask, 4, 16) {
        pcSet := true;
      }
    }

    /** One instruction. */
    method Decode() returns (ok: bool)
      requires |regs| == 16
      modifies this
      ensures |regs| == 16
      ensures Reports(DecodeStep(mem, old(State())), ok, status, State())
      ensures !ok && status == Finish ==> State() == old(State()).(data := old(data)[1..])
    {
      hide Pop;
      hide MaskRegs;
      hide RangeRegs;
      hide Wrap;
      hide DecodeWithOperand;
      hide PopHigh;
      status := NoStatus;
      var b: Byte;
      ok, b := GetByte();
      if !ok {
        return;
      }
      var op: int := b;
      if op < 0x40 {
        cfa := Wrap(W32, cfa + (op * 4 + 4));
      } else if op < 0x80 {
        cfa := Wrap(W32, cfa + -(op % 64 * 4 + 4));
      } else if op < 0x90 {
        if data != [] {
          DataIrrelevant(mem, old(State()), b, data[1..], op % 16 * 256 + data[0], data);
        }
        ok := DecodePopHigh(b);
      } else if op < 0xa0 {
        if op % 16 == 13 || op % 16 == 15 {
          status := Reserved;
          return false;
        }
        cfa := regs[op % 16];
      } else if op < 0xb0 {
        ok := PopRange(4, op % 8 + 1, op % 16 >= 8);
      } else if op == OP_FINISH {
        status := Finish;
        ok := false;
      } else if op < 0xb4 || op == 0xc6 || op == 0xc7 || op == 0xc8 || op == 0xc9 {
        DataIrrelevant(mem, old(State()), b, data, 0, data);
        ok := DecodeOperand(b);
      } else if op < 0xb8 {
        status := Spare;
        ok := false;
      } else if op < 0xc0 {
        cfa := Wrap(W32, cfa + (op % 8 * 8 + 12));
      } else if op < 0xc6 || 0xd0 <= op < 0xd8 {
        cfa := Wrap(W32, cfa + (op % 8 * 8 + 8));
      } else {
        status := Spare;
        ok := false;
      }
    }

    method Eval() returns (ok: bool)
      requires |regs| == 16
      modifies this
      ensures var o := Evaluate(mem, old(State()).(pcSet := false));
        ok == o.Finished? && (ok ==> State() == o.arm) && (!ok ==> status == o.status)
    {
      hide DecodeStep;
      pcSet := false;
      ghost var o := Evaluate(mem, State());
      ok := true;
      while ok
        invariant |regs| == 16
        invariant ok ==> Evaluate(mem, State()) == o
        invariant !ok ==> o == if status == Finish then Finished(State()) else Failed(status)
        decreases ok, |data|
      {
        ok := Decode();
      }
      ok := status == Finish;
    }
  }
}
