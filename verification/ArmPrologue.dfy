/** Function prologues, the unwind instructions that describe them, and the proof
    that unwinding undoes the prologue. */
module ArmPrologue {
  import opened Machine
  import opened DwarfMemory
  import opened ArmExidx

  /** What a prologue does to the stack. */
  datatype Step =
    | PushHigh(mask: nat)                              // any of r4-r12 and r14
    | PushRange(n: nat, lr: bool)                      // r4 to r[4+n], perhaps r14
    | PushLow(mask: nat)                               // any of r0-r3
    | Sub(k: nat)                                      // sp -= 4 * k + 4
    | SubLarge(u: nat)                                 // sp -= 0x204 + 4 * u
    | SaveX(first: nat, count: nat)                    // FSTMFDX of d[first]..d[first+count]
    | SaveXFrom8(n: nat)                               // FSTMFDX of d8..d[8+n]
    | Save(high: bool, first: nat, count: nat)         // VPUSH, from d16 up or from d0 up
    | SaveFrom8(n: nat)                                // VPUSH of d8..d[8+n]

  /** The fields fit their instruction, and neither sp nor pc is pushed. */
  predicate Valid(s: Step) {
    match s
    case PushHigh(mask) => 0 < mask < 4096 && !BitAt(mask, 9) && !BitAt(mask, 11)
    case PushRange(n, _) => n < 8
    case PushLow(mask) => 0 < mask < 16
    case Sub(k) => k < 64
    case SubLarge(u) => u < 0x4000_0000
    case SaveX(first, count) => first < 16 && count < 16
    case SaveXFrom8(n) => n < 8
    case Save(_, first, count) => first < 16 && count < 16
    case SaveFrom8(n) => n < 8
  }

  /** The core registers a step pushes, lowest address first. */
  function Regs(s: Step): (rs: seq<nat>)
    requires Valid(s)
    ensures forall i :: 0 <= i < |rs| ==> rs[i] < 16
  {
    match s
    case PushHigh(mask) => MaskRegs(mask, 4, 16)
    case PushRange(n, lr) => RangeRegs(4, n + 1) + if lr then [LR] else []
    case PushLow(mask) => MaskRegs(mask, 0, 4)
    case _ => []
  }

  /** By how much a step lowers the stack pointer. */
  function Size(s: Step): nat
    requires Valid(s)
  {
    match s
    case Sub(k) => 4 * k + 4
    case SubLarge(u) => 0x204 + 4 * u
    case SaveX(_, count) => 8 * count + 12
    case SaveXFrom8(n) => 8 * n + 12
    case Save(_, _, count) => 8 * count + 8
    case SaveFrom8(n) => 8 * n + 8
    case _ => 4 * |Regs(s)|
  }

  /** The unwind instruction that describes a step. */
  function Opcodes(s: Step): seq<Byte>
    requires Valid(s)
  {
    match s
    case PushHigh(mask) => [0x80 + mask / 256, mask % 256]
    case PushRange(n, lr) => [0xa0 + n + if lr then 8 else 0]
    case PushLow(mask) => [0xb1, mask]
    case Sub(k) => [k]
    case SubLarge(u) => [0xb2] + EncodeUleb(u)
    case SaveX(first, count) => [0xb3, first * 16 + count]
    case SaveXFrom8(n) => [0xb8 + n]
    case Save(high, first, count) => [if high then 0xc8 else 0xc9, first * 16 + count]
    case SaveFrom8(n) => [0xd0 + n]
  }

  predicate AllValid(steps: seq<Step>) { forall i :: 0 <= i < |steps| ==> Valid(steps[i]) }

  function Total(steps: seq<Step>): nat
    requires AllValid(steps)
  {
    if steps == [] then 0 else Total(steps[..|steps| - 1]) + Size(steps[|steps| - 1])
  }

  /** The unwind instructions of a prologue: the last step is undone first. */
  function UnwindCode(steps: seq<Step>): seq<Byte>
    requires AllValid(steps)
  {
    if steps == [] then [] else Opcodes(steps[|steps| - 1]) + UnwindCode(steps[..|steps| - 1])
  }

  predicate Pushed(steps: seq<Step>, r: nat)
    requires AllValid(steps)
  {
    exists i :: 0 <= i < |steps| && r in Regs(steps[i])
  }

  // --------------------------------------------------- running a prologue

  function StoreWord(m: Memory, a: nat, v: nat): Memory
    requires a + 4 <= TWO32
  {
    var bs := ToLE(v, 4);
    m[a := bs[0]][a + 1 := bs[1]][a + 2 := bs[2]][a + 3 := bs[3]]
  }

  function StoreWords(m: Memory, a: nat, rs: seq<nat>, regs: seq<nat>): Memory
    requires |regs| == 16 && a + 4 * |rs| <= TWO32 && forall i :: 0 <= i < |rs| ==> rs[i] < 16
    decreases |rs|
  {
    if rs == [] then m else StoreWords(StoreWord(m, a, regs[rs[0]]), a + 4, rs[1..], regs)
  }

  /** Memory after the prologue. The bytes under a VFP save may be anything. */
  function Execute(m: Memory, regs: seq<nat>, sp: nat, steps: seq<Step>): Memory
    requires |regs| == 16 && AllValid(steps) && Total(steps) <= sp < TWO32
  {
    if steps == [] then m
    else
      var front, last := steps[..|steps| - 1], steps[|steps| - 1];
      StoreWords(Execute(m, regs, sp, front), sp - Total(steps), Regs(last), regs)
  }

  // -------------------------------------------------- what the frame holds

  predicate WordsAt(m: Memory, a: nat, rs: seq<nat>, regs: seq<nat>)
    requires |regs| == 16 && forall i :: 0 <= i < |rs| ==> rs[i] < 16
  {
    forall i :: 0 <= i < |rs| ==> ReadLE(m, a + 4 * i, 4) == Some(regs[rs[i]])
  }

  /** Every pushed register is still in its stack slot. */
  predicate Saved(m: Memory, regs: seq<nat>, sp: nat, steps: seq<Step>)
    requires |regs| == 16 && AllValid(steps) && Total(steps) <= sp
  {
    steps == [] ||
    var front, last := steps[..|steps| - 1], steps[|steps| - 1];
    Saved(m, regs, sp, front) && WordsAt(m, sp - Total(steps), Regs(last), regs)
  }

  predicate AreWords(regs: seq<nat>) { |regs| == 16 && forall i :: 0 <= i < 16 ==> regs[i] < TWO32 }

  lemma StoredWord(m: Memory, a: nat, v: nat)
    requires a + 4 <= TWO32 && v < TWO32
    ensures ReadLE(StoreWord(m, a, v), a, 4) == Some(v)
  {
    var m' := StoreWord(m, a, v);
    assert Pow256(2) == 0x1_0000 && Pow256(4) == TWO32;
    ToLERoundTrip(v, 4);
    assert Fetch(m', a, 4) == ToLE(v, 4);
  }

  /** The two memories agree outside [lo, hi). */
  ghost predicate SameOutside(m: Memory, n: Memory, lo: nat, hi: nat) {
    forall k: nat :: k < lo || hi <= k ==> (k in m <==> k in n) && (k in m ==> m[k] == n[k])
  }

  lemma ReadSame(m: Memory, n: Memory, lo: nat, hi: nat, k: nat)
    requires SameOutside(m, n, lo, hi) && (k + 4 <= lo || hi <= k)
    ensures ReadLE(m, k, 4) == ReadLE(n, k, 4)
  {
    assert Readable(m, k, 4) <==> Readable(n, k, 4);
    if Readable(m, k, 4) {
      assert Fetch(m, k, 4) == Fetch(n, k, 4);
    }
  }

  lemma {:induction false} StoresWithin(m: Memory, a: nat, rs: seq<nat>, regs: seq<nat>)
    requires AreWords(regs) && a + 4 * |rs| <= TWO32 && forall i :: 0 <= i < |rs| ==> rs[i] < 16
    ensures SameOutside(m, StoreWords(m, a, rs, regs), a, a + 4 * |rs|)
    decreases |rs|
  {
    if rs != [] {
      StoresWithin(StoreWord(m, a, regs[rs[0]]), a + 4, rs[1..], regs);
    }
  }

  lemma {:induction false} StoresWords(m: Memory, a: nat, rs: seq<nat>, regs: seq<nat>)
    requires AreWords(regs) && a + 4 * |rs| <= TWO32 && forall i :: 0 <= i < |rs| ==> rs[i] < 16
    ensures WordsAt(StoreWords(m, a, rs, regs), a, rs, regs)
    decreases |rs|
  {
    hide StoreWord;
    hide ReadLE;
    if rs != [] {
      var m1 := StoreWord(m, a, regs[rs[0]]);
      var m2 := StoreWords(m1, a + 4, rs[1..], regs);
      StoredWord(m, a, regs[rs[0]]);
      StoresWithin(m1, a + 4, rs[1..], regs);
      ReadSame(m1, m2, a + 4, a + 4 * |rs|, a);
      StoresWords(m1, a + 4, rs[1..], regs);
      forall i | 0 <= i < |rs| ensures ReadLE(m2, a + 4 * i, 4) == Some(regs[rs[i]]) {
        if i > 0 {
          assert a + 4 * i == a + 4 + 4 * (i - 1) && rs[1..][i - 1] == rs[i];
        }
      }
    }
  }

  lemma {:induction false} SavedSame(m: Memory, n: Memory, lo: nat, hi: nat, regs: seq<nat>, sp: nat, steps: seq<Step>)
    requires |regs| == 16 && AllValid(steps) && Total(steps) <= sp && hi <= sp - Total(steps)
    requires SameOutside(m, n, lo, hi) && Saved(m, regs, sp, steps)
    ensures Saved(n, regs, sp, steps)
    decreases |steps|
  {
    hide Regs;
    hide Size;
    hide ReadLE;
    hide SameOutside;
    if steps != [] {
      var front, last := steps[..|steps| - 1], steps[|steps| - 1];
      SavedSame(m, n, lo, hi, regs, sp, front);
      var a := sp - Total(steps);
      forall i | 0 <= i < |Regs(last)| ensures ReadLE(n, a + 4 * i, 4) == Some(regs[Regs(last)[i]]) {
        ReadSame(m, n, lo, hi, a + 4 * i);
      }
    }
  }

  lemma SizeCoversRegs(s: Step)
    requires Valid(s)
    ensures 4 * |Regs(s)| <= Size(s)
  {
  }

  /** A prologue leaves every register it pushes in its slot: later steps write
      only below the earlier ones. */
  lemma {:induction false} ExecuteSaves(m: Memory, regs: seq<nat>, sp: nat, steps: seq<Step>)
    requires AreWords(regs) && AllValid(steps) && Total(steps) <= sp < TWO32
    ensures Saved(Execute(m, regs, sp, steps), regs, sp, steps)
    decreases |steps|
  {
    hide StoreWords;
    hide ReadLE;
    hide Size;
    hide Regs;
    if steps != [] {
      var front, last := steps[..|steps| - 1], steps[|steps| - 1];
      SizeCoversRegs(last);
      ExecuteSaves(m, regs, sp, front);
      var m1, a := Execute(m, regs, sp, front), sp - Total(steps);
      StoresWithin(m1, a, Regs(last), regs);
      StoresWords(m1, a, Regs(last), regs);
      SavedSame(m1, StoreWords(m1, a, Regs(last), regs), a, a + 4 * |Regs(last)|, regs, sp, front);
    }
  }

  // -------------------------------------------------------------- unwinding

  /** Registers in the list take their value from `from`, the others keep theirs. */
  function Overlay(regs: seq<nat>, from: seq<nat>, rs: seq<nat>): (s: seq<nat>)
    requires |regs| == |from| == 16
    ensures |s| == 16
  {
    seq(16, r requires 0 <= r < 16 => if r in rs then from[r] else regs[r])
  }

  lemma {:induction false} PopRestores(m: Memory, rs: seq<nat>, cfa: nat, regs: seq<nat>, from: seq<nat>)
    requires |regs| == |from| == 16 && (forall i :: 0 <= i < |rs| ==> rs[i] < 16)
    requires WordsAt(m, cfa, rs, from) && cfa + 4 * |rs| < TWO32
    ensures Pop(m, rs, cfa, regs) == Some((cfa + 4 * |rs|, Overlay(regs, from, rs)))
    decreases |rs|
  {
    hide ReadLE;
    if rs == [] {
      assert Overlay(regs, from, rs) == regs;
    } else {
      WrapSmall(W32, cfa + 4);
      var rest, regs1 := rs[1..], regs[rs[0] := from[rs[0]]];
      assert ReadLE(m, cfa + 4 * 0, 4) == Some(from[rs[0]]);
      forall i | 0 <= i < |rest| ensures ReadLE(m, cfa + 4 + 4 * i, 4) == Some(from[rest[i]]) {
        assert rest[i] == rs[i + 1] && cfa + 4 + 4 * i == cfa + 4 * (i + 1);
      }
      PopRestores(m, rest, cfa + 4, regs1, from);
      assert Overlay(regs1, from, rest) == Overlay(regs, from, rs);
    }
  }

  /** A mask lists exactly the registers whose bits it has, in ascending order, so that
      the lowest register is at the lowest address. */
  lemma {:induction false} MaskListsBits(mask: nat, reg: nat, limit: nat, r: nat)
    ensures r in MaskRegs(mask, reg, limit) <==> reg <= r < limit && BitAt(mask, r - reg)
    ensures forall i, j :: 0 <= i < j < |MaskRegs(mask, reg, limit)| ==> MaskRegs(mask, reg, limit)[i] < MaskRegs(mask, reg, limit)[j]
    decreases limit - reg
  {
    if reg < limit {
      MaskListsBits(mask / 2, reg + 1, limit, r);
    }
  }

  lemma {:induction false} LebLengthFound(bs: seq<Byte>, rest: seq<Byte>)
    requires IsLeb(bs)
    ensures LebLength(bs + rest) == Some(|bs|)
    decreases |bs|
  {
    if |bs| > 1 {
      assert (bs + rest)[1..] == bs[1..] + rest;
      LebLengthFound(bs[1..], rest);
    }
  }

  /** The state before a step is undone, and after. */
  predicate Undoes(m: Memory, s: Step, rest: seq<Byte>, cfa: nat, regs: seq<nat>, from: seq<nat>)
    requires Valid(s) && |regs| == |from| == 16
  {
    DecodeStep(m, Arm(Opcodes(s) + rest, cfa, regs, false))
    == Go(Arm(rest, cfa + Size(s), Overlay(regs, from, Regs(s)), false))
  }

  /** A pop instruction, once its register list is known. */
  lemma PoppedRestores(m: Memory, a: Arm, data: seq<Byte>, rs: seq<nat>, from: seq<nat>)
    requires |a.regs| == |from| == 16 && (forall i :: 0 <= i < |rs| ==> rs[i] < 16)
    requires WordsAt(m, a.cfa, rs, from) && a.cfa + 4 * |rs| < TWO32
    ensures Popped(m, a, data, rs) == Go(Arm(data, a.cfa + 4 * |rs|, Overlay(a.regs, from, rs), a.pcSet))
  {
    PopRestores(m, rs, a.cfa, a.regs, from);
  }

  lemma PushHighUndone(m: Memory, mask: nat, rest: seq<Byte>, cfa: nat, regs: seq<nat>, from: seq<nat>)
    requires Valid(PushHigh(mask)) && |regs| == |from| == 16
    requires WordsAt(m, cfa, Regs(PushHigh(mask)), from) && cfa + Size(PushHigh(mask)) < TWO32
    ensures Undoes(m, PushHigh(mask), rest, cfa, regs, from)
  {
    hide MaskRegs;
    hide WordsAt;
    hide DecodeStep;
    hide BitAt;
    HighPop(m, mask, rest, cfa, regs, from);
  }

  /** A pop under a mask of r4 to r15, sp and pc included: the listed registers take the
      stored words; a popped sp becomes the vsp, and a popped pc is remembered as such. */
  lemma HighPop(m: Memory, mask: nat, rest: seq<Byte>, cfa: nat, regs: seq<nat>, from: seq<nat>)
    requires 0 < mask < 4096 && |regs| == |from| == 16
    requires WordsAt(m, cfa, MaskRegs(mask, 4, 16), from) && cfa + 4 * |MaskRegs(mask, 4, 16)| < TWO32
    ensures var rs := MaskRegs(mask, 4, 16);
      DecodeStep(m, Arm([0x80 + mask / 256, mask % 256] + rest, cfa, regs, false))
      == Go(Arm(rest, if BitAt(mask, 9) then from[SP] else cfa + 4 * |rs|, Overlay(regs, from, rs), BitAt(mask, 11)))
  {
    hide Pop;
    hide MaskRegs;
    hide WordsAt;
    hide BitAt;
    var rs := MaskRegs(mask, 4, 16);
    var data := [0x80 + mask / 256, mask % 256] + rest;
    var a := Arm(data, cfa, regs, false);
    assert data[1..][1..] == rest;
    var high: int, low: int := data[0], data[1..][0];
    assert high % 16 * 256 + low == mask by {
      assert 0 <= mask / 256 < 16;
      assert (0x80 + mask / 256) % 16 == mask / 256;
    }
    assert DecodeStep(m, a) == ArmExidx.PopHigh(m, a, rest, mask);
    PoppedRestores(m, a, rest, rs, from);
    MaskListsBits(mask, 4, 16, SP);
    MaskListsBits(mask, 4, 16, PC);
  }

  /** An empty mask refuses to unwind. */
  lemma EmptyPopRefuses(m: Memory, rest: seq<Byte>, cfa: nat, regs: seq<nat>)
    requires |regs| == 16
    ensures DecodeStep(m, Arm([0x80, 0x00] + rest, cfa, regs, false)) == Stop(NoUnwind)
  {
    hide Pop;
    hide MaskRegs;
    var data := [0x80, 0x00] + rest;
    assert data[1..][0] == 0;
  }

  lemma PushRangeUndone(m: Memory, n: nat, lr: bool, rest: seq<Byte>, cfa: nat, regs: seq<nat>, from: seq<nat>)
    requires Valid(PushRange(n, lr)) && |regs| == |from| == 16
    requires WordsAt(m, cfa, Regs(PushRange(n, lr)), from) && cfa + Size(PushRange(n, lr)) < TWO32
    ensures Undoes(m, PushRange(n, lr), rest, cfa, regs, from)
  {
    hide Pop;
    hide RangeRegs;
    hide Overlay;
    hide WordsAt;
    var rs := Regs(PushRange(n, lr));
    var data := Opcodes(PushRange(n, lr)) + rest;
    var a := Arm(data, cfa, regs, false);
    assert data[1..] == rest;
    assert DecodeStep(m, a) == Popped(m, a, rest, rs);
    PoppedRestores(m, a, rest, rs, from);
  }

  lemma PushLowUndone(m: Memory, mask: nat, rest: seq<Byte>, cfa: nat, regs: seq<nat>, from: seq<nat>)
    requires Valid(PushLow(mask)) && |regs| == |from| == 16
    requires WordsAt(m, cfa, Regs(PushLow(mask)), from) && cfa + Size(PushLow(mask)) < TWO32
    ensures Undoes(m, PushLow(mask), rest, cfa, regs, from)
  {
    hide Pop;
    hide MaskRegs;
    hide Overlay;
    hide WordsAt;
    var data := Opcodes(PushLow(mask)) + rest;
    var a := Arm(data, cfa, regs, false);
    assert data[1..][1..] == rest;
    assert DecodeStep(m, a) == Popped(m, a, rest, MaskRegs(mask, 0, 4));
    PoppedRestores(m, a, rest, MaskRegs(mask, 0, 4), from);
  }

  lemma LargeUndone(m: Memory, u: nat, rest: seq<Byte>, cfa: nat, regs: seq<nat>, from: seq<nat>)
    requires Valid(SubLarge(u)) && |regs| == |from| == 16 && cfa + Size(SubLarge(u)) < TWO32
    ensures Undoes(m, SubLarge(u), rest, cfa, regs, from)
  {
    var leb := EncodeUleb(u);
    var data := Opcodes(SubLarge(u)) + rest;
    assert data[1..] == leb + rest;
    LebLengthFound(leb, rest);
    assert (leb + rest)[..|leb|] == leb && (leb + rest)[|leb|..] == rest;
    EncodeUlebValue(u);
    assert Overlay(regs, from, []) == regs;
  }

  /** An instruction that only moves the stack pointer, once it is decoded. */
  lemma MovedUndone(m: Memory, s: Step, rest: seq<Byte>, cfa: nat, regs: seq<nat>, from: seq<nat>)
    requires Valid(s) && Regs(s) == [] && |regs| == |from| == 16 && cfa + Size(s) < TWO32
    requires var a := Arm(Opcodes(s) + rest, cfa, regs, false);
      DecodeStep(m, a) == Moved(a, rest, Size(s))
    ensures Undoes(m, s, rest, cfa, regs, from)
  {
    hide DecodeStep;
    hide Opcodes;
    hide Size;
    WrapSmall(W32, cfa + Size(s));
    assert Overlay(regs, from, []) == regs;
  }

  lemma OneByteMove(m: Memory, s: Step, rest: seq<Byte>, cfa: nat, regs: seq<nat>)
    requires Valid(s) && (s.Sub? || s.SaveXFrom8? || s.SaveFrom8?) && |regs| == 16
    ensures var a := Arm(Opcodes(s) + rest, cfa, regs, false);
      DecodeStep(m, a) == Moved(a, rest, Size(s))
  {
    hide Moved;
    hide Popped;
    hide PopHigh;
    hide MaskRegs;
    hide RangeRegs;
    hide LebLength;
    hide UlebValue;
    hide EncodeUleb;
    assert (Opcodes(s) + rest)[1..] == rest;
  }

  /** Instructions with an operand byte. */
  lemma OperandFollows(m: Memory, op: Byte, x: Byte, rest: seq<Byte>, cfa: nat, regs: seq<nat>)
    requires (op == 0xb3 || op == 0xc8 || op == 0xc9) && |regs| == 16
    ensures var a := Arm([op, x] + rest, cfa, regs, false);
      DecodeStep(m, a) == Moved(a, rest, x % 16 * 8 + if op == 0xb3 then 12 else 8)
  {
    hide Moved;
    hide Popped;
    hide PopHigh;
    hide MaskRegs;
    hide RangeRegs;
    hide LebLength;
    hide UlebValue;
    var data := [op, x] + rest;
    assert data[1..] == [x] + rest && data[1..][1..] == rest;
  }

  lemma TwoByteMove(m: Memory, s: Step, rest: seq<Byte>, cfa: nat, regs: seq<nat>)
    requires Valid(s) && (s.SaveX? || s.Save?) && |regs| == 16
    ensures var a := Arm(Opcodes(s) + rest, cfa, regs, false);
      DecodeStep(m, a) == Moved(a, rest, Size(s))
  {
    hide Moved;
    hide DecodeStep;
    hide EncodeUleb;
    hide MaskRegs;
    hide RangeRegs;
    var op := if s.SaveX? then 0xb3 else if s.high then 0xc8 else 0xc9;
    var x := s.first * 16 + s.count;
    LowNibble(s.first, s.count);
    assert Opcodes(s) == [op, x] && Size(s) == s.count * 8 + if op == 0xb3 then 12 else 8;
    OperandFollows(m, op, x, rest, cfa, regs);
  }

  lemma LowNibble(high: nat, low: nat)
    requires high < 16 && low < 16
    ensures high * 16 + low < 256 && (high * 16 + low) % 16 == low
  {
  }

  lemma StepUndone(m: Memory, s: Step, rest: seq<Byte>, cfa: nat, regs: seq<nat>, from: seq<nat>)
    requires Valid(s) && |regs| == |from| == 16
    requires WordsAt(m, cfa, Regs(s), from) && cfa + Size(s) < TWO32
    ensures Undoes(m, s, rest, cfa, regs, from)
  {
    hide Undoes;
    hide DecodeStep;
    hide Moved;
    match s
    case PushHigh(mask) => PushHighUndone(m, mask, rest, cfa, regs, from);
    case PushRange(n, lr) => PushRangeUndone(m, n, lr, rest, cfa, regs, from);
    case PushLow(mask) => PushLowUndone(m, mask, rest, cfa, regs, from);
    case SubLarge(u) => LargeUndone(m, u, rest, cfa, regs, from);
    case SaveX(_, _) =>
      TwoByteMove(m, s, rest, cfa, regs);
      MovedUndone(m, s, rest, cfa, regs, from);
    case Save(_, _, _) =>
      TwoByteMove(m, s, rest, cfa, regs);
      MovedUndone(m, s, rest, cfa, regs, from);
    case _ =>
      OneByteMove(m, s, rest, cfa, regs);
      MovedUndone(m, s, rest, cfa, regs, from);
  }

  /** Pushed registers have the value from before the prologue, the others are untouched. */
  function Restored(steps: seq<Step>, from: seq<nat>, regs: seq<nat>): (s: seq<nat>)
    requires AllValid(steps) && |regs| == |from| == 16
    ensures |s| == 16
  {
    seq(16, r requires 0 <= r < 16 => if Pushed(steps, r) then from[r] else regs[r])
  }

  /** The instructions of a prologue, whatever follows them and whatever the body did
      to the registers, lead to the caller's stack pointer and registers. */
  lemma {:induction false} UnwindThrough(m: Memory, from: seq<nat>, sp: nat, steps: seq<Step>, regs: seq<nat>, tail: seq<Byte>)
    requires |regs| == |from| == 16 && AllValid(steps) && Total(steps) <= sp < TWO32
    requires Saved(m, from, sp, steps)
    ensures Evaluate(m, Arm(UnwindCode(steps) + tail, sp - Total(steps), regs, false))
         == Evaluate(m, Arm(tail, sp, Restored(steps, from, regs), false))
    decreases |steps|
  {
    hide DecodeStep;
    hide Opcodes;
    hide Regs;
    hide Size;
    hide WordsAt;
    hide Evaluate;
    hide Overlay;
    if steps == [] {
      assert UnwindCode(steps) + tail == tail;
      assert Restored(steps, from, regs) == regs;
    } else {
      var front, last := steps[..|steps| - 1], steps[|steps| - 1];
      var cfa, rest := sp - Total(steps), UnwindCode(front) + tail;
      assert UnwindCode(steps) + tail == Opcodes(last) + rest;
      StepUndone(m, last, rest, cfa, regs, from);
      var regs1 := Overlay(regs, from, Regs(last));
      EvaluateGo(m, Arm(Opcodes(last) + rest, cfa, regs, false));
      UnwindThrough(m, from, sp, front, regs1, tail);
      assert steps == front + [last];
      RestoredSnoc(front, last, from, regs);
    }
  }

  /** Evaluation goes on behind an instruction that does not stop. */
  lemma EvaluateGo(m: Memory, a: Arm)
    requires |a.regs| == 16 && DecodeStep(m, a).Go?
    ensures Evaluate(m, a) == Evaluate(m, DecodeStep(m, a).arm)
  {
    hide DecodeStep;
  }

  lemma RestoredSnoc(front: seq<Step>, last: Step, from: seq<nat>, regs: seq<nat>)
    requires AllValid(front) && Valid(last) && AllValid(front + [last]) && |regs| == |from| == 16
    ensures Restored(front, from, Overlay(regs, from, Regs(last))) == Restored(front + [last], from, regs)
  {
    hide Regs;
    hide Pushed;
    forall r | 0 <= r < 16
      ensures Restored(front, from, Overlay(regs, from, Regs(last)))[r] == Restored(front + [last], from, regs)[r]
    {
      PushedSnoc(front, last, r);
    }
  }

  /** A prologue may keep its stack pointer in a register; the body can then move sp
      freely. The first instruction takes it from there, whatever the vsp was. */
  lemma FrameRegisterFirst(m: Memory, r: nat, code: seq<Byte>, vsp: nat, regs: seq<nat>)
    requires |regs| == 16 && IsFrameRegister(r)
    ensures Evaluate(m, Arm([0x90 + r] + code, vsp, regs, false)) == Evaluate(m, Arm(code, regs[r], regs, false))
  {
    assert ([0x90 + r] + code)[1..] == code;
    assert DecodeStep(m, Arm([0x90 + r] + code, vsp, regs, false)) == Go(Arm(code, regs[r], regs, false)) by {
      hide Pop;
      hide MaskRegs;
      hide RangeRegs;
    }
    hide DecodeStep;
  }

  /** One-byte instructions that only move the vsp, 00xxxxxx and 01xxxxxx. */
  predicate AreMoves(moves: seq<Byte>) { forall i :: 0 <= i < |moves| ==> moves[i] < 0x80 }

  /** The vsp after such moves. */
  function AfterMoves(vsp: nat, moves: seq<Byte>): nat
    requires AreMoves(moves)
    decreases |moves|
  {
    if moves == [] then vsp
    else
      var op: int := moves[0];
      AfterMoves(Wrap(W32, vsp + if op < 0x40 then op * 4 + 4 else -(op % 64 * 4 + 4)), moves[1..])
  }

  lemma MoveDecodes(m: Memory, op: Byte, code: seq<Byte>, vsp: nat, regs: seq<nat>)
    requires |regs| == 16 && op < 0x80
    ensures var delta := if op < 0x40 then op * 4 + 4 else -(op % 64 * 4 + 4);
      DecodeStep(m, Arm([op] + code, vsp, regs, false)) == Go(Arm(code, Wrap(W32, vsp + delta), regs, false))
  {
    hide Pop;
    hide MaskRegs;
    hide RangeRegs;
    hide Wrap;
    assert ([op] + code)[1..] == code;
  }

  /** Moves in front of other instructions only change where these start. */
  lemma {:induction false} MovesFirst(m: Memory, moves: seq<Byte>, code: seq<Byte>, vsp: nat, regs: seq<nat>)
    requires |regs| == 16 && AreMoves(moves)
    ensures Evaluate(m, Arm(moves + code, vsp, regs, false)) == Evaluate(m, Arm(code, AfterMoves(vsp, moves), regs, false))
    decreases |moves|
  {
    hide DecodeStep;
    hide Evaluate;
    hide Wrap;
    if moves == [] {
      assert moves + code == code;
    } else {
      var rest := moves[1..];
      assert moves + code == [moves[0]] + (rest + code);
      MoveDecodes(m, moves[0], rest + code, vsp, regs);
      EvaluateGo(m, Arm(moves + code, vsp, regs, false));
      MovesFirst(m, rest, code, DecodeStep(m, Arm(moves + code, vsp, regs, false)).arm.cfa, regs);
    }
  }

  predicate IsFrameRegister(r: nat) { r < 16 && r != SP && r != PC }

  /** Unwinding undoes the prologue exactly if a finish instruction follows; without
      one the data runs out. */
  lemma UnwindUndoesPrologue(m: Memory, from: seq<nat>, sp: nat, steps: seq<Step>, regs: seq<nat>, padding: seq<Byte>)
    requires |regs| == |from| == 16 && AllValid(steps) && Total(steps) <= sp < TWO32
    requires Saved(m, from, sp, steps)
    ensures Evaluate(m, Arm(UnwindCode(steps) + ([OP_FINISH] + padding), sp - Total(steps), regs, false))
         == Finished(Arm(padding, sp, Restored(steps, from, regs), false))
    ensures Evaluate(m, Arm(UnwindCode(steps), sp - Total(steps), regs, false)) == Failed(Truncated)
  {
    UnwindThrough(m, from, sp, steps, regs, [OP_FINISH] + padding);
    UnwindThrough(m, from, sp, steps, regs, []);
    assert UnwindCode(steps) + [] == UnwindCode(steps);
    assert ([OP_FINISH] + padding)[1..] == padding;
  }

  lemma PushedSnoc(steps: seq<Step>, s: Step, r: nat)
    requires AllValid(steps) && Valid(s)
    ensures AllValid(steps + [s]) && (Pushed(steps + [s], r) <==> Pushed(steps, r) || r in Regs(s))
  {
    var all := steps + [s];
    assert all[|steps|] == s;
    if Pushed(steps, r) {
      var i :| 0 <= i < |steps| && r in Regs(steps[i]);
      assert all[i] == steps[i];
    }
  }

  /** The prologue run and undone: from any memory and any registers, with the
      registers clobbered in between. */
  lemma RunAndUnwind(m: Memory, from: seq<nat>, sp: nat, steps: seq<Step>, regs: seq<nat>, padding: seq<Byte>)
    requires AreWords(from) && |regs| == 16 && AllValid(steps) && Total(steps) <= sp < TWO32
    ensures Evaluate(Execute(m, from, sp, steps), Arm(UnwindCode(steps) + ([OP_FINISH] + padding), sp - Total(steps), regs, false))
         == Finished(Arm(padding, sp, Restored(steps, from, regs), false))
  {
    hide Evaluate;
    hide Execute;
    hide Saved;
    ExecuteSaves(m, from, sp, steps);
    UnwindUndoesPrologue(Execute(m, from, sp, steps), from, sp, steps, regs, padding);
  }
}
