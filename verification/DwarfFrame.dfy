/** A function's prologue, the call-frame instructions that describe it, and the proof
    that the rules of any row of them give back the caller's registers. */
module DwarfFrame {
  import opened Machine
  import opened DwarfMemory
  import opened DwarfCfa
  import opened CfaCode
  import Eval = DwarfEval

  // ------------------------------------------------------------- prologues

  /** Save a register below what is on the stack, make room, or keep the stack pointer
      in a frame register. */
  datatype Step = Push(reg: nat) | Lower(words: nat) | SetFrame(reg: nat)

  /** A step and its length in units of the code alignment. */
  datatype Placed = Placed(step: Step, length: nat)

  /** The stack pointer and the return address column; a call stores the return address
      on the stack or leaves it in that register. */
  datatype Convention = Convention(sp: nat, ra: nat, stored: bool)

  /** What a part of a prologue has built, in words below the caller's stack pointer: the
      base register and its distance, the depth of the stack, the slots of registers. */
  datatype Layout = Layout(base: nat, distance: nat, depth: nat, slots: map<nat, nat>)

  function AtEntry(c: Convention): Layout {
    if c.stored then Layout(c.sp, 1, 1, map[c.ra := 1]) else Layout(c.sp, 0, 0, map[])
  }

  /** The stack pointer has moved down. */
  function Deeper(c: Convention, l: Layout, words: nat): Layout {
    l.(depth := l.depth + words, distance := if l.base == c.sp then l.depth + words else l.distance)
  }

  function After(c: Convention, l: Layout, step: Step): Layout {
    match step
    case Push(r) =>
      if r in l.slots then Deeper(c, l, 1) else Deeper(c, l, 1).(slots := l.slots[r := l.depth + 1])
    case Lower(words) => Deeper(c, l, words)
    case SetFrame(r) => l.(base := r, distance := l.depth)
  }

  function AfterAll(c: Convention, l: Layout, steps: seq<Placed>): Layout
    decreases |steps|
  {
    if steps == [] then l else AfterAll(c, After(c, l, steps[0].step), steps[1..])
  }

  /** Only general registers are saved; there is one frame register, which takes the stack
      pointer once the caller's value of it is saved. */
  predicate Allowed(c: Convention, l: Layout, step: Step, total: nat) {
    match step
    case Push(r) => r < total && r != c.sp
    case Lower(_) => true
    case SetFrame(r) => r in l.slots && r != c.ra && l.base == c.sp
  }

  predicate AllAllowed(c: Convention, l: Layout, steps: seq<Placed>, total: nat)
    decreases |steps|
  {
    steps == [] || (Allowed(c, l, steps[0].step, total) && AllAllowed(c, After(c, l, steps[0].step), steps[1..], total))
  }

  // -------------------------------------------------------- the running code

  function StoreBytes(m: Memory, a: nat, bs: seq<Byte>): Memory
    requires a + |bs| < TWO64
    decreases |bs|
  {
    if bs == [] then m else StoreBytes(m[a := bs[0]], a + 1, bs[1..])
  }

  lemma {:induction false} StoreOutside(m: Memory, a: nat, bs: seq<Byte>, k: nat)
    requires a + |bs| < TWO64 && (k < a || a + |bs| <= k)
    ensures k in StoreBytes(m, a, bs) <==> k in m
    ensures k in m ==> StoreBytes(m, a, bs)[k] == m[k]
    decreases |bs|
  {
    if bs != [] {
      StoreOutside(m[a := bs[0]], a + 1, bs[1..], k);
    }
  }

  lemma {:induction false} StoreHolds(m: Memory, a: nat, bs: seq<Byte>)
    requires a + |bs| < TWO64
    ensures Holds(StoreBytes(m, a, bs), a, bs)
    decreases |bs|
  {
    if bs != [] {
      StoreHolds(m[a := bs[0]], a + 1, bs[1..]);
      StoreOutside(m[a := bs[0]], a + 1, bs[1..], a);
      assert bs == [bs[0]] + bs[1..];
      HoldsAppend(StoreBytes(m, a, bs), a, [bs[0]], bs[1..]);
    }
  }

  /** What was stored elsewhere stays. */
  lemma StoreKeeps(m: Memory, a: nat, bs: seq<Byte>, b: nat, cs: seq<Byte>)
    requires a + |bs| < TWO64 && Holds(m, b, cs) && (b + |cs| <= a || a + |bs| <= b)
    ensures Holds(StoreBytes(m, a, bs), b, cs)
  {
    forall k | b <= k < b + |cs| ensures k in StoreBytes(m, a, bs) && StoreBytes(m, a, bs)[k] == cs[k - b] {
      StoreOutside(m, a, bs, k);
    }
  }

  datatype Thread = Thread(regs: seq<nat>, mem: Memory)

  function WordBytes(w: Width, words: nat): nat { if w.W32? then 4 * words else 8 * words }

  /** The address a number of words below another one. */
  function Below(w: Width, top: nat, words: nat): int { top - WordBytes(w, words) }

  /** The word is stored at that place. */
  predicate Word(w: Width, m: Memory, a: int, v: nat) { a >= 0 && Holds(m, a, ToLE(v, w.Size())) }

  function Stored(w: Width, m: Thread, sp: nat, a: nat, v: nat): Thread
    requires a + w.Size() < TWO64 && sp < |m.regs|
  {
    Thread(m.regs[sp := a], StoreBytes(m.mem, a, ToLE(v, w.Size())))
  }

  /** One step of the prologue on a machine whose stack has room for it. */
  function Executed(w: Width, c: Convention, m: Thread, step: Step): Thread
    requires c.sp < |m.regs| && m.regs[c.sp] < TWO64
    requires step.Push? ==> step.reg < |m.regs| && Below(w, m.regs[c.sp], 1) >= 0
    requires step.Lower? ==> Below(w, m.regs[c.sp], step.words) >= 0
    requires step.SetFrame? ==> step.reg < |m.regs|
  {
    match step
    case Push(r) => Stored(w, m, c.sp, Below(w, m.regs[c.sp], 1), m.regs[r])
    case Lower(words) => m.(regs := m.regs[c.sp := Below(w, m.regs[c.sp], words)])
    case SetFrame(r) => m.(regs := m.regs[r := m.regs[c.sp]])
  }

  /** The machine at the function's first instruction, given the registers the caller has
      when the function returns: its return address is their column for it. */
  function Called(w: Width, c: Convention, from: seq<nat>, mem: Memory): Thread
    requires c.sp < |from| && c.ra < |from| && Below(w, from[c.sp], 1) >= 0 && from[c.sp] < TWO64
  {
    var m := Thread(from, mem);
    if c.stored then Stored(w, m, c.sp, Below(w, from[c.sp], 1), from[c.ra]) else m
  }

  /** The saved registers are in their slots, at or above the stack pointer. */
  predicate SlotsHold(w: Width, l: Layout, from: seq<nat>, top: nat, mem: Memory) {
    forall r :: r in l.slots ==>
      r < |from| && 1 <= l.slots[r] <= l.depth && Word(w, mem, Below(w, top, l.slots[r]), from[r])
  }

  /** The layout is true of the machine, and what is not saved is as the caller had it. */
  predicate Built(w: Width, c: Convention, l: Layout, from: seq<nat>, m: Thread) {
    && |m.regs| == |from| && c.sp < |from| && c.ra < |from| && c.sp != c.ra && c.sp !in l.slots && l.base < |from|
    && m.regs[c.sp] == Below(w, from[c.sp], l.depth) && m.regs[l.base] == Below(w, from[c.sp], l.distance)
    && (l.base != c.sp ==> l.base in l.slots && l.base != c.ra)
    && (forall r :: 0 <= r < |from| && r != c.sp && r !in l.slots ==> m.regs[r] == from[r])
    && SlotsHold(w, l, from, from[c.sp], m.mem)
  }

  /** Room for a layout below the caller's stack pointer. */
  predicate HasRoom(w: Width, l: Layout, top: nat) { top < w.Modulus() && Below(w, top, l.depth) >= 0 }

  lemma WordStored(w: Width, l: Layout, from: seq<nat>, top: nat, m: Thread, sp: nat, v: nat)
    requires SlotsHold(w, l, from, top, m.mem) && top < TWO64 && Below(w, top, l.depth + 1) >= 0 && sp < |m.regs|
    ensures var after := Stored(w, m, sp, Below(w, top, l.depth + 1), v);
      SlotsHold(w, l, from, top, after.mem) && Word(w, after.mem, Below(w, top, l.depth + 1), v)
  {
    var a := Below(w, top, l.depth + 1);
    var bs := ToLE(v, w.Size());
    StoreHolds(m.mem, a, bs);
    forall r | r in l.slots ensures Word(w, StoreBytes(m.mem, a, bs), Below(w, top, l.slots[r]), from[r]) {
      StoreKeeps(m.mem, a, bs, Below(w, top, l.slots[r]), ToLE(from[r], w.Size()));
    }
  }

  /** A new slot below the others. */
  lemma SlotAdded(w: Width, l: Layout, now: Layout, from: seq<nat>, top: nat, mem: Memory, r: nat)
    requires SlotsHold(w, l, from, top, mem) && r < |from| && now.depth == l.depth + 1
    requires now.slots == (if r in l.slots then l.slots else l.slots[r := l.depth + 1])
    requires r !in l.slots ==> Word(w, mem, Below(w, top, l.depth + 1), from[r])
    ensures SlotsHold(w, now, from, top, mem)
  {
    hide Word;
    hide Below;
  }

  lemma PushBuilds(w: Width, c: Convention, l: Layout, from: seq<nat>, m: Thread, r: nat)
    requires Built(w, c, l, from, m) && r < |from| && r != c.sp && HasRoom(w, After(c, l, Push(r)), from[c.sp])
    ensures m.regs[c.sp] < TWO64 && Below(w, m.regs[c.sp], 1) >= 0
    ensures Built(w, c, After(c, l, Push(r)), from, Executed(w, c, m, Push(r)))
  {
    hide Word;
    hide SlotsHold;
    hide StoreBytes;
    var top, now := from[c.sp], After(c, l, Push(r));
    assert Below(w, m.regs[c.sp], 1) == Below(w, top, l.depth + 1);
    WordStored(w, l, from, top, m, c.sp, m.regs[r]);
    SlotAdded(w, l, now, from, top, Executed(w, c, m, Push(r)).mem, r);
  }

  lemma LowerBuilds(w: Width, c: Convention, l: Layout, from: seq<nat>, m: Thread, words: nat)
    requires Built(w, c, l, from, m) && HasRoom(w, After(c, l, Lower(words)), from[c.sp])
    ensures m.regs[c.sp] < TWO64 && Below(w, m.regs[c.sp], words) >= 0
    ensures Built(w, c, After(c, l, Lower(words)), from, Executed(w, c, m, Lower(words)))
  {
    hide Word;
  }

  lemma FrameBuilds(w: Width, c: Convention, l: Layout, from: seq<nat>, m: Thread, r: nat)
    requires Built(w, c, l, from, m) && r in l.slots && r != c.ra && l.base == c.sp && from[c.sp] < w.Modulus()
    ensures Built(w, c, After(c, l, SetFrame(r)), from, Executed(w, c, m, SetFrame(r)))
  {
    hide Word;
  }

  /** The layout stays true through every step. */
  lemma StepBuilds(w: Width, c: Convention, l: Layout, from: seq<nat>, m: Thread, step: Step)
    requires Built(w, c, l, from, m) && Allowed(c, l, step, |from|) && HasRoom(w, After(c, l, step), from[c.sp])
    ensures m.regs[c.sp] < TWO64
    ensures step.Push? ==> step.reg < |m.regs| && Below(w, m.regs[c.sp], 1) >= 0
    ensures step.Lower? ==> Below(w, m.regs[c.sp], step.words) >= 0
    ensures step.SetFrame? ==> step.reg < |m.regs|
    ensures Built(w, c, After(c, l, step), from, Executed(w, c, m, step))
  {
    hide Executed;
    hide After;
    match step
    case Push(r) => PushBuilds(w, c, l, from, m, r);
    case Lower(words) => LowerBuilds(w, c, l, from, m, words);
    case SetFrame(r) => FrameBuilds(w, c, l, from, m, r);
  }

  /** A prologue executed from the start of the function, as far as the steps go. */
  predicate Prepared(w: Width, c: Convention, l: Layout, from: seq<nat>, m: Thread, steps: seq<Placed>) {
    && Built(w, c, l, from, m) && AllAllowed(c, l, steps, |from|) && HasRoom(w, AfterAll(c, l, steps), from[c.sp])
  }

  lemma {:induction false} DepthGrows(c: Convention, l: Layout, steps: seq<Placed>)
    ensures l.depth <= AfterAll(c, l, steps).depth
    decreases |steps|
  {
    if steps != [] {
      DepthGrows(c, After(c, l, steps[0].step), steps[1..]);
    }
  }

  lemma PreparedStep(w: Width, c: Convention, l: Layout, from: seq<nat>, m: Thread, steps: seq<Placed>)
    requires Prepared(w, c, l, from, m, steps) && steps != []
    ensures HasRoom(w, After(c, l, steps[0].step), from[c.sp])
  {
    DepthGrows(c, After(c, l, steps[0].step), steps[1..]);
  }

  /** The machine after all steps. */
  function Run(w: Width, c: Convention, l: Layout, from: seq<nat>, m: Thread, steps: seq<Placed>): (r: Thread)
    requires Prepared(w, c, l, from, m, steps)
    ensures Built(w, c, AfterAll(c, l, steps), from, r)
    decreases |steps|
  {
    if steps == [] then m
    else
      PreparedStep(w, c, l, from, m, steps);
      StepBuilds(w, c, l, from, m, steps[0].step);
      Run(w, c, After(c, l, steps[0].step), from, Executed(w, c, m, steps[0].step), steps[1..])
  }

  lemma CallBuilds(w: Width, c: Convention, from: seq<nat>, mem: Memory)
    requires c.sp < |from| && c.ra < |from| && c.sp != c.ra && from[c.sp] < w.Modulus() && Below(w, from[c.sp], 1) >= 0
    ensures Built(w, c, AtEntry(c), from, Called(w, c, from, mem))
  {
    if c.stored {
      var a := Below(w, from[c.sp], 1);
      StoreHolds(mem, a, ToLE(from[c.ra], w.Size()));
    }
  }

  // ------------------------------------------------- the describing instructions

  /** The data alignment factor: offsets count words downward. */
  function Downward(w: Width): int { if w.W32? then -4 else -8 }

  /** In the CIE: where the CFA and the return address are at the function's start. */
  function EntryCode(w: Width, c: Convention): seq<Insn> {
    if c.stored then [DefCfa(c.sp, WordBytes(w, 1)), OffsetRule(c.ra, 1)] else [DefCfa(c.sp, 0)]
  }

  function MoveCode(w: Width, c: Convention, l: Layout, words: nat): seq<Insn> {
    if l.base == c.sp then [CfaOffset(WordBytes(w, l.depth + words))] else []
  }

  /** In the FDE: what a step changes. */
  function StepCode(w: Width, c: Convention, l: Layout, step: Step): seq<Insn> {
    match step
    case Push(r) => MoveCode(w, c, l, 1) + if r in l.slots then [] else [OffsetRule(r, l.depth + 1)]
    case Lower(words) => MoveCode(w, c, l, words)
    case SetFrame(r) => [CfaRegister(r)]
  }

  function FormFor(length: nat): Size {
    if length < 64 then Packed else if length < 256 then One else if length < 0x1_0000 then Two else Four
  }

  function FrameCode(w: Width, c: Convention, l: Layout, steps: seq<Placed>): seq<Insn>
    decreases |steps|
  {
    if steps == [] then []
    else
      [AdvanceLoc(FormFor(steps[0].length), steps[0].length)]
      + (StepCode(w, c, l, steps[0].step) + FrameCode(w, c, After(c, l, steps[0].step), steps[1..]))
  }

  /** The layout in force at pc: that of the steps which end at or before it. */
  function LayoutAt(c: Convention, l: Layout, steps: seq<Placed>, at: nat, align: nat, pc: nat): Layout
    decreases |steps|
  {
    if steps == [] || at + steps[0].length * align > pc then l
    else LayoutAt(c, After(c, l, steps[0].step), steps[1..], at + steps[0].length * align, align, pc)
  }

  /** The length of the prologue. */
  function Extent(steps: seq<Placed>, align: nat): nat {
    if steps == [] then 0 else steps[0].length * align + Extent(steps[1..], align)
  }

  /** The rules of a row say what the layout says. */
  predicate Describes(w: Width, rules: Rules, l: Layout) {
    && CFA_REG !in l.slots && rules.Keys == l.slots.Keys + {CFA_REG}
    && rules[CFA_REG] == Register(l.base, WordBytes(w, l.distance))
    && forall r :: r in l.slots ==> rules[r] == SlotRule(w, l.slots[r])
  }

  function SlotRule(w: Width, n: nat): Location { Offset(Slot(w, 0 - WordBytes(w, n))) }

  lemma RowCons(p: Program, pc: nat, off: nat, s: State, i: Insn, rest: seq<Insn>)
    requires AllFit(p.w, [i] + rest) && s.pc <= pc
    ensures Fits(p.w, i) && AllFit(p.w, rest)
    ensures var next := off + |Bytes(p.w, i)|;
      var after := Effect(p, s.(start := s.pc), i, next);
      RowAt(p, pc, off, s, [i] + rest) == if after.None? then Failed(Failure(p, s, i)) else RowAt(p, pc, next, after.value, rest)
  {
    hide Fits;
    hide Effect;
    hide Bytes;
    hide Failure;
    var code := [i] + rest;
    assert code[0] == i && code[1..] == rest;
    assert AllFit(p.w, rest) by {
      forall k | 0 <= k < |rest| ensures Fits(p.w, rest[k]) {
        assert code[k + 1] == rest[k];
      }
    }
  }

  /** The frame is smaller than half the address space, so its offsets are signed words. */
  predicate Moderate(w: Width, l: Layout) { WordBytes(w, l.depth) < w.Modulus() / 2 }

  /** The state of the interpreter agrees with a layout. */
  predicate At(p: Program, s: State, l: Layout) { Describes(p.w, s.rules, l) && p.dataAlign == Downward(p.w) }

  /** The instructions of a step bring the interpreter from a state to one for the layout. */
  ghost predicate Leads(p: Program, pc: nat, off: nat, s: State, code: seq<Insn>, rest: seq<Insn>, l: Layout)
    requires AllFit(p.w, code + rest) && AllFit(p.w, rest)
  {
    exists next: nat, t: State :: Lands(p, pc, off, s, code, rest, l, next, t)
  }

  ghost predicate Lands(p: Program, pc: nat, off: nat, s: State, code: seq<Insn>, rest: seq<Insn>, l: Layout, next: nat, t: State)
    requires AllFit(p.w, code + rest) && AllFit(p.w, rest)
  {
    At(p, t, l) && t.pc == s.pc && t.stack == s.stack && RowAt(p, pc, off, s, code + rest) == RowAt(p, pc, next, t, rest)
  }

  lemma CfaMoved(p: Program, s: State, c: Convention, l: Layout, words: nat, next: nat)
    requires At(p, s, l) && l.base == c.sp
    ensures var after := Effect(p, s.(start := s.pc), CfaOffset(WordBytes(p.w, l.depth + words)), next);
      after.Some? && At(p, after.value, Deeper(c, l, words)) && after.value.pc == s.pc && after.value.stack == s.stack
  {
    hide SlotRule;
    hide WordBytes;
  }

  lemma CfaKept(p: Program, s: State, c: Convention, l: Layout, words: nat)
    requires At(p, s, l) && l.base != c.sp
    ensures At(p, s, Deeper(c, l, words))
  {
  }

  lemma BaseMoved(p: Program, s: State, c: Convention, l: Layout, r: nat, next: nat)
    requires At(p, s, l) && l.distance == l.depth
    ensures var after := Effect(p, s.(start := s.pc), CfaRegister(r), next);
      after.Some? && At(p, after.value, l.(base := r, distance := l.depth)) && after.value.pc == s.pc && after.value.stack == s.stack
  {
    hide SlotRule;
    hide WordBytes;
  }

  lemma Product(w: Width, n: nat, align: int)
    requires align == Downward(w)
    ensures n * align == 0 - WordBytes(w, n)
  {
  }

  lemma SlotMade(p: Program, s: State, l: Layout, r: nat, n: nat, next: nat)
    requires At(p, s, l) && r != CFA_REG && WordBytes(p.w, n) < p.w.Modulus() / 2
    ensures var after := Effect(p, s.(start := s.pc), OffsetRule(r, n), next);
      after.Some? && At(p, after.value, l.(slots := l.slots[r := n])) && after.value.pc == s.pc && after.value.stack == s.stack
  {
    hide Slot;
    hide WordBytes;
    Product(p.w, n, p.dataAlign);
    hide Downward;
  }

  /** A move of the stack pointer. */
  lemma MoveRow(p: Program, pc: nat, off: nat, s: State, c: Convention, l: Layout, words: nat, rest: seq<Insn>)
    requires At(p, s, l) && s.pc <= pc && AllFit(p.w, MoveCode(p.w, c, l, words) + rest) && AllFit(p.w, rest)
    ensures Leads(p, pc, off, s, MoveCode(p.w, c, l, words), rest, Deeper(c, l, words))
  {
    hide At;
    hide RowAt;
    hide Effect;
    hide Bytes;
    hide AllFit;
    hide WordBytes;
    var code := MoveCode(p.w, c, l, words);
    if l.base == c.sp {
      var i := CfaOffset(WordBytes(p.w, l.depth + words));
      RowCons(p, pc, off, s, i, rest);
      var next := off + |Bytes(p.w, i)|;
      CfaMoved(p, s, c, l, words, next);
      assert Lands(p, pc, off, s, code, rest, Deeper(c, l, words), next, Effect(p, s.(start := s.pc), i, next).value);
    } else {
      CfaKept(p, s, c, l, words);
      assert code + rest == rest;
      assert Lands(p, pc, off, s, code, rest, Deeper(c, l, words), off, s);
    }
  }

  lemma FitsBehind(w: Width, code: seq<Insn>, rest: seq<Insn>)
    requires AllFit(w, code + rest)
    ensures AllFit(w, rest) && AllFit(w, code) && (code != [] ==> Fits(w, code[0]))
  {
    hide Fits;
    var all := code + rest;
    forall k | 0 <= k < |rest| ensures Fits(w, rest[k]) {
      assert all[|code| + k] == rest[k];
    }
    forall k | 0 <= k < |code| ensures Fits(w, code[k]) {
      assert all[k] == code[k];
    }
  }

  lemma PushRow(p: Program, pc: nat, off: nat, s: State, c: Convention, l: Layout, r: nat, rest: seq<Insn>)
    requires At(p, s, l) && s.pc <= pc && Moderate(p.w, After(c, l, Push(r))) && r != CFA_REG
    requires AllFit(p.w, StepCode(p.w, c, l, Push(r)) + rest) && AllFit(p.w, rest)
    ensures Leads(p, pc, off, s, StepCode(p.w, c, l, Push(r)), rest, After(c, l, Push(r)))
  {
    hide At;
    hide RowAt;
    hide Effect;
    hide Bytes;
    hide AllFit;
    hide WordBytes;
    hide MoveCode;
    var move, code := MoveCode(p.w, c, l, 1), StepCode(p.w, c, l, Push(r));
    var deeper := Deeper(c, l, 1);
    if r in l.slots {
      assert code == move;
      MoveRow(p, pc, off, s, c, l, 1, rest);
    } else {
      var i := OffsetRule(r, l.depth + 1);
      assert code + rest == move + ([i] + rest);
      FitsBehind(p.w, move, [i] + rest);
      MoveRow(p, pc, off, s, c, l, 1, [i] + rest);
      var mid: nat, t: State :| Lands(p, pc, off, s, move, [i] + rest, deeper, mid, t);
      RowCons(p, pc, mid, t, i, rest);
      var next := mid + |Bytes(p.w, i)|;
      SlotMade(p, t, deeper, r, l.depth + 1, next);
      assert Lands(p, pc, off, s, code, rest, After(c, l, Push(r)), next, Effect(p, t.(start := t.pc), i, next).value);
    }
  }

  lemma SetFrameRow(p: Program, pc: nat, off: nat, s: State, c: Convention, l: Layout, r: nat, rest: seq<Insn>)
    requires At(p, s, l) && s.pc <= pc && l.distance == l.depth
    requires AllFit(p.w, [CfaRegister(r)] + rest) && AllFit(p.w, rest)
    ensures Leads(p, pc, off, s, [CfaRegister(r)], rest, After(c, l, SetFrame(r)))
  {
    hide At;
    hide RowAt;
    hide Effect;
    hide Bytes;
    hide AllFit;
    var i := CfaRegister(r);
    RowCons(p, pc, off, s, i, rest);
    var next := off + |Bytes(p.w, i)|;
    BaseMoved(p, s, c, l, r, next);
    assert Lands(p, pc, off, s, [i], rest, After(c, l, SetFrame(r)), next, Effect(p, s.(start := s.pc), i, next).value);
  }

  /** While the stack pointer is the base, the CFA is as far as the stack is deep; the
      frame register is set only then. */
  predicate Regular(c: Convention, l: Layout) { l.base == c.sp ==> l.distance == l.depth }

  /** The instructions of one step turn the row of a layout into that of the next. */
  lemma StepRow(p: Program, pc: nat, off: nat, s: State, c: Convention, l: Layout, step: Step, rest: seq<Insn>, total: nat)
    requires At(p, s, l) && s.pc <= pc && Regular(c, l) && Allowed(c, l, step, total) && Moderate(p.w, After(c, l, step))
    requires total <= CFA_REG && AllFit(p.w, StepCode(p.w, c, l, step) + rest) && AllFit(p.w, rest)
    ensures Leads(p, pc, off, s, StepCode(p.w, c, l, step), rest, After(c, l, step)) && Regular(c, After(c, l, step))
  {
    hide At;
    hide RowAt;
    hide AllFit;
    hide Leads;
    hide WordBytes;
    hide MoveCode;
    match step
    case Push(r) => PushRow(p, pc, off, s, c, l, r, rest);
    case Lower(words) => MoveRow(p, pc, off, s, c, l, words, rest);
    case SetFrame(r) => SetFrameRow(p, pc, off, s, c, l, r, rest);
  }

  lemma AdvanceRow(p: Program, pc: nat, off: nat, s: State, form: Size, length: nat, rest: seq<Insn>)
    requires s.pc <= pc && s.pc + length * p.codeAlign < p.w.Modulus()
    requires AllFit(p.w, [AdvanceLoc(form, length)] + rest) && AllFit(p.w, rest) && Fits(p.w, AdvanceLoc(form, length))
    ensures RowAt(p, pc, off, s, [AdvanceLoc(form, length)] + rest)
         == RowAt(p, pc, off + |Bytes(p.w, AdvanceLoc(form, length))|, s.(pc := s.pc + length * p.codeAlign, start := s.pc), rest)
  {
    hide RowAt;
    hide Bytes;
    hide AllFit;
    hide Wrap;
    WrapSmall(p.w, s.pc + length * p.codeAlign);
    RowCons(p, pc, off, s, AdvanceLoc(form, length), rest);
  }

  /** The row at any pc of the instructions of a prologue describes the layout of the
      steps that end at or before that pc. */
  lemma {:induction false} RowOfPrologue(p: Program, pc: nat, off: nat, s: State, c: Convention, l: Layout, steps: seq<Placed>, total: nat)
    requires At(p, s, l) && s.pc <= pc && Regular(c, l) && AllAllowed(c, l, steps, total) && total <= CFA_REG
    requires Moderate(p.w, AfterAll(c, l, steps)) && s.pc + Extent(steps, p.codeAlign) < p.w.Modulus()
    requires AllFit(p.w, FrameCode(p.w, c, l, steps))
    ensures var row := RowAt(p, pc, off, s, FrameCode(p.w, c, l, steps));
      row.Row? && Describes(p.w, row.rules, LayoutAt(c, l, steps, s.pc, p.codeAlign, pc))
    decreases |steps|
  {
    hide Describes;
    hide AllFit;
    hide Bytes;
    hide Effect;
    hide StepCode;
    hide After;
    hide Allowed;
    hide WordBytes;
    if steps != [] {
      var first, rest := steps[0], steps[1..];
      var now := After(c, l, first.step);
      var form, tail := FormFor(first.length), FrameCode(p.w, c, now, rest);
      var mid := StepCode(p.w, c, l, first.step) + tail;
      FitsBehind(p.w, [AdvanceLoc(form, first.length)], mid);
      FitsBehind(p.w, StepCode(p.w, c, l, first.step), tail);
      AdvanceRow(p, pc, off, s, form, first.length, mid);
      var t := s.(pc := s.pc + first.length * p.codeAlign, start := s.pc);
      var o := off + |Bytes(p.w, AdvanceLoc(form, first.length))|;
      if t.pc <= pc {
        DepthGrows(c, now, rest);
        Moderated(p.w, now, AfterAll(c, l, steps));
        StepRow(p, pc, o, t, c, l, first.step, tail, total);
        var next: nat, u: State :| Lands(p, pc, o, t, StepCode(p.w, c, l, first.step), tail, now, next, u);
        RowOfPrologue(p, pc, next, u, c, now, rest, total);
      }
    }
  }

  lemma Moderated(w: Width, l: Layout, last: Layout)
    requires l.depth <= last.depth && Moderate(w, last)
    ensures Moderate(w, l)
  {
  }

  /** The CIE's instructions describe the layout at the function's start. */
  lemma RowOfEntry(p: Program, pc: nat, off: nat, at: nat, c: Convention)
    requires p.dataAlign == Downward(p.w) && at <= pc && AllFit(p.w, EntryCode(p.w, c)) && c.ra != CFA_REG
    ensures var row := RowAt(p, pc, off, State(at, map[], at, []), EntryCode(p.w, c));
      row.Row? && row.stack == [] && Describes(p.w, row.rules, AtEntry(c))
  {
    hide Bytes;
    hide AllFit;
    var s := State(at, map[], at, []);
    var i := DefCfa(c.sp, if c.stored then WordBytes(p.w, 1) else 0);
    var rest := if c.stored then [OffsetRule(c.ra, 1)] else [];
    assert EntryCode(p.w, c) == [i] + rest;
    RowCons(p, pc, off, s, i, rest);
    var next := off + |Bytes(p.w, i)|;
    var t := Effect(p, s, i, next).value;
    var plain := Layout(c.sp, if c.stored then 1 else 0, if c.stored then 1 else 0, map[]);
    assert At(p, t, plain);
    if c.stored {
      assert rest == [OffsetRule(c.ra, 1)] + [];
      RowCons(p, pc, next, t, OffsetRule(c.ra, 1), []);
      SlotMade(p, t, plain, c.ra, 1, next + |Bytes(p.w, OffsetRule(c.ra, 1))|);
    }
  }

  // ------------------------------------------------------------- the caller

  /** What the body of a function must leave alone: the base register, the slots, and
      the return address register while it is not saved. */
  predicate Kept(w: Width, c: Convention, l: Layout, from: seq<nat>, regs: seq<nat>, mem: Memory) {
    && |regs| == |from| && c.sp < |from| && c.ra < |from| && l.base < |from|
    && regs[l.base] == Below(w, from[c.sp], l.distance)
    && (c.ra !in l.slots ==> regs[c.ra] == from[c.ra])
    && SlotsHold(w, l, from, from[c.sp], mem)
  }

  predicate AreWords(w: Width, values: seq<nat>) { forall k :: 0 <= k < |values| ==> values[k] < w.Modulus() }

  lemma SlotAddress(w: Width, top: nat, n: nat)
    requires top < w.Modulus() && WordBytes(w, n) < w.Modulus() / 2 && Below(w, top, n) >= 0
    ensures (top + SlotRule(w, n).value) % TWO64 == Below(w, top, n)
  {
    hide WordBytes;
    var x: int := WordBytes(w, n);
    SignedValue(w, -x);
    hide Signed;
    Mod64Add(-x, top);
    WrapSmall(W64, top - x);
  }

  lemma WordReads(w: Width, m: Memory, a: nat, v: nat)
    requires v < w.Modulus() && Word(w, m, a, v)
    ensures ReadLE(m, a, w.Size()) == Some(v)
  {
    assert Pow256(2) == 0x1_0000 && Pow256(4) == TWO32 && Pow256(6) == 0x1_0000_0000_0000 && Pow256(8) == TWO64;
    HoldsFetch(m, a, ToLE(v, w.Size()));
    ToLERoundTrip(v, w.Size());
  }

  /** A saved register is found again. */
  lemma SlotValue(f: Eval.Frame, l: Layout, from: seq<nat>, top: nat, regs: seq<nat>, r: nat)
    requires SlotsHold(f.w, l, from, top, f.mem) && AreWords(f.w, from) && Moderate(f.w, l) && top < f.w.Modulus()
    requires r in l.slots && Describes(f.w, f.rules, l) && r < |regs|
    ensures Eval.RuleValue(f, f.rules[r], top, regs, regs[r]) == Some(from[r])
  {
    hide SlotRule;
    hide ReadLE;
    hide Word;
    hide Eval.RuleValue;
    var n := l.slots[r];
    var a := Below(f.w, top, n);
    assert Word(f.w, f.mem, a, from[r]);
    PlaceInFrame(f.w, f.mem, l, top, n, from[r]);
    hide Below;
    hide WordBytes;
    SlotAddress(f.w, top, n);
    WordReads(f.w, f.mem, a, from[r]);
    SlotRead(f, top, n, regs, regs[r]);
  }

  lemma PlaceInFrame(w: Width, m: Memory, l: Layout, top: nat, n: nat, v: nat)
    requires n <= l.depth && Moderate(w, l) && Word(w, m, Below(w, top, n), v)
    ensures WordBytes(w, n) < w.Modulus() / 2 && Below(w, top, n) >= 0
  {
  }

  lemma SlotRead(f: Eval.Frame, top: nat, n: nat, regs: seq<nat>, current: nat)
    ensures Eval.RuleValue(f, SlotRule(f.w, n), top, regs, current)
         == ReadLE(f.mem, (top + SlotRule(f.w, n).value) % TWO64, f.w.Size())
  {
    hide Slot;
    hide ReadLE;
  }

  /** The registers of the caller: its stack pointer, the return address as its pc, the
      saved registers, and every other one as it is. */
  function CallerRegisters(c: Convention, l: Layout, from: seq<nat>, regs: seq<nat>, pcReg: nat): seq<nat>
    requires |regs| == |from| && c.sp < |from| && c.ra < |from|
  {
    seq(|regs|, r requires 0 <= r < |regs| =>
      if r == c.sp then from[c.sp] else if r == pcReg then from[c.ra] else if r in l.slots then from[r] else regs[r])
  }

  lemma CfaIsTop(f: Eval.Frame, l: Layout, regs: seq<nat>, top: nat)
    requires Describes(f.w, f.rules, l) && l.base < |regs| && regs[l.base] == Below(f.w, top, l.distance) && top < f.w.Modulus()
    ensures Eval.CfaValue(f, regs) == Some(top)
  {
    hide WordBytes;
    WrapSmall(f.w, top);
  }

  /** A row that describes the frame leads to the caller: evaluating its rules gives back
      exactly the stored words, the caller's stack pointer and the return address. */
  lemma FrameUnwinds(f: Eval.Frame, c: Convention, l: Layout, from: seq<nat>, regs: seq<nat>)
    requires Describes(f.w, f.rules, l) && Kept(f.w, c, l, from, regs, f.mem) && AreWords(f.w, from) && Moderate(f.w, l)
    requires f.returnReg == c.ra && f.spReg == c.sp && f.pcReg < |regs| && f.pcReg != f.spReg && c.ra != c.sp && |regs| <= CFA_REG
    ensures Eval.Simultaneous(f, regs) == Some(CallerRegisters(c, l, from, regs, f.pcReg))
  {
    hide Eval.RuleValue;
    hide Eval.CfaValue;
    hide SlotsHold;
    hide Slot;
    hide WordBytes;
    hide Below;
    hide Moderate;
    var top := from[c.sp];
    CfaIsTop(f, l, regs, top);
    forall r | 0 <= r < |regs| && Eval.HasRule(f, r)
      ensures r in l.slots && Eval.RuleValue(f, f.rules[r], top, regs, regs[r]) == Some(from[r])
    {
      SlotValue(f, l, from, top, regs, r);
    }
    assert Eval.Restored(f, top, regs)[c.ra] == from[c.ra];
    assert Eval.Simultaneous(f, regs).value == CallerRegisters(c, l, from, regs, f.pcReg);
  }

  /** Right after the steps were executed everything is kept. */
  lemma BuiltIsKept(w: Width, c: Convention, l: Layout, from: seq<nat>, m: Thread)
    requires Built(w, c, l, from, m)
    ensures Kept(w, c, l, from, m.regs, m.mem)
  {
    hide SlotsHold;
    hide Below;
  }
}
