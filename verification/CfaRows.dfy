/** When a computed row is right for every pc it claims to cover. */
module CfaRows {
  import opened Machine
  import opened DwarfMemory
  import opened DwarfCfa

  /** How many instructions a run executes before it returns. */
  function Executed(p: Program, pc: nat, off: nat, s: State): nat
    decreases p.end - off
  {
    match Step(p, pc, off, s)
    case Stop(_) => 0
    case Continue(next, s') => 1 + Executed(p, pc, next, s')
  }

  /** Every instruction the run executes is issued at a location of at most `bound`. */
  predicate IssuedUpTo(p: Program, pc: nat, off: nat, s: State, bound: nat)
    decreases p.end - off
  {
    match Step(p, pc, off, s)
    case Stop(_) => true
    case Continue(next, s') => s.pc <= bound && IssuedUpTo(p, pc, next, s', bound)
  }

  /** Locations never move backwards during the run. */
  predicate NonDecreasing(p: Program, pc: nat, off: nat, s: State)
    decreases p.end - off
  {
    match Step(p, pc, off, s)
    case Stop(_) => true
    case Continue(next, s') => s.pc <= s'.pc && NonDecreasing(p, pc, next, s')
  }

  /** The last instruction of the run is a restore_state that brings back the
      start of an earlier row. */
  predicate EndsInStaleRestore(p: Program, pc: nat, off: nat, s: State)
    decreases p.end - off
  {
    match Step(p, pc, off, s)
    case Stop(_) => false
    case Continue(next, s') =>
      if Step(p, pc, next, s').Stop? then
        Decode(p, off).instr.RestoreState? && s.stack != [] && s.stack[|s.stack| - 1].start < s.pc
      else
        EndsInStaleRestore(p, pc, next, s')
  }

  /** The run at pc2 executes the same instructions as the run at pc and ends
      with the same rules and the same remembered rows. */
  predicate SameComputation(p: Program, pc: nat, pc2: nat, off: nat, s: State) {
    var a, b := Run(p, pc, off, s), Run(p, pc2, off, s);
    a.Row? && b.Row? && a.rules == b.rules && a.stack == b.stack
    && Executed(p, pc, off, s) == Executed(p, pc2, off, s)
  }

  lemma {:induction false} SameBelowEnd(p: Program, pc: nat, pc2: nat, off: nat, s: State)
    requires Run(p, pc, off, s).Row?
    requires IssuedUpTo(p, pc, off, s, pc2) && pc2 < Run(p, pc, off, s).end
    ensures SameComputation(p, pc, pc2, off, s)
    decreases p.end - off
  {
    match Step(p, pc, off, s)
    case Stop(_) =>
    case Continue(next, s') => SameBelowEnd(p, pc, pc2, next, s');
  }

  lemma {:induction false} SameMeansIssued(p: Program, pc: nat, pc2: nat, off: nat, s: State)
    requires Executed(p, pc, off, s) == Executed(p, pc2, off, s)
    ensures IssuedUpTo(p, pc, off, s, pc2)
    decreases p.end - off
  {
    match Step(p, pc, off, s)
    case Stop(_) =>
    case Continue(next, s') => SameMeansIssued(p, pc, pc2, next, s');
  }

  lemma {:induction false} IssuedMonotone(p: Program, pc: nat, off: nat, s: State, a: nat, b: nat)
    requires IssuedUpTo(p, pc, off, s, a) && a <= b
    ensures IssuedUpTo(p, pc, off, s, b)
    decreases p.end - off
  {
    match Step(p, pc, off, s)
    case Stop(_) =>
    case Continue(next, s') => IssuedMonotone(p, pc, next, s', a, b);
  }

  /** Row uniformity, exactly: the row claimed on [start, end) is the row of every
      pc in that range if and only if no instruction was issued above its start. */
  lemma RowUniformity(p: Program, pc: nat, off: nat, s: State)
    requires Run(p, pc, off, s).Row? && Run(p, pc, off, s).start < Run(p, pc, off, s).end
    ensures var r := Run(p, pc, off, s);
      (forall pc2 :: r.start <= pc2 < r.end ==> SameComputation(p, pc, pc2, off, s))
      <==> IssuedUpTo(p, pc, off, s, r.start)
  {
    var r := Run(p, pc, off, s);
    if IssuedUpTo(p, pc, off, s, r.start) {
      forall pc2 | r.start <= pc2 < r.end ensures SameComputation(p, pc, pc2, off, s) {
        IssuedMonotone(p, pc, off, s, r.start, pc2);
        SameBelowEnd(p, pc, pc2, off, s);
      }
    }
    if forall pc2 :: r.start <= pc2 < r.end ==> SameComputation(p, pc, pc2, off, s) {
      assert SameComputation(p, pc, r.start, off, s);
      SameMeansIssued(p, pc, r.start, off, s);
    }
  }

  /** Only a restore_state gives a row another start than the location it is issued at. */
  lemma RowStart(p: Program, pc: nat, off: nat, s: State)
    requires Step(p, pc, off, s).Continue?
    ensures Decode(p, off).Op?
    ensures var restored := Decode(p, off).instr.RestoreState? && s.stack != [];
      Step(p, pc, off, s).s.start == if restored then s.stack[|s.stack| - 1].start else s.pc
  {
    hide Decode;
  }

  /** For programs that only move forward the single way to lose uniformity is to
      end in a restore_state that also restores an earlier row's start. */
  lemma {:induction false} UniformUnlessStaleRestore(p: Program, pc: nat, off: nat, s: State)
    requires Run(p, pc, off, s).Row? && NonDecreasing(p, pc, off, s)
    ensures EndsInStaleRestore(p, pc, off, s) <==> !IssuedUpTo(p, pc, off, s, Run(p, pc, off, s).start)
    ensures !EndsInStaleRestore(p, pc, off, s) && Step(p, pc, off, s).Continue? ==> s.pc <= Run(p, pc, off, s).start
    decreases p.end - off
  {
    if Step(p, pc, off, s).Continue? {
      RowStart(p, pc, off, s);
      hide Decode;
      hide Exec;
      var t := Step(p, pc, off, s);
      UniformUnlessStaleRestore(p, pc, t.off, t.s);
    }
  }

  /** The row contains the pc it was computed for, unless the run starts above it. */
  lemma {:induction false} RowCoversPc(p: Program, pc: nat, off: nat, s: State)
    requires Run(p, pc, off, s).Row?
    requires s.start <= pc && pc < p.pcEnd
    requires forall i :: 0 <= i < |s.stack| ==> s.stack[i].start <= pc
    ensures Run(p, pc, off, s).start <= pc < Run(p, pc, off, s).end
    ensures forall i :: 0 <= i < |Run(p, pc, off, s).stack| ==> Run(p, pc, off, s).stack[i].start <= pc
    decreases p.end - off
  {
    hide Decode;
    match Step(p, pc, off, s)
    case Stop(_) =>
    case Continue(next, s') => RowCoversPc(p, pc, next, s');
  }

  // ------------------------------------------------- remember and restore

  /** Effect of a list of instructions, each issued the way the loop issues it. */
  function ExecAll(p: Program, s: State, code: seq<Instr>): Option<State>
    decreases |code|
  {
    if code == [] then Some(s)
    else
      match Exec(p, s.(start := s.pc), code[0])
      case None => None
      case Some(s') => ExecAll(p, s', code[1..])
  }

  /** Open remember_states after a list, from depth d; None once a restore_state
      has nothing of its own to close. */
  function Depth(code: seq<Instr>, d: nat): Option<nat> {
    if code == [] then Some(d)
    else if code[0].RememberState? then Depth(code[1..], d + 1)
    else if !code[0].RestoreState? then Depth(code[1..], d)
    else if d == 0 then None
    else Depth(code[1..], d - 1)
  }

  lemma {:induction false} ExecAllAppend(p: Program, s: State, a: seq<Instr>, b: seq<Instr>)
    ensures ExecAll(p, s, a + b)
         == (match ExecAll(p, s, a) case None => None case Some(s') => ExecAll(p, s', b))
    decreases |a|
  {
    if a == [] {
      assert a + b == b;
    } else {
      assert (a + b)[1..] == a[1..] + b;
      var s1 := Exec(p, s.(start := s.pc), a[0]);
      if s1.Some? {
        ExecAllAppend(p, s1.value, a[1..], b);
      }
    }
  }

  /** A list that closes only what it opens leaves the rows below it alone. */
  lemma {:induction false} NestedKeepsStack(p: Program, s: State, code: seq<Instr>, d: nat)
    requires Depth(code, d).Some? && d <= |s.stack| && ExecAll(p, s, code).Some?
    ensures var s' := ExecAll(p, s, code).value;
      var base := |s.stack| - d;
      |s'.stack| == base + Depth(code, d).value && s'.stack[..base] == s.stack[..base]
    decreases |code|
  {
    if code != [] {
      var s1 := Exec(p, s.(start := s.pc), code[0]).value;
      var d1 := if code[0].RememberState? then d + 1 else if code[0].RestoreState? then d - 1 else d;
      NestedKeepsStack(p, s1, code[1..], d1);
      assert s1.stack[..|s.stack| - d] == s.stack[..|s.stack| - d];
    }
  }

  /** At every nesting depth a balanced remember_state ... restore_state segment
      gives the whole rule map back, the CFA's rule included. */
  lemma RememberRestore(p: Program, s: State, body: seq<Instr>)
    requires Depth(body, 0) == Some(0)
    requires ExecAll(p, s, [RememberState] + body + [RestoreState]).Some?
    ensures var s' := ExecAll(p, s, [RememberState] + body + [RestoreState]).value;
      s'.rules == s.rules && s'.stack == s.stack && s'.start == s.pc
  {
    ExecAllAppend(p, s, [RememberState] + body, [RestoreState]);
    ExecAllAppend(p, s, [RememberState], body);
    assert [RememberState][1..] == [];
    var s1 := Exec(p, s.(start := s.pc), RememberState).value;
    assert ExecAll(p, s, [RememberState]) == Some(s1);
    NestedKeepsStack(p, s1, body, 0);
    var s2 := ExecAll(p, s1, body).value;
    assert [RestoreState][1..] == [];
    assert ExecAll(p, s2, [RestoreState]) == Exec(p, s2.(start := s2.pc), RestoreState);
    assert s2.stack == s1.stack;
    assert s1.stack[..|s.stack|] == s.stack;
  }

  /** The instructions between two cursors, when decoding meets both. */
  function InstrsBetween(p: Program, off: nat, off2: nat): Option<seq<Instr>>
    decreases off2 - off
  {
    if off == off2 then Some([])
    else if off > off2 then None
    else
      match Decode(p, off)
      case Bad(_) => None
      case Op(i, next) =>
        if next <= off then None
        else
          match InstrsBetween(p, next, off2)
          case None => None
          case Some(code) => Some([i] + code)
  }

  /** No instruction of the list is issued above pc. */
  predicate IssuedBelow(p: Program, pc: nat, s: State, code: seq<Instr>)
    decreases |code|
  {
    if code == [] then true
    else if s.pc > pc then false
    else
      match Exec(p, s.(start := s.pc), code[0])
      case None => false
      case Some(s') => IssuedBelow(p, pc, s', code[1..])
  }

  /** The byte-level run goes through a segment exactly as the list does. */
  lemma {:induction false} RunThrough(p: Program, pc: nat, off: nat, off2: nat, s: State)
    requires off <= off2 <= p.end && InstrsBetween(p, off, off2).Some?
    requires IssuedBelow(p, pc, s, InstrsBetween(p, off, off2).value)
    ensures var s' := ExecAll(p, s, InstrsBetween(p, off, off2).value);
      s'.Some? && Run(p, pc, off, s) == Run(p, pc, off2, s'.value)
    decreases off2 - off
  {
    if off < off2 {
      var d := Decode(p, off);
      var code := InstrsBetween(p, off, off2).value;
      assert code[1..] == InstrsBetween(p, d.next, off2).value;
      RunThrough(p, pc, d.next, off2, Exec(p, s.(start := s.pc), d.instr).value);
    }
  }

  /** The state behind a balanced segment that starts in s. */
  predicate SameRow(s: State, s': State) { s'.rules == s.rules && s'.stack == s.stack && s'.start == s.pc }

  /** The same for encoded programs: from the bytes of a balanced remember_state ...
      restore_state segment the run goes on behind it with the rules from before it. */
  lemma RememberRestoreInCode(p: Program, pc: nat, off: nat, off2: nat, s: State, body: seq<Instr>)
    requires off <= off2 <= p.end && Depth(body, 0) == Some(0)
    requires InstrsBetween(p, off, off2) == Some([RememberState] + body + [RestoreState])
    requires IssuedBelow(p, pc, s, [RememberState] + body + [RestoreState])
    ensures exists s' :: SameRow(s, s') && Run(p, pc, off, s) == Run(p, pc, off2, s')
  {
    hide Run;
    hide ExecAll;
    hide InstrsBetween;
    hide IssuedBelow;
    RunThrough(p, pc, off, off2, s);
    RememberRestore(p, s, body);
    assert SameRow(s, ExecAll(p, s, [RememberState] + body + [RestoreState]).value);
  }

  // -------------------------------------------- a row that is not uniform

  /** remember_state; advance 4; def_cfa_offset 16; advance 4; restore_state. */
  const STALE_BYTES: Memory := map[0 := 0x0a, 1 := 0x44, 2 := 0x0e, 3 := 0x10, 4 := 0x44, 5 := 0x0b]

  const STALE_PROGRAM: Program :=
    Program(W64, STALE_BYTES, 1, -8, 0x1010, 6, Some(CFA_AT_8))

  lemma StaleDecodesAdvance()
    ensures Decode(STALE_PROGRAM, 1) == Op(Advance(4), 2)
    ensures Decode(STALE_PROGRAM, 4) == Op(Advance(4), 5)
  {
  }

  /** An instruction without operands. */
  lemma DecodesPlain(p: Program, off: nat)
    requires off in p.mem && (p.mem[off] == 0x0a || p.mem[off] == 0x0b)
    ensures Decode(p, off) == Op(if p.mem[off] == 0x0a then RememberState else RestoreState, off + 1)
  {
    hide UlebAt;
    hide ReadEncodedValue;
    hide Factored;
    hide ProductDefined;
  }

  /** def_cfa_offset with its operand read. */
  lemma DecodesCfaOffset(p: Program, off: nat, x: nat, next: nat)
    requires off in p.mem && p.mem[off] == 0x0e && ReadOperands(p.w, p.mem, [ULEB128], off + 1) == Got([x], next)
    ensures Decode(p, off) == Op(DefCfaOffset(x), next)
  {
    hide ReadOperands;
    hide UlebAt;
    hide Factored;
    hide ProductDefined;
  }

  lemma StaleDecodesOffset()
    ensures Decode(STALE_PROGRAM, 2) == Op(DefCfaOffset(0x10), 4)
  {
    hide Decode;
    hide ReadOperands;
    hide ReadEncodedValue;
    hide UlebAt;
    assert EncodeUleb(0x10) == [0x10];
    assert Holds(STALE_BYTES, 3, [0x10]);
    UlebOperand(W64, STALE_BYTES, 3, 0x10);
    OneOperand(W64, STALE_BYTES, ULEB128, 3);
    WrapSmall(W64, 0x10);
    DecodesCfaOffset(STALE_PROGRAM, 2, 0x10, 4);
  }

  const CFA_AT_8: Rules := map[CFA_REG := Register(13, 8)]
  const CFA_AT_16: Rules := map[CFA_REG := Register(13, 16)]

  lemma RunOne(p: Program, pc: nat, off: nat, s: State, i: Instr, next: nat, s': State)
    requires s.pc <= pc && off < p.end && off < next && Decode(p, off) == Op(i, next)
    requires Exec(p, s.(start := s.pc), i) == Some(s')
    ensures Run(p, pc, off, s) == Run(p, pc, next, s')
  {
  }

  /** The first four instructions, at any pc that lets them all run. */
  lemma StalePrefix(p: Program, pc: nat)
    requires p.w == W64 && p.end == 6 && pc >= 0x1004
    requires Decode(p, 0) == Op(RememberState, 1) && Decode(p, 1) == Op(Advance(4), 2)
    requires Decode(p, 2) == Op(DefCfaOffset(0x10), 4) && Decode(p, 4) == Op(Advance(4), 5)
    ensures Run(p, pc, 0, State(0x1000, CFA_AT_8, 0x1000, []))
         == Run(p, pc, 5, State(0x1008, CFA_AT_16, 0x1004, [Saved(CFA_AT_8, 0x1000)]))
  {
    hide Decode;
    hide Run;
    var saved := [Saved(CFA_AT_8, 0x1000)];
    var s1 := State(0x1000, CFA_AT_8, 0x1000, saved);
    var s2 := State(0x1004, CFA_AT_8, 0x1000, saved);
    var s3 := State(0x1004, CFA_AT_16, 0x1004, saved);
    var s4 := State(0x1008, CFA_AT_16, 0x1004, saved);
    assert [] + saved == saved;
    RunOne(p, pc, 0, State(0x1000, CFA_AT_8, 0x1000, []), RememberState, 1, s1);
    RunOne(p, pc, 1, s1, Advance(4), 2, s2);
    assert CFA_AT_8[CFA_REG := Register(13, 16)] == CFA_AT_16;
    RunOne(p, pc, 2, s2, DefCfaOffset(0x10), 4, s3);
    RunOne(p, pc, 4, s3, Advance(4), 5, s4);
  }

  lemma StaleRows(p: Program)
    requires p.w == W64 && p.end == 6 && p.pcEnd == 0x1010 && p.cieRules == Some(CFA_AT_8)
    requires Decode(p, 0) == Op(RememberState, 1) && Decode(p, 1) == Op(Advance(4), 2)
    requires Decode(p, 2) == Op(DefCfaOffset(0x10), 4) && Decode(p, 4) == Op(Advance(4), 5)
    requires Decode(p, 5) == Op(RestoreState, 6)
    ensures LocationInfo(p, 0x1000, 0x1008, 0, map[], []) == Row(CFA_AT_8, 0x1000, 0x1010, [])
    ensures LocationInfo(p, 0x1000, 0x1004, 0, map[], [])
         == Row(CFA_AT_16, 0x1004, 0x1008, [Saved(CFA_AT_8, 0x1000)])
  {
    hide Decode;
    var empty: Rules := map[];
    assert empty + CFA_AT_8 == CFA_AT_8;
    assert Initial(p, 0x1000, map[], []) == State(0x1000, CFA_AT_8, 0x1000, []);
    StalePrefix(p, 0x1004);
    StalePrefix(p, 0x1008);
    var s4 := State(0x1008, CFA_AT_16, 0x1004, [Saved(CFA_AT_8, 0x1000)]);
    RunOne(p, 0x1008, 5, s4, RestoreState, 6, State(0x1008, CFA_AT_8, 0x1000, []));
  }

  /** The row computed at 0x1008 claims [0x1000, 0x1010), yet at 0x1004 the CFA's
      offset is 16, not 8. */
  lemma StaleRestoreBreaksRow()
    ensures var a := LocationInfo(STALE_PROGRAM, 0x1000, 0x1008, 0, map[], []);
      var b := LocationInfo(STALE_PROGRAM, 0x1000, 0x1004, 0, map[], []);
      a.Row? && a.start == 0x1000 && a.end == 0x1010 && b.Row? && a.rules != b.rules
  {
    hide Decode;
    hide Run;
    DecodesPlain(STALE_PROGRAM, 0);
    StaleDecodesAdvance();
    DecodesPlain(STALE_PROGRAM, 5);
    StaleDecodesOffset();
    StaleRows(STALE_PROGRAM);
    assert CFA_AT_8[CFA_REG] != CFA_AT_16[CFA_REG];
  }
}
