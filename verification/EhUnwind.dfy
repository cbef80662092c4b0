/** From the bytes of an .eh_frame section to the caller's registers: the sorted index,
    the full parser, the interpreter with its caches and the evaluation, together. */
module EhUnwind {
  import opened Machine
  import opened DwarfCfa
  import opened DwarfStep
  import opened DwarfEval
  import opened DwarfUnwind
  import opened CfaCode
  import opened CfaShape
  import opened CfaRows
  import Eh = EhFrame
  import Asm = EhCode
  import EhLayout

  // ------------------------------------------------------ the parsed section

  /** The FDE that the full parser finds at a recorded offset, with its CIE. */
  function FdeOf(s: Eh.Section, info: Eh.FdeInfo): Option<Fde> {
    match Eh.FullFdeAt(s, info.offset)
    case None => None
    case Some(f) =>
      match Eh.FullCieAt(s, f.cieOffset)
      case None => None
      case Some(c) =>
        var cie := Cie(c.fixed.codeAlign, c.fixed.dataAlign, c.fixed.returnReg, c.start, c.end);
        Some(Fde(f.cieOffset, cie, f.start, f.end, f.pcStart, f.pcEnd))
  }

  /** The parser accepts every record, under a plain CIE. */
  predicate Accepted(s: Eh.Section, index: seq<Eh.FdeInfo>) {
    forall i :: 0 <= i < |index| ==> AcceptedAt(s, index[i])
  }

  predicate AcceptedAt(s: Eh.Section, info: Eh.FdeInfo) {
    && Eh.HeaderAt(s, info.offset).Some? && FdeOf(s, info).Some?
    && Eh.PlainCie(Eh.FullCieAt(s, FdeOf(s, info).value.cieOffset).value)
  }

  /** The section as the interpreter sees it. */
  function Parsed(s: Eh.Section, index: seq<Eh.FdeInfo>): (sec: Section)
    requires Accepted(s, index)
    ensures |sec.fdes| == |index| && forall i :: 0 <= i < |index| ==> Some(sec.fdes[i]) == FdeOf(s, index[i])
  {
    Section(s.w, s.mem, seq(|index|, i requires 0 <= i < |index| => assert AcceptedAt(s, index[i]); FdeOf(s, index[i]).value))
  }

  /** The index is what CreateSortedFdeList leaves behind. */
  predicate Indexed(s: Eh.Section, start: nat, end: nat, junk: Eh.IndexCie, index: seq<Eh.FdeInfo>) {
    && (start >= end || (Eh.HeaderAt(s, start).Some? && Eh.HeaderAt(s, start).value.id == 0))
    && Eh.Pass(s, start, end, Eh.Current(0, junk, false)).Some?
    && multiset(index) == multiset(Eh.Pass(s, start, end, Eh.Current(0, junk, false)).value)
  }

  /** Any order of the functions of an assembled section is such an index. */
  lemma AssembledIsIndexed(s: Eh.Section, records: seq<EhLayout.Record>, start: nat, end: nat, junk: Eh.IndexCie, index: seq<Eh.FdeInfo>)
    requires EhLayout.Fills(s, records, start, end, EhLayout.NoCie)
    requires multiset(index) == multiset(EhLayout.Functions(s, records, start, end, EhLayout.NoCie))
    ensures Indexed(s, start, end, junk, index)
  {
    hide Eh.HeaderAt;
    hide Eh.Pass;
    hide EhLayout.RecordLength;
    hide EhLayout.RecordedAs;
    EhLayout.SectionIndexed(s, records, start, end, EhLayout.NoCie, Eh.Current(0, junk, false));
    if records != [] {
      EhLayout.CieIndexed(s, start, records[0].c);
    }
  }

  lemma CieOffsetOf(s: Eh.Section, off: nat)
    requires Eh.FullFdeAt(s, off).Some?
    ensures Eh.HeaderAt(s, off).Some? && Eh.FullFdeAt(s, off).value.cieOffset == Eh.CieOffset(Eh.HeaderAt(s, off).value)
  {
  }

  /** The recorded ranges are those of the parsed FDEs. */
  lemma RangesAgree(s: Eh.Section, start: nat, end: nat, junk: Eh.IndexCie, index: seq<Eh.FdeInfo>, i: nat)
    requires Indexed(s, start, end, junk, index) && Accepted(s, index) && Ordered(Parsed(s, index)) && i < |index|
    ensures index[i].start == Parsed(s, index).fdes[i].pcStart && index[i].end == Parsed(s, index).fdes[i].pcEnd
  {
    hide Eh.Pass;
    hide Eh.FullFdeAt;
    hide Eh.FullCieAt;
    hide Eh.HeaderAt;
    var info, f := index[i], Parsed(s, index).fdes[i];
    assert AcceptedAt(s, info);
    assert info in multiset(index);
    CieOffsetOf(s, info.offset);
    Eh.ParsersAgree(s, start, end, junk, info);
    assert Parsed(s, index).w == s.w && f.pcStart < f.pcEnd < s.w.Modulus();
    WrapSmall(s.w, f.pcStart);
    WrapSmall(s.w, f.pcEnd);
  }

  // --------------------------------------------------------------- the lookup

  /** The binary search of GetFdeOffsetFromPc, over the index. */
  function IndexSearch(index: seq<Eh.FdeInfo>, pc: nat, first: nat, last: nat): (r: Option<nat>)
    requires first <= last <= |index|
    ensures r.Some? ==> r.value < |index|
    decreases last - first
  {
    if first == last then None
    else
      var mid := (first + last) / 2;
      if index[mid].start <= pc <= index[mid].end then Some(mid)
      else if pc < index[mid].start then IndexSearch(index, pc, first, mid)
      else IndexSearch(index, pc, mid + 1, last)
  }

  /** GetFdeFromPc: search the index, parse the FDE found, test its end. */
  function Lookup(s: Eh.Section, index: seq<Eh.FdeInfo>, pc: nat): Option<Fde> {
    match IndexSearch(index, pc, 0, |index|)
    case None => None
    case Some(i) =>
      match FdeOf(s, index[i])
      case None => None
      case Some(f) => if pc < f.pcEnd then Some(f) else None
  }

  lemma {:induction false} SearchesAgree(index: seq<Eh.FdeInfo>, fdes: seq<Fde>, pc: nat, first: nat, last: nat)
    requires first <= last <= |index| == |fdes|
    requires forall i :: 0 <= i < |index| ==> index[i].start == fdes[i].pcStart && index[i].end == fdes[i].pcEnd
    ensures var r := IndexSearch(index, pc, first, last);
      Search(fdes, pc, first, last) == if r.Some? then Some(fdes[r.value]) else None
    decreases last - first
  {
    if first < last {
      var mid := (first + last) / 2;
      if pc < index[mid].start {
        SearchesAgree(index, fdes, pc, first, mid);
      } else if pc > index[mid].end {
        SearchesAgree(index, fdes, pc, mid + 1, last);
      }
    }
  }

  /** Looking up a pc through the index and the parser is looking it up among the
      parsed FDEs. */
  lemma LookupsAgree(s: Eh.Section, start: nat, end: nat, junk: Eh.IndexCie, index: seq<Eh.FdeInfo>, pc: nat)
    requires Indexed(s, start, end, junk, index) && Accepted(s, index) && Ordered(Parsed(s, index))
    ensures Lookup(s, index, pc) == FdeFromPc(Parsed(s, index), pc)
  {
    hide Indexed;
    hide Accepted;
    hide Ordered;
    hide FdeOf;
    hide Search;
    hide IndexSearch;
    var sec := Parsed(s, index);
    forall i | 0 <= i < |index|
      ensures index[i].start == sec.fdes[i].pcStart && index[i].end == sec.fdes[i].pcEnd
    {
      RangesAgree(s, start, end, junk, index, i);
    }
    SearchesAgree(index, sec.fdes, pc, 0, |index|);
  }

  // ------------------------------------------------------------ the programs

  /** The bytes between the two cursors are the assembled instructions. */
  predicate HasCode(sec: Section, start: nat, end: nat, code: seq<Insn>) {
    AllFit(sec.w, code) && Holds(sec.mem, start, Assembled(sec.w, code)) && end == start + |Assembled(sec.w, code)|
  }

  /** The row of an FDE at pc: first its CIE's instructions, then its own over them. */
  function RowOfCode(sec: Section, f: Fde, pc: nat, cieCode: seq<Insn>, fdeCode: seq<Insn>): Outcome
    requires AllFit(sec.w, cieCode) && AllFit(sec.w, fdeCode)
  {
    var p := CieProgram(sec, f);
    var c := RowAt(p, pc, f.cie.start, Initial(p, f.pcStart, map[], []), cieCode);
    if !c.Row? then c
    else
      var q := FdeProgram(sec, f, c.rules);
      RowAt(q, pc, f.start, Initial(q, f.pcStart, c.rules, c.stack), fdeCode)
  }

  /** The fresh row of an FDE is the row its assembled instructions stand for. */
  lemma FreshRowOfCode(sec: Section, f: Fde, pc: nat, cieCode: seq<Insn>, fdeCode: seq<Insn>)
    requires HasCode(sec, f.cie.start, f.cie.end, cieCode) && HasCode(sec, f.start, f.end, fdeCode)
    ensures FreshRow(sec, f, pc) == ToRow(f, RowOfCode(sec, f, pc, cieCode, fdeCode))
  {
    hide Run;
    hide RowAt;
    hide Holds;
    hide Assembled;
    hide AllFit;
    var p := CieProgram(sec, f);
    InterpreterBuildsRow(p, pc, f.cie.start, Initial(p, f.pcStart, map[], []), cieCode);
    var c := CieRun(sec, f, pc);
    if c.Row? {
      var q := FdeProgram(sec, f, c.rules);
      InterpreterBuildsRow(q, pc, f.start, Initial(q, f.pcStart, c.rules, c.stack), fdeCode);
    }
  }

  // ------------------------------------------------- the shape of the programs

  /** The instructions of one FDE and of its CIE. */
  datatype Code = Code(cie: seq<Insn>, fde: seq<Insn>)

  /** As compilers write them: the CIE's instructions do not move and close what they
      remember; the FDE's only advance, stay inside its range and do not end in a
      restore_state; registers with rules have bits of their own. */
  predicate WellShaped(f: Fde, code: Code, total: nat) {
    && Unmoving(code.cie) && OpenAfter(code.cie, 0) == Some(0)
    && WithoutSetLoc(code.fde) && f.pcStart + Span(f.cie.codeAlign, code.fde) <= f.pcEnd && !EndsInRestore(code.fde)
    && Separate(RuleRegs(code.cie) + RuleRegs(code.fde), total)
  }

  predicate ShapedAt(sec: Section, f: Fde, code: Code, total: nat) {
    HasCode(sec, f.cie.start, f.cie.end, code.cie) && HasCode(sec, f.start, f.end, code.fde) && WellShaped(f, code, total)
  }

  predicate Shaped(sec: Section, codes: seq<Code>, total: nat) {
    |codes| == |sec.fdes| && forall k :: 0 <= k < |codes| ==> ShapedAt(sec, sec.fdes[k], codes[k], total)
  }

  lemma CieRunOfCode(sec: Section, f: Fde, pc: nat, code: seq<Insn>)
    requires HasCode(sec, f.cie.start, f.cie.end, code)
    ensures var p := CieProgram(sec, f);
      Runs(p, f.cie.start, code) && CieRun(sec, f, pc) == RowAt(p, pc, f.cie.start, Initial(p, f.pcStart, map[], []), code)
  {
    hide Run;
    hide RowAt;
    hide Holds;
    hide Assembled;
    hide AllFit;
    var p := CieProgram(sec, f);
    InterpreterBuildsRow(p, pc, f.cie.start, Initial(p, f.pcStart, map[], []), code);
  }

  /** A shaped CIE program stays still and leaves nothing remembered. */
  lemma ShapedCieSettled(sec: Section, f: Fde, code: Code, total: nat)
    requires ShapedAt(sec, f, code, total) && f.pcStart < sec.w.Modulus()
    ensures Still(CieProgram(sec, f), f.cie.start)
    ensures CieRun(sec, f, f.pcStart).Row? ==> CieRun(sec, f, f.pcStart).stack == []
  {
    hide Still;
    hide RowAt;
    hide CieRun;
    var p := CieProgram(sec, f);
    CieRunOfCode(sec, f, f.pcStart, code.cie);
    UnmovingIsStill(p, f.cie.start, code.cie);
    WrapSmall(sec.w, f.pcStart);
    if CieRun(sec, f, f.pcStart).Row? {
      RowLeavesOpen(p, f.pcStart, f.cie.start, Initial(p, f.pcStart, map[], []), code.cie);
    }
  }

  lemma ShapedIsSettled(sec: Section, codes: seq<Code>, total: nat)
    requires Ordered(sec) && Shaped(sec, codes, total)
    ensures CiesSettled(sec)
  {
    hide Still;
    hide CieRun;
    hide ShapedAt;
    forall i | 0 <= i < |sec.fdes|
      ensures Still(CieProgram(sec, sec.fdes[i]), sec.fdes[i].cie.start)
      ensures CieRun(sec, sec.fdes[i], sec.fdes[i].pcStart).Row? ==> CieRun(sec, sec.fdes[i], sec.fdes[i].pcStart).stack == []
    {
      ShapedCieSettled(sec, sec.fdes[i], codes[i], total);
    }
  }

  /** A shaped FDE program is well behaved at every pc it covers. */
  lemma ShapedFdeBehaves(sec: Section, codes: seq<Code>, total: nat, k: nat, pc: nat)
    requires Ordered(sec) && CiesSettled(sec) && Shaped(sec, codes, total) && k < |codes| && Covers(sec.fdes[k], pc)
    ensures WellBehavedAt(sec, sec.fdes[k], pc)
  {
    hide CiesSettled;
    hide Run;
    hide CieRun;
    hide NonDecreasing;
    hide EndsInStaleRestore;
    hide Span;
    hide Assembled;
    hide Holds;
    var f := sec.fdes[k];
    assert ShapedAt(sec, f, codes[k], total);
    if FreshRow(sec, f, pc).Some? {
      var r := CieRun(sec, f, pc).rules;
      var p := FdeProgram(sec, f, r);
      var s := Initial(p, f.pcStart, r, []);
      FreshRowIsRun(sec, k, pc, pc);
      WrapSmall(sec.w, f.pcStart);
      assert Runs(p, f.start, codes[k].fde);
      AdvancesMoveForward(p, pc, f.start, s, codes[k].fde);
      NoStaleRestore(p, pc, f.start, s, codes[k].fde);
    }
  }

  lemma RulesOfCode(sec: Section, f: Fde, pc: nat, code: Code, total: nat)
    requires ShapedAt(sec, f, code, total) && RowOfCode(sec, f, pc, code.cie, code.fde).Row?
    ensures RowOfCode(sec, f, pc, code.cie, code.fde).rules.Keys <= RuleRegs(code.cie) + RuleRegs(code.fde)
  {
    hide RowAt;
    hide Holds;
    hide Assembled;
    var regs := RuleRegs(code.cie) + RuleRegs(code.fde);
    var p := CieProgram(sec, f);
    var s := Initial(p, f.pcStart, map[], []);
    RowKeys(p, pc, f.cie.start, s, code.cie, regs);
    var c := RowAt(p, pc, f.cie.start, s, code.cie);
    var q := FdeProgram(sec, f, c.rules);
    RowKeys(q, pc, f.start, Initial(q, f.pcStart, c.rules, c.stack), code.fde, regs);
  }

  lemma SeparatePart(part: set<nat>, ruled: set<nat>, total: nat)
    requires part <= ruled && Separate(ruled, total)
    ensures Separate(part, total)
  {
  }

  /** The shape of its instruction lists makes a section unwindable: the row cache is
      transparent on it and the snapshot faithful. */
  lemma ShapedIsUnwindable(sec: Section, codes: seq<Code>, total: nat)
    requires Ordered(sec) && Shaped(sec, codes, total)
    ensures Unwindable(sec, total)
  {
    hide CiesSettled;
    hide WellBehavedAt;
    hide Separate;
    hide Ordered;
    hide FreshRow;
    hide ShapedAt;
    hide RowOfCode;
    ShapedIsSettled(sec, codes, total);
    forall k, pc | 0 <= k < |sec.fdes| && Covers(sec.fdes[k], pc) ensures WellBehavedAt(sec, sec.fdes[k], pc) {
      ShapedFdeBehaves(sec, codes, total, k, pc);
    }
    forall pc: nat, a: Answer | Correct(sec, pc, a) ensures Separate(a.rules.Keys, total) {
      var i :| 0 <= i < |sec.fdes| && Covers(sec.fdes[i], pc) && FreshRow(sec, sec.fdes[i], pc).Some?
        && FreshRow(sec, sec.fdes[i], pc).value.answer == a;
      AnswerSeparate(sec, sec.fdes[i], pc, codes[i], total, a);
    }
  }

  lemma AnswerSeparate(sec: Section, f: Fde, pc: nat, code: Code, total: nat, a: Answer)
    requires ShapedAt(sec, f, code, total) && FreshRow(sec, f, pc).Some? && FreshRow(sec, f, pc).value.answer == a
    ensures Separate(a.rules.Keys, total)
  {
    hide FreshRow;
    hide RowOfCode;
    hide Separate;
    hide HasCode;
    FreshRowOfCode(sec, f, pc, code.cie, code.fde);
    RulesOfCode(sec, f, pc, code, total);
    SeparatePart(a.rules.Keys, RuleRegs(code.cie) + RuleRegs(code.fde), total);
  }

  // ------------------------------------------------------- assembled sections

  /** An FDE and its CIE as they were written, with the instructions of both. */
  datatype Unit = Unit(cieOff: nat, cie: Asm.CieSpec, off: nat, fde: Asm.FdeSpec, cieCode: seq<Insn>, fdeCode: seq<Insn>)

  predicate UnitFits(w: Width, u: Unit) {
    && Asm.CieFits(w, u.cie) && Asm.FdeFits(w, u.cie, u.cieOff, u.fde, u.off)
    && AllFit(w, u.cieCode) && u.cie.code == Assembled(w, u.cieCode)
    && AllFit(w, u.fdeCode) && u.fde.code == Assembled(w, u.fdeCode)
  }

  /** The section holds the bytes of the unit, the bases its pointers need are set, and
      both readers take its ranges in one format. */
  predicate WrittenIn(s: Eh.Section, u: Unit) {
    && UnitFits(s.w, u) && Asm.BasesFor(s.bases, u.cie) && Asm.PlainSpec(u.cie)
    && Holds(s.mem, u.cieOff, Asm.CieBytes(s.w, u.cie))
    && Holds(s.mem, u.off, Asm.FdeBytes(s.w, u.cie, u.cieOff, u.fde, u.off))
  }

  /** The unit as the interpreter sees it. */
  function FdeFrom(w: Width, u: Unit): Fde
    requires UnitFits(w, u)
  {
    var c, f := Asm.CieWritten(w, u.cie, u.cieOff), Asm.FdeWritten(w, u.cie, u.cieOff, u.fde, u.off);
    Fde(u.cieOff, Cie(u.cie.codeAlign, u.cie.dataAlign, u.cie.returnReg, c.start, c.end), f.start, f.end, f.pcStart, f.pcEnd)
  }

  /** The records of the index are of these units. */
  predicate Describe(s: Eh.Section, index: seq<Eh.FdeInfo>, units: seq<Unit>) {
    |index| == |units| && forall k :: 0 <= k < |units| ==> index[k].offset == units[k].off && WrittenIn(s, units[k])
  }

  function Laid(s: Eh.Section, index: seq<Eh.FdeInfo>, units: seq<Unit>): (sec: Section)
    requires Describe(s, index, units)
    ensures sec.w == s.w && sec.mem == s.mem && |sec.fdes| == |units|
    ensures forall k :: 0 <= k < |units| ==> WrittenIn(s, units[k]) && sec.fdes[k] == FdeFrom(s.w, units[k])
  {
    Section(s.w, s.mem, seq(|units|, k requires 0 <= k < |units| => assert WrittenIn(s, units[k]); FdeFrom(s.w, units[k])))
  }

  /** The parser finds what was written. */
  lemma UnitParsed(s: Eh.Section, u: Unit, info: Eh.FdeInfo)
    requires WrittenIn(s, u) && info.offset == u.off
    ensures AcceptedAt(s, info) && FdeOf(s, info) == Some(FdeFrom(s.w, u))
  {
    hide Eh.FullFdeAt;
    hide Eh.FullCieAt;
    hide Holds;
    hide Asm.CieFits;
    hide Asm.FdeFits;
    hide Asm.CieBytes;
    hide Asm.FdeBytes;
    hide AllFit;
    Asm.FdeReads(s, u.cieOff, u.cie, u.off, u.fde);
    Asm.CieReads(s, u.cieOff, u.cie);
    CieOffsetOf(s, u.off);
    hide Eh.HeaderAt;
  }

  lemma UnitCode(s: Eh.Section, u: Unit, sec: Section)
    requires WrittenIn(s, u) && sec.w == s.w && sec.mem == s.mem
    ensures var f := FdeFrom(s.w, u);
      HasCode(sec, f.cie.start, f.cie.end, u.cieCode) && HasCode(sec, f.start, f.end, u.fdeCode)
  {
    hide Holds;
    hide Asm.CieFits;
    hide Asm.FdeFits;
    hide AllFit;
    hide Assembled;
    hide Asm.FunctionStart;
    Asm.CieCodeHeld(s, u.cieOff, u.cie);
    Asm.FdeCodeHeld(s, u.cieOff, u.cie, u.off, u.fde);
    hide Asm.CieBytes;
    hide Asm.FdeBytes;
  }

  lemma LaidIsParsed(s: Eh.Section, index: seq<Eh.FdeInfo>, units: seq<Unit>)
    requires Describe(s, index, units)
    ensures Accepted(s, index) && Parsed(s, index) == Laid(s, index, units)
  {
    hide AcceptedAt;
    hide WrittenIn;
    hide FdeOf;
    hide FdeFrom;
    forall k | 0 <= k < |index| ensures AcceptedAt(s, index[k]) && FdeOf(s, index[k]) == Some(Laid(s, index, units).fdes[k]) {
      UnitParsed(s, units[k], index[k]);
    }
    assert Parsed(s, index).fdes == Laid(s, index, units).fdes;
  }

  /** The address of the unit's function. */
  function StartOf(w: Width, u: Unit): nat
    requires UnitFits(w, u)
  {
    Asm.FunctionStart(w, u.cie, u.fde, u.off)
  }

  /** The instructions of the CIE, which end where it ends, and the FDE's. */
  function CieProgramOf(s: Eh.Section, u: Unit): Program
    requires UnitFits(s.w, u)
  {
    Program(s.w, s.mem, u.cie.codeAlign, u.cie.dataAlign, (StartOf(s.w, u) + u.fde.length) % TWO64,
            u.cieOff + |Asm.CieBytes(s.w, u.cie)|, None)
  }

  function FdeProgramOf(s: Eh.Section, u: Unit, rules: Rules): Program
    requires UnitFits(s.w, u)
  {
    Program(s.w, s.mem, u.cie.codeAlign, u.cie.dataAlign, (StartOf(s.w, u) + u.fde.length) % TWO64,
            u.off + |Asm.FdeBytes(s.w, u.cie, u.cieOff, u.fde, u.off)|, Some(rules))
  }

  /** And where they begin. */
  function CieCodeAt(w: Width, u: Unit): nat
    requires UnitFits(w, u)
  {
    u.cieOff + |Asm.CieBytes(w, u.cie)| - |u.cie.code|
  }

  function FdeCodeAt(w: Width, u: Unit): nat
    requires UnitFits(w, u)
  {
    u.off + |Asm.FdeBytes(w, u.cie, u.cieOff, u.fde, u.off)| - |u.fde.code|
  }

  /** The row of a unit at pc: the CIE's instructions from an empty row at the function's
      start, then the FDE's own over what they give. */
  function RowOfUnit(s: Eh.Section, u: Unit, pc: nat): DwarfCfa.Outcome
    requires UnitFits(s.w, u)
  {
    var at := StartOf(s.w, u);
    var c := RowAt(CieProgramOf(s, u), pc, CieCodeAt(s.w, u), State(at, map[], at, []), u.cieCode);
    if !c.Row? then c
    else RowAt(FdeProgramOf(s, u, c.rules), pc, FdeCodeAt(s.w, u), State(at, c.rules, at, c.stack), u.fdeCode)
  }

  /** The registers that the row of a unit assigns, None if there is no row or a rule of
      it has no value. */
  function CallerOf(s: Eh.Section, u: Unit, process: Memory, pcReg: nat, spReg: nat, pc: nat, regs: seq<nat>): Option<seq<nat>>
    requires UnitFits(s.w, u) && pcReg < |regs| && spReg < |regs|
  {
    var row := RowOfUnit(s, u, pc);
    if !row.Row? then None
    else Simultaneous(Frame(s.w, s.mem, process, row.rules, u.cie.returnReg, pcReg, spReg), regs)
  }

  lemma UnitRow(s: Eh.Section, u: Unit, sec: Section, pc: nat)
    requires UnitFits(s.w, u) && sec.w == s.w && sec.mem == s.mem && FdeFrom(s.w, u).pcStart < s.w.Modulus()
    ensures RowOfCode(sec, FdeFrom(s.w, u), pc, u.cieCode, u.fdeCode) == RowOfUnit(s, u, pc)
  {
    hide RowAt;
    hide Asm.CieFits;
    hide Asm.FdeFits;
    hide AllFit;
    hide Assembled;
    hide Asm.CieBytes;
    hide Asm.FdeBytes;
    hide Asm.FunctionStart;
    hide Wrap;
    var f := FdeFrom(s.w, u);
    WrapSmall(s.w, f.pcStart);
    var p := CieProgram(sec, f);
    var c := RowAt(p, pc, f.cie.start, Initial(p, f.pcStart, map[], []), u.cieCode);
    if c.Row? {
      assert c.rules + c.rules == c.rules;
    }
  }

  /** The lists of all units have the shape that compilers give them. */
  predicate UnitsShaped(s: Eh.Section, units: seq<Unit>, total: nat) {
    forall k :: 0 <= k < |units| ==>
      UnitFits(s.w, units[k]) && WellShaped(FdeFrom(s.w, units[k]), Code(units[k].cieCode, units[k].fdeCode), total)
  }

  lemma UnitsAreShaped(s: Eh.Section, index: seq<Eh.FdeInfo>, units: seq<Unit>, total: nat) returns (codes: seq<Code>)
    requires Describe(s, index, units) && UnitsShaped(s, units, total)
    ensures Shaped(Laid(s, index, units), codes, total)
    ensures forall k :: 0 <= k < |units| ==> codes[k] == Code(units[k].cieCode, units[k].fdeCode)
  {
    hide WrittenIn;
    hide UnitFits;
    hide FdeFrom;
    hide HasCode;
    hide WellShaped;
    codes := seq(|units|, k requires 0 <= k < |units| => Code(units[k].cieCode, units[k].fdeCode));
    forall k | 0 <= k < |codes| ensures ShapedAt(Laid(s, index, units), Laid(s, index, units).fdes[k], codes[k], total) {
      UnitCode(s, units[k], Laid(s, index, units));
    }
  }

  // ------------------------------------------------------------------ the step

  /** The section holds the units, the index is that of the indexing pass, the ranges are
      disjoint and the instruction lists well shaped. */
  predicate Assembly(s: Eh.Section, start: nat, end: nat, junk: Eh.IndexCie, index: seq<Eh.FdeInfo>, units: seq<Unit>, sec: Section, total: nat) {
    && Indexed(s, start, end, junk, index) && Describe(s, index, units) && sec == Laid(s, index, units)
    && Ordered(sec) && UnitsShaped(s, units, total)
  }

  /** The pc is in the range of FDE k and not its shadowed start. */
  predicate FoundAs(sec: Section, k: nat, pc: nat) { k < |sec.fdes| && Covers(sec.fdes[k], pc) && !Shadowed(sec, k, pc) }

  /** The step did what the row of the unit says. */
  predicate StepsBy(s: Eh.Section, u: Unit, process: Memory, pcReg: nat, spReg: nat, pc: nat, before: seq<nat>,
                    ok: bool, finished: bool, after: seq<nat>) {
    UnitFits(s.w, u) && pcReg < |before| && spReg < |before| &&
    var caller := CallerOf(s, u, process, pcReg, spReg, pc, before);
    ok == caller.Some? && (ok ==> caller == Some(after) && |after| == |before| && finished == (after[pcReg] == 0))
  }

  /** A step over a section given by its bytes: CIEs and FDEs as an assembler writes them,
      with disjoint ranges, well-shaped instruction lists and the index that the indexing
      pass makes. Then, whatever earlier steps cached, a pc in the range of unit k that no
      inclusive end shadows is looked up as that unit, the registers become those that the
      row of its instructions assigns, and the step fails exactly if there is no such row
      or a rule has no value. */
  method StepOverBytes(s: Eh.Section, ghost start: nat, ghost end: nat, ghost junk: Eh.IndexCie, index: seq<Eh.FdeInfo>,
                       d: DwarfSection, r: Registers, process: Memory, pcReg: nat, spReg: nat, pc: nat, order: Rules -> seq<nat>,
                       ghost units: seq<Unit>, ghost k: nat)
    returns (ok: bool, finished: bool)
    requires Assembly(s, start, end, junk, index, units, d.sec, |r.regs|) && GoodCaches(d)
    requires |r.regs| <= |r.saved| == SAVED_REGS && pcReg < |r.regs| && spReg < |r.regs| && pcReg != spReg
    requires forall rules: Rules :: IsOrder(order(rules), rules)
    requires |d.sec.fdes| == |units| && FoundAs(d.sec, k, pc)
    modifies d, r
    ensures GoodCaches(d)
    ensures Lookup(s, index, pc) == Some(d.sec.fdes[k])
    ensures StepsBy(s, units[k], process, pcReg, spReg, pc, old(r.regs), ok, finished, r.regs)
  {
    hide Indexed;
    hide Accepted;
    hide HasCode;
    hide WellShaped;
    hide RowOfCode;
    hide RowOfUnit;
    hide FreshRow;
    hide FdeFromPc;
    hide Lookup;
    hide Simultaneous;
    hide Ordered;
    hide Unwindable;
    hide UnitFits;
    hide WrittenIn;
    ghost var f := d.sec.fdes[k];
    LaidIsParsed(s, index, units);
    LookupExactly(d.sec, pc, k);
    LookupsAgree(s, start, end, junk, index, pc);
    ghost var codes := UnitsAreShaped(s, index, units, |r.regs|);
    assert ShapedAt(d.sec, f, codes[k], |r.regs|);
    ShapedIsUnwindable(d.sec, codes, |r.regs|);
    CodeFits(d.sec, f.cie.start, f.cie.end, codes[k].cie);
    CodeFits(d.sec, f.start, f.end, codes[k].fde);
    FreshRowOfCode(d.sec, f, pc, codes[k].cie, codes[k].fde);
    RangeInWidth(d.sec, k);
    UnitRow(s, units[k], d.sec, pc);
    if FreshRow(d.sec, f, pc).None? {
      OnlyThisFde(d.sec, k, pc);
    }
    ok, finished := DwarfUnwind.Step(d, r, process, pcReg, spReg, pc, order);
  }

  lemma RangeInWidth(sec: Section, k: nat)
    requires Ordered(sec) && k < |sec.fdes|
    ensures sec.fdes[k].pcStart < sec.w.Modulus()
  {
  }

  lemma CodeFits(sec: Section, start: nat, end: nat, code: seq<Insn>)
    requires HasCode(sec, start, end, code)
    ensures AllFit(sec.w, code)
  {
  }

  /** Where the FDE that covers a pc has no row, there is no correct answer. */
  lemma OnlyThisFde(sec: Section, k: nat, pc: nat)
    requires Ordered(sec) && k < |sec.fdes| && FdeFromPc(sec, pc) == Some(sec.fdes[k]) && FreshRow(sec, sec.fdes[k], pc).None?
    ensures forall a :: !Correct(sec, pc, a)
  {
    hide FreshRow;
  }
}
