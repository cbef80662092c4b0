/** DwarfSection::Step: rows are cached by the end of their pc range, and the
    rules of a CIE are cached by the CIE's offset. */
module DwarfStep {
  import opened Machine
  import opened DwarfMemory
  import opened DwarfCfa
  import opened CfaRows

  datatype Cie = Cie(codeAlign: nat, dataAlign: int, returnReg: nat, start: nat, end: nat)

  datatype Fde = Fde(cieOffset: nat, cie: Cie, start: nat, end: nat, pcStart: nat, pcEnd: nat)

  /** The parsed section: its FDEs in the order of their start addresses. */
  datatype Section = Section(w: Width, mem: Memory, fdes: seq<Fde>)

  /** What Step hands to Eval. */
  datatype Answer = Answer(cie: Cie, rules: Rules)

  datatype CachedRow = CachedRow(answer: Answer, start: nat, end: nat)

  datatype Caches = Caches(rows: map<nat, CachedRow>, cies: map<nat, Rules>)

  predicate Covers(f: Fde, pc: nat) { f.pcStart <= pc < f.pcEnd }

  /** Ranges are ordered, pairwise disjoint and fit the address width; one offset
      names one CIE. Neighbours may touch. */
  predicate Ordered(sec: Section) {
    && (forall i :: 0 <= i < |sec.fdes| ==> sec.fdes[i].pcStart < sec.fdes[i].pcEnd < sec.w.Modulus())
    && (forall i, j :: 0 <= i < j < |sec.fdes| ==> sec.fdes[i].pcEnd <= sec.fdes[j].pcStart)
    && (forall i, j :: 0 <= i < |sec.fdes| && 0 <= j < |sec.fdes| && sec.fdes[i].cieOffset == sec.fdes[j].cieOffset
         ==> sec.fdes[i].cie == sec.fdes[j].cie)
  }

  // ------------------------------------------------------- finding the FDE

  /** The binary search of GetFdeOffsetFromPc: the end of a range counts as inside. */
  function Search(fdes: seq<Fde>, pc: nat, first: nat, last: nat): (r: Option<Fde>)
    requires first <= last <= |fdes|
    ensures r.Some? ==> r.value in fdes && r.value.pcStart <= pc <= r.value.pcEnd
    decreases last - first
  {
    if first == last then None
    else
      var mid := (first + last) / 2;
      if fdes[mid].pcStart <= pc <= fdes[mid].pcEnd then Some(fdes[mid])
      else if pc < fdes[mid].pcStart then Search(fdes, pc, first, mid)
      else Search(fdes, pc, mid + 1, last)
  }

  /** GetFdeFromPc: a pc that is only an inclusive end is refused afterwards. */
  function FdeFromPc(sec: Section, pc: nat): (r: Option<Fde>)
    ensures r.Some? ==> r.value in sec.fdes && Covers(r.value, pc)
  {
    match Search(sec.fdes, pc, 0, |sec.fdes|)
    case None => None
    case Some(f) => if pc < f.pcEnd then Some(f) else None
  }

  /** The search between first and last looks at FDE k - 1 before FDE k. */
  predicate LeftFirst(k: nat, first: nat, last: nat)
    requires first <= k < last
    decreases last - first
  {
    var mid := (first + last) / 2;
    if mid == k then false
    else if mid + 1 == k then true
    else if k < mid then LeftFirst(k, first, mid)
    else LeftFirst(k, mid + 1, last)
  }

  /** pc is the start of FDE k, the previous FDE ends there, and it is met first. */
  predicate Shadowed(sec: Section, k: nat, pc: nat)
    requires k < |sec.fdes|
  {
    k > 0 && sec.fdes[k - 1].pcEnd == pc && LeftFirst(k, 0, |sec.fdes|)
  }

  lemma {:induction false} SearchExactly(sec: Section, pc: nat, first: nat, last: nat, k: nat)
    requires Ordered(sec) && first <= k < last <= |sec.fdes| && Covers(sec.fdes[k], pc)
    ensures Search(sec.fdes, pc, first, last)
         == if k > 0 && sec.fdes[k - 1].pcEnd == pc && LeftFirst(k, first, last)
            then Some(sec.fdes[k - 1]) else Some(sec.fdes[k])
    decreases last - first
  {
    var mid := (first + last) / 2;
    assert k < mid ==> sec.fdes[k].pcEnd <= sec.fdes[mid].pcStart;
    assert mid < k ==> sec.fdes[mid].pcStart < sec.fdes[mid].pcEnd <= sec.fdes[k].pcStart;
    assert mid + 1 < k ==> sec.fdes[mid].pcEnd <= sec.fdes[k - 1].pcStart < sec.fdes[k - 1].pcEnd <= sec.fdes[k].pcStart;
    if k < mid {
      SearchExactly(sec, pc, first, mid, k);
    } else if mid < k {
      SearchExactly(sec, pc, mid + 1, last, k);
    }
    hide Ordered;
  }

  /** The lookup finds the FDE that covers pc unless the inclusive end of the
      previous FDE shadows it, and then it fails. */
  lemma LookupExactly(sec: Section, pc: nat, k: nat)
    requires Ordered(sec) && k < |sec.fdes| && Covers(sec.fdes[k], pc)
    ensures FdeFromPc(sec, pc) == if Shadowed(sec, k, pc) then None else Some(sec.fdes[k])
  {
    SearchExactly(sec, pc, 0, |sec.fdes|, k);
  }

  // ------------------------------------------------------------ fresh rows

  function CieProgram(sec: Section, f: Fde): Program {
    Program(sec.w, sec.mem, f.cie.codeAlign, f.cie.dataAlign, f.pcEnd, f.cie.end, None)
  }

  function FdeProgram(sec: Section, f: Fde, cieRules: Rules): Program {
    Program(sec.w, sec.mem, f.cie.codeAlign, f.cie.dataAlign, f.pcEnd, f.end, Some(cieRules))
  }

  function CieRun(sec: Section, f: Fde, pc: nat): Outcome {
    LocationInfo(CieProgram(sec, f), f.pcStart, pc, f.cie.start, map[], [])
  }

  function FdeRun(sec: Section, f: Fde, pc: nat, cieRules: Rules, rules: Rules, stack: seq<Saved>): Outcome {
    LocationInfo(FdeProgram(sec, f, cieRules), f.pcStart, pc, f.start, rules, stack)
  }

  function ToRow(f: Fde, o: Outcome): (r: Option<CachedRow>) {
    if o.Row? then Some(CachedRow(Answer(f.cie, o.rules), o.start, o.end)) else None
  }

  /** GetCfaLocationInfo: the row, and the CIE cache afterwards. */
  function CfaLocationInfo(sec: Section, f: Fde, pc: nat, cies: map<nat, Rules>): (Option<CachedRow>, map<nat, Rules>) {
    if f.cieOffset in cies then
      (ToRow(f, FdeRun(sec, f, pc, cies[f.cieOffset], map[], [])), cies)
    else
      var c := CieRun(sec, f, pc);
      if !c.Row? then (None, cies)
      else (ToRow(f, FdeRun(sec, f, pc, c.rules, c.rules, c.stack)), cies[f.cieOffset := c.rules])
  }

  /** Interpretation of one FDE at one pc with nothing cached. */
  function FreshRow(sec: Section, f: Fde, pc: nat): Option<CachedRow> {
    CfaLocationInfo(sec, f, pc, map[]).0
  }

  /** What Step would evaluate at pc with nothing cached. */
  function Fresh(sec: Section, pc: nat): Option<CachedRow> {
    match FdeFromPc(sec, pc)
    case None => None
    case Some(f) => FreshRow(sec, f, pc)
  }

  /** The answer is the interpretation of an FDE that covers pc. */
  predicate Correct(sec: Section, pc: nat, a: Answer) {
    exists i :: 0 <= i < |sec.fdes| && Covers(sec.fdes[i], pc)
             && FreshRow(sec, sec.fdes[i], pc).Some? && FreshRow(sec, sec.fdes[i], pc).value.answer == a
  }

  lemma CorrectIsUnique(sec: Section, pc: nat, a: Answer, b: Answer)
    requires Ordered(sec) && Correct(sec, pc, a) && Correct(sec, pc, b)
    ensures a == b
  {
  }

  // ------------------------------------------------------- the CIE's rules

  /** A CIE program that never moves the location. */
  predicate Still(p: Program, off: nat)
    decreases p.end - off
  {
    if off >= p.end then true
    else
      match Decode(p, off)
      case Bad(_) => true
      case Op(i, next) => !i.SetLoc? && !i.Advance? && (next <= off || Still(p, next))
  }

  predicate SameSaved(a: seq<Saved>, b: seq<Saved>) {
    |a| == |b| && forall i :: 0 <= i < |a| ==> a[i].rules == b[i].rules
  }

  lemma DecodeSame(p: Program, q: Program, off: nat)
    requires q == p.(pcEnd := q.pcEnd)
    ensures Decode(p, off) == Decode(q, off)
  {
    hide UlebAt;
    hide ReadOperands;
    hide Factored;
    hide ProductDefined;
  }

  /** An instruction that does not move keeps equal rules equal. */
  lemma ExecSame(p: Program, q: Program, s: State, t: State, i: Instr)
    requires q == p.(pcEnd := q.pcEnd) && !i.SetLoc? && !i.Advance?
    requires s.rules == t.rules && SameSaved(s.stack, t.stack)
    ensures Exec(p, s, i).Some? <==> Exec(q, t, i).Some?
    ensures Exec(p, s, i).Some? ==> Exec(p, s, i).value.pc == s.pc && Exec(q, t, i).value.pc == t.pc
    ensures Exec(p, s, i).Some? ==> Exec(p, s, i).value.rules == Exec(q, t, i).value.rules
    ensures Exec(p, s, i).Some? ==> SameSaved(Exec(p, s, i).value.stack, Exec(q, t, i).value.stack)
  {
  }

  /** A still program does not notice which pc or which FDE it runs for. */
  lemma {:induction false} StillRun(p: Program, q: Program, pc: nat, pc2: nat, off: nat, s: State, t: State)
    requires q == p.(pcEnd := q.pcEnd) && Still(p, off) && s.pc <= pc && t.pc <= pc2
    requires s.rules == t.rules && SameSaved(s.stack, t.stack)
    ensures var a, b := Run(p, pc, off, s), Run(q, pc2, off, t);
      (a.Row? <==> b.Row?) && (a.Row? ==> a.rules == b.rules && SameSaved(a.stack, b.stack))
    decreases p.end - off
  {
    DecodeSame(p, q, off);
    hide Decode;
    hide Exec;
    hide SameSaved;
    if off < p.end && Decode(p, off).Op? {
      var d := Decode(p, off);
      var s1, t1 := Exec(p, s.(start := s.pc), d.instr), Exec(q, t.(start := t.pc), d.instr);
      ExecSame(p, q, s.(start := s.pc), t.(start := t.pc), d.instr);
      if s1.Some? && off < d.next {
        StillRun(p, q, pc, pc2, d.next, s1.value, t1.value);
      }
    }
  }

  /** CIE programs stay still and close every state they remember. */
  predicate CiesSettled(sec: Section) {
    forall i :: 0 <= i < |sec.fdes| ==>
      Still(CieProgram(sec, sec.fdes[i]), sec.fdes[i].cie.start)
      && (CieRun(sec, sec.fdes[i], sec.fdes[i].pcStart).Row? ==> CieRun(sec, sec.fdes[i], sec.fdes[i].pcStart).stack == [])
  }

  /** The rules a CIE gives are the same from every FDE that uses it, at every pc. */
  lemma CieRulesAgree(sec: Section, i: nat, j: nat, pc: nat, pc2: nat)
    requires Ordered(sec) && CiesSettled(sec) && i < |sec.fdes| && j < |sec.fdes|
    requires sec.fdes[i].cieOffset == sec.fdes[j].cieOffset && Covers(sec.fdes[i], pc) && Covers(sec.fdes[j], pc2)
    ensures var a, b := CieRun(sec, sec.fdes[i], pc), CieRun(sec, sec.fdes[j], pc2);
      (a.Row? <==> b.Row?) && (a.Row? ==> a.rules == b.rules && a.stack == b.stack == [])
  {
    var f, g := sec.fdes[i], sec.fdes[j];
    var p, q := CieProgram(sec, f), CieProgram(sec, g);
    var s, t := Initial(p, f.pcStart, map[], []), Initial(q, g.pcStart, map[], []);
    StillRun(p, q, pc, pc2, f.cie.start, s, t);
    StillRun(p, p, pc, f.pcStart, f.cie.start, s, s);
  }

  /** Every cached CIE is what any run of it would give again. */
  ghost predicate GoodCies(sec: Section, cies: map<nat, Rules>) {
    forall i, pc :: 0 <= i < |sec.fdes| && Covers(sec.fdes[i], pc) && sec.fdes[i].cieOffset in cies ==>
      CieRun(sec, sec.fdes[i], pc).Row? && CieRun(sec, sec.fdes[i], pc).rules == cies[sec.fdes[i].cieOffset]
  }

  /** The CIE cache is invisible: cached or not, the row is the fresh one. */
  lemma CieCacheTransparent(sec: Section, k: nat, pc: nat, cies: map<nat, Rules>)
    requires Ordered(sec) && CiesSettled(sec) && GoodCies(sec, cies) && k < |sec.fdes| && Covers(sec.fdes[k], pc)
    ensures CfaLocationInfo(sec, sec.fdes[k], pc, cies).0 == FreshRow(sec, sec.fdes[k], pc)
    ensures GoodCies(sec, CfaLocationInfo(sec, sec.fdes[k], pc, cies).1)
  {
    var f := sec.fdes[k];
    var c := CieRun(sec, f, pc);
    CieRulesAgree(sec, k, k, pc, pc);
    if c.Row? {
      var none: Rules := map[];
      assert none + c.rules == c.rules && c.rules + c.rules == c.rules;
    }
    var after := CfaLocationInfo(sec, f, pc, cies).1;
    forall i, pc2 | 0 <= i < |sec.fdes| && Covers(sec.fdes[i], pc2) && sec.fdes[i].cieOffset in after
      ensures CieRun(sec, sec.fdes[i], pc2).Row? && CieRun(sec, sec.fdes[i], pc2).rules == after[sec.fdes[i].cieOffset]
    {
      if sec.fdes[i].cieOffset == f.cieOffset {
        CieRulesAgree(sec, k, i, pc, pc2);
      }
    }
  }

  // ---------------------------------------------------------- the row cache

  lemma {:induction false} Least(s: set<nat>) returns (least: nat)
    requires s != {}
    ensures least in s && forall y :: y in s ==> least <= y
    decreases s
  {
    least :| least in s;
    var rest := s - {least};
    assert forall y :: y in s ==> y == least || y in rest;
    if rest != {} {
      var z := Least(rest);
      least := if least <= z then least else z;
    }
  }

  lemma LeastExists(s: set<nat>)
    requires s != {}
    ensures exists x :: x in s && forall y :: y in s ==> x <= y
  {
    var least := Least(s);
  }

  /** upper_bound: the least cached row end above pc. */
  function UpperBound(rows: map<nat, CachedRow>, pc: nat): (r: Option<nat>)
    ensures r.None? ==> forall k :: k in rows ==> k <= pc
    ensures r.Some? ==> r.value in rows && pc < r.value && forall k :: k in rows && pc < k ==> r.value <= k
  {
    var above := set k | k in rows && pc < k;
    if above == {} then
      assert forall k :: k in rows && pc < k ==> k in above;
      None
    else
      LeastExists(above);
      var x :| x in above && forall y :: y in above ==> x <= y;
      assert forall k :: k in rows && pc < k ==> k in above;
      Some(x)
  }

  /** Step, as far as the choice of rules goes. A row is emplaced: when its end is
      already a key, the row that is there stays and is the one evaluated. */
  function Stepped(sec: Section, c: Caches, pc: nat): (Caches, Option<Answer>) {
    var hit := UpperBound(c.rows, pc);
    if hit.Some? && c.rows[hit.value].start <= pc then (c, Some(c.rows[hit.value].answer))
    else
      match FdeFromPc(sec, pc)
      case None => (c, None)
      case Some(f) =>
        var (row, cies) := CfaLocationInfo(sec, f, pc, c.cies);
        if row.None? then (c.(cies := cies), None)
        else if row.value.end in c.rows then (c.(cies := cies), Some(c.rows[row.value.end].answer))
        else (Caches(c.rows[row.value.end := row.value], cies), Some(row.value.answer))
  }

  /** The answers to a history of Step calls. */
  function Answers(sec: Section, c: Caches, pcs: seq<nat>): (r: seq<Option<Answer>>)
    ensures |r| == |pcs|
    decreases |pcs|
  {
    if pcs == [] then []
    else
      var (c', a) := Stepped(sec, c, pcs[0]);
      [a] + Answers(sec, c', pcs[1..])
  }

  const EMPTY := Caches(map[], map[])

  /** Every answer of every history is the interpretation of the FDE that covers the pc. */
  ghost predicate Transparent(sec: Section) {
    forall pcs: seq<nat>, i :: 0 <= i < |pcs| && Answers(sec, EMPTY, pcs)[i].Some? ==>
      Correct(sec, pcs[i], Answers(sec, EMPTY, pcs)[i].value)
  }

  /** Every row that can be computed is right on the whole range it claims. */
  ghost predicate RowsUniform(sec: Section) {
    forall pc, pc2 :: Fresh(sec, pc).Some? && Fresh(sec, pc).value.start <= pc2 < Fresh(sec, pc).value.end ==>
      Correct(sec, pc2, Fresh(sec, pc).value.answer)
  }

  ghost predicate GoodRows(sec: Section, rows: map<nat, CachedRow>) {
    forall k :: k in rows ==> RightOn(sec, rows[k], k)
  }

  ghost predicate RightOn(sec: Section, row: CachedRow, end: nat) {
    row.start < end && forall pc :: row.start <= pc < end ==> Correct(sec, pc, row.answer)
  }

  lemma FreshCovers(sec: Section, k: nat, pc: nat)
    requires Ordered(sec) && CiesSettled(sec) && k < |sec.fdes| && Covers(sec.fdes[k], pc)
    requires FreshRow(sec, sec.fdes[k], pc).Some?
    ensures FreshRow(sec, sec.fdes[k], pc).value.start <= pc < FreshRow(sec, sec.fdes[k], pc).value.end
  {
    var f := sec.fdes[k];
    CieRulesAgree(sec, k, k, pc, pc);
    var r := CieRun(sec, f, pc).rules;
    var p := FdeProgram(sec, f, r);
    RowCoversPc(p, pc, f.start, Initial(p, f.pcStart, r, []));
  }

  /** A fresh row agrees with a cached row that has the same end. */
  lemma SameEndSameAnswer(sec: Section, rows: map<nat, CachedRow>, pc: nat, row: CachedRow)
    requires Ordered(sec) && GoodRows(sec, rows) && RightOn(sec, row, row.end)
    requires row.start <= pc < row.end && row.end in rows
    ensures rows[row.end].answer == row.answer
  {
    var start := rows[row.end].start;
    assert RightOn(sec, rows[row.end], row.end);
    CorrectIsUnique(sec, if start <= pc then pc else start, row.answer, rows[row.end].answer);
  }

  /** A miss: the answer is the fresh one and the caches stay good. */
  lemma MissIsCorrect(sec: Section, c: Caches, pc: nat, k: nat)
    requires Ordered(sec) && CiesSettled(sec) && RowsUniform(sec) && GoodCies(sec, c.cies) && GoodRows(sec, c.rows)
    requires k < |sec.fdes| && FdeFromPc(sec, pc) == Some(sec.fdes[k])
    requires UpperBound(c.rows, pc).Some? ==> pc < c.rows[UpperBound(c.rows, pc).value].start
    ensures var (c', a) := Stepped(sec, c, pc);
      GoodCies(sec, c'.cies) && GoodRows(sec, c'.rows)
      && (Fresh(sec, pc).None? ==> a.None?) && (Fresh(sec, pc).Some? ==> a == Some(Fresh(sec, pc).value.answer))
  {
    CieCacheTransparent(sec, k, pc, c.cies);
    if Fresh(sec, pc).Some? {
      var row := Fresh(sec, pc).value;
      FreshCovers(sec, k, pc);
      assert RightOn(sec, row, row.end);
      if row.end in c.rows {
        SameEndSameAnswer(sec, c.rows, pc, row);
      }
    }
  }

  /** One Step from good caches: the answer is correct, it exists whenever a fresh
      interpretation does, and the caches stay good. */
  lemma StepIsCorrect(sec: Section, c: Caches, pc: nat)
    requires Ordered(sec) && CiesSettled(sec) && RowsUniform(sec) && GoodCies(sec, c.cies) && GoodRows(sec, c.rows)
    ensures var (c', a) := Stepped(sec, c, pc);
      GoodCies(sec, c'.cies) && GoodRows(sec, c'.rows)
      && (a.Some? ==> Correct(sec, pc, a.value)) && (Fresh(sec, pc).Some? ==> a == Some(Fresh(sec, pc).value.answer))
  {
    if Fresh(sec, pc).Some? {
      assert Correct(sec, pc, Fresh(sec, pc).value.answer);
    }
    var hit := UpperBound(c.rows, pc);
    if hit.Some? && c.rows[hit.value].start <= pc {
      assert RightOn(sec, c.rows[hit.value], hit.value);
      if Fresh(sec, pc).Some? {
        CorrectIsUnique(sec, pc, Fresh(sec, pc).value.answer, c.rows[hit.value].answer);
      }
    } else if FdeFromPc(sec, pc).Some? {
      var k :| 0 <= k < |sec.fdes| && sec.fdes[k] == FdeFromPc(sec, pc).value;
      MissIsCorrect(sec, c, pc, k);
    }
  }

  lemma {:induction false} HistoryIsCorrect(sec: Section, c: Caches, pcs: seq<nat>, i: nat)
    requires Ordered(sec) && CiesSettled(sec) && RowsUniform(sec) && GoodCies(sec, c.cies) && GoodRows(sec, c.rows)
    requires i < |pcs|
    ensures var a := Answers(sec, c, pcs)[i];
      (a.Some? ==> Correct(sec, pcs[i], a.value))
      && (Fresh(sec, pcs[i]).Some? ==> a == Some(Fresh(sec, pcs[i]).value.answer))
    decreases |pcs|
  {
    StepIsCorrect(sec, c, pcs[0]);
    if i > 0 {
      HistoryIsCorrect(sec, Stepped(sec, c, pcs[0]).0, pcs[1..], i - 1);
    }
  }

  /** A row found fresh answers for everything in its range one call later. */
  lemma SecondCallHits(sec: Section, pc: nat, pc2: nat)
    requires Fresh(sec, pc).Some? && Fresh(sec, pc).value.start <= pc2 < Fresh(sec, pc).value.end
    ensures Answers(sec, EMPTY, [pc, pc2])[1] == Some(Fresh(sec, pc).value.answer)
  {
    var row := Fresh(sec, pc).value;
    var c1 := Stepped(sec, EMPTY, pc).0;
    assert c1.rows == map[row.end := row];
    assert UpperBound(c1.rows, pc2) == Some(row.end);
    assert [pc, pc2][1..] == [pc2];
    assert Answers(sec, c1, [pc2])[0] == Stepped(sec, c1, pc2).1;
  }

  lemma UniformMakesTransparent(sec: Section)
    requires Ordered(sec) && CiesSettled(sec) && RowsUniform(sec)
    ensures Transparent(sec)
  {
    forall pcs: seq<nat>, i | 0 <= i < |pcs| && Answers(sec, EMPTY, pcs)[i].Some?
      ensures Correct(sec, pcs[i], Answers(sec, EMPTY, pcs)[i].value)
    {
      HistoryIsCorrect(sec, EMPTY, pcs, i);
    }
  }

  lemma TransparentMakesUniform(sec: Section, pc: nat, pc2: nat)
    requires Transparent(sec)
    requires Fresh(sec, pc).Some? && Fresh(sec, pc).value.start <= pc2 < Fresh(sec, pc).value.end
    ensures Correct(sec, pc2, Fresh(sec, pc).value.answer)
  {
    SecondCallHits(sec, pc, pc2);
    var pcs := [pc, pc2];
    assert pcs[1] == pc2 && Answers(sec, EMPTY, pcs)[1].Some?;
  }

  /** The row cache is transparent on every history exactly when every row is
      uniform on the range it claims. */
  lemma RowCacheTransparency(sec: Section)
    requires Ordered(sec) && CiesSettled(sec)
    ensures Transparent(sec) <==> RowsUniform(sec)
  {
    if RowsUniform(sec) {
      UniformMakesTransparent(sec);
    }
    if Transparent(sec) {
      forall pc, pc2 | Fresh(sec, pc).Some? && Fresh(sec, pc).value.start <= pc2 < Fresh(sec, pc).value.end
        ensures Correct(sec, pc2, Fresh(sec, pc).value.answer)
      {
        TransparentMakesUniform(sec, pc, pc2);
      }
    }
  }

  /** FDE programs that only move forward, stay inside their range and do not end
      by restoring an older row's start. */
  predicate WellBehavedAt(sec: Section, f: Fde, pc: nat) {
    FreshRow(sec, f, pc).Some? ==>
      var r := CieRun(sec, f, pc).rules;
      var p := FdeProgram(sec, f, r);
      var s := Initial(p, f.pcStart, r, []);
      NonDecreasing(p, pc, f.start, s) && !EndsInStaleRestore(p, pc, f.start, s)
      && FreshRow(sec, f, pc).value.end <= f.pcEnd
  }

  ghost predicate WellBehaved(sec: Section) {
    forall k, pc :: 0 <= k < |sec.fdes| && Covers(sec.fdes[k], pc) ==> WellBehavedAt(sec, sec.fdes[k], pc)
  }

  /** Under settled CIEs the fresh row is the FDE's run over the CIE's rules. */
  lemma FreshRowIsRun(sec: Section, k: nat, pc: nat, pc2: nat)
    requires Ordered(sec) && CiesSettled(sec) && k < |sec.fdes|
    requires Covers(sec.fdes[k], pc) && Covers(sec.fdes[k], pc2) && CieRun(sec, sec.fdes[k], pc).Row?
    ensures var f, r := sec.fdes[k], CieRun(sec, sec.fdes[k], pc).rules;
      var p := FdeProgram(sec, f, r);
      FreshRow(sec, f, pc2) == ToRow(f, Run(p, pc2, f.start, Initial(p, f.pcStart, r, [])))
  {
    CieRulesAgree(sec, k, k, pc, pc2);
  }

  /** A run that moves forward and does not end in a stale restore is the same
      at every pc of the row it returns, and that row starts no earlier than it. */
  lemma ForwardRow(p: Program, pc: nat, pc2: nat, off: nat, s: State)
    requires Run(p, pc, off, s).Row? && s.start == s.pc
    requires NonDecreasing(p, pc, off, s) && !EndsInStaleRestore(p, pc, off, s)
    requires Run(p, pc, off, s).start <= pc2 < Run(p, pc, off, s).end
    ensures s.pc <= Run(p, pc, off, s).start
    ensures Run(p, pc2, off, s).Row? && Run(p, pc2, off, s).rules == Run(p, pc, off, s).rules
  {
    UniformUnlessStaleRestore(p, pc, off, s);
    IssuedMonotone(p, pc, off, s, Run(p, pc, off, s).start, pc2);
    SameBelowEnd(p, pc, pc2, off, s);
  }

  /** One FDE's row is right on its whole range. */
  lemma WellBehavedRow(sec: Section, k: nat, pc: nat, pc2: nat)
    requires Ordered(sec) && CiesSettled(sec) && k < |sec.fdes| && Covers(sec.fdes[k], pc)
    requires WellBehavedAt(sec, sec.fdes[k], pc) && FreshRow(sec, sec.fdes[k], pc).Some?
    requires FreshRow(sec, sec.fdes[k], pc).value.start <= pc2 < FreshRow(sec, sec.fdes[k], pc).value.end
    ensures Covers(sec.fdes[k], pc2) && FreshRow(sec, sec.fdes[k], pc2).Some?
    ensures FreshRow(sec, sec.fdes[k], pc2).value.answer == FreshRow(sec, sec.fdes[k], pc).value.answer
  {
    var f, r := sec.fdes[k], CieRun(sec, sec.fdes[k], pc).rules;
    var p := FdeProgram(sec, f, r);
    var s := Initial(p, f.pcStart, r, []);
    FreshRowIsRun(sec, k, pc, pc);
    ForwardRow(p, pc, pc2, f.start, s);
    WrapSmall(sec.w, f.pcStart);
    FreshRowIsRun(sec, k, pc, pc2);
  }

  /** The documented shape of unwind tables is enough for transparency: on every
      history Step evaluates the rules of a fresh interpretation. */
  lemma WellBehavedIsTransparent(sec: Section, pcs: seq<nat>, i: nat)
    requires Ordered(sec) && CiesSettled(sec) && WellBehaved(sec) && i < |pcs|
    ensures Transparent(sec)
    ensures Fresh(sec, pcs[i]).Some? ==> Answers(sec, EMPTY, pcs)[i] == Some(Fresh(sec, pcs[i]).value.answer)
  {
    forall pc, pc2 | Fresh(sec, pc).Some? && Fresh(sec, pc).value.start <= pc2 < Fresh(sec, pc).value.end
      ensures Correct(sec, pc2, Fresh(sec, pc).value.answer)
    {
      var f := FdeFromPc(sec, pc).value;
      var k :| 0 <= k < |sec.fdes| && sec.fdes[k] == f;
      WellBehavedRow(sec, k, pc, pc2);
    }
    RowCacheTransparency(sec);
    HistoryIsCorrect(sec, EMPTY, pcs, i);
  }

  /** Even then the cache can answer where a fresh lookup fails: at a shadowed
      start, once the row that begins there has been cached. */
  lemma ShadowedStartDependsOnHistory(sec: Section, k: nat, pc: nat, pc2: nat)
    requires Ordered(sec) && k < |sec.fdes| && Covers(sec.fdes[k], pc) && Shadowed(sec, k, pc)
    requires Fresh(sec, pc2).Some? && Fresh(sec, pc2).value.start <= pc < Fresh(sec, pc2).value.end
    ensures Answers(sec, EMPTY, [pc]) == [None] && Answers(sec, EMPTY, [pc2, pc])[1].Some?
  {
    LookupExactly(sec, pc, k);
    assert [pc][1..] == [];
    SecondCallHits(sec, pc2, pc);
  }

  /** Three functions in a row, with empty unwind programs. */
  const EMPTY_CIE := Cie(1, -8, 16, 0, 0)
  const IN_A_ROW: seq<Fde> :=
    [Fde(0, EMPTY_CIE, 0, 0, 0x1000, 0x1008), Fde(0, EMPTY_CIE, 0, 0, 0x1008, 0x1010), Fde(0, EMPTY_CIE, 0, 0, 0x1010, 0x1020)]

  lemma EmptyProgramRow(sec: Section, f: Fde, pc: nat)
    requires f.cie.start >= f.cie.end && f.start >= f.end && f.pcStart <= pc && f.pcStart < sec.w.Modulus()
    ensures FreshRow(sec, f, pc) == Some(CachedRow(Answer(f.cie, map[]), f.pcStart, f.pcEnd))
  {
    WrapSmall(sec.w, f.pcStart);
    var none: Rules := map[];
    assert none + none == none;
  }

  /** At the start of the third function a cold Step fails; after a Step inside it, the
      same call answers. */
  lemma ThirdStartIsShadowed(w: Width, mem: Memory)
    ensures var sec := Section(w, mem, IN_A_ROW);
      && Ordered(sec) && Shadowed(sec, 2, 0x1010)
      && Answers(sec, EMPTY, [0x1010]) == [None]
      && Answers(sec, EMPTY, [0x1014, 0x1010])[1].Some?
  {
    var sec := Section(w, mem, IN_A_ROW);
    assert Shadowed(sec, 2, 0x1010);
    assert !Shadowed(sec, 2, 0x1014);
    LookupExactly(sec, 0x1014, 2);
    EmptyProgramRow(sec, IN_A_ROW[2], 0x1014);
    hide FreshRow;
    hide FdeFromPc;
    hide Answers;
    hide Shadowed;
    ShadowedStartDependsOnHistory(sec, 2, 0x1010, 0x1014);
  }

  // ------------------------------------------------------ the section object

  class DwarfSection {
    const sec: Section
    var rows: map<nat, CachedRow>
    var cies: map<nat, Rules>

    constructor (s: Section)
      ensures sec == s && Caches(rows, cies) == EMPTY
    {
      sec := s;
      rows, cies := map[], map[];
    }

    method GetFdeFromPc(pc: nat) returns (f: Option<Fde>)
      ensures f == FdeFromPc(sec, pc)
    {
      var first, last := 0, |sec.fdes|;
      while first < last
        invariant first <= last <= |sec.fdes|
        invariant Search(sec.fdes, pc, first, last) == Search(sec.fdes, pc, 0, |sec.fdes|)
      {
        var current := (first + last) / 2;
        var info := sec.fdes[current];
        if info.pcStart <= pc <= info.pcEnd {
          return if pc < info.pcEnd then Some(info) else None;
        }
        if pc < info.pcStart {
          last := current;
        } else {
          first := current + 1;
        }
      }
      f := None;
    }

    method GetCfaLocationInfo(pc: nat, f: Fde) returns (row: Option<CachedRow>)
      modifies this`cies
      ensures CfaLocationInfo(sec, f, pc, old(cies)) == (row, cies)
    {
      var interpreter := new Interpreter();
      var locRegs: Rules := map[];
      if f.cieOffset !in cies {
        var c := interpreter.GetLocationInfo(CieProgram(sec, f), f.pcStart, pc, f.cie.start, locRegs);
        if !c.Row? {
          return None;
        }
        locRegs := c.rules;
        cies := cies[f.cieOffset := c.rules];
      }
      var o := interpreter.GetLocationInfo(FdeProgram(sec, f, cies[f.cieOffset]), f.pcStart, pc, f.start, locRegs);
      row := ToRow(f, o);
    }

    /** The rules Step evaluates at pc, with the caches it leaves behind. */
    method Step(pc: nat) returns (a: Option<Answer>)
      modifies this
      ensures Stepped(sec, old(Caches(rows, cies)), pc) == (Caches(rows, cies), a)
    {
      var hit := UpperBound(rows, pc);
      if hit.Some? && rows[hit.value].start <= pc {
        return Some(rows[hit.value].answer);
      }
      var f := GetFdeFromPc(pc);
      if f.None? {
        return None;
      }
      var row := GetCfaLocationInfo(pc, f.value);
      if row.None? {
        return None;
      }
      if row.value.end !in rows {
        rows := rows[row.value.end := row.value];
      }
      a := Some(rows[row.value.end].answer);
    }
  }
}
