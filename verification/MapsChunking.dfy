/** When reading the maps through the buffer gives the same outcome however the reads
    split the text, and the same as reading the whole text. */
module MapsChunking {
  import opened Machine
  import opened Maps

  /** Every read grants something. */
  ghost predicate Steady(asked: nat -> Option<nat>) { forall p: nat :: asked(p).Some? }

  // ------------------------------------------------------ behind a bad line

  /** The next complete line that the buffer will hold, from what its front holds and
      what is unread, does not parse, or there is none. */
  predicate Quiet<T>(front: Text, rest: Text, parse: Text -> Option<T>) {
    var all := front + rest;
    var n := Newline(all);
    n < |all| && n < CAPACITY ==> parse(CString(all[..n])).None?
  }

  /** Cutting a bad line short keeps it in front of everything that follows. */
  lemma {:induction false} QuietStays<T>(c: Text, more: Text, n: nat, parse: Text -> Option<T>)
    requires n == Newline(c) < |c| && parse(CString(c[..n])).None?
    ensures Quiet(c[n := 0], more, parse)
  {
    hide Newline;
    hide CString;
    var all := c[n := 0] + more;
    var m := Newline(all);
    if m < |all| {
      assert m > n;
      assert all[..m][..n] == c[..n] && all[..m][n] == 0;
      CStringEnds(all[..m], c[..n]);
    }
  }

  lemma {:induction false} BadFirst<T>(c: Text, parse: Text -> Option<T>)
    requires Newline(c) < |c| && parse(CString(c[..Newline(c)])).None?
    ensures Drain(c, parse) == Drained([], c, c[Newline(c) := 0], false) && Front(Drain(c, parse)) == c[Newline(c) := 0]
  {
    var d := c[Newline(c) := 0];
    assert d[..|c|] == d;
  }

  lemma {:induction false} NoneYet<T>(c: Text, parse: Text -> Option<T>)
    requires Newline(c) == |c|
    ensures Drain(c, parse) == Drained([], c, c, true) && Front(Drain(c, parse)) == c
  {
  }

  /** Nothing more is read from a quiet buffer. */
  lemma {:induction false} QuietReadsNothing<T>(rest: Text, front: Text, parse: Text -> Option<T>, asked: nat -> Option<nat>)
    requires |front| <= CAPACITY && Quiet(front, rest, parse)
    ensures Reading(rest, front, false, parse, asked) == Parsed([], false)
    decreases |rest|
  {
    hide Newline;
    hide CString;
    hide Drain;
    hide Front;
    var none: seq<T> := [];
    if asked(|rest|).Some? {
      var k := Granted(asked(|rest|).value, CAPACITY - |front|, |rest|);
      if k > 0 {
        var c, more := front + rest[..k], rest[k..];
        assert front + rest == c + more;
        if Newline(c) == |c| {
          NoneYet(c, parse);
          hide Quiet;
          QuietReadsNothing(more, c, parse, asked);
        } else {
          var n := Newline(c);
          NewlineIs(c + more, n);
          assert (c + more)[..n] == c[..n];
          BadFirst(c, parse);
          QuietStays(c, more, n, parse);
          hide Quiet;
          QuietReadsNothing(more, c[n := 0], parse, asked);
        }
        assert none + none == none;
      }
    }
  }

  // ------------------------------------------------- the condition on the text

  /** A read that ends t bytes behind a line start, with a bad line in the buffer, is
      followed by no further line that parses. */
  predicate Harmless<T>(u: Text, t: nat, parse: Text -> Option<T>)
    requires t <= |u|
  {
    t == |u| || Drain(u[..t], parse).ok || Quiet(Front(Drain(u[..t], parse)), u[t..], parse)
  }

  /** No good line can be in the buffer together with the first bad line in such a way
      that something parses afterwards: neither the good line itself, which is then read
      a second time, nor its beginning with the end of a later line. */
  predicate Unrepeatable<T>(u: Text, parse: Text -> Option<T>)
    decreases |u|
  {
    var n := Newline(u);
    n == |u| || n >= CAPACITY || parse(CString(u[..n])).None? ||
    ((forall t :: 0 <= t <= |u| && t <= CAPACITY ==> Harmless(u, t, parse)) && Unrepeatable(u[n + 1..], parse))
  }

  lemma {:induction false} UnrepeatableLater<T>(c: Text, more: Text, parse: Text -> Option<T>)
    requires |c| <= CAPACITY && Unrepeatable(c + more, parse) && Drain(c, parse).ok
    ensures Unrepeatable(Drain(c, parse).rest + more, parse)
    decreases |c|
  {
    hide Newline;
    hide CString;
    hide Harmless;
    var n := Newline(c);
    if n < |c| {
      var all := c + more;
      NewlineIs(all, n);
      assert all[..n] == c[..n] && all[n + 1..] == c[n + 1..] + more;
      UnrepeatableLater(c[n + 1..], more, parse);
    }
  }

  /** What is read once a buffer holds a bad line: nothing. */
  lemma {:induction false} NothingBehindBadLine<T>(c: Text, more: Text, parse: Text -> Option<T>, asked: nat -> Option<nat>)
    requires |c| <= CAPACITY && Unrepeatable(c + more, parse) && !Drain(c, parse).ok
    ensures Reading(more, Front(Drain(c, parse)), false, parse, asked) == Parsed([], false)
  {
    hide Newline;
    hide CString;
    hide Drain;
    hide Front;
    hide Reading;
    var all, n := c + more, Newline(c);
    if n == |c| {
      NoneYet(c, parse);
    } else {
      NewlineIs(all, n);
      assert all[..n] == c[..n] && all[..|c|] == c && all[|c|..] == more;
      if parse(CString(c[..n])).None? {
        BadFirst(c, parse);
        QuietStays(c, more, n, parse);
        QuietReadsNothing(more, c[n := 0], parse, asked);
      } else {
        assert Harmless(all, |c|, parse);
        hide Quiet;
        if more == [] {
          NothingLeft(Front(Drain(c, parse)), parse, asked);
        } else {
          QuietReadsNothing(more, Front(Drain(c, parse)), parse, asked);
        }
      }
    }
  }

  lemma {:induction false} NothingLeft<T>(front: Text, parse: Text -> Option<T>, asked: nat -> Option<nat>)
    requires |front| <= CAPACITY
    ensures Reading([], front, false, parse, asked) == Parsed([], false)
  {
  }

  /** On a text with that property every chunking reads line by line. */
  lemma {:induction false} EveryChunkingReads<T>(rest: Text, front: Text, parse: Text -> Option<T>, asked: nat -> Option<nat>)
    requires Steady(asked) && Newline(front) == |front| <= CAPACITY && Unrepeatable(front + rest, parse)
    ensures Reading(rest, front, true, parse, asked) == Chunked(front + rest, parse)
    decreases |rest|
  {
    hide Newline;
    hide CString;
    hide Drain;
    hide Front;
    hide Chunked;
    hide Unrepeatable;
    var k := Granted(asked(|rest|).value, CAPACITY - |front|, |rest|);
    if k == 0 {
      NothingMore(front, rest, parse);
    } else {
      var c, more := front + rest[..k], rest[k..];
      assert front + rest == c + more;
      DrainFirst(c, more, parse);
      var d := Drain(c, parse);
      if d.ok {
        UnrepeatableLater(c, more, parse);
        FrontIsRest(d);
        EveryChunkingReads(more, d.rest, parse, asked);
      } else {
        NothingBehindBadLine(c, more, parse, asked);
        assert d.maps + [] == d.maps;
      }
    }
  }

  lemma {:induction false} FrontIsRest<T>(d: Drained<T>)
    requires d.ok && |d.rest| <= |d.cut|
    ensures Front(d) == d.rest
  {
  }

  /** What the front of the buffer holds behind a bad line: the first line of the buffer,
      ended by a NUL, if that many bytes are left, and otherwise its beginning, to which
      the next read is appended. */
  lemma {:induction false} FrontAfterBadLine<T>(c: Text, n: nat, parse: Text -> Option<T>)
    requires n == Newline(c) < |c| && !Drain(c, parse).ok
    ensures var f := Front(Drain(c, parse));
      if |f| > n then f[..n + 1] == c[..n] + [0] else f == c[..|f|]
  {
    hide Newline;
    hide CString;
    var d := Drain(c, parse);
    assert d.cut[..n] == c[..n] && d.cut[n] == 0;
    var f := Front(d);
    assert |f| > n ==> f[..n + 1] == d.cut[..n + 1] == d.cut[..n] + [0];
  }

  // ---------------------------------------------------------- on every text

  lemma {:induction false} BadStaysBad<T>(rest: Text, front: Text, parse: Text -> Option<T>, asked: nat -> Option<nat>)
    requires |front| <= CAPACITY
    ensures !Reading(rest, front, false, parse, asked).ok
    decreases |rest|
  {
    hide Drain;
    hide Front;
    if asked(|rest|).Some? {
      var k := Granted(asked(|rest|).value, CAPACITY - |front|, |rest|);
      if k > 0 {
        BadStaysBad(rest[k..], Front(Drain(front + rest[..k], parse)), parse, asked);
      }
    }
  }

  /** How a reading relates to the lines up to the first bad one: it succeeds only with
      exactly their maps; a failing read leaves a beginning of them; without failing
      reads the verdict does not depend on the chunking, and behind a bad line maps can
      only be added. */
  ghost predicate Related<T>(r: Parsed<T>, lines: Parsed<T>, steady: bool) {
    && (r.ok ==> r == lines)
    && (lines.ok ==> r.maps <= lines.maps)
    && (steady ==> r.ok == lines.ok && lines.maps <= r.maps)
  }

  lemma {:induction false} RelatedAfter<T>(maps: seq<T>, r: Parsed<T>, lines: Parsed<T>, steady: bool)
    requires Related(r, lines, steady)
    ensures Related(After(maps, r), After(maps, lines), steady)
  {
  }

  lemma {:induction false} ReadingRelated<T>(rest: Text, front: Text, parse: Text -> Option<T>, asked: nat -> Option<nat>)
    requires Newline(front) == |front| <= CAPACITY
    ensures Related(Reading(rest, front, true, parse, asked), Chunked(front + rest, parse), Steady(asked))
    decreases |rest|
  {
    hide Newline;
    hide Drain;
    hide Front;
    hide Chunked;
    if asked(|rest|).Some? {
      var k := Granted(asked(|rest|).value, CAPACITY - |front|, |rest|);
      if k == 0 {
        NothingMore(front, rest, parse);
      } else {
        var c, more := front + rest[..k], rest[k..];
        assert front + rest == c + more;
        DrainFirst(c, more, parse);
        var d := Drain(c, parse);
        if d.ok {
          FrontIsRest(d);
          ReadingRelated(more, d.rest, parse, asked);
          RelatedAfter(d.maps, Reading(more, d.rest, true, parse, asked), Chunked(d.rest + more, parse), Steady(asked));
        } else {
          BadStaysBad(more, Front(d), parse, asked);
        }
      }
    }
  }

  // ------------------------------------------------------- reading byte by byte

  function One(p: nat): Option<nat> { Some(1) }

  lemma {:induction false} AfterNothing<T>(p: Parsed<T>)
    ensures After([], p) == p
  {
    assert [] + p.maps == p.maps;
  }

  /** What reading goes on with behind a line, when it was alone in the buffer. */
  function BehindLine<T>(u: Text, n: nat, parse: Text -> Option<T>, asked: nat -> Option<nat>): Parsed<T>
    requires n < |u| && n < CAPACITY
  {
    var info := parse(CString(u[..n]));
    if info.Some? then After([info.value], Reading(u[n + 1..], [], true, parse, asked))
    else Reading(u[n + 1..], u[..n] + [0], false, parse, asked)
  }

  /** A buffer that holds exactly one line. */
  lemma {:induction false} DrainOneLine<T>(c: Text, n: nat, parse: Text -> Option<T>)
    requires n == Newline(c) && |c| == n + 1
    ensures var info, d := parse(CString(c[..n])), Drain(c, parse);
      if info.Some? then d.maps == [info.value] && d.ok && Front(d) == []
      else d.maps == [] && !d.ok && Front(d) == c[..n] + [0]
  {
    hide Newline;
    hide CString;
    assert c[n + 1..] == [];
    NoneYet<T>([], parse);
    if parse(CString(c[..n])).None? {
      BadFirst(c, parse);
      assert c[n := 0] == c[..n] + [0];
    }
  }

  lemma {:induction false} LineByBytes<T>(u: Text, j: nat, n: nat, parse: Text -> Option<T>, asked: nat -> Option<nat>)
    requires j <= n == Newline(u) < |u| && n < CAPACITY
    requires forall p: nat :: |u| - n <= p <= |u| ==> asked(p) == Some(1)
    ensures Reading(u[j..], u[..j], true, parse, asked) == BehindLine(u, n, parse, asked)
    decreases n - j
  {
    hide Newline;
    hide CString;
    hide Drain;
    hide Front;
    hide Reading;
    hide BehindLine;
    var c := u[..j] + u[j..][..1];
    assert c == u[..j + 1] && u[j..][1..] == u[j + 1..];
    assert asked(|u| - j) == Some(1);
    ReadingStep([], u[j..], u[..j], true, parse, asked);
    AfterNothing(Reading(u[j..], u[..j], true, parse, asked));
    if j < n {
      assert Newline(c) == |c|;
      NoneYet(c, parse);
      LineByBytes(u, j + 1, n, parse, asked);
      assert [] + Drain(c, parse).maps == [];
      AfterNothing(BehindLine(u, n, parse, asked));
    } else {
      LineEnds(u, n, parse, asked);
    }
  }

  /** The byte that completes the line. */
  lemma {:induction false} LineEnds<T>(u: Text, n: nat, parse: Text -> Option<T>, asked: nat -> Option<nat>)
    requires n == Newline(u) < |u| && n < CAPACITY
    ensures var d := Drain(u[..n + 1], parse);
      |Front(d)| <= CAPACITY
      && After([] + d.maps, Reading(u[n + 1..], Front(d), d.ok, parse, asked)) == BehindLine(u, n, parse, asked)
  {
    hide Newline;
    hide CString;
    hide Drain;
    hide Front;
    hide Reading;
    var c := u[..n + 1];
    NewlineIs(c, n);
    assert c[..n] == u[..n];
    DrainOneLine(c, n, parse);
    var d := Drain(c, parse);
    assert [] + d.maps == d.maps;
    if !d.ok {
      AfterNothing(Reading(u[n + 1..], u[..n] + [0], false, parse, asked));
    }
  }

  /** Byte by byte, every text is read line by line: a bad line is alone in the buffer. */
  lemma {:induction false} ByteByByte<T>(u: Text, parse: Text -> Option<T>)
    ensures Reading(u, [], true, parse, One) == Chunked(u, parse)
    decreases |u|
  {
    hide Newline;
    hide CString;
    hide Reading;
    hide Chunked;
    var n := Newline(u);
    assert [] + u == u && u[0..] == u && u[..0] == [];
    if n == |u| || n >= CAPACITY {
      EmptyHasNoLine();
      EveryChunkingReads(u, [], parse, One);
    } else {
      LineByBytes(u, 0, n, parse, One);
      ChunkLine(u, n, parse);
      if parse(CString(u[..n])).Some? {
        ByteByByte(u[n + 1..], parse);
      } else {
        var c := u[..n + 1];
        NewlineIs(c, n);
        assert c[..n] == u[..n] && c[n := 0] == u[..n] + [0];
        QuietStays(c, u[n + 1..], n, parse);
        QuietReadsNothing(u[n + 1..], u[..n] + [0], parse, One);
      }
    }
  }

  lemma {:induction false} EmptyHasNoLine()
    ensures Newline([]) == 0
  {
  }

  // --------------------------------------------- a chunking that reads a line again

  /** The reading looks only at how many bytes are granted from here on. */
  lemma {:induction false} ReadingLocal<T>(rest: Text, front: Text, ok: bool, parse: Text -> Option<T>,
                                           a: nat -> Option<nat>, b: nat -> Option<nat>)
    requires |front| <= CAPACITY && forall p: nat :: p <= |rest| ==> a(p) == b(p)
    ensures Reading(rest, front, ok, parse, a) == Reading(rest, front, ok, parse, b)
    decreases |rest|
  {
    hide Drain;
    hide Front;
    if a(|rest|).Some? {
      var k := Granted(a(|rest|).value, CAPACITY - |front|, |rest|);
      if k > 0 {
        var d := Drain(front + rest[..k], parse);
        ReadingLocal(rest[k..], Front(d), ok && d.ok, parse, a, b);
      }
    }
  }

  lemma {:induction false} GoodFirst<T>(c: Text, n: nat, parse: Text -> Option<T>)
    requires n == Newline(c) < |c| && parse(CString(c[..n])).Some?
    ensures Drain(c, parse).maps != [] && |Drain(c, parse).rest| < |c|
  {
    hide Newline;
    hide CString;
  }

  /** If the next complete line parses, byte by byte it is read. */
  lemma {:induction false} LoudReads<T>(rest: Text, front: Text, parse: Text -> Option<T>, asked: nat -> Option<nat>)
    requires |front| < CAPACITY && rest != [] && !Quiet(front, rest, parse)
    requires forall p: nat :: p <= |rest| ==> asked(p) == Some(1)
    ensures Reading(rest, front, false, parse, asked).maps != []
    decreases |rest|
  {
    hide Newline;
    hide CString;
    hide Drain;
    hide Front;
    var all := front + rest;
    var m := Newline(all);
    var c, more := front + rest[..1], rest[1..];
    assert all == c + more && asked(|rest|) == Some(1);
    if m < |c| {
      assert c[m] == all[m] && c[..m] == all[..m];
      NewlineIs(c, m);
      GoodFirst(c, m, parse);
    } else {
      NewlineOf(c, more);
      NoneYet(c, parse);
      LoudReads(more, c, parse, asked);
    }
  }

  lemma {:induction false} NewlineOf(c: Text, more: Text)
    requires Newline(c + more) >= |c|
    ensures Newline(c) == |c|
  {
    hide Newline;
    forall i | 0 <= i < |c| ensures c[i] != NEWLINE {
      assert (c + more)[i] == c[i];
    }
  }

  /** The chunking with one read of t bytes when p bytes are unread, byte by byte otherwise. */
  function OneLong(at: nat, t: nat): nat -> Option<nat> { (p: nat) => Some(if p == at then t else 1) }

  /** Byte by byte as long as more than `at` bytes are unread. */
  function ThenAs(at: nat, asked: nat -> Option<nat>): nat -> Option<nat> { (p: nat) => if p <= at then asked(p) else Some(1) }

  lemma {:induction false} HarmfulRead<T>(u: Text, t: nat, parse: Text -> Option<T>)
    requires Newline(u) < |u| && parse(CString(u[..Newline(u)])).Some?
    requires t <= |u| && t <= CAPACITY && !Harmless(u, t, parse)
    ensures |Reading(u, [], true, parse, OneLong(|u|, t)).maps| > |Chunked(u, parse).maps|
  {
    hide Newline;
    hide CString;
    hide Drain;
    hide Front;
    hide Chunked;
    hide Quiet;
    hide Reading;
    var c, more := u[..t], u[t..];
    var d := Drain(c, parse);
    assert u == c + more;
    GoodLineInFront(u, t, parse);
    DrainFirst(c, more, parse);
    LoudReads(more, Front(d), parse, OneLong(|u|, t));
    LongReadFirst(u, t, parse);
  }

  /** A buffer that starts with a good line and has a bad one. */
  lemma {:induction false} GoodLineInFront<T>(u: Text, t: nat, parse: Text -> Option<T>)
    requires Newline(u) < |u| && parse(CString(u[..Newline(u)])).Some? && t <= |u| && !Drain(u[..t], parse).ok
    ensures t > 0 && |Drain(u[..t], parse).rest| < t
  {
    hide Newline;
    hide CString;
    hide Drain;
    var c, n := u[..t], Newline(u[..t]);
    if n == |c| {
      NoneYet(c, parse);
    } else {
      NewlineIs(u, n);
      assert c[..n] == u[..n];
      GoodFirst(c, n, parse);
    }
  }

  /** The first read of that chunking. */
  lemma {:induction false} LongReadFirst<T>(u: Text, t: nat, parse: Text -> Option<T>)
    requires 0 < t <= |u| && t <= CAPACITY
    ensures var d := Drain(u[..t], parse);
      |Front(d)| <= CAPACITY
      && Reading(u, [], true, parse, OneLong(|u|, t)) == After(d.maps, Reading(u[t..], Front(d), d.ok, parse, OneLong(|u|, t)))
  {
    hide Drain;
    hide Front;
    assert [] + u[..t] == u[..t];
  }

  /** Otherwise some chunking reads more than there is. */
  lemma {:induction false} SomeChunkingRepeats<T>(u: Text, parse: Text -> Option<T>) returns (asked: nat -> Option<nat>)
    requires !Unrepeatable(u, parse)
    ensures Steady(asked) && |Reading(u, [], true, parse, asked).maps| > |Chunked(u, parse).maps|
    decreases |u|
  {
    hide Newline;
    hide CString;
    hide Reading;
    hide Chunked;
    hide Harmless;
    var n := Newline(u);
    if t :| 0 <= t <= |u| && t <= CAPACITY && !Harmless(u, t, parse) {
      HarmfulRead(u, t, parse);
      asked := OneLong(|u|, t);
    } else {
      var v := u[n + 1..];
      var later := SomeChunkingRepeats(v, parse);
      asked := ThenAs(|v|, later);
      ReadingLocal(v, [], true, parse, asked, later);
      assert u[0..] == u && u[..0] == [];
      LineByBytes(u, 0, n, parse, asked);
      ChunkLine(u, n, parse);
    }
  }

  // ------------------------------------------------------------- the theorem

  /** However the reads split the text, Maps::Parse has the outcome of BufferMaps::Parse. */
  ghost predicate AlwaysAgree<T>(text: Text, parse: Text -> Option<T>) {
    forall asked: nat -> Option<nat> :: Steady(asked) ==> Reading(text, [], true, parse, asked) == Whole(text, parse)
  }

  /** The two readers have the same outcome, maps and verdict, for every chunking exactly
      if the text is regular and nothing in it can be read again behind a bad line. */
  lemma {:induction false} ChunkingExactly<T>(text: Text, parse: Text -> Option<T>)
    requires NoNul(text)
    ensures AlwaysAgree(text, parse) <==> Regular(Lines(text), Tail(text), parse) && Unrepeatable(text, parse)
  {
    hide Reading;
    hide Chunked;
    hide Whole;
    hide Regular;
    hide Unrepeatable;
    hide Newline;
    LineByLineExactly(text, parse);
    ByteByByte(text, parse);
    assert Steady(One);
    if Unrepeatable(text, parse) {
      forall asked: nat -> Option<nat> | Steady(asked)
        ensures Reading(text, [], true, parse, asked) == Chunked(text, parse)
      {
        EmptyHasNoLine();
        assert [] + text == text;
        EveryChunkingReads(text, [], parse, asked);
      }
    } else {
      var asked := SomeChunkingRepeats(text, parse);
      assert Reading(text, [], true, parse, asked) != Chunked(text, parse);
    }
  }

  /** A text without a bad line has nothing to read again: being regular is enough. */
  lemma {:induction false} GoodLinesUnrepeatable<T>(u: Text, parse: Text -> Option<T>)
    requires NoNul(u) && FirstBad(Lines(u), parse) == |Lines(u)|
    ensures Unrepeatable(u, parse)
    ensures forall t :: 0 <= t <= |u| ==> Drain(u[..t], parse).ok
    decreases |u|
  {
    hide Newline;
    hide CString;
    hide Quiet;
    hide Front;
    var n := Newline(u);
    if n < |u| {
      var v := u[n + 1..];
      assert Lines(u)[0] == u[..n] && Lines(u)[1..] == Lines(v);
      CStringIs(u[..n], u[..n]);
      GoodLinesUnrepeatable(v, parse);
    }
    forall t | 0 <= t <= |u| ensures Drain(u[..t], parse).ok {
      var c := u[..t];
      var m := Newline(c);
      if m < |c| {
        NewlineIs(u, m);
        assert c[..n] == u[..n] && c[n + 1..] == u[n + 1..][..t - n - 1];
      }
    }
  }

  // ---------------------------------------------------------------- two inputs

  /** A line parser that accepts only "A". */
  function OnlyA(line: Text): Option<nat> { if line == [65] then Some(1) else None }

  /** "A", "B", "A", each with its newline. */
  const A_B_A: Text := [65, 10, 66, 10, 65, 10]

  function FourThenTwo(p: nat): Option<nat> { Some(if p == 6 then 4 else 2) }
  function AllSix(p: nat): Option<nat> { Some(6) }

  lemma {:induction false} LineOf(c: Text, n: nat, line: Text, parse: Text -> Option<nat>)
    requires n < |c| && c[n] == NEWLINE && (forall i :: 0 <= i < n ==> c[i] != NEWLINE)
    requires line <= c[..n] && (forall i :: 0 <= i < |line| ==> line[i] != 0) && (|line| < n ==> c[|line|] == 0)
    ensures Newline(c) == n && CString(c[..n]) == line
  {
    NewlineIs(c, n);
    CStringIs(c[..n], line);
  }

  lemma {:induction false} BadB(c: Text)
    requires |c| >= 2 && c[0] == 66 && c[1] == NEWLINE
    ensures Drain(c, OnlyA) == Drained([], c, c[1 := 0], false)
  {
    LineOf(c, 1, [66], OnlyA);
    BadFirst(c, OnlyA);
  }

  lemma {:induction false} FirstTwoLines(c: Text)
    requires |c| >= 4 && c[..4] == A_B_A[..4]
    ensures Drain(c, OnlyA) == Drained([1], c[2..], c[1 := 0][3 := 0], false)
  {
    assert c[0] == c[..4][0] && c[1] == c[..4][1] && c[2] == c[..4][2] && c[3] == c[..4][3];
    LineOf(c, 1, [65], OnlyA);
    BadB(c[2..]);
    var d := Drain(c[2..], OnlyA);
    assert c[..1] + [0] + d.cut == c[1 := 0][3 := 0];
    assert [1] + d.maps == [1];
  }

  /** Read in one piece the text gives one map. Read in four and two bytes it gives the
      same map twice: the front still holds "A" and a NUL when the rest arrives. */
  lemma {:induction false} ChunkingMatters()
    ensures Regular(Lines(A_B_A), Tail(A_B_A), OnlyA)
    ensures Whole(A_B_A, OnlyA) == Parsed([1], false)
    ensures Reading(A_B_A, [], true, OnlyA, AllSix) == Parsed([1], false)
    ensures Reading(A_B_A, [], true, OnlyA, FourThenTwo) == Parsed([1, 1], false)
    ensures !Unrepeatable(A_B_A, OnlyA)
  {
    hide Chunked;
    hide Whole;
    hide Regular;
    hide Reading;
    hide Lines;
    hide Tail;
    hide Unrepeatable;
    hide Newline;
    OneByOne();
    ChunkedABA();
    LineByLineExactly(A_B_A, OnlyA);
    InOnePiece();
    InTwoPieces();
    if Unrepeatable(A_B_A, OnlyA) {
      EmptyHasNoLine();
      assert [] + A_B_A == A_B_A;
      EveryChunkingReads(A_B_A, [], OnlyA, FourThenTwo);
    }
  }

  lemma {:induction false} ChunkedABA()
    ensures Chunked(A_B_A, OnlyA) == Parsed([1], false)
  {
    hide Chunked;
    DrainFirst(A_B_A, [], OnlyA);
    assert A_B_A + [] == A_B_A;
    FirstTwoLines(A_B_A);
  }

  lemma {:induction false} OneByOne()
    ensures Whole(A_B_A, OnlyA) == Parsed([1], false)
  {
    LineOf(A_B_A, 1, [65], OnlyA);
    var v := A_B_A[2..];
    LineOf(v, 1, [66], OnlyA);
    assert A_B_A[..1] == [65] && v[..1] == [66];
    assert Whole(v, OnlyA) == Parsed([], false);
  }

  lemma {:induction false} InOnePiece()
    ensures Reading(A_B_A, [], true, OnlyA, AllSix) == Parsed([1], false)
  {
    hide Drain;
    var c := A_B_A;
    assert [] + c[..6] == c && c[6..] == [];
    FirstTwoLines(c);
    var d := Drain(c, OnlyA);
    assert Reading([], Front(d), false, OnlyA, AllSix) == Parsed([], false);
    assert [1] + [] == [1];
  }

  lemma {:induction false} InTwoPieces()
    ensures Reading(A_B_A, [], true, OnlyA, FourThenTwo) == Parsed([1, 1], false)
  {
    hide Drain;
    var c := A_B_A[..4];
    assert [] + c == c;
    FirstTwoLines(c);
    var d := Drain(c, OnlyA);
    assert Front(d) == [65, 0];
    var more := A_B_A[4..];
    var e := [65, 0] + more[..2];
    assert e == [65, 0, 65, 10];
    LineOf(e, 3, [65], OnlyA);
    AgainA(e);
    assert Reading([], [], false, OnlyA, FourThenTwo) == Parsed([], false);
    assert more[2..] == [];
    assert Reading(more, [65, 0], false, OnlyA, FourThenTwo) == After([1], Parsed([], false));
    assert [1] + [] == [1] && [1] + [1] == [1, 1];
  }

  lemma {:induction false} AgainA(e: Text)
    requires e == [65, 0, 65, 10] && Newline(e) == 3 && CString(e[..3]) == [65]
    ensures Drain(e, OnlyA).maps == [1] && Drain(e, OnlyA).ok && Front(Drain(e, OnlyA)) == []
  {
    DrainOneLine(e, 3, OnlyA);
  }

  /** A parser that accepts every line. */
  function AnyLine(line: Text): Option<nat> { Some(|line|) }

  /** A single line of 2048 bytes before its newline: the buffer is full before the
      newline arrives, the reading ends without an error and without a map. */
  lemma {:induction false} LongLineIsDropped(asked: nat -> Option<nat>)
    requires Steady(asked)
    ensures var text := seq(CAPACITY, i => 65) + [NEWLINE];
      Reading(text, [], true, AnyLine, asked) == Parsed([], true) && Whole(text, AnyLine) == Parsed([CAPACITY], true)
  {
    var line := seq(CAPACITY, i => 65);
    var text := line + [NEWLINE];
    NewlineIs(text, CAPACITY);
    hide Newline;
    EmptyHasNoLine();
    assert [] + text == text && text[..CAPACITY] == line;
    EveryChunkingReads(text, [], AnyLine, asked);
  }
}
