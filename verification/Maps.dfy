/** The list of memory maps: two readers of its text, and the lookup by pc. The
    parser of a single line is a parameter: what holds here holds for any. */
module Maps {
  import opened Machine

  type Text = seq<Byte>

  const NEWLINE: Byte := 10
  const CAPACITY: nat := 2048

  datatype Parsed<T> = Parsed(maps: seq<T>, ok: bool)

  /** memchr: the first newline, or the length if there is none. */
  function Newline(s: Text): (n: nat)
    ensures n <= |s| && (n < |s| ==> s[n] == NEWLINE)
    ensures forall i :: 0 <= i < n ==> s[i] != NEWLINE
  {
    if s == [] || s[0] == NEWLINE then 0 else 1 + Newline(s[1..])
  }

  /** What a C string at the start of s holds. */
  function CString(s: Text): (r: Text)
    ensures r <= s && (forall i :: 0 <= i < |r| ==> r[i] != 0)
    ensures |r| < |s| ==> s[|r|] == 0
  {
    if s == [] || s[0] == 0 then [] else [s[0]] + CString(s[1..])
  }

  lemma {:induction false} NewlineIs(s: Text, n: nat)
    requires n < |s| && s[n] == NEWLINE && forall i :: 0 <= i < n ==> s[i] != NEWLINE
    ensures Newline(s) == n
  {
    hide Newline;
  }

  lemma {:induction false} CStringIs(s: Text, r: Text)
    requires r <= s && (forall i :: 0 <= i < |r| ==> r[i] != 0) && (|r| < |s| ==> s[|r|] == 0)
    ensures CString(s) == r
  {
    hide CString;
    var c := CString(s);
    assert c == s[..|c|] && r == s[..|r|];
  }

  /** The text read line by line up to the first bad line: a line that does not fit the
      buffer, or has no newline, ends the reading without an error. */
  function Chunked<T>(text: Text, parse: Text -> Option<T>): Parsed<T>
    decreases |text|
  {
    var n := Newline(text);
    if n == |text| || n + 1 > CAPACITY then Parsed([], true)
    else
      match parse(CString(text[..n]))
      case None => Parsed([], false)
      case Some(info) =>
        var rest := Chunked(text[n + 1..], parse);
        Parsed([info] + rest.maps, rest.ok)
  }

  /** What becomes of a buffer: the maps of its complete lines, what is left from the
      first line that is incomplete or bad, and the buffer's bytes, in which the newlines
      of the lines that were looked at have become NULs. */
  datatype Drained<T> = Drained(maps: seq<T>, rest: Text, cut: Text, ok: bool)

  function Drain<T>(c: Text, parse: Text -> Option<T>): (d: Drained<T>)
    ensures |d.rest| <= |c| == |d.cut|
    ensures d.ok ==> Newline(d.rest) == |d.rest|
    decreases |c|
  {
    var n := Newline(c);
    if n == |c| then Drained([], c, c, true)
    else
      match parse(CString(c[..n]))
      case None => Drained([], c, c[n := 0], false)
      case Some(info) =>
        var more := Drain(c[n + 1..], parse);
        Drained([info] + more.maps, more.rest, c[..n] + [0] + more.cut, more.ok)
  }

  /** What the front of the buffer holds for the next read. After an incomplete line it
      is that line. After a bad line nothing is moved, so it is as many bytes as are
      left, but from the start of the buffer. */
  function Front<T>(d: Drained<T>): (f: Text)
    requires |d.rest| <= |d.cut|
    ensures |f| == |d.rest|
  {
    if d.ok then d.rest else d.cut[..|d.rest|]
  }

  /** The whole reading: what the buffer's front holds, what is still unread, and
      whether a line was bad so far. `asked` says, by the number of bytes still unread,
      how many bytes a read grants; None is a failing read. */
  function Reading<T>(rest: Text, front: Text, ok: bool, parse: Text -> Option<T>, asked: nat -> Option<nat>): Parsed<T>
    requires |front| <= CAPACITY
    decreases |rest|
  {
    match asked(|rest|)
    case None => Parsed([], false)
    case Some(a) =>
      var k := Granted(a, CAPACITY - |front|, |rest|);
      if k == 0 then Parsed([], ok)
      else
        var d := Drain(front + rest[..k], parse);
        After(d.maps, Reading(rest[k..], Front(d), ok && d.ok, parse, asked))
  }

  /** Emptying a full buffer of its lines does not change what is read in the end. */
  lemma {:induction false} DrainFirst<T>(c: Text, more: Text, parse: Text -> Option<T>)
    requires |c| <= CAPACITY
    ensures Chunked(c + more, parse) == Continued(Drain(c, parse), more, parse)
    decreases |c|
  {
    hide Chunked;
    hide Newline;
    hide CString;
    hide Continued;
    hide Drain;
    var n := Newline(c);
    if n == |c| {
      DrainedAlready(c, more, parse);
    } else {
      var all := c + more;
      NewlineIs(all, n);
      assert all[..n] == c[..n] && all[n + 1..] == c[n + 1..] + more;
      ChunkLine(all, n, parse);
      DrainFirst(c[n + 1..], more, parse);
      ContinuedLine(c, n, more, parse);
    }
  }

  lemma {:induction false} DrainedAlready<T>(c: Text, more: Text, parse: Text -> Option<T>)
    requires Newline(c) == |c|
    ensures Continued(Drain(c, parse), more, parse) == Chunked(c + more, parse)
  {
    hide Chunked;
    hide Newline;
    assert [] + Chunked(c + more, parse).maps == Chunked(c + more, parse).maps;
  }

  lemma {:induction false} ContinuedLine<T>(c: Text, n: nat, more: Text, parse: Text -> Option<T>)
    requires n == Newline(c) < |c|
    ensures var info := parse(CString(c[..n]));
      Continued(Drain(c, parse), more, parse)
      == if info.Some? then After([info.value], Continued(Drain(c[n + 1..], parse), more, parse)) else Parsed([], false)
  {
    hide Chunked;
    hide Newline;
    hide CString;
    var info, d := parse(CString(c[..n])), Drain(c[n + 1..], parse);
    if info.Some? && d.ok {
      var r := Chunked(d.rest + more, parse);
      assert [info.value] + d.maps + r.maps == [info.value] + (d.maps + r.maps);
    }
  }

  /** What is read behind a drained buffer. */
  function Continued<T>(d: Drained<T>, more: Text, parse: Text -> Option<T>): Parsed<T> {
    if d.ok then After(d.maps, Chunked(d.rest + more, parse)) else Parsed(d.maps, false)
  }

  function After<T>(maps: seq<T>, p: Parsed<T>): Parsed<T> { p.(maps := maps + p.maps) }

  lemma {:induction false} ChunkLine<T>(text: Text, n: nat, parse: Text -> Option<T>)
    requires n == Newline(text) < |text| && n < CAPACITY
    ensures var info := parse(CString(text[..n]));
      Chunked(text, parse) == if info.Some? then After([info.value], Chunked(text[n + 1..], parse)) else Parsed([], false)
  {
    hide Newline;
    hide CString;
  }

  lemma {:induction false} NewlineBehind(s: Text, t: Text)
    requires Newline(s) == |s|
    ensures Newline(s + t) >= |s|
  {
    hide Newline;
    forall i | 0 <= i < |s| ensures (s + t)[i] != NEWLINE {
    }
  }

  /** A buffer without a newline that is full, or has nothing behind it, ends the reading. */
  lemma {:induction false} NothingMore<T>(rest: Text, more: Text, parse: Text -> Option<T>)
    requires Newline(rest) == |rest| && (|rest| == CAPACITY || more == [])
    ensures Chunked(rest + more, parse) == Parsed([], true)
  {
    hide Newline;
    NewlineBehind(rest, more);
  }

  /** The size a read returns: the caller's buffer and the file bound it, and it is
      positive unless one of them is exhausted. */
  function Granted(asked: nat, room: nat, left: nat): (k: nat)
    ensures k <= room && k <= left
    ensures k == 0 <==> room == 0 || left == 0
  {
    var k := if asked == 0 then 1 else asked;
    if room <= left then (if k <= room then k else room) else (if k <= left then k else left)
  }

  /** n is where the first line of c ends. */
  predicate LineEnds(c: Text, n: nat) { n == Newline(c) }

  /** Finds the line at `line` and ends it with a NUL, which makes it a C string. */
  method CutLine(buffer: array<Byte>, line: nat, bytes: nat) returns (newline: nat, text: Text)
    requires line <= bytes <= buffer.Length
    modifies buffer
    ensures line <= newline <= bytes && LineEnds(old(buffer[..bytes])[line..], newline - line)
    ensures newline == bytes ==> buffer[..bytes] == old(buffer[..bytes])
    ensures newline < bytes ==> buffer[..bytes] == old(buffer[..bytes])[newline := 0]
    ensures newline < bytes ==> text == CString(old(buffer[..bytes])[line..][..newline - line])
  {
    hide Newline;
    hide CString;
    ghost var c := buffer[..bytes];
    assert c[line..] == buffer[line..bytes];
    newline, text := line + Newline(buffer[line..bytes]), [];
    if newline < bytes {
      buffer[newline] := 0;
      assert buffer[line..bytes] == c[line..][newline - line := 0];
      text := CString(buffer[line..bytes]);
      CStringEnds(buffer[line..bytes], c[line..][..newline - line]);
    }
  }

  /** memmove of everything from `from` on to the start of the buffer. */
  method MoveToFront(buffer: array<Byte>, from: nat, bytes: nat)
    requires from <= bytes <= buffer.Length
    modifies buffer
    ensures buffer[..bytes - from] == old(buffer[..bytes])[from..]
  {
    forall i | 0 <= i < bytes - from {
      buffer[i] := buffer[from + i];
    }
  }

  /** Cutting a line in front of the rest. */
  lemma {:induction false} CutParts(done: Text, rest: Text, n: nat)
    requires n < |rest|
    ensures (done + rest)[|done| + n := 0] == done + rest[n := 0]
    ensures done + rest[n := 0] == done + rest[..n] + [0] + rest[n + 1..]
  {
  }

  /** What read() puts behind the first `at` bytes. */
  method Fill(buffer: array<Byte>, at: nat, bytes: Text)
    requires at + |bytes| <= buffer.Length
    modifies buffer
    ensures buffer[..at + |bytes|] == old(buffer[..at]) + bytes
  {
    forall i | 0 <= i < |bytes| {
      buffer[at + i] := bytes[i];
    }
  }

  // --------------------------------------------------- the whole-text reader

  function Whole<T>(text: Text, parse: Text -> Option<T>): Parsed<T>
    decreases |text|
  {
    var n := Newline(text);
    match parse(text[..n])
    case None => Parsed([], false)
    case Some(info) =>
      if n == |text| || n + 1 == |text| then Parsed([info], true)
      else After([info], Whole(text[n + 1..], parse))
  }

  lemma {:induction false} WholeLine<T>(maps: seq<T>, text: Text, n: nat, parse: Text -> Option<T>)
    requires n == Newline(text)
    ensures var info := parse(text[..n]);
      var all := After(maps, Whole(text, parse));
      if info.None? then all == Parsed(maps, false)
      else if n == |text| || n + 1 == |text| then all == Parsed(maps + [info.value], true)
      else all == After(maps + [info.value], Whole(text[n + 1..], parse))
  {
    hide Newline;
    var info := parse(text[..n]);
    assert maps + [] == maps;
    if info.Some? && n + 1 < |text| {
      var r := Whole(text[n + 1..], parse);
      assert maps + ([info.value] + r.maps) == maps + [info.value] + r.maps;
    }
  }

  // ---------------------------------------------- when the two readers agree

  /** The lines that end in a newline, without it, and what follows the last one. */
  function Lines(text: Text): seq<Text>
    decreases |text|
  {
    var n := Newline(text);
    if n == |text| then [] else [text[..n]] + Lines(text[n + 1..])
  }

  function Tail(text: Text): Text
    decreases |text|
  {
    var n := Newline(text);
    if n == |text| then text else Tail(text[n + 1..])
  }

  function Glue(lines: seq<Text>): Text {
    if lines == [] then [] else lines[0] + [NEWLINE] + Glue(lines[1..])
  }

  lemma {:induction false} LinesOfText(text: Text)
    ensures Glue(Lines(text)) + Tail(text) == text
    decreases |text|
  {
    hide Newline;
    var n := Newline(text);
    if n < |text| {
      LinesOfText(text[n + 1..]);
      assert Lines(text)[1..] == Lines(text[n + 1..]);
      assert text == text[..n] + [NEWLINE] + text[n + 1..];
    }
  }

  /** The index of the first line that does not parse, or the number of lines. */
  function FirstBad<T>(lines: seq<Text>, parse: Text -> Option<T>): (b: nat)
    ensures b <= |lines| && (b < |lines| ==> parse(lines[b]).None?)
    ensures forall i :: 0 <= i < b ==> parse(lines[i]).Some?
  {
    if lines == [] || parse(lines[0]).None? then 0 else 1 + FirstBad(lines[1..], parse)
  }

  /** Every line up to the first bad one fits the buffer with its newline; if there
      is no bad line, there are lines and nothing behind the last newline. */
  predicate Regular<T>(lines: seq<Text>, tail: Text, parse: Text -> Option<T>) {
    var b := FirstBad(lines, parse);
    && (forall i :: 0 <= i <= b && i < |lines| ==> |lines[i]| < CAPACITY)
    && (b == |lines| ==> lines != [] && tail == [])
  }

  predicate NoNul(text: Text) { forall i :: 0 <= i < |text| ==> text[i] != 0 }

  lemma {:induction false} RegularCons<T>(line: Text, lines: seq<Text>, tail: Text, parse: Text -> Option<T>)
    requires parse(line).Some? && |line| < CAPACITY && (lines != [] || tail != [])
    ensures Regular([line] + lines, tail, parse) <==> Regular(lines, tail, parse)
  {
    var all := [line] + lines;
    assert all[1..] == lines;
    var b := FirstBad(lines, parse);
    assert FirstBad(all, parse) == b + 1;
    if Regular(all, tail, parse) {
      forall i | 0 <= i <= b && i < |lines| ensures |lines[i]| < CAPACITY {
        assert all[i + 1] == lines[i];
      }
    }
  }

  /** Reading line by line gives what reading the whole text gives exactly when the
      text is regular. */
  lemma {:induction false} LineByLineExactly<T>(text: Text, parse: Text -> Option<T>)
    requires NoNul(text)
    ensures Chunked(text, parse) == Whole(text, parse) <==> Regular(Lines(text), Tail(text), parse)
    decreases |text|
  {
    hide Newline;
    hide CString;
    var n := Newline(text);
    CStringIs(text[..n], text[..n]);
    var info := parse(text[..n]);
    if n < |text| {
      assert Lines(text)[0] == text[..n];
    }
    if n < |text| && n < CAPACITY && info.Some? {
      var rest := text[n + 1..];
      if rest != [] {
        LineByLineExactly(rest, parse);
        LinesOfText(rest);
        RegularCons(text[..n], Lines(rest), Tail(rest), parse);
        AfterInjective([info.value], Chunked(rest, parse), Whole(rest, parse));
      } else {
        assert Lines(text)[1..] == [];
      }
    }
  }

  lemma {:induction false} AfterInjective<T>(maps: seq<T>, p: Parsed<T>, q: Parsed<T>)
    ensures After(maps, p) == After(maps, q) <==> p == q
  {
    if After(maps, p) == After(maps, q) {
      assert p.maps == (maps + p.maps)[|maps|..] && q.maps == (maps + q.maps)[|maps|..];
    }
  }

  class MapList<T(0)> {
    var maps: seq<T>

    constructor ()
      ensures maps == []
    {
      maps := [];
    }

    /** The inner loop: parses the complete lines of buffer[..bytes] in place and
        moves the remainder to the front. After a line that does not parse nothing
        is moved. */
    method ParseLines(buffer: array<Byte>, bytes: nat, parse: Text -> Option<T>) returns (ok: bool, leftover: nat)
      requires bytes <= buffer.Length
      modifies this, buffer
      ensures var d := Drain(old(buffer[..bytes]), parse);
        ok == d.ok && leftover == |d.rest| && maps == old(maps) + d.maps && buffer[..leftover] == Front(d)
    {
      hide Drain;
      hide Joined;
      hide CString;
      hide LineEnds;
      hide Front;
      ghost var done: Text, rest := [], buffer[..bytes];
      ghost var d := Drain(rest, parse);
      ghost var goal := Joined(done, maps, d);
      JoinedIs(done, maps, d);
      FrontIs(d);
      assert [] + rest == rest;
      var line: nat, left: nat := 0, bytes;
      while left > 0
        invariant |done| == line && |rest| == left && line + left == bytes && buffer[..bytes] == done + rest
        invariant Joined(done, maps, Drain(rest, parse)) == goal
        decreases left
      {
        assert (done + rest)[line..] == rest;
        var newline, text := CutLine(buffer, line, bytes);
        if newline == bytes {
          NoLine(done, maps, rest, parse);
          MoveToFront(buffer, line, bytes);
          return true, left;
        }
        ghost var n := newline - line;
        CutParts(done, rest, n);
        var info := parse(text);
        if info.None? {
          BadLine(done, maps, rest, n, parse);
          assert buffer[..left] == buffer[..bytes][..left];
          return false, left;
        }
        JoinLine(done, maps, rest, n, info.value, parse);
        maps := maps + [info.value];
        done, rest := done + rest[..n] + [0], rest[n + 1..];
        left := left - (newline - line + 1);
        line := newline + 1;
      }
      EmptyLine(rest);
      NoLine(done, maps, rest, parse);
      assert buffer[..0] == [];
      return true, 0;
    }

    /** Maps::Parse, for every way the reads split the text. */
    method Parse(text: Text, parse: Text -> Option<T>, asked: nat -> Option<nat>) returns (ok: bool)
      modifies this
      ensures Parsed(maps, ok) == After(old(maps), Reading(text, [], true, parse, asked))
    {
      hide Drain;
      hide Newline;
      hide Front;
      hide Reading;
      var buffer := new Byte[CAPACITY];
      var leftover: nat, pos: nat := 0, 0;
      ok := true;
      ghost var front: Text := [];
      ghost var goal := After(maps, Reading(text, [], true, parse, asked));
      assert text[0..] == text;
      while true
        invariant |front| == leftover <= CAPACITY && pos <= |text| && buffer[..leftover] == front
        invariant After(maps, Reading(text[pos..], front, ok, parse, asked)) == goal
        decreases |text| - pos
      {
        ReadingStep(maps, text[pos..], front, ok, parse, asked);
        var size := asked(|text| - pos);
        if size.None? {
          return false;
        }
        var bytes := Granted(size.value, CAPACITY - leftover, |text| - pos);
        if bytes == 0 {
          return ok;
        }
        Fill(buffer, leftover, text[pos..pos + bytes]);
        assert text[pos..][..bytes] == text[pos..pos + bytes] && text[pos..][bytes..] == text[pos + bytes..];
        front := Front(Drain(front + text[pos..pos + bytes], parse));
        pos := pos + bytes;
        var parsed;
        parsed, leftover := ParseLines(buffer, leftover + bytes, parse);
        ok := ok && parsed;
      }
    }

    /** BufferMaps::Parse over a C string: a last line without newline is a line
        too, and so is the empty text. */
    method ParseBuffer(buffer: Text, parse: Text -> Option<T>) returns (ok: bool)
      modifies this
      ensures After(old(maps), Whole(CString(buffer), parse)) == Parsed(maps, ok)
    {
      hide Whole;
      hide CString;
      var text := CString(buffer);
      ghost var goal := After(maps, Whole(text, parse));
      var start := 0;
      while true
        invariant start <= |text|
        invariant After(maps, Whole(text[start..], parse)) == goal
        decreases |text| - start
      {
        var n := Newline(text[start..]);
        var info := parse(text[start..][..n]);
        WholeLine(maps, text[start..], n, parse);
        if info.None? {
          return false;
        }
        maps := maps + [info.value];
        if start + n == |text| || start + n + 1 == |text| {
          return true;
        }
        assert text[start..][n + 1..] == text[start + n + 1..];
        start := start + n + 1;
      }
    }
  }

  /** A drained buffer behind bytes that were dealt with before it. */
  function Joined<T>(done: Text, maps: seq<T>, d: Drained<T>): Drained<T> {
    Drained(maps + d.maps, d.rest, done + d.cut, d.ok)
  }

  lemma {:induction false} JoinedIs<T>(done: Text, maps: seq<T>, d: Drained<T>)
    ensures Joined(done, maps, d) == Drained(maps + d.maps, d.rest, done + d.cut, d.ok)
    ensures Joined([], maps, d) == Drained(maps + d.maps, d.rest, d.cut, d.ok)
  {
    assert [] + d.cut == d.cut;
  }

  lemma {:induction false} EmptyLine(c: Text)
    requires c == []
    ensures LineEnds(c, |c|)
  {
  }

  lemma {:induction false} FrontIs<T>(d: Drained<T>)
    requires |d.rest| <= |d.cut|
    ensures Front(d) == if d.ok then d.rest else d.cut[..|d.rest|]
  {
  }

  lemma {:induction false} NoLine<T>(done: Text, maps: seq<T>, c: Text, parse: Text -> Option<T>)
    requires LineEnds(c, |c|)
    ensures Joined(done, maps, Drain(c, parse)) == Drained(maps, c, done + c, true)
  {
    hide Newline;
    hide CString;
    assert maps + [] == maps;
  }

  lemma {:induction false} BadLine<T>(done: Text, maps: seq<T>, c: Text, n: nat, parse: Text -> Option<T>)
    requires n < |c| && LineEnds(c, n) && parse(CString(c[..n])).None?
    ensures Joined(done, maps, Drain(c, parse)) == Drained(maps, c, done + c[n := 0], false)
  {
    hide Newline;
    hide CString;
    assert maps + [] == maps;
  }

  lemma {:induction false} JoinLine<T>(done: Text, maps: seq<T>, c: Text, n: nat, info: T, parse: Text -> Option<T>)
    requires n < |c| && LineEnds(c, n) && parse(CString(c[..n])) == Some(info)
    ensures Joined(done, maps, Drain(c, parse)) == Joined(done + c[..n] + [0], maps + [info], Drain(c[n + 1..], parse))
  {
    hide Newline;
    hide CString;
    var d := Drain(c[n + 1..], parse);
    assert maps + ([info] + d.maps) == maps + [info] + d.maps;
    assert done + (c[..n] + [0] + d.cut) == done + c[..n] + [0] + d.cut;
  }

  /** One round of the reading, with the maps read before it. */
  lemma {:induction false} ReadingStep<T>(maps: seq<T>, rest: Text, front: Text, ok: bool, parse: Text -> Option<T>, asked: nat -> Option<nat>)
    requires |front| <= CAPACITY
    ensures var all := After(maps, Reading(rest, front, ok, parse, asked));
      if asked(|rest|).None? then all == Parsed(maps, false)
      else
        var k := Granted(asked(|rest|).value, CAPACITY - |front|, |rest|);
        if k == 0 then all == Parsed(maps, ok)
        else
          var d := Drain(front + rest[..k], parse);
          all == After(maps + d.maps, Reading(rest[k..], Front(d), ok && d.ok, parse, asked))
  {
    hide Drain;
    hide Front;
    assert maps + [] == maps;
    if asked(|rest|).Some? {
      var k := Granted(asked(|rest|).value, CAPACITY - |front|, |rest|);
      if k > 0 {
        var d := Drain(front + rest[..k], parse);
        var r := Reading(rest[k..], Front(d), ok && d.ok, parse, asked);
        assert maps + (d.maps + r.maps) == maps + d.maps + r.maps;
      }
    }
  }

  /** Writing a NUL over the newline makes the line a C string of its own. */
  lemma {:induction false} CStringEnds(s: Text, text: Text)
    requires text < s && s[|text|] == 0
    ensures CString(s) == CString(text)
  {
    hide CString;
    var r := CString(text);
    assert |r| < |text| ==> text[|r|] == s[|r|];
    CStringIs(s, r);
  }

  // ------------------------------------------------------------- lookup by pc

  datatype MapInfo = MapInfo(start: nat, end: nat)

  predicate Covers(m: MapInfo, pc: nat) { m.start <= pc < m.end }

  /** As the kernel lists them: ascending, without overlap. */
  predicate Ascending(maps: seq<MapInfo>) {
    forall i, j :: 0 <= i < j < |maps| ==> maps[i].start <= maps[i].end <= maps[j].start
  }

  /** Maps::Find, as an index: on an ascending list it answers exactly when some map
      covers the pc, and then with the only one. */
  method Find(maps: seq<MapInfo>, pc: nat) returns (r: Option<nat>)
    ensures r.Some? ==> r.value < |maps| && Covers(maps[r.value], pc)
    ensures Ascending(maps) && r.None? ==> forall i :: 0 <= i < |maps| ==> !Covers(maps[i], pc)
    ensures Ascending(maps) && r.Some? ==> forall i :: 0 <= i < |maps| && i != r.value ==> !Covers(maps[i], pc)
  {
    var first, last := 0, |maps|;
    while first < last
      invariant first <= last <= |maps|
      invariant Ascending(maps) ==> forall i :: 0 <= i < first ==> !Covers(maps[i], pc)
      invariant Ascending(maps) ==> forall i :: last <= i < |maps| ==> !Covers(maps[i], pc)
    {
      var index := (first + last) / 2;
      if maps[index].start <= pc < maps[index].end {
        return Some(index);
      } else if pc < maps[index].start {
        last := index;
      } else {
        first := index + 1;
      }
    }
    r := None;
  }
}
