/** Finding the unwind instructions of an exception-index entry (sections 5, 6.2
    and 6.3 of ARM IHI 0038B). */
module ArmExtract {
  import opened Machine
  import opened ArmExidx

  datatype Extracted = Bytes(data: seq<Byte>) | Rejected(status: Status)

  const BIT31: nat := 0x8000_0000

  function Read32(m: Memory, a: nat): Option<nat> { ReadLE(m, a, 4) }

  /** Byte k of a word, counted from the most significant. */
  function ByteOf(v: nat, k: nat): Byte
    requires k < 4
  {
    match k
    case 0 => v / 0x100_0000 % 256
    case 1 => v / 0x1_0000 % 256
    case 2 => v / 0x100 % 256
    case _ => v % 256
  }

  function WordBytes(v: nat): seq<Byte> { [ByteOf(v, 0), ByteOf(v, 1), ByteOf(v, 2), ByteOf(v, 3)] }

  /** A finish instruction is added unless the last byte already is one. */
  function Terminated(data: seq<Byte>): seq<Byte>
    requires data != []
  {
    if data[|data| - 1] == OP_FINISH then data else data + [OP_FINISH]
  }

  /** A prel31 field is a 31-bit signed displacement from its own address. */
  function Prel31(at: nat, field: nat): nat {
    var low := field % BIT31;
    Wrap(W32, at + if low >= BIT31 / 2 then low - BIT31 else low)
  }

  /** The bytes of the n words from address a on. */
  function TableWords(m: Memory, a: nat, n: nat): Option<seq<Byte>>
    decreases n
  {
    if n == 0 then Some([])
    else
      match Read32(m, a)
      case None => None
      case Some(v) =>
        match TableWords(m, Wrap(W32, a + 4), n - 1)
        case None => None
        case Some(rest) => Some(WordBytes(v) + rest)
  }

  /** First bytes, then n more words. */
  function WithTable(m: Memory, head: seq<Byte>, a: nat, n: nat): Extracted
    requires head != []
  {
    if n > 5 then Rejected(Malformed)
    else
      match TableWords(m, a, n)
      case None => Rejected(ReadFailed)
      case Some(rest) => Bytes(Terminated(head + rest))
  }

  /** The entry in the extra table that an index entry points to. */
  function ExtractTable(m: Memory, addr: nat): Extracted {
    match Read32(m, addr)
    case None => Rejected(ReadFailed)
    case Some(v) =>
      if v >= BIT31 then
        match ByteOf(v, 0) % 16
        case 0 => WithTable(m, [ByteOf(v, 1), ByteOf(v, 2), ByteOf(v, 3)], addr, 0)
        case 1 => WithTable(m, [ByteOf(v, 2), ByteOf(v, 3)], Wrap(W32, addr + 4), ByteOf(v, 1))
        case 2 => WithTable(m, [ByteOf(v, 2), ByteOf(v, 3)], Wrap(W32, addr + 4), ByteOf(v, 1))
        case _ => Rejected(InvalidPersonality)
      else
        var next := Wrap(W32, addr + 4);
        match Read32(m, next)
        case None => Rejected(ReadFailed)
        case Some(u) =>
          WithTable(m, [ByteOf(u, 1), ByteOf(u, 2), ByteOf(u, 3)], Wrap(W32, next + 4), ByteOf(u, 0))
  }

  function Extract(m: Memory, entry: nat): Extracted {
    if entry % 2 == 1 then Rejected(InvalidAlignment)
    else
      var at := Wrap(W32, entry + 4);
      match Read32(m, at)
      case None => Rejected(ReadFailed)
      case Some(v) =>
        if v == 1 then Rejected(NoUnwind)
        else if v >= BIT31 then
          if ByteOf(v, 0) % 16 != 0 then Rejected(InvalidPersonality)
          else Bytes(Terminated([ByteOf(v, 1), ByteOf(v, 2), ByteOf(v, 3)]))
        else ExtractTable(m, Prel31(at, v))
  }

  /** ExtractEntryData with its loop over the table words. */
  method ExtractEntryData(m: Memory, entry: nat) returns (e: Extracted)
    ensures e == Extract(m, entry)
  {
    if entry % 2 == 1 {
      return Rejected(InvalidAlignment);
    }
    var addr := Wrap(W32, entry + 4);
    var word := Read32(m, addr);
    if word.None? {
      return Rejected(ReadFailed);
    }
    if word.value == 1 {
      return Rejected(NoUnwind);
    }
    if word.value >= BIT31 {
      if ByteOf(word.value, 0) % 16 != 0 {
        return Rejected(InvalidPersonality);
      }
      return Bytes(Terminated([ByteOf(word.value, 1), ByteOf(word.value, 2), ByteOf(word.value, 3)]));
    }
    addr := Prel31(addr, word.value);
    e := ReadTable(m, addr);
  }

  method ReadTable(m: Memory, start: nat) returns (e: Extracted)
    ensures e == ExtractTable(m, start)
  {
    hide Read32;
    hide ByteOf;
    hide Wrap;
    hide WithTable;
    var addr := start;
    var word := Read32(m, addr);
    if word.None? {
      return Rejected(ReadFailed);
    }
    var data: seq<Byte>, words: nat;
    if word.value >= BIT31 {
      var personality := ByteOf(word.value, 0) % 16;
      if personality > 2 {
        return Rejected(InvalidPersonality);
      }
      if personality == 0 {
        words, data := 0, [ByteOf(word.value, 1)];
      } else {
        words, data := ByteOf(word.value, 1), [];
        addr := Wrap(W32, addr + 4);
      }
      data := data + [ByteOf(word.value, 2), ByteOf(word.value, 3)];
      assert personality == 0 ==> data == [ByteOf(word.value, 1), ByteOf(word.value, 2), ByteOf(word.value, 3)];
      assert personality != 0 ==> data == [ByteOf(word.value, 2), ByteOf(word.value, 3)];
    } else {
      addr := Wrap(W32, addr + 4);
      word := Read32(m, addr);
      if word.None? {
        return Rejected(ReadFailed);
      }
      words, data := ByteOf(word.value, 0), [ByteOf(word.value, 1), ByteOf(word.value, 2), ByteOf(word.value, 3)];
      addr := Wrap(W32, addr + 4);
    }
    e := ReadWords(m, data, addr, words);
  }

  method ReadWords(m: Memory, head: seq<Byte>, start: nat, words: nat) returns (e: Extracted)
    requires head != []
    ensures e == WithTable(m, head, start, words)
  {
    hide Read32;
    hide WordBytes;
    hide Wrap;
    if words > 5 {
      return Rejected(Malformed);
    }
    var data, addr := head, start;
    var i := 0;
    while i < words
      invariant i <= words && |data| >= |head|
      invariant TableWords(m, start, words).Some? <==> TableWords(m, addr, words - i).Some?
      invariant TableWords(m, start, words).Some? ==>
        head + TableWords(m, start, words).value == data + TableWords(m, addr, words - i).value
    {
      var word := Read32(m, addr);
      if word.None? {
        return Rejected(ReadFailed);
      }
      ghost var rest := TableWords(m, Wrap(W32, addr + 4), words - i - 1);
      assert rest.Some? ==> data + (WordBytes(word.value) + rest.value) == data + WordBytes(word.value) + rest.value;
      data := data + WordBytes(word.value);
      addr := Wrap(W32, addr + 4);
      i := i + 1;
    }
    assert TableWords(m, start, words).Some? && head + TableWords(m, start, words).value == data;
    e := Bytes(Terminated(data));
  }

  // -------------------------------------------------------------- packing

  /** The word with these bytes, most significant first. */
  function Word(bs: seq<Byte>): nat
    requires |bs| == 4
  {
    var a: int, b: int, c: int, d: int := bs[0], bs[1], bs[2], bs[3];
    a * 0x100_0000 + b * 0x1_0000 + c * 0x100 + d
  }

  lemma WordRoundTrip(bs: seq<Byte>)
    requires |bs| == 4
    ensures WordBytes(Word(bs)) == bs && (Word(bs) >= BIT31 <==> bs[0] >= 128)
    ensures ByteOf(Word(bs), 0) == bs[0] && ByteOf(Word(bs), 1) == bs[1]
    ensures ByteOf(Word(bs), 2) == bs[2] && ByteOf(Word(bs), 3) == bs[3]
  {
    var a: int, b: int, c: int, d: int := bs[0], bs[1], bs[2], bs[3];
    var v := Word(bs);
    assert v % 256 == d;
    assert v / 0x100 == a * 0x1_0000 + b * 0x100 + c && v / 0x100 % 256 == c;
    assert v / 0x1_0000 == a * 0x100 + b && v / 0x1_0000 % 256 == b;
    assert v / 0x100_0000 == a;
  }

  /** Memory holds the bytes as consecutive words from address a on. Words are stored
      little-endian, so the first byte of a word is at its highest address. */
  predicate HoldsWords(m: Memory, a: nat, bs: seq<Byte>)
    requires |bs| % 4 == 0
    decreases |bs|
  {
    bs == [] || (Holds(m, a, [bs[3], bs[2], bs[1], bs[0]]) && HoldsWords(m, Wrap(W32, a + 4), bs[4..]))
  }

  lemma FirstWord(m: Memory, a: nat, bs: seq<Byte>)
    requires |bs| >= 4 && Holds(m, a, [bs[3], bs[2], bs[1], bs[0]])
    ensures Read32(m, a) == Some(Word(bs[..4]))
  {
    var le := [bs[3], bs[2], bs[1], bs[0]];
    HoldsFetch(m, a, le);
    var x, y, z := [bs[2], bs[1], bs[0]], [bs[1], bs[0]], [bs[0]];
    assert le[1..] == x && x[1..] == y && y[1..] == z && z[1..] == [];
    assert LittleEndian(z) == bs[0] + 0;
    assert LittleEndian(y) == bs[1] + 256 * LittleEndian(z);
    assert LittleEndian(x) == bs[2] + 256 * LittleEndian(y);
  }

  /** A displacement of 31 bits. */
  predicate IsDisplacement(d: int) { -0x4000_0000 <= d < 0x4000_0000 }

  lemma StoredReads(m: Memory, at: nat, v: nat)
    requires v < TWO32 && Holds(m, at, ToLE(v, 4))
    ensures Read32(m, at) == Some(v)
  {
    hide ToLE;
    hide Holds;
    assert Pow256(2) == 0x1_0000 && Pow256(4) == TWO32;
    HoldsFetch(m, at, ToLE(v, 4));
    ToLERoundTrip(v, 4);
  }

  /** The low 31 bits of a displacement determine it. */
  lemma SignOfField(d: int)
    requires IsDisplacement(d)
    ensures 0 <= d % BIT31 < BIT31 && d == if d % BIT31 >= BIT31 / 2 then d % BIT31 - BIT31 else d % BIT31
  {
  }

  /** A prel31 field in memory leads to the address it was written for. */
  lemma FieldLeads(m: Memory, at: nat, d: int)
    requires IsDisplacement(d) && Holds(m, at, ToLE(d % BIT31, 4))
    ensures Read32(m, at) == Some(d % BIT31) && Prel31(at, d % BIT31) == Wrap(W32, at + d)
  {
    hide Wrap;
    hide ToLE;
    hide Holds;
    hide Read32;
    SignOfField(d);
    StoredReads(m, at, d % BIT31);
    var v := d % BIT31;
    assert v % BIT31 == v;
  }

  lemma {:induction false} TableWordsFound(m: Memory, a: nat, bs: seq<Byte>)
    requires |bs| % 4 == 0 && HoldsWords(m, a, bs)
    ensures TableWords(m, a, |bs| / 4) == Some(bs)
    decreases |bs|
  {
    hide Word;
    hide ByteOf;
    hide Read32;
    hide Wrap;
    hide Holds;
    if bs != [] {
      FirstWord(m, a, bs);
      WordRoundTrip(bs[..4]);
      TableWordsFound(m, Wrap(W32, a + 4), bs[4..]);
      assert bs == bs[..4] + bs[4..];
    }
  }

  /** How an opcode string can be stored behind an entry. */
  datatype Form = Inline | Personality0 | Personality12(index: nat) | Generic(routine: nat)

  /** The lengths each form has room for. */
  predicate Fits(form: Form, n: nat) {
    match form
    case Inline => n == 3
    case Personality0 => n == 3
    case Personality12(index) => 1 <= index <= 2 && 2 <= n <= 22 && n % 4 == 2
    case Generic(routine) => routine < BIT31 && 3 <= n <= 23 && n % 4 == 3
  }

  /** The words the string occupies, as bytes: in the entry itself for the inline
      form, in the extra table for the others. */
  function Packed(form: Form, ops: seq<Byte>): (bs: seq<Byte>)
    requires Fits(form, |ops|)
    ensures |bs| % 4 == 0 && |bs| >= 4
  {
    match form
    case Inline => [0x80] + ops
    case Personality0 => [0x80] + ops
    case Personality12(index) => [0x80 + index, |ops| / 4] + ops
    case Generic(routine) => WordBytes(routine) + ([|ops| / 4] + ops)
  }

  /** The entry at `entry` stores the string in this form: in its second word, or in a
      table at displacement d from there. */
  predicate Stores(m: Memory, entry: nat, form: Form, ops: seq<Byte>, d: int)
    requires Fits(form, |ops|)
  {
    var at := Wrap(W32, entry + 4);
    if form.Inline? then HoldsWords(m, at, Packed(form, ops))
    else IsDisplacement(d) && Holds(m, at, ToLE(d % BIT31, 4)) && HoldsWords(m, Wrap(W32, at + d), Packed(form, ops))
  }

  lemma RoutineBytes(v: nat)
    requires v < BIT31
    ensures Word(WordBytes(v)) == v
  {
    var q, r, t := v / 0x100, v / 0x1_0000, v / 0x100_0000;
    assert r == q / 256 && t == r / 256 && t < 256;
    assert v == 0x100 * q + v % 256 && q == 256 * r + q % 256 && r == 256 * t + r % 256;
  }

  lemma Personality0RoundTrip(m: Memory, addr: nat, ops: seq<Byte>)
    requires |ops| == 3 && HoldsWords(m, addr, Packed(Personality0, ops))
    ensures ExtractTable(m, addr) == Bytes(Terminated(ops))
  {
    hide Word;
    hide ByteOf;
    hide Read32;
    var bs := Packed(Personality0, ops);
    FirstWord(m, addr, bs);
    hide Holds;
    assert bs[..4] == bs;
    WordRoundTrip(bs);
    assert [ops[0], ops[1], ops[2]] + [] == ops;
  }

  lemma Personality12RoundTrip(m: Memory, addr: nat, index: nat, ops: seq<Byte>)
    requires Fits(Personality12(index), |ops|) && HoldsWords(m, addr, Packed(Personality12(index), ops))
    ensures ExtractTable(m, addr) == Bytes(Terminated(ops))
  {
    hide Word;
    hide ByteOf;
    hide Read32;
    hide TableWords;
    hide Terminated;
    hide Wrap;
    var bs := Packed(Personality12(index), ops);
    FirstWord(m, addr, bs);
    hide Holds;
    WordRoundTrip(bs[..4]);
    assert bs[..4] == [0x80 + index, |ops| / 4, ops[0], ops[1]];
    assert (0x80 + index) % 16 == index && |ops[2..]| / 4 == |ops| / 4;
    assert bs[4..] == ops[2..];
    TableWordsFound(m, Wrap(W32, addr + 4), ops[2..]);
    assert [ops[0], ops[1]] + ops[2..] == ops;
  }

  /** The words of a generic table: the routine, and the string behind its length. */
  lemma GenericWords(m: Memory, addr: nat, routine: nat, ops: seq<Byte>)
    requires Fits(Generic(routine), |ops|) && HoldsWords(m, addr, Packed(Generic(routine), ops))
    ensures var tail := [|ops| / 4, ops[0], ops[1], ops[2]];
      && Read32(m, addr) == Some(Word(WordBytes(routine))) && Read32(m, Wrap(W32, addr + 4)) == Some(Word(tail))
      && HoldsWords(m, Wrap(W32, Wrap(W32, addr + 4) + 4), ops[3..])
  {
    hide Word;
    hide Read32;
    hide Wrap;
    var bs := Packed(Generic(routine), ops);
    var tail := bs[4..];
    assert bs[..4] == WordBytes(routine) && tail == [|ops| / 4] + ops;
    hide Packed;
    assert tail[..4] == [|ops| / 4, ops[0], ops[1], ops[2]] && tail[4..] == ops[3..];
    FirstWord(m, addr, bs);
    FirstWord(m, Wrap(W32, addr + 4), tail);
  }

  lemma GenericRoundTrip(m: Memory, addr: nat, routine: nat, ops: seq<Byte>)
    requires Fits(Generic(routine), |ops|) && HoldsWords(m, addr, Packed(Generic(routine), ops))
    ensures ExtractTable(m, addr) == Bytes(Terminated(ops))
  {
    hide Word;
    hide ByteOf;
    hide Read32;
    hide TableWords;
    hide HoldsWords;
    hide Packed;
    hide Terminated;
    RoutineBytes(routine);
    GenericWords(m, addr, routine, ops);
    WordRoundTrip([|ops| / 4, ops[0], ops[1], ops[2]]);
    TableWordsFound(m, Wrap(W32, Wrap(W32, addr + 4) + 4), ops[3..]);
    assert [ops[0], ops[1], ops[2]] + ops[3..] == ops;
  }

  lemma InlineRoundTrip(m: Memory, entry: nat, ops: seq<Byte>, d: int)
    requires entry % 2 == 0 && |ops| == 3 && Stores(m, entry, Inline, ops, d)
    ensures Extract(m, entry) == Bytes(Terminated(ops))
  {
    hide Read32;
    hide Word;
    hide ByteOf;
    hide Wrap;
    hide Terminated;
    var bs := Packed(Inline, ops);
    FirstWord(m, Wrap(W32, entry + 4), bs);
    hide Holds;
    WordRoundTrip(bs);
    assert bs[..4] == bs && [ops[0], ops[1], ops[2]] == ops;
  }

  /** The entry's table cannot be told from the mark of a function that cannot be
      unwound, whose second word is one. */
  predicate ReadsAsMark(form: Form, d: int) { !form.Inline? && d == 1 }

  /** Extraction returns exactly the packed string, ended by a finish instruction,
      from every even entry offset and across every prel31 displacement except the
      one whose field reads as "cannot unwind". */
  lemma ExtractionRoundTrip(m: Memory, entry: nat, form: Form, ops: seq<Byte>, d: int)
    requires entry % 2 == 0 && Fits(form, |ops|) && Stores(m, entry, form, ops, d)
    ensures Extract(m, entry) == if ReadsAsMark(form, d) then Rejected(NoUnwind) else Bytes(Terminated(ops))
  {
    hide ExtractTable;
    hide HoldsWords;
    hide Packed;
    hide Read32;
    hide Wrap;
    hide Prel31;
    hide Holds;
    hide Terminated;
    if form.Inline? {
      InlineRoundTrip(m, entry, ops, d);
    } else {
      var at := Wrap(W32, entry + 4);
      SignOfField(d);
      FieldLeads(m, at, d);
      TableRoundTrip(m, Wrap(W32, at + d), form, ops);
      ThroughTable(m, entry, d);
    }
  }

  /** An entry with a displacement leads to its table. */
  lemma ThroughTable(m: Memory, entry: nat, d: int)
    requires entry % 2 == 0 && IsDisplacement(d) && Read32(m, Wrap(W32, entry + 4)) == Some(d % BIT31)
    requires Prel31(Wrap(W32, entry + 4), d % BIT31) == Wrap(W32, Wrap(W32, entry + 4) + d)
    ensures Extract(m, entry) == if d == 1 then Rejected(NoUnwind) else ExtractTable(m, Wrap(W32, Wrap(W32, entry + 4) + d))
  {
    hide ExtractTable;
    hide Read32;
    hide Wrap;
    hide Prel31;
    SignOfField(d);
  }

  lemma TableRoundTrip(m: Memory, addr: nat, form: Form, ops: seq<Byte>)
    requires !form.Inline? && Fits(form, |ops|) && HoldsWords(m, addr, Packed(form, ops))
    ensures ExtractTable(m, addr) == Bytes(Terminated(ops))
  {
    hide ExtractTable;
    hide HoldsWords;
    match form
    case Personality0 => Personality0RoundTrip(m, addr, ops);
    case Personality12(index) => Personality12RoundTrip(m, addr, index, ops);
    case Generic(routine) => GenericRoundTrip(m, addr, routine, ops);
  }

  /** A second word of one marks a function that cannot be unwound. */
  lemma MarkRejects(m: Memory, entry: nat)
    requires entry % 2 == 0 && Holds(m, Wrap(W32, entry + 4), [1, 0, 0, 0])
    ensures Extract(m, entry) == Rejected(NoUnwind)
  {
    hide Wrap;
    FirstWord(m, Wrap(W32, entry + 4), [0, 0, 0, 1]);
    assert [0, 0, 0, 1][..4] == [0, 0, 0, 1];
    assert Word([0, 0, 0, 1]) == 1;
    hide Read32;
  }

  /** An odd entry offset is refused. */
  lemma OddEntryRejects(m: Memory, entry: nat)
    requires entry % 2 == 1
    ensures Extract(m, entry) == Rejected(InvalidAlignment)
  {
  }
}
