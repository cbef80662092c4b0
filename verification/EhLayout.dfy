/** A whole .eh_frame section as an assembler lays it out, and the proof that the indexing
    pass records exactly the functions that were written. */
module EhLayout {
  import opened Machine
  import opened DwarfMemory
  import opened EhFrame
  import opened EhCode
  import EncodedValues

  datatype Record = CieRecord(c: CieSpec) | FdeRecord(f: FdeSpec)

  /** The CIE that the next FDEs belong to, and where it is. */
  datatype Owner = NoCie | Of(off: nat, c: CieSpec)

  /** The record lies at this offset; FDEs follow their CIE. */
  predicate RecordAt(s: Section, r: Record, off: nat, owner: Owner) {
    match r
    case CieRecord(c) =>
      && CieFits(s.w, c) && BasesFor(s.bases, c) && PlainSpec(c) && Holds(s.mem, off, CieBytes(s.w, c))
    case FdeRecord(f) =>
      && owner.Of? && FdeFits(s.w, owner.c, owner.off, f, off)
      && Holds(s.mem, off, FdeBytes(s.w, owner.c, owner.off, f, off))
  }

  function NextOwner(r: Record, off: nat, owner: Owner): Owner {
    if r.CieRecord? then Of(off, r.c) else owner
  }

  function RecordLength(s: Section, r: Record, off: nat, owner: Owner): (n: nat)
    requires RecordAt(s, r, off, owner)
    ensures n > 0
  {
    match r
    case CieRecord(c) => |CieBytes(s.w, c)|
    case FdeRecord(f) => |FdeBytes(s.w, owner.c, owner.off, f, off)|
  }

  /** The records fill the section from an offset to its end. */
  predicate Fills(s: Section, records: seq<Record>, off: nat, end: nat, owner: Owner)
    decreases |records|
  {
    if records == [] then off == end
    else
      && RecordAt(s, records[0], off, owner)
      && Fills(s, records[1..], off + RecordLength(s, records[0], off, owner), end, NextOwner(records[0], off, owner))
  }

  /** What an FDE of nonzero length is recorded as. */
  function RecordedAs(s: Section, r: Record, off: nat, owner: Owner): seq<FdeInfo>
    requires RecordAt(s, r, off, owner)
  {
    if r.CieRecord? || r.f.length % TWO64 == 0 then []
    else
      var start := FunctionStart(s.w, owner.c, r.f, off);
      [FdeInfo(off, Wrap(s.w, start), Wrap(s.w, start + r.f.length))]
  }

  /** All functions of the section in file order. */
  function Functions(s: Section, records: seq<Record>, off: nat, end: nat, owner: Owner): seq<FdeInfo>
    requires Fills(s, records, off, end, owner)
    decreases |records|
  {
    if records == [] then []
    else
      RecordedAs(s, records[0], off, owner)
      + Functions(s, records[1..], off + RecordLength(s, records[0], off, owner), end, NextOwner(records[0], off, owner))
  }

  // ---------------------------------------------------- CIEs in the indexing pass

  lemma FirstStep(s: Section, i: Item, aug: seq<Byte>, off: nat)
    requires ItemFits(s.w, i) && Holds(s.mem, off, ItemBytes(s.w, i)) && aug != [] && aug[0] == ItemChar(i)
    requires i.P? ==> HasBase(s.bases, i.routine)
    ensures i.R? ==> FirstEncoding(s, aug, off).Some? && FirstEncoding(s, aug, off).value.1 == off + |ItemBytes(s.w, i)|
    ensures !i.R? ==> FirstEncoding(s, aug, off) == FirstEncoding(s, aug[1..], off + |ItemBytes(s.w, i)|)
  {
    hide SkipPersonality;
    hide EncodedValues.Code;
    match i
    case R(e) => assert off in s.mem;
    case L(e) =>
      assert off in s.mem;
      assert Skip(off) == off + 1;
    case P(e, v) => PersonalityRead(s, e, v, off);
    case Other(_) =>
  }

  /** The pass finds a range encoding if the string names one, inside the data. */
  lemma {:induction false} FirstReads(s: Section, items: seq<Item>, off: nat)
    requires ItemsFit(s.w, items) && Holds(s.mem, off, Data(s.w, items)) && BasesSet(s.bases, items) && CHAR_R in Chars(items)
    ensures FirstEncoding(s, Chars(items) + [0], off).Some?
    ensures FirstEncoding(s, Chars(items) + [0], off).value.1 <= off + |Data(s.w, items)|
    decreases |items|
  {
    hide FirstEncoding;
    hide Holds;
    hide Data;
    hide ItemBytes;
    hide ItemFits;
    hide HasBase;
    var i, aug := items[0], Chars(items) + [0];
    DataCons(s, items, off);
    BasesCons(s.bases, items);
    FirstStep(s, i, aug, off);
    if !i.R? {
      OnlyRIsR(s.w, i);
      CharsBehind(items);
      FirstReads(s, items[1..], off + |ItemBytes(s.w, i)|);
    }
  }

  lemma CharsBehind(items: seq<Item>)
    requires items != [] && CHAR_R in Chars(items) && ItemChar(items[0]) != CHAR_R
    ensures CHAR_R in Chars(items[1..])
  {
  }

  lemma OnlyRIsR(w: Width, i: Item)
    requires ItemFits(w, i)
    ensures ItemChar(i) == CHAR_R <==> i.R?
  {
  }

  lemma StringNamesR(a: Augmentation)
    requires a.Sized? && CHAR_R in AugString(a)
    ensures CHAR_R in Chars(a.items) && AugString(a)[1..] == Chars(a.items) + [0]
  {
    var s := AugString(a);
    var k :| 0 <= k < |s| && s[k] == CHAR_R;
    assert k > 0 && s[k] == (Chars(a.items) + [0])[k - 1];
    assert Chars(a.items)[k - 1] == CHAR_R;
  }

  lemma DataReads(s: Section, a: Augmentation, off: nat)
    requires AugFits(s.w, a) && a.Sized? && Holds(s.mem, off, AugBytes(s.w, a)) && BasesSet(s.bases, a.items) && CHAR_R in AugString(a)
    ensures UlebAt(s.mem, off).Got?
    ensures var first := FirstEncoding(s, AugString(a)[1..], UlebAt(s.mem, off).next);
      first.Some? && first.value.1 <= off + |AugBytes(s.w, a)|
  {
    hide UlebAt;
    hide EncodeUleb;
    hide FirstEncoding;
    hide Holds;
    hide ItemsFit;
    hide BasesSet;
    hide AugString;
    hide Data;
    hide Chars;
    StringNamesR(a);
    var data := Data(s.w, a.items);
    var leb := EncodeUleb(|data| + |a.more|);
    HoldsAppend(s.mem, off, leb, data + a.more);
    HoldsAppend(s.mem, off + |leb|, data, a.more);
    UlebReads(s.mem, off, |data| + |a.more|);
    FirstReads(s, a.items, off + |leb|);
  }

  /** The pass accepts every CIE that the parser accepts, and stops inside it. */
  lemma CieIndexed(s: Section, off: nat, c: CieSpec)
    requires CieFits(s.w, c) && Holds(s.mem, off, CieBytes(s.w, c)) && BasesSet(s.bases, Items(c.aug))
    ensures HeaderAt(s, off).Some? && HeaderAt(s, off).value.id == 0 && HeaderAt(s, off).value.next == off + |CieBytes(s.w, c)|
    ensures IndexCieAt(s, off).Some? && IndexCieAt(s, off).value.cursor <= off + |CieBytes(s.w, c)|
  {
    hide HeaderAt;
    hide StartAt;
    hide SkippedFieldsAt;
    hide FixedFieldsAt;
    hide FirstEncoding;
    hide UlebAt;
    hide Holds;
    hide CieRest;
    hide EntryBytes;
    hide AugString;
    hide AugFits;
    hide AugBytes;
    hide FixedBytes;
    hide VersionFields;
    hide BasesSet;
    HeaderReads(s, off, c.wide, 0, CieRest(s.w, c));
    var cursor := off + LengthWidth(c.wide) + FieldWidth(c.wide);
    CieParts(s.mem, cursor, s.w, c);
    StartReads(s.w, s.mem, cursor, c.version, c.aug);
    var st := StartAt(s.mem, cursor).value;
    if c.aug.Sized? && CHAR_R in st.aug {
      DataReads(s, c.aug, st.cursor + |FixedBytes(c)|);
      FixedReads(s, st, c);
      FieldsAgree(s, st);
    }
  }

  // ------------------------------------------------------------- the whole pass

  /** The CIE that the pass holds is the owner's. */
  predicate Holding(s: Section, owner: Owner, cur: Current) {
    owner.Of? ==>
      && CieFits(s.w, owner.c) && BasesFor(s.bases, owner.c) && PlainSpec(owner.c) && Holds(s.mem, owner.off, CieBytes(s.w, owner.c))
      && cur.offset == owner.off && IndexCieAt(s, owner.off) == Some(cur.cie)
  }

  lemma CieEntry(s: Section, off: nat, c: CieSpec, owner: Owner, cur: Current)
    requires RecordAt(s, CieRecord(c), off, owner)
    ensures var e := EntryAt(s, off, cur);
      && e.Some? && e.value.infos == [] && e.value.next == off + |CieBytes(s.w, c)| >= e.value.cursor
      && Holding(s, Of(off, c), e.value.current)
  {
    hide HeaderAt;
    hide CieInfo;
    hide CieFits;
    hide CieBytes;
    hide Holds;
    hide BasesSet;
    hide HasBase;
    hide PlainSpec;
    CieIndexed(s, off, c);
  }

  /** Format and place of the range, as the pass reads them. */
  lemma IndexedReading(s: Section, off: nat, f: FdeSpec, owner: Owner, cur: Current)
    requires RecordAt(s, FdeRecord(f), off, owner) && Holding(s, owner, cur)
    ensures HeaderAt(s, off).Some?
    ensures var h := HeaderAt(s, off).value;
      && h.id != 0 && CieOffset(h) == owner.off && h.next == off + |FdeBytes(s.w, owner.c, owner.off, f, off)|
      && IndexReads(h, cur.cie) == (EncodedValues.Code(RangesOf(owner.c)) % 16, FieldAt(f, off))
  {
    hide HeaderAt;
    hide FullCieAt;
    hide IndexCieAt;
    hide CieFits;
    hide CieBytes;
    hide Holds;
    hide BasesSet;
    hide HasBase;
    hide FdeRest;
    FdeHeader(s, owner.off, owner.c, off, f);
    var h := HeaderAt(s, off).value;
    CieReads(s, owner.off, owner.c);
    hide FdeBytes;
    hide FdeFits;
    SameReading(s, h);
  }

  lemma FdeEntry(s: Section, off: nat, f: FdeSpec, owner: Owner, cur: Current)
    requires RecordAt(s, FdeRecord(f), off, owner) && Holding(s, owner, cur)
    ensures var e := EntryAt(s, off, cur);
      && e.Some? && e.value.infos == RecordedAs(s, FdeRecord(f), off, owner)
      && e.value.next == off + |FdeBytes(s.w, owner.c, owner.off, f, off)| >= e.value.cursor && e.value.current == cur
  {
    hide HeaderAt;
    hide IndexCieAt;
    hide CieFits;
    hide CieBytes;
    hide Holds;
    hide RangeAt;
    hide Wrap;
    hide EncodedValues.Code;
    hide RangesOf;
    hide FunctionStart;
    hide RangeBytes;
    hide FdeAug;
    hide EntryBytes;
    hide EntryFits;
    hide RangeFits;
    hide LsdaFits;
    hide PlainSpec;
    hide BasesSet;
    hide HasBase;
    IndexedReading(s, off, f, owner, cur);
    FdeRange(s, owner.off, owner.c, off, f);
    var field, start := FieldAt(f, off), FunctionStart(s.w, owner.c, f, off);
    SameFormat(s, cur.cie.encoding, EncodedValues.Code(RangesOf(owner.c)), field);
    LengthWraps(s.w, start, f.length);
  }

  lemma LengthWraps(w: Width, start: nat, length: int)
    ensures Wrap(w, start + length % TWO64) == Wrap(w, start + length)
  {
    hide Wrap;
    Reduce(w, length);
    WrapAdd(w, start, length % TWO64);
    WrapAdd(w, start, length);
  }

  /** The indexing pass over an assembled section records exactly its functions, each at
      the offset of its FDE and with the range that was written. */
  lemma {:induction false} SectionIndexed(s: Section, records: seq<Record>, off: nat, end: nat, owner: Owner, cur: Current)
    requires Fills(s, records, off, end, owner) && Holding(s, owner, cur)
    ensures Pass(s, off, end, cur) == Some(Functions(s, records, off, end, owner))
    decreases |records|
  {
    hide EntryAt;
    hide RecordAt;
    hide Holding;
    hide RecordedAs;
    hide RecordLength;
    if records != [] {
      var r, rest := records[0], records[1..];
      RecordEntry(s, r, off, owner, cur);
      var e := EntryAt(s, off, cur).value;
      FillsForward(s, rest, e.next, end, NextOwner(r, off, owner));
      SectionIndexed(s, rest, e.next, end, NextOwner(r, off, owner), e.current);
    }
  }

  lemma RecordEntry(s: Section, r: Record, off: nat, owner: Owner, cur: Current)
    requires RecordAt(s, r, off, owner) && Holding(s, owner, cur)
    ensures var e := EntryAt(s, off, cur);
      && e.Some? && e.value.infos == RecordedAs(s, r, off, owner) && e.value.cursor <= e.value.next == off + RecordLength(s, r, off, owner)
      && Holding(s, NextOwner(r, off, owner), e.value.current)
  {
    hide EntryAt;
    hide Holding;
    match r
    case CieRecord(c) => CieEntry(s, off, c, owner, cur);
    case FdeRecord(f) => FdeEntry(s, off, f, owner, cur);
  }

  lemma {:induction false} FillsForward(s: Section, records: seq<Record>, off: nat, end: nat, owner: Owner)
    requires Fills(s, records, off, end, owner)
    ensures off <= end
    decreases |records|
  {
    hide RecordAt;
    hide RecordLength;
    if records != [] {
      FillsForward(s, records[1..], off + RecordLength(s, records[0], off, owner), end, NextOwner(records[0], off, owner));
    }
  }
}
