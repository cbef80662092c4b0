/** CIEs and FDEs as an assembler writes them (section 10.6.1 of LSB Core), and the proof
    that the full parser reads back every field and the extent of the instructions. */
module EhCode {
  import opened Machine
  import opened DwarfMemory
  import opened EncodedValues
  import opened EhFrame

  // ------------------------------------------------------------- the entries

  /** Bytes of a length, an id or a CIE pointer. */
  function FieldWidth(wide: bool): nat { if wide then 8 else 4 }

  /** Bytes before the contents that the length counts. */
  function LengthWidth(wide: bool): nat { if wide then 12 else 4 }

  predicate EntryFits(wide: bool, id: nat, rest: seq<Byte>) {
    if wide then id < TWO64 && 8 + |rest| < TWO64 else id < TWO32 && 4 + |rest| < EXTENDED
  }

  /** An entry: its length, behind an escape if it is wide, its id and the rest. */
  function EntryBytes(wide: bool, id: nat, rest: seq<Byte>): (bs: seq<Byte>)
    ensures |bs| == LengthWidth(wide) + FieldWidth(wide) + |rest|
  {
    if wide then ToLE(EXTENDED, 4) + (ToLE(8 + |rest|, 8) + (ToLE(id, 8) + rest))
    else ToLE(4 + |rest|, 4) + (ToLE(id, 4) + rest)
  }

  datatype Version = V1 | V3 | V4(addressSize: Byte, segment: Byte)

  /** A character of the augmentation string with its data: the encoding of pc ranges,
      of the LSDA pointer, the personality routine, or a character without data. An
      absent encoding is written as DW_EH_PE_omit. */
  datatype Item =
    | R(ranges: Encoding)
    | L(lsda: Option<Encoding>)
    | P(routine: Option<Encoding>, value: int)
    | Other(ch: Byte)

  /** Without a leading 'z' the string has no data. Behind the data of the items there
      may be more bytes, which the length of the data counts. */
  datatype Augmentation = Bare(chars: seq<Byte>) | Sized(items: seq<Item>, more: seq<Byte>)

  datatype CieSpec = CieSpec(wide: bool, version: Version, aug: Augmentation,
                             codeAlign: nat, dataAlign: int, returnReg: nat, code: seq<Byte>)

  /** The segment selector, the range, the LSDA pointer where the CIE has an encoding for
      it, further augmentation data and the instructions. */
  datatype FdeSpec = FdeSpec(wide: bool, selector: seq<Byte>, location: int, length: int,
                             lsda: int, more: seq<Byte>, code: seq<Byte>)

  // ---------------------------------------------------------- the augmentation

  function OptionalCode(e: Option<Encoding>): Byte { if e.Some? then Code(e.value) else OMIT }

  function ItemChar(i: Item): Byte {
    match i case R(_) => CHAR_R case L(_) => CHAR_L case P(_, _) => CHAR_P case Other(ch) => ch
  }

  predicate ItemFits(w: Width, i: Item) {
    match i
    case P(Some(e), v) => FieldFits(w, e.format, v)
    case Other(ch) => ch != 0 && ch != CHAR_R && ch != CHAR_L && ch != CHAR_P
    case _ => true
  }

  predicate ItemsFit(w: Width, items: seq<Item>) { forall k :: 0 <= k < |items| ==> ItemFits(w, items[k]) }

  /** An optional pointer: its bytes, and whether the base it needs is set. */
  function PointerBytes(w: Width, e: Option<Encoding>, v: int): seq<Byte>
    requires e.Some? ==> FieldFits(w, e.value.format, v)
  {
    if e.Some? then FieldBytes(w, e.value.format, v) else []
  }

  predicate HasBase(bases: Bases, e: Option<Encoding>) { e.Some? ==> BaseFor(e.value.rel, bases).Some? }

  function ItemBytes(w: Width, i: Item): seq<Byte>
    requires ItemFits(w, i)
  {
    match i
    case R(e) => [Code(e)]
    case L(e) => [OptionalCode(e)]
    case P(e, v) => [OptionalCode(e)] + PointerBytes(w, e, v)
    case Other(_) => []
  }

  function Chars(items: seq<Item>): (s: seq<Byte>)
    ensures |s| == |items|
  {
    if items == [] then [] else [ItemChar(items[0])] + Chars(items[1..])
  }

  function Data(w: Width, items: seq<Item>): seq<Byte>
    requires ItemsFit(w, items)
  {
    if items == [] then [] else ItemBytes(w, items[0]) + Data(w, items[1..])
  }

  predicate BasesSet(bases: Bases, items: seq<Item>) {
    forall k :: 0 <= k < |items| && items[k].P? ==> HasBase(bases, items[k].routine)
  }

  /** The range encodings in their order. */
  function RangeCodes(items: seq<Item>): seq<Byte> {
    if items == [] then []
    else (if items[0].R? then [Code(items[0].ranges)] else []) + RangeCodes(items[1..])
  }

  /** The last LSDA encoding, or the one there was. */
  function LastLsda(items: seq<Item>, e: Option<Encoding>): Option<Encoding> {
    if items == [] then e else LastLsda(items[1..], if items[0].L? then items[0].lsda else e)
  }

  /** The last range encoding, or the one there was. */
  function LastRanges(items: seq<Item>, e: Encoding): Encoding {
    if items == [] then e else LastRanges(items[1..], if items[0].R? then items[0].ranges else e)
  }

  lemma OptionalRead(s: Section, e: Option<Encoding>, v: int, off: nat)
    requires (e.Some? ==> FieldFits(s.w, e.value.format, v)) && Holds(s.mem, off, PointerBytes(s.w, e, v))
    ensures var r := ReadEncodedValue(s.w, s.mem, s.bases, OptionalCode(e), off);
      (r.Got? <==> HasBase(s.bases, e)) && (r.Got? ==> r.next == off + |PointerBytes(s.w, e, v)|)
  {
    hide FieldBytes;
    hide FieldFits;
    hide Holds;
    hide Code;
    if e.Some? {
      hide ReadEncodedValue;
      EncodedRoundTrip(s.w, s.mem, s.bases, e.value, off, v);
    }
  }

  lemma PersonalityRead(s: Section, e: Option<Encoding>, v: int, off: nat)
    requires (e.Some? ==> FieldFits(s.w, e.value.format, v)) && Holds(s.mem, off, [OptionalCode(e)] + PointerBytes(s.w, e, v))
    ensures SkipPersonality(s, off)
         == if HasBase(s.bases, e) then Some(off + 1 + |PointerBytes(s.w, e, v)|) else None
  {
    hide ReadEncodedValue;
    hide OptionalCode;
    hide PointerBytes;
    hide FieldFits;
    hide HasBase;
    HoldsFirst(s.mem, off, OptionalCode(e), PointerBytes(s.w, e, v));
    OptionalRead(s, e, v, off + 1);
  }

  lemma HoldsFirst(m: Memory, off: nat, b: Byte, rest: seq<Byte>)
    requires Holds(m, off, [b] + rest)
    ensures off in m && m[off] == b && Holds(m, off + 1, rest)
  {
    HoldsAppend(m, off, [b], rest);
  }

  lemma DataCons(s: Section, items: seq<Item>, off: nat)
    requires ItemsFit(s.w, items) && items != [] && Holds(s.mem, off, Data(s.w, items))
    ensures ItemFits(s.w, items[0]) && ItemsFit(s.w, items[1..])
    ensures Holds(s.mem, off, ItemBytes(s.w, items[0])) && Holds(s.mem, off + |ItemBytes(s.w, items[0])|, Data(s.w, items[1..]))
    ensures |Data(s.w, items)| == |ItemBytes(s.w, items[0])| + |Data(s.w, items[1..])|
    ensures (Chars(items) + [0])[0] == ItemChar(items[0]) && (Chars(items) + [0])[1..] == Chars(items[1..]) + [0]
  {
    hide Holds;
    hide ItemBytes;
    HoldsAppend(s.mem, off, ItemBytes(s.w, items[0]), Data(s.w, items[1..]));
  }

  /** What the parser's walk does with one item: the cursor behind it and what it has
      collected; None if the base of a personality routine is not set. */
  function Walked(s: Section, i: Item, off: nat, w: Walk): Option<(nat, Walk)>
    requires ItemFits(s.w, i)
  {
    var next := off + |ItemBytes(s.w, i)|;
    match i
    case R(e) => Some((next, w.(encodings := w.encodings + [Code(e)])))
    case L(e) => Some((next, w.(lsda := OptionalCode(e))))
    case P(e, _) => if HasBase(s.bases, e) then Some((next, w)) else None
    case Other(_) => Some((next, w))
  }

  lemma WalkStep(s: Section, i: Item, aug: seq<Byte>, off: nat, w: Walk)
    requires ItemFits(s.w, i) && Holds(s.mem, off, ItemBytes(s.w, i)) && aug != [] && aug[0] == ItemChar(i)
    ensures AllEncodings(s, aug, off, w)
         == match Walked(s, i, off, w)
            case None => None
            case Some((next, w')) => AllEncodings(s, aug[1..], next, w')
  {
    hide SkipPersonality;
    hide Code;
    match i
    case R(e) => assert off in s.mem && s.mem[off] == Code(e);
    case L(e) => assert off in s.mem && s.mem[off] == OptionalCode(e);
    case P(e, v) => PersonalityRead(s, e, v, off);
    case Other(_) =>
  }

  /** What the walk over a string gives, having collected some encodings before it. */
  function Collected(bases: Bases, items: seq<Item>, codes: seq<Byte>, lsda: Option<Encoding>): Option<Walk> {
    if BasesSet(bases, items) then Some(Walk(codes + RangeCodes(items), OptionalCode(LastLsda(items, lsda)))) else None
  }

  lemma CollectedCons(bases: Bases, items: seq<Item>, codes: seq<Byte>, lsda: Option<Encoding>)
    requires items != []
    ensures var i := items[0];
      Collected(bases, items, codes, lsda)
      == if i.P? && !HasBase(bases, i.routine) then None
         else Collected(bases, items[1..], if i.R? then codes + [Code(i.ranges)] else codes, if i.L? then i.lsda else lsda)
  {
    hide OptionalCode;
    hide HasBase;
    hide RangeCodes;
    hide BasesSet;
    hide Code;
    CodesCons(items, codes);
    BasesCons(bases, items);
  }

  /** The walk over any augmentation string with its data collects the range encodings in
      their order and the last LSDA encoding; it fails exactly if a base is missing. */
  lemma {:induction false} WalkReads(s: Section, items: seq<Item>, off: nat, codes: seq<Byte>, lsda: Option<Encoding>)
    requires ItemsFit(s.w, items) && Holds(s.mem, off, Data(s.w, items))
    ensures AllEncodings(s, Chars(items) + [0], off, Walk(codes, OptionalCode(lsda))) == Collected(s.bases, items, codes, lsda)
    decreases |items|
  {
    hide Holds;
    hide ItemFits;
    hide ItemBytes;
    hide Data;
    hide AllEncodings;
    var aug, w := Chars(items) + [0], Walk(codes, OptionalCode(lsda));
    if items == [] {
      assert codes + [] == codes;
      EndOfString(s, aug, off, w);
    } else {
      hide Chars;
      hide Walked;
      hide Collected;
      hide OptionalCode;
      hide HasBase;
      hide Code;
      var i, rest := items[0], items[1..];
      DataCons(s, items, off);
      WalkStep(s, i, aug, off, w);
      WalkedOn(s, i, off, codes, lsda);
      CollectedCons(s.bases, items, codes, lsda);
      var codes' := if i.R? then codes + [Code(i.ranges)] else codes;
      WalkReads(s, rest, off + |ItemBytes(s.w, i)|, codes', if i.L? then i.lsda else lsda);
    }
  }

  lemma CodesCons(items: seq<Item>, codes: seq<Byte>)
    requires items != []
    ensures codes + RangeCodes(items)
         == (if items[0].R? then codes + [Code(items[0].ranges)] else codes) + RangeCodes(items[1..])
  {
    hide Code;
  }

  lemma WalkedOn(s: Section, i: Item, off: nat, codes: seq<Byte>, lsda: Option<Encoding>)
    requires ItemFits(s.w, i)
    ensures Walked(s, i, off, Walk(codes, OptionalCode(lsda)))
         == if i.P? && !HasBase(s.bases, i.routine) then None
            else Some((off + |ItemBytes(s.w, i)|,
                       Walk(if i.R? then codes + [Code(i.ranges)] else codes, OptionalCode(if i.L? then i.lsda else lsda))))
  {
    hide Code;
    hide OptionalCode;
    hide HasBase;
  }

  lemma EndOfString(s: Section, aug: seq<Byte>, off: nat, w: Walk)
    requires aug == [0]
    ensures AllEncodings(s, aug, off, w) == Some(w)
  {
    assert aug[1..] == [];
    assert AllEncodings(s, aug[1..], off, w) == Some(w);
  }

  lemma BasesCons(bases: Bases, items: seq<Item>)
    requires items != []
    ensures BasesSet(bases, items) <==> BasesSet(bases, items[1..]) && (items[0].P? ==> HasBase(bases, items[0].routine))
  {
    var rest := items[1..];
    if BasesSet(bases, rest) && (items[0].P? ==> HasBase(bases, items[0].routine)) {
      forall k | 0 <= k < |items| && items[k].P? ensures HasBase(bases, items[k].routine) {
        assert k > 0 ==> items[k] == rest[k - 1];
      }
    }
  }

  // ------------------------------------------------------------------ the CIE

  function VersionCode(v: Version): Byte {
    match v case V1 => 1 case V3 => 3 case V4(_, _) => 4
  }

  function SegmentSize(v: Version): Byte { if v.V4? then v.segment else 0 }

  function VersionFields(v: Version): seq<Byte> { if v.V4? then [v.addressSize, v.segment] else [] }

  /** The augmentation string with its terminating zero. */
  function AugString(a: Augmentation): seq<Byte> {
    if a.Bare? then a.chars + [0] else [CHAR_Z] + (Chars(a.items) + [0])
  }

  predicate AugFits(w: Width, a: Augmentation) {
    match a
    case Bare(chars) => 0 !in chars && (chars == [] || chars[0] != CHAR_Z)
    case Sized(items, more) => ItemsFit(w, items) && |Data(w, items)| + |more| < TWO64
  }

  /** A length and as many bytes. */
  function Counted(data: seq<Byte>, more: seq<Byte>): seq<Byte> { EncodeUleb(|data| + |more|) + (data + more) }

  function AugBytes(w: Width, a: Augmentation): seq<Byte>
    requires AugFits(w, a)
  {
    if a.Bare? then [] else Counted(Data(w, a.items), a.more)
  }

  function RegisterBytes(v: Version, reg: nat): seq<Byte>
    requires v.V1? ==> reg < 256
  {
    if v.V1? then [reg] else EncodeUleb(reg)
  }

  predicate CieFits(w: Width, c: CieSpec) {
    && AugFits(w, c.aug) && c.codeAlign < TWO64 && SlebReadable(c.dataAlign)
    && c.returnReg < (if c.version.V1? then 256 else TWO64)
    && EntryFits(c.wide, 0, CieRest(w, c))
  }

  function CieRest(w: Width, c: CieSpec): seq<Byte>
    requires AugFits(w, c.aug) && (c.version.V1? ==> c.returnReg < 256)
  {
    [VersionCode(c.version)] + (AugString(c.aug) + (VersionFields(c.version)
    + (FixedBytes(c) + (AugBytes(w, c.aug) + c.code))))
  }

  function FixedBytes(c: CieSpec): seq<Byte>
    requires c.version.V1? ==> c.returnReg < 256
  {
    EncodeUleb(c.codeAlign) + (EncodeSleb(c.dataAlign) + RegisterBytes(c.version, c.returnReg))
  }

  function CieBytes(w: Width, c: CieSpec): seq<Byte>
    requires CieFits(w, c)
  {
    EntryBytes(c.wide, 0, CieRest(w, c))
  }

  lemma FieldRead(m: Memory, off: nat, n: nat, v: nat)
    requires v < Pow256(n) <= TWO64 && Holds(m, off, ToLE(v, n))
    ensures ReadFixed(m, off, n) == Got(v, off + n)
  {
    hide ReadFixed;
    hide ToLE;
    hide Holds;
    SmallMod(v, Pow256(n));
    UnsignedOperand(m, off, n, v);
    WrapSmall(W64, v);
  }

  lemma Widths()
    ensures Pow256(4) == TWO32 && Pow256(8) == TWO64
  {
    assert Pow256(2) == 0x1_0000 && Pow256(6) == 0x1_0000_0000_0000;
  }

  /** Memory ends below the last address. */
  lemma InMemory(m: Memory, off: nat, bs: seq<Byte>)
    requires Holds(m, off, bs) && bs != []
    ensures off + |bs| < TWO64
  {
    assert off + |bs| - 1 in m;
  }

  lemma WideHeader(s: Section, off: nat, id: nat, rest: seq<Byte>)
    requires EntryFits(true, id, rest) && Holds(s.mem, off, EntryBytes(true, id, rest)) && off + 20 + |rest| < TWO64
    ensures HeaderAt(s, off) == Some(Header(off + 20 + |rest|, id, true, off + 20)) && Holds(s.mem, off + 20, rest)
  {
    hide ReadFixed;
    hide ToLE;
    hide Holds;
    hide Pow256;
    Widths();
    var ids := ToLE(id, 8) + rest;
    HoldsAppend(s.mem, off, ToLE(EXTENDED, 4), ToLE(8 + |rest|, 8) + ids);
    HoldsAppend(s.mem, off + 4, ToLE(8 + |rest|, 8), ids);
    HoldsAppend(s.mem, off + 12, ToLE(id, 8), rest);
    FieldRead(s.mem, off, 4, EXTENDED);
    FieldRead(s.mem, off + 4, 8, 8 + |rest|);
    FieldRead(s.mem, off + 12, 8, id);
  }

  lemma PlainHeader(s: Section, off: nat, id: nat, rest: seq<Byte>)
    requires EntryFits(false, id, rest) && Holds(s.mem, off, EntryBytes(false, id, rest)) && off + 8 + |rest| < TWO64
    ensures HeaderAt(s, off) == Some(Header(off + 8 + |rest|, id, false, off + 8)) && Holds(s.mem, off + 8, rest)
  {
    hide ReadFixed;
    hide ToLE;
    hide Holds;
    hide Pow256;
    Widths();
    HoldsAppend(s.mem, off, ToLE(4 + |rest|, 4), ToLE(id, 4) + rest);
    HoldsAppend(s.mem, off + 4, ToLE(id, 4), rest);
    FieldRead(s.mem, off, 4, 4 + |rest|);
    FieldRead(s.mem, off + 4, 4, id);
  }

  /** The header of any entry: its id, its width, and where it ends. */
  lemma HeaderReads(s: Section, off: nat, wide: bool, id: nat, rest: seq<Byte>)
    requires EntryFits(wide, id, rest) && Holds(s.mem, off, EntryBytes(wide, id, rest))
    ensures var cursor := off + LengthWidth(wide) + FieldWidth(wide);
      HeaderAt(s, off) == Some(Header(cursor + |rest|, id, wide, cursor)) && Holds(s.mem, cursor, rest)
    ensures off + LengthWidth(wide) + FieldWidth(wide) + |rest| < TWO64
  {
    hide HeaderAt;
    hide EntryBytes;
    InMemory(s.mem, off, EntryBytes(wide, id, rest));
    if wide {
      WideHeader(s, off, id, rest);
    } else {
      PlainHeader(s, off, id, rest);
    }
  }

  lemma {:induction false} StringReads(m: Memory, off: nat, chars: seq<Byte>)
    requires 0 !in chars && Holds(m, off, chars + [0])
    ensures AugmentationAt(m, off) == Some(chars + [0])
    decreases |chars|
  {
    var all := chars + [0];
    assert off in m && m[off] == all[0];
    if chars == [] {
      assert all == [0];
    } else {
      assert all == [chars[0]] + (chars[1..] + [0]);
      HoldsFirst(m, off, chars[0], chars[1..] + [0]);
      StringReads(m, off + 1, chars[1..]);
    }
  }

  lemma {:induction false} CharsNonzero(w: Width, items: seq<Item>)
    requires ItemsFit(w, items)
    ensures 0 !in Chars(items)
  {
    if items != [] {
      CharsNonzero(w, items[1..]);
      assert ItemFits(w, items[0]);
    }
  }

  lemma AugStringReads(w: Width, m: Memory, off: nat, a: Augmentation)
    requires AugFits(w, a) && Holds(m, off, AugString(a))
    ensures AugmentationAt(m, off) == Some(AugString(a))
    ensures AugString(a)[0] == CHAR_Z <==> a.Sized?
  {
    hide AugmentationAt;
    hide Holds;
    hide Data;
    match a
    case Bare(chars) => StringReads(m, off, chars);
    case Sized(items, _) =>
      CharsNonzero(w, items);
      assert [CHAR_Z] + (Chars(items) + [0]) == ([CHAR_Z] + Chars(items)) + [0];
      StringReads(m, off, [CHAR_Z] + Chars(items));
  }

  /** Version, augmentation string and segment size. */
  lemma StartReads(w: Width, m: Memory, off: nat, v: Version, a: Augmentation)
    requires AugFits(w, a) && Holds(m, off, [VersionCode(v)] + (AugString(a) + VersionFields(v)))
    ensures StartAt(m, off)
         == Some(Start(VersionCode(v), AugString(a), SegmentSize(v), off + 1 + |AugString(a)| + |VersionFields(v)|))
    ensures AugString(a)[0] == CHAR_Z <==> a.Sized?
  {
    hide AugmentationAt;
    hide AugString;
    hide AugFits;
    hide Holds;
    HoldsFirst(m, off, VersionCode(v), AugString(a) + VersionFields(v));
    HoldsAppend(m, off + 1, AugString(a), VersionFields(v));
    AugStringReads(w, m, off + 1, a);
    if v.V4? {
      SegmentRead(m, off + 1 + |AugString(a)|, v);
    }
  }

  lemma SegmentRead(m: Memory, off: nat, v: Version)
    requires v.V4? && Holds(m, off, VersionFields(v))
    ensures Skip(off) == off + 1 && off + 1 in m && m[off + 1] == v.segment
  {
    assert off + 1 in m && m[off + 1] == VersionFields(v)[1];
  }

  lemma UlebReads(m: Memory, off: nat, v: nat)
    requires v < TWO64 && Holds(m, off, EncodeUleb(v))
    ensures UlebAt(m, off) == Got(v, off + |EncodeUleb(v)|)
  {
    hide UlebAt;
    hide UlebValue;
    hide EncodeUleb;
    EncodeUlebValue(v);
    UlebRoundTrip(m, off, EncodeUleb(v), v);
  }

  lemma SlebReads(m: Memory, off: nat, v: int)
    requires SlebReadable(v) && Holds(m, off, EncodeSleb(v))
    ensures SlebAt(m, off).Got? && Signed(W64, SlebAt(m, off).value) == v && SlebAt(m, off).next == off + |EncodeSleb(v)|
  {
    hide SlebAt;
    hide EncodeSleb;
    hide Signed;
    SlebReadsExactly(m, off, v);
    SignedOfPattern(v);
  }

  /** The alignment factors and the return address register. */
  lemma FixedReads(s: Section, st: Start, c: CieSpec)
    requires st.version == VersionCode(c.version) && c.codeAlign < TWO64 && SlebReadable(c.dataAlign)
    requires c.returnReg < (if c.version.V1? then 256 else TWO64) && Holds(s.mem, st.cursor, FixedBytes(c))
    ensures FixedFieldsAt(s, st) == Some(Fixed(c.codeAlign, c.dataAlign, c.returnReg, st.cursor + |FixedBytes(c)|))
  {
    hide UlebAt;
    hide SlebAt;
    hide EncodeUleb;
    hide EncodeSleb;
    hide Signed;
    hide Holds;
    var reg := RegisterBytes(c.version, c.returnReg);
    var o1 := st.cursor + |EncodeUleb(c.codeAlign)|;
    var o2 := o1 + |EncodeSleb(c.dataAlign)|;
    HoldsAppend(s.mem, st.cursor, EncodeUleb(c.codeAlign), EncodeSleb(c.dataAlign) + reg);
    HoldsAppend(s.mem, o1, EncodeSleb(c.dataAlign), reg);
    UlebReads(s.mem, st.cursor, c.codeAlign);
    SlebReads(s.mem, o1, c.dataAlign);
    if c.version.V1? {
      OneByte(s.mem, o2, c.returnReg);
    } else {
      UlebReads(s.mem, o2, c.returnReg);
    }
  }

  lemma OneByte(m: Memory, off: nat, b: Byte)
    requires Holds(m, off, [b])
    ensures off in m && m[off] == b
  {
    assert m[off] == [b][0];
  }

  function Items(a: Augmentation): seq<Item> { if a.Sized? then a.items else [] }

  /** The encoding of the ranges of a CIE's FDEs: the last that it names, or else signed
      numbers of its own width. */
  function RangesOf(c: CieSpec): Encoding {
    LastRanges(Items(c.aug), Encoding(Absolute, if c.wide then S8 else S4, false))
  }

  function LsdaOf(c: CieSpec): Option<Encoding> { LastLsda(Items(c.aug), None) }

  lemma {:induction false} LastOfCodes(items: seq<Item>, e: Encoding)
    ensures var codes := RangeCodes(items);
      Code(LastRanges(items, e)) == if codes == [] then Code(e) else codes[|codes| - 1]
    decreases |items|
  {
    hide Code;
    if items != [] {
      var e' := if items[0].R? then items[0].ranges else e;
      LastOfCodes(items[1..], e');
    }
  }

  /** The CIE that was written at an offset: its instructions are its last bytes. */
  function CieWritten(w: Width, c: CieSpec, off: nat): FullCie
    requires CieFits(w, c)
  {
    var end := off + |CieBytes(w, c)|;
    var start := end - |c.code|;
    FullCie(Fixed(c.codeAlign, c.dataAlign, c.returnReg, start - |AugBytes(w, c.aug)|), start, end,
            SegmentSize(c.version), Code(RangesOf(c)), OptionalCode(LsdaOf(c)), AugString(c.aug), RangeCodes(Items(c.aug)))
  }

  /** The parts of a CIE behind its header. */
  lemma CieParts(m: Memory, off: nat, w: Width, c: CieSpec)
    requires CieFits(w, c) && Holds(m, off, CieRest(w, c))
    ensures Holds(m, off, [VersionCode(c.version)] + (AugString(c.aug) + VersionFields(c.version)))
    ensures var o1 := off + 1 + |AugString(c.aug)| + |VersionFields(c.version)|;
      var o2 := o1 + |FixedBytes(c)|;
      Holds(m, o1, FixedBytes(c)) && Holds(m, o2, AugBytes(w, c.aug))
      && Holds(m, o2 + |AugBytes(w, c.aug)|, c.code) && off + |CieRest(w, c)| == o2 + |AugBytes(w, c.aug)| + |c.code|
  {
    hide Holds;
    hide AugString;
    hide VersionFields;
    hide FixedBytes;
    hide AugBytes;
    hide AugFits;
    var version, str, fields := [VersionCode(c.version)], AugString(c.aug), VersionFields(c.version);
    var fixed, aug := FixedBytes(c), AugBytes(w, c.aug);
    var o1 := off + 1 + |str| + |fields|;
    HoldsAppend(m, off, version, str + (fields + (fixed + (aug + c.code))));
    HoldsAppend(m, off + 1, str, fields + (fixed + (aug + c.code)));
    HoldsAppend(m, off + 1 + |str|, fields, fixed + (aug + c.code));
    HoldsAppend(m, o1, fixed, aug + c.code);
    HoldsAppend(m, o1 + |fixed|, aug, c.code);
    HoldsAppend(m, off + 1, str, fields);
    HoldsAppend(m, off, version, str + fields);
  }

  /** The augmentation data: its length and what it says. */
  lemma AugReads(s: Section, a: Augmentation, off: nat)
    requires AugFits(s.w, a) && a.Sized? && Holds(s.mem, off, AugBytes(s.w, a))
    ensures UlebAt(s.mem, off).Got?
    ensures var r := UlebAt(s.mem, off);
      r.next + r.value == off + |AugBytes(s.w, a)|
      && AllEncodings(s, AugString(a)[1..], r.next, Walk([], OMIT))
      == if BasesSet(s.bases, a.items) then Some(Walk(RangeCodes(a.items), OptionalCode(LastLsda(a.items, None)))) else None
  {
    hide UlebAt;
    hide EncodeUleb;
    hide AllEncodings;
    hide Holds;
    hide ItemsFit;
    hide Code;
    hide BasesSet;
    hide RangeCodes;
    hide LastLsda;
    var data := Data(s.w, a.items);
    var n := |data| + |a.more|;
    HoldsAppend(s.mem, off, EncodeUleb(n), data + a.more);
    UlebReads(s.mem, off, n);
    var o := off + |EncodeUleb(n)|;
    HoldsAppend(s.mem, o, data, a.more);
    WalkReads(s, a.items, o, [], None);
    assert AugString(a)[1..] == Chars(a.items) + [0];
    assert [] + RangeCodes(a.items) == RangeCodes(a.items);
  }

  /** The parser reads back a CIE of any version and augmentation: factors, return address
      register, encodings, and its instructions from their first byte to their last. It
      fails exactly if a personality routine is relative to a base that is not set. */
  lemma CieReads(s: Section, off: nat, c: CieSpec)
    requires CieFits(s.w, c) && Holds(s.mem, off, CieBytes(s.w, c))
    ensures FullCieAt(s, off) == if BasesSet(s.bases, Items(c.aug)) then Some(CieWritten(s.w, c, off)) else None
  {
    hide HeaderAt;
    hide StartAt;
    hide FixedFieldsAt;
    hide AllEncodings;
    hide UlebAt;
    hide Holds;
    hide CieRest;
    hide EntryBytes;
    hide AugString;
    hide AugFits;
    hide AugBytes;
    hide FixedBytes;
    hide VersionFields;
    hide RangeCodes;
    hide BasesSet;
    hide LastRanges;
    hide LastLsda;
    HeaderReads(s, off, c.wide, 0, CieRest(s.w, c));
    var cursor := off + LengthWidth(c.wide) + FieldWidth(c.wide);
    CieParts(s.mem, cursor, s.w, c);
    StartReads(s.w, s.mem, cursor, c.version, c.aug);
    var st := StartAt(s.mem, cursor).value;
    FixedReads(s, st, c);
    LastOfCodes(Items(c.aug), Encoding(Absolute, if c.wide then S8 else S4, false));
    if c.aug.Sized? {
      AugReads(s, c.aug, st.cursor + |FixedBytes(c)|);
    } else {
      NoItems(s.w, s.bases, c.aug);
    }
  }

  lemma NoItems(w: Width, bases: Bases, a: Augmentation)
    requires AugFits(w, a) && a.Bare?
    ensures BasesSet(bases, Items(a)) && RangeCodes(Items(a)) == [] && LastLsda(Items(a), None) == None && AugBytes(w, a) == []
  {
  }

  // ------------------------------------------------------------------ the FDE

  /** Augmentation data of an FDE: the LSDA pointer and more bytes, only under a 'z'. */
  function FdeAug(w: Width, c: CieSpec, f: FdeSpec): seq<Byte>
    requires LsdaFits(w, c, f)
  {
    if c.aug.Bare? then [] else Counted(PointerBytes(w, LsdaOf(c), f.lsda), f.more)
  }

  predicate LsdaFits(w: Width, c: CieSpec, f: FdeSpec) { LsdaOf(c).Some? ==> FieldFits(w, LsdaOf(c).value.format, f.lsda) }

  predicate RangeFits(w: Width, c: CieSpec, f: FdeSpec) {
    var format := RangesOf(c).format;
    FieldFits(w, format, f.location) && FieldFits(w, format, f.length)
  }

  function RangeBytes(w: Width, c: CieSpec, f: FdeSpec): seq<Byte>
    requires RangeFits(w, c, f)
  {
    var format := RangesOf(c).format;
    FieldBytes(w, format, f.location) + FieldBytes(w, format, f.length)
  }

  function FdeRest(w: Width, c: CieSpec, f: FdeSpec): seq<Byte>
    requires RangeFits(w, c, f) && LsdaFits(w, c, f)
  {
    f.selector + (RangeBytes(w, c, f) + (FdeAug(w, c, f) + f.code))
  }

  /** The pointer to the CIE counts back from its own field, so the CIE is before it. */
  predicate FdeFits(w: Width, c: CieSpec, cieOff: nat, f: FdeSpec, off: nat) {
    && |f.selector| == SegmentSize(c.version) && RangeFits(w, c, f) && LsdaFits(w, c, f)
    && cieOff < off + LengthWidth(f.wide) && EntryFits(f.wide, off + LengthWidth(f.wide) - cieOff, FdeRest(w, c, f))
  }

  function FdeBytes(w: Width, c: CieSpec, cieOff: nat, f: FdeSpec, off: nat): seq<Byte>
    requires FdeFits(w, c, cieOff, f, off)
  {
    EntryBytes(f.wide, off + LengthWidth(f.wide) - cieOff, FdeRest(w, c, f))
  }

  /** Where the range of an FDE is written. */
  function FieldAt(f: FdeSpec, off: nat): nat { off + LengthWidth(f.wide) + FieldWidth(f.wide) + |f.selector| }

  /** The address of the function: the location counts from the last four bytes of its
      own field, which for a field of four bytes is the field. */
  function FunctionStart(w: Width, c: CieSpec, f: FdeSpec, off: nat): nat
    requires RangeFits(w, c, f)
  {
    (f.location + FieldAt(f, off) + |FieldBytes(w, RangesOf(c).format, f.location)| - 4) % TWO64
  }

  /** The FDE that was written at an offset: its instructions are its last bytes. */
  function FdeWritten(w: Width, c: CieSpec, cieOff: nat, f: FdeSpec, off: nat): FullFde
    requires FdeFits(w, c, cieOff, f, off)
  {
    var pc, end := FunctionStart(w, c, f, off), off + |FdeBytes(w, c, cieOff, f, off)|;
    FullFde(cieOff, pc, (pc + f.length) % TWO64, end - |f.code|, end)
  }

  lemma FdeParts(m: Memory, off: nat, w: Width, c: CieSpec, f: FdeSpec)
    requires RangeFits(w, c, f) && LsdaFits(w, c, f) && Holds(m, off, FdeRest(w, c, f))
    ensures var o1 := off + |f.selector|;
      var o2 := o1 + |RangeBytes(w, c, f)|;
      Holds(m, o1, RangeBytes(w, c, f)) && Holds(m, o2, FdeAug(w, c, f))
      && Holds(m, o2 + |FdeAug(w, c, f)|, f.code) && off + |FdeRest(w, c, f)| == o2 + |FdeAug(w, c, f)| + |f.code|
  {
    hide Holds;
    hide RangeBytes;
    hide FdeAug;
    hide RangeFits;
    hide LsdaFits;
    var range, aug := RangeBytes(w, c, f), FdeAug(w, c, f);
    HoldsAppend(m, off, f.selector, range + (aug + f.code));
    HoldsAppend(m, off + |f.selector|, range, aug + f.code);
    HoldsAppend(m, off + |f.selector| + |range|, aug, f.code);
  }

  lemma RangeRead(s: Section, c: CieSpec, f: FdeSpec, off: nat)
    requires RangeFits(s.w, c, f) && Holds(s.mem, off, RangeBytes(s.w, c, f))
    ensures var size := |FieldBytes(s.w, RangesOf(c).format, f.location)|;
      RangeAt(s, Code(RangesOf(c)), off)
      == Some(Range((f.location + off + size - 4) % TWO64, f.length % TWO64, off + |RangeBytes(s.w, c, f)|))
  {
    hide Holds;
    hide ReadEncodedValue;
    hide FieldBytes;
    hide FieldFits;
    hide RangesOf;
    hide Code;
    var e := RangesOf(c);
    var first := FieldBytes(s.w, e.format, f.location);
    HoldsAppend(s.mem, off, first, FieldBytes(s.w, e.format, f.length));
    PlainRoundTrip(s.w, s.mem, s.bases, e, off, f.location);
    PlainRoundTrip(s.w, s.mem, s.bases, e, off + |first|, f.length);
    Mod64Add(f.location, off + |first| - 4);
  }

  lemma FdeAugReads(s: Section, c: CieSpec, f: FdeSpec, off: nat)
    requires c.aug.Sized? && LsdaFits(s.w, c, f) && Holds(s.mem, off, FdeAug(s.w, c, f))
    ensures UlebAt(s.mem, off).Got?
    ensures var r := UlebAt(s.mem, off);
      (r.next + r.value) % TWO64 == off + |FdeAug(s.w, c, f)|
      && (ReadEncodedValue(s.w, s.mem, s.bases, OptionalCode(LsdaOf(c)), r.next).Got? <==> HasBase(s.bases, LsdaOf(c)))
  {
    hide UlebAt;
    hide EncodeUleb;
    hide ReadEncodedValue;
    hide PointerBytes;
    hide LsdaOf;
    hide OptionalCode;
    hide HasBase;
    hide FieldFits;
    var pointer := PointerBytes(s.w, LsdaOf(c), f.lsda);
    var n := |pointer| + |f.more|;
    InMemory(s.mem, off, FdeAug(s.w, c, f));
    hide Holds;
    HoldsAppend(s.mem, off, EncodeUleb(n), pointer + f.more);
    UlebReads(s.mem, off, n);
    var o := off + |EncodeUleb(n)|;
    HoldsAppend(s.mem, o, pointer, f.more);
    OptionalRead(s, LsdaOf(c), f.lsda, o);
    WrapSmall(W64, o + n);
  }

  /** The bases that the pointers of a CIE and of its FDEs need. */
  predicate BasesFor(bases: Bases, c: CieSpec) {
    BasesSet(bases, Items(c.aug)) && HasBase(bases, LsdaOf(c))
  }

  /** The parser reads back an FDE under the CIE it points to: the range of its function
      and its instructions from their first byte to their last. It fails exactly if a
      base is missing. */
  lemma FdeReads(s: Section, cieOff: nat, c: CieSpec, off: nat, f: FdeSpec)
    requires CieFits(s.w, c) && Holds(s.mem, cieOff, CieBytes(s.w, c))
    requires FdeFits(s.w, c, cieOff, f, off) && Holds(s.mem, off, FdeBytes(s.w, c, cieOff, f, off))
    ensures FullFdeAt(s, off) == if BasesFor(s.bases, c) then Some(FdeWritten(s.w, c, cieOff, f, off)) else None
  {
    hide HeaderAt;
    hide FullCieAt;
    hide RangeAt;
    hide UlebAt;
    hide ReadEncodedValue;
    hide Holds;
    hide CieBytes;
    hide EntryBytes;
    hide FdeRest;
    hide RangeFits;
    hide LsdaFits;
    hide AugFits;
    hide AugString;
    hide RangeBytes;
    hide FdeAug;
    hide BasesSet;
    hide HasBase;
    hide RangesOf;
    hide LsdaOf;
    hide OptionalCode;
    hide Code;
    hide FdeFits;
    hide FunctionStart;
    FdeHeader(s, cieOff, c, off, f);
    CieReads(s, cieOff, c);
    if BasesSet(s.bases, Items(c.aug)) {
      FdeBody(s, cieOff, c, off, f);
      StringStart(s.w, c.aug);
      if c.aug.Bare? {
        BareHasNoLsda(s.bases, c);
      }
    }
  }

  /** The header of an FDE leads to its CIE and to the field of its range. */
  lemma FdeHeader(s: Section, cieOff: nat, c: CieSpec, off: nat, f: FdeSpec)
    requires FdeFits(s.w, c, cieOff, f, off) && Holds(s.mem, off, FdeBytes(s.w, c, cieOff, f, off))
    ensures HeaderAt(s, off).Some?
    ensures var h := HeaderAt(s, off).value;
      h.id != 0 && CieOffset(h) == cieOff && h.next == off + |FdeBytes(s.w, c, cieOff, f, off)|
      && (h.cursor + SegmentSize(c.version)) % TWO64 == FieldAt(f, off)
      && Holds(s.mem, FieldAt(f, off) - |f.selector|, FdeRest(s.w, c, f))
  {
    hide HeaderAt;
    hide Holds;
    hide EntryBytes;
    hide RangeFits;
    hide LsdaFits;
    HeaderReads(s, off, f.wide, off + LengthWidth(f.wide) - cieOff, FdeRest(s.w, c, f));
    WrapSmall(W64, cieOff);
    WrapSmall(W64, FieldAt(f, off));
  }

  /** Behind the header: the range, and the augmentation data before the instructions. */
  lemma FdeRange(s: Section, cieOff: nat, c: CieSpec, off: nat, f: FdeSpec)
    requires FdeFits(s.w, c, cieOff, f, off) && Holds(s.mem, off, FdeBytes(s.w, c, cieOff, f, off))
    ensures var o := FieldAt(f, off) + |RangeBytes(s.w, c, f)|;
      RangeAt(s, Code(RangesOf(c)), FieldAt(f, off)) == Some(Range(FunctionStart(s.w, c, f, off), f.length % TWO64, o))
      && Holds(s.mem, o, FdeAug(s.w, c, f))
      && FdeWritten(s.w, c, cieOff, f, off).start == o + |FdeAug(s.w, c, f)|
  {
    hide HeaderAt;
    hide RangeAt;
    hide EntryBytes;
    hide EntryFits;
    hide FdeRest;
    hide RangeBytes;
    hide FdeAug;
    hide RangesOf;
    hide Code;
    hide Holds;
    hide LsdaFits;
    hide FieldBytes;
    hide FieldFits;
    FdeHeader(s, cieOff, c, off, f);
    FdeParts(s.mem, FieldAt(f, off) - |f.selector|, s.w, c, f);
    RangeRead(s, c, f, FieldAt(f, off));
  }

  lemma AddLength(start: nat, length: int)
    ensures (start + length % TWO64) % TWO64 == (start + length) % TWO64
  {
    Mod64Add(length, start);
  }

  /** What the parser makes of that. */
  lemma FdeBody(s: Section, cieOff: nat, c: CieSpec, off: nat, f: FdeSpec)
    requires FdeFits(s.w, c, cieOff, f, off) && Holds(s.mem, off, FdeBytes(s.w, c, cieOff, f, off))
    ensures RangeAt(s, Code(RangesOf(c)), FieldAt(f, off)).Some?
    ensures var r, fde := RangeAt(s, Code(RangesOf(c)), FieldAt(f, off)).value, FdeWritten(s.w, c, cieOff, f, off);
      r.start == fde.pcStart && (r.start + r.length) % TWO64 == fde.pcEnd
      && (c.aug.Bare? ==> r.cursor == fde.start)
      && (c.aug.Sized? ==>
        var len := UlebAt(s.mem, r.cursor);
        len.Got? && (len.next + len.value) % TWO64 == fde.start
        && (ReadEncodedValue(s.w, s.mem, s.bases, OptionalCode(LsdaOf(c)), len.next).Got? <==> HasBase(s.bases, LsdaOf(c))))
  {
    hide RangeAt;
    hide UlebAt;
    hide ReadEncodedValue;
    hide EntryBytes;
    hide EntryFits;
    hide FdeRest;
    hide RangeBytes;
    hide FdeAug;
    hide HasBase;
    hide RangesOf;
    hide LsdaOf;
    hide OptionalCode;
    hide Code;
    hide Holds;
    hide RangeFits;
    hide LsdaFits;
    hide FunctionStart;
    FdeRange(s, cieOff, c, off, f);
    AddLength(FunctionStart(s.w, c, f, off), f.length);
    if c.aug.Sized? {
      FdeAugReads(s, c, f, FieldAt(f, off) + |RangeBytes(s.w, c, f)|);
    } else {
      NoFdeAug(s.w, c, f);
    }
  }

  lemma NoFdeAug(w: Width, c: CieSpec, f: FdeSpec)
    requires c.aug.Bare? && LsdaFits(w, c, f)
    ensures FdeAug(w, c, f) == []
  {
  }

  lemma StringStart(w: Width, a: Augmentation)
    requires AugFits(w, a)
    ensures AugString(a) != [] && (AugString(a)[0] == CHAR_Z <==> a.Sized?)
  {
    hide Data;
  }

  lemma BareHasNoLsda(bases: Bases, c: CieSpec)
    requires c.aug.Bare?
    ensures HasBase(bases, LsdaOf(c))
  {
  }

  // ------------------------------------------------------- the instructions

  /** The instructions of a CIE are its last bytes. */
  lemma CieCodeHeld(s: Section, off: nat, c: CieSpec)
    requires CieFits(s.w, c) && Holds(s.mem, off, CieBytes(s.w, c))
    ensures Holds(s.mem, CieWritten(s.w, c, off).start, c.code)
  {
    hide HeaderAt;
    hide Holds;
    hide EntryBytes;
    hide EntryFits;
    hide CieRest;
    hide AugFits;
    hide AugString;
    hide AugBytes;
    hide FixedBytes;
    hide VersionFields;
    hide RangeCodes;
    hide Code;
    hide OptionalCode;
    HeaderReads(s, off, c.wide, 0, CieRest(s.w, c));
    CieParts(s.mem, off + LengthWidth(c.wide) + FieldWidth(c.wide), s.w, c);
  }

  /** And those of an FDE. */
  lemma FdeCodeHeld(s: Section, cieOff: nat, c: CieSpec, off: nat, f: FdeSpec)
    requires FdeFits(s.w, c, cieOff, f, off) && Holds(s.mem, off, FdeBytes(s.w, c, cieOff, f, off))
    ensures Holds(s.mem, FdeWritten(s.w, c, cieOff, f, off).start, f.code)
  {
    hide HeaderAt;
    hide Holds;
    hide EntryBytes;
    hide EntryFits;
    hide FdeRest;
    hide RangeFits;
    hide LsdaFits;
    hide RangeBytes;
    hide FdeAug;
    hide FunctionStart;
    FdeHeader(s, cieOff, c, off, f);
    FdeParts(s.mem, FieldAt(f, off) - |f.selector|, s.w, c, f);
  }

  /** At most one byte of segment selector, and one format for all ranges. */
  predicate PlainSpec(c: CieSpec) {
    var codes := RangeCodes(Items(c.aug));
    SegmentSize(c.version) <= 1 && (codes == [] || codes[0] % 16 == codes[|codes| - 1] % 16)
  }

  /** The CIE that compilers write for x86-64, with ranges relative to their fields. */
  const USUAL_CODE: seq<Byte> := [0x0c, 7, 8, 0x90, 1, 0, 0]
  const USUAL_CIE := CieSpec(false, V1, Sized([R(Encoding(PcRel, S4, false))], []), 1, -8, 16, USUAL_CODE)

  /** Its bytes, and where its instructions are. */
  lemma UsualCie(s: Section, off: nat)
    requires Holds(s.mem, off, [20, 0, 0, 0] + ([0, 0, 0, 0] + ([1] + ([CHAR_Z, CHAR_R, 0] + ([1, 0x78, 16] + ([1, 0x1b] + USUAL_CODE))))))
    ensures FullCieAt(s, off).Some?
    ensures var c := FullCieAt(s, off).value;
      c.start == off + 17 && c.end == off + 24 && c.encoding == 0x1b && c.fixed.dataAlign == -8 && c.fixed.returnReg == 16
  {
    hide CieBytes;
    hide CieFits;
    hide FullCieAt;
    hide RangeCodes;
    hide AugBytes;
    hide AugString;
    hide LsdaOf;
    UsualBytes(s.w);
    CieReads(s, off, USUAL_CIE);
    assert RangesOf(USUAL_CIE) == Encoding(PcRel, S4, false) by {
      assert USUAL_CIE.aug.items[1..] == [];
    }
  }

  lemma UsualBytes(w: Width)
    ensures CieFits(w, USUAL_CIE) && |CieBytes(w, USUAL_CIE)| == 24
    ensures CieBytes(w, USUAL_CIE)
         == [20, 0, 0, 0] + ([0, 0, 0, 0] + ([1] + ([CHAR_Z, CHAR_R, 0] + ([1, 0x78, 16] + ([1, 0x1b] + USUAL_CODE)))))
  {
    hide CieRest;
    hide AugFits;
    UsualParts(w);
    SmallField(20);
    SmallField(0);
    assert |CieRest(w, USUAL_CIE)| == 16;
  }

  lemma SmallField(b: Byte)
    ensures ToLE(b, 4) == [b, 0, 0, 0]
  {
    assert ToLE(0, 1) == [0];
    assert ToLE(0, 2) == [0, 0];
    assert ToLE(0, 3) == [0, 0, 0];
  }

  lemma UsualParts(w: Width)
    ensures AugFits(w, USUAL_CIE.aug) && CieRest(w, USUAL_CIE) == [1] + ([CHAR_Z, CHAR_R, 0] + ([1, 0x78, 16] + ([1, 0x1b] + USUAL_CODE)))
  {
    var c := USUAL_CIE;
    var items := c.aug.items;
    assert items[1..] == [];
    assert Data(w, items) == [0x1b];
    assert Chars(items) == [CHAR_R];
    assert AugString(c.aug) == [CHAR_Z, CHAR_R, 0];
    assert AugBytes(w, c.aug) == [1, 0x1b];
    assert FixedBytes(c) == [1, 0x78, 16];
    var tail := FixedBytes(c) + (AugBytes(w, c.aug) + c.code);
    assert [] + tail == tail;
  }
}
