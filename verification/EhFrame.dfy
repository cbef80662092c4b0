/** Two readers of .eh_frame (section 10.6.1 of LSB Core): a light pass that only
    indexes pc ranges, and the full parser of one CIE or FDE. */
module EhFrame {
  import opened Machine
  import opened DwarfMemory
  import opened Sorting

  /** The section being read: its bytes and the bases for relative pointers. */
  datatype Section = Section(w: Width, mem: Memory, bases: Bases)

  /** The common start of an entry: where the next entry begins, the CIE id or CIE
      pointer with its width, and the cursor behind it. */
  datatype Header = Header(next: nat, id: nat, wide: bool, cursor: nat)

  const EXTENDED: nat := 0xffff_ffff

  function HeaderAt(s: Section, off: nat): (r: Option<Header>)
    ensures r.Some? ==> off + 8 <= r.value.cursor < TWO64
  {
    match ReadFixed(s.mem, off, 4)
    case Fail(_) => None
    case Got(len, o1) =>
      if len != EXTENDED then
        match ReadFixed(s.mem, o1, 4)
        case Fail(_) => None
        case Got(id, o2) => CursorBound(s.mem, o1, 4); Some(Header((o1 + len) % TWO64, id, false, o2))
      else
        match ReadFixed(s.mem, o1, 8)
        case Fail(_) => None
        case Got(len64, o2) =>
          match ReadFixed(s.mem, o2, 8)
          case Fail(_) => None
          case Got(id, o3) => CursorBound(s.mem, o2, 8); Some(Header((o2 + len64) % TWO64, id, true, o3))
  }

  lemma CursorBound(m: Memory, off: nat, n: nat)
    requires n > 0 && Readable(m, off, n)
    ensures off + n < TWO64
  {
    assert off + (n - 1) in m;
  }

  function DefaultEncoding(wide: bool): Byte { if wide then SDATA8 else SDATA4 }

  // ------------------------------------------------------ pieces of a CIE

  /** The augmentation string with its terminating zero. */
  function AugmentationAt(m: Memory, off: nat): (r: Option<seq<Byte>>)
    ensures r.Some? ==> r.value != []
    decreases TWO64 - off
  {
    if off !in m then None
    else if m[off] == 0 then Some([0])
    else
      match AugmentationAt(m, off + 1)
      case None => None
      case Some(rest) => Some([m[off]] + rest)
  }

  const CHAR_Z: Byte := 0x7a
  const CHAR_R: Byte := 0x52
  const CHAR_L: Byte := 0x4c
  const CHAR_P: Byte := 0x50

  function Skip(cursor: nat): nat { (cursor + 1) % TWO64 }

  /** Version, augmentation string, segment size, and the cursor behind them. */
  datatype Start = Start(version: Byte, aug: seq<Byte>, segment: Byte, cursor: nat)

  function StartAt(m: Memory, off: nat): (r: Option<Start>)
    ensures r.Some? ==> r.value.aug != []
  {
    if off !in m then None
    else
      match AugmentationAt(m, off + 1)
      case None => None
      case Some(aug) =>
        var o := off + 1 + |aug|;
        if m[off] != 4 then Some(Start(m[off], aug, 0, o))
        else if Skip(o) !in m then None
        else Some(Start(m[off], aug, m[Skip(o)], Skip(o) + 1))
  }

  function SkipLeb(m: Memory, off: nat): Option<nat> {
    match LebAt(m, off)
    case None => None
    case Some(bs) => Some(off + |bs|)
  }

  /** A personality pointer: an encoding byte and a value. */
  function SkipPersonality(s: Section, off: nat): Option<nat> {
    if off !in s.mem then None
    else
      match ReadEncodedValue(s.w, s.mem, s.bases, s.mem[off], off + 1)
      case Fail(_) => None
      case Got(_, next) => Some(next)
  }

  // ------------------------------------------------------ the indexing pass

  /** What the pass remembers of a CIE. */
  datatype IndexCie = IndexCie(segment: Byte, encoding: Byte, cursor: nat)

  /** Walks the augmentation data up to the first pointer encoding. */
  function FirstEncoding(s: Section, aug: seq<Byte>, off: nat): Option<(Byte, nat)>
    decreases |aug|
  {
    if aug == [] then None
    else if aug[0] == CHAR_R then
      if off in s.mem then Some((s.mem[off], off + 1)) else None
    else if aug[0] == CHAR_L then FirstEncoding(s, aug[1..], Skip(off))
    else if aug[0] == CHAR_P then
      match SkipPersonality(s, off)
      case None => None
      case Some(next) => FirstEncoding(s, aug[1..], next)
    else FirstEncoding(s, aug[1..], off)
  }

  /** Skips the alignment factors, the return address register and the length of
      the augmentation data. */
  function SkippedFieldsAt(s: Section, st: Start): Option<nat> {
    match SkipLeb(s.mem, st.cursor)
    case None => None
    case Some(o1) =>
      match SkipLeb(s.mem, o1)
      case None => None
      case Some(o2) =>
        match if st.version == 1 then Some(Skip(o2)) else SkipLeb(s.mem, o2)
        case None => None
        case Some(o3) => SkipLeb(s.mem, o3)
  }

  /** GetCieInfo from the cursor behind the CIE id. */
  function CieInfo(s: Section, off: nat, default: Byte): Option<IndexCie> {
    match StartAt(s.mem, off)
    case None => None
    case Some(st) =>
      if st.aug[0] != CHAR_Z || CHAR_R !in st.aug then Some(IndexCie(st.segment, default, st.cursor))
      else
        match SkippedFieldsAt(s, st)
        case None => None
        case Some(o4) =>
          match FirstEncoding(s, st.aug[1..], o4)
          case None => None
          case Some((encoding, next)) => Some(IndexCie(st.segment, encoding, next))
  }

  function IndexCieAt(s: Section, off: nat): Option<IndexCie> {
    match HeaderAt(s, off)
    case None => None
    case Some(h) => if h.id != 0 then None else CieInfo(s, h.cursor, DefaultEncoding(h.wide))
  }

  /** The two values of an FDE that the pass reads: start and length. */
  datatype Range = Range(start: nat, length: nat, cursor: nat)

  /** Reads a pc range at a cursor; the start is relative to the cursor behind it. */
  function RangeAt(s: Section, format: Byte, off: nat): Option<Range> {
    match ReadEncodedValue(s.w, s.mem, s.bases, format % 16, off)
    case Fail(_) => None
    case Got(v, o1) =>
      match ReadEncodedValue(s.w, s.mem, s.bases, format % 16, o1)
      case Fail(_) => None
      case Got(len, o2) => Some(Range((v + o1 - 4) % TWO64, len, o2))
  }

  /** The CIE an FDE points to: the pointer counts back from its own field. */
  function CieOffset(h: Header): nat {
    (h.cursor - h.id - if h.wide then 8 else 4) % TWO64
  }

  function AddFde(s: Section, h: Header, cie: IndexCie): Option<Range> {
    RangeAt(s, cie.encoding, if cie.segment != 0 then Skip(h.cursor) else h.cursor)
  }

  // -------------------------------------------------------- the full parser

  /** The alignment factors and the return address register, and the cursor behind. */
  datatype Fixed = Fixed(codeAlign: nat, dataAlign: int, returnReg: nat, cursor: nat)

  /** A CIE: its fixed fields, the extent of its program, and what its augmentation
      says about the FDEs that use it. */
  datatype FullCie = FullCie(fixed: Fixed, start: nat, end: nat, segment: Byte, encoding: Byte, lsda: Byte,
                             aug: seq<Byte>, encodings: seq<Byte>)

  datatype FullFde = FullFde(cieOffset: nat, pcStart: nat, pcEnd: nat, start: nat, end: nat)

  /** All pointer encodings in the augmentation data, and the last LSDA encoding. */
  datatype Walk = Walk(encodings: seq<Byte>, lsda: Byte)

  function AllEncodings(s: Section, aug: seq<Byte>, off: nat, w: Walk): Option<Walk>
    decreases |aug|
  {
    if aug == [] then Some(w)
    else if aug[0] == CHAR_R then
      if off in s.mem then AllEncodings(s, aug[1..], off + 1, w.(encodings := w.encodings + [s.mem[off]])) else None
    else if aug[0] == CHAR_L then
      if off in s.mem then AllEncodings(s, aug[1..], off + 1, w.(lsda := s.mem[off])) else None
    else if aug[0] == CHAR_P then
      match SkipPersonality(s, off)
      case None => None
      case Some(next) => AllEncodings(s, aug[1..], next, w)
    else AllEncodings(s, aug[1..], off, w)
  }

  function FixedFieldsAt(s: Section, st: Start): Option<Fixed> {
    match UlebAt(s.mem, st.cursor)
    case Fail(_) => None
    case Got(code, o1) =>
      match SlebAt(s.mem, o1)
      case Fail(_) => None
      case Got(data, o2) =>
        if st.version == 1 then
          if o2 in s.mem then Some(Fixed(code, Signed(W64, data), s.mem[o2], o2 + 1)) else None
        else
          match UlebAt(s.mem, o2)
          case Fail(_) => None
          case Got(reg, o3) => Some(Fixed(code, Signed(W64, data), reg, o3))
  }

  /** FillInCie at an offset. The last pointer encoding in the data wins. */
  function FullCieAt(s: Section, off: nat): Option<FullCie> {
    match HeaderAt(s, off)
    case None => None
    case Some(h) =>
      if h.id != 0 then None
      else
        match StartAt(s.mem, h.cursor)
        case None => None
        case Some(st) =>
          if st.version != 1 && st.version != 3 && st.version != 4 then None
          else
            match FixedFieldsAt(s, st)
            case None => None
            case Some(fixed) =>
              var default := DefaultEncoding(h.wide);
              if st.aug[0] != CHAR_Z then
                Some(FullCie(fixed, fixed.cursor, h.next, st.segment, default, OMIT, st.aug, []))
              else
                match UlebAt(s.mem, fixed.cursor)
                case Fail(_) => None
                case Got(len, o4) =>
                  match AllEncodings(s, st.aug[1..], o4, Walk([], OMIT))
                  case None => None
                  case Some(w) =>
                    var n := |w.encodings|;
                    var encoding := if n == 0 then default else w.encodings[n - 1];
                    Some(FullCie(fixed, (o4 + len) % TWO64, h.next, st.segment, encoding, w.lsda, st.aug, w.encodings))
  }

  /** FillInFde at an offset. */
  function FullFdeAt(s: Section, off: nat): Option<FullFde> {
    match HeaderAt(s, off)
    case None => None
    case Some(h) =>
      if h.id == 0 then None
      else
        match FullCieAt(s, CieOffset(h))
        case None => None
        case Some(cie) =>
          match RangeAt(s, cie.encoding, (h.cursor + cie.segment) % TWO64)
          case None => None
          case Some(r) =>
            var fde := FullFde(CieOffset(h), r.start, (r.start + r.length) % TWO64, r.cursor, h.next);
            if cie.aug == [] || cie.aug[0] != CHAR_Z then Some(fde)
            else
              match UlebAt(s.mem, r.cursor)
              case Fail(_) => None
              case Got(len, o) =>
                match ReadEncodedValue(s.w, s.mem, s.bases, cie.lsda, o)
                case Fail(_) => None
                case Got(_, _) => Some(fde.(start := (o + len) % TWO64))
  }

  // ------------------------------------------------------ the two CIE readers

  lemma {:induction false} EncodingsGrow(s: Section, aug: seq<Byte>, off: nat, w: Walk)
    requires AllEncodings(s, aug, off, w).Some?
    ensures w.encodings <= AllEncodings(s, aug, off, w).value.encodings
    ensures CHAR_R !in aug ==> AllEncodings(s, aug, off, w).value.encodings == w.encodings
    decreases |aug|
  {
    if aug != [] {
      if aug[0] == CHAR_R {
        EncodingsGrow(s, aug[1..], off + 1, w.(encodings := w.encodings + [s.mem[off]]));
      } else if aug[0] == CHAR_L {
        EncodingsGrow(s, aug[1..], off + 1, w.(lsda := s.mem[off]));
      } else if aug[0] == CHAR_P {
        EncodingsGrow(s, aug[1..], SkipPersonality(s, off).value, w);
      } else {
        EncodingsGrow(s, aug[1..], off, w);
      }
    }
  }

  /** The pass stops at the first of the encodings the parser collects. */
  lemma {:induction false} FirstIsFirst(s: Section, aug: seq<Byte>, off: nat, w: Walk)
    requires FirstEncoding(s, aug, off).Some? && AllEncodings(s, aug, off, w).Some? && w.encodings == []
    ensures var all := AllEncodings(s, aug, off, w).value.encodings;
      all != [] && all[0] == FirstEncoding(s, aug, off).value.0
    decreases |aug|
  {
    if aug[0] == CHAR_R {
      EncodingsGrow(s, aug[1..], off + 1, w.(encodings := w.encodings + [s.mem[off]]));
    } else if aug[0] == CHAR_L {
      assert Skip(off) == off + 1;
      FirstIsFirst(s, aug[1..], off + 1, w.(lsda := s.mem[off]));
    } else if aug[0] == CHAR_P {
      FirstIsFirst(s, aug[1..], SkipPersonality(s, off).value, w);
    } else {
      FirstIsFirst(s, aug[1..], off, w);
    }
  }

  /** Skipping a LEB128 number ends where reading it does. */
  lemma SkipIsRead(m: Memory, off: nat)
    ensures UlebAt(m, off).Got? ==> SkipLeb(m, off) == Some(UlebAt(m, off).next)
    ensures SlebAt(m, off).Got? ==> SkipLeb(m, off) == Some(SlebAt(m, off).next)
  {
    hide LebAt;
    hide UlebValue;
    hide SlebValue;
  }

  /** What the parser reads of the fixed fields, the pass can skip. */
  lemma FieldsAgree(s: Section, st: Start)
    requires FixedFieldsAt(s, st).Some? && UlebAt(s.mem, FixedFieldsAt(s, st).value.cursor).Got?
    ensures SkippedFieldsAt(s, st) == Some(UlebAt(s.mem, FixedFieldsAt(s, st).value.cursor).next)
  {
    hide UlebAt;
    hide SlebAt;
    hide SkipLeb;
    hide Signed;
    SkipIsRead(s.mem, st.cursor);
    var o1 := SkipLeb(s.mem, st.cursor).value;
    SkipIsRead(s.mem, o1);
    var o2 := SkipLeb(s.mem, o1).value;
    SkipIsRead(s.mem, o2);
    SkipIsRead(s.mem, FixedFieldsAt(s, st).value.cursor);
  }

  /** Where both readers accept a CIE they agree on its segment size; the pass has
      the first pointer encoding of the augmentation data, the parser the last. */
  lemma CieReadersAgree(s: Section, off: nat)
    requires IndexCieAt(s, off).Some? && FullCieAt(s, off).Some?
    ensures var i, c := IndexCieAt(s, off).value, FullCieAt(s, off).value;
      i.segment == c.segment
      && (c.encodings == [] ==> i.encoding == c.encoding)
      && (c.encodings != [] ==> i.encoding == c.encodings[0] && c.encoding == c.encodings[|c.encodings| - 1])
  {
    hide HeaderAt;
    hide StartAt;
    hide FixedFieldsAt;
    hide SkippedFieldsAt;
    hide FirstEncoding;
    hide AllEncodings;
    hide UlebAt;
    var h := HeaderAt(s, off).value;
    var st := StartAt(s.mem, h.cursor).value;
    var o3 := FixedFieldsAt(s, st).value.cursor;
    if st.aug[0] == CHAR_Z {
      var o4 := UlebAt(s.mem, o3).next;
      if CHAR_R in st.aug {
        FieldsAgree(s, st);
        FirstIsFirst(s, st.aug[1..], o4, Walk([], OMIT));
      } else {
        assert CHAR_R !in st.aug[1..];
        EncodingsGrow(s, st.aug[1..], o4, Walk([], OMIT));
      }
    }
  }

  // ------------------------------------------------------------ FDE ranges

  /** Format and cursor with which the pass reads an FDE's range. */
  function IndexReads(h: Header, i: IndexCie): (Byte, nat) {
    (i.encoding % 16, if i.segment != 0 then Skip(h.cursor) else h.cursor)
  }

  /** Format and cursor with which the parser reads it. */
  function FullReads(h: Header, c: FullCie): (Byte, nat) {
    (c.encoding % 16, (h.cursor + c.segment) % TWO64)
  }

  /** At most one byte of segment selector, and no change of format between the
      first and the last pointer encoding. */
  predicate PlainCie(c: FullCie) {
    c.segment <= 1 && (c.encodings == [] || c.encodings[0] % 16 == c.encodings[|c.encodings| - 1] % 16)
  }

  /** The two readers look at the same bytes in the same format exactly for plain CIEs. */
  lemma SameReading(s: Section, h: Header)
    requires h.cursor < TWO64 && IndexCieAt(s, CieOffset(h)).Some? && FullCieAt(s, CieOffset(h)).Some?
    ensures IndexReads(h, IndexCieAt(s, CieOffset(h)).value) == FullReads(h, FullCieAt(s, CieOffset(h)).value)
        <==> PlainCie(FullCieAt(s, CieOffset(h)).value)
  {
    hide FullCieAt;
    hide IndexCieAt;
    CieReadersAgree(s, CieOffset(h));
  }

  // ---------------------------------------------------------- the whole pass

  datatype FdeInfo = FdeInfo(offset: nat, start: nat, end: nat)

  /** The CIE the pass currently holds. Before the first one its offset is zero and
      its fields are whatever the source's uninitialised locals contain. */
  datatype Current = Current(offset: nat, cie: IndexCie, seen: bool)

  function InfoOf(s: Section, off: nat, r: Range): seq<FdeInfo> {
    if r.length == 0 then [] else [FdeInfo(off, Wrap(s.w, r.start), Wrap(s.w, r.start + r.length))]
  }

  /** What reading one entry gives: the records, the current CIE and the cursor. */
  datatype Entry = Entry(infos: seq<FdeInfo>, current: Current, cursor: nat, next: nat)

  function EntryAt(s: Section, off: nat, cur: Current): Option<Entry> {
    match HeaderAt(s, off)
    case None => None
    case Some(h) =>
      if h.id == 0 then
        match CieInfo(s, h.cursor, DefaultEncoding(h.wide))
        case None => None
        case Some(i) => Some(Entry([], Current(off, i, true), i.cursor, h.next))
      else if CieOffset(h) != cur.offset then None
      else
        match AddFde(s, h, cur.cie)
        case None => None
        case Some(r) => Some(Entry(InfoOf(s, off, r), cur, r.cursor, h.next))
  }

  /** The records of the entries from off on, in file order. An entry that claims to
      end inside itself ends the pass; one that ends at or before its own start does
      not occur unless the cursor wrapped, and has no outcome here. */
  function Pass(s: Section, off: nat, end: nat, cur: Current): Option<seq<FdeInfo>>
    decreases end - off
  {
    if off >= end then Some([])
    else
      match EntryAt(s, off, cur)
      case None => None
      case Some(e) =>
        if e.next < e.cursor then Some(e.infos)
        else if e.next <= off then None
        else
          match Pass(s, e.next, end, e.current)
          case None => None
          case Some(rest) => Some(e.infos + rest)
  }

  /** The current CIE is the CIE at its offset. */
  predicate Genuine(s: Section, cur: Current) {
    cur.seen ==> IndexCieAt(s, cur.offset) == Some(cur.cie)
  }

  /** A record comes from an FDE read under the CIE that the FDE points to. */
  predicate Recorded(s: Section, info: FdeInfo) {
    HeaderAt(s, info.offset).Some? &&
    var h := HeaderAt(s, info.offset).value;
    h.id != 0 && IndexCieAt(s, CieOffset(h)).Some? &&
    AddFde(s, h, IndexCieAt(s, CieOffset(h)).value).Some? &&
    InfoOf(s, info.offset, AddFde(s, h, IndexCieAt(s, CieOffset(h)).value).value) == [info]
  }

  lemma EntryRecords(s: Section, off: nat, cur: Current)
    requires EntryAt(s, off, cur).Some? && Genuine(s, cur)
    requires cur.seen || HeaderAt(s, off).value.id == 0
    ensures Genuine(s, EntryAt(s, off, cur).value.current) && EntryAt(s, off, cur).value.current.seen
    ensures forall info :: info in EntryAt(s, off, cur).value.infos ==> Recorded(s, info)
  {
    hide CieInfo;
    hide AddFde;
  }

  lemma {:induction false} PassRecords(s: Section, off: nat, end: nat, cur: Current)
    requires Pass(s, off, end, cur).Some? && Genuine(s, cur)
    requires cur.seen || off >= end || HeaderAt(s, off).value.id == 0
    ensures forall info :: info in Pass(s, off, end, cur).value ==> Recorded(s, info)
    decreases end - off
  {
    hide EntryAt;
    hide Recorded;
    if off < end {
      assert HeaderAt(s, off).Some? by { EntryHasHeader(s, off, cur); }
      EntryRecords(s, off, cur);
      var e := EntryAt(s, off, cur).value;
      if e.next >= e.cursor {
        PassRecords(s, e.next, end, e.current);
      }
    }
  }

  lemma EntryHasHeader(s: Section, off: nat, cur: Current)
    requires EntryAt(s, off, cur).Some?
    ensures HeaderAt(s, off).Some?
  {
  }

  /** One record against the parser. */
  lemma RecordAgrees(s: Section, info: FdeInfo)
    requires Recorded(s, info) && FullFdeAt(s, info.offset).Some?
    requires PlainCie(FullCieAt(s, CieOffset(HeaderAt(s, info.offset).value)).value)
    ensures var fde := FullFdeAt(s, info.offset).value;
      info.start == Wrap(s.w, fde.pcStart) && info.end == Wrap(s.w, fde.pcEnd)
  {
    hide FullCieAt;
    hide IndexCieAt;
    hide RangeAt;
    hide Wrap;
    hide HeaderAt;
    hide UlebAt;
    hide ReadEncodedValue;
    var h := HeaderAt(s, info.offset).value;
    SameReading(s, h);
    var i := IndexCieAt(s, CieOffset(h)).value;
    SameFormat(s, i.encoding, FullCieAt(s, CieOffset(h)).value.encoding, IndexReads(h, i).1);
    var r := AddFde(s, h, i).value;
    Reduce(s.w, r.start + r.length);
  }

  /** Only the low four bits of an encoding choose the format of a pc range. */
  lemma SameFormat(s: Section, a: Byte, b: Byte, off: nat)
    requires a % 16 == b % 16
    ensures RangeAt(s, a, off) == RangeAt(s, b, off)
  {
  }

  /** The indexing pass and the full parser agree: on every byte content, for every
      FDE the pass records and the parser accepts, both give the same pc range, as
      far as an address of this width can hold it. */
  lemma ParsersAgree(s: Section, off: nat, end: nat, junk: IndexCie, info: FdeInfo)
    requires Pass(s, off, end, Current(0, junk, false)).Some?
    requires off >= end || HeaderAt(s, off).value.id == 0
    requires info in Pass(s, off, end, Current(0, junk, false)).value && FullFdeAt(s, info.offset).Some?
    requires PlainCie(FullCieAt(s, CieOffset(HeaderAt(s, info.offset).value)).value)
    ensures var fde := FullFdeAt(s, info.offset).value;
      info.start == Wrap(s.w, fde.pcStart) && info.end == Wrap(s.w, fde.pcEnd)
  {
    hide FullFdeAt;
    hide FullCieAt;
    hide Recorded;
    hide EntryAt;
    PassRecords(s, off, end, Current(0, junk, false));
    RecordAgrees(s, info);
  }

  // ------------------------------------------------------- the sorted index

  /** The order of the index: by start, then by end. */
  function Order(info: FdeInfo): nat { info.start * TWO64 + info.end }

  class FdeIndex {
    const s: Section
    var fdes: seq<FdeInfo>

    constructor (sec: Section)
      ensures s == sec && fdes == []
    {
      s := sec;
      fdes := [];
    }

    /** CreateSortedFdeList: one loop over the entries, then the sort. */
    method CreateSortedFdeList(start: nat, end: nat, junk: IndexCie) returns (ok: bool)
      requires fdes == []
      modifies this
      ensures ok == Pass(s, start, end, Current(0, junk, false)).Some?
      ensures ok ==> multiset(fdes) == multiset(Pass(s, start, end, Current(0, junk, false)).value)
      ensures ok ==> SortedBy(fdes, Order)
    {
      hide EntryAt;
      ghost var all := Pass(s, start, end, Current(0, junk, false));
      var off, cur, more := start, Current(0, junk, false), true;
      while more && off < end
        invariant more ==> (all.Some? <==> Pass(s, off, end, cur).Some?)
        invariant more && all.Some? ==> all.value == fdes + Pass(s, off, end, cur).value
        invariant !more ==> all == Some(fdes)
        decreases more, end - off
      {
        var e := EntryAt(s, off, cur);
        if e.None? {
          return false;
        }
        ghost var before := fdes;
        fdes := fdes + e.value.infos;
        if e.value.next < e.value.cursor {
          more := false;
        } else if e.value.next <= off {
          return false;
        } else {
          cur, off := e.value.current, e.value.next;
          ghost var rest := Pass(s, off, end, cur);
          assert rest.Some? ==> before + (e.value.infos + rest.value) == fdes + rest.value;
        }
      }
      assert fdes + [] == fdes;
      assert all == Some(fdes);
      SortSorts(fdes, Order);
      fdes := Sort(fdes, Order);
      ok := true;
    }
  }
}
