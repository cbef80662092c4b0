/** The binary search table of .eh_frame_hdr (section 10.6.2 of LSB Core), whose
    entries are decoded on demand and remembered. */
module EhFrameHdr {
  import opened Machine
  import opened DwarfMemory
  import opened IndexLookup
  import opened EncodedValues

  datatype FdeInfo = FdeInfo(pc: nat, offset: nat)

  /** What Init leaves behind; it clears the text and function bases. */
  datatype Header = Header(w: Width, mem: Memory, entries: nat, data: nat, encoding: Byte)

  function EntrySize(h: Header): nat { GetEncodedSize(h.w, h.encoding) }

  function EntryStart(h: Header, index: nat): nat { (h.entries + 2 * index * EntrySize(h)) % TWO64 }

  function EntryBases(h: Header, index: nat): Bases {
    Bases(Some(EntryStart(h, index)), None, Some(h.data), None)
  }

  /** Both fields of an entry, and the cursor behind them. Pointers relative to the pc
      are relative to the start of the entry, the second one too. The pc is kept in the
      address width, the offset in 64 bits. */
  function ReadEntry(h: Header, index: nat): Read<FdeInfo> {
    match ReadEncodedValue(h.w, h.mem, EntryBases(h, index), h.encoding, EntryStart(h, index))
    case Fail(e) => Fail(e)
    case Got(pc, next) =>
      match ReadEncodedValue(h.w, h.mem, EntryBases(h, index), h.encoding, next)
      case Fail(e) => Fail(e)
      case Got(offset, end) => Got(FdeInfo(Wrap(h.w, pc), offset), end)
  }

  /** Entries of a fixed-size encoding tile the table: each ends where the next starts. */
  lemma EntriesTile(h: Header, index: nat)
    requires h.encoding != ALIGNED && EntrySize(h) > 0 && ReadEntry(h, index).Got?
    ensures ReadEntry(h, index).next == EntryStart(h, index) + 2 * EntrySize(h)
    ensures ReadEntry(h, index).next % TWO64 == EntryStart(h, index + 1)
  {
    assert h.encoding != OMIT;
    hide ReadEncodedValue;
    hide GetEncodedSize;
    hide EntryStart;
    var bases, start := EntryBases(h, index), EntryStart(h, index);
    EncodedSizeIsStride(h.w, h.mem, bases, h.encoding, start);
    var next := ReadEncodedValue(h.w, h.mem, bases, h.encoding, start).next;
    EncodedSizeIsStride(h.w, h.mem, bases, h.encoding, next);
    NextStart(h, index);
  }

  lemma NextStart(h: Header, index: nat)
    ensures (EntryStart(h, index) + 2 * EntrySize(h)) % TWO64 == EntryStart(h, index + 1)
  {
    hide GetEncodedSize;
    var size := EntrySize(h);
    Mod64Add(h.entries + 2 * index * size, 2 * size);
    assert 2 * (index + 1) * size == 2 * index * size + 2 * size;
  }

  function Key(h: Header, index: nat): Option<nat> {
    match ReadEntry(h, index)
    case Fail(_) => None
    case Got(info, _) => Some(info.pc)
  }

  /** The pcs of the first n entries. */
  function Keys(h: Header, n: nat): (keys: seq<Option<nat>>)
    ensures |keys| == n && forall i :: 0 <= i < n ==> keys[i] == Key(h, i)
  {
    seq(n, i requires 0 <= i < n => Key(h, i))
  }

  /** The offset that a search over the undecoded table gives. */
  function OffsetFor(h: Header, pc: nat, total: nat): Option<nat> {
    var found := Search(Keys(h, total), pc, 0, total);
    if found.At? && ReadEntry(h, found.index).Got? then Some(ReadEntry(h, found.index).value.offset) else None
  }

  class HdrTable {
    const header: Header
    var infos: map<nat, FdeInfo>

    constructor (h: Header)
      ensures header == h && Valid() && infos == map[]
    {
      header := h;
      infos := map[];
    }

    /** Only entries that could be read are remembered, as they were read. */
    ghost predicate Valid()
      reads this
    {
      forall i :: i in infos ==> ReadEntry(header, i).Got? && infos[i] == ReadEntry(header, i).value
    }

    /** The entry, read or remembered: the same either way. */
    method GetFdeInfoFromIndex(index: nat) returns (r: Option<FdeInfo>)
      requires Valid()
      modifies this
      ensures Valid() && infos.Keys == old(infos.Keys) + (if r.Some? then {index} else {})
      ensures r == match ReadEntry(header, index) case Fail(_) => None case Got(info, _) => Some(info)
    {
      hide ReadEntry;
      if index in infos {
        return Some(infos[index]);
      }
      infos := infos[index := FdeInfo(0, 0)];
      match ReadEntry(header, index)
      case Fail(_) =>
        infos := infos - {index};
        r := None;
      case Got(info, _) =>
        infos := infos[index := info];
        r := Some(info);
    }

    /** The answer is that of the search over the undecoded table, whichever entries
        earlier lookups have remembered; a failed lookup gives no offset. */
    method GetFdeOffsetBinary(pc: nat, total: nat) returns (r: Option<nat>)
      requires Valid()
      modifies this
      ensures Valid() && old(infos.Keys) <= infos.Keys
      ensures r == OffsetFor(header, pc, total)
    {
      hide Search;
      hide ReadEntry;
      ghost var keys := Keys(header, total);
      ghost var goal := Search(keys, pc, 0, total);
      var first: nat, last: nat := 0, total;
      while first < last
        invariant Valid() && old(infos.Keys) <= infos.Keys
        invariant first <= last <= total
        invariant Search(keys, pc, first, last) == goal
        invariant first > 0 ==> ReadEntry(header, first - 1).Got?
        decreases last - first
      {
        SearchStep(keys, pc, first, last);
        var current := (first + last) / 2;
        var info := GetFdeInfoFromIndex(current);
        if info.None? {
          return None;
        }
        if pc == info.value.pc {
          return Some(info.value.offset);
        }
        if pc < info.value.pc {
          last := current;
        } else {
          first := current + 1;
        }
      }
      SearchStep(keys, pc, first, last);
      if last != 0 {
        var info := GetFdeInfoFromIndex(last - 1);
        return Some(info.value.offset);
      }
      r := None;
    }
  }

  /** On a sorted readable table: the offset of an entry with the greatest pc that is
      not above the target, and none exactly if every entry is above it. */
  lemma LookupIsFloor(h: Header, pc: nat, total: nat)
    requires Sorted(Keys(h, total))
    ensures var keys := Keys(h, total);
      match Search(keys, pc, 0, total)
      case At(i) => Floor(keys, pc, i)
      case Below => forall i :: 0 <= i < total ==> pc < keys[i].value
      case Unreadable => false
  {
    hide Search;
    hide Linear;
    var keys := Keys(h, total);
    SearchIsLinear(keys, pc);
    LinearIsFloor(keys, pc, total);
  }

  // ------------------------------------------------------- tables as written

  /** An entry of the table: the start of a function and the place of its FDE. */
  datatype Pair = Pair(pc: nat, offset: nat)

  /** The base of the entry's two fields: nothing, the entry's own address, or the start
      of the header. */
  function FieldBase(h: Header, rel: Relative, i: nat): Option<nat> {
    match rel
    case Absolute => Some(0)
    case PcRel => Some(EntryStart(h, i))
    case DataRel => Some(h.data)
    case _ => None
  }

  /** The table holds this pair as entry i, both fields in the encoding of the table. */
  predicate HoldsPair(h: Header, e: Encoding, i: nat, p: Pair) {
    && h.encoding == Code(e) && FieldSize(h.w, e.format) > 0 && p.pc < h.w.Modulus() && p.offset < TWO64
    && FieldBase(h, e.rel, i).Some?
    && var base := FieldBase(h, e.rel, i).value;
    && FieldFits(h.w, e.format, p.pc - base) && FieldFits(h.w, e.format, p.offset - base)
    && Holds(h.mem, EntryStart(h, i), FieldBytes(h.w, e.format, p.pc - base) + FieldBytes(h.w, e.format, p.offset - base))
  }

  /** An entry is read back as the pair that was written. */
  lemma PairReads(h: Header, e: Encoding, i: nat, p: Pair)
    requires HoldsPair(h, e, i, p)
    ensures ReadEntry(h, i).Got? && ReadEntry(h, i).value == FdeInfo(p.pc, p.offset)
  {
    hide ReadEncodedValue;
    hide Holds;
    hide FieldBytes;
    hide FieldFits;
    hide EntryStart;
    var base := FieldBase(h, e.rel, i).value;
    var start, bases := EntryStart(h, i), EntryBases(h, i);
    var first, second := FieldBytes(h.w, e.format, p.pc - base), FieldBytes(h.w, e.format, p.offset - base);
    assert BaseFor(e.rel, bases) == Some(base);
    HoldsAppend(h.mem, start, first, second);
    EncodedRoundTrip(h.w, h.mem, bases, e, start, p.pc - base);
    EncodedRoundTrip(h.w, h.mem, bases, e, start + |first|, p.offset - base);
    WrapSmall(W64, p.offset);
    WrapSmall(W64, p.pc);
    WrapSmall(h.w, p.pc);
  }

  /** The table is assembled from a list of pairs in ascending order of their pcs. */
  predicate HoldsTable(h: Header, e: Encoding, pairs: seq<Pair>) {
    && (forall i :: 0 <= i < |pairs| ==> HoldsPair(h, e, i, pairs[i]))
    && (forall i, j :: 0 <= i < j < |pairs| ==> pairs[i].pc <= pairs[j].pc)
  }

  /** The pair has the greatest pc that is not above the target. */
  predicate IsFloor(pairs: seq<Pair>, pc: nat, p: Pair) {
    p in pairs && p.pc <= pc && forall i :: 0 <= i < |pairs| && pairs[i].pc <= pc ==> pairs[i].pc <= p.pc
  }

  /** Looking up a target gives the offset written beside the greatest pc that is not
      above it, and nothing exactly if every pc is above it. */
  lemma LookupOfPairs(h: Header, e: Encoding, pairs: seq<Pair>, pc: nat)
    requires HoldsTable(h, e, pairs)
    ensures match OffsetFor(h, pc, |pairs|)
      case Some(offset) => exists p :: IsFloor(pairs, pc, p) && p.offset == offset
      case None => forall i :: 0 <= i < |pairs| ==> pc < pairs[i].pc
  {
    hide Search;
    hide ReadEntry;
    hide HoldsPair;
    hide Linear;
    var keys := Keys(h, |pairs|);
    forall i | 0 <= i < |pairs| ensures ReadEntry(h, i).Got? && ReadEntry(h, i).value == FdeInfo(pairs[i].pc, pairs[i].offset) && keys[i] == Some(pairs[i].pc) {
      PairReads(h, e, i, pairs[i]);
    }
    assert Sorted(keys);
    SearchIsLinear(keys, pc);
    LinearIsFloor(keys, pc, |pairs|);
    var found := Search(keys, pc, 0, |pairs|);
    if found.At? {
      assert IsFloor(pairs, pc, pairs[found.index]);
    }
  }

  lemma SmallField(v: nat)
    requires v < 0x1_0000
    ensures FieldFits(W64, S4, v) && FieldBytes(W64, S4, v) == [v % 256, v / 256, 0, 0]
  {
    assert Pow256(2) == 0x1_0000 && Pow256(4) == TWO32;
    WrapSmall(W32, v);
    assert v / 256 / 256 == 0 && ToLE(0, 1) == [0] && ToLE(0, 2) == [0, 0];
    assert ToLE(v / 256, 3) == [v / 256 % 256] + ToLE(0, 2);
    assert ToLE(v, 4) == [v % 256] + ToLE(v / 256, 3);
  }

  lemma FirstStart(h: Header)
    requires h.entries < TWO64
    ensures EntryStart(h, 0) == h.entries
  {
    hide EntrySize;
    assert 2 * 0 * EntrySize(h) == 0;
    WrapSmall(W64, h.entries);
  }

  lemma SizeFour()
    ensures FieldSize(W64, S4) == 4
  {
  }

  lemma UsualPair(h: Header)
    requires h.w == W64 && h.encoding == 0x3b && h.data == 0x100 && h.entries == 0x10c
    requires Holds(h.mem, 0x10c, [0x00, 0x0f, 0, 0] + [0x00, 0x01, 0, 0])
    ensures HoldsPair(h, Encoding(DataRel, S4, false), 0, Pair(0x1000, 0x200))
  {
    hide FieldBytes;
    hide FieldFits;
    hide Holds;
    hide EntryStart;
    hide FieldSize;
    SmallField(0xf00);
    SmallField(0x100);
    FirstStart(h);
    SizeFour();
  }

  /** The usual table, datarel sdata4, with one function at 0x1000 and its FDE at 0x200. */
  lemma UsualTable(h: Header, pc: nat)
    requires h.w == W64 && h.encoding == 0x3b && h.data == 0x100 && h.entries == 0x10c && pc >= 0x1000
    requires Holds(h.mem, 0x10c, [0x00, 0x0f, 0, 0] + [0x00, 0x01, 0, 0])
    ensures OffsetFor(h, pc, 1) == Some(0x200)
  {
    hide HoldsPair;
    hide OffsetFor;
    var e, p := Encoding(DataRel, S4, false), Pair(0x1000, 0x200);
    UsualPair(h);
    LookupOfPairs(h, e, [p], pc);
    assert [p][0] == p;
  }
}
