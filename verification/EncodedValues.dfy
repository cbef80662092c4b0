/** Encoded pointers as an assembler writes them (section 10.5 of LSB Core): a number in
    a format, relative to a base. */
module EncodedValues {
  import opened Machine
  import opened DwarfMemory

  datatype Relative = Absolute | PcRel | TextRel | DataRel | FuncRel

  datatype Format = Ptr | Uleb | U1 | U2 | U4 | U8 | Sleb | S1 | S2 | S4 | S8

  /** A pointer encoding; the source does not look at the indirect bit. */
  datatype Encoding = Encoding(rel: Relative, format: Format, indirect: bool)

  function RelativeCode(r: Relative): nat {
    match r case Absolute => 0x00 case PcRel => 0x10 case TextRel => 0x20 case DataRel => 0x30 case FuncRel => 0x40
  }

  function FormatCode(f: Format): Byte {
    match f
    case Ptr => 0x00 case Uleb => 0x01 case U2 => 0x02 case U4 => 0x03 case U8 => 0x04
    case Sleb => 0x09 case S2 => 0x0a case S4 => 0x0b case S8 => 0x0c
    case U1 => 0x0d case S1 => 0x0e
  }

  function Code(e: Encoding): Byte { RelativeCode(e.rel) + FormatCode(e.format) + if e.indirect then 0x80 else 0 }

  /** The base a pointer is relative to, if it is set. */
  function BaseFor(r: Relative, bases: Bases): Option<nat> {
    match r
    case Absolute => Some(0)
    case PcRel => bases.pc
    case TextRel => bases.text
    case DataRel => bases.data
    case FuncRel => bases.func
  }

  /** Bytes of a fixed-size format, 0 for the others. */
  function FieldSize(w: Width, f: Format): nat {
    match f
    case Ptr => w.Size()
    case U1 => 1 case U2 => 2 case U4 => 4 case U8 => 8
    case S1 => 1 case S2 => 2 case S4 => 4 case S8 => 8
    case _ => 0
  }

  predicate IsSignedFormat(f: Format) { f.S1? || f.S2? || f.S4? || f.S8? }

  /** The number fits the format. */
  predicate FieldFits(w: Width, f: Format, v: int) {
    if f.Uleb? then 0 <= v < TWO64
    else if f.Sleb? then SlebReadable(v)
    else
      var p := Pow256(FieldSize(w, f));
      if IsSignedFormat(f) then -(p / 2) <= v < p / 2 else 0 <= v < p
  }

  function FieldBytes(w: Width, f: Format, v: int): seq<Byte>
    requires FieldFits(w, f, v)
  {
    if f.Uleb? then EncodeUleb(v)
    else if f.Sleb? then EncodeSleb(v)
    else ToLE(v % Pow256(FieldSize(w, f)), FieldSize(w, f))
  }

  lemma FixedField(w: Width, m: Memory, f: Format, off: nat)
    requires !f.Uleb? && !f.Sleb?
    ensures ReadFormat(w, m, FormatCode(f), off)
         == if IsSignedFormat(f) then ReadSigned(m, off, FieldSize(w, f)) else ReadFixed(m, off, FieldSize(w, f))
  {
    hide ReadSigned;
    hide ReadFixed;
    hide UlebAt;
    hide SlebAt;
  }

  /** A number in any format is read back as its 64-bit pattern. */
  lemma FieldReads(w: Width, m: Memory, f: Format, off: nat, v: int)
    requires FieldFits(w, f, v) && Holds(m, off, FieldBytes(w, f, v))
    ensures ReadFormat(w, m, FormatCode(f), off) == Got(v % TWO64, off + |FieldBytes(w, f, v)|)
  {
    hide ReadSigned;
    hide ReadFixed;
    hide UlebAt;
    hide SlebAt;
    hide EncodeUleb;
    hide EncodeSleb;
    hide ToLE;
    hide Holds;
    match f
    case Uleb =>
      EncodeUlebValue(v);
      UlebRoundTrip(m, off, EncodeUleb(v), v);
      WrapSmall(W64, v);
    case Sleb =>
      SlebReadsExactly(m, off, v);
    case _ =>
      FixedField(w, m, f, off);
      hide ReadFormat;
      if IsSignedFormat(f) {
        SignedOperand(m, off, FieldSize(w, f), v);
      } else {
        UnsignedOperand(m, off, FieldSize(w, f), v);
      }
  }

  lemma CodeParts(e: Encoding, bases: Bases)
    ensures Code(e) % 16 == FormatCode(e.format) && BaseOf(Code(e), bases) == BaseFor(e.rel, bases)
    ensures Code(e) != OMIT && Code(e) != ALIGNED
  {
    var f: int, r: int := FormatCode(e.format), RelativeCode(e.rel) / 16;
    var i: int := if e.indirect then 8 else 0;
    var c: int := Code(e);
    assert c == 16 * (r + i) + f && 0 <= f < 16 && 0 <= r < 5;
    assert c % 16 == f && c / 16 == r + i && c / 16 % 8 == r;
  }

  lemma FormatOnly(w: Width, m: Memory, a: Byte, b: Byte, off: nat)
    requires a % 16 == b % 16
    ensures ReadFormat(w, m, a, off) == ReadFormat(w, m, b, off)
  {
    hide ReadSigned;
    hide ReadFixed;
    hide UlebAt;
    hide SlebAt;
  }

  /** A pointer in any encoding is read back: the number written, added to the base that
      the encoding names. Without that base it is not read. */
  lemma EncodedRoundTrip(w: Width, m: Memory, bases: Bases, e: Encoding, off: nat, v: int)
    requires FieldFits(w, e.format, v) && Holds(m, off, FieldBytes(w, e.format, v))
    ensures ReadEncodedValue(w, m, bases, Code(e), off)
         == match BaseFor(e.rel, bases)
            case Some(base) => Got((v + base) % TWO64, off + |FieldBytes(w, e.format, v)|)
            case None => Fail(MemoryInvalid)
  {
    hide Holds;
    hide FieldBytes;
    hide FieldFits;
    hide ReadFormat;
    hide BaseOf;
    hide Code;
    CodeParts(e, bases);
    FieldReads(w, m, e.format, off, v);
    FormatOnly(w, m, Code(e), FormatCode(e.format), off);
    if BaseFor(e.rel, bases).Some? {
      Mod64Add(v, BaseFor(e.rel, bases).value);
    }
  }

  /** The bare format, as it is used for pc ranges, adds no base. */
  lemma PlainRoundTrip(w: Width, m: Memory, bases: Bases, e: Encoding, off: nat, v: int)
    requires FieldFits(w, e.format, v) && Holds(m, off, FieldBytes(w, e.format, v))
    ensures ReadEncodedValue(w, m, bases, Code(e) % 16, off) == Got(v % TWO64, off + |FieldBytes(w, e.format, v)|)
  {
    hide ReadEncodedValue;
    hide Holds;
    hide FieldBytes;
    hide FieldFits;
    hide FormatCode;
    CodeParts(e, bases);
    var plain := Encoding(Absolute, e.format, false);
    assert Code(plain) == FormatCode(e.format);
    EncodedRoundTrip(w, m, bases, plain, off, v);
  }

  /** The size of a fixed field is the size the encoding declares. */
  lemma SizeOfField(w: Width, e: Encoding)
    ensures GetEncodedSize(w, Code(e)) == FieldSize(w, e.format)
  {
    hide Code;
    CodeParts(e, NO_BASES);
  }

  /** An aligned pointer is the word at the next multiple of its size. */
  lemma AlignedRoundTrip(w: Width, m: Memory, bases: Bases, off: nat, a: nat, v: nat)
    requires off <= a < off + w.Size() && a % w.Size() == 0 && v < w.Modulus() && Holds(m, a, ToLE(v, w.Size()))
    ensures ReadEncodedValue(w, m, bases, ALIGNED, off) == Got(v, a + w.Size())
  {
    hide ReadFixed;
    assert Pow256(2) == 0x1_0000 && Pow256(4) == TWO32 && Pow256(6) == 0x1_0000_0000_0000 && Pow256(8) == TWO64;
    assert a + w.Size() - 1 in m;
    SmallMod(v, Pow256(w.Size()));
    UnsignedOperand(m, a, w.Size(), v);
    WrapSmall(W64, v);
    hide Holds;
    hide ToLE;
    hide Pow256;
    NextMultiple(off, a, w.Size());
  }

  lemma NextMultiple(off: nat, a: nat, size: nat)
    requires (size == 4 || size == 8) && off <= a < off + size && a % size == 0
    ensures var up := off + (size - 1); up - up % size == a
  {
  }
}
