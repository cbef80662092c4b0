/** Zap's log buffer: a header and a data area in one block of bytes, filled by
    writes and handed off in chunks (the uncompressed branch). */
module ZapBuffer {
  import opened Machine

  const MAGIC: Byte := 0x11
  const SIZE_T: nat := 8
  const LOG_LEN_AT: nat := 1
  const PATH_LEN_AT: nat := 1 + SIZE_T
  const PATH_AT: nat := 1 + 2 * SIZE_T

  function HeaderLen(pathLen: nat): nat { 1 + SIZE_T + SIZE_T + pathLen + SIZE_T + 1 }

  // ----------------------------------------------- header fields in the block

  /** The size_t stored at an offset of the block. */
  function FieldAt(block: seq<Byte>, at: nat): nat
    requires at + SIZE_T <= |block|
  {
    LittleEndian(block[at..at + SIZE_T])
  }

  /** The block with some of its bytes replaced: memcpy. */
  function Put(block: seq<Byte>, at: nat, bytes: seq<Byte>): (r: seq<Byte>)
    requires at + |bytes| <= |block|
    ensures |r| == |block|
  {
    block[..at] + bytes + block[at + |bytes|..]
  }

  function PutField(block: seq<Byte>, at: nat, v: nat): (r: seq<Byte>)
    requires at + SIZE_T <= |block|
    ensures |r| == |block|
  {
    Put(block, at, ToLE(v, SIZE_T))
  }

  lemma PutReadsBack(block: seq<Byte>, at: nat, bytes: seq<Byte>)
    requires at + |bytes| <= |block|
    ensures Put(block, at, bytes)[at..at + |bytes|] == bytes
  {
  }

  /** Any slice that the written bytes do not touch is unchanged. */
  lemma PutElsewhere(block: seq<Byte>, at: nat, bytes: seq<Byte>, lo: nat, hi: nat)
    requires at + |bytes| <= |block| && lo <= hi <= |block| && (hi <= at || at + |bytes| <= lo)
    ensures Put(block, at, bytes)[lo..hi] == block[lo..hi]
  {
  }

  lemma PutKeeps(block: seq<Byte>, at: nat, bytes: seq<Byte>)
    requires at + |bytes| <= |block|
    ensures forall lo, hi {:trigger Put(block, at, bytes)[lo..hi]} ::
      0 <= lo <= hi <= |block| && (hi <= at || at + |bytes| <= lo) ==> Put(block, at, bytes)[lo..hi] == block[lo..hi]
  {
    forall lo, hi | 0 <= lo <= hi <= |block| && (hi <= at || at + |bytes| <= lo)
      ensures Put(block, at, bytes)[lo..hi] == block[lo..hi]
    {
      PutElsewhere(block, at, bytes, lo, hi);
    }
  }

  lemma FieldReadsBack(block: seq<Byte>, at: nat, v: nat)
    requires at + SIZE_T <= |block| && v < TWO64
    ensures FieldAt(PutField(block, at, v), at) == v
  {
    PutReadsBack(block, at, ToLE(v, SIZE_T));
    SizeRoundTrip(v);
  }

  predicate Available(block: seq<Byte>)
    requires |block| > 0
  {
    block[0] == MAGIC
  }

  /** The stored path length, unless it cannot be one. */
  function LogPathLen(block: seq<Byte>): nat
    requires |block| >= HeaderLen(0)
  {
    var len := FieldAt(block, PATH_LEN_AT);
    if Available(block) && 0 < len < |block| - HeaderLen(0) then len else 0
  }

  /** The stored log length, unless it cannot be one: a full data area reads as zero. */
  function LogLen(block: seq<Byte>): nat
    requires |block| >= HeaderLen(0)
  {
    var len := FieldAt(block, LOG_LEN_AT);
    if Available(block) && 0 < len && len + HeaderLen(LogPathLen(block)) < |block| then len else 0
  }

  // ------------------------------------------------------ what the buffer means

  /** The abstract log: chunks handed to the flusher, and the live bytes. */
  datatype Log = Log(chunks: seq<seq<Byte>>, live: seq<Byte>)

  datatype Event = WriteMsg(msg: seq<Byte>) | FlushNow

  function Concat(chunks: seq<seq<Byte>>): seq<Byte> {
    if chunks == [] then [] else Concat(chunks[..|chunks| - 1]) + chunks[|chunks| - 1]
  }

  /** CallFileFlush: a non-empty buffer becomes one chunk. */
  function Flushed(log: Log): Log {
    if log.live == [] then log else Log(log.chunks + [log.live], [])
  }

  /** Append cuts a message to the free space. */
  function Appended(log: Log, area: nat, msg: seq<Byte>): Log
    requires |log.live| <= area
  {
    var free := area - |log.live|;
    log.(live := log.live + if |msg| <= free then msg else msg[..free])
  }

  /** WriteNative and AsyncFlushNative. */
  function Apply(log: Log, area: nat, e: Event): (r: Log)
    requires |log.live| <= area
    ensures |r.live| <= area
  {
    match e
    case FlushNow => Flushed(log)
    case WriteMsg(msg) =>
      Appended(if |msg| >= area - |log.live| then Flushed(log) else log, area, msg)
  }

  function Run(log: Log, area: nat, events: seq<Event>): (r: Log)
    requires |log.live| <= area
    ensures |r.live| <= area
    decreases |events|
  {
    if events == [] then log else Apply(Run(log, area, events[..|events| - 1]), area, events[|events| - 1])
  }

  /** Everything ever handed off, in order, followed by what is still live. */
  function Stream(log: Log): seq<Byte> { Concat(log.chunks) + log.live }

  /** What the log keeps of an event: the part of a message that fits the data area. */
  function Part(area: nat, e: Event): seq<Byte> {
    match e
    case FlushNow => []
    case WriteMsg(msg) => if |msg| <= area then msg else msg[..area]
  }

  function Kept(area: nat, events: seq<Event>): seq<Byte> {
    if events == [] then [] else Kept(area, events[..|events| - 1]) + Part(area, events[|events| - 1])
  }

  /** The messages as written. */
  function Sent(events: seq<Event>): seq<Byte> {
    if events == [] then []
    else
      Sent(events[..|events| - 1]) +
      match events[|events| - 1]
      case FlushNow => []
      case WriteMsg(msg) => msg
  }

  const EMPTY := Log([], [])

  lemma FlushKeepsStream(log: Log)
    ensures Stream(Flushed(log)) == Stream(log)
  {
    if log.live != [] {
      var chunks := log.chunks + [log.live];
      assert chunks[..|chunks| - 1] == log.chunks;
      assert Concat(chunks) == Concat(log.chunks) + log.live;
      assert Concat(chunks) + [] == Concat(chunks);
    }
  }

  lemma AppendExtendsStream(log: Log, area: nat, msg: seq<Byte>, cut: seq<Byte>)
    requires |log.live| <= area && Appended(log, area, msg).live == log.live + cut
    ensures Stream(Appended(log, area, msg)) == Stream(log) + cut
  {
  }

  /** One event adds exactly its part to the stream. */
  lemma ApplyExtendsStream(log: Log, area: nat, e: Event)
    requires |log.live| <= area
    ensures Stream(Apply(log, area, e)) == Stream(log) + Part(area, e)
  {
    hide Stream;
    FlushKeepsStream(log);
    match e
    case FlushNow =>
      assert Stream(log) + [] == Stream(log);
    case WriteMsg(msg) =>
      var ready := if |msg| >= area - |log.live| then Flushed(log) else log;
      AppendExtendsStream(ready, area, msg, Part(area, e));
  }

  /** Conservation, for every run: nothing is lost, duplicated or reordered except
      the part of a message beyond the size of the data area. */
  lemma {:induction false} Conservation(area: nat, events: seq<Event>)
    ensures Stream(Run(EMPTY, area, events)) == Kept(area, events)
    decreases |events|
  {
    if events != [] {
      Conservation(area, events[..|events| - 1]);
      ApplyExtendsStream(Run(EMPTY, area, events[..|events| - 1]), area, events[|events| - 1]);
    }
  }

  predicate AllFit(area: nat, events: seq<Event>) {
    forall i :: 0 <= i < |events| && events[i].WriteMsg? ==> |events[i].msg| <= area
  }

  lemma {:induction false} KeptIsSent(area: nat, events: seq<Event>)
    ensures |Kept(area, events)| <= |Sent(events)|
    ensures AllFit(area, events) ==> Kept(area, events) == Sent(events)
    ensures !AllFit(area, events) ==> |Kept(area, events)| < |Sent(events)|
    decreases |events|
  {
    if events != [] {
      var front, last := events[..|events| - 1], events[|events| - 1];
      KeptIsSent(area, front);
      assert AllFit(area, events) <==> AllFit(area, front) && (last.WriteMsg? ==> |last.msg| <= area);
    }
  }

  /** The log carries exactly the messages that were written if and only if every
      message fits the data area. */
  lemma ConservationExactly(area: nat, events: seq<Event>)
    ensures Stream(Run(EMPTY, area, events)) == Sent(events) <==> AllFit(area, events)
  {
    Conservation(area, events);
    KeptIsSent(area, events);
  }

  // -------------------------------------------------------- the chunk object

  /** BufferFlush: a growing copy of the bytes to be written to the file. */
  class BufferFlush {
    var data: array?<Byte>
    var used: nat
    var capacity: nat

    constructor (size: nat)
      ensures data == null && used == 0 && capacity == size
    {
      data, used, capacity := null, 0, size;
    }

    /** The bookkeeping a further Write relies on. */
    predicate Sound()
      reads this
    {
      if data == null then used == 0 else used <= capacity <= data.Length
    }

    function Contents(): seq<Byte>
      requires Sound()
      reads this, data
    {
      if data == null then [] else data[..used]
    }

    /** Appends bytes, growing the block when they do not fit strictly. A grown
        block does not update the capacity, so the bookkeeping stays sound exactly
        when the contents still fit the old capacity; after a first Write they do. */
    method Write(bytes: seq<Byte>)
      requires Sound()
      modifies this, data
      ensures data != null && (fresh(data) || data == old(data))
      ensures used == |old(Contents()) + bytes| && used <= data.Length
      ensures data[..used] == old(Contents()) + bytes
      ensures Sound() <==> used <= capacity
      ensures old(data) == null ==> Sound()
    {
      if data == null {
        capacity := if capacity >= |bytes| then capacity else |bytes|;
        data := new Byte[capacity](_ => 0);
        used := 0;
      }
      var empty := capacity - used;
      if |bytes| < empty {
        forall i | 0 <= i < |bytes| {
          data[used + i] := bytes[i];
        }
        used := used + |bytes|;
      } else {
        var total := used + |bytes|;
        var now := data[..used] + bytes;
        data := new Byte[total](i requires 0 <= i < |now| => now[i]);
        used := total;
      }
    }
  }

  // ------------------------------------------------------- the buffer object

  class Buffer {
    const block: array<Byte>
    var dataPtr: nat
    var writePtr: nat
    var handedOff: seq<seq<Byte>>
    var overrun: bool

    /** The header describes the block: magic, path length and log length. */
    predicate Valid()
      reads this, block
    {
      && HeaderLen(0) <= dataPtr <= writePtr <= block.Length < TWO64
      && Available(block[..])
      && HeaderLen(LogPathLen(block[..])) == dataPtr
      && FieldAt(block[..], LOG_LEN_AT) == writePtr - dataPtr
    }

    function Area(): nat
      requires Valid()
      reads this, block
    {
      block.Length - dataPtr
    }

    function State(): (l: Log)
      requires Valid()
      reads this, block
      ensures |l.live| <= Area()
    {
      Log(handedOff, block[dataPtr..writePtr])
    }

    /** Space for the header, the path and a data area of the given capacity. The
        source also writes the compression flag seven bytes into the data area, which
        is outside the block exactly if the data area is smaller than eight bytes. A
        header that fills the block does not keep its path: the data area starts over it. */
    constructor (path: seq<Byte>, limit: nat, capacity: nat)
      requires HeaderLen(|path|) + capacity < TWO64 && limit < TWO64
      ensures Valid() && fresh(block) && State() == EMPTY && overrun == (capacity < SIZE_T)
      ensures capacity > 0 ==> Area() == capacity
      ensures capacity > 0 ==> LogPathLen(block[..]) == |path| && block[PATH_AT..PATH_AT + |path|] == path
      ensures capacity == 0 ==> Area() == |path|
    {
      block := new Byte[HeaderLen(|path|) + capacity];
      handedOff, overrun := [], false;
      dataPtr, writePtr := 0, 0;
      new;
      InitData(path, limit);
    }

    /** Writes a fresh header and places the pointers by what it reads back. */
    method InitData(path: seq<Byte>, limit: nat)
      requires HeaderLen(|path|) <= block.Length < TWO64 && limit < TWO64
      modifies this`dataPtr, this`writePtr, this`overrun, block
      ensures Valid() && State() == Log(handedOff, [])
      ensures overrun == (block.Length < HeaderLen(|path|) + SIZE_T)
      ensures dataPtr == HeaderLen(if HeaderLen(|path|) < block.Length then |path| else 0)
      ensures LogPathLen(block[..]) == (if HeaderLen(|path|) < block.Length then |path| else 0)
      ensures block[PATH_AT..PATH_AT + |path|] == path
    {
      hide WithHeader;
      hide Put;
      hide LogPathLen;
      hide LogLen;
      hide FieldAt;
      hide ToLE;
      hide Image;
      Memcpy(0, seq(block.Length, _ => 0));
      HeaderReadsBack(block[..], path, limit);
      overrun := InitHeader(path, limit);
      var header := block[..];
      assert header[0] == MAGIC && header[PATH_AT..PATH_AT + |path|] == path;
      dataPtr := HeaderLen(LogPathLen(header));
      writePtr := dataPtr + LogLen(header);
    }

    method Memcpy(at: nat, bytes: seq<Byte>)
      requires at + |bytes| <= block.Length
      modifies block
      ensures block[..] == Put(old(block[..]), at, bytes)
    {
      forall i | 0 <= i < |bytes| {
        block[at + i] := bytes[i];
      }
    }

    /** A block too small for the path is left alone. Otherwise the fields are written
        one after the other, as far as they fall into the block; one that does not is
        reported, as the source writes past the block then. */
    method InitHeader(path: seq<Byte>, limit: nat) returns (outside: bool)
      modifies block
      ensures PATH_AT + |path| > block.Length ==> block[..] == old(block[..])
      ensures HeaderLen(|path|) <= block.Length ==> block[..] == WithHeader(old(block[..]), path, limit)
      ensures PATH_AT + |path| <= block.Length ==> block[..PATH_AT + |path|] == Image(path)
      ensures outside <==> PATH_AT + |path| <= block.Length <= FlagAt(|path|)
    {
      hide Put;
      hide ToLE;
      hide Image;
      if PATH_AT + |path| > block.Length {
        return false;
      }
      ghost var was := block[..];
      var end := PATH_AT + |path|;
      Memcpy(0, [MAGIC]);
      Memcpy(LOG_LEN_AT, ToLE(0, SIZE_T));
      Memcpy(PATH_LEN_AT, ToLE(|path|, SIZE_T));
      Memcpy(PATH_AT, path);
      PathPrefix(was, path);
      if end + SIZE_T <= block.Length {
        PrefixStays(block[..], end, ToLE(limit, SIZE_T), end);
        Memcpy(end, ToLE(limit, SIZE_T));
      }
      outside := FlagAt(|path|) >= block.Length;
      if !outside {
        PrefixStays(block[..], FlagAt(|path|), [0], end);
        Memcpy(FlagAt(|path|), [0]);
      }
      assert block[..end] == block[..][..end];
    }

    function GetLength(): nat
      requires Valid()
      reads this, block
    {
      writePtr - dataPtr
    }

    function EmptySize(): nat
      requires Valid()
      reads this, block
    {
      block.Length - writePtr
    }

    /** Appends what fits and records the new length in the header. */
    method Append(log: seq<Byte>) returns (size: nat)
      requires Valid()
      modifies this`writePtr, block
      ensures Valid() && Area() == old(Area()) && State() == Appended(old(State()), Area(), log)
      ensures size == if |log| <= old(EmptySize()) then |log| else old(EmptySize())
    {
      hide Put;
      hide ToLE;
      hide FieldAt;
      hide LogPathLen;
      var free := EmptySize();
      size := if |log| <= free then |log| else free;
      ghost var before, was := block[..], block[dataPtr..writePtr];
      assert was == before[dataPtr..writePtr];
      Memcpy(writePtr, log[..size]);
      ghost var middle := block[..];
      var live := writePtr + size - dataPtr;
      Memcpy(LOG_LEN_AT, ToLE(live, SIZE_T));
      HeaderSurvives(before, writePtr, log[..size], dataPtr, live);
      PutElsewhere(middle, LOG_LEN_AT, ToLE(live, SIZE_T), dataPtr, writePtr + size);
      PutAppends(before, dataPtr, writePtr, log[..size]);
      writePtr := writePtr + size;
      assert block[dataPtr..writePtr] == block[..][dataPtr..writePtr] == was + log[..size];
      assert size == |log| ==> log[..size] == log;
    }

    /** Empties and zeroes the data area. */
    method Clear()
      requires Valid()
      modifies this`writePtr, block
      ensures Valid() && Area() == old(Area()) && State() == old(State()).(live := [])
    {
      ghost var before := block[..];
      writePtr := dataPtr;
      var zeros := seq(block.Length - writePtr, _ => 0);
      Memcpy(writePtr, zeros);
      Memcpy(LOG_LEN_AT, ToLE(0, SIZE_T));
      HeaderSurvives(before, writePtr, zeros, dataPtr, 0);
    }

    /** A non-empty buffer is copied into a chunk, cleared, and handed off. */
    method CallFileFlush()
      requires Valid()
      modifies this`writePtr, this`handedOff, block
      ensures Valid() && Area() == old(Area()) && State() == Flushed(old(State()))
    {
      if GetLength() > 0 {
        var chunk := new BufferFlush(128);
        chunk.Write(block[dataPtr..writePtr]);
        assert [] + block[dataPtr..writePtr] == block[dataPtr..writePtr];
        var bytes := chunk.data[..chunk.used];
        Clear();
        handedOff := handedOff + [bytes];
      } else {
        assert block[dataPtr..writePtr] == [];
      }
    }

    /** WriteNative: a message that would fill the buffer is preceded by a flush. */
    method WriteMessage(msg: seq<Byte>)
      requires Valid()
      modifies this`writePtr, this`handedOff, block
      ensures Valid() && Area() == old(Area()) && State() == Apply(old(State()), Area(), WriteMsg(msg))
    {
      if |msg| >= EmptySize() {
        CallFileFlush();
      }
      var size := Append(msg);
    }
  }

  // ---------------------------------------------------- header lemmas

  /** Where the compression flag is written: eight bytes behind the place the header
      keeps for it. */
  function FlagAt(pathLen: nat): nat { PATH_AT + pathLen + 2 * SIZE_T }

  /** The header as InitHeader writes it, field after field, up to the path. */
  function WithPath(b: seq<Byte>, path: seq<Byte>): (r: seq<Byte>)
    requires PATH_AT + |path| <= |b|
    ensures |r| == |b|
  {
    var b1 := PutField(Put(b, 0, [MAGIC]), LOG_LEN_AT, 0);
    Put(PutField(b1, PATH_LEN_AT, |path|), PATH_AT, path)
  }

  /** The same with the limit, without the flag. */
  function WithFields(b: seq<Byte>, path: seq<Byte>, limit: nat): (r: seq<Byte>)
    requires HeaderLen(|path|) <= |b|
    ensures |r| == |b|
  {
    PutField(WithPath(b, path), PATH_AT + |path|, limit)
  }

  /** The flag, too, as far as it falls into the block: it lands in the data area. */
  function WithHeader(b: seq<Byte>, path: seq<Byte>, limit: nat): (r: seq<Byte>)
    requires HeaderLen(|path|) <= |b|
    ensures |r| == |b|
  {
    var r := WithFields(b, path, limit);
    if FlagAt(|path|) < |b| then Put(r, FlagAt(|path|), [0]) else r
  }

  /** The bytes of a fresh header up to its limit field. */
  function Image(path: seq<Byte>): seq<Byte> {
    [MAGIC] + ToLE(0, SIZE_T) + ToLE(|path|, SIZE_T) + path
  }

  /** Bytes written at the end of a prefix extend it. */
  lemma PrefixExtends(b: seq<Byte>, at: nat, bytes: seq<Byte>)
    requires at + |bytes| <= |b|
    ensures Put(b, at, bytes)[..at + |bytes|] == b[..at] + bytes
  {
  }

  lemma PrefixStays(b: seq<Byte>, at: nat, bytes: seq<Byte>, n: nat)
    requires n <= at && at + |bytes| <= |b|
    ensures Put(b, at, bytes)[..n] == b[..n]
  {
  }

  lemma PathPrefix(b: seq<Byte>, path: seq<Byte>)
    requires PATH_AT + |path| <= |b|
    ensures WithPath(b, path)[..PATH_AT + |path|] == Image(path)
  {
    hide Put;
    hide ToLE;
    var b0 := Put(b, 0, [MAGIC]);
    var b1 := PutField(b0, LOG_LEN_AT, 0);
    var b2 := PutField(b1, PATH_LEN_AT, |path|);
    PrefixExtends(b, 0, [MAGIC]);
    assert b[..0] + [MAGIC] == [MAGIC];
    PrefixExtends(b0, LOG_LEN_AT, ToLE(0, SIZE_T));
    PrefixExtends(b1, PATH_LEN_AT, ToLE(|path|, SIZE_T));
    PrefixExtends(b2, PATH_AT, path);
  }

  lemma HeaderPrefix(b: seq<Byte>, path: seq<Byte>, limit: nat)
    requires HeaderLen(|path|) <= |b|
    ensures WithHeader(b, path, limit)[..PATH_AT + |path|] == Image(path)
  {
    hide Put;
    hide ToLE;
    hide WithPath;
    hide Image;
    var n := PATH_AT + |path|;
    PathPrefix(b, path);
    PrefixStays(WithPath(b, path), n, ToLE(limit, SIZE_T), n);
    if FlagAt(|path|) < |b| {
      PrefixStays(WithFields(b, path, limit), FlagAt(|path|), [0], n);
    }
  }

  /** The middle of three parts, found again in anything that starts with them. */
  lemma MiddlePart(r: seq<Byte>, x: seq<Byte>, y: seq<Byte>, z: seq<Byte>)
    requires |x| + |y| + |z| <= |r| && r[..|x| + |y| + |z|] == x + y + z
    ensures r[|x|..|x| + |y|] == y
  {
    var all := x + y + z;
    assert r[|x|..|x| + |y|] == r[..|x| + |y| + |z|][|x|..|x| + |y|] == all[|x|..|x| + |y|];
  }

  /** The image begins with the magic byte. */
  lemma ImageMagic(r: seq<Byte>, path: seq<Byte>)
    requires PATH_AT + |path| <= |r| && r[..PATH_AT + |path|] == Image(path)
    ensures r[0] == MAGIC
  {
    hide ToLE;
    assert r[0] == r[..PATH_AT + |path|][0];
  }

  lemma ImageLogLen(r: seq<Byte>, path: seq<Byte>)
    requires PATH_AT + |path| <= |r| && r[..PATH_AT + |path|] == Image(path)
    ensures r[LOG_LEN_AT..LOG_LEN_AT + SIZE_T] == ToLE(0, SIZE_T)
  {
    hide ToLE;
    var m, l, n := [MAGIC], ToLE(0, SIZE_T), ToLE(|path|, SIZE_T);
    assert m + l + n + path == m + l + (n + path);
    MiddlePart(r, m, l, n + path);
  }

  lemma ImagePathLen(r: seq<Byte>, path: seq<Byte>)
    requires PATH_AT + |path| <= |r| && r[..PATH_AT + |path|] == Image(path)
    ensures r[PATH_LEN_AT..PATH_LEN_AT + SIZE_T] == ToLE(|path|, SIZE_T)
  {
    hide ToLE;
    MiddlePart(r, [MAGIC] + ToLE(0, SIZE_T), ToLE(|path|, SIZE_T), path);
  }

  lemma ImagePath(r: seq<Byte>, path: seq<Byte>)
    requires PATH_AT + |path| <= |r| && r[..PATH_AT + |path|] == Image(path)
    ensures r[PATH_AT..PATH_AT + |path|] == path
  {
    hide ToLE;
    var front := [MAGIC] + ToLE(0, SIZE_T) + ToLE(|path|, SIZE_T);
    assert front + path == front + path + [];
    MiddlePart(r, front, path, []);
  }

  lemma SizeRoundTrip(v: nat)
    requires v < TWO64
    ensures LittleEndian(ToLE(v, SIZE_T)) == v
  {
    assert Pow256(2) == 0x1_0000 && Pow256(4) == TWO32 && Pow256(6) == 0x1_0000_0000_0000 && Pow256(8) == TWO64;
    ToLERoundTrip(v, SIZE_T);
  }

  /** Every field of a fresh header reads back, the path length exactly if the block
      has a data area or the path is empty. */
  lemma HeaderReadsBack(b: seq<Byte>, path: seq<Byte>, limit: nat)
    requires HeaderLen(|path|) <= |b| < TWO64
    ensures var r := WithHeader(b, path, limit);
      r[0] == MAGIC && FieldAt(r, LOG_LEN_AT) == 0 && FieldAt(r, PATH_LEN_AT) == |path|
      && r[PATH_AT..PATH_AT + |path|] == path && LogLen(r) == 0
      && LogPathLen(r) == if HeaderLen(|path|) < |b| then |path| else 0
  {
    hide WithHeader;
    hide ToLE;
    hide LittleEndian;
    hide Image;
    HeaderPrefix(b, path, limit);
    var r := WithHeader(b, path, limit);
    ImageMagic(r, path);
    ImageLogLen(r, path);
    ImagePathLen(r, path);
    ImagePath(r, path);
    SizeRoundTrip(0);
    SizeRoundTrip(|path|);
  }

  /** Writing the data area and then the log length leaves the rest of the header. */
  lemma HeaderSurvives(b: seq<Byte>, at: nat, bytes: seq<Byte>, dataPtr: nat, live: nat)
    requires HeaderLen(0) <= dataPtr <= at && at + |bytes| <= |b| < TWO64 && live < TWO64
    ensures var r := PutField(Put(b, at, bytes), LOG_LEN_AT, live);
      r[0] == b[0] && FieldAt(r, LOG_LEN_AT) == live && LogPathLen(r) == LogPathLen(b)
  {
    hide Put;
    var b1 := Put(b, at, bytes);
    FieldReadsBack(b1, LOG_LEN_AT, live);
    PutKeeps(b, at, bytes);
    PutKeeps(b1, LOG_LEN_AT, ToLE(live, SIZE_T));
    var r := PutField(b1, LOG_LEN_AT, live);
    assert r[0..1] == b1[0..1] == b[0..1];
    assert r[0] == r[0..1][0] && b[0] == b[0..1][0];
    assert r[PATH_LEN_AT..PATH_LEN_AT + SIZE_T] == b1[PATH_LEN_AT..PATH_LEN_AT + SIZE_T];
    assert r[PATH_LEN_AT..PATH_LEN_AT + SIZE_T] == b[PATH_LEN_AT..PATH_LEN_AT + SIZE_T];
  }

  lemma PutAppends(b: seq<Byte>, lo: nat, at: nat, bytes: seq<Byte>)
    requires lo <= at && at + |bytes| <= |b|
    ensures Put(b, at, bytes)[lo..at + |bytes|] == b[lo..at] + bytes
  {
  }

  /** The getter agrees with the live length except on a completely full buffer,
      where it reports zero. */
  lemma LogLenExactly(block: seq<Byte>, dataPtr: nat, writePtr: nat)
    requires HeaderLen(0) <= dataPtr <= writePtr <= |block| && Available(block)
    requires HeaderLen(LogPathLen(block)) == dataPtr && FieldAt(block, LOG_LEN_AT) == writePtr - dataPtr
    ensures LogLen(block) == writePtr - dataPtr <==> writePtr < |block| || writePtr == dataPtr
  {
  }

  /** A message of exactly the size of the data area fills the block; the stored length
      is eight, and the getter reports zero. */
  lemma FullBufferReadsEmpty(path: seq<Byte>, limit: nat, msg: seq<Byte>)
    requires |path| < 0x1000 && |msg| == 8
    ensures var empty := WithHeader(seq(HeaderLen(|path|) + 8, _ => 0), path, limit);
      var full := PutField(Put(empty, HeaderLen(|path|), msg), LOG_LEN_AT, 8);
      full[HeaderLen(|path|)..] == msg && FieldAt(full, LOG_LEN_AT) == 8 && LogLen(full) == 0
  {
    var n := HeaderLen(|path|);
    var empty := WithHeader(seq(n + 8, _ => 0), path, limit);
    HeaderReadsBack(seq(n + 8, _ => 0), path, limit);
    hide WithHeader;
    hide ToLE;
    hide LittleEndian;
    HeaderSurvives(empty, n, msg, n, 8);
    var full := PutField(Put(empty, n, msg), LOG_LEN_AT, 8);
    PutReadsBack(empty, n, msg);
    PutElsewhere(Put(empty, n, msg), LOG_LEN_AT, ToLE(8, SIZE_T), n, n + 8);
    assert full[n..] == full[n..n + 8];
    LogLenExactly(full, n, n + 8);
  }
}
