/** The ARM exception-index table (section 5 of ARM IHI 0038B), searched through a
    memo in which an address of zero means that nothing is remembered. */
module ExidxIndex {
  import opened Machine
  import opened IndexLookup
  import ArmExtract

  datatype Table = Table(mem: Memory, start: nat, total: nat)

  /** GetPrel31Addr: the word at the offset, displaced from it; 32-bit arithmetic. */
  function AddrAt(mem: Memory, offset: nat): (r: Option<nat>)
    ensures r.Some? ==> r.value < TWO32
  {
    match ArmExtract.Read32(mem, Wrap(W32, offset))
    case None => None
    case Some(word) => Some(ArmExtract.Prel31(Wrap(W32, offset), word))
  }

  function Keys(t: Table): (keys: seq<Option<nat>>)
    ensures |keys| == t.total && forall i :: 0 <= i < t.total ==> keys[i] == AddrAt(t.mem, t.start + 8 * i)
  {
    seq(t.total, i requires 0 <= i < t.total => AddrAt(t.mem, t.start + 8 * i))
  }

  /** The address of entry i, whose first word holds displacement d. */
  function AddressOf(t: Table, i: nat, d: int): nat { Wrap(W32, t.start + 8 * i + d) }

  /** The table in memory: entry i holds displacement ds[i]. */
  predicate Lists(t: Table, ds: seq<int>) {
    |ds| == t.total && forall i :: 0 <= i < |ds| ==> HasDisplacement(t, i, ds[i])
  }

  predicate HasDisplacement(t: Table, i: nat, d: int) {
    ArmExtract.IsDisplacement(d) && Holds(t.mem, Wrap(W32, t.start + 8 * i), ToLE(d % ArmExtract.BIT31, 4))
  }

  /** Entries read back as the addresses they were written for. */
  lemma ListedAddress(t: Table, i: nat, d: int)
    requires HasDisplacement(t, i, d)
    ensures AddrAt(t.mem, t.start + 8 * i) == Some(AddressOf(t, i, d))
  {
    hide Wrap;
    hide Holds;
    var at := t.start + 8 * i;
    ArmExtract.FieldLeads(t.mem, Wrap(W32, at), d);
    WrapAdd(W32, d, at);
  }

  /** The entry offset that a search of the whole table, without memo, gives. */
  function EntryFor(t: Table, pc: nat): Option<nat> {
    if t.start == 0 then None
    else
      var found := Search(Keys(t), pc, 0, t.total);
      if found.At? then Some((t.start + 8 * found.index) % TWO64) else None
  }

  class Index {
    const table: Table
    var addrs: map<nat, nat>

    constructor (t: Table)
      ensures table == t && Valid()
    {
      table := t;
      addrs := map[];
    }

    /** What is remembered and not zero is the address of the entry. */
    ghost predicate Valid()
      reads this
    {
      forall i :: i in addrs && addrs[i] != 0 ==> AddrAt(table.mem, table.start + 8 * i) == Some(addrs[i])
    }

    /** Reading the memo inserts a zero where nothing is remembered, and the zero
        stays there when the entry cannot be read. */
    method AddrOf(index: nat) returns (r: Option<nat>)
      requires Valid()
      modifies this
      ensures Valid() && r == AddrAt(table.mem, table.start + 8 * index)
      ensures index in addrs && (forall i :: i in old(addrs) && i != index ==> i in addrs && addrs[i] == old(addrs)[i])
    {
      hide AddrAt;
      if index !in addrs {
        addrs := addrs[index := 0];
      }
      r := Some(addrs[index]);
      if addrs[index] == 0 {
        r := AddrAt(table.mem, table.start + 8 * index);
        if r.None? {
          return;
        }
        addrs := addrs[index := r.value];
      }
    }

    /** For every history of queries the answer is that of the search without memo,
        also where an entry's true address is zero. */
    method FindEntry(pc: nat) returns (r: Option<nat>)
      requires Valid()
      modifies this
      ensures Valid() && r == EntryFor(table, pc)
    {
      hide Search;
      hide AddrAt;
      if table.start == 0 || table.total == 0 {
        SearchStep(Keys(table), pc, 0, table.total);
        return None;
      }
      ghost var keys := Keys(table);
      var first: nat, last: nat := 0, table.total;
      while first < last
        invariant Valid() && first <= last <= table.total
        invariant Search(keys, pc, first, last) == Search(keys, pc, 0, table.total)
        decreases last - first
      {
        SearchStep(keys, pc, first, last);
        var current := (first + last) / 2;
        var addr := AddrOf(current);
        if addr.None? {
          return None;
        }
        if pc == addr.value {
          return Some((table.start + 8 * current) % TWO64);
        }
        if pc < addr.value {
          last := current;
        } else {
          first := current + 1;
        }
      }
      SearchStep(keys, pc, first, last);
      if last != 0 {
        return Some((table.start + 8 * (last - 1)) % TWO64);
      }
      r := None;
    }

    /** Any history: every answer is the memo-free one. */
    method FindAll(pcs: seq<nat>) returns (r: seq<Option<nat>>)
      requires Valid()
      modifies this
      ensures Valid() && |r| == |pcs| && forall i :: 0 <= i < |pcs| ==> r[i] == EntryFor(table, pcs[i])
    {
      hide EntryFor;
      r := [];
      for k := 0 to |pcs|
        invariant Valid() && |r| == k
        invariant forall i :: 0 <= i < k ==> r[i] == EntryFor(table, pcs[i])
      {
        var e := FindEntry(pcs[k]);
        r := r + [e];
      }
    }
  }

  /** The offset is that of an entry with the greatest address not above the pc. */
  ghost predicate IsFloorOffset(t: Table, pc: nat, offset: nat)
    requires Sorted(Keys(t))
  {
    exists i: nat :: Floor(Keys(t), pc, i) && offset == (t.start + 8 * i) % TWO64
  }

  predicate Distinct(keys: seq<Option<nat>>) { forall i, j :: 0 <= i < j < |keys| ==> keys[i] != keys[j] }

  /** On a sorted readable table the answer is the plain scan's: none exactly if the
      scan has none, otherwise an entry with the greatest address that is not above
      the pc, and the scan's own entry where all addresses differ. */
  lemma EntryIsLinear(t: Table, pc: nat)
    requires t.start != 0 && Sorted(Keys(t))
    ensures EntryFor(t, pc).Some? <==> Linear(Keys(t), pc, t.total).Some?
    ensures EntryFor(t, pc).Some? ==> IsFloorOffset(t, pc, EntryFor(t, pc).value)
    ensures var l := Linear(Keys(t), pc, t.total);
      l.Some? && Distinct(Keys(t)) ==> EntryFor(t, pc) == Some((t.start + 8 * l.value) % TWO64)
  {
    hide Search;
    hide Linear;
    hide AddrAt;
    var keys := Keys(t);
    SearchIsLinear(keys, pc);
    var r := Search(keys, pc, 0, t.total);
    assert r.At? ==> Floor(keys, pc, r.index);
  }
}
