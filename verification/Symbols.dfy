/** The symbol table reader: names are found by a scan that remembers, sorted, the
    function symbols it has passed. */
module Symbols {
  import opened Machine
  import opened Sorting

  /** A symbol table entry, as far as a lookup uses it. */
  datatype Sym = Sym(name: nat, value: Word64, size: Word64, isFunc: bool, isUndefined: bool, isAbsolute: bool)

  type Word64 = x: nat | x < TWO64

  /** The table, entry by entry; None is an entry that cannot be read. Strings are
      found by offset; `strEnd` is the end of the string table. */
  datatype Table = Table(entries: seq<Option<Sym>>, strOffset: nat, strEnd: nat, strings: map<nat, string>)

  /** A cached function: its address range and the offset of its name. */
  datatype Info = Info(start: nat, end: nat, str: nat)

  datatype Answer = NotFound | Found(name: string, offset: nat)

  predicate IsFunction(s: Sym) { !s.isUndefined && s.isFunc }

  function InfoOf(t: Table, bias: nat, s: Sym): Info {
    var start := if s.isAbsolute then s.value % TWO64 else (s.value + bias) % TWO64;
    Info(start, (start + s.size) % TWO64, (t.strOffset + s.name) % TWO64)
  }

  predicate Contains(i: Info, addr: nat) { i.start <= addr < i.end }

  function NameAt(t: Table, i: Info, addr: nat): Answer {
    if i.str in t.strings && Contains(i, addr) then Found(t.strings[i.str], addr - i.start) else NotFound
  }

  /** Scanning the whole table from its start: the first function that contains the
      address gives the answer. */
  function Scan(t: Table, bias: nat, addr: nat, k: nat): Answer
    requires k <= |t.entries|
    decreases |t.entries| - k
  {
    if k == |t.entries| || t.entries[k].None? then NotFound
    else
      var s := t.entries[k].value;
      var i := InfoOf(t, bias, s);
      if !IsFunction(s) || !Contains(i, addr) then Scan(t, bias, addr, k + 1)
      else if i.str < t.strEnd then NameAt(t, i, addr)
      else NotFound
  }

  /** The functions among the first n entries, in table order. */
  function Funcs(t: Table, bias: nat, n: nat): (r: seq<Info>)
    requires n <= |t.entries|
  {
    if n == 0 then []
    else
      var front := Funcs(t, bias, n - 1);
      match t.entries[n - 1]
      case None => front
      case Some(s) => if IsFunction(s) then front + [InfoOf(t, bias, s)] else front
  }

  predicate Apart(a: Info, b: Info) { a.end <= b.start || b.end <= a.start }

  /** Functions are not empty, do not overlap and have names inside the string table. */
  predicate WellFormed(t: Table, bias: nat) {
    var fs := Funcs(t, bias, |t.entries|);
    && (forall i :: 0 <= i < |fs| ==> fs[i].start < fs[i].end && fs[i].str < t.strEnd)
    && (forall i, j :: 0 <= i < j < |fs| ==> Apart(fs[i], fs[j]))
  }

  predicate AllReadable(t: Table) { forall i :: 0 <= i < |t.entries| ==> t.entries[i].Some? }

  lemma {:induction false} FuncsGrow(t: Table, bias: nat, m: nat, n: nat)
    requires m <= n <= |t.entries|
    ensures Funcs(t, bias, m) <= Funcs(t, bias, n)
    decreases n - m
  {
    if m < n {
      FuncsGrow(t, bias, m, n - 1);
    }
  }

  /** Nothing among the first n entries answers: the scan goes on behind them. */
  lemma {:induction false} ScanSkips(t: Table, bias: nat, addr: nat, n: nat)
    requires n <= |t.entries| && (forall i :: 0 <= i < n ==> t.entries[i].Some?)
    requires forall f :: f in Funcs(t, bias, n) ==> !Contains(f, addr)
    ensures Scan(t, bias, addr, 0) == Scan(t, bias, addr, n)
  {
    if n > 0 {
      var s := t.entries[n - 1].value;
      if IsFunction(s) {
        var f := InfoOf(t, bias, s);
        assert Funcs(t, bias, n)[|Funcs(t, bias, n - 1)|] == f;
        assert !Contains(f, addr);
      }
      forall f | f in Funcs(t, bias, n - 1) ensures !Contains(f, addr) {
        assert f in Funcs(t, bias, n);
      }
      ScanSkips(t, bias, addr, n - 1);
    }
  }

  /** With disjoint functions the one that contains the address is the scan's answer. */
  lemma {:induction false} ScanFinds(t: Table, bias: nat, addr: nat, n: nat, f: Info)
    requires WellFormed(t, bias) && n <= |t.entries| && (forall i :: 0 <= i < n ==> t.entries[i].Some?)
    requires f in Funcs(t, bias, n) && Contains(f, addr)
    ensures Scan(t, bias, addr, 0) == NameAt(t, f, addr)
    decreases n
  {
    var fs := Funcs(t, bias, |t.entries|);
    var front := Funcs(t, bias, n - 1);
    FuncsGrow(t, bias, n, |t.entries|);
    FuncsGrow(t, bias, n - 1, n);
    if f in front {
      ScanFinds(t, bias, addr, n - 1, f);
    } else {
      var last := |front|;
      assert Funcs(t, bias, n)[last] == f == fs[last];
      forall g | g in front ensures !Contains(g, addr) {
        var j :| 0 <= j < |front| && front[j] == g;
        assert fs[j] == g && Apart(fs[j], fs[last]);
      }
      ScanSkips(t, bias, addr, n - 1);
    }
  }

  /** Some function of the table contains the address and bears this name. */
  ghost predicate Witnessed(t: Table, bias: nat, addr: nat, a: Answer) {
    exists f :: f in Funcs(t, bias, |t.entries|) && Contains(f, addr) && a == NameAt(t, f, addr)
  }

  /** None of the functions among the first n entries contains the address. */
  ghost predicate Misses(t: Table, bias: nat, addr: nat, n: nat)
    requires n <= |t.entries|
  {
    forall f :: f in Funcs(t, bias, n) ==> !Contains(f, addr)
  }

  predicate AllScanned(t: Table, bias: nat, addrs: seq<nat>, answers: seq<Answer>) {
    |answers| == |addrs| && forall i :: 0 <= i < |addrs| ==> answers[i] == Scan(t, bias, addrs[i], 0)
  }

  lemma FuncsNext(t: Table, bias: nat, n: nat)
    requires n < |t.entries| && t.entries[n].Some?
    ensures var s := t.entries[n].value;
      Funcs(t, bias, n + 1) == if IsFunction(s) then Funcs(t, bias, n) + [InfoOf(t, bias, s)] else Funcs(t, bias, n)
  {
  }

  function StartOf(i: Info): nat { i.start }

  // ---------------------------------------------------- lookups as functions

  /** The binary search of a cache. */
  function Bisect(cache: seq<Info>, addr: nat, first: nat, last: nat): Option<Info>
    requires first <= last <= |cache|
    decreases last - first
  {
    if first == last then None
    else
      var current := first + (last - first) / 2;
      if addr < cache[current].start then Bisect(cache, addr, first, current)
      else if addr < cache[current].end then Some(cache[current])
      else Bisect(cache, addr, current + 1, last)
  }

  lemma BisectNothing(addr: nat)
    ensures Bisect([], addr, 0, 0) == None
  {
  }

  predicate IsHit(t: Table, bias: nat, k: nat, addr: nat)
    requires k < |t.entries|
  {
    t.entries[k].Some? && IsFunction(t.entries[k].value) && Contains(InfoOf(t, bias, t.entries[k].value), addr)
  }

  /** The first function from entry k on that contains the address. */
  function StopAt(t: Table, bias: nat, addr: nat, k: nat): (j: nat)
    requires k <= |t.entries|
    ensures k <= j <= |t.entries| && (j < |t.entries| ==> IsHit(t, bias, j, addr))
    ensures forall i :: k <= i < j ==> !IsHit(t, bias, i, addr)
    decreases |t.entries| - k
  {
    if k == |t.entries| || IsHit(t, bias, k, addr) then k else StopAt(t, bias, addr, k + 1)
  }

  /** How far a scan from entry k gets: behind the function it finds, or to the end. */
  function Passed(t: Table, bias: nat, addr: nat, k: nat): (n: nat)
    requires k <= |t.entries|
    ensures n <= |t.entries|
  {
    var j := StopAt(t, bias, addr, k);
    if j < |t.entries| then j + 1 else j
  }

  /** A lookup when the first n entries have been passed: the answer, and how many have
      been passed afterwards. */
  function Query(t: Table, bias: nat, n: nat, addr: nat): (r: (nat, Answer))
    requires n <= |t.entries|
    ensures r.0 <= |t.entries|
  {
    var cache := Sort(Funcs(t, bias, n), StartOf);
    match Bisect(cache, addr, 0, |cache|)
    case Some(info) => (n, NameAt(t, info, addr))
    case None => (Passed(t, bias, addr, n), Scan(t, bias, addr, n))
  }

  /** The answers to a history of lookups. */
  function Replies(t: Table, bias: nat, n: nat, addrs: seq<nat>): (r: seq<Answer>)
    requires n <= |t.entries|
    ensures |r| == |addrs|
    decreases |addrs|
  {
    if addrs == [] then []
    else
      var (n', a) := Query(t, bias, n, addrs[0]);
      [a] + Replies(t, bias, n', addrs[1..])
  }

  /** Nothing from entry k up to entry n contains the address. */
  predicate ScanGoesOn(t: Table, bias: nat, addr: nat, k: nat, n: nat)
    requires k <= n <= |t.entries|
  {
    Scan(t, bias, addr, k) == Scan(t, bias, addr, n) && StopAt(t, bias, addr, k) == StopAt(t, bias, addr, n)
  }

  lemma ScanStarts(t: Table, bias: nat, addr: nat, k: nat)
    requires k <= |t.entries|
    ensures ScanGoesOn(t, bias, addr, k, k)
  {
  }

  /** What a scan from entry k says about the whole table. */
  lemma {:induction false} ScanLater(t: Table, bias: nat, addr: nat, k: nat)
    requires k <= |t.entries| && forall i :: 0 <= i < k ==> t.entries[i].Some?
    ensures Scan(t, bias, addr, k).Found? ==> Witnessed(t, bias, addr, Scan(t, bias, addr, k))
    ensures Misses(t, bias, addr, k) ==> Scan(t, bias, addr, 0) == Scan(t, bias, addr, k)
  {
    if Misses(t, bias, addr, k) {
      ScanSkips(t, bias, addr, k);
    }
    if Scan(t, bias, addr, k).Found? {
      ScanWitnessed(t, bias, addr, k);
    }
  }

  lemma {:induction false} ScanWitnessed(t: Table, bias: nat, addr: nat, k: nat)
    requires k <= |t.entries| && Scan(t, bias, addr, k).Found?
    ensures Witnessed(t, bias, addr, Scan(t, bias, addr, k))
    decreases |t.entries| - k
  {
    hide InfoOf;
    var s := t.entries[k].value;
    var info := InfoOf(t, bias, s);
    if IsFunction(s) && Contains(info, addr) {
      FuncsGrow(t, bias, k + 1, |t.entries|);
      assert info == Funcs(t, bias, k + 1)[|Funcs(t, bias, k)|] == Funcs(t, bias, |t.entries|)[|Funcs(t, bias, k)|];
    } else {
      ScanWitnessed(t, bias, addr, k + 1);
    }
  }

  lemma SameBag(a: seq<Info>, b: seq<Info>, more: seq<Info>)
    requires multiset(a) == multiset(b)
    ensures multiset(a + more) == multiset(b + more)
  {
  }

  /** What the binary search returns is in the cache and contains the address. */
  lemma {:induction false} BisectHits(cache: seq<Info>, addr: nat, first: nat, last: nat)
    requires first <= last <= |cache|
    ensures var r := Bisect(cache, addr, first, last);
      r.Some? ==> r.value in cache && Contains(r.value, addr)
    decreases last - first
  {
    if first < last {
      var current := first + (last - first) / 2;
      BisectHits(cache, addr, first, current);
      BisectHits(cache, addr, current + 1, last);
    }
  }

  /** On an orderly cache it misses nothing. */
  lemma {:induction false} BisectMisses(cache: seq<Info>, addr: nat, first: nat, last: nat)
    requires first <= last <= |cache| && Orderly(cache) && Bisect(cache, addr, first, last).None?
    requires forall i :: 0 <= i < first ==> !Contains(cache[i], addr)
    requires forall i :: last <= i < |cache| ==> !Contains(cache[i], addr)
    ensures forall i :: 0 <= i < |cache| ==> !Contains(cache[i], addr)
    decreases last - first
  {
    if first < last {
      var current := first + (last - first) / 2;
      if addr < cache[current].start {
        forall i | current <= i < |cache| ensures !Contains(cache[i], addr) {
          assert i == current || StartOf(cache[current]) <= StartOf(cache[i]);
        }
        hide Orderly;
        BisectMisses(cache, addr, first, current);
      } else {
        forall i | 0 <= i < current + 1 ensures !Contains(cache[i], addr) {
          assert i == current || StartOf(cache[i]) <= StartOf(cache[current]);
          assert cache[i] == cache[current] || Apart(cache[i], cache[current]);
        }
        hide Orderly;
        BisectMisses(cache, addr, current + 1, last);
      }
    }
  }

  lemma ScanRound(t: Table, bias: nat, addr: nat, k: nat, n: nat)
    requires k <= n < |t.entries| && t.entries[n].Some? && ScanGoesOn(t, bias, addr, k, n)
    ensures var info := InfoOf(t, bias, t.entries[n].value);
      if IsHit(t, bias, n, addr) then
        Passed(t, bias, addr, k) == n + 1 && Scan(t, bias, addr, k) == if info.str < t.strEnd then NameAt(t, info, addr) else NotFound
      else ScanGoesOn(t, bias, addr, k, n + 1)
  {
  }

  lemma ScanOver(t: Table, bias: nat, addr: nat, k: nat)
    requires k <= |t.entries| && ScanGoesOn(t, bias, addr, k, |t.entries|)
    ensures Scan(t, bias, addr, k) == NotFound && Passed(t, bias, addr, k) == |t.entries|
  {
  }

  class SymbolCache {
    const table: Table
    const bias: nat
    var cur: nat
    var symbols: seq<Info>
    var broken: bool

    constructor (t: Table, b: nat)
      ensures table == t && bias == b && Valid()
    {
      table, bias := t, b;
      cur, symbols, broken := 0, [], false;
    }

    /** The cache holds exactly the functions that were passed, in order unless an
        unreadable entry interrupted a scan. */
    ghost predicate Valid()
      reads this
    {
      && cur <= |table.entries|
      && (forall i :: 0 <= i < cur ==> table.entries[i].Some?)
      && multiset(symbols) == multiset(Funcs(table, bias, cur))
      && (!broken ==> symbols == Sort(Funcs(table, bias, cur), StartOf))
      && (broken ==> !AllReadable(table))
    }

    /** Binary search of the cache. */
    method GetInfoFromCache(addr: nat) returns (r: Option<Info>)
      ensures r == Bisect(symbols, addr, 0, |symbols|)
    {
      var first: nat, last: nat := 0, |symbols|;
      while first < last
        invariant first <= last <= |symbols|
        invariant Bisect(symbols, addr, first, last) == Bisect(symbols, addr, 0, |symbols|)
      {
        var current := first + (last - first) / 2;
        var info := symbols[current];
        if addr < info.start {
          last := current;
        } else if addr < info.end {
          return Some(info);
        } else {
          first := current + 1;
        }
      }
      r := None;
    }

    /** GetName: first the cache, then the rest of the table. An answer always comes
        from a function of the table that contains the address; on a well-formed
        table it is that of a scan from the start, whatever was asked before, and a
        readable well-formed table is never searched in vain. */
    method GetName(addr: nat) returns (a: Answer)
      requires Valid()
      modifies this
      ensures Valid()
      ensures a.Found? ==> Witnessed(table, bias, addr, a)
      ensures WellFormed(table, bias) && (AllReadable(table) || a.Found?) ==> a == Scan(table, bias, addr, 0)
      ensures AllReadable(table) ==> (cur, a) == Query(table, bias, old(cur), addr)
      ensures WellFormed(table, bias) && AllReadable(table) ==> SaysExactly(table, bias, addr, a)
    {
      hide Scan;
      hide Funcs;
      hide WellFormed;
      hide Sort;
      hide Bisect;
      hide StopAt;
      hide Witnessed;
      hide Misses;
      BisectNothing(addr);
      if WellFormed(table, bias) && AllReadable(table) {
        ScanSaysExactly(table, bias, addr);
      }
      hide SaysExactly;
      if symbols != [] {
        var info := GetInfoFromCache(addr);
        if info.Some? {
          BisectHits(symbols, addr, 0, |symbols|);
          CachedAnswer(table, bias, addr, cur, symbols, info.value);
          return NameAt(table, info.value, addr);
        }
      }
      if WellFormed(table, bias) && !broken {
        SortSorts(Funcs(table, bias, cur), StartOf);
        CacheIsOrderly(table, bias, cur, symbols);
        BisectMisses(symbols, addr, 0, |symbols|);
        CacheMisses(table, bias, addr, cur, symbols);
      }
      a := ScanOn(addr);
    }

    /** The loop over the entries behind the cached ones. */
    method ScanOn(addr: nat) returns (a: Answer)
      requires Valid()
      modifies this
      ensures Valid()
      ensures a.Found? ==> Witnessed(table, bias, addr, a)
      ensures !old(broken) && old(Misses(table, bias, addr, cur)) && (AllReadable(table) || a.Found?) ==> a == Scan(table, bias, addr, 0)
      ensures old(broken) ==> a.NotFound?
      ensures AllReadable(table) ==> a == Scan(table, bias, addr, old(cur)) && cur == Passed(table, bias, addr, old(cur))
    {
      hide Scan;
      hide Funcs;
      hide InfoOf;
      hide Misses;
      hide Witnessed;
      hide Sort;
      hide NameAt;
      hide StopAt;
      hide Contains;
      hide IsFunction;
      hide ScanGoesOn;
      a := NotFound;
      if broken {
        return;
      }
      ghost var start, cached, found := cur, symbols, [];
      ghost var before := Funcs(table, bias, start);
      assert before + [] == before && symbols + [] == symbols;
      ScanStarts(table, bias, addr, start);
      var added, matched := false, false;
      while !matched && cur < |table.entries|
        invariant start <= cur <= |table.entries| && !broken
        invariant forall i :: 0 <= i < cur ==> table.entries[i].Some?
        invariant symbols == cached + found && Funcs(table, bias, cur) == before + found && (!added ==> found == [])
        invariant !matched ==> a == NotFound && ScanGoesOn(table, bias, addr, start, cur)
        invariant matched ==> a == Scan(table, bias, addr, start) && cur == Passed(table, bias, addr, start)
        decreases !matched, |table.entries| - cur
      {
        if table.entries[cur].None? {
          SameBag(cached, before, found);
          broken := true;
          return;
        }
        var entry := table.entries[cur].value;
        var info := InfoOf(table, bias, entry);
        FuncsNext(table, bias, cur);
        ScanRound(table, bias, addr, start, cur);
        cur := cur + 1;
        if IsFunction(entry) {
          assert cached + found + [info] == cached + (found + [info]) && before + found + [info] == before + (found + [info]);
          found := found + [info];
          symbols := symbols + [info];
          added := true;
          if Contains(info, addr) {
            matched := true;
            if info.str < table.strEnd {
              a := NameAt(table, info, addr);
            }
          }
        }
      }
      if !matched {
        ScanOver(table, bias, addr, start);
      }
      ScanLater(table, bias, addr, start);
      SameBag(cached, before, found);
      if added {
        SortAppend(before, found, StartOf);
        SortSorts(symbols, StartOf);
        symbols := Sort(symbols, StartOf);
      }
    }

    /** A history of queries: each answer comes from a function that contains the
        address; on a readable table the answers are those of the lookups as functions,
        and on a well-formed one those of the scan. */
    method Answers(addrs: seq<nat>) returns (r: seq<Answer>)
      requires Valid()
      modifies this
      ensures Valid() && |r| == |addrs|
      ensures forall i :: 0 <= i < |addrs| && r[i].Found? ==> Witnessed(table, bias, addrs[i], r[i])
      ensures WellFormed(table, bias) && AllReadable(table) ==> AllScanned(table, bias, addrs, r)
      ensures AllReadable(table) ==> r == Replies(table, bias, old(cur), addrs)
    {
      hide Query;
      hide WellFormed;
      hide Scan;
      hide Witnessed;
      hide Sort;
      hide Funcs;
      hide Replies;
      hide AllReadable;
      r := [];
      ghost var all := Replies(table, bias, cur, addrs);
      assert addrs[0..] == addrs && [] + all == all;
      for k := 0 to |addrs|
        invariant Valid() && |r| == k
        invariant forall i :: 0 <= i < k && r[i].Found? ==> Witnessed(table, bias, addrs[i], r[i])
        invariant WellFormed(table, bias) && AllReadable(table) ==> forall i :: 0 <= i < k ==> r[i] == Scan(table, bias, addrs[i], 0)
        invariant AllReadable(table) ==> all == r + Replies(table, bias, cur, addrs[k..])
      {
        RepliesNext(table, bias, cur, addrs, k, r);
        var a := GetName(addrs[k]);
        r := r + [a];
      }
      RepliesNone(table, bias, cur, addrs[|addrs|..]);
      assert r + [] == r;
    }
  }

  lemma RepliesNext(t: Table, bias: nat, n: nat, addrs: seq<nat>, k: nat, before: seq<Answer>)
    requires n <= |t.entries| && k < |addrs|
    ensures var q := Query(t, bias, n, addrs[k]);
      before + Replies(t, bias, n, addrs[k..]) == before + [q.1] + Replies(t, bias, q.0, addrs[k + 1..])
  {
    hide Query;
    assert addrs[k..][1..] == addrs[k + 1..];
    var q := Query(t, bias, n, addrs[k]);
    var rest := Replies(t, bias, q.0, addrs[k + 1..]);
    assert before + ([q.1] + rest) == before + [q.1] + rest;
  }

  lemma RepliesNone(t: Table, bias: nat, n: nat, addrs: seq<nat>)
    requires n <= |t.entries| && addrs == []
    ensures Replies(t, bias, n, addrs) == []
  {
  }

  /** Sorted, not empty, and pairwise equal or apart. */
  ghost predicate Orderly(fs: seq<Info>) {
    && SortedBy(fs, StartOf)
    && (forall i :: 0 <= i < |fs| ==> fs[i].start < fs[i].end)
    && (forall i, j :: 0 <= i < |fs| && 0 <= j < |fs| ==> fs[i] == fs[j] || Apart(fs[i], fs[j]))
  }

  lemma CacheIsOrderly(t: Table, bias: nat, n: nat, cache: seq<Info>)
    requires WellFormed(t, bias) && n <= |t.entries| && multiset(cache) == multiset(Funcs(t, bias, n))
    ensures SortedBy(cache, StartOf) ==> Orderly(cache)
  {
    hide Funcs;
    var fs := Funcs(t, bias, |t.entries|);
    FuncsGrow(t, bias, n, |t.entries|);
    forall i | 0 <= i < |cache| ensures cache[i] in fs && cache[i].start < cache[i].end {
      assert cache[i] in multiset(cache);
      assert cache[i] in Funcs(t, bias, n);
    }
    forall i, j | 0 <= i < |cache| && 0 <= j < |cache| ensures cache[i] == cache[j] || Apart(cache[i], cache[j]) {
      EqualOrApart(fs, cache[i], cache[j]);
    }
  }

  /** What the cache answers is what the scan would. */
  lemma CachedAnswer(t: Table, bias: nat, addr: nat, n: nat, cache: seq<Info>, info: Info)
    requires n <= |t.entries| && (forall i :: 0 <= i < n ==> t.entries[i].Some?)
    requires multiset(cache) == multiset(Funcs(t, bias, n)) && info in cache && Contains(info, addr)
    ensures Witnessed(t, bias, addr, NameAt(t, info, addr))
    ensures WellFormed(t, bias) ==> NameAt(t, info, addr) == Scan(t, bias, addr, 0)
  {
    hide Scan;
    hide Funcs;
    hide WellFormed;
    FuncsGrow(t, bias, n, |t.entries|);
    assert info in multiset(cache);
    assert info in Funcs(t, bias, n);
    if WellFormed(t, bias) {
      ScanFinds(t, bias, addr, n, info);
    }
  }

  lemma CacheMisses(t: Table, bias: nat, addr: nat, n: nat, cache: seq<Info>)
    requires n <= |t.entries| && multiset(cache) == multiset(Funcs(t, bias, n))
    requires forall i :: 0 <= i < |cache| ==> !Contains(cache[i], addr)
    ensures Misses(t, bias, addr, n)
  {
    hide Funcs;
    forall f | f in Funcs(t, bias, n) ensures !Contains(f, addr) {
      assert f in multiset(Funcs(t, bias, n));
      assert f in cache;
    }
  }

  lemma EqualOrApart(fs: seq<Info>, a: Info, b: Info)
    requires (forall i, j :: 0 <= i < j < |fs| ==> Apart(fs[i], fs[j])) && a in fs && b in fs
    ensures a == b || Apart(a, b)
  {
    var i :| 0 <= i < |fs| && fs[i] == a;
    var j :| 0 <= j < |fs| && fs[j] == b;
  }

  // ----------------------------------------------- answers in terms of symbols

  /** Entry k is a defined function of this name, and the address lies d bytes into it.
      An ordinary symbol is shifted by the load bias, an absolute one is not. */
  predicate Names(t: Table, bias: nat, k: nat, addr: nat, name: string, d: nat) {
    k < |t.entries| && t.entries[k].Some? &&
    var s := t.entries[k].value;
    var at := if s.isAbsolute then s.value else (s.value + bias) % TWO64;
    var str := (t.strOffset + s.name) % TWO64;
    s.isFunc && !s.isUndefined && d < s.size && addr == at + d && str in t.strings && t.strings[str] == name
  }

  /** The answer is a name and a distance exactly if some entry says so. */
  ghost predicate SaysExactly(t: Table, bias: nat, addr: nat, a: Answer) {
    forall name: string, d: nat :: a == Found(name, d) <==> exists k: nat :: Names(t, bias, k, addr, name, d)
  }

  /** The functions of a table are those of its entries. */
  lemma {:induction false} FuncOf(t: Table, bias: nat, n: nat, f: Info) returns (k: nat)
    requires n <= |t.entries| && f in Funcs(t, bias, n)
    ensures k < n && t.entries[k].Some? && IsFunction(t.entries[k].value) && f == InfoOf(t, bias, t.entries[k].value)
  {
    hide InfoOf;
    if f in Funcs(t, bias, n - 1) {
      k := FuncOf(t, bias, n - 1, f);
    } else {
      k := n - 1;
    }
  }

  lemma {:induction false} FuncIn(t: Table, bias: nat, k: nat)
    requires k < |t.entries| && t.entries[k].Some? && IsFunction(t.entries[k].value)
    ensures InfoOf(t, bias, t.entries[k].value) in Funcs(t, bias, |t.entries|)
  {
    hide InfoOf;
    FuncsGrow(t, bias, k + 1, |t.entries|);
    var f := InfoOf(t, bias, t.entries[k].value);
    assert Funcs(t, bias, k + 1)[|Funcs(t, bias, k)|] == f;
  }

  /** A function that is not empty does not wrap: its range is its start and its size. */
  lemma RangeOf(t: Table, bias: nat, s: Sym)
    requires InfoOf(t, bias, s).start < InfoOf(t, bias, s).end
    ensures var f := InfoOf(t, bias, s);
      f.start == (if s.isAbsolute then s.value else (s.value + bias) % TWO64) && f.end == f.start + s.size
  {
  }

  /** Names and containment, for one entry of a well-formed table. */
  lemma NamesIff(t: Table, bias: nat, k: nat, addr: nat, name: string, d: nat)
    requires WellFormed(t, bias) && k < |t.entries| && t.entries[k].Some? && IsFunction(t.entries[k].value)
    ensures var f := InfoOf(t, bias, t.entries[k].value);
      Names(t, bias, k, addr, name, d) <==> Contains(f, addr) && NameAt(t, f, addr) == Found(name, d)
  {
    hide Funcs;
    var s := t.entries[k].value;
    var f := InfoOf(t, bias, s);
    FuncIn(t, bias, k);
    assert f.start < f.end;
    RangeOf(t, bias, s);
    assert f.str == (t.strOffset + s.name) % TWO64;
    hide InfoOf;
  }

  /** On a well-formed readable table the scan answers exactly what the symbols say. */
  lemma ScanSaysExactly(t: Table, bias: nat, addr: nat)
    requires WellFormed(t, bias) && AllReadable(t)
    ensures SaysExactly(t, bias, addr, Scan(t, bias, addr, 0))
  {
    hide Scan;
    hide Funcs;
    hide InfoOf;
    hide WellFormed;
    hide Names;
    hide Contains;
    hide NameAt;
    var a := Scan(t, bias, addr, 0);
    forall name: string, d: nat ensures a == Found(name, d) <==> exists k: nat :: Names(t, bias, k, addr, name, d) {
      if a == Found(name, d) {
        ScanWitnessed(t, bias, addr, 0);
        var f :| f in Funcs(t, bias, |t.entries|) && Contains(f, addr) && a == NameAt(t, f, addr);
        var k := FuncOf(t, bias, |t.entries|, f);
        NamesIff(t, bias, k, addr, name, d);
      }
      if k: nat :| Names(t, bias, k, addr, name, d) {
        NamedIsFunction(t, bias, k, addr, name, d);
        NamesIff(t, bias, k, addr, name, d);
        FuncIn(t, bias, k);
        ScanFinds(t, bias, addr, |t.entries|, InfoOf(t, bias, t.entries[k].value));
      }
    }
  }

  lemma NamedIsFunction(t: Table, bias: nat, k: nat, addr: nat, name: string, d: nat)
    requires Names(t, bias, k, addr, name, d)
    ensures k < |t.entries| && t.entries[k].Some? && IsFunction(t.entries[k].value)
  {
  }

  // ------------------------------------------- tables that are not well formed

  /** Every answer of every history is the scan's. */
  ghost predicate AlwaysScans(t: Table, bias: nat) {
    forall addrs: seq<nat>, i :: 0 <= i < |addrs| ==> Replies(t, bias, 0, addrs)[i] == Scan(t, bias, addrs[i], 0)
  }

  /** After any one lookup the next one is answered as the scan would. */
  ghost predicate PairsScan(t: Table, bias: nat) {
    forall a: nat, b: nat :: Query(t, bias, Passed(t, bias, a, 0), b).1 == Scan(t, bias, b, 0)
  }

  /** What entry k answers for an address it contains. */
  function AnswerOf(t: Table, bias: nat, k: nat, addr: nat): Answer
    requires k < |t.entries| && t.entries[k].Some?
  {
    var i := InfoOf(t, bias, t.entries[k].value);
    if i.str < t.strEnd then NameAt(t, i, addr) else NotFound
  }

  /** Two functions that contain the same address answer differently for it. */
  ghost predicate Telling(t: Table, bias: nat) {
    forall i, j, addr: nat {:trigger IsHit(t, bias, i, addr), IsHit(t, bias, j, addr)} ::
      0 <= i < j < |t.entries| && IsHit(t, bias, i, addr) && IsHit(t, bias, j, addr) ==>
      AnswerOf(t, bias, i, addr) != AnswerOf(t, bias, j, addr)
  }

  lemma {:induction false} ScanIsStop(t: Table, bias: nat, addr: nat, k: nat)
    requires AllReadable(t) && k <= |t.entries|
    ensures var j := StopAt(t, bias, addr, k);
      Scan(t, bias, addr, k) == if j < |t.entries| then AnswerOf(t, bias, j, addr) else NotFound
    decreases |t.entries| - k
  {
    hide InfoOf;
    if k < |t.entries| && !IsHit(t, bias, k, addr) {
      ScanIsStop(t, bias, addr, k + 1);
    }
  }

  /** An address beyond all functions: looking it up passes the whole table. */
  lemma FarPasses(t: Table, bias: nat)
    ensures Passed(t, bias, TWO64, 0) == |t.entries|
  {
  }

  lemma NothingCached(t: Table, bias: nat, addr: nat)
    ensures Query(t, bias, 0, addr) == (Passed(t, bias, addr, 0), Scan(t, bias, addr, 0))
  {
  }

  /** A first lookup would have passed just as many entries. */
  ghost predicate Direct(t: Table, bias: nat, n: nat) { n == 0 || exists a: nat :: n == Passed(t, bias, a, 0) }

  lemma DirectStaysDirect(t: Table, bias: nat, n: nat, addr: nat)
    requires AllReadable(t) && Telling(t, bias) && PairsScan(t, bias) && n <= |t.entries| && Direct(t, bias, n)
    ensures Query(t, bias, n, addr).1 == Scan(t, bias, addr, 0) && Direct(t, bias, Query(t, bias, n, addr).0)
  {
    hide Scan;
    hide Sort;
    hide Funcs;
    hide Bisect;
    hide StopAt;
    hide AnswerOf;
    hide Telling;
    if n == 0 {
      NothingCached(t, bias, addr);
    }
    var q := Query(t, bias, n, addr);
    assert q.1 == Scan(t, bias, addr, 0);
    if q.0 != n {
      StopsAtFirst(t, bias, n, addr);
      FarPasses(t, bias);
      assert q.0 == Passed(t, bias, addr, 0) || q.0 == Passed(t, bias, TWO64, 0);
    }
  }

  /** A scan from entry n with the answer of the scan from the start ends where that
      one does, or at the end. */
  lemma StopsAtFirst(t: Table, bias: nat, n: nat, addr: nat)
    requires AllReadable(t) && Telling(t, bias) && n <= |t.entries| && Scan(t, bias, addr, n) == Scan(t, bias, addr, 0)
    ensures Passed(t, bias, addr, n) == Passed(t, bias, addr, 0) || Passed(t, bias, addr, n) == |t.entries|
  {
    hide Scan;
    hide StopAt;
    hide AnswerOf;
    hide IsHit;
    ScanIsStop(t, bias, addr, n);
    ScanIsStop(t, bias, addr, 0);
    var i, j := StopAt(t, bias, addr, 0), StopAt(t, bias, addr, n);
    assert j < |t.entries| ==> i <= j;
  }

  lemma {:induction false} DirectReplies(t: Table, bias: nat, n: nat, addrs: seq<nat>, i: nat)
    requires AllReadable(t) && Telling(t, bias) && PairsScan(t, bias) && n <= |t.entries| && Direct(t, bias, n) && i < |addrs|
    ensures Replies(t, bias, n, addrs)[i] == Scan(t, bias, addrs[i], 0)
    decreases |addrs|
  {
    hide Query;
    hide Scan;
    hide Telling;
    hide PairsScan;
    hide Direct;
    DirectStaysDirect(t, bias, n, addrs[0]);
    if i > 0 {
      DirectReplies(t, bias, Query(t, bias, n, addrs[0]).0, addrs[1..], i - 1);
    }
  }

  /** On any readable table whose functions tell themselves apart, overlapping or not,
      all histories are answered by the scan exactly if all histories of two are. */
  lemma HistoriesOfTwo(t: Table, bias: nat)
    requires AllReadable(t) && Telling(t, bias)
    ensures AlwaysScans(t, bias) <==> PairsScan(t, bias)
  {
    hide Query;
    hide Scan;
    hide Telling;
    hide Passed;
    hide AllReadable;
    if PairsScan(t, bias) {
      forall addrs: seq<nat>, i | 0 <= i < |addrs| ensures Replies(t, bias, 0, addrs)[i] == Scan(t, bias, addrs[i], 0) {
        DirectReplies(t, bias, 0, addrs, i);
      }
    }
    if AlwaysScans(t, bias) {
      forall a: nat, b: nat ensures Query(t, bias, Passed(t, bias, a, 0), b).1 == Scan(t, bias, b, 0) {
        SecondReply(t, bias, a, b);
        assert [a, b][1] == b;
      }
    }
  }

  lemma SecondReply(t: Table, bias: nat, a: nat, b: nat)
    ensures Replies(t, bias, 0, [a, b])[1] == Query(t, bias, Passed(t, bias, a, 0), b).1
  {
    hide Query;
    hide Scan;
    NothingCached(t, bias, a);
    assert [a, b][1..] == [b];
    assert Replies(t, bias, Passed(t, bias, a, 0), [b])[0] == Query(t, bias, Passed(t, bias, a, 0), b).1;
  }

  /** A function from 0x10 to 0x30 and one inside it, from 0x18 to 0x20. */
  const NESTED := Table([Some(Sym(1, 0x10, 0x20, true, false, true)), Some(Sym(2, 0x18, 8, true, false, true))],
                        0, 3, map[1 := "outer", 2 := "inner"])

  lemma NestedFuncs()
    ensures Funcs(NESTED, 0, 2) == [Info(0x10, 0x30, 1), Info(0x18, 0x20, 2)]
    ensures Sort(Funcs(NESTED, 0, 2), StartOf) == [Info(0x10, 0x30, 1), Info(0x18, 0x20, 2)]
  {
    var o, i := Info(0x10, 0x30, 1), Info(0x18, 0x20, 2);
    assert Funcs(NESTED, 0, 0) == [] && Funcs(NESTED, 0, 1) == [o];
    var none: seq<Info> := [];
    assert Sort(none, StartOf) == none;
    SortCons(i, none, StartOf);
    assert [i] + none == [i];
    SortCons(o, [i], StartOf);
    assert [o] + [i] == [o, i];
  }

  /** The first lookup of 0x18 finds the outer function, as the scan does; after another
      lookup that passes the table, it finds the inner one. */
  lemma OverlapDependsOnHistory()
    ensures Scan(NESTED, 0, 0x18, 0) == Found("outer", 8)
    ensures Query(NESTED, 0, 0, 0x18).1 == Found("outer", 8)
    ensures Passed(NESTED, 0, 0x40, 0) == 2 && Query(NESTED, 0, 2, 0x18).1 == Found("inner", 0)
    ensures !PairsScan(NESTED, 0)
  {
    NestedFuncs();
    NothingCached(NESTED, 0, 0x18);
    hide Sort;
    hide Funcs;
    var cache := [Info(0x10, 0x30, 1), Info(0x18, 0x20, 2)];
    assert Bisect(cache, 0x18, 0, 2) == Some(Info(0x18, 0x20, 2));
    assert StopAt(NESTED, 0, 0x40, 0) == 2;
  }
}
