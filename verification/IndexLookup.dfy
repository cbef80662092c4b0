/** The binary search that the sorted address tables share, and what it finds. */
module IndexLookup {
  import opened Machine

  /** A search ends at an unreadable entry, below the first entry, or at an index. */
  datatype Found = Unreadable | Below | At(index: nat)

  /** keys[i] is the address of entry i, None if it cannot be read. */
  function Search(keys: seq<Option<nat>>, pc: nat, first: nat, last: nat): Found
    requires first <= last <= |keys|
    decreases last - first
  {
    if first < last then
      var current := (first + last) / 2;
      match keys[current]
      case None => Unreadable
      case Some(k) =>
        if pc == k then At(current)
        else if pc < k then Search(keys, pc, first, current)
        else Search(keys, pc, current + 1, last)
    else if last != 0 then At(last - 1)
    else Below
  }

  /** One round of the search. */
  lemma SearchStep(keys: seq<Option<nat>>, pc: nat, first: nat, last: nat)
    requires first <= last <= |keys|
    ensures var r, current := Search(keys, pc, first, last), (first + last) / 2;
      if first == last then r == if last != 0 then At(last - 1) else Below
      else if keys[current].None? then r == Unreadable
      else if pc == keys[current].value then r == At(current)
      else if pc < keys[current].value then r == Search(keys, pc, first, current)
      else r == Search(keys, pc, current + 1, last)
  {
  }

  /** Entry i starts at or below the pc, and the next one, unless entry i is hit
      exactly, above it. */
  predicate Brackets(keys: seq<Option<nat>>, pc: nat, i: nat) {
    && i < |keys| && keys[i].Some? && keys[i].value <= pc
    && (keys[i].value == pc || i + 1 == |keys| || (keys[i + 1].Some? && pc < keys[i + 1].value))
  }

  predicate Outcome(keys: seq<Option<nat>>, pc: nat, r: Found) {
    match r
    case At(i) => Brackets(keys, pc, i)
    case Below => keys == [] || (keys[0].Some? && pc < keys[0].value)
    case Unreadable => exists i :: 0 <= i < |keys| && keys[i].None?
  }

  /** On any table, sorted or not: what the answer says about its neighbours. */
  lemma {:induction false} SearchBrackets(keys: seq<Option<nat>>, pc: nat, first: nat, last: nat)
    requires first <= last <= |keys|
    requires first > 0 ==> keys[first - 1].Some? && keys[first - 1].value < pc
    requires last < |keys| ==> keys[last].Some? && pc < keys[last].value
    ensures Outcome(keys, pc, Search(keys, pc, first, last))
    decreases last - first
  {
    if first < last {
      var current := (first + last) / 2;
      if keys[current].Some? && pc < keys[current].value {
        SearchBrackets(keys, pc, first, current);
      } else if keys[current].Some? && pc > keys[current].value {
        SearchBrackets(keys, pc, current + 1, last);
      }
    }
  }

  predicate Sorted(keys: seq<Option<nat>>) {
    && (forall i :: 0 <= i < |keys| ==> keys[i].Some?)
    && (forall i, j :: 0 <= i < j < |keys| ==> keys[i].value <= keys[j].value)
  }

  /** The plain scan: the last of the first n entries that is not above the pc. */
  function Linear(keys: seq<Option<nat>>, pc: nat, n: nat): (r: Option<nat>)
    requires n <= |keys| && forall i :: 0 <= i < |keys| ==> keys[i].Some?
    ensures r.Some? ==> r.value < n
  {
    if n == 0 then None
    else if keys[n - 1].value <= pc then Some(n - 1)
    else Linear(keys, pc, n - 1)
  }

  /** The entry has the greatest address that is not above the pc. */
  predicate Floor(keys: seq<Option<nat>>, pc: nat, i: nat)
    requires forall j :: 0 <= j < |keys| ==> keys[j].Some?
  {
    && i < |keys| && keys[i].value <= pc
    && forall j :: 0 <= j < |keys| && keys[j].value <= pc ==> keys[j].value <= keys[i].value
  }

  lemma {:induction false} LinearIsFloor(keys: seq<Option<nat>>, pc: nat, n: nat)
    requires Sorted(keys) && n <= |keys| && (n < |keys| ==> pc < keys[n].value)
    ensures var r := Linear(keys, pc, n);
      match r
      case Some(i) => i < n && Floor(keys, pc, i) && (forall j :: i < j < |keys| ==> pc < keys[j].value)
      case None => forall j :: 0 <= j < |keys| ==> pc < keys[j].value
    decreases n
  {
    if n > 0 {
      if keys[n - 1].value > pc {
        LinearIsFloor(keys, pc, n - 1);
      } else {
        forall j | n <= j < |keys| ensures pc < keys[j].value {
          assert n == j || keys[n].value <= keys[j].value;
        }
      }
    } else {
      forall j | 0 <= j < |keys| ensures pc < keys[j].value {
        assert j == 0 || keys[0].value <= keys[j].value;
      }
    }
  }

  /** On a sorted readable table the search answers exactly when the scan does, with
      an entry at the same, greatest address; with the same entry unless two entries
      share the pc itself as their address. */
  lemma {:induction false} SearchIsLinear(keys: seq<Option<nat>>, pc: nat)
    requires Sorted(keys)
    ensures var r, l := Search(keys, pc, 0, |keys|), Linear(keys, pc, |keys|);
      && !r.Unreadable?
      && (r.At? <==> l.Some?)
      && (r.At? ==> Floor(keys, pc, r.index) && keys[r.index] == keys[l.value])
      && (r.At? && (keys[r.index].value < pc || forall i, j :: 0 <= i < j < |keys| ==> keys[i] != keys[j]) ==> l.value == r.index)
  {
    hide Search;
    hide Linear;
    var r := Search(keys, pc, 0, |keys|);
    SearchBrackets(keys, pc, 0, |keys|);
    LinearIsFloor(keys, pc, |keys|);
    if r.At? {
      var i := r.index;
      forall j | 0 <= j < |keys| && keys[j].value <= pc ensures keys[j].value <= keys[i].value {
        if j > i + 1 {
          assert keys[i + 1].value <= keys[j].value;
        }
      }
    }
  }
}
