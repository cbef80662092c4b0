/** What std::sort promises, an ordered permutation; elements with equal keys keep
    their order here. */
module Sorting {

  ghost predicate SortedBy<T>(xs: seq<T>, key: T -> nat) {
    forall i, j :: 0 <= i < j < |xs| ==> key(xs[i]) <= key(xs[j])
  }

  function Insert<T>(xs: seq<T>, x: T, key: T -> nat): seq<T> {
    if xs == [] then [x]
    else if key(x) <= key(xs[0]) then [x] + xs
    else [xs[0]] + Insert(xs[1..], x, key)
  }

  function Sort<T>(xs: seq<T>, key: T -> nat): seq<T> {
    if xs == [] then [] else Insert(Sort(xs[1..], key), xs[0], key)
  }

  lemma {:induction false} InsertAdds<T>(xs: seq<T>, x: T, key: T -> nat)
    ensures multiset(Insert(xs, x, key)) == multiset(xs) + multiset{x}
    decreases |xs|
  {
    if xs != [] {
      InsertAdds(xs[1..], x, key);
      assert xs == [xs[0]] + xs[1..];
    }
  }

  lemma {:induction false} InsertSorted<T>(xs: seq<T>, x: T, key: T -> nat)
    requires SortedBy(xs, key)
    ensures SortedBy(Insert(xs, x, key), key)
    decreases |xs|
  {
    if xs != [] && key(x) > key(xs[0]) {
      var rest := Insert(xs[1..], x, key);
      InsertSorted(xs[1..], x, key);
      InsertAdds(xs[1..], x, key);
      forall i | 0 <= i < |rest| ensures key(xs[0]) <= key(rest[i]) {
        assert rest[i] in multiset(rest);
        assert rest[i] == x || rest[i] in xs[1..];
      }
    }
  }

  lemma {:induction false} SortSorts<T>(xs: seq<T>, key: T -> nat)
    ensures SortedBy(Sort(xs, key), key) && multiset(Sort(xs, key)) == multiset(xs)
    decreases |xs|
  {
    if xs != [] {
      SortSorts(xs[1..], key);
      InsertSorted(Sort(xs[1..], key), xs[0], key);
      InsertAdds(Sort(xs[1..], key), xs[0], key);
      assert xs == [xs[0]] + xs[1..];
    }
  }

  /** Elements with different keys can be inserted in either order. */
  lemma {:induction false} InsertsCommute<T>(xs: seq<T>, x: T, y: T, key: T -> nat)
    requires key(y) < key(x)
    ensures Insert(Insert(xs, x, key), y, key) == Insert(Insert(xs, y, key), x, key)
    decreases |xs|
  {
    if xs != [] {
      InsertsCommute(xs[1..], x, y, key);
    }
  }

  lemma {:induction false} SortCons<T>(x: T, xs: seq<T>, key: T -> nat)
    ensures Sort([x] + xs, key) == Insert(Sort(xs, key), x, key)
  {
    assert ([x] + xs)[1..] == xs;
  }

  lemma {:induction false} SortInserted<T>(xs: seq<T>, x: T, more: seq<T>, key: T -> nat)
    ensures Sort(Insert(xs, x, key) + more, key) == Insert(Sort(xs + more, key), x, key)
    decreases |xs|
  {
    hide Sort;
    if xs == [] || key(x) <= key(xs[0]) {
      assert Insert(xs, x, key) + more == [x] + (xs + more);
      SortCons(x, xs + more, key);
    } else {
      var y, rest := xs[0], xs[1..];
      assert Insert(xs, x, key) + more == [y] + (Insert(rest, x, key) + more);
      SortCons(y, Insert(rest, x, key) + more, key);
      SortInserted(rest, x, more, key);
      assert xs + more == [y] + (rest + more);
      SortCons(y, rest + more, key);
      InsertsCommute(Sort(rest + more, key), x, y, key);
    }
  }

  /** Sorting a sorted list with something behind it is sorting everything. */
  lemma {:induction false} SortAppend<T>(xs: seq<T>, more: seq<T>, key: T -> nat)
    ensures Sort(Sort(xs, key) + more, key) == Sort(xs + more, key)
    decreases |xs|
  {
    if xs == [] {
      assert Sort(xs, key) + more == xs + more;
    } else {
      var y, rest := xs[0], xs[1..];
      assert Sort(xs, key) == Insert(Sort(rest, key), y, key);
      hide Sort;
      hide Insert;
      SortAppend(rest, more, key);
      SortInserted(Sort(rest, key), y, more, key);
      assert xs + more == [y] + (rest + more);
      SortCons(y, rest + more, key);
    }
  }
}
