/** Insertion sort, standing for the library's sorts. */
module Sorting {

  predicate Sorted<T>(le: (T, T) -> bool, items: seq<T>) {
    forall i, j | 0 <= i < j < |items| :: le(items[i], items[j])
  }

  /** Any two items can be put in order, and the order passes on. */
  ghost predicate Orders<T(!new)>(le: (T, T) -> bool) {
    && (forall x, y :: le(x, y) || le(y, x))
    && forall x, y, z | le(x, y) && le(y, z) :: le(x, z)
  }

  predicate AtMost(x: nat, y: nat) { x <= y }

  function Insert<T>(le: (T, T) -> bool, x: T, sorted: seq<T>): seq<T> {
    if sorted == [] || le(x, sorted[0]) then [x] + sorted else [sorted[0]] + Insert(le, x, sorted[1..])
  }

  function Sort<T>(le: (T, T) -> bool, items: seq<T>): seq<T> {
    if items == [] then [] else Insert(le, items[0], Sort(le, items[1..]))
  }

  lemma {:induction false} InsertKeeps<T>(le: (T, T) -> bool, x: T, sorted: seq<T>)
    ensures multiset(Insert(le, x, sorted)) == multiset{x} + multiset(sorted)
  {
    if sorted != [] && !le(x, sorted[0]) {
      InsertKeeps(le, x, sorted[1..]);
      assert sorted == [sorted[0]] + sorted[1..];
    }
  }

  lemma {:induction false} SortKeeps<T>(le: (T, T) -> bool, items: seq<T>)
    ensures multiset(Sort(le, items)) == multiset(items) && |Sort(le, items)| == |items|
  {
    if items != [] {
      SortKeeps(le, items[1..]);
      InsertKeeps(le, items[0], Sort(le, items[1..]));
      assert items == [items[0]] + items[1..];
    }
    assert |multiset(Sort(le, items))| == |multiset(items)|;
  }

  lemma {:induction false} InsertSorts<T(!new)>(le: (T, T) -> bool, x: T, sorted: seq<T>)
    requires Orders(le) && Sorted(le, sorted)
    ensures Sorted(le, Insert(le, x, sorted))
  {
    if sorted != [] && !le(x, sorted[0]) {
      InsertSorts(le, x, sorted[1..]);
      InsertKeeps(le, x, sorted[1..]);
      LeastInFront(le, sorted[0], x, sorted[1..], Insert(le, x, sorted[1..]));
    } else {
      FirstInFront(le, x, sorted);
    }
  }

  lemma FirstInFront<T(!new)>(le: (T, T) -> bool, x: T, sorted: seq<T>)
    requires Orders(le) && Sorted(le, sorted) && (sorted == [] || le(x, sorted[0]))
    ensures Sorted(le, [x] + sorted)
  {
    forall i | 0 <= i < |sorted| ensures le(x, sorted[i]) {
      assert i == 0 || le(sorted[0], sorted[i]);
    }
  }

  lemma LeastInFront<T(!new)>(le: (T, T) -> bool, least: T, x: T, rest: seq<T>, more: seq<T>)
    requires Sorted(le, more) && multiset(more) == multiset{x} + multiset(rest)
    requires le(least, x) && forall i | 0 <= i < |rest| :: le(least, rest[i])
    ensures Sorted(le, [least] + more)
  {
    forall i | 0 <= i < |more| ensures le(least, more[i]) {
      assert more[i] in multiset(more);
      assert more[i] == x || more[i] in rest;
    }
  }

  lemma {:induction false} SortSorts<T(!new)>(le: (T, T) -> bool, items: seq<T>)
    requires Orders(le)
    ensures Sorted(le, Sort(le, items))
  {
    if items != [] {
      SortSorts(le, items[1..]);
      InsertSorts(le, items[0], Sort(le, items[1..]));
    }
  }
}
