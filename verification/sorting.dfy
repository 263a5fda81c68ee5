/** Stable sorting of a sequence by an order in which different elements may be equal. */
module Sorting {

  /** Any two elements are in order one way or the other, and the order is transitive. */
  ghost predicate IsOrder<T(!new)>(upTo: (T, T) -> bool) {
    && (forall a, b :: upTo(a, b) || upTo(b, a))
    && (forall a, b, c :: upTo(a, b) && upTo(b, c) ==> upTo(a, c))
  }

  ghost predicate InOrder<T>(upTo: (T, T) -> bool, s: seq<T>) {
    forall i, j | 0 <= i < j < |s| :: upTo(s[i], s[j])
  }

  /** Inserts after the elements that come first or are equal. */
  function Insert<T>(upTo: (T, T) -> bool, s: seq<T>, x: T): (r: seq<T>)
    ensures multiset(r) == multiset(s) + multiset{x}
  {
    if s == [] then [x]
    else
      assert s == s[..|s| - 1] + [s[|s| - 1]];
      if upTo(s[|s| - 1], x) then s + [x] else Insert(upTo, s[..|s| - 1], x) + [s[|s| - 1]]
  }

  function Sort<T>(upTo: (T, T) -> bool, s: seq<T>): (r: seq<T>)
    ensures multiset(r) == multiset(s)
  {
    if s == [] then []
    else
      assert s == s[..|s| - 1] + [s[|s| - 1]];
      Insert(upTo, Sort(upTo, s[..|s| - 1]), s[|s| - 1])
  }

  lemma {:induction false} InsertIsInOrder<T(!new)>(upTo: (T, T) -> bool, s: seq<T>, x: T)
    requires IsOrder(upTo) && InOrder(upTo, s)
    ensures InOrder(upTo, Insert(upTo, s, x))
  {
    if s != [] {
      var init, last := s[..|s| - 1], s[|s| - 1];
      if upTo(last, x) {
        forall i | 0 <= i < |init| ensures upTo(s[i], x) {
          assert upTo(s[i], last);
        }
      } else {
        InsertIsInOrder(upTo, init, x);
        var r := Insert(upTo, init, x);
        forall i | 0 <= i < |r| ensures upTo(r[i], last) {
          assert r[i] in multiset(r);
          if r[i] != x { assert r[i] in init; }
        }
      }
    }
  }

  lemma {:induction false} SortIsInOrder<T(!new)>(upTo: (T, T) -> bool, s: seq<T>)
    requires IsOrder(upTo)
    ensures InOrder(upTo, Sort(upTo, s))
  {
    if s != [] {
      SortIsInOrder(upTo, s[..|s| - 1]);
      InsertIsInOrder(upTo, Sort(upTo, s[..|s| - 1]), s[|s| - 1]);
    }
  }

  lemma {:induction false} SortHasSameElements<T>(upTo: (T, T) -> bool, s: seq<T>)
    ensures |Sort(upTo, s)| == |s| && forall x :: x in Sort(upTo, s) <==> x in s
  {
    var r := Sort(upTo, s);
    assert |multiset(r)| == |r| && |multiset(s)| == |s|;
    forall x ensures x in r <==> x in s {
      assert x in multiset(r) <==> x in multiset(s);
    }
  }
}
