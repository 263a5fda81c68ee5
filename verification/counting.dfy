/** Counting arguments about sets and sequences of positions. */
module Counting {

  function UpTo(n: nat): (s: set<nat>)
    ensures |s| == n && forall i: nat :: i in s <==> i < n
  {
    if n == 0 then {} else UpTo(n - 1) + {n - 1}
  }

  ghost predicate AllDifferent(s: seq<nat>) {
    forall i, j | 0 <= i < j < |s| :: s[i] != s[j]
  }

  function Elements(s: seq<nat>): set<nat> {
    set x | x in s
  }

  lemma {:induction false} CountDifferent(s: seq<nat>)
    requires AllDifferent(s)
    ensures |Elements(s)| == |s|
  {
    if s != [] {
      var init, last := s[..|s| - 1], s[|s| - 1];
      CountDifferent(init);
      assert s == init + [last];
      assert Elements(s) == Elements(init) + {last};
    }
  }

  lemma {:induction false} SubsetSize<T>(a: set<T>, b: set<T>)
    requires a <= b
    ensures |a| <= |b|
  {
    assert b == a + (b - a);
  }

  /** Different positions below `n` are at most `n`. */
  lemma {:induction false} AtMost(s: seq<nat>, n: nat)
    requires AllDifferent(s) && forall i | 0 <= i < |s| :: s[i] < n
    ensures |s| <= n
  {
    CountDifferent(s);
    SubsetSize(Elements(s), UpTo(n));
  }

  /** If one position is left out, they are fewer than `n`. */
  lemma {:induction false} FewerThan(s: seq<nat>, n: nat, k: nat)
    requires AllDifferent(s) && (forall i | 0 <= i < |s| :: s[i] < n) && k < n && k !in s
    ensures |s| < n
  {
    CountDifferent(s);
    SubsetSize(Elements(s), UpTo(n) - {k});
  }

  /** If none is left out, they are at least `n`. */
  lemma {:induction false} AtLeast(s: seq<nat>, n: nat)
    requires AllDifferent(s) && forall k: nat | k < n :: k in s
    ensures |s| >= n
  {
    CountDifferent(s);
    SubsetSize(UpTo(n), Elements(s));
  }
}
