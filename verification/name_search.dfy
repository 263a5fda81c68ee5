/** The binary search for a name (asmjit/core/instdb.cpp). */
module NameSearch {
  import opened NameTable
  import opened Strings
  import opened Wrappers

  /** Entry `k` decodes to the name. */
  ghost predicate Spells(entries: seq<nat>, table: string, names: seq<string>) {
    |entries| == |names| && forall k | 0 <= k < |names| :: Decode(entries[k], false, table) == Some(names[k])
  }

  ghost predicate Ascending(names: seq<string>, start: nat, end: nat)
    requires start <= end <= |names|
  {
    forall i, j | start <= i < j < end :: Compare(names[i], names[j]) <= 0
  }

  /** Looks at the middle, and goes on in one of the halves beside it. */
  function Search(s: string, names: seq<string>, base: nat, lim: nat): (at: Option<nat>)
    requires base + lim <= |names|
    decreases lim
  {
    if lim == 0 then None
    else
      var index := base + lim / 2;
      var result := Compare(s, names[index]);
      if result < 0 then Search(s, names, base, lim / 2)
      else if result > 0 then Search(s, names, index + 1, (lim - 1) / 2)
      else Some(index)
  }

  lemma {:induction false} SearchIsSound(s: string, names: seq<string>, base: nat, lim: nat)
    requires base + lim <= |names|
    ensures var at := Search(s, names, base, lim); at.Some? ==> base <= at.value < base + lim && names[at.value] == s
    decreases lim
  {
    if lim > 0 {
      var index := base + lim / 2;
      CompareIsEqual(s, names[index]);
      if Compare(s, names[index]) < 0 {
        SearchIsSound(s, names, base, lim / 2);
      } else if Compare(s, names[index]) > 0 {
        SearchIsSound(s, names, index + 1, (lim - 1) / 2);
      }
    }
  }

  // --- What is found ---

  /** The places that the search looks at on its way to `k`. */
  function Pivots(base: nat, lim: nat, k: nat): (places: set<nat>)
    requires base <= k < base + lim
    ensures forall p | p in places :: base <= p < base + lim && p != k
    decreases lim
  {
    var index := base + lim / 2;
    if k < index then {index} + Pivots(base, lim / 2, k)
    else if k > index then {index} + Pivots(index + 1, (lim - 1) / 2, k)
    else {}
  }

  /** The name at `p` is on the side of the name at `k` that `p` is of `k`. */
  predicate SameSide(names: seq<string>, p: nat, k: nat)
    requires p < |names| && k < |names|
  {
    if k < p then Compare(names[k], names[p]) < 0 else Compare(names[k], names[p]) > 0
  }

  ghost predicate Reached(names: seq<string>, base: nat, lim: nat, k: nat)
    requires base <= k < base + lim <= |names|
  {
    forall p | p in Pivots(base, lim, k) :: SameSide(names, p, k)
  }

  /** One more pivot. */
  lemma {:induction false} ReachedStep(names: seq<string>, base: nat, lim: nat, k: nat, index: nat)
    requires base <= k < base + lim <= |names| && index == base + lim / 2
    ensures k < index ==>
              (Reached(names, base, lim, k) <==> Compare(names[k], names[index]) < 0 && Reached(names, base, lim / 2, k))
    ensures k > index ==>
              && index + 1 + (lim - 1) / 2 == base + lim
              && (Reached(names, base, lim, k) <==>
                  Compare(names[k], names[index]) > 0 && Reached(names, index + 1, (lim - 1) / 2, k))
    ensures k == index ==> Reached(names, base, lim, k)
  {
    hide Compare;
    assert k != index ==> (Reached(names, base, lim, k) ==> SameSide(names, index, k)) by {
      if k != index { assert index in Pivots(base, lim, k); }
    }
  }

  /** The search for a name ends at its own place exactly if all pivots on the way are on their side. */
  lemma {:induction false} FoundAtPlace(names: seq<string>, base: nat, lim: nat, k: nat)
    requires base <= k < base + lim <= |names|
    ensures Search(names[k], names, base, lim) == Some(k) <==> Reached(names, base, lim, k)
    decreases lim
  {
    var index := base + lim / 2;
    ReachedStep(names, base, lim, k, index);
    SearchStep(names[k], names, base, lim, index);
    CompareIsEqual(names[k], names[index]);
    hide Search, Reached, Compare;
    if k < index {
      FoundAtPlace(names, base, lim / 2, k);
      SearchIsSound(names[k], names, index + 1, (lim - 1) / 2);
    } else if k > index {
      FoundAtPlace(names, index + 1, (lim - 1) / 2, k);
      SearchIsSound(names[k], names, base, lim / 2);
    }
  }

  /** The search finds a string exactly if a name with this spelling is reached. */
  lemma {:induction false} SearchFinds(s: string, names: seq<string>, base: nat, lim: nat)
    requires base + lim <= |names|
    ensures Search(s, names, base, lim).Some? <==>
            exists k | base <= k < base + lim :: names[k] == s && Reached(names, base, lim, k)
  {
    hide Search, Reached;
    var at := Search(s, names, base, lim);
    if at.Some? {
      SearchIsSound(s, names, base, lim);
      FoundAtPlace(names, base, lim, at.value);
    }
    forall k | base <= k < base + lim && names[k] == s && Reached(names, base, lim, k) ensures at.Some? {
      FoundAtPlace(names, base, lim, k);
    }
  }

  /** Among ascending names, the search misses nothing. */
  lemma {:induction false} SearchMissesNothing(s: string, names: seq<string>, base: nat, lim: nat)
    requires base + lim <= |names| && Ascending(names, base, base + lim)
    ensures Search(s, names, base, lim).None? ==> forall k | base <= k < base + lim :: names[k] != s
    decreases lim
  {
    if lim > 0 && Search(s, names, base, lim).None? {
      var index := base + lim / 2;
      CompareIsEqual(s, names[index]);
      if Compare(s, names[index]) < 0 {
        SearchMissesNothing(s, names, base, lim / 2);
        forall k | index <= k < base + lim ensures names[k] != s { NotAbove(s, names, index, k); }
      } else {
        SearchMissesNothing(s, names, index + 1, (lim - 1) / 2);
        forall k | base <= k <= index ensures names[k] != s { NotBelow(s, names, k, index); }
      }
    }
  }

  lemma {:induction false} NotAbove(s: string, names: seq<string>, i: nat, k: nat)
    requires i <= k < |names| && Compare(s, names[i]) < 0 && (i < k ==> Compare(names[i], names[k]) <= 0)
    ensures names[k] != s
  {
    CompareIsEqual(s, s);
    CompareIsAntisymmetric(s, names[i]);
  }

  lemma {:induction false} NotBelow(s: string, names: seq<string>, k: nat, i: nat)
    requires k <= i < |names| && Compare(s, names[i]) > 0 && (k < i ==> Compare(names[k], names[i]) <= 0)
    ensures names[k] != s
  {
    CompareIsEqual(s, s);
  }

  ghost predicate Increasing(names: seq<string>, start: nat, end: nat)
    requires start <= end <= |names|
  {
    forall i, j | start <= i < j < end :: Compare(names[i], names[j]) < 0
  }

  ghost predicate AllReached(names: seq<string>, base: nat, lim: nat)
    requires base + lim <= |names|
  {
    forall k | base <= k < base + lim :: Reached(names, base, lim, k)
  }

  /** All names are found at their places exactly if each comes before the next. */
  lemma {:induction false} SearchFindsAll(names: seq<string>, base: nat, lim: nat)
    requires base + lim <= |names|
    ensures (forall k | base <= k < base + lim :: Search(names[k], names, base, lim) == Some(k)) <==>
            Increasing(names, base, base + lim)
  {
    forall k | base <= k < base + lim ensures Search(names[k], names, base, lim) == Some(k) <==> Reached(names, base, lim, k) {
      FoundAtPlace(names, base, lim, k);
    }
    hide Search, Reached, Increasing;
    if AllReached(names, base, lim) {
      ReachedIncrease(names, base, lim);
    }
    if Increasing(names, base, base + lim) {
      forall k | base <= k < base + lim ensures Reached(names, base, lim, k) {
        IncreasingReached(names, base, lim, k);
      }
    }
  }

  lemma {:induction false} IncreasingReached(names: seq<string>, base: nat, lim: nat, k: nat)
    requires base <= k < base + lim <= |names| && Increasing(names, base, base + lim)
    ensures Reached(names, base, lim, k)
  {
    hide Compare, Pivots;
    forall p | p in Pivots(base, lim, k) ensures SameSide(names, p, k) {
      if p < k { CompareIsAntisymmetric(names[p], names[k]); }
    }
  }

  lemma {:induction false} ReachedIncrease(names: seq<string>, base: nat, lim: nat)
    requires base + lim <= |names| && AllReached(names, base, lim)
    ensures Increasing(names, base, base + lim)
    decreases lim
  {
    if lim > 0 {
      var index := base + lim / 2;
      hide Increasing, AllReached, Compare;
      ReachedInHalves(names, base, lim);
      ReachedIncrease(names, base, lim / 2);
      ReachedIncrease(names, index + 1, (lim - 1) / 2);
      JoinIncreasing(names, base, index, base + lim);
    } else {
      hide AllReached, Compare;
    }
  }

  lemma {:induction false} ReachedInHalves(names: seq<string>, base: nat, lim: nat)
    requires base + lim <= |names| && AllReached(names, base, lim) && lim > 0
    ensures var index, half, other := base + lim / 2, lim / 2, (lim - 1) / 2;
            && index + 1 + other == base + lim && AllReached(names, base, half) && AllReached(names, index + 1, other)
            && (forall k | base <= k < index :: Compare(names[k], names[index]) < 0)
            && (forall k | index < k < base + lim :: Compare(names[index], names[k]) < 0)
  {
    hide Reached, Compare;
    var index := base + lim / 2;
    assert index + 1 + (lim - 1) / 2 == base + lim;
    forall k | base <= k < index ensures Compare(names[k], names[index]) < 0 && Reached(names, base, lim / 2, k) {
      ReachedStep(names, base, lim, k, index);
    }
    var next, other := index + 1, (lim - 1) / 2;
    forall k | next <= k < next + other ensures Compare(names[index], names[k]) < 0 && Reached(names, next, other, k)
    {
      ReachedStep(names, base, lim, k, index);
      CompareIsAntisymmetric(names[index], names[k]);
    }
  }

  lemma {:induction false} JoinIncreasing(names: seq<string>, start: nat, index: nat, end: nat)
    requires start <= index < end <= |names| && Increasing(names, start, index) && Increasing(names, index + 1, end)
    requires forall k | start <= k < index :: Compare(names[k], names[index]) < 0
    requires forall k | index < k < end :: Compare(names[index], names[k]) < 0
    ensures Increasing(names, start, end)
  {
    hide Compare;
    forall i, j | start <= i < j < end ensures Compare(names[i], names[j]) < 0 {
      if i < index && index < j { CompareIsTransitive(names[i], names[index], names[j]); }
    }
  }

  /** The search loop of the reader, which decodes the entries it looks at. */
  method Find(s: string, entries: seq<nat>, table: string, start: nat, end: nat, ghost names: seq<string>)
    returns (at: Option<nat>)
    requires start <= end <= |names| && Spells(entries, table, names)
    ensures at == Search(s, names, start, end - start)
    ensures at.Some? ==> start <= at.value < end && names[at.value] == s
    ensures at.None? && Ascending(names, start, end) ==> s !in names[start..end]
  {
    var base: nat, lim: nat := start, end - start;
    ghost var spec := Search(s, names, start, end - start);
    hide Search, Compare, Ascending, Decode, Spells;
    while lim != 0
      invariant start <= base && base + lim <= end
      invariant spec == Search(s, names, base, lim)
    {
      var index := base + lim / 2;
      SearchStep(s, names, base, lim, index);
      var result := CompareEntry(s, entries, table, index, names);
      if result == 0 {
        SearchIsSound(s, names, start, end - start);
        return Some(index);
      }
      base, lim := if result > 0 then index + 1 else base, (if result > 0 then lim - 1 else lim) / 2;
    }
    SearchNowhere(s, names, base);
    MissesNothing(s, names, start, end);
    return None;
  }

  method CompareEntry(s: string, entries: seq<nat>, table: string, index: nat, ghost names: seq<string>) returns (r: int)
    requires Spells(entries, table, names) && index < |names|
    ensures r == Compare(s, names[index])
  {
    hide Decode, Compare;
    r := CompareStringViews(s, Decode(entries[index], false, table).value);
  }

  lemma {:induction false} SearchStep(s: string, names: seq<string>, base: nat, lim: nat, index: nat)
    requires base + lim <= |names| && lim > 0 && index == base + lim / 2
    ensures index < base + lim && index + 1 + (lim - 1) / 2 == base + lim
    ensures Compare(s, names[index]) < 0 ==> Search(s, names, base, lim) == Search(s, names, base, lim / 2)
    ensures Compare(s, names[index]) > 0 ==> Search(s, names, base, lim) == Search(s, names, index + 1, (lim - 1) / 2)
    ensures Compare(s, names[index]) == 0 ==> Search(s, names, base, lim) == Some(index)
  {
    hide Compare;
  }

  lemma {:induction false} SearchNowhere(s: string, names: seq<string>, base: nat)
    requires base <= |names|
    ensures Search(s, names, base, 0) == None
  {
  }

  lemma {:induction false} MissesNothing(s: string, names: seq<string>, start: nat, end: nat)
    requires start <= end <= |names|
    ensures Ascending(names, start, end) && Search(s, names, start, end - start).None? ==> s !in names[start..end]
  {
    if Ascending(names, start, end) { SearchMissesNothing(s, names, start, end - start); }
  }
}
