/** The choice of jump targets in the register allocation benchmark
    (asmjit-testing/bench/asmjit_bench_regalloc.cpp): no label is used more than twice. */
module LabelPicker {

  function Sum(used: seq<nat>): nat {
    if used == [] then 0 else Sum(used[..|used| - 1]) + used[|used| - 1]
  }

  lemma {:induction false} SumOfUpdate(used: seq<nat>, id: nat)
    requires id < |used|
    ensures Sum(used[id := used[id] + 1]) == Sum(used) + 1
  {
    var more := used[id := used[id] + 1];
    var n := |used| - 1;
    if id == n {
      assert more[..n] == used[..n];
    } else {
      SumOfUpdate(used[..n], id);
      assert more[..n] == used[..n][id := used[id] + 1];
    }
  }

  /** Fewer uses than labels leave a label unused. */
  lemma {:induction false} SomeIsUnused(used: seq<nat>) returns (id: nat)
    requires Sum(used) < |used|
    ensures id < |used| && used[id] == 0
  {
    var n := |used| - 1;
    if used[n] == 0 { id := n; } else { id := SomeIsUnused(used[..n]); }
  }

  /** The label that is unused and comes first in the order 1, 2, ..., 0. */
  ghost predicate FirstUnused(used: seq<nat>, id: nat) {
    && id < |used| && used[id] == 0
    && forall k | 0 < k < |used| && (id == 0 || k < id) :: used[k] != 0
  }

  /** The drawn label, unless it has been used twice already. */
  ghost predicate Choice(used: seq<nat>, draw: nat, id: nat)
    requires used != []
  {
    if used[draw % |used|] <= 1 then id == draw % |used| else FirstUnused(used, id)
  }

  lemma {:induction false} OnlyOneChoice(used: seq<nat>, draw: nat, a: nat, b: nat)
    requires used != [] && Choice(used, draw, a) && Choice(used, draw, b)
    ensures a == b
  {
  }

  class UsedLabels {
    const usedLabels: array<nat>

    constructor (complexity: nat)
      ensures fresh(usedLabels) && usedLabels[..] == seq(complexity, _ => 0)
    {
      usedLabels := new nat[complexity](_ => 0);
    }

    /** The scan ends exactly when the drawn label can be taken or another one is unused. */
    method NextLabel(draw: nat) returns (id: nat)
      requires usedLabels.Length > 0
      requires usedLabels[draw % usedLabels.Length] <= 1 || exists k :: 0 <= k < usedLabels.Length && usedLabels[k] == 0
      modifies usedLabels
      ensures id < usedLabels.Length && Choice(old(usedLabels[..]), draw, id)
      ensures usedLabels[..] == old(usedLabels[..])[id := old(usedLabels[id]) + 1]
    {
      id := draw % usedLabels.Length;
      if usedLabels[id] > 1 {
        id := Scan();
      }
      usedLabels[id] := usedLabels[id] + 1;
    }

    method Scan() returns (id: nat)
      requires exists k :: 0 <= k < usedLabels.Length && usedLabels[k] == 0
      ensures FirstUnused(usedLabels[..], id)
    {
      ghost var unused :| 0 <= unused < usedLabels.Length && usedLabels[unused] == 0;
      id := 0;
      var first := true;
      while first || usedLabels[id] != 0
        invariant id < usedLabels.Length
        invariant first ==> id == 0
        invariant !first ==> forall k | 0 < k < usedLabels.Length && (id == 0 || k < id) :: usedLabels[k] != 0
        decreases if first then usedLabels.Length + 1 else if id == 0 then 0 else usedLabels.Length - id
      {
        first := false;
        id := id + 1;
        if id >= usedLabels.Length {
          id := 0;
        }
      }
    }
  }

  /** How often each of the labels was picked. */
  function Counts(ids: seq<nat>, n: nat): (counts: seq<nat>)
    requires forall i | 0 <= i < |ids| :: ids[i] < n
    ensures |counts| == n
  {
    if ids == [] then seq(n, _ => 0)
    else
      var counts := Counts(ids[..|ids| - 1], n);
      counts[ids[|ids| - 1] := counts[ids[|ids| - 1]] + 1]
  }

  lemma {:induction false} CountsAreUses(ids: seq<nat>, n: nat, id: nat)
    requires (forall i | 0 <= i < |ids| :: ids[i] < n) && id < n
    ensures Counts(ids, n)[id] == multiset(ids)[id]
  {
    if ids != [] {
      CountsAreUses(ids[..|ids| - 1], n, id);
      assert ids == ids[..|ids| - 1] + [ids[|ids| - 1]];
    }
  }

  lemma {:induction false} SumOfCounts(ids: seq<nat>, n: nat)
    requires forall i | 0 <= i < |ids| :: ids[i] < n
    ensures Sum(Counts(ids, n)) == |ids|
  {
    if ids == [] {
      SumOfZeros(n);
    } else {
      SumOfCounts(ids[..|ids| - 1], n);
      SumOfUpdate(Counts(ids[..|ids| - 1], n), ids[|ids| - 1]);
    }
  }

  lemma {:induction false} SumOfZeros(n: nat)
    ensures Sum(seq(n, _ => 0)) == 0
  {
    if n > 0 {
      SumOfZeros(n - 1);
      assert seq(n, _ => 0)[..n - 1] == seq(n - 1, _ => 0);
    }
  }

  /** Every pick follows the rule, given the picks before it, and no label is used more than twice. */
  ghost predicate GoodPicks(ids: seq<nat>, draws: seq<nat>, n: nat) {
    && |ids| <= |draws| && (forall i | 0 <= i < |ids| :: ids[i] < n)
    && (forall i | 0 <= i < |ids| :: Choice(Counts(ids[..i], n), draws[i], ids[i]))
    && (forall id | 0 <= id < n :: Counts(ids, n)[id] <= 2)
  }

  lemma {:induction false} NoPicks(draws: seq<nat>, n: nat)
    ensures GoodPicks([], draws, n) && Counts([], n) == seq(n, _ => 0)
  {
  }

  lemma {:induction false} NextPick(ids: seq<nat>, draws: seq<nat>, n: nat, id: nat)
    requires GoodPicks(ids, draws, n) && |ids| < |draws| && n > 0 && id < n && Choice(Counts(ids, n), draws[|ids|], id)
    ensures GoodPicks(ids + [id], draws, n) && Counts(ids + [id], n) == Counts(ids, n)[id := Counts(ids, n)[id] + 1]
  {
    hide Choice;
    var more := ids + [id];
    CountsOfNext(ids, n, id);
    forall i | 0 <= i < |more| ensures Choice(Counts(more[..i], n), draws[i], more[i]) {
      if i < |ids| { assert more[..i] == ids[..i]; } else { assert more[..i] == ids; }
    }
    hide Counts;
    assert Counts(ids, n)[id] <= 1 by { ChoiceIsFree(Counts(ids, n), draws[|ids|], id); }
  }

  lemma {:induction false} CountsOfNext(ids: seq<nat>, n: nat, id: nat)
    requires (forall i | 0 <= i < |ids| :: ids[i] < n) && id < n
    ensures Counts(ids + [id], n) == Counts(ids, n)[id := Counts(ids, n)[id] + 1]
  {
    assert (ids + [id])[..|ids|] == ids;
  }

  lemma {:induction false} ChoiceIsFree(used: seq<nat>, draw: nat, id: nat)
    requires used != [] && Choice(used, draw, id) && id < |used|
    ensures used[id] <= 1
  {
  }

  /** The draws determine the picks. */
  lemma {:induction false} PicksAreDetermined(a: seq<nat>, b: seq<nat>, draws: seq<nat>, n: nat)
    requires n > 0 && GoodPicks(a, draws, n) && GoodPicks(b, draws, n) && |a| == |b|
    ensures a == b
  {
    forall i | 0 <= i < |a| ensures a[i] == b[i] {
      SamePrefix(a, b, draws, n, i + 1);
    }
  }

  lemma {:induction false} SamePrefix(a: seq<nat>, b: seq<nat>, draws: seq<nat>, n: nat, i: nat)
    requires n > 0 && GoodPicks(a, draws, n) && GoodPicks(b, draws, n) && i <= |a| && i <= |b|
    ensures a[..i] == b[..i]
  {
    hide Choice, Counts;
    if i > 0 {
      SamePrefix(a, b, draws, n, i - 1);
      OnlyOneChoice(Counts(a[..i - 1], n), draws[i - 1], a[i - 1], b[i - 1]);
      assert a[..i] == a[..i - 1] + [a[i - 1]] && b[..i] == b[..i - 1] + [b[i - 1]];
    }
  }

  lemma {:induction false} SomeIsLeft(ids: seq<nat>, draws: seq<nat>, n: nat) returns (id: nat)
    requires GoodPicks(ids, draws, n) && |ids| < n
    ensures id < n && Counts(ids, n)[id] == 0
  {
    SumOfCounts(ids, n);
    hide Choice, Counts, Sum;
    id := SomeIsUnused(Counts(ids, n));
  }

  lemma {:induction false} AtMostTwice(ids: seq<nat>, draws: seq<nat>, n: nat, id: nat)
    requires GoodPicks(ids, draws, n)
    ensures multiset(ids)[id] <= 2
  {
    hide Choice, Counts;
    if id in multiset(ids) { CountsAreUses(ids, n, id); }
  }

  /** One label is picked for each label, whatever is drawn: every pick ends, and no label is picked
      more than twice. */
  method PickAll(complexity: nat, draws: seq<nat>) returns (ids: seq<nat>)
    requires |draws| == complexity
    ensures |ids| == complexity && GoodPicks(ids, draws, complexity)
    ensures forall id :: multiset(ids)[id] <= 2
  {
    var picker := new UsedLabels(complexity);
    ids := [];
    var i := 0;
    NoPicks(draws, complexity);
    hide GoodPicks, Choice, Counts;
    while i < complexity
      invariant i <= complexity && |ids| == i && fresh(picker.usedLabels) && GoodPicks(ids, draws, complexity)
      invariant forall k | 0 <= k < |ids| :: ids[k] < complexity
      invariant picker.usedLabels[..] == Counts(ids, complexity)
    {
      ghost var unused := SomeIsLeft(ids, draws, complexity);
      assert picker.usedLabels[unused] == picker.usedLabels[..][unused];
      var id := picker.NextLabel(draws[i]);
      NextPick(ids, draws, complexity, id);
      ids := ids + [id];
      i := i + 1;
    }
    forall id ensures multiset(ids)[id] <= 2 {
      AtMostTwice(ids, draws, complexity, id);
    }
  }
}
