/** The signature rows of an instruction and their compaction, as tools/tablegen-x86.js does it: by
    merging flags and removing rows in place until nothing changes. */
module SigCompact {
  import opened SigMerge
  import opened Wrappers

  // --- Compaction as a function ---

  /** A row absorbs what it can of the later rows, first to last. */
  function AbsorbLater(regs: Registers, row: Row, later: seq<Row>): (r: (Row, seq<Row>))
    ensures |r.1| <= |later|
    decreases |later|
  {
    if later == [] then (row, [])
    else
      var m := MergeRow(regs, row, later[0]);
      if m.Some? then AbsorbLater(regs, m.value, later[1..])
      else
        var r := AbsorbLater(regs, row, later[1..]);
        (r.0, [later[0]] + r.1)
  }

  function Pass(regs: Registers, rows: seq<Row>): (r: seq<Row>)
    ensures |r| <= |rows|
    decreases |rows|
  {
    if rows == [] then []
    else
      var r := AbsorbLater(regs, rows[0], rows[1..]);
      [r.0] + Pass(regs, r.1)
  }

  function Compact(regs: Registers, rows: seq<Row>): (r: seq<Row>)
    ensures |r| <= |rows|
    decreases |rows|
  {
    var p := Pass(regs, rows);
    if |p| < |rows| then Compact(regs, p) else p
  }

  lemma {:induction false} PassOfNothing(regs: Registers)
    ensures Pass(regs, []) == []
  {
  }

  lemma {:induction false} PassUnfold(regs: Registers, row: Row, later: seq<Row>)
    ensures var r := AbsorbLater(regs, row, later);
            Pass(regs, [row] + later) == [r.0] + Pass(regs, r.1)
  {
    assert ([row] + later)[1..] == later;
  }

  lemma {:induction false} PassStep(regs: Registers, done: seq<Row>, row: Row, later: seq<Row>, goal: seq<Row>)
    requires goal == done + Pass(regs, [row] + later)
    ensures var r := AbsorbLater(regs, row, later); goal == done + [r.0] + Pass(regs, r.1)
  {
    hide AbsorbLater, Pass;
    PassUnfold(regs, row, later);
    var r := AbsorbLater(regs, row, later);
    assert done + ([r.0] + Pass(regs, r.1)) == done + [r.0] + Pass(regs, r.1);
  }

  /** A row on its way: it has absorbed what it could of the rows before `later`, `kept` are those it
      could not, and the goal is what it ends with. */
  predicate Absorbing(regs: Registers, row: Row, kept: seq<Row>, later: seq<Row>, goal: (Row, seq<Row>)) {
    var r := AbsorbLater(regs, row, later);
    goal == (r.0, kept + r.1)
  }

  lemma {:induction false} AbsorbStart(regs: Registers, row: Row, later: seq<Row>)
    ensures Absorbing(regs, row, [], later, AbsorbLater(regs, row, later))
  {
    assert [] + AbsorbLater(regs, row, later).1 == AbsorbLater(regs, row, later).1;
  }

  lemma {:induction false} AbsorbStep(regs: Registers, row: Row, kept: seq<Row>, next: Row, later: seq<Row>, goal: (Row, seq<Row>))
    requires Absorbing(regs, row, kept, [next] + later, goal)
    ensures var m := MergeRow(regs, row, next);
            if m.Some? then Absorbing(regs, m.value, kept, later, goal)
            else Absorbing(regs, row, kept + [next], later, goal)
  {
    hide MergeRow;
    assert ([next] + later)[1..] == later;
    var rest := AbsorbLater(regs, row, later).1;
    assert kept + ([next] + rest) == kept + [next] + rest;
  }

  lemma {:induction false} AbsorbEnd(regs: Registers, row: Row, kept: seq<Row>, goal: (Row, seq<Row>))
    requires Absorbing(regs, row, kept, [], goal)
    ensures goal == (row, kept)
  {
    assert kept + [] == kept;
  }

  // --- Compaction keeps the meaning ---

  lemma {:induction false} AcceptsCons(row: Row, rows: seq<Row>, u: Use)
    ensures Accepts([row] + rows, u) <==> RowAccepts(row, u) || Accepts(rows, u)
  {
    assert forall r :: r in [row] + rows <==> r == row || r in rows;
  }

  lemma {:induction false} AbsorbKeepsMeaning(regs: Registers, row: Row, later: seq<Row>, u: Use)
    ensures var r := AbsorbLater(regs, row, later);
            Accepts([r.0] + r.1, u) <==> Accepts([row] + later, u)
    decreases |later|
  {
    hide MergeRow, RowAccepts, Accepts;
    AcceptsCons(row, later, u);
    var r := AbsorbLater(regs, row, later);
    AcceptsCons(r.0, r.1, u);
    if later != [] {
      var m := MergeRow(regs, row, later[0]);
      AcceptsCons(later[0], later[1..], u);
      assert later == [later[0]] + later[1..];
      var next := if m.Some? then m.value else row;
      AbsorbKeepsMeaning(regs, next, later[1..], u);
      AcceptsCons(next, later[1..], u);
      var rest := AbsorbLater(regs, next, later[1..]);
      AcceptsCons(rest.0, rest.1, u);
      if m.Some? {
        MergeKeepsMeaning(regs, row, later[0], u);
      } else {
        AcceptsCons(later[0], rest.1, u);
      }
    }
  }

  lemma {:induction false} PassKeepsMeaning(regs: Registers, rows: seq<Row>, u: Use)
    ensures Accepts(Pass(regs, rows), u) <==> Accepts(rows, u)
    decreases |rows|
  {
    hide RowAccepts, Accepts, AbsorbLater;
    if rows != [] {
      var r := AbsorbLater(regs, rows[0], rows[1..]);
      AbsorbKeepsMeaning(regs, rows[0], rows[1..], u);
      assert rows == [rows[0]] + rows[1..];
      PassKeepsMeaning(regs, r.1, u);
      AcceptsCons(r.0, r.1, u);
      AcceptsCons(r.0, Pass(regs, r.1), u);
    }
  }

  /** The compacted rows accept exactly what the rows accepted. */
  lemma {:induction false} CompactKeepsMeaning(regs: Registers, rows: seq<Row>, u: Use)
    ensures Accepts(Compact(regs, rows), u) <==> Accepts(rows, u)
    decreases |rows|
  {
    hide RowAccepts, Accepts, Pass;
    PassKeepsMeaning(regs, rows, u);
    if |Pass(regs, rows)| < |rows| { CompactKeepsMeaning(regs, Pass(regs, rows), u); }
  }

  // --- Modifiers ---

  /** All rows that look like the use have its modifiers. */
  ghost predicate RowsHave(rows: seq<Row>, u: ModifiedUse) {
    forall row | row in rows && LooksLike(row, u.plain) :: Modifiers(row) == u.modifiers
  }

  predicate LooksLike(row: Row, u: Use) {
    u.x86 == row.x86 && u.x64 == row.x64 && u.implicit == row.implicit && |u.ops| == |row.ops|
  }

  lemma {:induction false} MergedRowHas(regs: Registers, a: Row, b: Row, u: ModifiedUse)
    requires MergeRow(regs, a, b).Some? && RowsHave([a], u) && RowsHave([b], u)
    ensures RowsHave([MergeRow(regs, a, b).value], u)
  {
    var m := MergeRow(regs, a, b).value;
    MergedModifiers(regs, a, b);
    assert a in [a] && b in [b];
    assert LooksLike(m, u.plain) ==> LooksLike(a, u.plain) && LooksLike(b, u.plain);
    hide MergeRow, Modifiers;
  }

  lemma {:induction false} HaveCons(row: Row, rows: seq<Row>, u: ModifiedUse)
    ensures RowsHave([row] + rows, u) <==> RowsHave([row], u) && RowsHave(rows, u)
  {
    assert forall r :: r in [row] + rows <==> r in [row] || r in rows;
  }

  lemma {:induction false} AbsorbHas(regs: Registers, row: Row, later: seq<Row>, u: ModifiedUse)
    requires RowsHave([row], u) && RowsHave(later, u)
    ensures var r := AbsorbLater(regs, row, later); RowsHave([r.0], u) && RowsHave(r.1, u)
    decreases |later|
  {
    hide MergeRow, RowsHave;
    if later != [] {
      assert later == [later[0]] + later[1..];
      HaveCons(later[0], later[1..], u);
      var m := MergeRow(regs, row, later[0]);
      if m.Some? {
        MergedRowHas(regs, row, later[0], u);
        AbsorbHas(regs, m.value, later[1..], u);
      } else {
        AbsorbHas(regs, row, later[1..], u);
        HaveCons(later[0], AbsorbLater(regs, row, later[1..]).1, u);
      }
    }
  }

  lemma {:induction false} PassHas(regs: Registers, rows: seq<Row>, u: ModifiedUse)
    requires RowsHave(rows, u)
    ensures RowsHave(Pass(regs, rows), u)
    decreases |rows|
  {
    hide AbsorbLater, RowsHave;
    if rows != [] {
      var r := AbsorbLater(regs, rows[0], rows[1..]);
      assert rows == [rows[0]] + rows[1..];
      HaveCons(rows[0], rows[1..], u);
      AbsorbHas(regs, rows[0], rows[1..], u);
      PassHas(regs, r.1, u);
      HaveCons(r.0, Pass(regs, r.1), u);
    }
  }

  lemma {:induction false} CompactHas(regs: Registers, rows: seq<Row>, u: ModifiedUse)
    requires RowsHave(rows, u)
    ensures RowsHave(Compact(regs, rows), u)
    decreases |rows|
  {
    hide Pass, RowsHave;
    PassHas(regs, rows, u);
    if |Pass(regs, rows)| < |rows| { CompactHas(regs, Pass(regs, rows), u); }
  }

  ghost predicate AcceptsModified(rows: seq<Row>, u: ModifiedUse) {
    exists row | row in rows :: RowAcceptsModified(row, u)
  }

  lemma {:induction false} AcceptedWithItsModifiers(rows: seq<Row>, u: ModifiedUse)
    requires RowsHave(rows, u)
    ensures AcceptsModified(rows, u) <==> Accepts(rows, u.plain) && forall k | k in u.plain.ops :: k !in MODIFIERS
  {
    hide Modifiers;
    if Accepts(rows, u.plain) && forall k | k in u.plain.ops :: k !in MODIFIERS {
      var row :| row in rows && RowAccepts(row, u.plain);
      assert LooksLike(row, u.plain) && RowAcceptsModified(row, u);
    }
  }

  /** Where the rows that look alike agree on modifiers, compaction keeps the meaning with modifiers
      told apart. */
  lemma {:induction false} CompactKeepsModifiers(regs: Registers, rows: seq<Row>, u: ModifiedUse)
    requires forall a, b | a in rows && b in rows && LooksLike(a, u.plain) && LooksLike(b, u.plain) :: Modifiers(a) == Modifiers(b)
    ensures AcceptsModified(Compact(regs, rows), u) <==> AcceptsModified(rows, u)
  {
    hide Compact, Modifiers, RowAccepts;
    if !exists a :: a in rows && LooksLike(a, u.plain) {
      CompactHas(regs, rows, u);
      KeepsModified(regs, rows, u);
    } else {
      var a :| a in rows && LooksLike(a, u.plain);
      var v := u.(modifiers := Modifiers(a));
      CompactHas(regs, rows, v);
      KeepsModified(regs, rows, v);
      if v != u {
        NotWithOthers(rows, v, u);
        NotWithOthers(Compact(regs, rows), v, u);
      }
    }
  }

  lemma {:induction false} KeepsModified(regs: Registers, rows: seq<Row>, u: ModifiedUse)
    requires RowsHave(rows, u) && RowsHave(Compact(regs, rows), u)
    ensures AcceptsModified(Compact(regs, rows), u) <==> AcceptsModified(rows, u)
  {
    hide Compact, RowsHave, AcceptsModified, Accepts;
    CompactKeepsMeaning(regs, rows, u.plain);
    AcceptedWithItsModifiers(rows, u);
    AcceptedWithItsModifiers(Compact(regs, rows), u);
  }

  lemma {:induction false} NotWithOthers(rows: seq<Row>, v: ModifiedUse, u: ModifiedUse)
    requires RowsHave(rows, v) && u.plain == v.plain && u != v
    ensures !AcceptsModified(rows, u)
  {
    hide Modifiers;
  }

  // --- Nothing is left to merge ---

  ghost predicate Stable(regs: Registers, rows: seq<Row>) {
    forall i, j | 0 <= i < j < |rows| :: MergeRow(regs, rows[i], rows[j]) == None
  }

  lemma {:induction false} AbsorbNothing(regs: Registers, row: Row, later: seq<Row>)
    requires |AbsorbLater(regs, row, later).1| == |later|
    ensures AbsorbLater(regs, row, later) == (row, later)
    ensures forall j | 0 <= j < |later| :: MergeRow(regs, row, later[j]) == None
  {
    if later != [] {
      hide MergeRow;
      assert later == [later[0]] + later[1..];
      AbsorbNothing(regs, row, later[1..]);
      forall j | 0 <= j < |later| ensures MergeRow(regs, row, later[j]) == None {
        if j > 0 { assert later[j] == later[1..][j - 1]; }
      }
    }
  }

  lemma {:induction false} PassOfSameLength(regs: Registers, rows: seq<Row>)
    requires |Pass(regs, rows)| == |rows|
    ensures Pass(regs, rows) == rows && Stable(regs, rows)
    decreases |rows|
  {
    if rows != [] {
      hide MergeRow, AbsorbLater;
      AbsorbNothing(regs, rows[0], rows[1..]);
      PassOfSameLength(regs, rows[1..]);
      forall i, j | 0 <= i < j < |rows| ensures MergeRow(regs, rows[i], rows[j]) == None {
        assert rows[j] == rows[1..][j - 1];
        if i > 0 { assert rows[i] == rows[1..][i - 1]; }
      }
    }
  }

  /** After compaction no row could absorb a later one. */
  lemma {:induction false} CompactIsStable(regs: Registers, rows: seq<Row>)
    ensures Stable(regs, Compact(regs, rows)) && |Compact(regs, rows)| <= |rows|
    decreases |rows|
  {
    hide Pass, Stable;
    if |Pass(regs, rows)| < |rows| {
      CompactIsStable(regs, Pass(regs, rows));
    } else {
      PassOfSameLength(regs, rows);
    }
  }

  /** Of the compacted rows, no two are alike but for the keys of one operand that may join. */
  lemma {:induction false} NothingMayMerge(regs: Registers, rows: seq<Row>, i: nat, j: nat, x: nat)
    requires i < j < |Compact(regs, rows)|
    ensures !MayMergeAt(regs, Compact(regs, rows)[i], Compact(regs, rows)[j], x)
  {
    hide Compact, MergeRow, MayMergeAt;
    CompactIsStable(regs, rows);
    MergesExactly(regs, Compact(regs, rows)[i], Compact(regs, rows)[j]);
  }

  /** Compacting again changes nothing. */
  lemma {:induction false} CompactIsIdempotent(regs: Registers, rows: seq<Row>)
    ensures Compact(regs, Compact(regs, rows)) == Compact(regs, rows)
  {
    CompactIsStable(regs, rows);
    StableIsCompact(regs, Compact(regs, rows));
  }

  lemma {:induction false} StableIsCompact(regs: Registers, rows: seq<Row>)
    requires Stable(regs, rows)
    ensures Compact(regs, rows) == rows
  {
    PassOfStable(regs, rows);
  }

  lemma {:induction false} PassOfStable(regs: Registers, rows: seq<Row>)
    requires Stable(regs, rows)
    ensures Pass(regs, rows) == rows
    decreases |rows|
  {
    if rows != [] {
      hide MergeRow;
      forall j | 0 <= j < |rows| - 1 ensures MergeRow(regs, rows[0], rows[1..][j]) == None {
        assert rows[1..][j] == rows[j + 1];
      }
      AbsorbsNone(regs, rows[0], rows[1..]);
      forall i, j | 0 <= i < j < |rows| - 1 ensures MergeRow(regs, rows[1..][i], rows[1..][j]) == None {
        assert rows[1..][i] == rows[i + 1] && rows[1..][j] == rows[j + 1];
      }
      PassOfStable(regs, rows[1..]);
    }
  }

  lemma {:induction false} AbsorbsNone(regs: Registers, row: Row, later: seq<Row>)
    requires forall j | 0 <= j < |later| :: MergeRow(regs, row, later[j]) == None
    ensures AbsorbLater(regs, row, later) == (row, later)
  {
    if later != [] {
      hide MergeRow;
      assert later == [later[0]] + later[1..];
      AbsorbsNone(regs, row, later[1..]);
    }
  }

  // --- Compaction is a run of merges ---

  /** Row `j` is merged into the earlier row `i`, whose operand `x` gets the keys of both, and is removed. */
  ghost predicate MergedAt(regs: Registers, rows: seq<Row>, out: seq<Row>, i: nat, j: nat, x: nat) {
    && i < j < |rows| && |out| == |rows| - 1
    && MayMergeAt(regs, rows[i], rows[j], x) && IsMerged(Some(out[i]), rows[i], rows[j], x)
    && out == rows[..i] + [out[i]] + rows[i + 1..j] + rows[j + 1..]
  }

  ghost predicate Step(regs: Registers, rows: seq<Row>, out: seq<Row>) {
    exists i: nat, j: nat, x: nat :: MergedAt(regs, rows, out, i, j, x)
  }

  /** There are `n` such steps from the first rows to the second. */
  ghost predicate Reaches(regs: Registers, rows: seq<Row>, out: seq<Row>, n: nat)
    decreases n
  {
    if n == 0 then rows == out
    else exists mid :: Step(regs, rows, mid) && Reaches(regs, mid, out, n - 1)
  }

  lemma {:induction false} FirstStep(regs: Registers, rows: seq<Row>, mid: seq<Row>, out: seq<Row>, n: nat)
    requires Step(regs, rows, mid) && Reaches(regs, mid, out, n)
    ensures Reaches(regs, rows, out, n + 1)
  {
  }

  lemma {:induction false} NoStep(regs: Registers, rows: seq<Row>, out: seq<Row>)
    ensures Reaches(regs, rows, out, 0) <==> rows == out
  {
  }

  lemma {:induction false} NextOf(regs: Registers, rows: seq<Row>, out: seq<Row>, n: nat) returns (next: seq<Row>)
    requires n > 0 && Reaches(regs, rows, out, n)
    ensures Step(regs, rows, next) && Reaches(regs, next, out, n - 1)
  {
    hide Step;
    next :| Step(regs, rows, next) && Reaches(regs, next, out, n - 1);
  }

  lemma {:induction false} ReachesFurther(regs: Registers, rows: seq<Row>, mid: seq<Row>, out: seq<Row>, m: nat, n: nat)
    requires Reaches(regs, rows, mid, m) && Reaches(regs, mid, out, n)
    ensures Reaches(regs, rows, out, m + n)
    decreases m
  {
    hide Reaches, Step;
    if m == 0 {
      NoStep(regs, rows, mid);
    } else {
      var next := NextOf(regs, rows, mid, m);
      ReachesFurther(regs, next, mid, out, m - 1, n);
      FirstStep(regs, rows, next, out, m - 1 + n);
    }
  }

  lemma {:induction false} MergeIsAStep(regs: Registers, before: seq<Row>, row: Row, kept: seq<Row>, other: Row, later: seq<Row>)
    requires MergeRow(regs, row, other).Some?
    ensures Step(regs, before + [row] + kept + ([other] + later), before + [MergeRow(regs, row, other).value] + kept + later)
  {
    hide MergeRow;
    MergesExactly(regs, row, other);
    var x: nat :| MayMergeAt(regs, row, other, x);
    hide MayMergeAt;
    var m := MergeRow(regs, row, other).value;
    var rows, out := before + [row] + kept + ([other] + later), before + [m] + kept + later;
    var i, j := |before|, |before| + 1 + |kept|;
    assert rows[i] == row && rows[j] == other && out[i] == m;
    assert rows[..i] == before && rows[i + 1..j] == kept && rows[j + 1..] == later;
    assert MergedAt(regs, rows, out, i, j, x);
  }

  lemma {:induction false} AbsorbReaches(regs: Registers, before: seq<Row>, row: Row, kept: seq<Row>, later: seq<Row>)
    ensures var r := AbsorbLater(regs, row, later);
            Reaches(regs, before + [row] + kept + later, before + [r.0] + kept + r.1, |later| - |r.1|)
    decreases |later|
  {
    hide MergeRow, Step;
    var r := AbsorbLater(regs, row, later);
    if later == [] {
      NoStep(regs, before + [row] + kept + later, before + [r.0] + kept + r.1);
    } else {
      hide Reaches;
      var m := MergeRow(regs, row, later[0]);
      assert later == [later[0]] + later[1..];
      if m.Some? {
        MergeIsAStep(regs, before, row, kept, later[0], later[1..]);
        AbsorbReaches(regs, before, m.value, kept, later[1..]);
        FirstStep(regs, before + [row] + kept + later, before + [m.value] + kept + later[1..],
                  before + [r.0] + kept + r.1, |later| - 1 - |r.1|);
      } else {
        AbsorbReaches(regs, before, row, kept + [later[0]], later[1..]);
        var rest := AbsorbLater(regs, row, later[1..]).1;
        assert before + [row] + (kept + [later[0]]) + later[1..] == before + [row] + kept + later;
        assert before + [r.0] + (kept + [later[0]]) + rest == before + [r.0] + kept + r.1;
      }
    }
  }

  lemma {:induction false} PassReaches(regs: Registers, before: seq<Row>, rows: seq<Row>)
    ensures Reaches(regs, before + rows, before + Pass(regs, rows), |rows| - |Pass(regs, rows)|)
    decreases |rows|
  {
    hide AbsorbLater, Step;
    if rows != [] {
      hide Reaches;
      var r := AbsorbLater(regs, rows[0], rows[1..]);
      var p := Pass(regs, r.1);
      AbsorbReaches(regs, before, rows[0], [], rows[1..]);
      PassReaches(regs, before + [r.0], r.1);
      assert before + [rows[0]] + [] + rows[1..] == before + rows;
      assert before + [r.0] + [] + r.1 == before + [r.0] + r.1;
      assert before + [r.0] + p == before + Pass(regs, rows);
      ReachesFurther(regs, before + rows, before + [r.0] + r.1, before + [r.0] + p, |rows| - 1 - |r.1|, |r.1| - |p|);
    }
  }

  /** The compacted rows come from the rows by legal merges, one for each row that is gone; no merge of an
      earlier row with a later one is left. */
  lemma {:induction false} CompactIsARun(regs: Registers, rows: seq<Row>)
    ensures Reaches(regs, rows, Compact(regs, rows), |rows| - |Compact(regs, rows)|)
    ensures forall out :: !Step(regs, Compact(regs, rows), out)
    decreases |rows|
  {
    hide Pass, Reaches, Step;
    var p, c := Pass(regs, rows), Compact(regs, rows);
    PassReaches(regs, [], rows);
    assert [] + rows == rows && [] + p == p;
    if |p| < |rows| {
      CompactIsARun(regs, p);
      ReachesFurther(regs, rows, p, c, |rows| - |p|, |p| - |c|);
    }
    forall out ensures !Step(regs, c, out) {
      NoStepIsLeft(regs, rows, out);
    }
  }

  lemma {:induction false} NoStepIsLeft(regs: Registers, rows: seq<Row>, out: seq<Row>)
    ensures !Step(regs, Compact(regs, rows), out)
  {
    hide Compact, MayMergeAt, IsMerged;
    var c := Compact(regs, rows);
    if Step(regs, c, out) {
      var i: nat, j: nat, x: nat :| MergedAt(regs, c, out, i, j, x);
      NothingMayMerge(regs, rows, i, j, x);
    }
  }
}
