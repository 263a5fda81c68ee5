/** The mutable signature objects of tools/tablegen-x86.js, proved against the functions of SigMerge
    and SigCompact. */
module SigArray {
  import opened SigMerge
  import opened SigCompact
  import opened Wrappers

  class OSignature {
    var flags: Flags

    constructor (flags: Flags)
      ensures this.flags == flags
    {
      this.flags := flags;
    }

    /** Adds the flags of `other`, unless specific registers of different kinds would mix. */
    method MergeWith(regs: Registers, other: OSignature) returns (ok: bool)
      requires this != other
      modifies this
      ensures var m := MergeFlags(regs, old(flags), other.flags);
              ok == m.Some? && flags == if ok then m.value else old(flags)
    {
      var hasReg, indexKind := ScanRegisters(regs);
      if hasReg {
        var i := 0;
        while i < |other.flags|
          invariant i <= |other.flags|
          invariant forall k | 0 <= k < i && regs.indexed(other.flags[k]) :: regs.kind(other.flags[k]) == indexKind
        {
          var k := other.flags[i];
          if regs.indexed(k) && indexKind != regs.kind(k) { return false; }
          i := i + 1;
        }
      }
      AddAll(other);
      ok := true;
    }

    method ScanRegisters(regs: Registers) returns (hasReg: bool, indexKind: string)
      ensures hasReg == HasRegister(regs, flags) && indexKind == IndexKind(regs, flags)
    {
      hasReg, indexKind := false, "";
      var i := 0;
      while i < |flags|
        invariant i <= |flags|
        invariant hasReg <==> exists k | 0 <= k < i :: regs.kind(flags[k]) != ""
        invariant indexKind == IndexKind(regs, flags[..i])
      {
        assert flags[..i + 1][..i] == flags[..i];
        if regs.kind(flags[i]) != "" { hasReg := true; }
        if regs.indexed(flags[i]) { indexKind := regs.kind(flags[i]); }
        i := i + 1;
      }
      assert flags[..i] == flags;
    }

    method AddAll(other: OSignature)
      requires this != other
      modifies this
      ensures flags == AddKeys(old(flags), other.flags)
    {
      var i := 0;
      while i < |other.flags|
        invariant i <= |other.flags| && flags == AddKeys(old(flags), other.flags[..i])
      {
        assert other.flags[..i + 1][..i] == other.flags[..i];
        flags := AddKey(flags, other.flags[i]);
        i := i + 1;
      }
      assert other.flags[..i] == other.flags;
    }
  }

  class ISignature {
    const x86: bool
    const x64: bool
    const implicit: nat
    const ops: seq<OSignature>

    constructor (x86: bool, x64: bool, implicit: nat, ops: seq<OSignature>)
      ensures this.x86 == x86 && this.x64 == x64 && this.implicit == implicit && this.ops == ops
    {
      this.x86, this.x64, this.implicit, this.ops := x86, x64, implicit, ops;
    }

    /** The row that the object stands for. */
    ghost function View(): (r: Row)
      reads ops
    {
      Row(x86, x64, implicit, OpsView(ops))
    }

    /** The only operand that differs, or -1. */
    method FindDifference(other: ISignature) returns (xorIndex: int)
      requires |ops| == |other.ops|
      ensures -1 <= xorIndex < |ops|
      ensures OnlyDifference(OpsView(ops), OpsView(other.ops), 0, None) == if xorIndex == -1 then None else Some(xorIndex)
    {
      ghost var a, b := OpsView(ops), OpsView(other.ops);
      var i := 0;
      xorIndex := -1;
      while i < |ops|
        invariant i <= |ops| && -1 <= xorIndex < i
        invariant OnlyDifference(a, b, 0, None)
               == OnlyDifference(a, b, i, if xorIndex == -1 then None else Some(xorIndex))
      {
        if !SameKeys(ops[i].flags, other.ops[i].flags) {
          if xorIndex != -1 { return -1; }
          xorIndex := i;
        }
        i := i + 1;
      }
    }

    /** Merges `other` into this row, if they differ in one operand and its flags can be merged. */
    method MergeWith(regs: Registers, other: ISignature) returns (ok: bool)
      requires Apart(this, other) && Distinct(ops)
      modifies ops
      ensures var m := MergeRow(regs, old(View()), old(other.View()));
              ok == m.Some? && View() == if ok then m.value else old(View())
    {
      hide OnlyDifference, MergeFlags;
      if x86 != other.x86 || x64 != other.x64 || implicit != other.implicit || |ops| != |other.ops| { return false; }
      var xorIndex := FindDifference(other);
      if xorIndex == -1 { return false; }
      ok := MergeAt(regs, other, xorIndex);
    }

    method MergeAt(regs: Registers, other: ISignature, x: nat) returns (ok: bool)
      requires x < |ops| == |other.ops| && Apart(this, other) && Distinct(ops)
      modifies ops
      ensures var m := MergeFlags(regs, old(OpsView(ops))[x], old(OpsView(other.ops))[x]);
              && ok == m.Some?
              && OpsView(ops) == if ok then old(OpsView(ops))[x := m.value] else old(OpsView(ops))
    {
      hide MergeFlags, OpsView;
      ghost var a := OpsView(ops);
      assert ops[x] in ops && other.ops[x] in other.ops;
      ok := ops[x].MergeWith(regs, other.ops[x]);
      assert forall i | 0 <= i < |ops| && i != x :: ops[i].flags == a[i];
      assert OpsView(ops) == a[x := ops[x].flags];
    }
  }

  // --- The array ---

  /** The operand objects of the rows. */
  ghost function Objects(rows: seq<ISignature>): set<OSignature> {
    set s, o | s in rows && o in s.ops :: o
  }

  ghost function View(rows: seq<ISignature>): (r: seq<Row>)
    reads Objects(rows)
    ensures |r| == |rows|
  {
    if rows == [] then []
    else
      assert Objects(rows[1..]) <= Objects(rows);
      assert forall o | o in rows[0].ops :: o in Objects(rows);
      [rows[0].View()] + View(rows[1..])
  }

  lemma {:induction false} ViewCons(s: ISignature, rows: seq<ISignature>)
    ensures View([s] + rows) == [s.View()] + View(rows)
  {
    assert ([s] + rows)[1..] == rows;
  }

  lemma {:induction false} ViewSnoc(rows: seq<ISignature>, s: ISignature)
    ensures View(rows + [s]) == View(rows) + [s.View()]
  {
    ViewAppend(rows, [s]);
    ViewCons(s, []);
    assert [s] + [] == [s];
  }

  lemma {:induction false} ViewAppend(a: seq<ISignature>, b: seq<ISignature>)
    ensures View(a + b) == View(a) + View(b)
  {
    if a == [] {
      assert a + b == b;
    } else {
      assert (a + b)[1..] == a[1..] + b;
      ViewAppend(a[1..], b);
    }
  }

  twostate lemma {:induction false} OpsUnchanged(ops: seq<OSignature>)
    requires forall o | o in ops :: o.flags == old(o.flags)
    ensures OpsView(ops) == old(OpsView(ops))
  {
    if ops != [] { OpsUnchanged(ops[1..]); }
  }

  twostate lemma {:induction false} ViewUnchanged(rows: seq<ISignature>)
    requires forall o | o in Objects(rows) :: o.flags == old(o.flags)
    ensures View(rows) == old(View(rows))
  {
    if rows != [] {
      assert forall o | o in rows[0].ops || o in Objects(rows[1..]) :: o in Objects(rows);
      OpsUnchanged(rows[0].ops);
      ViewUnchanged(rows[1..]);
    }
  }

  /** No operand object occurs twice. */
  ghost predicate Separate(rows: seq<ISignature>) {
    && (forall i, j | 0 <= i < j < |rows| :: Apart(rows[i], rows[j]))
    && (forall i | 0 <= i < |rows| :: Distinct(rows[i].ops))
  }

  ghost predicate Apart(s: ISignature, t: ISignature) {
    forall o | o in s.ops :: o !in t.ops
  }

  ghost predicate Distinct(ops: seq<OSignature>) {
    forall p, q | 0 <= p < q < |ops| :: ops[p] != ops[q]
  }

  lemma {:induction false} SeparateWithout(rows: seq<ISignature>, j: nat)
    requires j < |rows| && Separate(rows)
    ensures Separate(rows[..j] + rows[j + 1..])
  {
  }

  class SignatureArray {
    var rows: seq<ISignature>

    constructor (rows: seq<ISignature>)
      ensures this.rows == rows
    {
      this.rows := rows;
    }

    /** Merges rows until none can be merged with a later one. */
    method CompactRows(regs: Registers)
      requires Separate(rows)
      modifies this, Objects(rows)
      ensures View(rows) == Compact(regs, old(View(rows)))
      ensures Separate(rows) && Among(rows, old(rows))
    {
      var didSomething := true;
      ghost var goal := Compact(regs, View(rows));
      while didSomething
        invariant Separate(rows) && Among(rows, old(rows))
        invariant if didSomething then Compact(regs, View(rows)) == goal else View(rows) == goal
        decreases |rows|, didSomething
      {
        didSomething := OnePass(regs);
      }
    }

    method OnePass(regs: Registers) returns (didSomething: bool)
      requires Separate(rows)
      modifies this, Objects(rows)
      ensures View(rows) == Pass(regs, old(View(rows)))
      ensures didSomething <==> |rows| < old(|rows|)
      ensures Separate(rows) && Among(rows, old(rows))
    {
      ghost var goal := Pass(regs, View(rows));
      didSomething := false;
      var i := 0;
      assert rows[..0] == [] && rows[0..] == rows;
      assert View([]) == [];
      AmongItself(rows);
      hide Pass, AbsorbLater, Separate, View, Among, Objects;
      while i < |rows|
        invariant i <= |rows| <= old(|rows|) && (didSomething <==> |rows| < old(|rows|))
        invariant Separate(rows) && Among(rows, old(rows))
        invariant goal == View(rows[..i]) + Pass(regs, View(rows[i..]))
        decreases |rows| - i
      {
        AmongObjects(rows, i, old(rows));
        ghost var before := rows;
        var did := PassAt(regs, i, rows[i], goal);
        AmongMore(rows, before, old(rows));
        didSomething := didSomething || did;
        i := i + 1;
      }
      assert rows[..i] == rows && rows[i..] == [];
      PassOfNothing(regs);
      NoRows();
    }

    method PassAt(regs: Registers, i: nat, row: ISignature, ghost goal: seq<Row>) returns (didSomething: bool)
      requires i < |rows| && row == rows[i] && Separate(rows)
      requires goal == View(rows[..i]) + Pass(regs, View(rows[i..]))
      modifies this, row.ops
      ensures i < |rows| <= old(|rows|) && (didSomething <==> |rows| < old(|rows|))
      ensures Separate(rows) && Among(rows, old(rows))
      ensures goal == View(rows[..i + 1]) + Pass(regs, View(rows[i + 1..]))
    {
      ghost var before, later := rows[..i], rows[i + 1..];
      assert rows[i..] == [row] + later;
      ObjectsApart(row, before, rows, i, 0);
      hide AbsorbLater, View, Pass, Separate, Apart, Among, Objects;
      ViewCons(row, later);
      PassStep(regs, View(before), row.View(), View(later), goal);
      label start:
      didSomething := AbsorbInto(regs, i, row);
      ViewUnchanged@start(before);
      assert rows[..i + 1] == before + [row];
      ViewSnoc(before, row);
    }

    /** Merges into row `i` what can be merged of the rows after it, and removes those. */
    method AbsorbInto(regs: Registers, i: nat, row: ISignature) returns (didSomething: bool)
      requires i < |rows| && row == rows[i] && Separate(rows)
      modifies this, row.ops
      ensures i < |rows| <= old(|rows|) && (didSomething <==> |rows| < old(|rows|))
      ensures Separate(rows) && Among(rows, old(rows)) && rows[..i] == old(rows[..i]) && rows[i] == row
      ensures AbsorbLater(regs, old(row.View()), old(View(rows[i + 1..]))) == (row.View(), View(rows[i + 1..]))
    {
      didSomething := false;
      var j := i + 1;
      ghost var start, kept, ahead: seq<ISignature> := rows, [], rows[j..];
      ghost var goal := AbsorbLater(regs, row.View(), View(ahead));
      AbsorbStart(regs, row.View(), View(ahead));
      AmongItself(rows);
      StartParts(rows, i);
      hide AbsorbLater, Absorbing, Separate, Among, Apart, Objects, View, Parts;
      while j < |rows|
        invariant i < j <= |rows| <= |start| && (didSomething <==> |rows| < |start|)
        invariant Parts(rows, start[..i], row, kept, ahead) && |ahead| == |rows| - j
        invariant Separate(rows) && Among(rows, start)
        invariant Absorbing(regs, row.View(), View(kept), View(ahead), goal)
        decreases |rows| - j
      {
        NextAhead(rows, start[..i], row, kept, ahead, j);
        var merged;
        merged, kept := AbsorbOne(regs, row, j, start[..i], kept, ahead[1..], start, goal);
        ahead := ahead[1..];
        if merged {
          didSomething := true;
        } else {
          j := j + 1;
        }
      }
      RowsAfter(rows, start[..i], row, kept, ahead);
      AbsorbEnd(regs, row.View(), View(kept), goal);
    }

    /** Tries to merge row `j` into `row`; a merged row is removed. */
    method AbsorbOne(regs: Registers, row: ISignature, j: nat, ghost before: seq<ISignature>, ghost kept: seq<ISignature>,
                     ghost later: seq<ISignature>, ghost start: seq<ISignature>, ghost goal: (Row, seq<Row>))
      returns (merged: bool, ghost kept': seq<ISignature>)
      requires j == |before| + 1 + |kept| < |rows| && Parts(rows, before, row, kept, [rows[j]] + later)
      requires Separate(rows) && Among(rows, start)
      requires Absorbing(regs, row.View(), View(kept), View([rows[j]] + later), goal)
      modifies this, row.ops
      ensures kept' == (if merged then kept else kept + [old(rows[j])]) && Parts(rows, before, row, kept', later)
      ensures |rows| == |before| + 1 + |kept'| + |later|
      ensures Separate(rows) && Among(rows, start)
      ensures Absorbing(regs, row.View(), View(kept'), View(later), goal)
    {
      hide Absorbing, Separate, View, Apart, Among, Objects, Distinct;
      var other := rows[j];
      AbsorbOneParts(before, row, kept, other, later, start);
      RowsWithout(before, row, kept, other, later);
      merged := MergeOther(regs, row, other, kept, later, goal);
      kept' := if merged then kept else kept + [other];
      if merged { rows := rows[..j] + rows[j + 1..]; }
    }
  }

  /** Tries to merge `other` into `row`, which has passed over the rows `kept`. */
  method MergeOther(regs: Registers, row: ISignature, other: ISignature, ghost kept: seq<ISignature>,
                    ghost later: seq<ISignature>, ghost goal: (Row, seq<Row>)) returns (merged: bool)
    requires Apart(row, other) && Distinct(row.ops)
    requires forall o | o in Objects(kept) :: o !in row.ops
    requires forall o | o in Objects(later) :: o !in row.ops
    requires Absorbing(regs, row.View(), View(kept), View([other] + later), goal)
    modifies row.ops
    ensures Absorbing(regs, row.View(), View(if merged then kept else kept + [other]), View(later), goal)
  {
    OpsApart(row, other);
    hide Absorbing, MergeRow, View, Apart, Objects, Distinct;
    ViewCons(other, later);
    AbsorbStep(regs, row.View(), View(kept), other.View(), View(later), goal);
    merged := row.MergeWith(regs, other);
    ViewUnchanged(later);
    ViewUnchanged(kept);
    OpsUnchanged(other.ops);
    ViewSnoc(kept, other);
  }

  lemma {:induction false} RowsWithout(before: seq<ISignature>, row: ISignature, kept: seq<ISignature>,
                                       other: ISignature, later: seq<ISignature>)
    ensures var rows, j := before + [row] + kept + ([other] + later), |before| + 1 + |kept|;
            && rows[..j] + rows[j + 1..] == before + [row] + kept + later
            && rows == before + [row] + (kept + [other]) + later
  {
  }

  /** The array is a row, what is before it, what it has passed over, and what is ahead. */
  ghost predicate Parts(rows: seq<ISignature>, before: seq<ISignature>, row: ISignature,
                        kept: seq<ISignature>, ahead: seq<ISignature>) {
    rows == before + [row] + kept + ahead
  }

  lemma {:induction false} StartParts(rows: seq<ISignature>, i: nat)
    requires i < |rows|
    ensures Parts(rows, rows[..i], rows[i], [], rows[i + 1..])
  {
  }

  lemma {:induction false} NextAhead(rows: seq<ISignature>, before: seq<ISignature>, row: ISignature,
                                     kept: seq<ISignature>, ahead: seq<ISignature>, j: nat)
    requires Parts(rows, before, row, kept, ahead) && j < |rows| && |ahead| == |rows| - j
    ensures j == |before| + 1 + |kept| && ahead == [rows[j]] + ahead[1..]
  {
  }

  lemma {:induction false} RowsAfter(rows: seq<ISignature>, before: seq<ISignature>, row: ISignature,
                                     kept: seq<ISignature>, ahead: seq<ISignature>)
    requires Parts(rows, before, row, kept, ahead) && ahead == []
    ensures |rows| > |before| && rows[..|before|] == before && rows[|before|] == row && rows[|before| + 1..] == kept
  {
  }

  /** What merging `other` into `row` cannot touch, and what removing `other` keeps. */
  lemma {:induction false} AbsorbOneParts(before: seq<ISignature>, row: ISignature, kept: seq<ISignature>,
                                          other: ISignature, later: seq<ISignature>, start: seq<ISignature>)
    requires Separate(before + [row] + kept + ([other] + later)) && Among(before + [row] + kept + ([other] + later), start)
    ensures Separate(before + [row] + kept + later) && Among(before + [row] + kept + later, start)
    ensures Apart(row, other) && Distinct(row.ops)
    ensures forall o | o in Objects(kept) :: o !in row.ops
    ensures forall o | o in Objects(later) :: o !in row.ops
  {
    var rows, i, j := before + [row] + kept + ([other] + later), |before|, |before| + 1 + |kept|;
    assert rows[i] == row && rows[j] == other;
    assert rows[..j] + rows[j + 1..] == before + [row] + kept + later;
    assert kept == rows[i + 1..i + 1 + |kept|] && later == rows[j + 1..j + 1 + |later|];
    SeparateWithout(rows, j);
    AmongItself(rows);
    assert Apart(rows[i], rows[j]) && Distinct(rows[i].ops);
    ObjectsApart(row, kept, rows, i, i + 1);
    ObjectsApart(row, later, rows, i, j + 1);
  }

  ghost predicate Among(a: seq<ISignature>, b: seq<ISignature>) {
    forall s | s in a :: s in b
  }

  lemma {:induction false} AmongItself(rows: seq<ISignature>)
    ensures Among(rows, rows)
    ensures forall j | 0 <= j < |rows| :: Among(rows[..j] + rows[j + 1..], rows)
  {
  }

  lemma {:induction false} AmongMore(a: seq<ISignature>, b: seq<ISignature>, c: seq<ISignature>)
    requires Among(a, b) && Among(b, c)
    ensures Among(a, c)
  {
  }

  lemma {:induction false} AmongObjects(a: seq<ISignature>, i: nat, b: seq<ISignature>)
    requires i < |a| && Among(a, b)
    ensures forall o | o in a[i].ops :: o in Objects(b)
  {
  }

  lemma {:induction false} NoRows()
    ensures View([]) == []
  {
  }

  lemma {:induction false} OpsApart(row: ISignature, other: ISignature)
    requires Apart(row, other)
    ensures forall o | o in other.ops :: o !in row.ops
  {
  }

  /** The rows of a stretch that does not contain row `i` share no operand object with it. */
  lemma {:induction false} ObjectsApart(row: ISignature, part: seq<ISignature>, rows: seq<ISignature>, i: nat, from: nat)
    requires i < |rows| && rows[i] == row && from + |part| <= |rows| && part == rows[from..from + |part|]
    requires (i < from || from + |part| <= i) && Separate(rows)
    ensures forall o | o in Objects(part) :: o !in row.ops
  {
    forall o | o in Objects(part) ensures o !in row.ops {
      var s :| s in part && o in s.ops;
      var k :| 0 <= k < |part| && part[k] == s;
      assert if i < from then Apart(rows[i], rows[from + k]) else Apart(rows[from + k], rows[i]);
    }
  }

  ghost function OpsView(ops: seq<OSignature>): (r: seq<Flags>)
    reads ops
    ensures |r| == |ops| && forall i | 0 <= i < |ops| :: r[i] == ops[i].flags
  {
    if ops == [] then [] else [ops[0].flags] + OpsView(ops[1..])
  }
}
