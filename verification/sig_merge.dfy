/** Instruction signatures of tools/tablegen-x86.js: rows of operands, each a set of alternatives,
    and the merging of two rows that differ in one operand. */
module SigMerge {
  import opened Wrappers

  /** The keys of a flag object, in the order in which they were added. */
  type Flags = seq<string>

  /** What the instruction database knows about register names: the kind of a register (empty if the
      name is no register), and whether the name stands for one specific register. */
  datatype Registers = Registers(kind: string -> string, indexed: string -> bool)

  datatype Row = Row(x86: bool, x64: bool, implicit: nat, ops: seq<Flags>)

  // --- Merging operands ---

  predicate HasRegister(regs: Registers, af: Flags) {
    exists k | k in af :: regs.kind(k) != ""
  }

  /** The kind of the last specific register. */
  function IndexKind(regs: Registers, af: Flags): string {
    if af == [] then ""
    else if regs.indexed(af[|af| - 1]) then regs.kind(af[|af| - 1])
    else IndexKind(regs, af[..|af| - 1])
  }

  predicate CanMerge(regs: Registers, af: Flags, bf: Flags) {
    HasRegister(regs, af) ==> forall k | k in bf && regs.indexed(k) :: regs.kind(k) == IndexKind(regs, af)
  }

  function AddKey(af: Flags, k: string): Flags {
    if k in af then af else af + [k]
  }

  function AddKeys(af: Flags, bf: Flags): Flags {
    if bf == [] then af else AddKey(AddKeys(af, bf[..|bf| - 1]), bf[|bf| - 1])
  }

  function MergeFlags(regs: Registers, af: Flags, bf: Flags): Option<Flags> {
    if CanMerge(regs, af, bf) then Some(AddKeys(af, bf)) else None
  }

  lemma {:induction false} AddKeysIsUnion(af: Flags, bf: Flags)
    ensures forall k :: k in AddKeys(af, bf) <==> k in af || k in bf
  {
    if bf != [] {
      AddKeysIsUnion(af, bf[..|bf| - 1]);
      assert bf == bf[..|bf| - 1] + [bf[|bf| - 1]];
    }
  }

  // --- Merging rows ---

  predicate SameKeys(af: Flags, bf: Flags) {
    (forall k | k in af :: k in bf) && (forall k | k in bf :: k in af)
  }

  /** The only position, from `i` on, where the operands differ, if there is exactly one. */
  function OnlyDifference(a: seq<Flags>, b: seq<Flags>, i: nat, found: Option<nat>): Option<nat>
    requires |a| == |b| && i <= |a|
    decreases |a| - i
  {
    if i == |a| then found
    else if SameKeys(a[i], b[i]) then OnlyDifference(a, b, i + 1, found)
    else if found.None? then OnlyDifference(a, b, i + 1, Some(i))
    else None
  }

  lemma {:induction false} OnlyDifferenceIsOnly(a: seq<Flags>, b: seq<Flags>, i: nat, found: Option<nat>)
    requires |a| == |b| && i <= |a| && (found.Some? ==> found.value < i && !SameKeys(a[found.value], b[found.value]))
    requires forall k | 0 <= k < i && Some(k) != found :: SameKeys(a[k], b[k])
    ensures var r := OnlyDifference(a, b, i, found);
            r.Some? ==> r.value < |a| && !SameKeys(a[r.value], b[r.value]) &&
                        forall k | 0 <= k < |a| && k != r.value :: SameKeys(a[k], b[k])
    ensures OnlyDifference(a, b, i, found).None? ==>
            (forall k | 0 <= k < |a| :: SameKeys(a[k], b[k])) ||
            (exists j, k | 0 <= j < k < |a| :: !SameKeys(a[j], b[j]) && !SameKeys(a[k], b[k]))
    decreases |a| - i
  {
    if i < |a| {
      if SameKeys(a[i], b[i]) {
        OnlyDifferenceIsOnly(a, b, i + 1, found);
      } else if found.None? {
        OnlyDifferenceIsOnly(a, b, i + 1, Some(i));
      }
    }
  }

  function MergeRow(regs: Registers, a: Row, b: Row): Option<Row> {
    if a.x86 != b.x86 || a.x64 != b.x64 || a.implicit != b.implicit || |a.ops| != |b.ops| then None
    else
      var at := OnlyDifference(a.ops, b.ops, 0, None);
      if at.None? || at.value >= |a.ops| then None
      else
        var merged := MergeFlags(regs, a.ops[at.value], b.ops[at.value]);
        if merged.None? then None else Some(a.(ops := a.ops[at.value := merged.value]))
  }

  // --- Meaning ---

  /** A concrete use of an instruction: the mode flags of its row, and one alternative for each
      operand. */
  datatype Use = Use(x86: bool, x64: bool, implicit: nat, ops: seq<string>)

  ghost predicate RowAccepts(row: Row, u: Use) {
    && u.x86 == row.x86 && u.x64 == row.x64 && u.implicit == row.implicit && |u.ops| == |row.ops|
    && forall i | 0 <= i < |u.ops| :: u.ops[i] in row.ops[i]
  }

  ghost predicate Accepts(rows: seq<Row>, u: Use) {
    exists row | row in rows :: RowAccepts(row, u)
  }

  /** The merged row accepts what one of the two rows accepts, and nothing else. */
  lemma {:induction false} MergeKeepsMeaning(regs: Registers, a: Row, b: Row, u: Use)
    requires MergeRow(regs, a, b).Some?
    ensures RowAccepts(MergeRow(regs, a, b).value, u) <==> RowAccepts(a, u) || RowAccepts(b, u)
  {
    OnlyDifferenceIsOnly(a.ops, b.ops, 0, None);
    var x := OnlyDifference(a.ops, b.ops, 0, None).value;
    var m := MergeRow(regs, a, b).value;
    AddKeysIsUnion(a.ops[x], b.ops[x]);
    hide OnlyDifference, AddKeys, CanMerge;
    if RowAccepts(m, u) {
      assert u.ops[x] in m.ops[x];
      forall i | 0 <= i < |u.ops| && i != x ensures u.ops[i] in a.ops[i] && u.ops[i] in b.ops[i] {
        assert u.ops[i] in m.ops[i] && SameKeys(a.ops[i], b.ops[i]);
      }
    }
    if RowAccepts(b, u) {
      forall i | 0 <= i < |u.ops| ensures u.ops[i] in m.ops[i] {
        assert u.ops[i] in b.ops[i];
        if i != x { assert SameKeys(a.ops[i], b.ops[i]); }
      }
    }
    if RowAccepts(a, u) {
      forall i | 0 <= i < |u.ops| ensures u.ops[i] in m.ops[i] {
        assert u.ops[i] in a.ops[i];
      }
    }
  }

  /** Rows with the same operands are never merged, so duplicates stay. */
  lemma {:induction false} EqualRowsAreNotMerged(regs: Registers, a: Row, b: Row)
    requires |a.ops| == |b.ops| && forall i | 0 <= i < |a.ops| :: SameKeys(a.ops[i], b.ops[i])
    ensures MergeRow(regs, a, b) == None
  {
    if MergeRow(regs, a, b).Some? {
      OnlyDifferenceIsOnly(a.ops, b.ops, 0, None);
    }
  }

  // --- When rows merge ---

  function Keys(f: Flags): set<string> {
    set k | k in f
  }

  ghost predicate IsLastSpecific(regs: Registers, f: Flags, i: nat) {
    i < |f| && regs.indexed(f[i]) && forall j | i < j < |f| :: !regs.indexed(f[j])
  }

  /** The last specific register of the operand is of this kind; without one, the kind is empty. */
  ghost predicate LastIsOfKind(regs: Registers, f: Flags, kind: string) {
    || (exists i | 0 <= i < |f| :: IsLastSpecific(regs, f, i) && regs.kind(f[i]) == kind)
    || (kind == "" && forall k | k in f :: !regs.indexed(k))
  }

  lemma {:induction false} LastKind(regs: Registers, f: Flags, kind: string)
    ensures kind == IndexKind(regs, f) <==> LastIsOfKind(regs, f, kind)
  {
    if f != [] {
      var n := |f| - 1;
      assert f == f[..n] + [f[n]];
      LastKind(regs, f[..n], kind);
      if regs.indexed(f[n]) {
        assert IsLastSpecific(regs, f, n);
      } else {
        forall i: nat | i < n ensures IsLastSpecific(regs, f, i) <==> IsLastSpecific(regs, f[..n], i) {
          assert f[..n][i] == f[i];
        }
        assert forall i: nat | i < n :: f[..n][i] == f[i];
      }
    }
  }

  /** The first operand has no register, or the specific registers of the second are all of the kind of
      its last one. */
  ghost predicate MayJoin(regs: Registers, af: Flags, bf: Flags) {
    || (forall k | k in af :: regs.kind(k) == "")
    || (forall k | k in bf && regs.indexed(k) :: LastIsOfKind(regs, af, regs.kind(k)))
  }

  ghost predicate MayMergeAt(regs: Registers, a: Row, b: Row, x: nat) {
    && a.x86 == b.x86 && a.x64 == b.x64 && a.implicit == b.implicit && x < |a.ops| == |b.ops|
    && Keys(a.ops[x]) != Keys(b.ops[x]) && MayJoin(regs, a.ops[x], b.ops[x])
    && forall y | 0 <= y < |a.ops| && y != x :: Keys(a.ops[y]) == Keys(b.ops[y])
  }

  lemma {:induction false} MayJoinIsCanMerge(regs: Registers, af: Flags, bf: Flags)
    ensures CanMerge(regs, af, bf) <==> MayJoin(regs, af, bf)
  {
    forall k | k in bf && regs.indexed(k)
      ensures regs.kind(k) == IndexKind(regs, af) <==> LastIsOfKind(regs, af, regs.kind(k))
    {
      LastKind(regs, af, regs.kind(k));
    }
  }

  lemma {:induction false} SameKeysIsEquality(af: Flags, bf: Flags)
    ensures SameKeys(af, bf) <==> Keys(af) == Keys(bf)
  {
    if Keys(af) == Keys(bf) {
      forall k | k in af ensures k in bf { assert k in Keys(af); }
      forall k | k in bf ensures k in af { assert k in Keys(bf); }
    }
  }

  /** Rows merge exactly if they are alike but for the keys of one operand, which may join; the merged
      row has the keys of both there, those of the first row in front, and all else of the first row. */
  lemma {:induction false} MergesExactly(regs: Registers, a: Row, b: Row)
    ensures MergeRow(regs, a, b).Some? <==> exists x: nat :: MayMergeAt(regs, a, b, x)
    ensures forall x: nat | MayMergeAt(regs, a, b, x) :: IsMerged(MergeRow(regs, a, b), a, b, x)
  {
    if MergeRow(regs, a, b).Some? {
      var x := OnlyDifference(a.ops, b.ops, 0, None).value;
      OnlyDifferenceIsOnly(a.ops, b.ops, 0, None);
      hide OnlyDifference, CanMerge, MayJoin, SameKeys, Keys;
      SameKeysIsEquality(a.ops[x], b.ops[x]);
      MayJoinIsCanMerge(regs, a.ops[x], b.ops[x]);
      forall y | 0 <= y < |a.ops| && y != x ensures Keys(a.ops[y]) == Keys(b.ops[y]) {
        SameKeysIsEquality(a.ops[y], b.ops[y]);
      }
      assert MayMergeAt(regs, a, b, x);
    }
    forall x: nat | MayMergeAt(regs, a, b, x) ensures IsMerged(MergeRow(regs, a, b), a, b, x) {
      MergedIs(regs, a, b, x);
    }
  }

  ghost predicate IsMerged(m: Option<Row>, a: Row, b: Row, x: nat)
    requires x < |a.ops| == |b.ops|
  {
    && m.Some? && m.value == a.(ops := m.value.ops) && |m.value.ops| == |a.ops|
    && (forall y | 0 <= y < |a.ops| && y != x :: m.value.ops[y] == a.ops[y])
    && a.ops[x] <= m.value.ops[x] && Keys(m.value.ops[x]) == Keys(a.ops[x]) + Keys(b.ops[x])
  }

  lemma {:induction false} MergedIs(regs: Registers, a: Row, b: Row, x: nat)
    requires MayMergeAt(regs, a, b, x)
    ensures IsMerged(MergeRow(regs, a, b), a, b, x)
  {
    FindsTheDifference(a.ops, b.ops, x);
    MayJoinIsCanMerge(regs, a.ops[x], b.ops[x]);
    AddKeysIsUnion(a.ops[x], b.ops[x]);
    AddKeysInFront(a.ops[x], b.ops[x]);
    hide OnlyDifference, CanMerge, MayJoin, AddKeys;
    var f := AddKeys(a.ops[x], b.ops[x]);
    assert Keys(f) == Keys(a.ops[x]) + Keys(b.ops[x]);
  }

  lemma {:induction false} FindsTheDifference(a: seq<Flags>, b: seq<Flags>, x: nat)
    requires x < |a| == |b| && Keys(a[x]) != Keys(b[x])
    requires forall y | 0 <= y < |a| && y != x :: Keys(a[y]) == Keys(b[y])
    ensures OnlyDifference(a, b, 0, None) == Some(x)
  {
    forall y | 0 <= y < |a| ensures SameKeys(a[y], b[y]) <==> Keys(a[y]) == Keys(b[y]) {
      SameKeysIsEquality(a[y], b[y]);
    }
    hide OnlyDifference, SameKeys, Keys;
    OnlyDifferenceIsOnly(a, b, 0, None);
    assert !SameKeys(a[x], b[x]);
  }

  lemma {:induction false} AddKeysInFront(af: Flags, bf: Flags)
    ensures af <= AddKeys(af, bf)
  {
    if bf != [] { AddKeysInFront(af, bf[..|bf| - 1]); }
  }

  // --- Modifiers ---

  /** The flags that are no alternative of an operand but say something about all of them: that it is
      implicit, or which segment or base register its memory form has. */
  const MODIFIERS: set<string> := {"implicit", "memBase", "memDS", "memES", "memZAX", "memZSI", "memZDI"}

  function ModifiersOf(f: Flags): set<string> {
    set k | k in f && k in MODIFIERS
  }

  function Modifiers(row: Row): (r: seq<set<string>>)
    ensures |r| == |row.ops| && forall i | 0 <= i < |row.ops| :: r[i] == ModifiersOf(row.ops[i])
  {
    seq(|row.ops|, i requires 0 <= i < |row.ops| => ModifiersOf(row.ops[i]))
  }

  /** A use with the modifiers of its operands. */
  datatype ModifiedUse = ModifiedUse(plain: Use, modifiers: seq<set<string>>)

  ghost predicate RowAcceptsModified(row: Row, u: ModifiedUse) {
    RowAccepts(row, u.plain) && (forall k | k in u.plain.ops :: k !in MODIFIERS) && Modifiers(row) == u.modifiers
  }

  /** Every operand has an alternative. */
  ghost predicate Usable(row: Row) {
    forall i | 0 <= i < |row.ops| :: HasAlternative(row.ops[i])
  }

  ghost predicate HasAlternative(f: Flags) {
    exists k | k in f :: k !in MODIFIERS
  }

  ghost predicate MergeKeepsModifiers(m: Row, a: Row, b: Row) {
    forall u :: RowAcceptsModified(m, u) <==> RowAcceptsModified(a, u) || RowAcceptsModified(b, u)
  }

  ghost function Alternative(f: Flags): (k: string)
    requires HasAlternative(f)
    ensures k in f && k !in MODIFIERS
  {
    var k :| k in f && k !in MODIFIERS;
    k
  }

  lemma {:induction false} SomeUse(row: Row) returns (u: ModifiedUse)
    requires Usable(row)
    ensures RowAcceptsModified(row, u)
  {
    var ops := seq(|row.ops|, i requires 0 <= i < |row.ops| => Alternative(row.ops[i]));
    u := ModifiedUse(Use(row.x86, row.x64, row.implicit, ops), Modifiers(row));
  }

  lemma {:induction false} AcceptedIsUsable(row: Row, u: ModifiedUse)
    requires RowAccepts(row, u.plain) && forall k | k in u.plain.ops :: k !in MODIFIERS
    ensures Usable(row)
  {
    forall i | 0 <= i < |row.ops| ensures HasAlternative(row.ops[i]) {
      var k := u.plain.ops[i];
      assert k in u.plain.ops && k in row.ops[i];
    }
  }

  /** With modifiers told apart, a merge keeps the meaning exactly if both rows have the modifiers of
      the merged one; a row that cannot be used does not count. */
  lemma {:induction false} WhenMergeKeepsModifiers(regs: Registers, a: Row, b: Row)
    requires MergeRow(regs, a, b).Some?
    ensures var m := MergeRow(regs, a, b).value;
            MergeKeepsModifiers(m, a, b) <==>
            (Usable(a) ==> Modifiers(a) == Modifiers(m)) && (Usable(b) ==> Modifiers(b) == Modifiers(m))
  {
    var m := MergeRow(regs, a, b).value;
    hide MergeRow, RowAccepts, Usable, Modifiers;
    if MergeKeepsModifiers(m, a, b) {
      if Usable(a) { var u := SomeUse(a); assert RowAcceptsModified(m, u); }
      if Usable(b) { var u := SomeUse(b); assert RowAcceptsModified(m, u); }
    }
    if (Usable(a) ==> Modifiers(a) == Modifiers(m)) && (Usable(b) ==> Modifiers(b) == Modifiers(m)) {
      forall u ensures RowAcceptsModified(m, u) <==> RowAcceptsModified(a, u) || RowAcceptsModified(b, u) {
        MergeKeepsMeaning(regs, a, b, u.plain);
        if forall k | k in u.plain.ops :: k !in MODIFIERS {
          if RowAccepts(a, u.plain) { AcceptedIsUsable(a, u); }
          if RowAccepts(b, u.plain) { AcceptedIsUsable(b, u); }
        }
      }
    }
  }

  /** Merging adds up the modifiers, and so keeps equal ones. */
  lemma {:induction false} MergedModifiers(regs: Registers, a: Row, b: Row)
    requires MergeRow(regs, a, b).Some?
    ensures var m := MergeRow(regs, a, b).value;
            && |a.ops| == |b.ops| == |m.ops|
            && (forall i | 0 <= i < |a.ops| :: Modifiers(m)[i] == Modifiers(a)[i] + Modifiers(b)[i])
            && (Modifiers(a) == Modifiers(b) ==> Modifiers(m) == Modifiers(a))
  {
    OnlyDifferenceIsOnly(a.ops, b.ops, 0, None);
    var x := OnlyDifference(a.ops, b.ops, 0, None).value;
    AddKeysIsUnion(a.ops[x], b.ops[x]);
    hide OnlyDifference, AddKeys, CanMerge;
    forall i | 0 <= i < |a.ops| && i != x ensures ModifiersOf(a.ops[i]) == ModifiersOf(b.ops[i]) {
      assert SameKeys(a.ops[i], b.ops[i]);
    }
    var m := MergeRow(regs, a, b).value;
    assert forall i | 0 <= i < |a.ops| :: Modifiers(m)[i] == Modifiers(a)[i] + Modifiers(b)[i];
    hide ModifiersOf, MergeRow;
    if Modifiers(a) == Modifiers(b) {
      assert forall i | 0 <= i < |a.ops| :: Modifiers(m)[i] == Modifiers(a)[i];
      assert Modifiers(m) == Modifiers(a);
    }
  }

  /** Two rows that can be used keep their meaning in a merge exactly if their modifiers agree. */
  lemma {:induction false} UsableRowsNeedSameModifiers(regs: Registers, a: Row, b: Row)
    requires MergeRow(regs, a, b).Some? && Usable(a) && Usable(b)
    ensures MergeKeepsModifiers(MergeRow(regs, a, b).value, a, b) <==> Modifiers(a) == Modifiers(b)
  {
    var m := MergeRow(regs, a, b).value;
    hide MergeRow, MergeKeepsModifiers, Usable, ModifiersOf;
    WhenMergeKeepsModifiers(regs, a, b);
    MergedModifiers(regs, a, b);
  }

  /** It does happen that they do not. */
  lemma {:induction false} MergeMixesModifiers(regs: Registers)
    requires !regs.indexed("m8") && !regs.indexed("memES")
    ensures var a, b := Row(true, true, 0, [["m8", "memDS"]]), Row(true, true, 0, [["m8", "memES"]]);
            && Usable(a) && Usable(b) && MergeRow(regs, a, b) == Some(Row(true, true, 0, [["m8", "memDS", "memES"]]))
            && !MergeKeepsModifiers(MergeRow(regs, a, b).value, a, b)
  {
    var a, b := Row(true, true, 0, [["m8", "memDS"]]), Row(true, true, 0, [["m8", "memES"]]);
    var af, bf: Flags := a.ops[0], b.ops[0];
    assert "memES" in bf && "memES" !in af && "memDS" in af;
    assert "m8" in af && "m8" in bf && "m8" !in MODIFIERS;
    assert bf[..1] == ["m8"] && bf[..1][..0] == [];
    assert AddKeys(af, bf) == ["m8", "memDS", "memES"];
    assert OnlyDifference(a.ops, b.ops, 0, None) == Some(0);
    assert "memES" in ModifiersOf(bf) && "memES" !in ModifiersOf(af);
    assert Modifiers(a)[0] != Modifiers(b)[0];
    assert CanMerge(regs, af, bf);
    assert MergeFlags(regs, af, bf) == Some(["m8", "memDS", "memES"]);
    assert a.ops[0 := ["m8", "memDS", "memES"]] == [["m8", "memDS", "memES"]];
    assert MergeRow(regs, a, b) == Some(Row(true, true, 0, [["m8", "memDS", "memES"]]));
    assert HasAlternative(af) && HasAlternative(bf);
    assert Usable(a) && Usable(b);
    hide MergeRow, MergeKeepsModifiers, Modifiers;
    UsableRowsNeedSameModifiers(regs, a, b);
  }

  // --- When merging is symmetric ---

  /** A specific register is a register. */
  ghost predicate GoodRegisters(regs: Registers) {
    forall k :: regs.indexed(k) ==> regs.kind(k) != ""
  }

  /** All specific registers of an operand are of one kind. */
  ghost predicate OneKind(regs: Registers, f: Flags) {
    forall k | k in f && regs.indexed(k) :: regs.kind(k) == IndexKind(regs, f)
  }

  lemma {:induction false} IndexKindIsThere(regs: Registers, f: Flags)
    requires GoodRegisters(regs)
    ensures IndexKind(regs, f) == "" <==> forall k | k in f :: !regs.indexed(k)
    ensures IndexKind(regs, f) != "" ==> exists k | k in f :: regs.indexed(k) && regs.kind(k) == IndexKind(regs, f)
  {
    if f != [] {
      IndexKindIsThere(regs, f[..|f| - 1]);
      assert f == f[..|f| - 1] + [f[|f| - 1]];
    }
  }

  /** Operands begin with one register, and merging keeps them at one kind of specific registers. */
  lemma {:induction false} MergeKeepsOneKind(regs: Registers, af: Flags, bf: Flags)
    requires GoodRegisters(regs) && OneKind(regs, af) && OneKind(regs, bf) && CanMerge(regs, af, bf)
    ensures OneKind(regs, AddKeys(af, bf))
  {
    var f := AddKeys(af, bf);
    AddKeysIsUnion(af, bf);
    IndexKindIsThere(regs, af);
    IndexKindIsThere(regs, bf);
    IndexKindIsThere(regs, f);
    hide AddKeys, IndexKind;
    forall k | k in f && regs.indexed(k) ensures regs.kind(k) == IndexKind(regs, f) {
      var l :| l in f && regs.indexed(l) && regs.kind(l) == IndexKind(regs, f);
      assert HasRegister(regs, af) || !exists r | r in af :: regs.indexed(r);
    }
  }

  /** Which of two operands takes in the other does not matter, unless both have registers and only
      one of them a specific register. */
  lemma {:induction false} MergeSymmetry(regs: Registers, af: Flags, bf: Flags)
    requires GoodRegisters(regs) && OneKind(regs, af) && OneKind(regs, bf)
    ensures (CanMerge(regs, af, bf) <==> CanMerge(regs, bf, af)) <==>
            !(HasRegister(regs, af) && HasRegister(regs, bf)
              && ((exists k | k in af :: regs.indexed(k)) <==> !(exists k | k in bf :: regs.indexed(k))))
  {
    IndexKindIsThere(regs, af);
    IndexKindIsThere(regs, bf);
    hide IndexKind;
  }

  /** A specific register (such as `eax`) is not merged into an operand of any register of its kind
      (such as `r32`), but the other way round it is. */
  lemma {:induction false} MergeIsAsymmetric(regs: Registers, any: string, one: string)
    requires regs.kind(any) == regs.kind(one) != "" && !regs.indexed(any) && regs.indexed(one)
    ensures !CanMerge(regs, [any], [one]) && CanMerge(regs, [one], [any])
  {
    var a, b: Flags := [any], [one];
    assert a[..|a| - 1] == [] && a[|a| - 1] == any && b[|b| - 1] == one;
    assert any in a && one in b;
    assert IndexKind(regs, []) == "";
    assert IndexKind(regs, a) == "";
    assert IndexKind(regs, b) == regs.kind(one);
    assert HasRegister(regs, a);
  }
}
