/** What the emitted rows of tools/tablegen-x86.js mean to the reader (asmjit/x86/x86instapi.cpp), which
    finds one set of types and one register mask for each operand. */
module SigEncoding {
  import opened SigMerge
  import opened Wrappers

  /** The types and the bits of the register mask that are emitted for a flag, and which types are
      registers. */
  datatype Encoding = Encoding(types: string -> set<string>, mask: string -> set<nat>, isRegister: string -> bool)

  datatype Operand = Operand(types: set<string>, mask: set<nat>)

  function Encode(e: Encoding, f: Flags): Operand {
    if f == [] then Operand({}, {})
    else
      var init, k := Encode(e, f[..|f| - 1]), f[|f| - 1];
      Operand(init.types + e.types(k), init.mask + e.mask(k))
  }

  function Joined(a: Operand, b: Operand): Operand {
    Operand(a.types + b.types, a.mask + b.mask)
  }

  /** A register of a type, or anything that has one of several types: an immediate, a memory operand,
      or a register that has not been assigned. */
  datatype OperandUse = RegisterUse(kind: string, id: nat) | OtherUse(types: set<string>)

  predicate ValidUse(e: Encoding, u: OperandUse) {
    u.RegisterUse? ==> e.isRegister(u.kind)
  }

  /** The reader's test: a type in common, and for a register that its bit is in the mask, if there is
      a mask. */
  predicate OperandAccepts(op: Operand, u: OperandUse) {
    match u
    case RegisterUse(kind, id) => kind in op.types && (op.mask == {} || id in op.mask)
    case OtherUse(types) => types * op.types != {}
  }

  // --- The encoding of merged flags ---

  lemma {:induction false} EncodeMembers(e: Encoding, f: Flags)
    ensures forall t :: t in Encode(e, f).types <==> exists k | k in f :: t in e.types(k)
    ensures forall i :: i in Encode(e, f).mask <==> exists k | k in f :: i in e.mask(k)
  {
    if f != [] {
      EncodeMembers(e, f[..|f| - 1]);
      assert f == f[..|f| - 1] + [f[|f| - 1]];
    }
  }

  lemma {:induction false} SameEncoding(e: Encoding, af: Flags, bf: Flags)
    requires SameKeys(af, bf)
    ensures Encode(e, af) == Encode(e, bf)
  {
    EncodeMembers(e, af);
    EncodeMembers(e, bf);
    hide Encode;
    assert Encode(e, af).types == Encode(e, bf).types && Encode(e, af).mask == Encode(e, bf).mask;
  }

  lemma {:induction false} MergedEncoding(e: Encoding, af: Flags, bf: Flags)
    ensures Encode(e, AddKeys(af, bf)) == Joined(Encode(e, af), Encode(e, bf))
  {
    var f := AddKeys(af, bf);
    AddKeysIsUnion(af, bf);
    EncodeMembers(e, af);
    EncodeMembers(e, bf);
    EncodeMembers(e, f);
    hide Encode, AddKeys;
    var a, b, m := Encode(e, af), Encode(e, bf), Encode(e, f);
    assert m.types == a.types + b.types && m.mask == a.mask + b.mask;
  }

  // --- When one mask can stand for two ---

  function RegisterTypes(e: Encoding, op: Operand): set<string> {
    set t | t in op.types && e.isRegister(t)
  }

  /** Neither operand has a mask; or both do, and a register type that only one of them has finds no
      more in the other's mask; or the one without a mask has no registers. */
  predicate MasksFit(e: Encoding, a: Operand, b: Operand) {
    var ta, tb := RegisterTypes(e, a), RegisterTypes(e, b);
    if a.mask == {} && b.mask == {} then true
    else if a.mask == {} then ta == {}
    else if b.mask == {} then tb == {}
    else (ta <= tb || b.mask <= a.mask) && (tb <= ta || a.mask <= b.mask)
  }

  ghost predicate KeepsUses(e: Encoding, a: Operand, b: Operand) {
    forall u | ValidUse(e, u) :: OperandAccepts(Joined(a, b), u) <==> OperandAccepts(a, u) || OperandAccepts(b, u)
  }

  lemma {:induction false} Unmasked(mask: set<nat>) returns (id: nat)
    ensures id !in mask
  {
    if mask == {} {
      id := 0;
    } else {
      var m := Highest(mask);
      id := m + 1;
    }
  }

  lemma {:induction false} Highest(mask: set<nat>) returns (m: nat)
    requires mask != {}
    ensures forall i | i in mask :: i <= m
    decreases |mask|
  {
    var i :| i in mask;
    var rest := mask - {i};
    assert forall j | j in mask :: j == i || j in rest;
    if rest == {} {
      m := i;
    } else {
      var h := Highest(rest);
      m := if h < i then i else h;
    }
  }

  /** A register that one operand accepts and the joined one does not, or the other way round. */
  lemma {:induction false} MisfitShows(e: Encoding, a: Operand, b: Operand)
    requires !MasksFit(e, a, b)
    ensures !KeepsUses(e, a, b)
  {
    var ta, tb := RegisterTypes(e, a), RegisterTypes(e, b);
    var u;
    if a.mask == {} {
      var t :| t in ta;
      var id := Unmasked(b.mask);
      u := RegisterUse(t, id);
    } else if b.mask == {} {
      var t :| t in tb;
      var id := Unmasked(a.mask);
      u := RegisterUse(t, id);
    } else if !(ta <= tb || b.mask <= a.mask) {
      var t :| t in ta && t !in tb;
      var id :| id in b.mask && id !in a.mask;
      u := RegisterUse(t, id);
    } else {
      var t :| t in tb && t !in ta;
      var id :| id in a.mask && id !in b.mask;
      u := RegisterUse(t, id);
    }
    assert ValidUse(e, u);
    assert OperandAccepts(Joined(a, b), u) != (OperandAccepts(a, u) || OperandAccepts(b, u));
  }

  /** Joining two operands keeps what they accept exactly if their masks fit. */
  lemma {:induction false} MasksDecide(e: Encoding, a: Operand, b: Operand)
    ensures KeepsUses(e, a, b) <==> MasksFit(e, a, b)
  {
    if MasksFit(e, a, b) {
      forall u | ValidUse(e, u)
        ensures OperandAccepts(Joined(a, b), u) <==> OperandAccepts(a, u) || OperandAccepts(b, u)
      {
        FittingUse(e, a, b, u);
      }
    } else {
      MisfitShows(e, a, b);
    }
  }

  lemma {:induction false} FittingUse(e: Encoding, a: Operand, b: Operand, u: OperandUse)
    requires MasksFit(e, a, b) && ValidUse(e, u)
    ensures OperandAccepts(Joined(a, b), u) <==> OperandAccepts(a, u) || OperandAccepts(b, u)
  {
    match u
    case RegisterUse(kind, id) =>
      assert kind in a.types <==> kind in RegisterTypes(e, a);
      assert kind in b.types <==> kind in RegisterTypes(e, b);
    case OtherUse(types) =>
      if t :| t in types && t in a.types + b.types {
        assert t in types * (a.types + b.types);
        assert t in types * a.types || t in types * b.types;
      }
      if t :| t in types * a.types { assert t in types * (a.types + b.types); }
      if t :| t in types * b.types { assert t in types * (a.types + b.types); }
  }

  // --- Merged rows ---

  datatype EncodedUse = EncodedUse(x86: bool, x64: bool, implicit: nat, ops: seq<OperandUse>)

  ghost predicate EncodedAccepts(e: Encoding, row: Row, u: EncodedUse) {
    && u.x86 == row.x86 && u.x64 == row.x64 && u.implicit == row.implicit && |u.ops| == |row.ops|
    && forall i | 0 <= i < |u.ops| :: ValidUse(e, u.ops[i]) && OperandAccepts(Encode(e, row.ops[i]), u.ops[i])
  }

  ghost predicate KeepsEncoding(e: Encoding, m: Row, a: Row, b: Row) {
    forall u :: EncodedAccepts(e, m, u) <==> EncodedAccepts(e, a, u) || EncodedAccepts(e, b, u)
  }

  /** Some use is accepted. */
  ghost predicate HasUse(e: Encoding, f: Flags) {
    exists u :: ValidUse(e, u) && OperandAccepts(Encode(e, f), u)
  }

  ghost function SomeUseOf(e: Encoding, f: Flags): (u: OperandUse)
    requires HasUse(e, f)
    ensures ValidUse(e, u) && OperandAccepts(Encode(e, f), u)
  {
    var u :| ValidUse(e, u) && OperandAccepts(Encode(e, f), u);
    u
  }

  /** The operands of a merged row: one is joined, all others are the same in the three rows. */
  lemma {:induction false} MergedOperands(e: Encoding, regs: Registers, a: Row, b: Row) returns (x: nat)
    requires MergeRow(regs, a, b).Some?
    ensures OnlyDifference(a.ops, b.ops, 0, None) == Some(x)
    ensures var m := MergeRow(regs, a, b).value;
            && x < |a.ops| == |b.ops| == |m.ops|
            && m.x86 == a.x86 == b.x86 && m.x64 == a.x64 == b.x64 && m.implicit == a.implicit == b.implicit
            && Encode(e, m.ops[x]) == Joined(Encode(e, a.ops[x]), Encode(e, b.ops[x]))
            && (forall i | 0 <= i < |a.ops| && i != x :: m.ops[i] == a.ops[i])
            && (forall i | 0 <= i < |a.ops| && i != x :: Encode(e, b.ops[i]) == Encode(e, a.ops[i]))
  {
    OnlyDifferenceIsOnly(a.ops, b.ops, 0, None);
    x := OnlyDifference(a.ops, b.ops, 0, None).value;
    MergedEncoding(e, a.ops[x], b.ops[x]);
    hide Encode, OnlyDifference, AddKeys, CanMerge;
    forall i | 0 <= i < |a.ops| && i != x ensures Encode(e, b.ops[i]) == Encode(e, a.ops[i]) {
      SameEncoding(e, b.ops[i], a.ops[i]);
    }
  }

  ghost predicate OthersHaveUses(e: Encoding, a: Row, x: nat) {
    forall i | 0 <= i < |a.ops| && i != x :: HasUse(e, a.ops[i])
  }

  /** The encoded row accepts what the two encoded rows accept exactly if the masks of the merged operands
      fit, or another operand cannot be used at all. */
  lemma {:induction false} WhenMergeKeepsEncoding(e: Encoding, regs: Registers, a: Row, b: Row)
    requires MergeRow(regs, a, b).Some?
    ensures var m, x := MergeRow(regs, a, b).value, OnlyDifference(a.ops, b.ops, 0, None);
            && x.Some? && x.value < |a.ops| == |b.ops|
            && (KeepsEncoding(e, m, a, b) <==>
                MasksFit(e, Encode(e, a.ops[x.value]), Encode(e, b.ops[x.value])) || !OthersHaveUses(e, a, x.value))
  {
    var m := MergeRow(regs, a, b).value;
    var x := MergedOperands(e, regs, a, b);
    var p, q := Encode(e, a.ops[x]), Encode(e, b.ops[x]);
    MasksDecide(e, p, q);
    hide MergeRow, Encode, MasksFit, OnlyDifference, OperandAccepts, Joined, OthersHaveUses;
    if MasksFit(e, p, q) {
      forall u ensures EncodedAccepts(e, m, u) <==> EncodedAccepts(e, a, u) || EncodedAccepts(e, b, u) {
        FittingRows(e, m, a, b, x, u);
      }
    } else if OthersHaveUses(e, a, x) {
      MisfitRows(e, m, a, b, x);
    } else {
      forall u ensures !EncodedAccepts(e, m, u) && !EncodedAccepts(e, a, u) && !EncodedAccepts(e, b, u) {
        UselessRows(e, m, a, b, x, u);
      }
    }
  }

  ghost predicate JoinedAt(e: Encoding, m: Row, a: Row, b: Row, x: nat) {
    && x < |a.ops| == |b.ops| == |m.ops|
    && m.x86 == a.x86 == b.x86 && m.x64 == a.x64 == b.x64 && m.implicit == a.implicit == b.implicit
    && Encode(e, m.ops[x]) == Joined(Encode(e, a.ops[x]), Encode(e, b.ops[x]))
    && (forall i | 0 <= i < |a.ops| && i != x :: m.ops[i] == a.ops[i])
    && (forall i | 0 <= i < |a.ops| && i != x :: Encode(e, b.ops[i]) == Encode(e, a.ops[i]))
  }

  lemma {:induction false} FittingRows(e: Encoding, m: Row, a: Row, b: Row, x: nat, u: EncodedUse)
    requires JoinedAt(e, m, a, b, x) && KeepsUses(e, Encode(e, a.ops[x]), Encode(e, b.ops[x]))
    ensures EncodedAccepts(e, m, u) <==> EncodedAccepts(e, a, u) || EncodedAccepts(e, b, u)
  {
    hide Encode, OperandAccepts, Joined, ValidUse;
    if EncodedAccepts(e, m, u) {
      assert ValidUse(e, u.ops[x]) && OperandAccepts(Encode(e, m.ops[x]), u.ops[x]);
    }
    if EncodedAccepts(e, a, u) {
      assert ValidUse(e, u.ops[x]) && OperandAccepts(Encode(e, a.ops[x]), u.ops[x]);
    }
    if EncodedAccepts(e, b, u) {
      assert ValidUse(e, u.ops[x]) && OperandAccepts(Encode(e, b.ops[x]), u.ops[x]);
    }
  }

  lemma {:induction false} UselessRows(e: Encoding, m: Row, a: Row, b: Row, x: nat, u: EncodedUse)
    requires JoinedAt(e, m, a, b, x) && !OthersHaveUses(e, a, x)
    ensures !EncodedAccepts(e, m, u) && !EncodedAccepts(e, a, u) && !EncodedAccepts(e, b, u)
  {
    hide Encode, OperandAccepts, Joined, ValidUse;
    var i :| 0 <= i < |a.ops| && i != x && !HasUse(e, a.ops[i]);
    if |u.ops| == |a.ops| {
      assert !(ValidUse(e, u.ops[i]) && OperandAccepts(Encode(e, a.ops[i]), u.ops[i]));
      assert Encode(e, m.ops[i]) == Encode(e, b.ops[i]) == Encode(e, a.ops[i]);
    }
  }

  lemma {:induction false} MisfitRows(e: Encoding, m: Row, a: Row, b: Row, x: nat)
    requires JoinedAt(e, m, a, b, x) && !KeepsUses(e, Encode(e, a.ops[x]), Encode(e, b.ops[x]))
    requires OthersHaveUses(e, a, x)
    ensures !KeepsEncoding(e, m, a, b)
  {
    hide Encode, OperandAccepts, Joined, ValidUse, HasUse;
    var p, q := Encode(e, a.ops[x]), Encode(e, b.ops[x]);
    var v :| ValidUse(e, v) && OperandAccepts(Joined(p, q), v) != (OperandAccepts(p, v) || OperandAccepts(q, v));
    var ops := seq(|a.ops|, i requires 0 <= i < |a.ops| => if i == x then v else SomeUseOf(e, a.ops[i]));
    var u := EncodedUse(a.x86, a.x64, a.implicit, ops);
    UseDiffers(e, m, a, b, x, u);
  }

  lemma {:induction false} UseDiffers(e: Encoding, m: Row, a: Row, b: Row, x: nat, u: EncodedUse)
    requires JoinedAt(e, m, a, b, x) && u.x86 == a.x86 && u.x64 == a.x64 && u.implicit == a.implicit && |u.ops| == |a.ops|
    requires forall i | 0 <= i < |u.ops| :: ValidUse(e, u.ops[i]) && (i != x ==> OperandAccepts(Encode(e, a.ops[i]), u.ops[i]))
    requires var p, q, v := Encode(e, a.ops[x]), Encode(e, b.ops[x]), u.ops[x];
             OperandAccepts(Joined(p, q), v) != (OperandAccepts(p, v) || OperandAccepts(q, v))
    ensures !KeepsEncoding(e, m, a, b)
  {
    hide Encode, OperandAccepts, Joined, ValidUse;
    assert EncodedAccepts(e, m, u) <==> OperandAccepts(Encode(e, m.ops[x]), u.ops[x]);
    assert EncodedAccepts(e, a, u) <==> OperandAccepts(Encode(e, a.ops[x]), u.ops[x]);
    assert EncodedAccepts(e, b, u) <==> OperandAccepts(Encode(e, b.ops[x]), u.ops[x]);
  }

  /** Where merging is not symmetric, the merge that is made narrows what is accepted: an operand with a
      specific register takes in one of any register, and its mask then holds for both. */
  lemma {:induction false} SpecificNarrowsGeneral(e: Encoding, af: Flags, bf: Flags)
    requires Encode(e, af).mask != {} && Encode(e, bf).mask == {} && RegisterTypes(e, Encode(e, bf)) != {}
    ensures !KeepsUses(e, Encode(e, af), Encode(e, bf)) && !KeepsUses(e, Encode(e, bf), Encode(e, af))
    ensures forall u :: OperandAccepts(Encode(e, AddKeys(af, bf)), u) ==>
                          OperandAccepts(Encode(e, af), u) || OperandAccepts(Encode(e, bf), u)
  {
    MergedEncoding(e, af, bf);
    hide Encode;
    var a, b := Encode(e, af), Encode(e, bf);
    MasksDecide(e, a, b);
    MasksDecide(e, b, a);
    forall u | OperandAccepts(Joined(a, b), u) ensures OperandAccepts(a, u) || OperandAccepts(b, u) {
      if u.OtherUse? {
        var t :| t in u.types && t in a.types + b.types;
        assert t in u.types * a.types || t in u.types * b.types;
      }
    }
  }
}
