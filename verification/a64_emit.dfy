/** The prologs and epilogs of asmjit/arm/a64emithelper.cpp: the instructions as functions of the
    frame, and the loops that emit them. */
module A64Emit {
  import opened A64Frame
  import opened A64Machine

  /** A pair of registers to save, with its group. */
  datatype Save = Save(group: Group, id0: nat, id1: nat, offset: nat)

  function Tag(group: Group, pairs: seq<RegPair>): (r: seq<Save>)
    ensures |r| == |pairs|
  {
    seq(|pairs|, i requires 0 <= i < |pairs| => Save(group, pairs[i].id0, pairs[i].id1, pairs[i].offset))
  }

  function Saves(frame: Frame): (r: seq<Save>)
    requires frame.Valid()
  {
    Tag(Gp, GpPairs(frame)) + Tag(Vec, VecPairs(frame))
  }

  // --- The code ---

  function StoreInst(frame: Frame, p: Save): Inst
    requires frame.Valid()
  {
    var total: int := SizeTotal(frame);
    if p.offset == 0 && total != 0 then Store(p.group, p.id0, p.id1, -total, PreIndex)
    else Store(p.group, p.id0, p.id1, p.offset, Fixed)
  }

  function LoadInst(frame: Frame, p: Save): Inst
    requires frame.Valid()
  {
    var total: int := SizeTotal(frame);
    if p.offset == 0 && total != 0 then Load(p.group, p.id0, p.id1, total, PostIndex)
    else Load(p.group, p.id0, p.id1, p.offset, Fixed)
  }

  /** The code that saves pair `k`; the frame pointer is set up after the first pair of each group. */
  function SaveCode(frame: Frame, k: nat): seq<Inst>
    requires frame.Valid() && k < |Saves(frame)|
  {
    [StoreInst(frame, Saves(frame)[k])] +
    if frame.preservedFp && (k == 0 || k == |GpPairs(frame)|) then [MoveSpToFp] else []
  }

  function SavesCode(frame: Frame, n: nat): seq<Inst>
    requires frame.Valid() && n <= |Saves(frame)|
  {
    if n == 0 then [] else SavesCode(frame, n - 1) + SaveCode(frame, n - 1)
  }

  /** The code that restores the pairs below `n`, last one first. */
  function LoadsCode(frame: Frame, n: nat): seq<Inst>
    requires frame.Valid() && n <= |Saves(frame)|
  {
    if n == 0 then [] else [LoadInst(frame, Saves(frame)[n - 1])] + LoadsCode(frame, n - 1)
  }

  const MAX_ADJUSTMENT := 0xFFFFFF

  function Adjustments(adj: nat): seq<nat> {
    if adj == 0 then [] else if adj <= 0xFFF then [adj] else [adj % 0x1000, adj - adj % 0x1000]
  }

  function SubCode(adj: nat): seq<Inst> {
    var a := Adjustments(adj);
    seq(|a|, i requires 0 <= i < |a| => SubSp(a[i]))
  }

  function AddCode(adj: nat): seq<Inst> {
    var a := Adjustments(adj);
    seq(|a|, i requires 0 <= i < |a| => AddSp(a[i]))
  }

  function Prolog(frame: Frame): seq<Inst>
    requires frame.Valid()
  {
    SavesCode(frame, |Saves(frame)|) + SubCode(frame.adjustment)
  }

  function Epilog(frame: Frame): seq<Inst>
    requires frame.Valid()
  {
    AddCode(frame.adjustment) + LoadsCode(frame, |Saves(frame)|) + [Ret]
  }

  // --- The program ---

  ghost predicate AllEncodable(code: seq<Inst>) {
    forall i | i in code :: Encodable(i)
  }

  lemma {:induction false} EncodableParts(a: seq<Inst>, b: seq<Inst>)
    ensures AllEncodable(a + b) <==> AllEncodable(a) && AllEncodable(b)
  {
    assert forall i :: i in a + b <==> i in a || i in b;
  }

  /** The code of the first pairs has to be encodable for that of more pairs to be. */
  lemma {:induction false} EncodablePrefix(frame: Frame, k: nat, n: nat)
    requires frame.Valid() && k <= n <= |Saves(frame)|
    ensures AllEncodable(SavesCode(frame, n)) ==> AllEncodable(SavesCode(frame, k))
    decreases n - k
  {
    hide Saves, SaveCode, AllEncodable;
    if k < n {
      EncodablePrefix(frame, k + 1, n);
      EncodableParts(SavesCode(frame, k), SaveCode(frame, k));
    }
  }

  /** The code that restores the pairs from `k` to `n`, last one first. */
  ghost function LoadsDown(frame: Frame, k: nat, n: nat): seq<Inst>
    requires frame.Valid() && k <= n <= |Saves(frame)|
    decreases n - k
  {
    if k == n then [] else LoadsDown(frame, k + 1, n) + [LoadInst(frame, Saves(frame)[k])]
  }

  lemma {:induction false} LoadsSplit(frame: Frame, k: nat, n: nat)
    requires frame.Valid() && k <= n <= |Saves(frame)|
    ensures LoadsCode(frame, n) == LoadsDown(frame, k, n) + LoadsCode(frame, k)
    decreases n - k
  {
    hide Saves, LoadInst;
    if k < n {
      LoadsSplit(frame, k + 1, n);
    } else {
      assert LoadsDown(frame, k, n) == [];
    }
  }

  /** The code of the last pairs has to be encodable for that of more pairs to be. */
  lemma {:induction false} EncodableSuffix(frame: Frame, k: nat, n: nat)
    requires frame.Valid() && k <= n <= |Saves(frame)|
    ensures AllEncodable(LoadsDown(frame, 0, n)) ==> AllEncodable(LoadsDown(frame, k, n))
    decreases k
  {
    hide Saves, LoadInst, AllEncodable;
    if k > 0 {
      EncodableSuffix(frame, k - 1, n);
      EncodableParts(LoadsDown(frame, k, n), [LoadInst(frame, Saves(frame)[k - 1])]);
    }
  }

  class EmitHelper {
    var code: seq<Inst>

    constructor ()
      ensures code == []
    {
      code := [];
    }

    /** Appends an instruction if it can be encoded. */
    method Emit(i: Inst) returns (ok: bool)
      modifies this
      ensures ok <==> Encodable(i)
      ensures code == old(code) + if ok then [i] else []
    {
      ok := Encodable(i);
      if ok { code := code + [i]; } else { code := code + []; }
    }

    /** Emits the stores of one group, whose pairs start at number `first` of all pairs. */
    method EmitSaves(frame: Frame, group: Group, pairs: array<RegPair>, pairCount: nat, sizeTotal: nat,
                     ghost start: seq<Inst>, ghost first: nat) returns (ok: bool)
      requires frame.Valid() && pairCount <= pairs.Length && sizeTotal == SizeTotal(frame)
      requires IsGroup(frame, group, pairs[..pairCount], first)
      requires code == start + SavesCode(frame, first) && AllEncodable(SavesCode(frame, first))
      modifies this
      ensures first + pairCount <= |Saves(frame)|
      ensures ok <==> AllEncodable(SavesCode(frame, first + pairCount))
      ensures ok ==> code == start + SavesCode(frame, first + pairCount)
    {
      hide Saves, SaveCode, AllEncodable, GpPairs;
      var i := 0;
      while i < pairCount
        invariant i <= pairCount && first + pairCount <= |Saves(frame)|
        invariant code == start + SavesCode(frame, first + i) && AllEncodable(SavesCode(frame, first + i))
      {
        ghost var k := first + i;
        assert pairs[i] == pairs[..pairCount][i];
        ok := EmitSave(frame, group, pairs[i], i, sizeTotal, k);
        EncodableParts(SavesCode(frame, k), SaveCode(frame, k));
        if !ok {
          EncodablePrefix(frame, k + 1, first + pairCount);
          return;
        }
        assert code == start + SavesCode(frame, k + 1);
        i := i + 1;
      }
      ok := true;
    }

    /** Emits the store of one pair, and after the first one of a group the frame pointer set-up. */
    method EmitSave(frame: Frame, group: Group, pair: RegPair, i: nat, sizeTotal: nat, ghost k: nat) returns (ok: bool)
      requires frame.Valid() && k < |Saves(frame)| && sizeTotal == SizeTotal(frame)
      requires Saves(frame)[k] == SaveOf(group, pair) && (i == 0 <==> k == 0 || k == |GpPairs(frame)|)
      modifies this
      ensures ok <==> AllEncodable(SaveCode(frame, k))
      ensures ok ==> code == old(code) + SaveCode(frame, k)
    {
      var offset: int, mode := pair.offset, Fixed;
      if pair.offset == 0 && sizeTotal != 0 {
        offset, mode := 0 - sizeTotal, PreIndex;
      }
      var store := Store(group, pair.id0, pair.id1, offset, mode);
      assert store == StoreInst(frame, Saves(frame)[k]);
      hide Saves, GpPairs, SizeTotal, StoreInst;
      ghost var before := code;
      ok := Emit(store);
      assert store in SaveCode(frame, k);
      if ok && i == 0 && frame.preservedFp {
        ok := Emit(MoveSpToFp);
      }
      if ok { assert code == before + SaveCode(frame, k); }
    }

    method EmitSub(adj: nat) returns (ok: bool)
      modifies this
      ensures ok <==> adj <= MAX_ADJUSTMENT
      ensures adj <= MAX_ADJUSTMENT ==> AllEncodable(SubCode(adj)) && code == old(code) + SubCode(adj)
    {
      ok := true;
      if adj != 0 {
        if adj <= 0xFFF {
          ok := Emit(SubSp(adj));
        } else if adj <= MAX_ADJUSTMENT {
          ok := Emit(SubSp(adj % 0x1000));
          ok := Emit(SubSp(adj - adj % 0x1000));
        } else {
          ok := false;
        }
      }
    }

    /** Emits the stores of both groups. */
    method EmitAllSaves(frame: Frame, gp: GroupData, vec: GroupData, sizeTotal: nat) returns (ok: bool)
      requires frame.Valid() && sizeTotal == SizeTotal(frame)
      requires gp.pairCount <= gp.pairs.Length && gp.Pairs() == GpPairs(frame)
      requires vec.pairCount <= vec.pairs.Length && vec.Pairs() == VecPairs(frame)
      modifies this
      ensures ok <==> AllEncodable(SavesCode(frame, |Saves(frame)|))
      ensures ok ==> code == old(code) + SavesCode(frame, |Saves(frame)|)
    {
      ghost var start, n := code, |Saves(frame)|;
      GroupsOfSaves(frame);
      NothingSaved(frame);
      hide Saves, SaveCode, AllEncodable, GpPairs, VecPairs, IsGroup;
      EncodablePrefix(frame, gp.pairCount, n);
      ok := EmitSaves(frame, Gp, gp.pairs, gp.pairCount, sizeTotal, start, 0);
      if ok {
        ok := EmitSaves(frame, Vec, vec.pairs, vec.pairCount, sizeTotal, start, gp.pairCount);
      }
    }

    method EmitProlog(frame: Frame) returns (ok: bool)
      requires frame.Valid()
      modifies this
      ensures ok <==> frame.adjustment <= MAX_ADJUSTMENT && AllEncodable(Prolog(frame))
      ensures ok ==> code == old(code) + Prolog(frame)
    {
      EncodableParts(SavesCode(frame, |Saves(frame)|), SubCode(frame.adjustment));
      hide Saves, SavesCode, SubCode, AllEncodable, GpPairs, VecPairs;
      var pei := new PrologEpilogInfo();
      pei.Init(frame);
      ok := EmitAllSaves(frame, pei.groups[Gp], pei.groups[Vec], pei.sizeTotal);
      if ok {
        ok := EmitSub(frame.adjustment);
      }
    }

    /** Emits the loads of one group, last one first. */
    method EmitLoads(frame: Frame, group: Group, pairs: array<RegPair>, pairCount: nat, sizeTotal: nat,
                     ghost start: seq<Inst>, ghost first: nat) returns (ok: bool)
      requires frame.Valid() && pairCount <= pairs.Length && sizeTotal == SizeTotal(frame)
      requires IsGroup(frame, group, pairs[..pairCount], first)
      requires var n := |Saves(frame)|; first + pairCount <= n && code == start + LoadsDown(frame, first + pairCount, n)
      requires AllEncodable(LoadsDown(frame, first + pairCount, |Saves(frame)|))
      modifies this
      ensures first <= |Saves(frame)|
      ensures ok ==> AllEncodable(LoadsDown(frame, first, |Saves(frame)|))
      ensures !ok ==> !AllEncodable(LoadsDown(frame, 0, |Saves(frame)|))
      ensures ok ==> code == start + LoadsDown(frame, first, |Saves(frame)|)
    {
      hide Saves, AllEncodable, GpPairs;
      ghost var n := |Saves(frame)|;
      var i := pairCount;
      while i > 0
        invariant 0 <= i <= pairCount && first + pairCount <= n
        invariant code == start + LoadsDown(frame, first + i, n) && AllEncodable(LoadsDown(frame, first + i, n))
      {
        i := i - 1;
        ghost var k := first + i;
        assert pairs[i] == pairs[..pairCount][i];
        ok := EmitLoad(frame, group, pairs[i], sizeTotal, k);
        EncodableParts(LoadsDown(frame, k + 1, n), [LoadInst(frame, Saves(frame)[k])]);
        if !ok {
          EncodableSuffix(frame, k, n);
          return;
        }
        assert code == start + LoadsDown(frame, k, n);
      }
      ok := true;
    }

    method EmitLoad(frame: Frame, group: Group, pair: RegPair, sizeTotal: nat, ghost k: nat) returns (ok: bool)
      requires frame.Valid() && k < |Saves(frame)| && sizeTotal == SizeTotal(frame)
      requires Saves(frame)[k] == SaveOf(group, pair)
      modifies this
      ensures ok <==> AllEncodable([LoadInst(frame, Saves(frame)[k])])
      ensures ok ==> code == old(code) + [LoadInst(frame, Saves(frame)[k])]
    {
      var offset: int, mode := pair.offset, Fixed;
      if pair.offset == 0 && sizeTotal != 0 {
        offset, mode := sizeTotal, PostIndex;
      }
      var load := Load(group, pair.id0, pair.id1, offset, mode);
      assert load == LoadInst(frame, Saves(frame)[k]);
      hide Saves, SizeTotal, LoadInst;
      assert load in [load];
      ok := Emit(load);
    }

    method EmitAdd(adj: nat) returns (ok: bool)
      modifies this
      ensures ok <==> adj <= MAX_ADJUSTMENT
      ensures adj <= MAX_ADJUSTMENT ==> AllEncodable(AddCode(adj)) && code == old(code) + AddCode(adj)
    {
      ok := true;
      if adj != 0 {
        if adj <= 0xFFF {
          ok := Emit(AddSp(adj));
        } else if adj <= MAX_ADJUSTMENT {
          ok := Emit(AddSp(adj % 0x1000));
          ok := Emit(AddSp(adj - adj % 0x1000));
        } else {
          ok := false;
        }
      }
    }

    /** Emits the loads of both groups, from the last to the first. */
    method EmitAllLoads(frame: Frame, gp: GroupData, vec: GroupData, sizeTotal: nat) returns (ok: bool)
      requires frame.Valid() && sizeTotal == SizeTotal(frame)
      requires gp.pairCount <= gp.pairs.Length && gp.Pairs() == GpPairs(frame)
      requires vec.pairCount <= vec.pairs.Length && vec.Pairs() == VecPairs(frame)
      modifies this
      ensures ok <==> AllEncodable(LoadsDown(frame, 0, |Saves(frame)|))
      ensures ok ==> code == old(code) + LoadsDown(frame, 0, |Saves(frame)|)
    {
      ghost var start := code;
      GroupsOfSaves(frame);
      EpilogParts(frame);
      hide Saves, AllEncodable, GpPairs, VecPairs, IsGroup, LoadsDown, Epilog;
      ok := EmitLoads(frame, Vec, vec.pairs, vec.pairCount, sizeTotal, start, gp.pairCount);
      if ok {
        ok := EmitLoads(frame, Gp, gp.pairs, gp.pairCount, sizeTotal, start, 0);
      }
    }

    method EmitEpilog(frame: Frame) returns (ok: bool)
      requires frame.Valid()
      modifies this
      ensures ok <==> frame.adjustment <= MAX_ADJUSTMENT && AllEncodable(Epilog(frame))
      ensures ok ==> code == old(code) + Epilog(frame)
    {
      EpilogParts(frame);
      hide Saves, SizeTotal, AddCode, AllEncodable, GpPairs, VecPairs, LoadsDown, Epilog;
      var pei := new PrologEpilogInfo();
      pei.Init(frame);
      ghost var start, add, loads := code, AddCode(frame.adjustment), LoadsDown(frame, 0, |Saves(frame)|);
      ok := EmitAdd(frame.adjustment);
      if !ok { return; }
      ok := EmitAllLoads(frame, pei.groups[Gp], pei.groups[Vec], pei.sizeTotal);
      if !ok { return; }
      ok := Emit(Ret);
      JoinCode(start, add, loads, [Ret]);
    }
  }

  lemma {:induction false} JoinCode(start: seq<Inst>, a: seq<Inst>, b: seq<Inst>, c: seq<Inst>)
    ensures start + (a + b + c) == start + a + b + c
  {
  }

  lemma {:induction false} EpilogParts(frame: Frame)
    requires frame.Valid()
    ensures var n := |Saves(frame)|; var loads := LoadsDown(frame, 0, n);
            && LoadsDown(frame, n, n) == [] && AllEncodable(LoadsDown(frame, n, n))
            && Epilog(frame) == AddCode(frame.adjustment) + loads + [Ret]
            && (AllEncodable(Epilog(frame)) <==> AllEncodable(AddCode(frame.adjustment)) && AllEncodable(loads))
  {
    var n := |Saves(frame)|;
    var add, loads := AddCode(frame.adjustment), LoadsDown(frame, 0, n);
    LoadsSplit(frame, 0, n);
    assert loads + LoadsCode(frame, 0) == loads;
    EncodableParts(add + loads, [Ret]);
    EncodableParts(add, loads);
  }

  lemma {:induction false} NothingSaved(frame: Frame)
    requires frame.Valid()
    ensures SavesCode(frame, 0) == [] && AllEncodable(SavesCode(frame, 0))
  {
  }

  function SaveOf(group: Group, pair: RegPair): Save {
    Save(group, pair.id0, pair.id1, pair.offset)
  }

  /** The pairs are those of the group, and the first of them is number `first` of all pairs. */
  ghost predicate IsGroup(frame: Frame, group: Group, pairs: seq<RegPair>, first: nat)
    requires frame.Valid()
  {
    && first + |pairs| <= |Saves(frame)|
    && forall i | 0 <= i < |pairs| ::
         && Saves(frame)[first + i] == SaveOf(group, pairs[i])
         && (i == 0 <==> first + i == 0 || first + i == |GpPairs(frame)|)
  }

  lemma {:induction false} GroupsOfSaves(frame: Frame)
    requires frame.Valid()
    ensures |Saves(frame)| == |GpPairs(frame)| + |VecPairs(frame)|
    ensures IsGroup(frame, Gp, GpPairs(frame), 0)
    ensures IsGroup(frame, Vec, VecPairs(frame), |GpPairs(frame)|)
  {
    hide GpPairs, VecPairs;
  }
}
