/** Which registers an AArch64 function saves, and where: the layout computed by
    PrologEpilogInfo::init of asmjit/arm/a64emithelper.cpp. */
module A64Frame {

  datatype Group = Gp | Vec

  const FP := 29
  const LR := 30
  const BAD := 0xFF
  const MAX_PAIRS := 16

  /** The parts of a finalized function frame that the prolog and the epilog read. A register mask
      is the set of its register ids; the stack pointer is never in it. */
  datatype Frame = Frame(savedGp: set<nat>, savedVec: set<nat>, slotVec: nat, preservedFp: bool, adjustment: nat)
  {
    predicate Valid() {
      (forall r | r in savedGp :: r < 31) && (forall r | r in savedVec :: r < 32) && slotVec in {8, 16}
    }

    function Saved(group: Group): set<nat> {
      if group.Gp? then savedGp else savedVec
    }

    function SlotSize(group: Group): nat {
      if group.Gp? then 8 else slotVec
    }
  }

  /** Two registers that are saved next to each other; the second id may be `BAD`. */
  datatype RegPair = RegPair(id0: nat, id1: nat, offset: nat)

  // --- The layout ---

  predicate IsMask(mask: set<nat>) {
    forall r | r in mask :: r < 32
  }

  /** The lowest register of the mask that is at least `i`. */
  function LowestFrom(mask: set<nat>, i: nat): (r: nat)
    requires IsMask(mask) && exists m | m in mask :: m >= i
    ensures r in mask && r >= i && forall m | m in mask && m >= i :: r <= m
    decreases 32 - i
  {
    if i in mask then i else LowestFrom(mask, i + 1)
  }

  function Lowest(mask: set<nat>): (r: nat)
    requires IsMask(mask) && mask != {}
    ensures r in mask && forall m | m in mask :: r <= m
  {
    assert exists m | m in mask :: m >= 0;
    LowestFrom(mask, 0)
  }

  /** The registers of a mask, lowest first. */
  function Ids(mask: set<nat>): seq<nat>
    requires IsMask(mask)
    decreases |mask|
  {
    if mask == {} then [] else [Lowest(mask)] + Ids(mask - {Lowest(mask)})
  }

  lemma {:induction false} IdsOfMask(mask: set<nat>)
    requires IsMask(mask)
    ensures |Ids(mask)| == |mask| && forall r :: r in Ids(mask) <==> r in mask
    decreases |mask|
  {
    if mask != {} {
      var r := Lowest(mask);
      IdsOfMask(mask - {r});
      assert Ids(mask) == [r] + Ids(mask - {r});
    }
  }

  /** Registers two by two, in slots of the given size. */
  function PairUp(ids: seq<nat>, offset: nat, slot: nat): seq<RegPair>
    decreases |ids|
  {
    if ids == [] then []
    else if |ids| == 1 then [RegPair(ids[0], BAD, offset)]
    else [RegPair(ids[0], ids[1], offset)] + PairUp(ids[2..], offset + slot * 2, slot)
  }

  /** The pairs of a group; a preserved frame pointer is saved first, with the link register. */
  function GroupPairs(frame: Frame, group: Group, offset: nat): (pairs: seq<RegPair>)
    requires frame.Valid()
  {
    var slot := frame.SlotSize(group);
    var saved := frame.Saved(group);
    if group.Gp? && frame.preservedFp then
      [RegPair(FP, LR, offset)] + PairUp(Ids(saved - {FP, LR}), offset + slot * 2, slot)
    else PairUp(Ids(saved), offset, slot)
  }

  function GpPairs(frame: Frame): seq<RegPair>
    requires frame.Valid()
  {
    GroupPairs(frame, Gp, 0)
  }

  function GpSize(frame: Frame): nat
    requires frame.Valid()
  {
    |GpPairs(frame)| * 16
  }

  function VecPairs(frame: Frame): seq<RegPair>
    requires frame.Valid()
  {
    GroupPairs(frame, Vec, GpSize(frame))
  }

  /** The size of `count` pairs of slots. */
  function PairBytes(count: nat, slot: nat): nat {
    if slot == 8 then count * 16 else count * 32
  }

  function SizeTotal(frame: Frame): nat
    requires frame.Valid()
  {
    GpSize(frame) + PairBytes(|VecPairs(frame)|, frame.slotVec)
  }

  lemma {:induction false} PairUpLength(ids: seq<nat>, offset: nat, slot: nat)
    ensures |PairUp(ids, offset, slot)| == (|ids| + 1) / 2
    decreases |ids|
  {
    if |ids| > 1 { PairUpLength(ids[2..], offset + slot * 2, slot); }
  }

  lemma {:induction false} AppendOne<T>(before: seq<T>, p: T, tail: seq<T>)
    ensures before + ([p] + tail) == before + [p] + tail
  {
  }

  lemma {:induction false} PairUpOne(mask: set<nat>, offset: nat, slot: nat)
    requires IsMask(mask) && mask != {}
    ensures PairUp(Ids(mask), offset, slot) == PairUp([Lowest(mask)] + Ids(mask - {Lowest(mask)}), offset, slot)
    ensures PairUp(Ids(mask), offset, slot) != []
  {
  }

  lemma {:induction false} PairUpTwo(a: nat, mask: set<nat>, offset: nat, slot: nat)
    requires IsMask(mask) && mask != {}
    ensures PairUp([a] + Ids(mask), offset, slot)
         == [RegPair(a, Lowest(mask), offset)] + PairUp(Ids(mask - {Lowest(mask)}), offset + slot * 2, slot)
  {
    var rest := Ids(mask - {Lowest(mask)});
    assert Ids(mask) == [Lowest(mask)] + rest;
    hide Ids, Lowest;
    var ids := [a] + ([Lowest(mask)] + rest);
    assert ids[2..] == rest;
  }

  lemma {:induction false} MaskSize(mask: set<nat>, n: nat)
    requires forall r | r in mask :: r < n
    ensures |mask| <= n
  {
    if n > 0 {
      MaskSize(mask - {n - 1}, n - 1);
    } else {
      assert mask == {};
    }
  }

  lemma {:induction false} PairUpEnd(mask: set<nat>, a: nat, offset: nat, slot: nat)
    requires mask == {}
    ensures PairUp(Ids(mask), offset, slot) == []
    ensures PairUp([a] + Ids(mask), offset, slot) == [RegPair(a, BAD, offset)]
  {
  }

  /** The pairs fit into the array of the program. */
  lemma {:induction false} PairCountBound(frame: Frame, group: Group, offset: nat)
    requires frame.Valid()
    ensures |GroupPairs(frame, group, offset)| <= MAX_PAIRS
  {
    hide Ids, PairUp;
    var slot, saved := frame.SlotSize(group), frame.Saved(group);
    IdsOfMask(saved);
    IdsOfMask(saved - {FP, LR});
    if group.Gp? && frame.preservedFp {
      assert forall r | r in saved - {FP, LR} :: r < 29;
      MaskSize(saved - {FP, LR}, 29);
      PairUpLength(Ids(saved - {FP, LR}), offset + slot * 2, slot);
    } else {
      MaskSize(saved, 32);
      PairUpLength(Ids(saved), offset, slot);
    }
  }

  // --- What the layout guarantees ---

  /** The registers of a group in the order in which they are saved. */
  function Order(frame: Frame, group: Group): seq<nat>
    requires frame.Valid()
  {
    if group.Gp? && frame.preservedFp then [FP, LR] + Ids(frame.savedGp - {FP, LR}) else Ids(frame.Saved(group))
  }

  /** The registers that the prolog saves. */
  function Covered(frame: Frame, group: Group): set<nat> {
    if group.Gp? && frame.preservedFp then frame.savedGp + {FP, LR} else frame.Saved(group)
  }

  lemma {:induction false} IdsAreDistinct(mask: set<nat>)
    requires IsMask(mask)
    ensures Distinct(Ids(mask))
    decreases |mask|
  {
    if mask != {} {
      var rest := mask - {Lowest(mask)};
      IdsAreDistinct(rest);
      IdsOfMask(rest);
      assert forall j | 0 <= j < |Ids(rest)| :: Ids(rest)[j] in Ids(rest);
    }
  }

  predicate Distinct(ids: seq<nat>) {
    forall i, j | 0 <= i < j < |ids| :: ids[i] != ids[j]
  }

  lemma {:induction false} PrependTwo(a: nat, b: nat, ids: seq<nat>)
    requires a != b && a !in ids && b !in ids && Distinct(ids)
    ensures Distinct([a, b] + ids) && forall r :: r in [a, b] + ids <==> r == a || r == b || r in ids
  {
    var all := [a, b] + ids;
    assert all[2..] == ids;
    forall i, j | 0 <= i < j < |all| ensures all[i] != all[j] {
      if j >= 2 { assert all[j] == ids[j - 2] && all[j] in ids; }
      if i >= 2 { assert all[i] == ids[i - 2]; }
    }
    forall r ensures r in all <==> r == a || r == b || r in ids {
      if r in ids { assert r in all[2..]; }
      assert all[0] == a && all[1] == b;
    }
  }

  /** Every covered register is saved exactly once. */
  lemma {:induction false} OrderCoversOnce(frame: Frame, group: Group)
    requires frame.Valid()
    ensures Distinct(Order(frame, group)) && |Order(frame, group)| <= 32
    ensures forall r :: r in Order(frame, group) <==> r in Covered(frame, group)
  {
    hide Ids, Distinct;
    var saved := frame.Saved(group);
    if group.Gp? && frame.preservedFp {
      var rest := saved - {FP, LR};
      IdsOfMask(rest);
      IdsAreDistinct(rest);
      PrependTwo(FP, LR, Ids(rest));
      MaskSize(rest, 29) by { assert forall r | r in rest :: r < 29; }
    } else {
      IdsOfMask(saved);
      IdsAreDistinct(saved);
      MaskSize(saved, 32);
    }
  }

  lemma {:induction false} GroupPairsOfOrder(frame: Frame, group: Group, offset: nat)
    requires frame.Valid()
    ensures GroupPairs(frame, group, offset) == PairUp(Order(frame, group), offset, frame.SlotSize(group))
  {
    if group.Gp? && frame.preservedFp {
      var order := Order(frame, group);
      assert order[0] == FP && order[1] == LR && order[2..] == Ids(frame.savedGp - {FP, LR});
    }
  }

  lemma {:induction false} PairAt(ids: seq<nat>, offset: nat, slot: nat, k: nat)
    requires slot in {8, 16} && 2 * k < |ids|
    ensures k < |PairUp(ids, offset, slot)|
    ensures PairUp(ids, offset, slot)[k]
         == RegPair(ids[2 * k], if 2 * k + 1 < |ids| then ids[2 * k + 1] else BAD, offset + PairBytes(k, slot))
    decreases k
  {
    if k > 0 { PairAt(ids[2..], offset + slot * 2, slot, k - 1); }
  }

  // --- The program ---

  class GroupData {
    const pairs: array<RegPair>
    var pairCount: nat

    constructor ()
      ensures fresh(pairs) && pairs.Length == MAX_PAIRS
    {
      pairs := new RegPair[MAX_PAIRS](_ => RegPair(0, 0, 0));
      pairCount := 0;
    }

    /** The pairs that are in use. */
    function Pairs(): seq<RegPair>
      requires pairCount <= pairs.Length
      reads this, pairs
    {
      pairs[..pairCount]
    }
  }

  class PrologEpilogInfo {
    const groups: map<Group, GroupData>
    var sizeTotal: nat

    constructor ()
      ensures Gp in groups && Vec in groups && groups[Gp] != groups[Vec]
      ensures fresh(groups[Gp]) && fresh(groups[Vec]) && fresh(groups[Gp].pairs) && fresh(groups[Vec].pairs)
      ensures groups[Gp].pairs != groups[Vec].pairs
      ensures groups[Gp].pairs.Length == groups[Vec].pairs.Length == MAX_PAIRS
    {
      var gp := new GroupData();
      var vec := new GroupData();
      groups := map[Gp := gp, Vec := vec];
      sizeTotal := 0;
    }

    method Init(frame: Frame)
      requires frame.Valid()
      requires Gp in groups && Vec in groups && groups[Gp] != groups[Vec]
      requires groups[Gp].pairs != groups[Vec].pairs
      requires groups[Gp].pairs.Length == groups[Vec].pairs.Length == MAX_PAIRS
      modifies this, groups[Gp], groups[Vec], groups[Gp].pairs, groups[Vec].pairs
      ensures groups[Gp].pairCount <= MAX_PAIRS && groups[Gp].Pairs() == GpPairs(frame)
      ensures groups[Vec].pairCount <= MAX_PAIRS && groups[Vec].Pairs() == VecPairs(frame)
      ensures sizeTotal == SizeTotal(frame)
    {
      var offset := InitGroup(frame, Gp, groups[Gp], 0);
      offset := InitGroup(frame, Vec, groups[Vec], offset);
      sizeTotal := offset;
    }

    /** Saves a preserved frame pointer, with the link register, before all other registers. */
    static method InitFramePointer(frame: Frame, group: Group, pairs: array<RegPair>, start: nat)
      returns (offset: nat, pairCount: nat, savedRegs: set<nat>)
      requires frame.Valid() && pairs.Length == MAX_PAIRS && start <= 1024
      modifies pairs
      ensures pairCount <= 1 && IsMask(savedRegs) && offset == start + PairBytes(pairCount, frame.SlotSize(group))
      ensures GroupPairs(frame, group, start)
           == pairs[..pairCount] + PairUp(Ids(savedRegs), offset, frame.SlotSize(group))
    {
      hide Ids, PairUp;
      offset, pairCount, savedRegs := start, 0, frame.Saved(group);
      if group.Gp? && frame.preservedFp {
        pairs[0] := RegPair(FP, LR, offset % 0x1_0000);
        assert pairs[..1] == [RegPair(FP, LR, start)];
        offset := offset + frame.SlotSize(group) * 2;
        pairCount := pairCount + 1;
        savedRegs := savedRegs - {FP, LR};
      } else {
        assert pairs[..0] == [];
      }
    }

    /** Fills the pairs of one group, starting at `start`. */
    static method InitGroup(frame: Frame, group: Group, data: GroupData, start: nat) returns (offset: nat)
      requires frame.Valid() && data.pairs.Length == MAX_PAIRS && start <= 1024
      modifies data, data.pairs
      ensures data.pairCount <= MAX_PAIRS && data.Pairs() == GroupPairs(frame, group, start)
      ensures offset == start + PairBytes(data.pairCount, frame.SlotSize(group))
    {
      PairCountBound(frame, group, start);
      hide GroupPairs, PairUp, Ids;
      var pairCount, savedRegs;
      offset, pairCount, savedRegs := InitFramePointer(frame, group, data.pairs, start);
      offset, pairCount := InitPairs(data.pairs, savedRegs, offset, pairCount, frame.SlotSize(group));
      data.pairCount := pairCount;
    }

    static method PutFirst(pairs: array<RegPair>, k: nat, id: nat)
      requires k < pairs.Length && id < 0x100
      modifies pairs
      ensures pairs[..k] == old(pairs[..k]) && pairs[k].id0 == id
    {
      pairs[k] := pairs[k].(id0 := id % 0x100);
    }

    static method PutSecond(pairs: array<RegPair>, k: nat, id: nat, offset: nat)
      requires k < pairs.Length && id < 0x100 && offset < 0x1_0000
      modifies pairs
      ensures pairs[..k + 1] == old(pairs[..k] + [RegPair(pairs[k].id0, id, offset)])
    {
      pairs[k] := pairs[k].(id1 := id % 0x100, offset := offset % 0x1_0000);
    }

    /** With `n` registers of the next pair placed (the first of them is `a`), the pairs in `done`
        and those still to come from `mask` are the result. */
    static ghost predicate Filling(pairs: array<RegPair>, done: seq<RegPair>, n: nat, a: nat, mask: set<nat>,
                                   offset: nat, slot: nat, result: seq<RegPair>)
      reads pairs
    {
      && IsMask(mask) && n <= 1 && |done| <= |result| <= MAX_PAIRS == pairs.Length
      && offset < 0x1_0000 && done == pairs[..|done|]
      && (n == 0 ==> result == done + PairUp(Ids(mask), offset, slot))
      && (n == 1 ==> result == done + PairUp([a] + Ids(mask), offset, slot))
      && (n == 1 ==> |done| < |result| && a == pairs[|done|].id0)
    }

    static method PlaceFirst(pairs: array<RegPair>, k: nat, id: nat, ghost done: seq<RegPair>, ghost mask: set<nat>,
                             ghost offset: nat, ghost slot: nat, ghost result: seq<RegPair>)
      requires Filling(pairs, done, 0, 0, mask, offset, slot, result)
      requires mask != {} && id == Lowest(mask) && k == |done|
      modifies pairs
      ensures Filling(pairs, done, 1, id, mask - {id}, offset, slot, result)
    {
      hide Ids, PairUp, Lowest;
      PairUpOne(mask, offset, slot);
      PutFirst(pairs, k, id);
    }

    static method PlaceSecond(pairs: array<RegPair>, k: nat, id: nat, ghost done: seq<RegPair>, ghost a: nat, ghost mask: set<nat>,
                              offset: nat, ghost slot: nat, ghost result: seq<RegPair>)
      requires Filling(pairs, done, 1, a, mask, offset, slot, result) && offset + slot * 2 < 0x1_0000
      requires mask != {} && id == Lowest(mask) && k == |done|
      modifies pairs
      ensures Filling(pairs, done + [RegPair(a, id, offset)], 0, 0, mask - {id}, offset + slot * 2, slot, result)
    {
      hide Ids, PairUp, Lowest;
      PairUpTwo(a, mask, offset, slot);
      AppendOne(done, RegPair(a, id, offset), PairUp(Ids(mask - {id}), offset + slot * 2, slot));
      PutSecond(pairs, k, id, offset);
    }

    /** Appends the registers of a mask two by two. */
    static method InitPairs(pairs: array<RegPair>, mask: set<nat>, start: nat, count: nat, slotSize: nat)
      returns (offset: nat, pairCount: nat)
      requires IsMask(mask) && slotSize in {8, 16} && start <= 2048
      requires pairs.Length == MAX_PAIRS && count + |PairUp(Ids(mask), start, slotSize)| <= MAX_PAIRS
      modifies pairs
      ensures pairCount <= MAX_PAIRS
      ensures pairs[..pairCount] == old(pairs[..count]) + PairUp(Ids(mask), start, slotSize)
      ensures offset == start + PairBytes(pairCount - count, slotSize)
    {
      var n, savedRegs := 0, mask;
      offset, pairCount := start, count;
      ghost var done, a := pairs[..count], 0;
      ghost var result := done + PairUp(Ids(mask), start, slotSize);
      hide Ids, PairUp, Lowest;
      while savedRegs != {}
        invariant count <= pairCount == |done| && Filling(pairs, done, n, a, savedRegs, offset, slotSize, result)
        invariant offset == start + PairBytes(pairCount - count, slotSize)
        decreases |savedRegs|
      {
        var id := Lowest(savedRegs);
        if n == 0 {
          PlaceFirst(pairs, pairCount, id, done, savedRegs, offset, slotSize, result);
          n, a := 1, id;
        } else {
          PlaceSecond(pairs, pairCount, id, done, a, savedRegs, offset, slotSize, result);
          done := done + [RegPair(a, id, offset)];
          n := 0;
          offset := offset + slotSize * 2;
          pairCount := pairCount + 1;
        }
        savedRegs := savedRegs - {id};
      }
      PairUpEnd(savedRegs, a, offset, slotSize);
      if n == 1 {
        PutSecond(pairs, pairCount, BAD, offset);
        offset := offset + slotSize * 2;
        pairCount := pairCount + 1;
      }
    }
  }
}
