/** Where an AArch64 prolog leaves the registers in memory, by their numbers alone
    (asmjit/arm/a64emithelper.cpp). */
module A64Words {
  import opened A64Frame
  import opened A64Machine
  import opened A64Emit
  import opened A64Restore
  import A64Layout

  /** How many registers of the mask come before `r`. */
  function Rank(mask: set<nat>, r: nat): nat {
    |set m | m in mask && m < r|
  }

  /** A preserved frame pointer and the link register come first, then the general purpose registers in
      ascending order. */
  function GpRank(frame: Frame, r: nat): nat {
    if !frame.preservedFp then Rank(frame.savedGp, r)
    else if r == FP then 0
    else if r == LR then 1
    else 2 + Rank(frame.savedGp - {FP, LR}, r)
  }

  function GpCount(frame: Frame): nat {
    if frame.preservedFp then 2 + |frame.savedGp - {FP, LR}| else |frame.savedGp|
  }

  /** General purpose registers take 8 bytes each, and the vector registers begin at the next multiple of
      16. These are stored two by two, next to each other, in pairs of slots. */
  function Place(frame: Frame, group: Group, r: nat): nat {
    if group.Gp? then 8 * GpRank(frame, r)
    else
      var k := Rank(frame.savedVec, r);
      16 * ((GpCount(frame) + 1) / 2) + frame.slotVec * 2 * (k / 2) + 8 * (k % 2)
  }

  function AreaSize(frame: Frame): nat {
    16 * ((GpCount(frame) + 1) / 2) + frame.slotVec * 2 * ((|frame.savedVec| + 1) / 2)
  }

  lemma {:induction false} IdsAscend(mask: set<nat>, r: nat)
    requires IsMask(mask) && r in mask
    ensures Rank(mask, r) < |Ids(mask)| && Ids(mask)[Rank(mask, r)] == r
    decreases |mask|
  {
    var low := Lowest(mask);
    var rest := mask - {low};
    if r == low {
      assert (set m | m in mask && m < r) == {};
    } else {
      IdsAscend(rest, r);
      assert (set m | m in mask && m < r) == (set m | m in rest && m < r) + {low};
    }
  }

  /** The place of a register in the order of its group. */
  function RankOf(frame: Frame, group: Group, r: nat): nat {
    if group.Gp? then GpRank(frame, r) else Rank(frame.savedVec, r)
  }

  lemma {:induction false} OrderIsByRank(frame: Frame, group: Group, r: nat)
    requires frame.Valid() && r in Covered(frame, group)
    ensures RankOf(frame, group, r) < |Order(frame, group)| && Order(frame, group)[RankOf(frame, group, r)] == r
  {
    hide Ids;
    if group.Gp? && frame.preservedFp {
      var rest := frame.savedGp - {FP, LR};
      if r in rest { IdsAscend(rest, r); }
      assert Order(frame, Gp) == [FP, LR] + Ids(rest);
    } else {
      IdsAscend(frame.Saved(group), r);
    }
  }

  lemma {:induction false} Sizes(frame: Frame)
    requires frame.Valid()
    ensures |GpPairs(frame)| == (GpCount(frame) + 1) / 2 && SizeTotal(frame) == AreaSize(frame)
    ensures |Saves(frame)| == |GpPairs(frame)| + (|Order(frame, Vec)| + 1) / 2
  {
    A64Layout.PairCount(frame);
    A64Layout.OrderSize(frame, Gp);
    A64Layout.OrderSize(frame, Vec);
    hide GpPairs, VecPairs, Order, Saves;
    PairBytesIs((|frame.savedVec| + 1) / 2, frame.slotVec);
    hide PairBytes;
  }

  lemma {:induction false} PairBytesIs(n: nat, slot: nat)
    requires slot == 8 || slot == 16
    ensures PairBytes(n, slot) == slot * 2 * n
  {
  }

  /** The pair that a register is in. */
  lemma {:induction false} PairOfRegister(frame: Frame, group: Group, r: nat) returns (j: nat)
    requires frame.Valid() && r in Covered(frame, group)
    ensures j < |Saves(frame)| && Saves(frame)[j].group == group
    ensures Place(frame, group, r) == Saves(frame)[j].offset + if Saves(frame)[j].id0 == r then 0 else 8
    ensures Saves(frame)[j].id0 == r || Saves(frame)[j].id1 == r != BAD
  {
    var k, order := RankOf(frame, group, r), Order(frame, group);
    OrderIsByRank(frame, group, r);
    assert order[k / 2 * 2] == r <==> k % 2 == 0 by { OrderCoversOnce(frame, group); }
    j := PairAtRank(frame, group, k);
    PlaceOfRank(frame, group, r);
    OrderIsRegisters(frame, group);
    hide Order, Saves, SlotOffset, Place, RankOf, Covered;
    assert order[k] != BAD;
  }

  lemma {:induction false} PairAtRank(frame: Frame, group: Group, k: nat) returns (j: nat)
    requires frame.Valid() && k < |Order(frame, group)|
    ensures var order := Order(frame, group);
            && j < |Saves(frame)| && SlotOffset(frame, j) == RankOffset(frame, group, k)
            && Saves(frame)[j] == Save(group, order[k / 2 * 2], if k / 2 * 2 + 1 < |order| then order[k / 2 * 2 + 1] else BAD,
                                       RankOffset(frame, group, k))
  {
    A64Layout.PairCount(frame);
    j := (if group.Gp? then 0 else |GpPairs(frame)|) + k / 2;
    hide Order, Saves, GpPairs, VecPairs;
    SaveAt(frame, j);
  }

  /** The offset of the pair in which register number `k` of a group is. */
  function RankOffset(frame: Frame, group: Group, k: nat): nat
    requires frame.Valid()
  {
    if group.Gp? then 16 * (k / 2) else GpSize(frame) + PairBytes(k / 2, frame.slotVec)
  }

  lemma {:induction false} PlaceOfRank(frame: Frame, group: Group, r: nat)
    requires frame.Valid()
    ensures var k := RankOf(frame, group, r); Place(frame, group, r) == RankOffset(frame, group, k) + 8 * (k % 2)
  {
    Sizes(frame);
    var k := RankOf(frame, group, r);
    hide GpPairs, VecPairs, GpRank, GpCount, Rank, Order, Saves;
    PairPlaces(k, frame.slotVec);
  }

  lemma {:induction false} PairPlaces(k: nat, slot: nat)
    requires slot == 8 || slot == 16
    ensures 16 * (k / 2) + 8 * (k % 2) == 8 * k
    ensures PairBytes(k / 2, slot) == slot * 2 * (k / 2)
  {
  }

  /** After the prolog, every saved register is at its place above the adjusted stack pointer. */
  lemma {:induction false} SavedWords(frame: Frame, entry: State, group: Group, r: nat)
    requires frame.Valid() && frame.adjustment % 16 == 0 && entry.Valid() && entry.sp % 16 == 0
    requires r in Covered(frame, group)
    ensures var end := Run(Prolog(frame), entry);
            && end.Running? && end.state.sp == entry.sp - AreaSize(frame) - frame.adjustment
            && Read(end.state.mem, end.state.sp + frame.adjustment + Place(frame, group, r))
               == if group.Gp? then entry.x[r] else entry.v[r].lo
  {
    hide *;
    PrologRuns(frame, entry);
    WordsAfterProlog(frame, entry, Run(Prolog(frame), entry).state, group, r);
  }

  lemma {:induction false} WordsAfterProlog(frame: Frame, entry: State, s: State, group: Group, r: nat)
    requires frame.Valid() && entry.Valid() && GoodSlots(Saves(frame), SizeTotal(frame)) && AfterProlog(frame, entry, s)
    requires r in Covered(frame, group)
    ensures s.sp == entry.sp - AreaSize(frame) - frame.adjustment
    ensures Read(s.mem, s.sp + frame.adjustment + Place(frame, group, r)) == if group.Gp? then entry.x[r] else entry.v[r].lo
  {
    SizeIsArea(frame);
    var j := PairOfRegister(frame, group, r);
    hide Saves, SizeTotal, Covered, Place, AreaSize, SameOutside, SameRegisters, Read;
    assert Saved(entry, s.mem, Saves(frame)[j], SizeTotal(frame));
  }

  lemma {:induction false} SizeIsArea(frame: Frame)
    requires frame.Valid()
    ensures SizeTotal(frame) == AreaSize(frame)
  {
    hide *;
    Sizes(frame);
  }
}
