/** The save area of an AArch64 frame: its slots, its size, and when its offsets can be encoded. */
module A64Layout {
  import opened A64Frame
  import opened A64Machine
  import opened A64Emit
  import opened A64Restore
  import opened Arithmetic

  /** Where register number `i` of a group is saved, relative to the bottom of the save area. */
  function RegisterOffset(frame: Frame, group: Group, i: nat): nat
    requires frame.Valid()
  {
    (if group.Gp? then 0 else GpSize(frame)) + PairBytes(i / 2, frame.SlotSize(group)) + 8 * (i % 2)
  }

  lemma {:induction false} PairCount(frame: Frame)
    requires frame.Valid()
    ensures |GpPairs(frame)| == (|Order(frame, Gp)| + 1) / 2 && |VecPairs(frame)| == (|Order(frame, Vec)| + 1) / 2
    ensures |Saves(frame)| == |GpPairs(frame)| + |VecPairs(frame)|
  {
    GroupPairsOfOrder(frame, Gp, 0);
    PairUpLength(Order(frame, Gp), 0, 8);
    GroupPairsOfOrder(frame, Vec, GpSize(frame));
    PairUpLength(Order(frame, Vec), GpSize(frame), frame.slotVec);
  }

  /** The saved registers have disjoint doublewords inside the save area. */
  lemma {:induction false} RegistersAreDisjoint(frame: Frame, g: Group, i: nat, h: Group, j: nat)
    requires frame.Valid() && i < |Order(frame, g)| && j < |Order(frame, h)| && (g != h || i != j)
    ensures RegisterOffset(frame, g, i) + 8 <= SizeTotal(frame)
    ensures RegisterOffset(frame, g, i) + 8 <= RegisterOffset(frame, h, j)
         || RegisterOffset(frame, h, j) + 8 <= RegisterOffset(frame, g, i)
  {
    PairCount(frame);
    hide Order, GpPairs, VecPairs, Saves;
    if g == h {
      var lo, hi := if i < j then i else j, if i < j then j else i;
      assert lo / 2 < hi / 2 || (lo / 2 == hi / 2 && lo % 2 == 0 && hi % 2 == 1);
    }
  }

  // --- Sizes ---

  predicate IsCdecl(frame: Frame) {
    && (forall r | r in frame.savedGp :: 18 <= r <= 30) && (forall r | r in frame.savedVec :: 8 <= r <= 15)
    && frame.slotVec == 8
  }

  lemma {:induction false} RangeSize(mask: set<nat>, lo: nat, hi: nat)
    requires lo <= hi && forall r | r in mask :: lo <= r < hi
    ensures |mask| <= hi - lo
  {
    if lo < hi {
      RangeSize(mask - {hi - 1}, lo, hi - 1);
    } else {
      assert mask == {};
    }
  }

  lemma {:induction false} OrderSize(frame: Frame, group: Group)
    requires frame.Valid()
    ensures |Order(frame, group)|
         == if group.Gp? && frame.preservedFp then 2 + |frame.savedGp - {FP, LR}| else |frame.Saved(group)|
  {
    IdsOfMask(frame.Saved(group));
    IdsOfMask(frame.savedGp - {FP, LR});
  }

  /** The save area of a function with the standard convention has at most 176 bytes. */
  lemma {:induction false} CdeclSize(frame: Frame)
    requires frame.Valid() && IsCdecl(frame)
    ensures SizeTotal(frame) <= 176
  {
    hide Order, GpPairs, VecPairs, Saves;
    PairCount(frame);
    CdeclCounts(frame);
  }

  lemma {:induction false} CdeclCounts(frame: Frame)
    requires frame.Valid() && IsCdecl(frame)
    ensures |Order(frame, Gp)| <= 13 && |Order(frame, Vec)| <= 8
  {
    hide Order;
    OrderSize(frame, Gp);
    OrderSize(frame, Vec);
    RangeSize(frame.savedVec, 8, 16);
    if frame.preservedFp {
      RangeSize(frame.savedGp - {FP, LR}, 18, 29);
    } else {
      RangeSize(frame.savedGp, 18, 31);
    }
  }

  // --- Encodability ---

  /** The reach of the store that moves the stack pointer: a single register allows less than a
      pair. */
  function Reach(frame: Frame): nat
    requires frame.Valid() && Saves(frame) != []
  {
    if Saves(frame)[0].id1 == BAD then 256 else 512
  }

  /** The store that moves the stack pointer down, and the load that moves it up again. */
  lemma {:induction false} FirstAccess(group: Group, id0: nat, id1: nat, total: int)
    requires total >= 0 && IsRegister(group, id0) && (id1 == BAD || IsRegister(group, id1)) && total % 16 == 0
    ensures EncodableAccess(group, id0, id1, -total, PreIndex) <==> total <= if id1 == BAD then 256 else 512
    ensures EncodableAccess(group, id0, id1, total, PostIndex) <==> total < if id1 == BAD then 256 else 512
  {
    var t := total / 16;
    assert total == 16 * t;
  }

  lemma {:induction false} OtherAccess(group: Group, id0: nat, id1: nat, offset: nat)
    requires IsRegister(group, id0) && (id1 == BAD || IsRegister(group, id1)) && offset % 16 == 0 && offset < 512
    ensures EncodableAccess(group, id0, id1, offset, Fixed)
  {
    var q := offset / 16;
    assert offset == 16 * q;
  }

  lemma {:induction false} StoreReach(frame: Frame, k: nat)
    requires frame.Valid() && k < |Saves(frame)|
    ensures k == 0 ==> (Encodable(StoreInst(frame, Saves(frame)[0])) <==> SizeTotal(frame) <= Reach(frame))
    ensures k > 0 && SizeTotal(frame) <= 512 ==> Encodable(StoreInst(frame, Saves(frame)[k]))
    ensures k == 0 ==> (Encodable(LoadInst(frame, Saves(frame)[0])) <==> SizeTotal(frame) < Reach(frame))
    ensures k > 0 && SizeTotal(frame) <= 512 ==> Encodable(LoadInst(frame, Saves(frame)[k]))
  {
    SlotsAreGood(frame);
    hide Saves, SizeTotal, EncodableAccess, IsRegister;
    var p, total := Saves(frame)[k], SizeTotal(frame);
    assert GoodSlot(p, total);
    if k == 0 {
      FirstAccess(p.group, p.id0, p.id1, total);
    } else {
      OffsetsGrow(Saves(frame), total, 0, k);
      if p.offset < 512 { OtherAccess(p.group, p.id0, p.id1, p.offset); }
    }
  }

  lemma {:induction false} SavesEncodable(frame: Frame, n: nat)
    requires frame.Valid() && n <= |Saves(frame)|
    ensures AllEncodable(SavesCode(frame, n)) <==> forall k | 0 <= k < n :: Encodable(StoreInst(frame, Saves(frame)[k]))
  {
    hide Saves, StoreInst, AllEncodable;
    if n == 0 {
      NothingSaved(frame);
    } else {
      SavesEncodable(frame, n - 1);
      EncodableParts(SavesCode(frame, n - 1), SaveCode(frame, n - 1));
      SaveEncodable(frame, n - 1);
    }
  }

  lemma {:induction false} SaveEncodable(frame: Frame, k: nat)
    requires frame.Valid() && k < |Saves(frame)|
    ensures AllEncodable(SaveCode(frame, k)) <==> Encodable(StoreInst(frame, Saves(frame)[k]))
  {
    hide Saves, StoreInst;
    assert StoreInst(frame, Saves(frame)[k]) in SaveCode(frame, k);
  }

  lemma {:induction false} LoadsEncodable(frame: Frame, k: nat)
    requires frame.Valid() && k <= |Saves(frame)|
    ensures AllEncodable(LoadsDown(frame, k, |Saves(frame)|)) <==>
            forall j | k <= j < |Saves(frame)| :: Encodable(LoadInst(frame, Saves(frame)[j]))
    decreases |Saves(frame)| - k
  {
    hide Saves, LoadInst, AllEncodable;
    var n := |Saves(frame)|;
    if k == n {
      NothingLoaded(frame);
    } else {
      LoadsEncodable(frame, k + 1);
      var i := LoadInst(frame, Saves(frame)[k]);
      EncodableParts(LoadsDown(frame, k + 1, n), [i]);
      EncodableOne(i);
    }
  }

  lemma {:induction false} EncodableOne(i: Inst)
    ensures AllEncodable([i]) <==> Encodable(i)
  {
    assert i in [i];
  }

  lemma {:induction false} NothingLoaded(frame: Frame)
    requires frame.Valid()
    ensures AllEncodable(LoadsDown(frame, |Saves(frame)|, |Saves(frame)|))
  {
  }

  lemma {:induction false} AdjustmentEncodable(adj: nat)
    requires adj <= MAX_ADJUSTMENT
    ensures AllEncodable(SubCode(adj)) && AllEncodable(AddCode(adj))
  {
  }

  /** The prolog can be encoded exactly when its save area is within the reach of the first store;
      the epilog needs one slot less, because the offset of its last load is positive. */
  lemma {:induction false} EncodableWithinReach(frame: Frame)
    requires frame.Valid() && frame.adjustment <= MAX_ADJUSTMENT
    ensures AllEncodable(Prolog(frame)) <==> Saves(frame) == [] || SizeTotal(frame) <= Reach(frame)
    ensures AllEncodable(Epilog(frame)) <==> Saves(frame) == [] || SizeTotal(frame) < Reach(frame)
  {
    var n := |Saves(frame)|;
    AdjustmentEncodable(frame.adjustment);
    EncodableParts(SavesCode(frame, n), SubCode(frame.adjustment));
    EpilogParts(frame);
    SavesEncodable(frame, n);
    LoadsEncodable(frame, 0);
    hide Saves, SizeTotal, AllEncodable, StoreInst, LoadInst, Encodable;
    forall k | 0 <= k < n
      ensures k == 0 ==> (Encodable(StoreInst(frame, Saves(frame)[k])) <==> SizeTotal(frame) <= Reach(frame))
      ensures k > 0 && SizeTotal(frame) <= 512 ==> Encodable(StoreInst(frame, Saves(frame)[k]))
      ensures k == 0 ==> (Encodable(LoadInst(frame, Saves(frame)[k])) <==> SizeTotal(frame) < Reach(frame))
      ensures k > 0 && SizeTotal(frame) <= 512 ==> Encodable(LoadInst(frame, Saves(frame)[k]))
    {
      StoreReach(frame, k);
    }
  }

  /** For the standard convention, every prolog and epilog can be encoded. */
  lemma {:induction false} CdeclIsEncodable(frame: Frame)
    requires frame.Valid() && IsCdecl(frame) && frame.adjustment <= MAX_ADJUSTMENT
    ensures AllEncodable(Prolog(frame)) && AllEncodable(Epilog(frame))
  {
    CdeclSize(frame);
    EncodableWithinReach(frame);
  }

  /** Exactly the frames that just fill the reach can be entered but not left. */
  lemma {:induction false} OnlyPrologEncodable(frame: Frame)
    requires frame.Valid() && frame.adjustment <= MAX_ADJUSTMENT
    ensures AllEncodable(Prolog(frame)) && !AllEncodable(Epilog(frame)) <==>
            Saves(frame) != [] && SizeTotal(frame) == Reach(frame)
  {
    EncodableWithinReach(frame);
    hide AllEncodable, Prolog, Epilog, Saves, SizeTotal, Reach;
  }

  /** The registers from `lo` on, `n` of them. */
  function Registers(lo: nat, n: nat): (mask: set<nat>)
    ensures forall r :: r in mask <==> lo <= r < lo + n
    ensures |mask| == n
  {
    if n == 0 then {} else Registers(lo, n - 1) + {lo + n - 1}
  }

  /** A frame that the masks of the other conventions allow: all of x4 to x30 and v4 to v20. */
  const FULL_FRAME := Frame(Registers(4, 27), Registers(4, 17), 16, true, 0)

  lemma {:induction false} FullFrameHasNoEpilog()
    ensures FULL_FRAME.Valid() && SizeTotal(FULL_FRAME) == 512
    ensures AllEncodable(Prolog(FULL_FRAME)) && !AllEncodable(Epilog(FULL_FRAME))
  {
    hide AllEncodable, Prolog, Epilog, Saves, SizeTotal, GpPairs, VecPairs, Registers;
    SizeOfCounts(FULL_FRAME);
    PairCount(FULL_FRAME);
    FpIsSavedFirst(FULL_FRAME, 0);
    OnlyPrologEncodable(FULL_FRAME);
  }

  // --- The size that FuncFrame::finalize counts on ---

  /** The size of the save area according to FuncFrame::finalize: one slot for each register, aligned
      for each group. */
  function PushPopSaveSize(frame: Frame): nat {
    AlignUp(|frame.savedGp| * 8, 16) + AlignUp(|frame.savedVec| * frame.slotVec, 16)
  }

  /** Both sizes agree unless an odd number of vector registers is saved in slots of 16 bytes: the
      prolog then reserves a slot more, and the offsets of the stack arguments that finalize derives
      from its size are 16 bytes short. */
  lemma {:induction false} FinalizeAgrees(frame: Frame)
    requires frame.Valid() && (frame.preservedFp ==> FP in frame.savedGp && LR in frame.savedGp)
    ensures SizeTotal(frame) == PushPopSaveSize(frame) <==> frame.slotVec == 8 || |frame.savedVec| % 2 == 0
    ensures SizeTotal(frame) - PushPopSaveSize(frame) in {0, 16}
  {
    SizeOfCounts(frame);
    VectorBytes(|frame.savedVec|, frame.slotVec);
    hide SizeTotal, AlignUp, PairBytes;
    HalfRoundedUp(|frame.savedGp|);
  }

  /** Vector slots are counted in pairs by the prolog, and one by one by finalize. */
  lemma {:induction false} VectorBytes(v: nat, slot: nat)
    requires slot == 8 || slot == 16
    ensures PairBytes((v + 1) / 2, slot) == AlignUp(v * slot, 16) + if slot == 16 && v % 2 == 1 then 16 else 0
  {
    hide AlignUp;
    if slot == 8 { HalfRoundedUp(v); } else { WholeSlots(v); PairsOf(v); }
  }

  lemma {:induction false} PairsOf(v: nat)
    ensures (v + 1) / 2 * 32 == v * 16 + if v % 2 == 1 then 16 else 0
  {
  }

  lemma {:induction false} SizeOfCounts(frame: Frame)
    requires frame.Valid() && (frame.preservedFp ==> FP in frame.savedGp && LR in frame.savedGp)
    ensures SizeTotal(frame)
         == (|frame.savedGp| + 1) / 2 * 16 + PairBytes((|frame.savedVec| + 1) / 2, frame.slotVec)
  {
    PairCount(frame);
    OrderSize(frame, Gp);
    OrderSize(frame, Vec);
    if frame.preservedFp {
      assert frame.savedGp - {FP, LR} == (frame.savedGp - {FP}) - {LR};
    }
    hide Order, GpPairs, VecPairs, Saves;
  }

  lemma {:induction false} HalfRoundedUp(n: nat)
    ensures AlignUp(n * 8, 16) == (n + 1) / 2 * 16
  {
    assert (n * 8 + 15) / 16 == (n + 1) / 2;
  }

  lemma {:induction false} WholeSlots(n: nat)
    ensures AlignUp(n * 16, 16) == n * 16
  {
    assert (n * 16 + 15) / 16 == n;
  }

  // --- The adjustment that FuncFrame::finalize computes ---

  /** The stack that a function asks for. The alignment is the largest of the natural one and those
      of calls and of the local stack; above 16 bytes it is dynamic. */
  datatype StackUse = StackUse(callSize: nat, localSize: nat, alignment: nat)
  {
    predicate Valid() { alignment in {16, 32, 64, 128} }

    predicate Dynamic() { alignment >= 32 }
  }

  /** Where the frame ends, counted from the adjusted stack pointer, before the saved registers. */
  function FrameEnd(frame: Frame, u: StackUse): nat
    requires u.Valid()
  {
    AlignUp(u.callSize, u.alignment) + u.localSize + if u.Dynamic() && !frame.preservedFp then 8 else 0
  }

  /** Rounding up to the alignment of a function. */
  lemma {:induction false} RoundedUp(n: nat, alignment: nat)
    requires alignment in {16, 32, 64, 128}
    ensures AlignUp(n, alignment) >= n && AlignUp(n, alignment) % 16 == 0
  {
    AlignUpIsLeast(n, alignment);
    MultipleOf16(AlignUp(n, alignment), alignment);
  }

  lemma {:induction false} MultipleOf16(n: nat, alignment: nat)
    requires alignment in {16, 32, 64, 128} && n % alignment == 0
    ensures n % 16 == 0
  {
    var k := if alignment == 16 then 1 else if alignment == 32 then 2 else if alignment == 64 then 4 else 8;
    assert n == 16 * (k * (n / alignment));
  }

  lemma {:induction false} SumAndDifference(a: nat, b: nat)
    requires a % 16 == 0 && b % 16 == 0
    ensures (a + b) % 16 == 0 && (a >= b ==> (a - b) % 16 == 0)
  {
  }

  /** What is missing to the next multiple of the alignment. */
  function Padding(n: nat, alignment: nat): nat
    requires alignment in {16, 32, 64, 128}
  {
    RoundedUp(n, alignment);
    AlignUp(n, alignment) - n
  }

  function StackAdjustment(frame: Frame, u: StackUse): nat
    requires u.Valid()
  {
    var v := FrameEnd(frame, u);
    var padded := v + Padding(v + PushPopSaveSize(frame), u.alignment);
    if u.Dynamic() then AlignUp(padded, u.alignment) else padded
  }

  lemma {:induction false} SavedSizeIsAligned(frame: Frame)
    ensures PushPopSaveSize(frame) % 16 == 0
  {
    var gp, vec := |frame.savedGp| * 8, |frame.savedVec| * frame.slotVec;
    assert PushPopSaveSize(frame) == AlignUp(gp, 16) + AlignUp(vec, 16);
    hide *;
    RoundedUp(gp, 16);
    RoundedUp(vec, 16);
    SumAndDifference(AlignUp(gp, 16), AlignUp(vec, 16));
  }

  lemma {:induction false} Padded(v: nat, saved: nat, alignment: nat)
    requires alignment in {16, 32, 64, 128} && saved % 16 == 0
    ensures (v + Padding(v + saved, alignment)) % 16 == 0
  {
    hide AlignUp;
    RoundedUp(v + saved, alignment);
    SumAndDifference(AlignUp(v + saved, alignment), saved);
  }

  lemma {:induction false} FrameHasRoom(frame: Frame, u: StackUse)
    requires u.Valid()
    ensures FrameEnd(frame, u) >= u.callSize + u.localSize
  {
    hide AlignUp;
    RoundedUp(u.callSize, u.alignment);
  }

  /** Whatever stack a function asks for, finalize finds room for it and keeps the stack pointer at
      multiples of 16. */
  lemma {:induction false} FinalizeKeepsAlignment(frame: Frame, u: StackUse)
    requires u.Valid()
    ensures StackAdjustment(frame, u) % 16 == 0
    ensures StackAdjustment(frame, u) >= u.callSize + u.localSize
  {
    hide AlignUp, PushPopSaveSize, FrameEnd, Padding;
    var v, saved := FrameEnd(frame, u), PushPopSaveSize(frame);
    FrameHasRoom(frame, u);
    SavedSizeIsAligned(frame);
    Padded(v, saved, u.alignment);
    RoundedUp(v + Padding(v + saved, u.alignment), u.alignment);
  }

  /** A function whose frame was finalized returns to its caller as `Restored` says. */
  lemma {:induction false} FinalizedFrameIsRestored(frame: Frame, u: StackUse, entry: State, body: State)
    requires frame.Valid() && u.Valid() && frame.adjustment == StackAdjustment(frame, u)
    requires entry.Valid() && entry.sp % 16 == 0
    ensures Run(Prolog(frame), entry).Running?
    ensures BodyKeeps(frame, entry, Run(Prolog(frame), entry).state, body) ==>
            var r := Run(Epilog(frame), body);
            r.Running? && Restored(frame, entry, body, r.state)
  {
    FinalizeKeepsAlignment(frame, u);
    hide Run, Prolog, Epilog, BodyKeeps, Restored;
    EpilogUndoesProlog(frame, entry, body);
  }

  // --- Where the caller's stack arguments are ---

  /** What finalize takes for the distance of the arguments from the stack pointer, unless the stack
      is aligned dynamically: everything below the return address, which has no place of its own. */
  function ArgumentsFromSp(frame: Frame, u: StackUse): nat
    requires u.Valid()
  {
    FrameEnd(frame, u) + Padding(FrameEnd(frame, u) + PushPopSaveSize(frame), u.alignment) + PushPopSaveSize(frame)
  }

  /** What it takes for their distance from the frame pointer, or else from where the registers are
      saved. */
  function ArgumentsFromSa(frame: Frame): nat {
    if frame.preservedFp then 8 else PushPopSaveSize(frame)
  }

  /** The arguments are where the stack pointer was on entry. The offset from the stack pointer leads
      there exactly if finalize counted the save area right, and so does the one from the save area; the
      one from the frame pointer never does, since the frame record alone has 16 bytes. */
  lemma {:induction false} ArgumentOffsets(frame: Frame, u: StackUse, entry: State)
    requires frame.Valid() && (frame.preservedFp ==> FP in frame.savedGp && LR in frame.savedGp)
    requires u.Valid() && frame.adjustment == StackAdjustment(frame, u) && entry.Valid() && entry.sp % 16 == 0
    ensures Run(Prolog(frame), entry).Running?
    ensures var mid := Run(Prolog(frame), entry).state;
            && (!u.Dynamic() ==>
                  (mid.sp + ArgumentsFromSp(frame, u) == entry.sp <==> frame.slotVec == 8 || |frame.savedVec| % 2 == 0))
            && (!frame.preservedFp ==>
                  (mid.sp + frame.adjustment + ArgumentsFromSa(frame) == entry.sp <==>
                   frame.slotVec == 8 || |frame.savedVec| % 2 == 0))
            && (frame.preservedFp ==> mid.x[FP] + ArgumentsFromSa(frame) < entry.sp)
  {
    FinalizeKeepsAlignment(frame, u);
    FinalizeAgrees(frame);
    hide PushPopSaveSize, FrameEnd, Padding, AlignUp, SizeTotal, Run, Prolog, GoodSlots, Saves;
    PrologRuns(frame, entry);
    if frame.preservedFp { RecordSize(frame); }
  }

  lemma {:induction false} RecordSize(frame: Frame)
    requires frame.Valid() && frame.preservedFp && FP in frame.savedGp && LR in frame.savedGp
    ensures SizeTotal(frame) >= 16
  {
    SizeOfCounts(frame);
    assert frame.savedGp == frame.savedGp - {FP} + {FP};
    hide SizeTotal, PairBytes;
    assert |frame.savedGp| > 0;
  }
}
