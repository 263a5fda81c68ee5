/** The epilog undoes the prolog: for every frame, whatever the function body does, the machine ends
    up with the entry stack pointer and the entry values of all saved registers. */
module A64Restore {
  import opened A64Frame
  import opened A64Machine
  import opened A64Emit

  // --- The slots ---

  /** What the runs need of the slots: they are ordered, disjoint and inside the save area, which is
      aligned; the first one is at the bottom. */
  ghost predicate GoodSlots(saves: seq<Save>, total: nat) {
    && total % 16 == 0
    && (forall k | 0 <= k < |saves| :: GoodSlot(saves[k], total))
    && (forall k | 0 < k < |saves| :: saves[k - 1].offset + 16 <= saves[k].offset)
    && (saves != [] ==> saves[0].offset == 0)
  }

  predicate GoodSlot(p: Save, total: nat) {
    && p.offset % 16 == 0 && p.offset + 16 <= total
    && IsRegister(p.group, p.id0) && (p.id1 == BAD || IsRegister(p.group, p.id1))
  }

  /** The position of pair `k`. */
  function SlotOffset(frame: Frame, k: nat): nat
    requires frame.Valid()
  {
    var n := |GpPairs(frame)|;
    if k < n then 16 * k else GpSize(frame) + PairBytes(k - n, frame.slotVec)
  }

  function SlotGroup(frame: Frame, k: nat): Group
    requires frame.Valid()
  {
    if k < |GpPairs(frame)| then Gp else Vec
  }

  /** The index of pair `k` in its group. */
  function SlotIndex(frame: Frame, k: nat): nat
    requires frame.Valid()
  {
    if k < |GpPairs(frame)| then k else k - |GpPairs(frame)|
  }

  /** Where each pair of registers is saved, in closed form. */
  lemma {:induction false} SaveAt(frame: Frame, k: nat)
    requires frame.Valid() && k < |Saves(frame)|
    ensures var group := SlotGroup(frame, k); var i := SlotIndex(frame, k); var order := Order(frame, group);
            && 2 * i < |order|
            && Saves(frame)[k] == Save(group, order[2 * i], if 2 * i + 1 < |order| then order[2 * i + 1] else BAD,
                                       SlotOffset(frame, k))
  {
    var group, i := SlotGroup(frame, k), SlotIndex(frame, k);
    var start := if group.Gp? then 0 else GpSize(frame);
    GroupPairsOfOrder(frame, group, start);
    PairUpLength(Order(frame, group), start, frame.SlotSize(group));
    PairAt(Order(frame, group), start, frame.SlotSize(group), i);
  }

  lemma {:induction false} SlotsAreGood(frame: Frame)
    requires frame.Valid()
    ensures GoodSlots(Saves(frame), SizeTotal(frame))
  {
    hide Saves, Order, GpPairs, VecPairs;
    forall k | 0 <= k < |Saves(frame)| ensures GoodSlot(Saves(frame)[k], SizeTotal(frame)) {
      SaveAt(frame, k);
      OrderIsRegisters(frame, SlotGroup(frame, k));
      SlotFits(frame, k);
    }
    forall k | 0 < k < |Saves(frame)| ensures Saves(frame)[k - 1].offset + 16 <= Saves(frame)[k].offset {
      SaveAt(frame, k - 1);
      SaveAt(frame, k);
    }
    if Saves(frame) != [] { SaveAt(frame, 0); }
  }

  lemma {:induction false} OrderIsRegisters(frame: Frame, group: Group)
    requires frame.Valid()
    ensures forall i | 0 <= i < |Order(frame, group)| :: IsRegister(group, Order(frame, group)[i])
  {
    OrderCoversOnce(frame, group);
    forall i | 0 <= i < |Order(frame, group)| ensures IsRegister(group, Order(frame, group)[i]) {
      assert Order(frame, group)[i] in Covered(frame, group);
    }
  }

  lemma {:induction false} SlotFits(frame: Frame, k: nat)
    requires frame.Valid() && k < |Saves(frame)|
    ensures SlotOffset(frame, k) % 16 == 0 && SlotOffset(frame, k) + 16 <= SizeTotal(frame)
  {
    hide GpPairs, VecPairs;
  }

  lemma {:induction false} OffsetsGrow(saves: seq<Save>, total: nat, j: nat, k: nat)
    requires GoodSlots(saves, total) && j < k < |saves|
    ensures saves[j].offset + 16 <= saves[k].offset
  {
    if j < k - 1 { OffsetsGrow(saves, total, j, k - 1); }
  }

  // --- After the first instructions of the prolog ---

  /** The slot of `p` below the entry stack pointer holds the registers of the entry state. */
  ghost predicate Saved(entry: State, mem: map<int, int>, p: Save, total: nat)
    requires entry.Valid() && GoodSlot(p, total)
  {
    var a := entry.sp - total + p.offset;
    && Read(mem, a) == RegisterWord(entry, p.group, p.id0)
    && (p.id1 != BAD ==> Read(mem, a + 8) == RegisterWord(entry, p.group, p.id1))
  }

  /** Outside the save area of `total` bytes nothing differs. */
  ghost predicate SameOutside(entry: State, mem: map<int, int>, total: nat) {
    forall a | a < entry.sp - total || a >= entry.sp :: Read(mem, a) == Read(entry.mem, a)
  }

  /** Only the frame pointer may differ. */
  ghost predicate SameRegisters(entry: State, s: State, fpToo: bool) {
    && s.v == entry.v && s.pc == entry.pc && |s.x| == |entry.x|
    && forall r | 0 <= r < |entry.x| && (r != FP || fpToo) :: s.x[r] == entry.x[r]
  }

  ghost predicate AfterSaves(frame: Frame, saves: seq<Save>, total: nat, entry: State, s: State, k: nat)
    requires entry.Valid() && GoodSlots(saves, total) && k <= |saves|
  {
    && s.Valid() && s.sp == (if k == 0 then entry.sp else entry.sp - total)
    && SameRegisters(entry, s, k == 0 || !frame.preservedFp)
    && (k > 0 && frame.preservedFp ==> s.x[FP] == entry.sp - total)
    && SameOutside(entry, s.mem, total)
    && forall j | 0 <= j < k :: Saved(entry, s.mem, saves[j], total)
  }

  function StoreOf(p: Save, total: nat): Inst {
    if p.offset == 0 then Store(p.group, p.id0, p.id1, 0 - total, PreIndex)
    else Store(p.group, p.id0, p.id1, p.offset, Fixed)
  }

  lemma {:induction false} SlotIsAligned(sp: int, total: nat, offset: nat)
    requires sp % 16 == 0 && total % 16 == 0 && offset % 16 == 0
    ensures (sp - total) % 16 == 0 && (sp - total + offset) % 8 == 0
  {
    var a, b, c := sp / 16, total / 16, offset / 16;
    Multiple(16, a - b);
    Multiple(8, 2 * a - 2 * b + 2 * c);
  }

  lemma {:induction false} Multiple(m: nat, n: int)
    requires m == 8 || m == 16
    ensures (m * n) % m == 0
  {
  }

  lemma {:induction false} StoreIsOk(p: Save, total: nat, entry: State, s: State)
    requires GoodSlot(p, total) && total % 16 == 0 && entry.sp % 16 == 0
    requires s.sp == if p.offset == 0 then entry.sp else entry.sp - total
    ensures var i := StoreOf(p, total);
            && AccessOk(s, p.group, p.id0, p.id1, i.offset, i.mode)
            && Address(s, i.offset, i.mode) == entry.sp - total + p.offset
            && NewSp(s, i.offset, i.mode) == entry.sp - total
  {
    SlotIsAligned(entry.sp, total, p.offset);
  }

  lemma {:induction false} LoadIsOk(p: Save, total: nat, entry: State, s: State)
    requires GoodSlot(p, total) && total % 16 == 0 && entry.sp % 16 == 0 && s.sp == entry.sp - total
    ensures var i := LoadOf(p, total);
            && AccessOk(s, p.group, p.id0, p.id1, i.offset, i.mode)
            && Address(s, i.offset, i.mode) == entry.sp - total + p.offset
            && NewSp(s, i.offset, i.mode) == if p.offset == 0 then entry.sp else entry.sp - total
  {
    SlotIsAligned(entry.sp, total, p.offset);
  }

  /** A store writes its slot and nothing else. */
  lemma {:induction false} StoreEffect(p: Save, total: nat, entry: State, s: State)
    requires entry.Valid() && s.Valid() && GoodSlot(p, total) && total % 16 == 0 && entry.sp % 16 == 0
    requires s.sp == if p.offset == 0 then entry.sp else entry.sp - total
    requires RegisterWord(s, p.group, p.id0) == RegisterWord(entry, p.group, p.id0)
    requires p.id1 != BAD ==> RegisterWord(s, p.group, p.id1) == RegisterWord(entry, p.group, p.id1)
    ensures var r := Step(s, StoreOf(p, total)); var a := entry.sp - total + p.offset;
            && r.Running? && r.state == s.(sp := entry.sp - total, mem := r.state.mem)
            && Saved(entry, r.state.mem, p, total)
            && forall b | b != a && b != a + 8 :: Read(r.state.mem, b) == Read(s.mem, b)
  {
    StoreIsOk(p, total, entry, s);
    hide AccessOk, Address, NewSp;
  }

  lemma {:induction false} StoreSaves(frame: Frame, saves: seq<Save>, total: nat, entry: State, s: State, k: nat)
    requires entry.Valid() && GoodSlots(saves, total) && k < |saves| && entry.sp % 16 == 0
    requires AfterSaves(frame, saves, total, entry, s, k)
    requires frame.preservedFp && k > 0 && saves[k].group.Gp? ==> saves[k].id0 != FP && saves[k].id1 != FP
    ensures var r := Step(s, StoreOf(saves[k], total));
            && r.Running? && r.state == s.(sp := entry.sp - total, mem := r.state.mem)
            && SameOutside(entry, r.state.mem, total)
            && forall j | 0 <= j <= k :: Saved(entry, r.state.mem, saves[j], total)
  {
    hide Step, StoreOf;
    var p := saves[k];
    assert GoodSlot(p, total);
    if k > 0 { OffsetsGrow(saves, total, 0, k); }
    StoreEffect(p, total, entry, s);
    var mem := Step(s, StoreOf(p, total)).state.mem;
    forall j | 0 <= j <= k ensures Saved(entry, mem, saves[j], total) {
      if j < k {
        OffsetsGrow(saves, total, j, k);
        assert Saved(entry, s.mem, saves[j], total);
      }
    }
  }

  /** The frame pointer is saved by the first pair and by no other. */
  lemma {:induction false} FpIsSavedFirst(frame: Frame, k: nat)
    requires frame.Valid() && frame.preservedFp && k < |Saves(frame)|
    ensures k == 0 ==> Saves(frame)[k] == Save(Gp, FP, LR, 0)
    ensures k > 0 && Saves(frame)[k].group.Gp? ==> Saves(frame)[k].id0 != FP && Saves(frame)[k].id1 != FP
  {
    hide Saves, Ids;
    SaveAt(frame, k);
    var order := Order(frame, Gp);
    assert order[0] == FP && order[1] == LR;
    OrderCoversOnce(frame, Gp);
  }

  lemma {:induction false} SavesRun(frame: Frame, entry: State, k: nat)
    requires frame.Valid() && entry.Valid() && entry.sp % 16 == 0 && k <= |Saves(frame)|
    requires GoodSlots(Saves(frame), SizeTotal(frame))
    ensures var r := Run(SavesCode(frame, k), entry);
            r.Running? && AfterSaves(frame, Saves(frame), SizeTotal(frame), entry, r.state, k)
    decreases k
  {
    hide Saves, Order, GpPairs, VecPairs, Step, SizeTotal;
    if k > 0 {
      SavesRun(frame, entry, k - 1);
      var s := Run(SavesCode(frame, k - 1), entry).state;
      RunAppend(SavesCode(frame, k - 1), SaveCode(frame, k - 1), entry);
      SaveStep(frame, entry, s, k - 1);
    }
  }

  lemma {:induction false} SaveStep(frame: Frame, entry: State, s: State, k: nat)
    requires frame.Valid() && entry.Valid() && entry.sp % 16 == 0 && k < |Saves(frame)|
    requires GoodSlots(Saves(frame), SizeTotal(frame))
    requires AfterSaves(frame, Saves(frame), SizeTotal(frame), entry, s, k)
    ensures var r := Run(SaveCode(frame, k), s);
            r.Running? && AfterSaves(frame, Saves(frame), SizeTotal(frame), entry, r.state, k + 1)
  {
    hide Saves, GpPairs, VecPairs, SizeTotal;
    var saves, total := Saves(frame), SizeTotal(frame);
    assert GoodSlot(saves[k], total);
    if frame.preservedFp { FpIsSavedFirst(frame, k); FpIsSavedFirst(frame, 0); }
    StoreSaves(frame, saves, total, entry, s, k);
    var store := StoreOf(saves[k], total);
    assert StoreInst(frame, saves[k]) == store;
    var t := Step(s, store).state;
    RunOne(store, s);
    if frame.preservedFp && (k == 0 || k == |GpPairs(frame)|) {
      RunAppend([store], [MoveSpToFp], s);
      RunOne(MoveSpToFp, t);
    } else {
      assert SaveCode(frame, k) == [store];
    }
  }

  // --- The stack adjustment ---

  lemma {:induction false} SplitIsAligned(adj: nat)
    requires adj % 16 == 0
    ensures (adj % 0x1000) % 16 == 0 && (adj - adj % 0x1000) % 16 == 0
  {
    var q := adj / 16;
    assert adj == 16 * q;
    assert adj % 0x1000 == 16 * (q % 256);
  }

  lemma {:induction false} SubRuns(adj: nat, s: State)
    requires s.Valid() && s.sp % 16 == 0 && adj % 16 == 0
    ensures Run(SubCode(adj), s) == Running(s.(sp := s.sp - adj))
  {
    if adj == 0 {
    } else if adj <= 0xFFF {
      assert SubCode(adj) == [SubSp(adj)];
      RunOne(SubSp(adj), s);
    } else {
      SplitIsAligned(adj);
      SubTwo(adj % 0x1000, adj - adj % 0x1000, s);
      assert SubCode(adj) == [SubSp(adj % 0x1000)] + [SubSp(adj - adj % 0x1000)];
    }
  }

  lemma {:induction false} SubTwo(lo: nat, hi: nat, s: State)
    requires s.Valid() && s.sp % 16 == 0 && lo % 16 == 0 && hi % 16 == 0
    ensures Run([SubSp(lo)] + [SubSp(hi)], s) == Running(s.(sp := s.sp - (lo + hi)))
  {
    assert (s.sp - lo) % 16 == 0 && (s.sp - lo - hi) % 16 == 0;
    hide Run;
    RunAppend([SubSp(lo)], [SubSp(hi)], s);
    RunOne(SubSp(lo), s);
    RunOne(SubSp(hi), s.(sp := s.sp - lo));
  }

  lemma {:induction false} AddRuns(adj: nat, s: State)
    requires s.Valid() && s.sp % 16 == 0 && adj % 16 == 0
    ensures Run(AddCode(adj), s) == Running(s.(sp := s.sp + adj))
  {
    if adj == 0 {
    } else if adj <= 0xFFF {
      assert AddCode(adj) == [AddSp(adj)];
      RunOne(AddSp(adj), s);
    } else {
      SplitIsAligned(adj);
      AddTwo(adj % 0x1000, adj - adj % 0x1000, s);
      assert AddCode(adj) == [AddSp(adj % 0x1000)] + [AddSp(adj - adj % 0x1000)];
    }
  }

  lemma {:induction false} AddTwo(lo: nat, hi: nat, s: State)
    requires s.Valid() && s.sp % 16 == 0 && lo % 16 == 0 && hi % 16 == 0
    ensures Run([AddSp(lo)] + [AddSp(hi)], s) == Running(s.(sp := s.sp + (lo + hi)))
  {
    assert (s.sp + lo) % 16 == 0 && (s.sp + lo + hi) % 16 == 0;
    hide Run;
    RunAppend([AddSp(lo)], [AddSp(hi)], s);
    RunOne(AddSp(lo), s);
    RunOne(AddSp(hi), s.(sp := s.sp + lo));
  }

  /** The prolog has saved every pair and touched no memory outside the save area; a preserved frame
      pointer points to the bottom of the save area. */
  ghost predicate AfterProlog(frame: Frame, entry: State, s: State)
    requires frame.Valid() && entry.Valid() && GoodSlots(Saves(frame), SizeTotal(frame))
  {
    var total := SizeTotal(frame);
    && s.Valid() && s.sp == entry.sp - total - frame.adjustment
    && SameRegisters(entry, s, !frame.preservedFp) && SameOutside(entry, s.mem, total)
    && (frame.preservedFp ==> s.x[FP] == entry.sp - total)
    && forall j | 0 <= j < |Saves(frame)| :: Saved(entry, s.mem, Saves(frame)[j], total)
  }

  lemma {:induction false} AdjustedState(frame: Frame, entry: State, s: State)
    requires frame.Valid() && entry.Valid() && GoodSlots(Saves(frame), SizeTotal(frame))
    requires AfterSaves(frame, Saves(frame), SizeTotal(frame), entry, s, |Saves(frame)|)
    ensures s.sp == entry.sp - SizeTotal(frame)
    ensures AfterProlog(frame, entry, s.(sp := s.sp - frame.adjustment))
  {
    if |Saves(frame)| == 0 { EmptySave(frame); }
    if frame.preservedFp { PreservedFpIsSaved(frame); }
    hide Saves, SizeTotal;
  }

  /** The whole prolog runs without a fault. */
  lemma {:induction false} PrologRuns(frame: Frame, entry: State)
    requires frame.Valid() && frame.adjustment % 16 == 0 && entry.Valid() && entry.sp % 16 == 0
    ensures GoodSlots(Saves(frame), SizeTotal(frame))
    ensures Run(Prolog(frame), entry).Running? && AfterProlog(frame, entry, Run(Prolog(frame), entry).state)
  {
    SlotsAreGood(frame);
    hide Saves, SubCode, SavesCode, SizeTotal, Run, GoodSlots, AfterSaves, AfterProlog;
    var n := |Saves(frame)|;
    SavesRun(frame, entry, n);
    var s := Run(SavesCode(frame, n), entry).state;
    AdjustedState(frame, entry, s);
    RunAppend(SavesCode(frame, n), SubCode(frame.adjustment), entry);
    assert s.sp % 16 == 0 by { SizeIsAligned(frame); SlotIsAligned(entry.sp, SizeTotal(frame), 0); }
    SubRuns(frame.adjustment, s);
  }

  lemma {:induction false} SizeIsAligned(frame: Frame)
    requires frame.Valid()
    ensures SizeTotal(frame) % 16 == 0
  {
    hide GpPairs, VecPairs;
  }

  lemma {:induction false} EmptySave(frame: Frame)
    requires frame.Valid() && |Saves(frame)| == 0
    ensures SizeTotal(frame) == 0
  {
  }

  lemma {:induction false} PreservedFpIsSaved(frame: Frame)
    requires frame.Valid() && frame.preservedFp
    ensures |Saves(frame)| > 0
  {
  }

  // --- The epilog ---

  /** The register is in one of the pairs from `k` on. */
  ghost predicate InPairs(saves: seq<Save>, k: nat, group: Group, r: nat) {
    exists j | k <= j < |saves| :: saves[j].group == group && (saves[j].id0 == r || saves[j].id1 == r)
  }

  /** The state after the pairs from `k` on have been loaded: their registers have the values of the
      entry state, everything else is as the function body left it. */
  ghost predicate AfterLoads(saves: seq<Save>, total: nat, entry: State, body: State, t: State, k: nat)
    requires entry.Valid() && body.Valid()
  {
    && t.Valid() && t.sp == (if k == 0 then entry.sp else entry.sp - total)
    && t.mem == body.mem && t.pc == body.pc
    && (forall r: nat | r < 31 :: t.x[r] == if InPairs(saves, k, Gp, r) then entry.x[r] else body.x[r])
    && (forall r: nat | r < 32 :: t.v[r] == if InPairs(saves, k, Vec, r) then Vector(entry.v[r].lo, 0) else body.v[r])
  }

  function LoadOf(p: Save, total: nat): Inst {
    if p.offset == 0 then Load(p.group, p.id0, p.id1, total, PostIndex)
    else Load(p.group, p.id0, p.id1, p.offset, Fixed)
  }

  predicate InPair(p: Save, group: Group, r: nat) {
    p.group == group && (p.id0 == r || p.id1 == r)
  }

  /** A load restores the registers of its slot and nothing else. */
  lemma {:induction false} LoadEffect(p: Save, total: nat, entry: State, t: State)
    requires entry.Valid() && t.Valid() && GoodSlot(p, total) && total % 16 == 0 && entry.sp % 16 == 0
    requires t.sp == entry.sp - total && Saved(entry, t.mem, p, total)
    ensures var r := Step(t, LoadOf(p, total));
            && r.Running? && r.state == t.(sp := r.state.sp, x := r.state.x, v := r.state.v)
            && r.state.sp == (if p.offset == 0 then entry.sp else entry.sp - total)
            && (forall i: nat | i < 31 :: r.state.x[i] == if InPair(p, Gp, i) then entry.x[i] else t.x[i])
            && (forall i: nat | i < 32 :: r.state.v[i] == if InPair(p, Vec, i) then Vector(entry.v[i].lo, 0) else t.v[i])
  {
    LoadIsOk(p, total, entry, t);
    hide AccessOk, Address, NewSp;
  }

  lemma {:induction false} InPairsBelow(saves: seq<Save>, k: nat, group: Group, r: nat)
    requires k < |saves|
    ensures InPairs(saves, k, group, r) <==> InPair(saves[k], group, r) || InPairs(saves, k + 1, group, r)
  {
  }

  lemma {:induction false} LoadsRun(frame: Frame, entry: State, body: State, t: State, k: nat)
    requires frame.Valid() && entry.Valid() && body.Valid() && entry.sp % 16 == 0 && k <= |Saves(frame)|
    requires GoodSlots(Saves(frame), SizeTotal(frame))
    requires forall j | 0 <= j < |Saves(frame)| :: Saved(entry, body.mem, Saves(frame)[j], SizeTotal(frame))
    requires AfterLoads(Saves(frame), SizeTotal(frame), entry, body, t, k)
    ensures var r := Run(LoadsCode(frame, k), t);
            r.Running? && AfterLoads(Saves(frame), SizeTotal(frame), entry, body, r.state, 0)
    decreases k
  {
    hide Saves, Step, SizeTotal, InPairs, InPair;
    if k > 0 {
      var saves, total, p := Saves(frame), SizeTotal(frame), Saves(frame)[k - 1];
      assert GoodSlot(p, total) && Saved(entry, body.mem, p, total);
      if k > 1 { OffsetsGrow(saves, total, 0, k - 1); }
      LoadEffect(p, total, entry, t);
      assert LoadInst(frame, p) == LoadOf(p, total);
      var t' := Step(t, LoadInst(frame, p)).state;
      forall r: nat ensures InPairs(saves, k - 1, Gp, r) <==> InPair(p, Gp, r) || InPairs(saves, k, Gp, r) {
        InPairsBelow(saves, k - 1, Gp, r);
      }
      forall r: nat ensures InPairs(saves, k - 1, Vec, r) <==> InPair(p, Vec, r) || InPairs(saves, k, Vec, r) {
        InPairsBelow(saves, k - 1, Vec, r);
      }
      LoadsRun(frame, entry, body, t', k - 1);
    }
  }

  // --- Main results ---

  lemma {:induction false} PairsAreCovered(frame: Frame, group: Group, r: nat)
    requires frame.Valid() && IsRegister(group, r)
    ensures InPairs(Saves(frame), 0, group, r) <==> r in Covered(frame, group)
  {
    hide Saves, Order, Covered;
    OrderCoversOnce(frame, group);
    var saves, order := Saves(frame), Order(frame, group);
    if InPairs(saves, 0, group, r) {
      var j :| 0 <= j < |saves| && saves[j].group == group && (saves[j].id0 == r || saves[j].id1 == r);
      SaveAt(frame, j);
    }
    if r in order {
      var i :| 0 <= i < |order| && order[i] == r;
      var j := PairOf(frame, group, i);
      assert saves[j].group == group && (saves[j].id0 == r || saves[j].id1 == r);
    }
  }

  /** The pair that register number `i` of a group is in. */
  lemma {:induction false} PairOf(frame: Frame, group: Group, i: nat) returns (j: nat)
    requires frame.Valid() && i < |Order(frame, group)|
    ensures j < |Saves(frame)| && Saves(frame)[j].group == group
    ensures Order(frame, group)[i] == if i % 2 == 0 then Saves(frame)[j].id0 else Saves(frame)[j].id1
  {
    j := if group.Gp? then i / 2 else |GpPairs(frame)| + i / 2;
    GroupPairsOfOrder(frame, group, if group.Gp? then 0 else GpSize(frame));
    PairUpLength(Order(frame, group), if group.Gp? then 0 else GpSize(frame), frame.SlotSize(group));
    SaveAt(frame, j);
  }

  /** What the function body must respect: it leaves the stack pointer where the prolog put it, and
      does not write into the save area. */
  ghost predicate BodyKeeps(frame: Frame, entry: State, afterProlog: State, body: State)
    requires frame.Valid()
  {
    && body.Valid() && body.sp == afterProlog.sp
    && forall a | entry.sp - SizeTotal(frame) <= a < entry.sp :: Read(body.mem, a) == Read(afterProlog.mem, a)
  }

  /** The state after the epilog, from the entry state and the state the body leaves: the stack
      pointer and the covered registers are those of the entry (of vector registers, the low
      halves), everything else is what the body left, and control returns to the link register. */
  ghost predicate Restored(frame: Frame, entry: State, body: State, end: State)
    requires entry.Valid() && body.Valid()
  {
    && end.Valid() && end.sp == entry.sp && end.mem == body.mem && end.pc == end.x[LR]
    && (forall r: nat | r < 31 :: end.x[r] == if r in Covered(frame, Gp) then entry.x[r] else body.x[r])
    && (forall r: nat | r < 32 :: end.v[r] == if r in Covered(frame, Vec) then Vector(entry.v[r].lo, 0) else body.v[r])
  }

  /** For every frame: prolog, then any body that respects the stack, then epilog. Neither part of
      the code faults, and the epilog ends in the restored state. */
  lemma {:induction false} EpilogUndoesProlog(frame: Frame, entry: State, body: State)
    requires frame.Valid() && frame.adjustment % 16 == 0 && entry.Valid() && entry.sp % 16 == 0
    ensures Run(Prolog(frame), entry).Running?
    ensures BodyKeeps(frame, entry, Run(Prolog(frame), entry).state, body) ==>
            var r := Run(Epilog(frame), body);
            r.Running? && Restored(frame, entry, body, r.state)
  {
    PrologRuns(frame, entry);
    var mid := Run(Prolog(frame), entry).state;
    if BodyKeeps(frame, entry, mid, body) {
      BodyKeepsSlots(frame, entry, mid, body);
      EpilogRuns(frame, entry, body);
    }
  }

  lemma {:induction false} BodyKeepsSlots(frame: Frame, entry: State, mid: State, body: State)
    requires frame.Valid() && entry.Valid() && GoodSlots(Saves(frame), SizeTotal(frame))
    requires forall j | 0 <= j < |Saves(frame)| :: Saved(entry, mid.mem, Saves(frame)[j], SizeTotal(frame))
    requires BodyKeeps(frame, entry, mid, body)
    ensures forall j | 0 <= j < |Saves(frame)| :: Saved(entry, body.mem, Saves(frame)[j], SizeTotal(frame))
  {
    hide Saves, SizeTotal;
    forall j | 0 <= j < |Saves(frame)| ensures Saved(entry, body.mem, Saves(frame)[j], SizeTotal(frame)) {
      assert GoodSlot(Saves(frame)[j], SizeTotal(frame));
      assert Saved(entry, mid.mem, Saves(frame)[j], SizeTotal(frame));
    }
  }

  lemma {:induction false} EpilogRuns(frame: Frame, entry: State, body: State)
    requires frame.Valid() && frame.adjustment % 16 == 0 && entry.Valid() && entry.sp % 16 == 0 && body.Valid()
    requires GoodSlots(Saves(frame), SizeTotal(frame))
    requires forall j | 0 <= j < |Saves(frame)| :: Saved(entry, body.mem, Saves(frame)[j], SizeTotal(frame))
    requires body.sp == entry.sp - SizeTotal(frame) - frame.adjustment
    ensures var r := Run(Epilog(frame), body);
            r.Running? && Restored(frame, entry, body, r.state)
  {
    hide Saves, SizeTotal, AddCode, LoadsCode, Covered, AfterLoads, GoodSlots, Saved;
    var n, add, loads := |Saves(frame)|, AddCode(frame.adjustment), LoadsCode(frame, |Saves(frame)|);
    TotalIsAligned(Saves(frame), SizeTotal(frame));
    AddRuns(frame.adjustment, body);
    var t := Run(add, body).state;
    BeforeLoads(frame, entry, body, t);
    LoadsRun(frame, entry, body, t, n);
    var end := Run(loads, t).state;
    RunOne(Ret, end);
    RunAppend(add + loads, [Ret], body);
    RunAppend(add, loads, body);
    hide Run;
    AfterRet(frame, entry, body, end);
  }

  lemma {:induction false} TotalIsAligned(saves: seq<Save>, total: nat)
    requires GoodSlots(saves, total)
    ensures total % 16 == 0
  {
  }

  lemma {:induction false} BeforeLoads(frame: Frame, entry: State, body: State, t: State)
    requires frame.Valid() && entry.Valid() && body.Valid()
    requires t == body.(sp := entry.sp - SizeTotal(frame))
    ensures AfterLoads(Saves(frame), SizeTotal(frame), entry, body, t, |Saves(frame)|)
  {
    hide Saves, SizeTotal;
    if |Saves(frame)| == 0 { EmptySave(frame); }
  }

  lemma {:induction false} AfterRet(frame: Frame, entry: State, body: State, end: State)
    requires frame.Valid() && entry.Valid() && body.Valid()
    requires AfterLoads(Saves(frame), SizeTotal(frame), entry, body, end, 0)
    ensures Restored(frame, entry, body, end.(pc := end.x[LR]))
  {
    hide Saves, SizeTotal, Covered, InPairs;
    forall r: nat | r < 32 ensures r < 31 ==> (InPairs(Saves(frame), 0, Gp, r) <==> r in Covered(frame, Gp))
                           ensures InPairs(Saves(frame), 0, Vec, r) <==> r in Covered(frame, Vec) {
      if r < 31 { PairsAreCovered(frame, Gp, r); }
      PairsAreCovered(frame, Vec, r);
    }
  }

  /** If the link register is saved, or the body leaves it alone, the function returns to its
      caller. */
  lemma {:induction false} ReturnsToCaller(frame: Frame, entry: State, body: State)
    requires frame.Valid() && frame.adjustment % 16 == 0 && entry.Valid() && entry.sp % 16 == 0
    requires Run(Prolog(frame), entry).Running?
    requires BodyKeeps(frame, entry, Run(Prolog(frame), entry).state, body)
    requires LR in Covered(frame, Gp) || body.x[LR] == entry.x[LR]
    ensures var r := Run(Epilog(frame), body); r.Running? && r.state.pc == entry.x[LR] && r.state.sp == entry.sp
  {
    hide Run, Prolog, Epilog;
    EpilogUndoesProlog(frame, entry, body);
  }

  /** A preserved frame pointer points to a frame record as section 6.4.6 of AAPCS64 wants it: the
      caller's frame pointer, and the return address above it. */
  lemma {:induction false} FrameRecord(frame: Frame, entry: State)
    requires frame.Valid() && frame.preservedFp && frame.adjustment % 16 == 0 && entry.Valid() && entry.sp % 16 == 0
    ensures var r := Run(Prolog(frame), entry); var fp := entry.sp - SizeTotal(frame);
            && r.Running? && r.state.x[FP] == fp
            && Read(r.state.mem, fp) == entry.x[FP] && Read(r.state.mem, fp + 8) == entry.x[LR]
  {
    PrologRuns(frame, entry);
    PreservedFpIsSaved(frame);
    FpIsSavedFirst(frame, 0);
    hide Saves, SizeTotal, Run, Prolog;
    assert Saved(entry, Run(Prolog(frame), entry).state.mem, Saves(frame)[0], SizeTotal(frame));
  }
}
