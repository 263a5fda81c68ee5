/** Where the arguments of an AArch64 function are passed (asmjit/arm/a64func.cpp). */
module A64Args {
  import opened Arithmetic
  import opened Wrappers
  import A64Frame

  // --- Types, by their numbers (asmjit/core/type.h) ---

  type TypeId = t: nat | t < 256

  const UINT32: TypeId := 39
  const INT64: TypeId := 40
  const FLOAT80: TypeId := 44
  const INT8X16: TypeId := 71

  predicate IsInt(t: TypeId) {
    32 <= t <= 41
  }

  predicate IsFloatOrVec(t: TypeId) {
    42 <= t <= 44 || 51 <= t <= 100
  }

  /** The sizes in bytes of the types that are passed. Abstract integers have been replaced. */
  function SizeOf(t: TypeId): nat {
    if t < 34 then 0
    else if t <= 35 then 1
    else if t <= 37 then 2
    else if t <= 39 then 4
    else if t <= 41 then 8
    else if t == 42 then 4
    else if t == 43 then 8
    else if t == 44 then 10
    else if t <= 50 then 0
    else if t <= 60 then 4
    else if t <= 70 then 8
    else if t <= 80 then 16
    else if t <= 90 then 32
    else if t <= 100 then 64
    else 0
  }

  datatype RegType = Gp32 | Gp64 | Vec32 | Vec64 | Vec128

  function RegSize(r: RegType): nat {
    match r
    case Gp32 => 4
    case Gp64 => 8
    case Vec32 => 4
    case Vec64 => 8
    case Vec128 => 16
  }

  function VecRegType(t: TypeId): Option<RegType> {
    if t == 42 || 51 <= t <= 60 then Some(Vec32)
    else if t == 43 || 61 <= t <= 70 then Some(Vec64)
    else if 71 <= t <= 80 then Some(Vec128)
    else None
  }

  // --- The layout ---

  const MAX_REG_ARGS := 16
  const BAD := A64Frame.BAD

  /** The order of the registers of a group: eight, and then none. */
  function PassedOrder(pos: nat): nat {
    if pos < 8 then pos else BAD
  }

  datatype Place = Unassigned | Reg(regType: RegType, id: nat) | Stack(offset: nat)

  datatype Layout = Layout(gp: nat, vec: nat, offset: nat, places: seq<Place>)

  const NO_ARGS := Layout(0, 0, 0, [])

  function AlignUp8(x: nat): nat {
    AlignUp(x, 8)
  }

  function Max(a: nat, b: nat): nat {
    if a < b then b else a
  }

  function StackSize(t: TypeId, apple: bool): nat {
    Max(SizeOf(t), if apple then 4 else 8)
  }

  function StackStart(offset: nat, size: nat): nat {
    if size >= 8 then AlignUp8(offset) else offset
  }

  function NextReg(pos: nat): nat {
    if pos < MAX_REG_ARGS then PassedOrder(pos) else BAD
  }

  function OnStack(l: Layout, t: TypeId, apple: bool): Layout {
    var size := StackSize(t, apple);
    var start := StackStart(l.offset, size);
    l.(places := l.places + [Stack(start)], offset := start + size)
  }

  /** Places one more argument. There is no register for some types. */
  function Place1(l: Layout, t: TypeId, apple: bool): Option<Layout> {
    if IsInt(t) then
      if NextReg(l.gp) != BAD then
        Some(l.(places := l.places + [Reg(if t <= UINT32 then Gp32 else Gp64, NextReg(l.gp))], gp := l.gp + 1))
      else Some(OnStack(l, t, apple))
    else if IsFloatOrVec(t) then
      if NextReg(l.vec) != BAD then
        if VecRegType(t).None? then None
        else Some(l.(places := l.places + [Reg(VecRegType(t).value, NextReg(l.vec))], vec := l.vec + 1))
      else Some(OnStack(l, t, apple))
    else Some(l.(places := l.places + [Unassigned]))
  }

  function PlaceAll(types: seq<TypeId>, apple: bool): Option<Layout> {
    if types == [] then Some(NO_ARGS)
    else
      var l := PlaceAll(types[..|types| - 1], apple);
      if l.None? then None else Place1(l.value, types[|types| - 1], apple)
  }

  // --- Registers ---

  function Ints(types: seq<TypeId>): nat {
    if types == [] then 0 else Ints(types[..|types| - 1]) + if IsInt(types[|types| - 1]) then 1 else 0
  }

  function Vecs(types: seq<TypeId>): nat {
    if types == [] then 0 else Vecs(types[..|types| - 1]) + if IsFloatOrVec(types[|types| - 1]) then 1 else 0
  }

  function Min8(n: nat): nat {
    if n < 8 then n else 8
  }

  /** The position counters are the numbers of arguments so far, up to eight. */
  lemma {:induction false} Positions(types: seq<TypeId>, apple: bool)
    requires PlaceAll(types, apple).Some?
    ensures var l := PlaceAll(types, apple).value;
            l.gp == Min8(Ints(types)) && l.vec == Min8(Vecs(types)) && |l.places| == |types|
  {
    if types != [] { Positions(types[..|types| - 1], apple); }
  }

  /** Earlier arguments keep their places. */
  lemma {:induction false} PlacesStay(types: seq<TypeId>, apple: bool, n: nat)
    requires PlaceAll(types, apple).Some? && n <= |types|
    ensures PlaceAll(types[..n], apple).Some? && |PlaceAll(types, apple).value.places| == |types|
    ensures PlaceAll(types[..n], apple).value.places == PlaceAll(types, apple).value.places[..n]
  {
    Positions(types, apple);
    if n < |types| {
      var init := types[..|types| - 1];
      PlacesStay(init, apple, n);
      Positions(init, apple);
      assert init[..n] == types[..n];
      var a, b := PlaceAll(init, apple).value.places, PlaceAll(types, apple).value.places;
      assert b[..|init|] == a;
      assert b[..n] == a[..n];
    } else {
      assert types[..n] == types;
    }
  }

  /** The register of a float or vector has just its size, and that of an integer is the smallest that
      holds it. */
  predicate RegisterFits(t: TypeId, r: RegType) {
    if IsInt(t) then (r == Gp32 && SizeOf(t) <= 4) || (r == Gp64 && 4 < SizeOf(t) <= 8)
    else r in {Vec32, Vec64, Vec128} && RegSize(r) == SizeOf(t)
  }

  lemma {:induction false} RegistersFit(t: TypeId)
    ensures IsInt(t) ==> RegisterFits(t, if t <= UINT32 then Gp32 else Gp64)
    ensures IsFloatOrVec(t) && VecRegType(t).Some? ==> RegisterFits(t, VecRegType(t).value)
  {
  }

  /** The first eight integers take the registers 0 to 7 of their group in order, the first eight
      floats and vectors those of theirs; all others go to the stack, however they are mixed. The
      registers fit. */
  lemma {:induction false} RegistersInOrder(types: seq<TypeId>, apple: bool, i: nat)
    requires PlaceAll(types, apple).Some? && i < |types|
    ensures var l := PlaceAll(types, apple).value;
            && |l.places| == |types|
            && (IsInt(types[i]) ==>
                  if Ints(types[..i]) < 8
                  then l.places[i] == Reg(if types[i] <= UINT32 then Gp32 else Gp64, Ints(types[..i]))
                  else l.places[i].Stack?)
            && (IsFloatOrVec(types[i]) ==>
                  if Vecs(types[..i]) < 8
                  then VecRegType(types[i]).Some? && l.places[i] == Reg(VecRegType(types[i]).value, Vecs(types[..i]))
                  else l.places[i].Stack?)
            && (!IsInt(types[i]) && !IsFloatOrVec(types[i]) ==> l.places[i] == Unassigned)
            && (l.places[i].Reg? ==> RegisterFits(types[i], l.places[i].regType))
  {
    RegistersFit(types[i]);
    Positions(types, apple);
    PlacesStay(types, apple, i + 1);
    var now := types[..i + 1];
    assert now[..|now| - 1] == types[..i] && now[|now| - 1] == types[i];
    Positions(types[..i], apple);
    hide PlaceAll, SizeOf, VecRegType, RegisterFits;
    assert PlaceAll(now, apple) == Place1(PlaceAll(types[..i], apple).value, types[i], apple) by { PlaceLast(now, apple); }
    assert PlaceAll(types, apple).value.places[..i + 1][i] == PlaceAll(types, apple).value.places[i];
  }

  lemma {:induction false} PlaceLast(types: seq<TypeId>, apple: bool)
    requires types != [] && PlaceAll(types[..|types| - 1], apple).Some?
    ensures PlaceAll(types, apple) == Place1(PlaceAll(types[..|types| - 1], apple).value, types[|types| - 1], apple)
  {
  }

  /** One argument fails exactly when it is a float or vector without a register type and there are
      vector registers left. */
  lemma {:induction false} OneFails(l: Layout, t: TypeId, apple: bool)
    ensures Place1(l, t, apple).None? <==> IsFloatOrVec(t) && VecRegType(t).None? && l.vec < 8
  {
    hide SizeOf, VecRegType;
  }

  /** The layout fails exactly when one of the first eight floats and vectors is a type without a
      register: an 80-bit float or a vector of more than 128 bits. */
  lemma {:induction false} FailsExactly(types: seq<TypeId>, apple: bool)
    ensures PlaceAll(types, apple).None? <==>
            exists i :: 0 <= i < |types| && IsFloatOrVec(types[i]) && VecRegType(types[i]).None? && Vecs(types[..i]) < 8
  {
    if types != [] {
      var n := |types| - 1;
      var init := types[..n];
      FailsExactly(init, apple);
      forall i | 0 <= i < n ensures init[i] == types[i] && init[..i] == types[..i] {
      }
      if PlaceAll(init, apple).Some? {
        Positions(init, apple);
        PlaceLast(types, apple);
        OneFails(PlaceAll(init, apple).value, types[n], apple);
      }
      hide SizeOf, VecRegType, Place1, IsFloatOrVec, Vecs;
    }
  }

  // --- The stack ---

  lemma {:induction false} Aligned(x: nat)
    ensures x <= AlignUp8(x) < x + 8 && AlignUp8(x) % 8 == 0
    ensures forall y: nat :: y >= x && y % 8 == 0 ==> y >= AlignUp8(x)
  {
  }

  /** Every stack argument is inside the area so far, wide ones at a multiple of 8, and the area ends
      where the last one does. */
  ghost predicate StackIsGood(types: seq<TypeId>, apple: bool, l: Layout) {
    && |l.places| == |types|
    && (forall i | 0 <= i < |types| && l.places[i].Stack? ::
          && l.places[i].offset + StackSize(types[i], apple) <= l.offset
          && (StackSize(types[i], apple) >= 8 ==> l.places[i].offset % 8 == 0))
    && (forall i, j | 0 <= i < j < |types| && l.places[i].Stack? && l.places[j].Stack? ::
          l.places[i].offset + StackSize(types[i], apple) <= l.places[j].offset)
    && (l.offset == 0
        || exists i :: 0 <= i < |types| && l.places[i].Stack? && l.offset == l.places[i].offset + StackSize(types[i], apple))
  }

  lemma {:induction false} OnStackIsGood(init: seq<TypeId>, t: TypeId, apple: bool, l: Layout)
    requires StackIsGood(init, apple, l)
    ensures StackIsGood(init + [t], apple, OnStack(l, t, apple))
  {
    hide SizeOf;
    var next, n := OnStack(l, t, apple), |init|;
    Aligned(l.offset);
    hide AlignUp8;
    assert next.places[n].Stack? && next.offset == next.places[n].offset + StackSize((init + [t])[n], apple);
  }

  lemma {:induction false} ElsewhereIsGood(init: seq<TypeId>, t: TypeId, apple: bool, l: Layout, next: Layout)
    requires StackIsGood(init, apple, l) && next.offset == l.offset && |next.places| == |l.places| + 1
    requires next.places[..|l.places|] == l.places && !next.places[|l.places|].Stack?
    ensures StackIsGood(init + [t], apple, next)
  {
    hide StackSize;
    var types := init + [t];
    assert forall i | 0 <= i < |init| :: next.places[i] == l.places[i] && types[i] == init[i];
    assert |next.places| == |types| && !next.places[|init|].Stack?;
    assert forall i | 0 <= i < |types| && next.places[i].Stack? :: i < |init|;
    if l.offset != 0 {
      var i :| 0 <= i < |init| && l.places[i].Stack? && l.offset == l.places[i].offset + StackSize(init[i], apple);
      assert next.places[i].Stack? && next.offset == next.places[i].offset + StackSize(types[i], apple);
    }
  }

  lemma {:induction false} NextIsGood(init: seq<TypeId>, t: TypeId, apple: bool, l: Layout)
    requires StackIsGood(init, apple, l) && Place1(l, t, apple).Some?
    ensures StackIsGood(init + [t], apple, Place1(l, t, apple).value)
  {
    var next := Place1(l, t, apple).value;
    assert |l.places| == |init|;
    hide StackIsGood, StackSize, IsInt, IsFloatOrVec, VecRegType;
    if next.places[|l.places|].Stack? {
      OnStackIsGood(init, t, apple, l);
    } else {
      ElsewhereIsGood(init, t, apple, l, next);
    }
  }

  /** The stack arguments lie one after the other without overlap, those of 8 bytes or more at
      multiples of 8. */
  lemma {:induction false} StackRanges(types: seq<TypeId>, apple: bool)
    requires PlaceAll(types, apple).Some?
    ensures StackIsGood(types, apple, PlaceAll(types, apple).value)
  {
    if types != [] {
      var init := types[..|types| - 1];
      StackRanges(init, apple);
      assert types == init + [types[|types| - 1]];
      hide StackIsGood, Place1;
      NextIsGood(init, types[|types| - 1], apple, PlaceAll(init, apple).value);
    }
  }

  /** The stack size is the least multiple of 8 that covers the stack arguments. */
  lemma {:induction false} StackSizeIsLeast(types: seq<TypeId>, apple: bool, size: nat)
    requires PlaceAll(types, apple).Some?
    ensures var l := PlaceAll(types, apple).value;
            && |l.places| == |types| && AlignUp8(l.offset) % 8 == 0
            && (size % 8 == 0 ==>
                  (AlignUp8(l.offset) <= size <==>
                   forall i | 0 <= i < |types| && l.places[i].Stack? :: l.places[i].offset + StackSize(types[i], apple) <= size))
  {
    StackRanges(types, apple);
    var l := PlaceAll(types, apple).value;
    Aligned(l.offset);
    hide SizeOf, PlaceAll, AlignUp8;
  }

  /** The offsets stay far below the 2^19 that the packed argument has room for. */
  lemma {:induction false} StackIsSmall(types: seq<TypeId>, apple: bool)
    requires PlaceAll(types, apple).Some?
    ensures PlaceAll(types, apple).value.offset <= 71 * |types|
    ensures |types| <= 32 ==> PlaceAll(types, apple).value.offset < 0x8_0000
  {
    if types != [] {
      var init := types[..|types| - 1];
      StackIsSmall(init, apple);
      hide PlaceAll;
      PlaceLast(types, apple);
      Aligned(PlaceAll(init, apple).value.offset);
    }
  }

  // --- Alignment of small stack arguments ---

  /** The last stack argument of 8 bytes or more is an 80-bit float. */
  function AfterFloat80(types: seq<TypeId>): bool {
    if types == [] then false
    else
      var init, t := types[..|types| - 1], types[|types| - 1];
      if IsFloatOrVec(t) && Vecs(init) >= 8 && SizeOf(t) >= 8 then t == FLOAT80
      else if IsInt(t) && Ints(init) >= 8 && SizeOf(t) >= 8 then false
      else AfterFloat80(init)
  }

  lemma {:induction false} AppleOffset(types: seq<TypeId>)
    requires PlaceAll(types, true).Some?
    ensures PlaceAll(types, true).value.offset % 4 == if AfterFloat80(types) then 2 else 0
  {
    if types != [] {
      var init, t := types[..|types| - 1], types[|types| - 1];
      AppleOffset(init);
      Positions(init, true);
      hide PlaceAll, AlignUp8, SizeOf, VecRegType;
      PlaceLast(types, true);
      var l := PlaceAll(init, true).value;
      if OnStack(l, t, true).offset == PlaceAll(types, true).value.offset { AppleStep(l, t); }
    }
  }

  lemma {:induction false} AppleStep(l: Layout, t: TypeId)
    ensures var offset := OnStack(l, t, true).offset;
            if SizeOf(t) >= 8 then offset % 4 == (if t == FLOAT80 then 2 else 0) else offset % 4 == l.offset % 4
  {
    hide AlignUp8;
    Aligned(l.offset);
    Mod4(AlignUp8(l.offset), SizeOf(t));
    Plus4(l.offset);
    WideSizes(t);
  }

  lemma {:induction false} WideSizes(t: TypeId)
    ensures SizeOf(t) >= 8 ==> if t == FLOAT80 then SizeOf(t) == 10 else SizeOf(t) % 8 == 0
  {
  }

  lemma {:induction false} Mod4(a: nat, b: nat)
    requires a % 8 == 0
    ensures b % 8 == 0 ==> (a + b) % 4 == 0
    ensures b == 10 ==> (a + b) % 4 == 2
  {
    var q := a / 8;
    assert a == 8 * q;
    if b % 8 == 0 {
      assert a + b == 4 * (2 * q + 2 * (b / 8));
    } else if b == 10 {
      assert a + b == 4 * (2 * q + 2) + 2;
    }
  }

  lemma {:induction false} Plus4(a: nat)
    ensures (a + 4) % 4 == a % 4
  {
  }

  /** With Apple's packing, a stack argument of less than 8 bytes is at a multiple of 4 exactly when
      it does not follow an 80-bit float as the last wide one; an argument of 8 bytes or more is at
      a multiple of 8. */
  lemma {:induction false} AppleAlignment(types: seq<TypeId>, i: nat)
    requires PlaceAll(types, true).Some? && i < |types| && |PlaceAll(types, true).value.places| == |types|
    requires PlaceAll(types, true).value.places[i].Stack?
    ensures var start := PlaceAll(types, true).value.places[i].offset;
            if SizeOf(types[i]) >= 8 then start % 8 == 0 else start % 4 == 0 <==> !AfterFloat80(types[..i])
  {
    PlacesStay(types, true, i + 1);
    var now := types[..i + 1];
    assert now[..|now| - 1] == types[..i] && now[|now| - 1] == types[i];
    AppleOffset(types[..i]);
    Positions(types[..i], true);
    PlaceLast(now, true);
    hide PlaceAll, AfterFloat80;
    assert PlaceAll(types, true).value.places[..i + 1][i] == PlaceAll(types, true).value.places[i];
    Aligned(PlaceAll(types[..i], true).value.offset);
    hide AlignUp8, SizeOf;
  }

  const FLOAT32: TypeId := 42
  const FLOAT64: TypeId := 43

  lemma {:induction false} ManyFloats(n: nat)
    requires n <= 8
    ensures var l := PlaceAll(seq(n, _ => FLOAT64), true);
            l.Some? && l.value.gp == 0 && l.value.vec == n && l.value.offset == 0 && |l.value.places| == n
  {
    if n > 0 {
      ManyFloats(n - 1);
      assert seq(n, _ => FLOAT64)[..n - 1] == seq(n - 1, _ => FLOAT64);
    }
  }

  /** Misaligned arguments occur: after eight floats in registers and an 80-bit one on the stack, a
      32-bit one is at offset 10. */
  lemma {:induction false} FloatAfterFloat80()
    ensures var l := PlaceAll(seq(8, _ => FLOAT64) + [FLOAT80, FLOAT32], true);
            l.Some? && |l.value.places| == 10 && l.value.places[9] == Stack(10)
  {
    ManyFloats(8);
    var types := seq(8, _ => FLOAT64) + [FLOAT80, FLOAT32];
    assert types[..9] == seq(8, _ => FLOAT64) + [FLOAT80];
    assert types[..9][..8] == seq(8, _ => FLOAT64);
  }

  // --- Alignment of 128-bit stack arguments ---

  predicate GoesToStack(init: seq<TypeId>, t: TypeId) {
    (IsInt(t) && Ints(init) >= 8) || (IsFloatOrVec(t) && Vecs(init) >= 8)
  }

  /** The 8-byte slots that the stack arguments take by their types. */
  function Slots(types: seq<TypeId>): nat {
    if types == [] then 0
    else
      var init, t := types[..|types| - 1], types[|types| - 1];
      Slots(init) + if GoesToStack(init, t) then AlignUp8(StackSize(t, false)) / 8 else 0
  }

  /** The bytes that the stack arguments take when small ones are packed. */
  function PackedBytes(types: seq<TypeId>): nat {
    if types == [] then 0
    else
      var init, t := types[..|types| - 1], types[|types| - 1];
      if !GoesToStack(init, t) then PackedBytes(init)
      else if SizeOf(t) < 8 then PackedBytes(init) + 4
      else AlignUp8(PackedBytes(init)) + SizeOf(t)
  }

  function SlotsBefore(types: seq<TypeId>, apple: bool): nat {
    if apple then AlignUp8(PackedBytes(types)) / 8 else Slots(types)
  }

  lemma {:induction false} SmallSizes(t: TypeId)
    ensures SizeOf(t) < 8 ==> SizeOf(t) <= 4
  {
  }

  /** An argument either leaves the offset or is put on the stack. */
  lemma {:induction false} NextOffset(types: seq<TypeId>, apple: bool)
    requires types != [] && PlaceAll(types, apple).Some?
    ensures var init, t := types[..|types| - 1], types[|types| - 1];
            && PlaceAll(init, apple).Some? && |PlaceAll(types, apple).value.places| == |types|
            && var l := PlaceAll(init, apple).value;
               if GoesToStack(init, t) then PlaceAll(types, apple) == Some(OnStack(l, t, apple))
               else PlaceAll(types, apple).value.offset == l.offset && !PlaceAll(types, apple).value.places[|init|].Stack?
  {
    var init := types[..|types| - 1];
    Positions(init, apple);
    Positions(types, apple);
    hide PlaceAll, SizeOf, VecRegType, OnStack;
    PlaceLast(types, apple);
  }

  lemma {:induction false} OffsetIsPacked(types: seq<TypeId>)
    requires PlaceAll(types, true).Some?
    ensures PlaceAll(types, true).value.offset == PackedBytes(types)
  {
    if types != [] {
      NextOffset(types, true);
      OffsetIsPacked(types[..|types| - 1]);
      SmallSizes(types[|types| - 1]);
      hide PlaceAll, GoesToStack, AlignUp8, SizeOf;
    }
  }

  lemma {:induction false} OffsetIsSlots(types: seq<TypeId>)
    requires PlaceAll(types, false).Some?
    ensures AlignUp8(PlaceAll(types, false).value.offset) == 8 * Slots(types)
  {
    if types != [] {
      var init, t := types[..|types| - 1], types[|types| - 1];
      NextOffset(types, false);
      OffsetIsSlots(init);
      hide PlaceAll, GoesToStack, AlignUp8, SizeOf;
      AfterSlots(Slots(init), StackSize(t, false));
    }
  }

  lemma {:induction false} AfterSlots(n: nat, size: nat)
    ensures AlignUp8(8 * n + size) == 8 * (n + AlignUp8(size) / 8)
  {
  }

  lemma {:induction false} SlotParity(n: nat)
    ensures 8 * n % 16 == 0 <==> n % 2 == 0
  {
  }

  lemma {:induction false} SlotsOf(x: nat)
    ensures AlignUp8(x) == 8 * (AlignUp8(x) / 8)
  {
  }

  /** A stack argument of 8 bytes or more is right behind the slots of the stack arguments before it,
      and so a 128-bit one has its natural alignment exactly when their number is even. */
  lemma {:induction false} WideArguments(types: seq<TypeId>, apple: bool, i: nat)
    requires PlaceAll(types, apple).Some? && i < |types| && |PlaceAll(types, apple).value.places| == |types|
    requires PlaceAll(types, apple).value.places[i].Stack? && SizeOf(types[i]) >= 8
    ensures var start := PlaceAll(types, apple).value.places[i].offset;
            && start == 8 * SlotsBefore(types[..i], apple)
            && (start % 16 == 0 <==> SlotsBefore(types[..i], apple) % 2 == 0)
  {
    PlacesStay(types, apple, i + 1);
    var init, now := types[..i], types[..i + 1];
    assert now[..|now| - 1] == init && now[|now| - 1] == types[i];
    NextOffset(now, apple);
    Positions(init, apple);
    if apple { OffsetIsPacked(init); } else { OffsetIsSlots(init); }
    hide PlaceAll, GoesToStack, AlignUp8, SizeOf, Slots, PackedBytes;
    assert PlaceAll(types, apple).value.places[..i + 1][i] == PlaceAll(types, apple).value.places[i];
    SlotsOf(PackedBytes(init));
    SlotParity(SlotsBefore(init, apple));
  }

  lemma {:induction false} ManyInts(n: nat)
    requires n <= 9
    ensures var l := PlaceAll(seq(n, _ => INT64), false);
            l.Some? && l.value.gp == Min8(n) && l.value.vec == 0 && l.value.offset == (if n == 9 then 8 else 0)
            && |l.value.places| == n
  {
    if n > 0 {
      ManyInts(n - 1);
      assert seq(n, _ => INT64)[..n - 1] == seq(n - 1, _ => INT64);
    }
  }

  lemma {:induction false} ManyVecs(m: nat)
    requires m <= 8
    ensures var l := PlaceAll(seq(9, _ => INT64) + seq(m, _ => INT8X16), false);
            l.Some? && l.value.gp == 8 && l.value.vec == m && l.value.offset == 8 && |l.value.places| == 9 + m
  {
    var types := seq(9, _ => INT64) + seq(m, _ => INT8X16);
    if m == 0 {
      ManyInts(9);
      assert types == seq(9, _ => INT64);
    } else {
      ManyVecs(m - 1);
      assert types[..9 + m - 1] == seq(9, _ => INT64) + seq(m - 1, _ => INT8X16);
    }
  }

  /** An odd number of slots occurs: after nine integers and eight vectors the ninth vector is at
      offset 8. */
  lemma {:induction false} VectorsAreAlignedTo8()
    ensures var l := PlaceAll(seq(9, _ => INT64) + seq(9, _ => INT8X16), false);
            l.Some? && |l.value.places| == 18 && l.value.places[17] == Stack(8) && SizeOf(INT8X16) == 16
  {
    ManyVecs(8);
    var types := seq(9, _ => INT64) + seq(9, _ => INT8X16);
    assert types[..17] == seq(9, _ => INT64) + seq(8, _ => INT8X16);
  }

  // --- Arguments of one type ---

  /** How far apart stack arguments of one type are: 8 bytes for everything up to 64 bits, or with
      Apple's packing 4 bytes up to 32 bits; the size of a vector, and 16 bytes for an 80-bit float. */
  function Stride(t: TypeId, apple: bool): nat {
    if 34 <= t <= 39 || t == 42 || 51 <= t <= 60 then if apple then 4 else 8
    else if 40 <= t <= 41 || t == 43 || 61 <= t <= 70 then 8
    else if t == 44 || 71 <= t <= 80 then 16
    else if 81 <= t <= 90 then 32
    else 64
  }

  /** Eight arguments that take all registers of the type's group, and then `n` of the type. */
  function AfterRegisters(t: TypeId, n: nat): seq<TypeId> {
    seq(8, _ => if IsInt(t) then INT64 else FLOAT64) + seq(n, _ => t)
  }

  lemma {:induction false} AllRegisters(t: TypeId, m: nat, apple: bool)
    requires m <= 8
    ensures var l := PlaceAll(seq(m, _ => if IsInt(t) then INT64 else FLOAT64), apple);
            && l.Some? && l.value.offset == 0 && |l.value.places| == m
            && l.value.gp == (if IsInt(t) then m else 0) && l.value.vec == (if IsInt(t) then 0 else m)
  {
    if m > 0 {
      var first := if IsInt(t) then INT64 else FLOAT64;
      AllRegisters(t, m - 1, apple);
      assert seq(m, _ => first)[..m - 1] == seq(m - 1, _ => first);
    }
  }

  lemma {:induction false} StrideIsSlot(t: TypeId, apple: bool)
    requires 34 <= t <= 44 || 51 <= t <= 100
    ensures var size := StackSize(t, apple);
            if size >= 8 then Stride(t, apple) == AlignUp8(size) else Stride(t, apple) == size == 4
  {
  }

  /** Where the stack ends after `n` arguments of a type. */
  function UniformEnd(t: TypeId, n: nat, apple: bool): nat {
    if n == 0 then 0 else (n - 1) * Stride(t, apple) + StackSize(t, apple)
  }

  lemma {:induction false} NextStart(t: TypeId, n: nat, apple: bool)
    requires 34 <= t <= 44 || 51 <= t <= 100
    ensures StackStart(UniformEnd(t, n, apple), StackSize(t, apple)) == n * Stride(t, apple)
  {
    StrideIsSlot(t, apple);
    var size, stride := StackSize(t, apple), Stride(t, apple);
    hide StackSize, Stride;
    if n > 0 {
      Distribute(n - 1, 1, stride);
      if size >= 8 {
        SlotsOf(size);
        var q := AlignUp8(size) / 8;
        hide AlignUp8;
        assert (n - 1) * (8 * q) == 8 * ((n - 1) * q);
        AfterSlots((n - 1) * q, size);
      }
    } else if size >= 8 {
      Aligned(0);
    }
  }

  lemma {:induction false} UniformLayout(t: TypeId, n: nat, apple: bool)
    requires 34 <= t <= 44 || 51 <= t <= 100
    ensures var l := PlaceAll(AfterRegisters(t, n), apple);
            && l.Some? && |l.value.places| == 8 + n && l.value.offset == UniformEnd(t, n, apple)
            && l.value.gp == (if IsInt(t) then 8 else 0) && l.value.vec == (if IsInt(t) then 0 else 8)
    ensures n > 0 ==> PlaceAll(AfterRegisters(t, n), apple).value.places[8 + n - 1] == Stack((n - 1) * Stride(t, apple))
  {
    var types := AfterRegisters(t, n);
    if n == 0 {
      AllRegisters(t, 8, apple);
      assert types == seq(8, _ => if IsInt(t) then INT64 else FLOAT64);
    } else {
      UniformLayout(t, n - 1, apple);
      NextStart(t, n - 1, apple);
      assert types[..|types| - 1] == AfterRegisters(t, n - 1) && types[|types| - 1] == t;
      hide StackStart, StackSize, Stride, VecRegType, AfterRegisters;
    }
  }

  /** When all registers are taken, stack argument number `k` of a type is at `k` times the stride of the
      type. */
  lemma {:induction false} UniformArguments(t: TypeId, n: nat, apple: bool, k: nat)
    requires (34 <= t <= 44 || 51 <= t <= 100) && k < n
    ensures var l := PlaceAll(AfterRegisters(t, n), apple);
            l.Some? && |l.value.places| == 8 + n && l.value.places[8 + k] == Stack(k * Stride(t, apple))
  {
    UniformLayout(t, n, apple);
    UniformLayout(t, k + 1, apple);
    PlacesStay(AfterRegisters(t, n), apple, 8 + k + 1);
    assert AfterRegisters(t, n)[..8 + k + 1] == AfterRegisters(t, k + 1);
    hide PlaceAll, Stride, AfterRegisters;
    var places := PlaceAll(AfterRegisters(t, n), apple).value.places;
    assert places[..8 + k + 1][8 + k] == places[8 + k];
  }

  // --- The program ---

  class FuncDetail {
    const types: seq<TypeId>
    const args: array<Place>
    var usedGp: set<nat>
    var usedVec: set<nat>
    var argStackSize: nat

    constructor (types: seq<TypeId>)
      ensures this.types == types && fresh(args) && args.Length == |types| && usedGp == {} && usedVec == {}
      ensures forall i | 0 <= i < args.Length :: args[i] == Unassigned
    {
      this.types := types;
      args := new Place[|types|](_ => Unassigned);
      usedGp, usedVec, argStackSize := {}, {}, 0;
    }

    /** Places all arguments, or fails at the first one without a register. */
    method InitFuncDetail(apple: bool) returns (ok: bool)
      requires args.Length == |types| && usedGp == {} && usedVec == {}
      requires forall i | 0 <= i < args.Length :: args[i] == Unassigned
      modifies this, args
      ensures ok <==> PlaceAll(types, apple).Some?
      ensures ok ==> var l := PlaceAll(types, apple).value;
              && args[..] == l.places && argStackSize == AlignUp8(l.offset)
              && usedGp == Below(l.gp) && usedVec == Below(l.vec)
    {
      var stackOffset, gpzPos, vecPos := 0, 0, 0;
      var i := 0;
      assert args[..0] == [] && types[..0] == [];
      while i < |types|
        invariant i <= |types| && forall k | i <= k < args.Length :: args[k] == Unassigned
        invariant PlaceAll(types[..i], apple) == Some(Layout(gpzPos, vecPos, stackOffset, args[..i]))
        invariant usedGp == Below(gpzPos) && usedVec == Below(vecPos)
      {
        hide PlaceAll, Place1, Below;
        PlaceNext(types, apple, i);
        var placed;
        placed, gpzPos, vecPos, stackOffset := PlaceArg(i, apple, gpzPos, vecPos, stackOffset);
        if !placed { return false; }
        i := i + 1;
      }
      assert types[..i] == types && args[..i] == args[..];
      argStackSize := AlignUp8(stackOffset);
      return true;
    }

    method PlaceArg(i: nat, apple: bool, gpzPos0: nat, vecPos0: nat, stackOffset0: nat)
      returns (ok: bool, gpzPos: nat, vecPos: nat, stackOffset: nat)
      requires args.Length == |types| && i < |types| && args[i] == Unassigned
      requires usedGp == Below(gpzPos0) && usedVec == Below(vecPos0)
      modifies `usedGp, `usedVec, args
      ensures Place1(Layout(gpzPos0, vecPos0, stackOffset0, old(args[..i])), types[i], apple)
           == if ok then Some(Layout(gpzPos, vecPos, stackOffset, args[..i + 1])) else None
      ensures ok ==> usedGp == Below(gpzPos) && usedVec == Below(vecPos)
      ensures forall k | 0 <= k < args.Length && k != i :: args[k] == old(args[k])
    {
      gpzPos, vecPos, stackOffset, ok := gpzPos0, vecPos0, stackOffset0, true;
      var typeId := types[i];
      if IsInt(typeId) {
        var regId := if gpzPos < MAX_REG_ARGS then PassedOrder(gpzPos) else BAD;
        if regId != BAD {
          args[i] := Reg(if typeId <= UINT32 then Gp32 else Gp64, regId);
          usedGp := usedGp + {regId};
          gpzPos := gpzPos + 1;
        } else {
          stackOffset := PlaceOnStack(i, apple, stackOffset);
        }
      } else if IsFloatOrVec(typeId) {
        var regId := if vecPos < MAX_REG_ARGS then PassedOrder(vecPos) else BAD;
        if regId != BAD {
          var regType := VecRegType(typeId);
          if regType.None? { ok := false; return; }
          args[i] := Reg(regType.value, regId);
          usedVec := usedVec + {regId};
          vecPos := vecPos + 1;
        } else {
          stackOffset := PlaceOnStack(i, apple, stackOffset);
        }
      }
      assert args[..i + 1] == old(args[..i]) + [args[i]];
    }

    method PlaceOnStack(i: nat, apple: bool, stackOffset0: nat) returns (stackOffset: nat)
      requires args.Length == |types| && i < |types|
      modifies args
      ensures var size := StackSize(types[i], apple);
              && args[i] == Stack(StackStart(stackOffset0, size)) && stackOffset == StackStart(stackOffset0, size) + size
      ensures forall k | 0 <= k < args.Length && k != i :: args[k] == old(args[k])
    {
      var size := Max(SizeOf(types[i]), if apple then 4 else 8);
      stackOffset := stackOffset0;
      if size >= 8 { stackOffset := AlignUp8(stackOffset); }
      args[i] := Stack(stackOffset);
      stackOffset := stackOffset + size;
    }
  }

  lemma {:induction false} PlaceNext(types: seq<TypeId>, apple: bool, i: nat)
    requires i < |types| && PlaceAll(types[..i], apple).Some?
    ensures PlaceAll(types[..i + 1], apple) == Place1(PlaceAll(types[..i], apple).value, types[i], apple)
    ensures PlaceAll(types[..i + 1], apple).None? ==> PlaceAll(types, apple).None?
  {
    assert types[..i + 1][..i] == types[..i];
    if PlaceAll(types[..i + 1], apple).None? { FailsLater(types, apple, i + 1); }
  }

  lemma {:induction false} FailsLater(types: seq<TypeId>, apple: bool, n: nat)
    requires n <= |types| && PlaceAll(types[..n], apple).None?
    ensures PlaceAll(types, apple).None?
  {
    if n < |types| {
      assert types[..|types| - 1][..n] == types[..n];
      FailsLater(types[..|types| - 1], apple, n);
    } else {
      assert types[..n] == types;
    }
  }

  function Below(n: nat): set<nat> {
    if n == 0 then {} else Below(n - 1) + {n - 1}
  }
}
