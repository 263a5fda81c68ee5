/** The shared signature tables of tools/tablegen-x86.js: operand data is stored once, and an
    instruction whose rows already occur in the row table points to them. */
module SigTable {
  import opened Wrappers

  /** A row of an instruction, its operands given by their table data. */
  datatype SigRow<D> = SigRow(x86: bool, x64: bool, implicit: nat, ops: seq<D>)

  /** A row of the table: the number of operands, the flags, and the operands as indexes into the
      operand table, padded with zeros. */
  datatype Entry = Entry(count: nat, x86: bool, x64: bool, implicit: nat, indexes: seq<nat>)

  const PADDED := 6

  // --- Contiguous runs ---

  predicate RunAt<T(==)>(table: seq<T>, rows: seq<T>, i: nat) {
    i + |rows| <= |table| && table[i..i + |rows|] == rows
  }

  /** The first place, from `i` on, where the rows occur in the table. */
  function FirstRun<T(==)>(table: seq<T>, rows: seq<T>, i: nat): (r: Option<nat>)
    requires i <= |table|
    ensures r.Some? ==> r.value >= i && RunAt(table, rows, r.value)
    ensures forall k | i <= k < (if r.Some? then r.value else |table| + 1) :: !RunAt(table, rows, k)
    decreases |table| - i
  {
    if RunAt(table, rows, i) then Some(i)
    else if i == |table| then None
    else FirstRun(table, rows, i + 1)
  }

  /** Where the rows are, and the table with them: they are appended only if they do not occur. */
  function Place<T(==)>(table: seq<T>, rows: seq<T>): (r: (nat, seq<T>))
    ensures RunAt(r.1, rows, r.0) && table <= r.1
  {
    var at := FirstRun(table, rows, 0);
    if at.Some? then (at.value, table) else (|table|, table + rows)
  }

  lemma {:induction false} RunStays<T>(table: seq<T>, more: seq<T>, rows: seq<T>, i: nat)
    requires RunAt(table, rows, i) && table <= more
    ensures RunAt(more, rows, i)
  {
    assert more[i..i + |rows|] == table[i..i + |rows|];
  }

  // --- Operands ---

  function PositionOf<D(==)>(arr: seq<D>, d: D): (r: Option<nat>)
    ensures r.Some? ==> r.value < |arr| && arr[r.value] == d
    ensures r.None? ==> d !in arr
  {
    if arr == [] then None
    else if arr[|arr| - 1] == d && d !in arr[..|arr| - 1] then Some(|arr| - 1)
    else
      assert d in arr ==> d in arr[..|arr| - 1];
      PositionOf(arr[..|arr| - 1], d)
  }

  /** Looks up operand data, appending it if it is new. */
  function Intern<D(==)>(arr: seq<D>, d: D): (r: (nat, seq<D>))
    ensures arr <= r.1 && r.0 < |r.1| && r.1[r.0] == d
  {
    var at := PositionOf(arr, d);
    if at.Some? then (at.value, arr) else (|arr|, arr + [d])
  }

  function InternAll<D(==)>(arr: seq<D>, ops: seq<D>): (r: (seq<nat>, seq<D>))
    ensures |r.0| == |ops| && arr <= r.1
  {
    if ops == [] then ([], arr)
    else
      var init := InternAll(arr, ops[..|ops| - 1]);
      var last := Intern(init.1, ops[|ops| - 1]);
      (init.0 + [last.0], last.1)
  }

  function Pad(indexes: seq<nat>): seq<nat>
    decreases PADDED - |indexes|
  {
    if |indexes| >= PADDED then indexes else Pad(indexes + [0])
  }

  function EncodeRow<D(==)>(arr: seq<D>, row: SigRow<D>): (r: (Entry, seq<D>))
    ensures arr <= r.1
  {
    var ops := InternAll(arr, row.ops);
    (Entry(|row.ops|, row.x86, row.x64, row.implicit, Pad(ops.0)), ops.1)
  }

  function EncodeRows<D(==)>(arr: seq<D>, rows: seq<SigRow<D>>): (r: (seq<Entry>, seq<D>))
    ensures |r.0| == |rows| && arr <= r.1
  {
    if rows == [] then ([], arr)
    else
      var init := EncodeRows(arr, rows[..|rows| - 1]);
      var last := EncodeRow(init.1, rows[|rows| - 1]);
      (init.0 + [last.0], last.1)
  }

  // --- Reading the tables ---

  /** The row is what the table row and the operand table say. */
  ghost predicate Decodes<D>(arr: seq<D>, e: Entry, row: SigRow<D>) {
    && e.x86 == row.x86 && e.x64 == row.x64 && e.implicit == row.implicit && e.count == |row.ops|
    && e.count <= |e.indexes| && forall k | 0 <= k < e.count :: e.indexes[k] < |arr| && arr[e.indexes[k]] == row.ops[k]
  }

  lemma {:induction false} InternedDecode<D>(arr: seq<D>, ops: seq<D>)
    ensures var r := InternAll(arr, ops); forall k | 0 <= k < |ops| :: r.0[k] < |r.1| && r.1[r.0[k]] == ops[k]
  {
    if ops != [] { InternedDecode(arr, ops[..|ops| - 1]); }
  }

  lemma {:induction false} PadKeeps(indexes: seq<nat>)
    ensures indexes <= Pad(indexes) && |Pad(indexes)| == (if |indexes| < 6 then 6 else |indexes|)
    ensures forall k | |indexes| <= k < |Pad(indexes)| :: Pad(indexes)[k] == 0
    decreases PADDED - |indexes|
  {
    if |indexes| < PADDED { PadKeeps(indexes + [0]); }
  }

  lemma {:induction false} EncodedRowDecodes<D>(arr: seq<D>, row: SigRow<D>)
    ensures Decodes(EncodeRow(arr, row).1, EncodeRow(arr, row).0, row)
  {
    InternedDecode(arr, row.ops);
    PadKeeps(InternAll(arr, row.ops).0);
  }

  lemma {:induction false} DecodesLater<D>(arr: seq<D>, more: seq<D>, e: Entry, row: SigRow<D>)
    requires Decodes(arr, e, row) && arr <= more
    ensures Decodes(more, e, row)
  {
    forall k | 0 <= k < e.count ensures e.indexes[k] < |more| && more[e.indexes[k]] == row.ops[k] {
      assert arr[e.indexes[k]] == row.ops[k];
    }
  }

  lemma {:induction false} EncodedRowsDecode<D>(arr: seq<D>, rows: seq<SigRow<D>>)
    ensures var r := EncodeRows(arr, rows); forall j | 0 <= j < |rows| :: Decodes(r.1, r.0[j], rows[j])
  {
    hide Decodes, EncodeRow;
    if rows != [] {
      var n := |rows| - 1;
      var init := EncodeRows(arr, rows[..n]);
      EncodedRowsDecode(arr, rows[..n]);
      EncodedRowDecodes(init.1, rows[n]);
      var r := EncodeRows(arr, rows);
      forall j | 0 <= j < |rows| ensures Decodes(r.1, r.0[j], rows[j]) {
        if j < n { DecodesLater(init.1, r.1, init.0[j], rows[j]); }
      }
    }
  }

  // --- The whole run ---

  datatype Tables<D> = Tables(oArr: seq<D>, iArr: seq<Entry>)

  function Add<D(==)>(t: Tables<D>, rows: seq<SigRow<D>>): (r: (nat, Tables<D>))
  {
    var e := EncodeRows(t.oArr, rows);
    var p := Place(t.iArr, e.0);
    (p.0, Tables(e.1, p.1))
  }

  function AddAll<D(==)>(t: Tables<D>, insts: seq<seq<SigRow<D>>>): Tables<D> {
    if insts == [] then t else Add(AddAll(t, insts[..|insts| - 1]), insts[|insts| - 1]).1
  }

  function WithLength<D>(insts: seq<seq<SigRow<D>>>, len: nat): seq<seq<SigRow<D>>> {
    if insts == [] then []
    else
      var init := WithLength(insts[..|insts| - 1], len);
      if |insts[|insts| - 1]| == len then init + [insts[|insts| - 1]] else init
  }

  /** The instructions with fewer than `n` rows, longest first. */
  function LongestFirst<D>(insts: seq<seq<SigRow<D>>>, n: nat): seq<seq<SigRow<D>>> {
    if n == 0 then [] else WithLength(insts, n - 1) + LongestFirst(insts, n - 1)
  }

  /** An instruction's slice of the tables is its rows. */
  ghost predicate Slice<D>(t: Tables<D>, rows: seq<SigRow<D>>, index: nat) {
    index + |rows| <= |t.iArr| && forall j | 0 <= j < |rows| :: Decodes(t.oArr, t.iArr[index + j], rows[j])
  }

  predicate Extends<D(==)>(t: Tables<D>, more: Tables<D>) {
    t.oArr <= more.oArr && t.iArr <= more.iArr
  }

  lemma {:induction false} SliceStays<D>(t: Tables<D>, more: Tables<D>, rows: seq<SigRow<D>>, index: nat)
    requires Slice(t, rows, index) && Extends(t, more)
    ensures Slice(more, rows, index)
  {
    hide Decodes;
    forall j | 0 <= j < |rows| ensures Decodes(more.oArr, more.iArr[index + j], rows[j]) {
      DecodesLater(t.oArr, more.oArr, t.iArr[index + j], rows[j]);
    }
  }

  lemma {:induction false} AddedSlice<D>(t: Tables<D>, rows: seq<SigRow<D>>)
    ensures Slice(Add(t, rows).1, rows, Add(t, rows).0) && Extends(t, Add(t, rows).1)
  {
    EncodedRowsDecode(t.oArr, rows);
    hide Decodes, EncodeRows, Place;
    var e := EncodeRows(t.oArr, rows);
    var p := Place(t.iArr, e.0);
    forall j | 0 <= j < |rows| ensures Decodes(e.1, p.1[p.0 + j], rows[j]) {
      assert p.1[p.0..p.0 + |rows|][j] == e.0[j];
    }
  }

  // --- Sharing ---

  lemma {:induction false} PositionStays<D>(arr: seq<D>, more: seq<D>, d: D)
    requires arr <= more && d in arr
    ensures PositionOf(more, d) == PositionOf(arr, d)
  {
    if |more| > |arr| {
      var init := more[..|more| - 1];
      assert arr <= init;
      assert d in init by { assert init[PositionOf(arr, d).value] == d; }
      PositionStays(arr, init, d);
    } else {
      assert more == arr;
    }
  }

  lemma {:induction false} InternAgain<D>(arr: seq<D>, d: D, more: seq<D>)
    requires Intern(arr, d).1 <= more
    ensures Intern(more, d) == (Intern(arr, d).0, more)
  {
    var r := Intern(arr, d);
    assert PositionOf(r.1, d) == Some(r.0) by { if d !in arr { assert r.1[..|arr|] == arr; } }
    PositionStays(r.1, more, d);
  }

  lemma {:induction false} InternAllAgain<D>(arr: seq<D>, ops: seq<D>, more: seq<D>)
    requires InternAll(arr, ops).1 <= more
    ensures InternAll(more, ops) == (InternAll(arr, ops).0, more)
  {
    if ops != [] {
      var n := |ops| - 1;
      var init := InternAll(arr, ops[..n]);
      InternAllAgain(arr, ops[..n], more);
      InternAgain(init.1, ops[n], more);
    }
  }

  lemma {:induction false} EncodeRowsAgain<D>(arr: seq<D>, rows: seq<SigRow<D>>, more: seq<D>)
    requires EncodeRows(arr, rows).1 <= more
    ensures EncodeRows(more, rows) == (EncodeRows(arr, rows).0, more)
  {
    if rows != [] {
      var n := |rows| - 1;
      var init := EncodeRows(arr, rows[..n]);
      EncodeRowsAgain(arr, rows[..n], more);
      InternAllAgain(init.1, rows[n].ops, more);
    }
  }

  /** Once an instruction has been added, another one with the same rows takes no space, however
      far the tables have grown, and decodes to the same rows. */
  lemma {:induction false} EqualRowsAreShared<D>(t: Tables<D>, rows: seq<SigRow<D>>, more: Tables<D>)
    requires Extends(Add(t, rows).1, more)
    ensures Add(more, rows).1 == more && Slice(more, rows, Add(more, rows).0)
  {
    var e := EncodeRows(t.oArr, rows);
    EncodeRowsAgain(t.oArr, rows, more.oArr);
    RunStays(Place(t.iArr, e.0).1, more.iArr, e.0, Place(t.iArr, e.0).0);
    AddedSlice(more, rows);
  }

  ghost predicate Occurs<T>(table: seq<T>, rows: seq<T>) {
    exists i: nat :: RunAt(table, rows, i)
  }

  lemma {:induction false} PlaceGrows<T>(table: seq<T>, rows: seq<T>)
    ensures Place(table, rows).1 == if Occurs(table, rows) then table else table + rows
    ensures !Occurs(table, rows) ==> rows != []
  {
    if rows == [] { assert RunAt(table, rows, 0); }
  }

  /** The row table grows exactly when the encoded rows are nowhere in it. */
  lemma {:induction false} GrowsOnlyForNewRuns<D>(t: Tables<D>, rows: seq<SigRow<D>>)
    ensures Add(t, rows).1.iArr != t.iArr <==> !Occurs(t.iArr, EncodeRows(t.oArr, rows).0)
  {
    var e := EncodeRows(t.oArr, rows).0;
    PlaceGrows(t.iArr, e);
    assert |t.iArr + e| == |t.iArr| + |e|;
  }

  lemma {:induction false} AddNothing<D>(t: Tables<D>)
    ensures Add(t, []) == (0, t)
  {
    assert RunAt(t.iArr, [], 0);
  }

  // --- The order of the instructions ---

  function MaxRows<D>(insts: seq<seq<SigRow<D>>>): (m: nat)
    ensures forall k | 0 <= k < |insts| :: |insts[k]| <= m
    ensures m == 0 || exists k :: 0 <= k < |insts| && |insts[k]| == m
  {
    if insts == [] then 0
    else
      var init := MaxRows(insts[..|insts| - 1]);
      var last := |insts[|insts| - 1]|;
      assert forall k | 0 <= k < |insts| - 1 :: insts[..|insts| - 1][k] == insts[k];
      assert last == |insts[|insts| - 1]|;
      if init < last then last else init
  }

  /** How often an instruction's rows occur. */
  ghost function Times<D>(insts: seq<seq<SigRow<D>>>, x: seq<SigRow<D>>): nat {
    multiset(insts)[x]
  }

  lemma {:induction false} TimesOfConcat<D>(a: seq<seq<SigRow<D>>>, b: seq<seq<SigRow<D>>>, x: seq<SigRow<D>>)
    ensures Times(a + b, x) == Times(a, x) + Times(b, x)
    ensures Times([x], x) == 1 && forall y :: y != x ==> Times([y], x) == 0
  {
  }

  lemma {:induction false} SameLength<D>(insts: seq<seq<SigRow<D>>>, len: nat)
    ensures forall i | 0 <= i < |WithLength(insts, len)| :: |WithLength(insts, len)[i]| == len
  {
    if insts != [] { SameLength(insts[..|insts| - 1], len); }
  }

  lemma {:induction false} SameLengthCounts<D>(insts: seq<seq<SigRow<D>>>, len: nat, x: seq<SigRow<D>>)
    ensures Times(WithLength(insts, len), x) == if |x| == len then Times(insts, x) else 0
  {
    if insts != [] {
      var init, last := insts[..|insts| - 1], insts[|insts| - 1];
      SameLengthCounts(init, len, x);
      assert insts == init + [last];
      TimesOfConcat(init, [last], x);
      TimesOfConcat(WithLength(init, len), [last], x);
      hide Times;
    }
  }

  lemma {:induction false} LongestFirstCounts<D>(insts: seq<seq<SigRow<D>>>, n: nat, x: seq<SigRow<D>>)
    ensures Times(LongestFirst(insts, n), x) == if |x| < n then Times(insts, x) else 0
  {
    if n > 0 {
      hide Times, WithLength;
      LongestFirstCounts(insts, n - 1, x);
      SameLengthCounts(insts, n - 1, x);
      TimesOfConcat(WithLength(insts, n - 1), LongestFirst(insts, n - 1), x);
    }
  }

  lemma {:induction false} LongestFirstIsShorter<D>(insts: seq<seq<SigRow<D>>>, n: nat)
    ensures forall i | 0 <= i < |LongestFirst(insts, n)| :: |LongestFirst(insts, n)[i]| < n
  {
    if n > 0 {
      hide WithLength;
      LongestFirstIsShorter(insts, n - 1);
      SameLength(insts, n - 1);
    }
  }

  lemma {:induction false} LongestFirstDescends<D>(insts: seq<seq<SigRow<D>>>, n: nat, i: nat, j: nat)
    requires i < j < |LongestFirst(insts, n)|
    ensures |LongestFirst(insts, n)[i]| >= |LongestFirst(insts, n)[j]|
  {
    var first, rest := WithLength(insts, n - 1), LongestFirst(insts, n - 1);
    assert LongestFirst(insts, n) == first + rest;
    hide WithLength, LongestFirst;
    SameLength(insts, n - 1);
    LongestFirstIsShorter(insts, n - 1);
    if i >= |first| { LongestFirstDescends(insts, n - 1, i - |first|, j - |first|); }
  }

  lemma {:induction false} SameTimes<D>(a: seq<seq<SigRow<D>>>, b: seq<seq<SigRow<D>>>)
    requires forall x :: Times(a, x) == Times(b, x)
    ensures multiset(a) == multiset(b)
  {
    forall x ensures multiset(a)[x] == multiset(b)[x] {
      assert Times(a, x) == Times(b, x);
    }
    assert multiset(a) == multiset(b);
  }

  lemma {:induction false} NoneIsLonger<D>(insts: seq<seq<SigRow<D>>>, x: seq<SigRow<D>>)
    requires |x| > MaxRows(insts)
    ensures Times(insts, x) == 0
  {
    hide MaxRows;
    assert x !in insts;
  }

  lemma {:induction false} SameInstructions<D>(insts: seq<seq<SigRow<D>>>, x: seq<SigRow<D>>)
    ensures Times(LongestFirst(insts, MaxRows(insts) + 1), x) == Times(insts, x)
  {
    hide *;
    LongestFirstCounts(insts, MaxRows(insts) + 1, x);
    if |x| > MaxRows(insts) { NoneIsLonger(insts, x); }
  }

  ghost predicate Descends<D>(order: seq<seq<SigRow<D>>>) {
    forall i, j | 0 <= i < j < |order| :: |order[i]| >= |order[j]|
  }

  /** The order in which the instructions are added has all of them, each as often as it occurs, and those
      with more rows first. */
  lemma {:induction false} LongestFirstSorts<D>(insts: seq<seq<SigRow<D>>>)
    ensures var order := LongestFirst(insts, MaxRows(insts) + 1); multiset(order) == multiset(insts) && Descends(order)
  {
    hide Times, MaxRows, LongestFirst;
    var order := LongestFirst(insts, MaxRows(insts) + 1);
    assert multiset(order) == multiset(insts) by {
      forall x ensures Times(order, x) == Times(insts, x) { SameInstructions(insts, x); }
      SameTimes(order, insts);
    }
    assert Descends(order) by {
      forall i, j | 0 <= i < j < |order| ensures |order[i]| >= |order[j]| {
        LongestFirstDescends(insts, MaxRows(insts) + 1, i, j);
      }
    }
  }

  lemma {:induction false} AddAllAppend<D>(t: Tables<D>, a: seq<seq<SigRow<D>>>, b: seq<seq<SigRow<D>>>)
    ensures AddAll(t, []) == t && AddAll(t, a + b) == AddAll(AddAll(t, a), b)
  {
    hide Add;
    if b == [] {
      assert a + b == a;
    } else {
      AddAllAppend(t, a, b[..|b| - 1]);
      assert (a + b)[..|a + b| - 1] == a + b[..|b| - 1];
    }
  }

  lemma {:induction false} NextLength<D>(insts: seq<seq<SigRow<D>>>, n: nat, order: seq<seq<SigRow<D>>>)
    requires n > 0
    ensures order + LongestFirst(insts, n) == order + WithLength(insts, n - 1) + LongestFirst(insts, n - 1)
  {
  }

  lemma {:induction false} NoRows<D>(insts: seq<seq<SigRow<D>>>, order: seq<seq<SigRow<D>>>)
    ensures order + LongestFirst(insts, 0) == order
  {
  }

  lemma {:induction false} EmptySlice<D>(t: Tables<D>, rows: seq<SigRow<D>>, index: nat)
    requires Slice(t, rows, index) && t.iArr == []
    ensures rows == []
  {
  }

  // --- The program ---

  /** The positions of an entry, in order. */
  function Positions<T(==)>(arr: seq<T>, d: T): seq<nat> {
    if arr == [] then []
    else
      var init := Positions(arr[..|arr| - 1], d);
      if arr[|arr| - 1] == d then init + [|arr| - 1] else init
  }

  lemma {:induction false} PositionsAreAll<T>(arr: seq<T>, d: T)
    ensures var ps := Positions(arr, d);
            && (forall i | 0 <= i < |ps| :: ps[i] < |arr| && arr[ps[i]] == d)
            && (forall i, j | 0 <= i < j < |ps| :: ps[i] < ps[j])
            && (forall p | 0 <= p < |arr| && arr[p] == d :: p in ps)
  {
    if arr != [] {
      var init := arr[..|arr| - 1];
      PositionsAreAll(init, d);
      forall p | 0 <= p < |arr| && arr[p] == d ensures p in Positions(arr, d) {
        if p < |arr| - 1 { assert init[p] == d; }
      }
    }
  }

  class InstSignatureTable<D(==,!new)> {
    var iSignatureMap: map<Entry, seq<nat>>
    var iSignatureArr: seq<Entry>
    var oSignatureMap: map<D, nat>
    var oSignatureArr: seq<D>

    /** The maps hold the positions of everything in the arrays. */
    ghost predicate Valid()
      reads this
    {
      && (forall e :: e in iSignatureMap <==> e in iSignatureArr)
      && (forall e | e in iSignatureMap :: iSignatureMap[e] == Positions(iSignatureArr, e))
      && (forall d :: d in oSignatureMap <==> d in oSignatureArr)
      && (forall d | d in oSignatureMap :: PositionOf(oSignatureArr, d) == Some(oSignatureMap[d]))
    }

    function View(): Tables<D>
      reads this
    {
      Tables(oSignatureArr, iSignatureArr)
    }

    /** The tables with the entry for no operand. */
    constructor (none: D)
      ensures Valid() && View() == Tables([none], [])
    {
      iSignatureMap, iSignatureArr := map[], [];
      oSignatureMap, oSignatureArr := map[none := 0], [none];
      new;
      assert none in [none];
    }

    /** Looks for the rows with the help of the positions of the first one. */
    method FindSignaturesIndex(rows: seq<Entry>) returns (at: Option<nat>)
      requires Valid()
      ensures at == FirstRun(iSignatureArr, rows, 0)
    {
      ghost var first := FirstRun(iSignatureArr, rows, 0);
      if |rows| == 0 { return Some(0); }
      if rows[0] !in iSignatureMap {
        if first.Some? { RunStartsWith(iSignatureArr, rows, first.value); }
        return None;
      }
      var indexes := iSignatureMap[rows[0]];
      PositionsAreAll(iSignatureArr, rows[0]);
      var i := 0;
      while i < |indexes|
        invariant i <= |indexes|
        invariant forall k | 0 <= k < i :: !RunAt(iSignatureArr, rows, indexes[k])
      {
        var index := indexes[i];
        if index + |rows| <= |iSignatureArr| {
          var ok := SameAt(rows, index);
          if ok {
            RunStartsWith(iSignatureArr, rows, first.value);
            return Some(index);
          }
        }
        i := i + 1;
      }
      if first.Some? { RunStartsWith(iSignatureArr, rows, first.value); }
      return None;
    }

    method SameAt(rows: seq<Entry>, index: nat) returns (ok: bool)
      requires index + |rows| <= |iSignatureArr|
      ensures ok == RunAt(iSignatureArr, rows, index)
    {
      var j := 0;
      while j < |rows|
        invariant j <= |rows| && forall k | 0 <= k < j :: iSignatureArr[index + k] == rows[k]
      {
        if iSignatureArr[index + j] != rows[j] {
          assert iSignatureArr[index..index + |rows|][j] != rows[j];
          return false;
        }
        j := j + 1;
      }
      return true;
    }

    method IndexSignatures(signatures: seq<Entry>) returns (result: nat)
      requires Valid()
      modifies this
      ensures Valid() && result == old(|iSignatureArr|) && iSignatureArr == old(iSignatureArr) + signatures
      ensures oSignatureArr == old(oSignatureArr)
    {
      result := |iSignatureArr|;
      var i := 0;
      while i < |signatures|
        invariant i <= |signatures| && Valid() && oSignatureArr == old(oSignatureArr)
        invariant iSignatureArr == old(iSignatureArr) + signatures[..i]
      {
        AppendSignature(signatures[i]);
        i := i + 1;
      }
      assert signatures[..i] == signatures;
    }

    method AppendSignature(signature: Entry)
      requires Valid()
      modifies this
      ensures Valid() && iSignatureArr == old(iSignatureArr) + [signature] && oSignatureArr == old(oSignatureArr)
    {
      var idx := |iSignatureArr|;
      ghost var before := iSignatureArr;
      if signature !in iSignatureMap {
        NoPositions(iSignatureArr, signature);
        iSignatureMap := iSignatureMap[signature := []];
      }
      iSignatureMap := iSignatureMap[signature := iSignatureMap[signature] + [idx]];
      iSignatureArr := iSignatureArr + [signature];
      assert iSignatureArr[..idx] == before;
    }

    method InternOperand(h: D) returns (index: nat)
      requires Valid()
      modifies this
      ensures Valid() && iSignatureArr == old(iSignatureArr)
      ensures (index, oSignatureArr) == Intern(old(oSignatureArr), h)
    {
      if h !in oSignatureMap {
        index := |oSignatureArr|;
        ghost var before := oSignatureArr;
        oSignatureMap := oSignatureMap[h := index];
        oSignatureArr := oSignatureArr + [h];
        forall d | d in oSignatureMap ensures PositionOf(oSignatureArr, d) == Some(oSignatureMap[d]) {
          assert oSignatureArr[..index] == before;
        }
      } else {
        index := oSignatureMap[h];
      }
    }

    /** The table row of a signature: its operands are looked up or added, then padded. */
    method MakeEntry(row: SigRow<D>) returns (e: Entry)
      requires Valid()
      modifies this
      ensures Valid() && iSignatureArr == old(iSignatureArr)
      ensures (e, oSignatureArr) == EncodeRow(old(oSignatureArr), row)
    {
      var indexes: seq<nat> := [];
      var x := 0;
      while x < |row.ops|
        invariant x <= |row.ops| && Valid() && iSignatureArr == old(iSignatureArr)
        invariant (indexes, oSignatureArr) == InternAll(old(oSignatureArr), row.ops[..x])
      {
        var index := InternOperand(row.ops[x]);
        assert row.ops[..x + 1][..x] == row.ops[..x];
        indexes := indexes + [index];
        x := x + 1;
      }
      assert row.ops[..x] == row.ops;
      var padded := PadIndexes(indexes);
      e := Entry(|row.ops|, row.x86, row.x64, row.implicit, padded);
    }

    method Entries(rows: seq<SigRow<D>>) returns (entries: seq<Entry>)
      requires Valid()
      modifies this
      ensures Valid() && iSignatureArr == old(iSignatureArr)
      ensures (entries, oSignatureArr) == EncodeRows(old(oSignatureArr), rows)
    {
      entries := [];
      var j := 0;
      while j < |rows|
        invariant j <= |rows| && Valid() && iSignatureArr == old(iSignatureArr)
        invariant (entries, oSignatureArr) == EncodeRows(old(oSignatureArr), rows[..j])
      {
        hide EncodeRow;
        var e := MakeEntry(rows[j]);
        assert rows[..j + 1][..j] == rows[..j];
        entries := entries + [e];
        j := j + 1;
      }
      assert rows[..j] == rows;
    }

    /** Gives an instruction its slice. An instruction without rows is given the first row, and if
        there is no row yet the program fails. */
    method AddInstruction(rows: seq<SigRow<D>>) returns (index: Option<nat>)
      requires Valid()
      modifies this
      ensures Valid() && View() == Add(old(View()), rows).1
      ensures index.None? <==> rows == [] && old(iSignatureArr) == []
      ensures index.Some? ==> index.value == Add(old(View()), rows).0
    {
      var entries := Entries(rows);
      var found := FindSignaturesIndex(entries);
      var at: nat;
      match found {
        case Some(i) => at := i;
        case None => at := IndexSignatures(entries);
      }
      index := if at < |iSignatureArr| then Some(at) else None;
    }

    method AddWithLength(insts: seq<seq<SigRow<D>>>, len: nat, indexes0: seq<nat>) returns (ok: bool, indexes: seq<nat>)
      requires Valid() && |indexes0| == |insts|
      modifies this
      ensures Valid() && |indexes| == |insts| && Extends(old(View()), View())
      ensures ok ==> View() == AddAll(old(View()), WithLength(insts, len))
      ensures ok ==> forall k | 0 <= k < |insts| && |insts[k]| == len :: Slice(View(), insts[k], indexes[k])
      ensures forall k | 0 <= k < |insts| && |insts[k]| != len :: indexes[k] == indexes0[k]
      ensures !ok <==> len == 0 && old(iSignatureArr) == [] && exists k :: 0 <= k < |insts| && |insts[k]| == 0
    {
      hide Add, Slice;
      ok, indexes := true, indexes0;
      var i := 0;
      while i < |insts|
        invariant i <= |insts| && Valid() && |indexes| == |insts|
        invariant View() == AddAll(old(View()), WithLength(insts[..i], len))
        invariant forall k | 0 <= k < i && |insts[k]| == len :: Slice(View(), insts[k], indexes[k])
        invariant forall k | 0 <= k < |insts| && |insts[k]| != len :: indexes[k] == indexes0[k]
        invariant Extends(old(View()), View())
        invariant len == 0 ==> iSignatureArr == old(iSignatureArr)
        invariant len == 0 && old(iSignatureArr) == [] ==> forall k | 0 <= k < i :: |insts[k]| != 0
      {
        var rows := insts[i];
        ghost var before := View();
        assert insts[..i + 1][..i] == insts[..i];
        if |rows| == len {
          AddedSlice(View(), rows);
          if len == 0 { AddNothing(View()); }
          var index := AddInstruction(rows);
          if index.None? { ok := false; return; }
          indexes := indexes[i := index.value];
          forall k | 0 <= k < i && |insts[k]| == len ensures Slice(View(), insts[k], indexes[k]) {
            SliceStays(before, View(), insts[k], indexes[k]);
          }
        }
        i := i + 1;
      }
      assert insts[..i] == insts;
    }

    /** Adds all instructions, those with the most rows first. It fails exactly when there are
        instructions and none of them has a row. */
    method Run(insts: seq<seq<SigRow<D>>>, none: D) returns (ok: bool, indexes: seq<nat>)
      requires Valid() && View() == Tables([none], [])
      modifies this
      ensures Valid() && (!ok <==> insts != [] && forall k | 0 <= k < |insts| :: insts[k] == [])
      ensures ok ==> View() == AddAll(Tables([none], []), LongestFirst(insts, MaxRows(insts) + 1))
      ensures ok ==> |indexes| == |insts| && forall k | 0 <= k < |insts| :: Slice(View(), insts[k], indexes[k])
    {
      hide AddAll, Decodes, Add, Slice, LongestFirst, WithLength;
      var maxOpRows := MostRows(insts);
      indexes := seq(|insts|, _ => 0);
      ghost var start := View();
      ghost var order: seq<seq<SigRow<D>>> := [];
      AddAllAppend(start, [], []);
      var n := maxOpRows + 1;
      while n > 0
        invariant n <= maxOpRows + 1 && Valid() && |indexes| == |insts|
        invariant View() == AddAll(start, order)
        invariant order + LongestFirst(insts, n) == LongestFirst(insts, maxOpRows + 1)
        invariant forall k | 0 <= k < |insts| && |insts[k]| >= n :: Slice(View(), insts[k], indexes[k])
        invariant n == maxOpRows + 1 ==> iSignatureArr == []
        invariant n == 0 ==> insts == [] || maxOpRows > 0
      {
        ghost var before, indexes0 := View(), indexes;
        var done;
        done, indexes := AddWithLength(insts, n - 1, indexes);
        if !done {
          forall k | 0 <= k < |insts| ensures insts[k] == [] {
            if |insts[k]| >= n { EmptySlice(before, insts[k], indexes0[k]); }
          }
          return false, indexes;
        }
        assert n == 1 && insts != [] ==> maxOpRows > 0;
        NextLength(insts, n, order);
        AddAllAppend(start, order, WithLength(insts, n - 1));
        order := order + WithLength(insts, n - 1);
        forall k | 0 <= k < |insts| && |insts[k]| >= n ensures Slice(View(), insts[k], indexes[k]) {
          SliceStays(before, View(), insts[k], indexes[k]);
        }
        n := n - 1;
      }
      NoRows(insts, order);
      ok := true;
    }
  }

  lemma {:induction false} NoPositions<T>(arr: seq<T>, d: T)
    requires d !in arr
    ensures Positions(arr, d) == []
  {
    if arr != [] { NoPositions(arr[..|arr| - 1], d); }
  }

  lemma {:induction false} RunStartsWith<T>(table: seq<T>, rows: seq<T>, i: nat)
    requires RunAt(table, rows, i) && rows != []
    ensures i < |table| && table[i] == rows[0] && rows[0] in table
  {
    assert table[i..i + |rows|][0] == rows[0];
  }

  method PadIndexes(indexes: seq<nat>) returns (padded: seq<nat>)
    ensures padded == Pad(indexes)
  {
    padded := indexes;
    var x := |indexes|;
    while x < PADDED
      invariant x == |padded| && Pad(padded) == Pad(indexes)
    {
      padded := padded + [0];
      x := x + 1;
    }
  }

  method MostRows<D>(insts: seq<seq<SigRow<D>>>) returns (m: nat)
    ensures m == MaxRows(insts)
  {
    m := 0;
    var i := 0;
    while i < |insts|
      invariant i <= |insts| && m == MaxRows(insts[..i])
    {
      assert insts[..i + 1][..i] == insts[..i];
      m := if m < |insts[i]| then |insts[i]| else m;
      i := i + 1;
    }
    assert insts[..i] == insts;
  }
}
