/** The tables that turn an enumeration value into its name (tools/enumgen.js). */
module EnumIndex {
  import opened Sorting
  import opened StringPool
  import opened Wrappers

  datatype Entry = Entry(name: string, value: int)

  const UNKNOWN := "<Unknown>"

  function NamesOf(table: seq<Entry>): seq<string> {
    seq(|table|, i requires 0 <= i < |table| => table[i].name)
  }

  // --- Order ---

  predicate UpToValue(a: Entry, b: Entry) {
    a.value <= b.value
  }

  ghost predicate ByValue(table: seq<Entry>) {
    InOrder(UpToValue, table)
  }

  function SortEntries(table: seq<Entry>): seq<Entry> {
    Sort(UpToValue, table)
  }

  lemma {:induction false} SortPermutes(table: seq<Entry>)
    ensures multiset(SortEntries(table)) == multiset(table)
    ensures |SortEntries(table)| == |table| && forall e :: e in SortEntries(table) <==> e in table
  {
    SortHasSameElements(UpToValue, table);
  }

  lemma {:induction false} SortOrders(table: seq<Entry>)
    ensures ByValue(SortEntries(table))
  {
    SortIsInOrder(UpToValue, table);
  }

  // --- The index ---

  function Repeat(x: nat, n: int): seq<nat> {
    if n <= 0 then [] else Repeat(x, n - 1) + [x]
  }

  /** Where the names begin, one after the other; a value that has no name gets `unknown`. */
  function IndexOf(table: seq<Entry>, unknown: nat): seq<nat> {
    if table == [] then []
    else
      var init, e := table[..|table| - 1], table[|table| - 1];
      var index := IndexOf(init, unknown);
      index + Repeat(unknown, e.value - |index|) + [Offset(NamesOf(init))]
  }

  /** Different values, from 0 up. */
  ghost predicate Ascending0(table: seq<Entry>) {
    && (forall i | 0 <= i < |table| :: table[i].value >= 0)
    && (forall i, j | 0 <= i < j < |table| :: table[i].value < table[j].value)
  }

  /** Where the index of the last entry goes. */
  function LastPosition(table: seq<Entry>, unknown: nat): nat
    requires table != []
  {
    |IndexOf(table, unknown)| - 1
  }

  lemma {:induction false} RepeatIs(x: nat, n: int)
    ensures |Repeat(x, n)| == (if n <= 0 then 0 else n) && forall i | 0 <= i < |Repeat(x, n)| :: Repeat(x, n)[i] == x
  {
    if n > 0 { RepeatIs(x, n - 1); }
  }

  /** Where the name of entry `i` begins. */
  function Start(table: seq<Entry>, i: nat): nat
    requires i <= |table|
  {
    Offset(NamesOf(table[..i]))
  }

  lemma {:induction false} StartOfInit(table: seq<Entry>, n: nat, i: nat)
    requires i <= n <= |table|
    ensures Start(table[..n], i) == Start(table, i)
  {
    assert table[..n][..i] == table[..i];
  }

  ghost predicate NoEntry(table: seq<Entry>, v: nat) {
    forall i | 0 <= i < |table| :: table[i].value != v
  }

  ghost predicate NamesFound(table: seq<Entry>, index: seq<nat>) {
    forall i | 0 <= i < |table| :: 0 <= table[i].value < |index| && index[table[i].value] == Start(table, i)
  }

  ghost predicate GapsAreUnknown(table: seq<Entry>, index: seq<nat>, unknown: nat) {
    forall v: nat | v < |index| && NoEntry(table, v) :: index[v] == unknown
  }

  /** What the index says of every value: the place of its name, or `unknown`. */
  ghost predicate IndexIsRight(table: seq<Entry>, unknown: nat) {
    NamesFound(table, IndexOf(table, unknown)) && GapsAreUnknown(table, IndexOf(table, unknown), unknown)
  }

  /** One more entry with a larger value. */
  lemma {:induction false} NextFound(table: seq<Entry>, before: seq<nat>, index: seq<nat>)
    requires table != [] && NamesFound(table[..|table| - 1], before)
    requires before <= index && 0 <= table[|table| - 1].value < |index|
    requires index[table[|table| - 1].value] == Start(table, |table| - 1)
    ensures NamesFound(table, index)
  {
    hide Start;
    var n := |table| - 1;
    forall i | 0 <= i < |table| ensures 0 <= table[i].value < |index| && index[table[i].value] == Start(table, i) {
      if i < n {
        assert table[..n][i] == table[i];
        StartOfInit(table, n, i);
      }
    }
  }

  lemma {:induction false} NextGaps(table: seq<Entry>, before: seq<nat>, index: seq<nat>, unknown: nat)
    requires table != [] && GapsAreUnknown(table[..|table| - 1], before, unknown)
    requires before <= index && |index| == table[|table| - 1].value + 1
    requires forall v | |before| <= v < |index| - 1 :: index[v] == unknown
    ensures GapsAreUnknown(table, index, unknown)
  {
    var n := |table| - 1;
    forall v: nat | v < |index| && NoEntry(table, v) ensures index[v] == unknown {
      assert table[n].value != v;
      if v < |before| { assert NoEntry(table[..n], v); }
    }
  }

  /** Values that differ and are not negative are found in the index, and gaps lead to `unknown`. */
  lemma {:induction false} IndexFindsNames(table: seq<Entry>, unknown: nat)
    requires Ascending0(table)
    ensures IndexIsRight(table, unknown)
    ensures |IndexOf(table, unknown)| == if table == [] then 0 else table[|table| - 1].value + 1
  {
    if table != [] {
      var init := table[..|table| - 1];
      hide NamesFound, GapsAreUnknown, IndexOf, Start, Ascending0;
      AscendingInit(table);
      IndexFindsNames(init, unknown);
      LastIndex(table, unknown);
      NextFound(table, IndexOf(init, unknown), IndexOf(table, unknown));
      NextGaps(table, IndexOf(init, unknown), IndexOf(table, unknown), unknown);
    }
  }

  lemma {:induction false} LastIndex(table: seq<Entry>, unknown: nat)
    requires table != [] && |IndexOf(table[..|table| - 1], unknown)| <= table[|table| - 1].value
    ensures var n := |table| - 1;
            var before, index := IndexOf(table[..n], unknown), IndexOf(table, unknown);
            && before <= index && |index| == table[n].value + 1 && index[table[n].value] == Start(table, n)
            && forall v | |before| <= v < |index| - 1 :: index[v] == unknown
  {
    var n := |table| - 1;
    var before := IndexOf(table[..n], unknown);
    RepeatIs(unknown, table[n].value - |before|);
    IndexOfLast(table, unknown);
    hide IndexOf, Start, Repeat;
    var fill := Repeat(unknown, table[n].value - |before|);
    assert IndexOf(table, unknown) == before + (fill + [Start(table, n)]);
  }

  lemma {:induction false} AscendingInit(table: seq<Entry>)
    requires Ascending0(table) && table != []
    ensures Ascending0(table[..|table| - 1]) && table[|table| - 1].value >= 0
    ensures |table| > 1 ==> table[|table| - 2].value < table[|table| - 1].value
  {
  }

  lemma {:induction false} IndexOfLast(table: seq<Entry>, unknown: nat)
    requires table != []
    ensures var n := |table| - 1;
            var before := IndexOf(table[..n], unknown);
            IndexOf(table, unknown) == before + Repeat(unknown, table[n].value - |before|) + [Start(table, n)]
  {
    hide Offset, NamesOf, Repeat;
  }

  /** Entry `i` goes to the position of its value for every `i` exactly when the values of the sorted
      table differ and are not negative: a repeated or negative value moves all that follow. */
  lemma {:induction false} PositionsAreValues(table: seq<Entry>, unknown: nat)
    requires ByValue(table)
    ensures (forall n | 0 < n <= |table| :: LastPosition(table[..n], unknown) == table[n - 1].value) <==> Ascending0(table)
  {
    if Ascending0(table) {
      forall n | 0 < n <= |table| ensures LastPosition(table[..n], unknown) == table[n - 1].value {
        IndexFindsNames(table[..n], unknown);
      }
    } else if forall n | 0 < n <= |table| :: LastPosition(table[..n], unknown) == table[n - 1].value {
      forall i | 0 <= i < |table| ensures table[i].value >= 0 {
        assert LastPosition(table[..i + 1], unknown) == table[i].value;
      }
      forall j | 0 < j < |table| ensures table[j - 1].value < table[j].value {
        assert LastPosition(table[..j], unknown) == table[j - 1].value;
        assert LastPosition(table[..j + 1], unknown) == table[j].value;
        assert table[..j + 1][..j] == table[..j];
      }
      StrictlyUp(table);
    }
  }

  lemma {:induction false} StrictlyUp(table: seq<Entry>)
    requires ByValue(table) && forall j | 0 < j < |table| :: table[j - 1].value < table[j].value
    ensures forall i, j | 0 <= i < j < |table| :: table[i].value < table[j].value
  {
    forall i, j | 0 <= i < j < |table| ensures table[i].value < table[j].value {
      assert table[i].value <= table[j - 1].value;
    }
  }

  // --- The whole table ---

  function MaxValue(table: seq<Entry>): int {
    if table == [] then -1
    else
      var m, e := MaxValue(table[..|table| - 1]), table[|table| - 1];
      if m < e.value then e.value else m
  }

  lemma {:induction false} MaxIsMax(table: seq<Entry>)
    ensures MaxValue(table) >= -1 && forall e | e in table :: e.value <= MaxValue(table)
    ensures MaxValue(table) == -1 || exists e :: e in table && e.value == MaxValue(table)
  {
    if table != [] {
      var init, last := table[..|table| - 1], table[|table| - 1];
      MaxIsMax(init);
      assert table == init + [last];
      assert last in table;
    }
  }

  /** The sorted entries, and the one for unknown values after them. */
  function Complete(entries: seq<Entry>): seq<Entry> {
    SortEntries(entries) + [Entry(UNKNOWN, MaxValue(entries) + 1)]
  }

  datatype IndexType = UInt8 | UInt16 | UInt32

  /** The smallest type that has room for the text. */
  function TypeFor(size: nat): (r: IndexType)
    ensures size <= 0x1_0000_0000 ==> size <= Limit(r) && forall t: IndexType | size <= Limit(t) :: Limit(r) <= Limit(t)
  {
    if size <= 256 then UInt8 else if size <= 65536 then UInt16 else UInt32
  }

  function Limit(t: IndexType): nat {
    match t
    case UInt8 => 256
    case UInt16 => 65536
    case UInt32 => 0x1_0000_0000
  }

  lemma {:induction false} OffsetsFit(names: seq<string>, i: nat)
    requires i < |names| && Offset(names) <= 0x1_0000_0000
    ensures Offset(names[..i]) < Limit(TypeFor(Offset(names)))
  {
    OffsetGrows(names, i);
  }

  lemma {:induction false} OffsetGrows(names: seq<string>, i: nat)
    requires i < |names|
    ensures Offset(names[..i]) + |names[i]| + 1 <= Offset(names)
  {
    var n := |names| - 1;
    if i < n {
      OffsetGrows(names[..n], i);
      assert names[..n][..i] == names[..i];
    }
  }

  ghost predicate DifferentValues(entries: seq<Entry>) {
    && (forall i | 0 <= i < |entries| :: entries[i].value >= 0)
    && (forall i, j | 0 <= i < j < |entries| :: entries[i].value != entries[j].value)
  }

  lemma {:induction false} CompleteAscends(entries: seq<Entry>)
    requires DifferentValues(entries)
    ensures Ascending0(Complete(entries)) && |Complete(entries)| == |entries| + 1
    ensures Complete(entries)[|entries|].value == MaxValue(entries) + 1
  {
    var sorted := SortEntries(entries);
    SortOrders(entries);
    SortPermutes(entries);
    MaxIsMax(entries);
    forall i | 0 <= i < |sorted| ensures 0 <= sorted[i].value <= MaxValue(entries) {
      assert sorted[i] in entries;
    }
    forall i, j | 0 <= i < j < |sorted| ensures sorted[i].value < sorted[j].value {
      if sorted[i].value == sorted[j].value { Repeated(entries, sorted, i, j); }
    }
  }

  lemma {:induction false} Repeated(entries: seq<Entry>, sorted: seq<Entry>, i: nat, j: nat)
    requires multiset(sorted) == multiset(entries) && i < j < |sorted| && sorted[i].value == sorted[j].value
    ensures exists a, b :: 0 <= a < b < |entries| && entries[a].value == entries[b].value
  {
    var x, y := sorted[i], sorted[j];
    assert x in multiset(sorted) && y in multiset(sorted);
    var a :| 0 <= a < |entries| && entries[a] == x;
    if x != y {
      assert y in entries;
      var b :| 0 <= b < |entries| && entries[b] == y;
      assert entries[a].value == entries[b].value;
    } else {
      TwiceIn(sorted, i, j);
      var b := Another(entries, x, a);
      assert entries[b].value == entries[a].value;
    }
  }

  lemma {:induction false} Another(entries: seq<Entry>, x: Entry, a: nat) returns (b: nat)
    requires a < |entries| && entries[a] == x && multiset(entries)[x] >= 2
    ensures b < |entries| && b != a && entries[b] == x
  {
    var before, after := entries[..a], entries[a + 1..];
    assert entries == before + [x] + after;
    assert multiset(entries)[x] == multiset(before)[x] + 1 + multiset(after)[x];
    if x in before {
      b :| 0 <= b < a && before[b] == x;
    } else {
      assert x in after;
      var c :| 0 <= c < |after| && after[c] == x;
      b := a + 1 + c;
    }
  }

  lemma {:induction false} TwiceIn(s: seq<Entry>, i: nat, j: nat)
    requires i < j < |s| && s[i] == s[j]
    ensures multiset(s)[s[i]] >= 2
  {
    assert s == s[..j] + [s[j]] + s[j + 1..];
    assert s[..j][i] in s[..j];
  }

  /** The place of the entry with the value in the sorted table, or the last place. */
  lemma {:induction false} LeadsTo(entries: seq<Entry>, sorted: seq<Entry>, table: seq<Entry>, v: nat) returns (k: nat)
    requires DifferentValues(entries) && multiset(sorted) == multiset(entries)
    requires table == sorted + [Entry(UNKNOWN, MaxValue(entries) + 1)]
    ensures k < |table| == |entries| + 1
    ensures forall i | 0 <= i < |entries| && entries[i].value == v :: table[k] == entries[i]
    ensures (forall i | 0 <= i < |entries| :: entries[i].value != v) ==>
              k == |entries| && (v <= MaxValue(entries) ==> NoEntry(table, v))
  {
    assert |multiset(sorted)| == |sorted| && |multiset(entries)| == |entries|;
    if i :| 0 <= i < |entries| && entries[i].value == v {
      assert entries[i] in multiset(entries);
      k :| 0 <= k < |sorted| && sorted[k] == entries[i];
    } else {
      k := |entries|;
      if v <= MaxValue(entries) {
        forall j | 0 <= j < |table| ensures table[j].value != v {
          if j < |sorted| { assert sorted[j] in multiset(entries); }
        }
      }
    }
  }

  /** The entry that the index leads to: the one with the value, or the last one. */
  lemma {:induction false} Leads(entries: seq<Entry>, v: nat) returns (k: nat)
    requires DifferentValues(entries) && v <= MaxValue(entries) + 1
    ensures var table := Complete(entries);
            && k < |table| == |entries| + 1
            && var index := IndexOf(table, Start(table, |entries|));
            && |index| == MaxValue(entries) + 2 && index[v] == Start(table, k)
            && (forall i | 0 <= i < |entries| && entries[i].value == v :: table[k] == entries[i])
            && ((forall i | 0 <= i < |entries| :: entries[i].value != v) ==> table[k].name == UNKNOWN)
  {
    var table := Complete(entries);
    CompleteAscends(entries);
    IndexFindsNames(table, Start(table, |entries|));
    var sorted := SortEntries(entries);
    SortPermutes(entries);
    assert table == sorted + [Entry(UNKNOWN, MaxValue(entries) + 1)];
    hide Start, IndexOf, SortEntries, Complete, Ascending0;
    k := LeadsTo(entries, sorted, table, v);
    assert table[k].value < |IndexOf(table, Start(table, |entries|))|;
  }

  /** The tables of an enumeration with different, non-negative values: the index leads from a value
      to the zero-terminated name, from every other value up to the largest one and one more to
      `<Unknown>`, and its elements fit their type. */
  lemma {:induction false} TablesAreRight(entries: seq<Entry>, v: nat)
    requires DifferentValues(entries) && v <= MaxValue(entries) + 1
    ensures var table := Complete(entries);
            && |table| == |entries| + 1
            && var names, index := NamesOf(table), IndexOf(table, Start(table, |entries|));
            && |index| == MaxValue(entries) + 2
            && (forall i | 0 <= i < |entries| && entries[i].value == v :: TextAt(Buffer(names), entries[i].name, index[v]))
            && ((forall i | 0 <= i < |entries| :: entries[i].value != v) ==> TextAt(Buffer(names), UNKNOWN, index[v]))
            && (Offset(names) <= 0x1_0000_0000 ==> index[v] < Limit(TypeFor(Offset(names))))
  {
    var k := Leads(entries, v);
    var table := Complete(entries);
    var names := NamesOf(table);
    assert NamesOf(table[..k]) == names[..k];
    assert names[k] == table[k].name;
    hide Buffer, TextAt, IndexOf, Complete, MaxValue, DifferentValues, NamesOf;
    StoredText(names, k);
    if Offset(names) <= 0x1_0000_0000 { OffsetsFit(names, k); }
  }

  // --- The program ---

  method CompactedSize(table: seq<Entry>) returns (size: nat)
    ensures size == Offset(NamesOf(table))
  {
    size := 0;
    var i := 0;
    while i < |table|
      invariant i <= |table| && size == Offset(NamesOf(table)[..i])
    {
      assert NamesOf(table)[..i + 1][..i] == NamesOf(table)[..i];
      size := size + |table[i].name| + 1;
      i := i + 1;
    }
    assert NamesOf(table)[..i] == NamesOf(table);
  }

  method BuildIndexData(table: seq<Entry>, unknownIndex: nat) returns (indexArray: seq<nat>)
    ensures indexArray == IndexOf(table, unknownIndex)
  {
    var index := 0;
    indexArray := [];
    var i := 0;
    while i < |table|
      invariant i <= |table| && index == Offset(NamesOf(table[..i])) && indexArray == IndexOf(table[..i], unknownIndex)
    {
      assert table[..i + 1][..i] == table[..i];
      NextOffset(table, i);
      hide Offset, NamesOf, Repeat;
      indexArray := FillUp(indexArray, unknownIndex, table[i].value);
      indexArray := indexArray + [index];
      index := index + |table[i].name| + 1;
      i := i + 1;
    }
    assert table[..i] == table;
  }

  method FillUp(before: seq<nat>, unknownIndex: nat, size: int) returns (indexArray: seq<nat>)
    ensures indexArray == before + Repeat(unknownIndex, size - |before|)
  {
    indexArray := before;
    ghost var n := 0;
    while |indexArray| < size
      invariant n >= 0 && |indexArray| == |before| + n && indexArray == before + Repeat(unknownIndex, n)
      invariant n == 0 || |indexArray| <= size
    {
      indexArray := indexArray + [unknownIndex];
      n := n + 1;
    }
  }

  lemma {:induction false} NextOffset(table: seq<Entry>, i: nat)
    requires i < |table|
    ensures Offset(NamesOf(table[..i + 1])) == Offset(NamesOf(table[..i])) + |table[i].name| + 1
  {
    assert NamesOf(table[..i + 1])[..i] == NamesOf(table[..i]);
  }

  /** The entries of a map, their names without the prefix; the program stops at a name that does
      not have it. */
  function StripAll(members: seq<Entry>, prefix: string): Option<seq<Entry>> {
    if members == [] then Some([])
    else
      var init, e := StripAll(members[..|members| - 1], prefix), members[|members| - 1];
      if init.None? || !(prefix <= e.name) then None
      else Some(init.value + [Entry(e.name[|prefix|..], e.value)])
  }

  lemma {:induction false} StrippedEntries(members: seq<Entry>, prefix: string)
    ensures StripAll(members, prefix).Some? <==> forall i | 0 <= i < |members| :: prefix <= members[i].name
    ensures var r := StripAll(members, prefix);
            r.Some? ==>
              && |r.value| == |members|
              && forall i | 0 <= i < |members| ::
                   prefix + r.value[i].name == members[i].name && r.value[i].value == members[i].value
  {
    if members != [] {
      var n := |members| - 1;
      StrippedEntries(members[..n], prefix);
      assert forall i | 0 <= i < n :: members[..n][i] == members[i];
      var e := members[n];
      if prefix <= e.name { assert prefix + e.name[|prefix|..] == e.name; }
    }
  }

  method Strip(members: seq<Entry>, prefix: string) returns (table: Option<seq<Entry>>, max: int)
    ensures table == StripAll(members, prefix) && (table.Some? ==> max == MaxValue(table.value))
  {
    max := -1;
    var stripped: seq<Entry> := [];
    var i := 0;
    hide MaxValue;
    assert MaxValue([]) == -1 by { MaxOfNone(); }
    while i < |members|
      invariant i <= |members| && StripAll(members[..i], prefix) == Some(stripped) && max == MaxValue(stripped)
    {
      assert members[..i + 1][..i] == members[..i];
      if !(prefix <= members[i].name) {
        StripFails(members, prefix, i + 1);
        return None, max;
      }
      var e := Entry(members[i].name[|prefix|..], members[i].value);
      MaxOfNext(stripped, e);
      stripped := stripped + [e];
      max := if max < e.value then e.value else max;
      i := i + 1;
    }
    assert members[..i] == members;
    table := Some(stripped);
  }

  lemma {:induction false} MaxOfNone()
    ensures MaxValue([]) == -1
  {
  }

  lemma {:induction false} MaxOfNext(table: seq<Entry>, e: Entry)
    ensures MaxValue(table + [e]) == if MaxValue(table) < e.value then e.value else MaxValue(table)
  {
    assert (table + [e])[..|table|] == table;
  }

  lemma {:induction false} StripFails(members: seq<Entry>, prefix: string, n: nat)
    requires n <= |members| && StripAll(members[..n], prefix).None?
    ensures StripAll(members, prefix).None?
  {
    if n < |members| {
      assert members[..|members| - 1][..n] == members[..n];
      StripFails(members[..|members| - 1], prefix, n);
    } else {
      assert members[..n] == members;
    }
  }

  lemma {:induction false} AppendOne(table: seq<Entry>, e: Entry)
    ensures Start(table + [e], |table|) == Offset(NamesOf(table))
  {
    assert (table + [e])[..|table|] == table;
  }

  /** The names, the index and the type of its elements. */
  method StringifyEnum(members: seq<Entry>, prefix: string)
    returns (ok: bool, data: seq<string>, indexType: IndexType, index: seq<nat>)
    ensures ok <==> StripAll(members, prefix).Some?
    ensures ok ==> var table := Complete(StripAll(members, prefix).value);
            && data == NamesOf(table) && indexType == TypeFor(Offset(data))
            && index == IndexOf(table, Start(table, |table| - 1))
  {
    data, indexType, index := [], UInt8, [];
    var stripped, max := Strip(members, prefix);
    if stripped.None? { return false, data, indexType, index; }
    hide IndexOf, SortEntries, Offset, StripAll, MaxValue, NamesOf;
    var table := SortEntries(stripped.value);
    var unknownIndex := CompactedSize(table);
    AppendOne(table, Entry(UNKNOWN, max + 1));
    table := table + [Entry(UNKNOWN, max + 1)];
    var size := CompactedSize(table);
    data := NamesOf(table);
    indexType := TypeFor(size);
    index := BuildIndexData(table, unknownIndex);
    ok := true;
  }
}
