/** The table of instruction names as a whole (tools/tablegen.js): names are added, then indexed
    from the longest one. */
module NameData {
  import opened Bits
  import opened NameTable
  import opened NameSplit
  import opened Sorting
  import opened Wrappers

  /** A name, and the alias to format it with; an alias equal to the name is none. */
  datatype Request = Request(name: string, alias: string) {
    function Alt(): string {
      if alias == name then "" else alias
    }

    /** What formatting with aliases should give. */
    function Shown(): string {
      if Alt() == "" then name else Alt()
    }

    /** The sizes that the entries have room for. */
    predicate Fits() {
      if Alt() == "" then |name| <= MAX_PREFIX + MAX_SUFFIX else |name| <= MAX_PREFIX && |Alt()| <= BUFFER_SIZE
    }

    predicate Small() {
      IsSmall(name) && Alt() == ""
    }

    /** The length of the string offered to the shared string. */
    function Offered(): nat {
      if Small() then 0 else if Alt() == "" then |name| else |WithAlias(name, Alt())|
    }
  }

  /** `entries` holds 0 for a name that is still to be indexed. */
  datatype Data = Data(names: seq<string>, entries: seq<nat>, table: string) {
    predicate Valid() {
      |names| == |entries|
    }
  }

  const EMPTY := Data([], [], "")

  function Add(d: Data, r: Request): Data {
    if r.Small() then Data(d.names + [r.name], d.entries + [Or32(SmallIndex(r.name), Shl32(1, 31))], d.table)
    else if r.Alt() != "" then
      var p := Refer(d.table, WithAlias(r.name, r.Alt()));
      Data(d.names + [r.name], d.entries + [AliasEntry(p.0, r.name)], p.1)
    else Data(d.names + [r.name], d.entries + [0], d.table)
  }

  function AddAll(requests: seq<Request>): (d: Data)
    ensures d.Valid() && |d.names| == |requests|
  {
    if requests == [] then EMPTY else Add(AddAll(requests[..|requests| - 1]), requests[|requests| - 1])
  }

  /** The name has at most six characters, all of them letters or the digits that 5 bits have room for. */
  predicate FitsInEntry(name: string) {
    |name| <= 6 && forall i | 0 <= i < |name| :: 'a' <= name[i] <= 'z' || name[i] in "01234"
  }

  /** A name without an alias takes nothing of the shared string when it is added, and needs nothing later if
      it fits in its entry. */
  lemma {:induction false} ShortNamesAreEntries(d: Data, r: Request)
    requires r.alias == "" || r.alias == r.name
    ensures var e := Add(d, r);
            && e.table == d.table && e.names == d.names + [r.name] && |e.entries| == |d.entries| + 1
            && e.entries[..|d.entries|] == d.entries
            && if FitsInEntry(r.name) then e.entries[|d.entries|] == SMALL + SmallIndex(r.name) else e.entries[|d.entries|] == 0
  {
    assert IsSmall(r.name) <==> FitsInEntry(r.name);
    if r.Small() { SmallEntry(r.name); }
    hide Or32, Shl32, SmallIndex;
  }

  // --- The order of indexing ---

  function Unindexed(entries: seq<nat>): (ks: seq<nat>)
    ensures forall i | 0 <= i < |ks| :: ks[i] < |entries| && entries[ks[i]] == 0
    ensures forall k | 0 <= k < |entries| && entries[k] == 0 :: k in ks
  {
    if entries == [] then []
    else
      var n := |entries| - 1;
      var init := Unindexed(entries[..n]);
      assert forall k | 0 <= k < n :: entries[..n][k] == entries[k];
      if entries[n] == 0 then init + [n] else init
  }

  ghost predicate InRange(names: seq<string>, ks: seq<nat>) {
    forall i | 0 <= i < |ks| :: ks[i] < |names|
  }

  ghost predicate Sorted(names: seq<string>, ks: seq<nat>)
    requires InRange(names, ks)
  {
    forall i, j | 0 <= i < j < |ks| :: |names[ks[i]]| >= |names[ks[j]]|
  }

  function SizeOf(names: seq<string>, k: nat): nat {
    if k < |names| then |names[k]| else 0
  }

  function NoShorter(names: seq<string>): (nat, nat) -> bool {
    (a: nat, b: nat) => SizeOf(names, a) >= SizeOf(names, b)
  }

  /** A stable sort, the longest names first. */
  function LongestFirst(names: seq<string>, ks: seq<nat>): (r: seq<nat>)
    requires InRange(names, ks)
    ensures InRange(names, r) && multiset(r) == multiset(ks)
  {
    var r := Sort(NoShorter(names), ks);
    SortHasSameElements(NoShorter(names), ks);
    assert forall i | 0 <= i < |r| :: r[i] in ks;
    r
  }

  lemma {:induction false} LongestFirstSorts(names: seq<string>, ks: seq<nat>)
    requires InRange(names, ks)
    ensures Sorted(names, LongestFirst(names, ks))
  {
    SortIsInOrder(NoShorter(names), ks);
  }

  // --- Indexing ---

  function IndexEntry(d: Data, k: nat): (r: Data)
    requires d.Valid() && k < |d.names|
    ensures r.Valid() && r.names == d.names && d.table <= r.table
  {
    var r := IndexName(d.table, d.names[k]);
    d.(entries := d.entries[k := r.0], table := r.1)
  }

  function IndexEntries(d: Data, ks: seq<nat>): (r: Data)
    requires d.Valid() && InRange(d.names, ks)
    ensures r.Valid() && r.names == d.names && d.table <= r.table
  {
    if ks == [] then d else IndexEntry(IndexEntries(d, ks[..|ks| - 1]), ks[|ks| - 1])
  }

  function Index(d: Data): (r: Data)
    requires d.Valid()
    ensures r.Valid() && r.names == d.names && d.table <= r.table
  {
    IndexEntries(d, LongestFirst(d.names, Unindexed(d.entries)))
  }

  // --- Every entry decodes to its name ---

  ghost predicate Good(d: Data, requests: seq<Request>, k: nat)
    requires d.Valid() && |d.names| == |requests| && k < |requests|
  {
    && d.names[k] == requests[k].name
    && Decode(d.entries[k], false, d.table) == Some(requests[k].name)
    && (|d.table| < 0x1000 ==> Decode(d.entries[k], true, d.table) == Some(requests[k].Shown()))
  }

  /** Indexed already; the value 0 is left for the others. */
  ghost predicate Done(d: Data, requests: seq<Request>, k: nat)
    requires d.Valid() && |d.names| == |requests| && k < |requests|
  {
    Good(d, requests, k) && d.entries[k] != 0
  }

  ghost predicate Waiting(d: Data, requests: seq<Request>, k: nat)
    requires d.Valid() && |d.names| == |requests| && k < |requests|
  {
    d.names[k] == requests[k].name && d.entries[k] == 0 && requests[k].Alt() == ""
  }

  lemma {:induction false} GoodLater(d: Data, requests: seq<Request>, k: nat, e: Data, requests': seq<Request>)
    requires d.Valid() && |d.names| == |requests| && k < |requests| && Good(d, requests, k)
    requires e.Valid() && |e.names| == |requests'| && k < |requests'| && requests'[k] == requests[k]
    requires e.names[k] == d.names[k] && e.entries[k] == d.entries[k] && d.table <= e.table
    ensures Good(e, requests', k)
  {
    hide Decode;
    DecodesLater(d.entries[k], false, d.table, e.table);
    if |e.table| < 0x1000 { DecodesLater(d.entries[k], true, d.table, e.table); }
  }

  lemma {:induction false} SmallIsGood(r: Request, table: string)
    requires r.Small()
    ensures var v := Or32(SmallIndex(r.name), Shl32(1, 31));
            && v != 0 && forall aliases :: Decode(v, aliases, table) == Some(r.name)
  {
    hide Decode, SmallIndex, Or32, Shl32;
    SmallEntry(r.name);
    SmallRoundTrip(r.name, false, table);
    SmallRoundTrip(r.name, true, table);
  }

  lemma {:induction false} AliasIsGood(r: Request, table: string, p: nat)
    requires r.Alt() != "" && r.Fits() && |table| <= 0x1000 && OccursAt(table, WithAlias(r.name, r.Alt()), p)
    ensures var v := AliasEntry(p, r.name);
            && v != 0 && Decode(v, false, table) == Some(r.name) && Decode(v, true, table) == Some(r.Alt())
  {
    AliasIsNotZero(p, r.name);
    hide Decode, AliasEntry;
    AliasedNameDecodes(table, r.name, r.Alt(), p);
    AliasDecodes(table, r.name, r.Alt(), p);
  }

  lemma {:induction false} AddedIsGood(d: Data, requests: seq<Request>, r: Request)
    requires d.Valid() && |d.names| == |requests| && r.Fits() && |Add(d, r).table| <= 0x1000
    ensures var e := Add(d, r); Done(e, requests + [r], |requests|) || Waiting(e, requests + [r], |requests|)
  {
    hide Decode, AliasEntry, SmallIndex, Or32, Shl32, WithAlias, Request.Fits;
    if r.Small() {
      SmallIsGood(r, d.table);
    } else if r.Alt() != "" {
      var p := Refer(d.table, WithAlias(r.name, r.Alt()));
      AliasIsGood(r, p.1, p.0);
    }
  }

  lemma {:induction false} AddKeeps(d: Data, requests: seq<Request>, r: Request, k: nat)
    requires d.Valid() && |d.names| == |requests| && k < |requests|
    requires Done(d, requests, k) || Waiting(d, requests, k)
    ensures var e := Add(d, r); Done(e, requests + [r], k) || Waiting(e, requests + [r], k)
  {
    var e := Add(d, r);
    assert e.entries[k] == d.entries[k] && e.names[k] == d.names[k] && d.table <= e.table;
    hide Good, Add;
    if Done(d, requests, k) { GoodLater(d, requests, k, e, requests + [r]); }
  }

  ghost predicate Sound(d: Data, requests: seq<Request>) {
    && d.Valid() && |d.names| == |requests|
    && forall k | 0 <= k < |requests| :: Done(d, requests, k) || Waiting(d, requests, k)
  }

  ghost predicate AllFit(requests: seq<Request>) {
    forall k | 0 <= k < |requests| :: requests[k].Fits()
  }

  lemma {:induction false} AddIsSound(d: Data, requests: seq<Request>, r: Request)
    requires Sound(d, requests) && r.Fits() && |Add(d, r).table| <= 0x1000
    ensures Sound(Add(d, r), requests + [r])
  {
    hide Done, Waiting, Request.Fits;
    var e := Add(d, r);
    assert e.Valid() && |e.names| == |requests| + 1;
    hide Add;
    AddedIsGood(d, requests, r);
    forall k | 0 <= k < |requests| ensures Done(e, requests + [r], k) || Waiting(e, requests + [r], k) {
      AddKeeps(d, requests, r, k);
    }
  }

  lemma {:induction false} TableGrows(d: Data, r: Request)
    ensures d.table <= Add(d, r).table
  {
    hide Refer, WithAlias, AliasEntry, SmallIndex;
  }

  lemma {:induction false} NothingAdded()
    ensures Sound(AddAll([]), [])
  {
  }

  lemma {:induction false} FitInit(requests: seq<Request>)
    requires requests != [] && AllFit(requests)
    ensures AllFit(requests[..|requests| - 1]) && requests[|requests| - 1].Fits()
  {
    hide Request.Fits;
  }

  lemma {:induction false} AddLast(init: seq<Request>, r: Request)
    ensures AddAll(init + [r]) == Add(AddAll(init), r)
  {
    hide Add;
    assert (init + [r])[..|init|] == init;
  }

  lemma {:induction false} AllAdded(requests: seq<Request>)
    requires |AddAll(requests).table| <= 0x1000 && AllFit(requests)
    ensures Sound(AddAll(requests), requests)
  {
    hide Sound, Request.Fits, Add, AddAll, AllFit;
    if requests == [] {
      NothingAdded();
    } else {
      var init, r := requests[..|requests| - 1], requests[|requests| - 1];
      assert requests == init + [r];
      FitInit(requests);
      AddLast(init, r);
      TableGrows(AddAll(init), r);
      AllAdded(init);
      AddIsSound(AddAll(init), init, r);
    }
  }

  lemma {:induction false} IndexedIsGood(d: Data, requests: seq<Request>, k: nat)
    requires d.Valid() && |d.names| == |requests| && k < |requests| && d.names[k] == requests[k].name
    requires requests[k].Alt() == "" && requests[k].Fits() && |IndexEntry(d, k).table| <= 0x1000
    ensures Good(IndexEntry(d, k), requests, k)
  {
    IndexedNameDecodes(d.table, d.names[k]);
    hide IndexName, Decode;
  }

  lemma {:induction false} IndexKeeps(d: Data, requests: seq<Request>, k: nat, j: nat)
    requires d.Valid() && |d.names| == |requests| && k < |requests| && j < |requests| && j != k
    requires Good(d, requests, j)
    ensures Good(IndexEntry(d, k), requests, j)
  {
    hide IndexName, Good;
    GoodLater(d, requests, j, IndexEntry(d, k), requests);
  }

  /** Names without an alias are the ones left to index. */
  lemma {:induction false} LeftToIndex(d: Data, requests: seq<Request>, k: nat)
    requires Sound(d, requests) && k < |requests|
    ensures d.names[k] == requests[k].name
    ensures if d.entries[k] == 0 then requests[k].Alt() == "" else Good(d, requests, k)
  {
    assert Done(d, requests, k) || Waiting(d, requests, k);
    hide Decode;
  }

  lemma {:induction false} OneIndexed(d: Data, requests: seq<Request>, k: nat, last: nat)
    requires d.Valid() && |d.names| == |requests| && k < |requests| && last < |requests| && AllFit(requests)
    requires d.names[last] == requests[last].name && requests[last].Alt() == "" && |IndexEntry(d, last).table| <= 0x1000
    requires k == last || Good(d, requests, k)
    ensures Good(IndexEntry(d, last), requests, k)
  {
    hide Good, IndexEntry, Request.Fits;
    if k == last { IndexedIsGood(d, requests, last); } else { IndexKeeps(d, requests, last, k); }
  }

  /** Entries that are indexed become good, and good ones stay so. */
  lemma {:induction false} AllIndexed(d: Data, requests: seq<Request>, ks: seq<nat>, k: nat)
    requires Sound(d, requests) && InRange(d.names, ks) && AllFit(requests)
    requires |IndexEntries(d, ks).table| <= 0x1000
    requires forall i | 0 <= i < |ks| :: d.entries[ks[i]] == 0
    requires k < |requests| && (k in ks || Good(d, requests, k))
    ensures Good(IndexEntries(d, ks), requests, k)
  {
    hide Good, IndexEntry, AllFit;
    assert d.Valid() && |d.names| == |requests|;
    if ks != [] {
      var n := |ks| - 1;
      var init, last := ks[..n], ks[n];
      LeftToIndex(d, requests, last);
      hide Sound;
      assert forall i | 0 <= i < n :: init[i] == ks[i];
      if k != last {
        assert ks == init + [last];
        AllIndexed(d, requests, init, k);
      }
      OneIndexed(IndexEntries(d, init), requests, k, last);
    }
  }

  /** Whatever names are added: if they have the sizes that fit and the shared string stays within
      4096 characters, every entry decodes to its name; below 4096 characters, formatting with
      aliases gives every alias too. */
  lemma {:induction false} EveryNameDecodes(requests: seq<Request>, k: nat)
    requires |Index(AddAll(requests)).table| <= 0x1000 && AllFit(requests) && k < |requests|
    ensures Good(Index(AddAll(requests)), requests, k)
  {
    hide AddAll, AllFit, Good, IndexEntries, LongestFirst, Sound;
    AllAdded(requests);
    var d := AddAll(requests);
    var zeros := Unindexed(d.entries);
    var ks := LongestFirst(d.names, zeros);
    SameElements(zeros, ks);
    forall i | 0 <= i < |ks| ensures d.entries[ks[i]] == 0 {
      assert ks[i] in zeros;
    }
    LeftToIndex(d, requests, k);
    AllIndexed(d, requests, ks, k);
  }

  lemma {:induction false} SameElements(a: seq<nat>, b: seq<nat>)
    requires multiset(a) == multiset(b)
    ensures forall x :: x in a <==> x in b
  {
    forall x ensures x in a <==> x in b {
      assert x in multiset(a) <==> x in multiset(b);
    }
  }

  // --- The size of the shared string ---

  function Offered(requests: seq<Request>): nat {
    if requests == [] then 0 else Offered(requests[..|requests| - 1]) + requests[|requests| - 1].Offered()
  }

  function Lengths(names: seq<string>, ks: seq<nat>): nat
    requires InRange(names, ks)
  {
    if ks == [] then 0 else Lengths(names, ks[..|ks| - 1]) + |names[ks[|ks| - 1]]|
  }

  lemma {:induction false} LengthsAppend(names: seq<string>, ks: seq<nat>, k: nat)
    requires InRange(names, ks) && k < |names|
    ensures Lengths(names, ks + [k]) == Lengths(names, ks) + |names[k]|
  {
    assert (ks + [k])[..|ks|] == ks;
  }

  lemma {:induction false} InsertLengths(names: seq<string>, ks: seq<nat>, k: nat)
    requires InRange(names, ks) && k < |names|
    ensures InRange(names, Insert(NoShorter(names), ks, k))
    ensures Lengths(names, Insert(NoShorter(names), ks, k)) == Lengths(names, ks) + |names[k]|
  {
    LengthsAppend(names, ks, k);
    if ks != [] && !NoShorter(names)(ks[|ks| - 1], k) {
      var init, last := ks[..|ks| - 1], ks[|ks| - 1];
      InsertLengths(names, init, k);
      LengthsAppend(names, Insert(NoShorter(names), init, k), last);
    }
  }

  lemma {:induction false} LongestFirstLengths(names: seq<string>, ks: seq<nat>)
    requires InRange(names, ks)
    ensures Lengths(names, LongestFirst(names, ks)) == Lengths(names, ks)
  {
    if ks != [] {
      LongestFirstLengths(names, ks[..|ks| - 1]);
      InsertLengths(names, LongestFirst(names, ks[..|ks| - 1]), ks[|ks| - 1]);
    }
  }

  lemma {:induction false} IndexEntriesGrowth(d: Data, ks: seq<nat>)
    requires d.Valid() && InRange(d.names, ks)
    ensures |IndexEntries(d, ks).table| <= |d.table| + Lengths(d.names, ks)
  {
    hide IndexName;
    if ks != [] {
      IndexEntriesGrowth(d, ks[..|ks| - 1]);
      var e := IndexEntries(d, ks[..|ks| - 1]);
      IndexNameGrowth(e.table, d.names[ks[|ks| - 1]]);
    }
  }

  lemma {:induction false} LengthsAgree(names: seq<string>, more: seq<string>, ks: seq<nat>)
    requires InRange(names, ks) && names <= more
    ensures InRange(more, ks) && Lengths(more, ks) == Lengths(names, ks)
  {
    if ks != [] { LengthsAgree(names, more, ks[..|ks| - 1]); }
  }

  lemma {:induction false} Or32Bounds(a: nat, b: nat)
    requires b < TWO_32
    ensures b <= Or32(a, b) < TWO_32
  {
    Pow2Values();
    hide Pow2;
    OrBounds(a % TWO_32, b, 32);
    hide BitOr;
    assert b % TWO_32 == b;
  }

  lemma {:induction false} ShlOfAlias()
    ensures Shl32(ALIAS, 16) == ALIAS * 0x1_0000 && Shl32(0, 28) == 0
  {
    Pow2Values();
    hide Pow2;
  }

  lemma {:induction false} AliasIsNotZero(p: nat, name: string)
    ensures AliasEntry(p, name) != 0
  {
    hide Or32, Shl32;
    ShlOfAlias();
    var x := Or32(Or32(p, Shl32(|name|, 12)), ALIAS * 0x1_0000);
    Or32Bounds(Or32(p, Shl32(|name|, 12)), ALIAS * 0x1_0000);
    OrNothing(x);
  }

  lemma {:induction false} AddBound(d: Data, r: Request)
    requires d.Valid()
    ensures var e := Add(d, r);
            |e.table| + Lengths(e.names, Unindexed(e.entries)) <= |d.table| + Lengths(d.names, Unindexed(d.entries)) + r.Offered()
  {
    var n, e := |d.entries|, Add(d, r);
    var zeros := Unindexed(d.entries);
    assert e.entries[..n] == d.entries;
    LengthsAgree(d.names, e.names, zeros);
    LengthsAppend(e.names, zeros, n);
    hide Lengths, SmallIndex, Or32, Shl32;
    if r.Small() {
      SmallEntry(r.name);
    } else if r.Alt() != "" {
      AliasIsNotZero(Refer(d.table, WithAlias(r.name, r.Alt())).0, r.name);
    }
  }

  lemma {:induction false} AddedBound(requests: seq<Request>)
    ensures var d := AddAll(requests); |d.table| + Lengths(d.names, Unindexed(d.entries)) <= Offered(requests)
  {
    hide Add;
    if requests != [] {
      AddedBound(requests[..|requests| - 1]);
      AddBound(AddAll(requests[..|requests| - 1]), requests[|requests| - 1]);
    }
  }

  /** The shared string is never longer than the strings offered to it. */
  lemma {:induction false} SharedStringBound(requests: seq<Request>)
    ensures |Index(AddAll(requests)).table| <= Offered(requests)
  {
    var d := AddAll(requests);
    var zeros := Unindexed(d.entries);
    AddedBound(requests);
    LongestFirstLengths(d.names, zeros);
    hide Lengths, AddAll;
    IndexEntriesGrowth(d, LongestFirst(d.names, zeros));
  }
}
