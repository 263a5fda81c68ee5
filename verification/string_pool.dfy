/** A pool of strings where a string that ends another one is not stored again
    (tools/generator-commons.js). */
module StringPool {
  import opened Sorting
  import opened Strings
  import opened Wrappers

  predicate Suffix(s: string, k: string) {
    |s| <= |k| && k[|k| - |s|..] == s
  }

  lemma {:induction false} SuffixOfSuffix(a: string, b: string, c: string)
    requires Suffix(a, b) && Suffix(b, c)
    ensures Suffix(a, c)
  {
    assert c[|c| - |b|..][|b| - |a|..] == c[|c| - |a|..];
  }

  // --- The buffer ---

  function Buffer(stored: seq<string>): string {
    if stored == [] then "" else Buffer(stored[..|stored| - 1]) + stored[|stored| - 1] + "\0"
  }

  function Offset(stored: seq<string>): nat {
    if stored == [] then 0 else Offset(stored[..|stored| - 1]) + |stored[|stored| - 1]| + 1
  }

  /** The string that starts at `i` and ends before the next zero. */
  function CString(buffer: string, i: nat): string
    requires i <= |buffer|
    decreases |buffer| - i
  {
    if i == |buffer| || buffer[i] == '\0' then "" else [buffer[i]] + CString(buffer, i + 1)
  }

  /** The text and a zero after it. */
  predicate TextAt(buffer: string, s: string, i: nat) {
    i + |s| < |buffer| && buffer[i..i + |s|] == s && buffer[i + |s|] == '\0'
  }

  lemma {:induction false} BufferSize(stored: seq<string>)
    ensures |Buffer(stored)| == Offset(stored)
  {
    if stored != [] { BufferSize(stored[..|stored| - 1]); }
  }

  lemma {:induction false} StoredText(stored: seq<string>, j: nat)
    requires j < |stored|
    ensures Offset(stored[..j]) + |stored[j]| < |Buffer(stored)| && TextAt(Buffer(stored), stored[j], Offset(stored[..j]))
  {
    var n := |stored| - 1;
    BufferSize(stored[..n]);
    var init, all := Buffer(stored[..n]), Buffer(stored);
    if j < n {
      StoredText(stored[..n], j);
      assert stored[..n][..j] == stored[..j];
      var i := Offset(stored[..j]);
      assert all[i..i + |stored[j]|] == init[i..i + |stored[j]|];
    }
  }

  /** A suffix is found at the end of the text. */
  lemma {:induction false} SuffixText(buffer: string, k: string, s: string, i: nat)
    requires TextAt(buffer, k, i) && Suffix(s, k)
    ensures TextAt(buffer, s, i + |k| - |s|)
  {
    assert buffer[i + |k| - |s|..i + |k|] == buffer[i..i + |k|][|k| - |s|..];
  }

  /** Reading the buffer gives the text exactly when the text has no zero in it. */
  lemma {:induction false} ReadText(buffer: string, s: string, i: nat)
    requires TextAt(buffer, s, i)
    ensures CString(buffer, i) == s <==> '\0' !in s
  {
    NoZeroRead(buffer, i);
    if '\0' !in s { ReadWhole(buffer, s, i); }
  }

  lemma {:induction false} NoZeroRead(buffer: string, i: nat)
    requires i <= |buffer|
    ensures '\0' !in CString(buffer, i)
    decreases |buffer| - i
  {
    if i < |buffer| && buffer[i] != '\0' { NoZeroRead(buffer, i + 1); }
  }

  lemma {:induction false} ReadWhole(buffer: string, s: string, i: nat)
    requires TextAt(buffer, s, i) && '\0' !in s
    ensures CString(buffer, i) == s
  {
    if s != "" {
      assert buffer[i] == buffer[i..i + |s|][0] == s[0];
      assert buffer[i + 1..i + 1 + |s[1..]|] == buffer[i..i + |s|][1..];
      ReadWhole(buffer, s[1..], i + 1);
      assert s == [s[0]] + s[1..];
    }
  }

  // --- Which keys are stored ---

  ghost predicate LeadsToKeys(partial: map<string, string>, keys: seq<string>) {
    forall s | s in partial && s != "" :: partial[s] in keys && Suffix(s, partial[s])
  }

  ghost predicate LeadsToLongest(partial: map<string, string>, keys: seq<string>) {
    forall s, k | s != "" && k in keys && Suffix(s, k) :: s in partial && |partial[s]| >= |k|
  }

  ghost predicate LeadsEmptyToItself(partial: map<string, string>, keys: seq<string>) {
    ("" in keys ==> "" in partial) && ("" in partial ==> partial[""] == "")
  }

  /** Every suffix of a key leads to a longest key that it ends; the empty key leads to itself. */
  ghost predicate Covers(partial: map<string, string>, keys: seq<string>) {
    LeadsToKeys(partial, keys) && LeadsToLongest(partial, keys) && LeadsEmptyToItself(partial, keys)
  }

  /** A key is stored exactly when it is empty or does not end another key. */
  lemma {:induction false} StoredKeys(partial: map<string, string>, keys: seq<string>, k: string)
    requires Covers(partial, keys) && k in keys
    ensures k in partial && (partial[k] == k <==> k == "" || forall l | l in keys && Suffix(k, l) :: l == k)
  {
    if k != "" {
      assert Suffix(k, k);
      if partial[k] == k {
        forall l | l in keys && Suffix(k, l) ensures l == k {
          assert |partial[k]| >= |l|;
        }
      }
    }
  }

  /** What a key leads to is stored. */
  lemma {:induction false} LeadsToStored(partial: map<string, string>, keys: seq<string>, k: string)
    requires Covers(partial, keys) && k in keys
    ensures k in partial && Suffix(k, partial[k]) && partial[k] in keys && partial[k] in partial
    ensures partial[partial[k]] == partial[k]
  {
    if k != "" {
      assert Suffix(k, k);
      var l := partial[k];
      assert Suffix(l, l);
      SuffixOfSuffix(k, l, partial[l]);
    }
  }

  // --- The order of the stored keys ---

  predicate UpTo(a: string, b: string) {
    Compare(a, b) <= 0
  }

  lemma {:induction false} UpToIsOrder()
    ensures IsOrder(UpTo)
  {
    forall a, b ensures UpTo(a, b) || UpTo(b, a) { CompareIsAntisymmetric(a, b); }
    forall a, b, c | UpTo(a, b) && UpTo(b, c) ensures UpTo(a, c) { CompareIsTransitive(a, b, c); }
  }

  // --- What has to be stored ---

  ghost predicate IsNeeded(keys: seq<string>, k: string) {
    k == "" || forall l | l in keys && Suffix(k, l) :: l == k
  }

  ghost function Needed(keys: seq<string>, n: nat): (r: seq<string>)
    requires n <= |keys|
  {
    if n == 0 then []
    else if IsNeeded(keys, keys[n - 1]) then Needed(keys, n - 1) + [keys[n - 1]]
    else Needed(keys, n - 1)
  }

  lemma {:induction false} NeededMembers(keys: seq<string>, n: nat, k: string)
    requires n <= |keys|
    ensures k in Needed(keys, n) <==> k in keys[..n] && IsNeeded(keys, k)
  {
    if n > 0 {
      NeededMembers(keys, n - 1, k);
      assert keys[..n] == keys[..n - 1] + [keys[n - 1]];
    }
  }

  /** No stored key ends another one, except the empty key. */
  lemma {:induction false} NothingIsStoredTwice(keys: seq<string>, a: string, b: string)
    requires a in Needed(keys, |keys|) && b in Needed(keys, |keys|) && Suffix(a, b)
    ensures a == b || a == ""
  {
    NeededMembers(keys, |keys|, a);
    NeededMembers(keys, |keys|, b);
    assert keys[..|keys|] == keys;
  }

  /** The empty key is stored although every key ends with it. */
  lemma {:induction false} TheEmptyKeyIsStored(keys: seq<string>, b: string)
    requires "" in keys
    ensures "" in Needed(keys, |keys|) && Suffix("", b)
  {
    NeededMembers(keys, |keys|, "");
    assert keys[..|keys|] == keys;
  }

  function Longest(keys: seq<string>): (n: nat)
    ensures forall k | k in keys :: |k| <= n
  {
    if keys == [] then 0
    else
      assert keys == keys[..|keys| - 1] + [keys[|keys| - 1]];
      var n := Longest(keys[..|keys| - 1]);
      if |keys[|keys| - 1]| > n then |keys[|keys| - 1]| else n
  }

  /** Every key ends a stored one. */
  lemma {:induction false} EveryKeyEndsAStoredOne(keys: seq<string>, k: string) returns (l: string)
    requires k in keys
    ensures l in Needed(keys, |keys|) && Suffix(k, l)
    decreases Longest(keys) - |k|
  {
    assert keys[..|keys|] == keys;
    NeededMembers(keys, |keys|, k);
    if IsNeeded(keys, k) {
      l := k;
    } else {
      var m :| m in keys && Suffix(k, m) && m != k;
      assert |m| == |k| ==> m == k;
      l := EveryKeyEndsAStoredOne(keys, m);
      SuffixOfSuffix(k, m, l);
    }
  }

  // --- The program ---

  class IndexedString {
    /** The keys in the order in which they are enumerated. */
    var keys: seq<string>
    var offsets: map<string, int>
    var stored: seq<string>
    var size: int

    ghost predicate KeysAreDistinct()
      reads this
    {
      && (forall i, j | 0 <= i < j < |keys| :: keys[i] != keys[j])
      && (forall k :: k in offsets <==> k in keys)
    }

    /** The text of the key stands at its place. */
    ghost predicate Placed(k: string)
      requires k in offsets
      reads this
    {
      size != -1 && 0 <= offsets[k] && TextAt(Buffer(stored), k, offsets[k])
    }

    /** A key has its place, or none because it was added since the strings were stored. */
    ghost predicate Valid()
      reads this
    {
      KeysAreDistinct() && forall k | k in offsets :: offsets[k] == -1 || Placed(k)
    }

    /** Every key has its place. */
    ghost predicate Indexed()
      reads this
    {
      size != -1 && forall k | k in offsets :: Placed(k)
    }

    constructor ()
      ensures Valid() && keys == [] && stored == [] && size == -1
    {
      keys, offsets, stored, size := [], map[], [], -1;
    }

    method Add(s: string)
      requires Valid()
      modifies `keys, `offsets
      ensures Valid() && keys == (if s in old(keys) then old(keys) else old(keys) + [s])
      ensures offsets == old(offsets)[s := -1]
    {
      hide TextAt, Buffer;
      if s !in offsets { keys := keys + [s]; }
      offsets := offsets[s := -1];
    }

    /** Stores the needed keys in order and gives every key the place of its text. */
    method Index()
      requires Valid()
      modifies `offsets, `stored, `size
      ensures Valid() && Indexed() && InOrder(UpTo, stored)
      ensures multiset(stored) == multiset(old(stored)) + multiset(Needed(keys, |keys|))
      ensures size == |Buffer(stored)|
    {
      hide Covers, TextAt, InOrder, Buffer, Needed, Sort, AllLead, AllPlaced;
      var partial := PartialMap(keys);
      var needed := Collect(keys, partial);
      StoredIsSorted(partial, keys, stored, needed);
      stored := Sort(UpTo, stored + needed);
      var offMap;
      offMap, size := Places(stored);
      AssignOffsets(partial, offMap);
    }

    method AssignOffsets(partial: map<string, string>, offMap: map<string, nat>)
      requires KeysAreDistinct() && AllLead(partial, keys, stored) && AllPlaced(offMap, stored) && size != -1
      modifies `offsets
      ensures Valid() && Indexed()
    {
      ghost var buffer := Buffer(stored);
      var i := 0;
      hide TextAt, Suffix, Buffer;
      while i < |keys|
        invariant i <= |keys| && KeysAreDistinct()
        invariant forall j | 0 <= j < i :: 0 <= offsets[keys[j]] && TextAt(buffer, keys[j], offsets[keys[j]])
      {
        var kp := keys[i];
        var k := partial[kp];
        SuffixText(buffer, k, kp, offMap[k]);
        SuffixIsShorter(kp, k);
        offsets := offsets[kp := offMap[k] + |k| - |kp|];
        i := i + 1;
      }
    }

    /** The place of a key; the program stops if there is no index or no such key. The text at the
        place is the key, unless it was added after the strings were stored; reading it up to the
        zero gives the key exactly when it has no zero in it. */
    method GetIndex(k: string) returns (at: Option<int>)
      requires Valid()
      ensures at.None? <==> size == -1 || k !in keys
      ensures at.Some? && offsets[k] == -1 ==> at.value == -1
      ensures at.Some? && (Indexed() || offsets[k] != -1) ==>
                && 0 <= at.value && TextAt(Buffer(stored), k, at.value)
                && (CString(Buffer(stored), at.value) == k <==> '\0' !in k)
    {
      if k in offsets && Placed(k) { ReadText(Buffer(stored), k, offsets[k]); }
      if size == -1 { return None; }
      if k !in offsets { return None; }
      return Some(offsets[k]);
    }
  }

  lemma {:induction false} SuffixIsShorter(s: string, k: string)
    requires Suffix(s, k)
    ensures |s| <= |k|
  {
  }

  /** Every key leads to a stored one that it ends. */
  ghost predicate AllLead(partial: map<string, string>, keys: seq<string>, stored: seq<string>) {
    forall k | k in keys :: k in partial && Suffix(k, partial[k]) && partial[k] in stored
  }

  ghost predicate AllPlaced(offMap: map<string, nat>, stored: seq<string>) {
    forall k | k in stored :: k in offMap && TextAt(Buffer(stored), k, offMap[k])
  }

  lemma {:induction false} StoredIsSorted(partial: map<string, string>, keys: seq<string>, before: seq<string>, needed: seq<string>)
    requires Covers(partial, keys) && needed == Needed(keys, |keys|)
    ensures var stored := Sort(UpTo, before + needed);
            && multiset(stored) == multiset(before) + multiset(needed) && InOrder(UpTo, stored) && AllLead(partial, keys, stored)
  {
    var all := before + needed;
    UpToIsOrder();
    SortIsInOrder(UpTo, all);
    hide Covers, Suffix, IsNeeded, Sort, InOrder;
    forall k | k in keys ensures k in partial && Suffix(k, partial[k]) && partial[k] in Sort(UpTo, all) {
      LeadsToStored(partial, keys, k);
      StoredIsNeeded(partial, keys, partial[k]);
      assert partial[k] in multiset(all);
    }
  }

  lemma {:induction false} StoredIsNeeded(partial: map<string, string>, keys: seq<string>, k: string)
    requires Covers(partial, keys) && k in keys
    ensures k in partial && (partial[k] == k <==> k in Needed(keys, |keys|))
  {
    StoredKeys(partial, keys, k);
    NeededMembers(keys, |keys|, k);
    assert keys[..|keys|] == keys;
  }

  /** Maps every suffix of every key to a longest key that it ends. */
  method PartialMap(keys: seq<string>) returns (partial: map<string, string>)
    ensures Covers(partial, keys)
  {
    partial := map[];
    var i := 0;
    while i < |keys|
      invariant i <= |keys| && Covers(partial, keys[..i])
    {
      assert keys[..i + 1] == keys[..i] + [keys[i]];
      if keys[i] == "" {
        CoversEmpty(partial, keys[..i]);
        partial := partial["" := ""];
      } else {
        hide Covers;
        partial := AddSuffixes(partial, keys[..i], keys[i]);
      }
      i := i + 1;
    }
    assert keys[..i] == keys;
  }

  lemma {:induction false} CoversEmpty(partial: map<string, string>, done: seq<string>)
    requires Covers(partial, done)
    ensures Covers(partial["" := ""], done + [""])
  {
  }

  /** The suffixes of the key that begin before `i` lead to a key that is as long. */
  ghost predicate LongFor(partial: map<string, string>, k: string, i: nat)
    requires i <= |k|
  {
    forall j | 0 <= j < i :: k[j..] in partial && |partial[k[j..]]| >= |k|
  }

  lemma {:induction false} SetSuffix(partial: map<string, string>, done: seq<string>, k: string, i: nat)
    requires i < |k| && LeadsToKeys(partial, done + [k]) && LeadsToLongest(partial, done) && LongFor(partial, k, i)
    ensures var kp := k[i..];
            var next := if kp !in partial || |partial[kp]| < |k| then partial[kp := k] else partial;
            && LeadsToKeys(next, done + [k]) && LeadsToLongest(next, done) && LongFor(next, k, i + 1)
            && ("" in next <==> "" in partial) && ("" in next ==> next[""] == partial[""])
  {
  }

  lemma {:induction false} AllSuffixesSet(partial: map<string, string>, done: seq<string>, k: string)
    requires LeadsToLongest(partial, done) && LongFor(partial, k, |k|)
    ensures LeadsToLongest(partial, done + [k])
  {
    forall s, l | s != "" && l in done + [k] && Suffix(s, l) ensures s in partial && |partial[s]| >= |l| {
      if l == k { assert s == k[|k| - |s|..]; }
    }
  }

  lemma {:induction false} MoreKeys(partial: map<string, string>, done: seq<string>, k: string)
    requires LeadsToKeys(partial, done)
    ensures LeadsToKeys(partial, done + [k])
  {
  }

  method AddSuffixes(partial0: map<string, string>, ghost done: seq<string>, k: string) returns (partial: map<string, string>)
    requires Covers(partial0, done) && k != ""
    ensures Covers(partial, done + [k])
  {
    partial := partial0;
    MoreKeys(partial, done, k);
    var i := 0;
    hide LeadsToKeys, LeadsToLongest;
    while i < |k|
      invariant i <= |k| && LeadsToKeys(partial, done + [k]) && LeadsToLongest(partial, done) && LongFor(partial, k, i)
      invariant LeadsEmptyToItself(partial, done)
    {
      SetSuffix(partial, done, k, i);
      hide LongFor;
      var kp := k[i..];
      if kp !in partial || |partial[kp]| < |k| {
        partial := partial[kp := k];
      }
      i := i + 1;
    }
    AllSuffixesSet(partial, done, k);
  }

  /** The keys that lead to themselves. */
  method Collect(keys: seq<string>, partial: map<string, string>) returns (needed: seq<string>)
    requires Covers(partial, keys)
    ensures needed == Needed(keys, |keys|)
  {
    needed := [];
    var i := 0;
    hide Covers, IsNeeded;
    while i < |keys|
      invariant i <= |keys| && needed == Needed(keys, i)
    {
      NextNeeded(partial, keys, i);
      if partial[keys[i]] == keys[i] { needed := needed + [keys[i]]; }
      i := i + 1;
    }
  }

  lemma {:induction false} NextNeeded(partial: map<string, string>, keys: seq<string>, i: nat)
    requires Covers(partial, keys) && i < |keys|
    ensures keys[i] in partial && (partial[keys[i]] == keys[i] <==> IsNeeded(keys, keys[i]))
  {
    StoredKeys(partial, keys, keys[i]);
  }

  /** Where the stored keys begin, and the size of all. */
  method Places(stored: seq<string>) returns (offMap: map<string, nat>, size: nat)
    ensures size == |Buffer(stored)| && AllPlaced(offMap, stored)
  {
    offMap := map[];
    size := 0;
    var i := 0;
    BufferSize(stored);
    while i < |stored|
      invariant i <= |stored| && size == Offset(stored[..i])
      invariant forall j | 0 <= j < i :: stored[j] in offMap && TextAt(Buffer(stored), stored[j], offMap[stored[j]])
    {
      StoredText(stored, i);
      assert stored[..i + 1][..i] == stored[..i];
      offMap := offMap[stored[i] := size];
      size := size + |stored[i]| + 1;
      i := i + 1;
    }
    assert stored[..i] == stored;
  }
}
