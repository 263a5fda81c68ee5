/** How a name is cut into a prefix and a suffix that the shared string already holds, or should
    hold (tools/tablegen.js). */
module NameSplit {
  import opened Arithmetic
  import opened Bits
  import opened NameTable
  import opened Wrappers

  // --- The choice of a cut ---

  predicate PrefixKnown(table: string, name: string, i: nat)
    requires i <= |name|
  {
    Known(table, name[..i])
  }

  predicate SuffixKnown(table: string, name: string, i: nat)
    requires i <= |name|
  {
    Known(table, name[i..])
  }

  /** The cuts that are tried: prefixes from the longest down, until a suffix has 6 characters. */
  function Longest(n: nat): nat {
    Min(n, MAX_PREFIX)
  }

  function Shortest(n: nat): nat {
    if MAX_SUFFIX < n <= MAX_PREFIX + MAX_SUFFIX then n - MAX_SUFFIX else 1
  }

  /** The longest prefix such that both parts are known, or 0. */
  function LastBoth(table: string, name: string, i: nat): (r: nat)
    requires i <= |name|
    ensures r > 0 ==> Shortest(|name|) <= r <= i && PrefixKnown(table, name, r) && SuffixKnown(table, name, r)
  {
    if i < Shortest(|name|) then 0
    else if PrefixKnown(table, name, i) && SuffixKnown(table, name, i) then i
    else LastBoth(table, name, i - 1)
  }

  /** The length of the longest known prefix, or 0. */
  function LastPrefix(table: string, name: string, i: nat): (r: nat)
    requires i <= |name|
    ensures r > 0 ==> Shortest(|name|) <= r <= i && PrefixKnown(table, name, r)
  {
    if i < Shortest(|name|) then 0
    else if PrefixKnown(table, name, i) then i
    else LastPrefix(table, name, i - 1)
  }

  /** The length of the longest known suffix, or 0. */
  function LongestSuffix(table: string, name: string, i: nat): (r: nat)
    requires i <= |name|
    ensures r > 0 ==> r < |name| && Shortest(|name|) <= |name| - r <= i && SuffixKnown(table, name, |name| - r)
  {
    if i < Shortest(|name|) then 0
    else
      var r := LongestSuffix(table, name, i - 1);
      if r == 0 && SuffixKnown(table, name, i) then |name| - i else r
  }

  /** The three are the longest ones there are. */
  lemma {:induction false} CutsAreLongest(table: string, name: string, i: nat, k: nat)
    requires Shortest(|name|) <= k <= i <= |name|
    ensures PrefixKnown(table, name, k) && SuffixKnown(table, name, k) ==> LastBoth(table, name, i) >= k
    ensures PrefixKnown(table, name, k) ==> LastPrefix(table, name, i) >= k
    ensures SuffixKnown(table, name, k) ==> LongestSuffix(table, name, i) >= |name| - k
  {
    hide Known;
    if k < i { CutsAreLongest(table, name, i - 1, k); }
  }

  /** The cut if no tried one has both parts known, given the longest known prefix and suffix. */
  function Fallback(n: nat, prefix: nat, suffix: nat): nat
    requires suffix <= n
  {
    if (if n >= 8 then 2 * prefix >= n + 2 else prefix + 2 >= n) then prefix
    else if suffix > 0 then Min(n - suffix, MAX_PREFIX)
    else Min(n, MAX_PREFIX)
  }

  function Cut(table: string, name: string): (at: nat)
    ensures at <= |name| && at <= MAX_PREFIX
    ensures |name| <= MAX_PREFIX + MAX_SUFFIX ==> |name| - at <= MAX_SUFFIX
  {
    var top := Longest(|name|);
    var both := LastBoth(table, name, top);
    if both > 0 then both else Fallback(|name|, LastPrefix(table, name, top), LongestSuffix(table, name, top))
  }

  /** The entry of a name, and the shared string after it. */
  function IndexName(table: string, name: string): (r: (nat, string))
    ensures table <= r.1
  {
    var at := Cut(table, name);
    var prefix, suffix := name[..at], name[at..];
    var p := Refer(table, prefix);
    if suffix == "" then (Pack(p.0, |prefix|, 0, 0), p.1)
    else
      var s := Refer(p.1, suffix);
      (Pack(p.0, |prefix|, s.0, |suffix|), s.1)
  }

  // --- What entries decode to ---

  lemma {:induction false} SmallIsShort(v: nat, n: nat)
    ensures |DecodeSmall(v, n)| <= n
  {
    if n > 0 { SmallIsShort(v / 32, n - 1); }
  }

  lemma {:induction false} OccursLater(table: string, more: string, s: string, i: nat)
    requires OccursAt(table, s, i) && table <= more
    ensures OccursAt(more, s, i)
  {
    assert more[i..i + |s|] == table[i..i + |s|];
  }

  /** What an entry decodes to does not change when the shared string grows. */
  lemma {:induction false} DecodesLater(v: nat, aliases: bool, table: string, more: string)
    requires table <= more && Decode(v, aliases, table).Some?
    ensures Decode(v, aliases, more) == Decode(v, aliases, table)
  {
    hide DecodeSmall;
    forall base: nat, size: nat | Read(table, base, size).Some? ensures Read(more, base, size) == Read(table, base, size) {
      if size > 0 { assert more[base..base + size] == table[base..base + size]; }
    }
  }

  /** What is read back from packed fields. */
  lemma {:induction false} PackDecodes(p: nat, pSize: nat, s: nat, sSize: nat, aliases: bool, table: string)
    requires p < 0x1000 && pSize < 16 && s < 0x1000 && (aliases ==> s != ALIAS)
    ensures sSize % 16 < 8 ==>
              Decode(Pack(p, pSize, s, sSize), aliases, table) == Both(Read(table, p, pSize), Read(table, s, sSize % 8))
    ensures sSize % 16 >= 8 ==>
              var d := Decode(Pack(p, pSize, s, sSize), aliases, table); d.Some? && |d.value| <= 6
  {
    PackFields(p, pSize, s, sSize);
    hide Pack, Read, Both;
    SmallIsShort(Pack(p, pSize, s, sSize), 6);
    hide DecodeSmall;
  }

  lemma {:induction false} Remainders(x: nat)
    ensures x <= 7 ==> x % 16 < 8 && x % 8 == x
    ensures x > 7 && x % 16 < 8 ==> x % 8 < x
  {
  }

  /** An entry with a prefix and a suffix decodes to the two exactly when the suffix has at most 7
      characters; a longer one runs into the bit of the small entries. */
  lemma {:induction false} SplitDecodes(table: string, prefix: string, p: nat, suffix: string, s: nat)
    requires |table| <= 0x1000 && p < 0x1000 && |prefix| <= MAX_PREFIX && suffix != ""
    requires OccursAt(table, prefix, p) && OccursAt(table, suffix, s)
    ensures var v := Pack(p, |prefix|, s, |suffix|);
            && (Decode(v, false, table) == Some(prefix + suffix) <==> |suffix| <= 7)
            && (s != ALIAS && |suffix| <= 7 ==> Decode(v, true, table) == Some(prefix + suffix))
  {
    hide Pack, Decode;
    PackDecodes(p, |prefix|, s, |suffix|, false, table);
    if s != ALIAS { PackDecodes(p, |prefix|, s, |suffix|, true, table); }
    Remainders(|suffix|);
    var m := |suffix| % 8;
    if |suffix| > 7 && |suffix| % 16 < 8 {
      assert Both(Read(table, p, |prefix|), Read(table, s, m)).Some?;
      assert |Both(Read(table, p, |prefix|), Read(table, s, m)).value| == |prefix| + m;
    }
  }

  lemma {:induction false} WholeDecodes(table: string, prefix: string, p: nat, aliases: bool)
    requires p < 0x1000 && |prefix| <= MAX_PREFIX && OccursAt(table, prefix, p)
    ensures Decode(Pack(p, |prefix|, 0, 0), aliases, table) == Some(prefix)
  {
    PackDecodes(p, |prefix|, 0, 0, aliases, table);
    hide Pack, Decode;
    assert prefix + "" == prefix;
  }

  lemma {:induction false} ReferNothing(table: string)
    ensures Refer(table, "") == (0, table)
  {
    assert OccursAt(table, "", 0);
  }

  /** The entry of a name of any size decodes to the name exactly if at most 7 characters are behind
      the chosen cut, as they are for all names of at most 21. */
  lemma {:induction false} IndexedNameDecodes(table: string, name: string)
    requires |IndexName(table, name).1| <= 0x1000
    ensures var r := IndexName(table, name);
            && (Decode(r.0, false, r.1) == Some(name) <==> |name| - Cut(table, name) <= 7)
            && (|name| - Cut(table, name) <= 7 && |r.1| < 0x1000 ==> Decode(r.0, true, r.1) == Some(name))
            && (|name| <= MAX_PREFIX + MAX_SUFFIX ==> |name| - Cut(table, name) <= 7)
  {
    hide Decode, Pack;
    var at := Cut(table, name);
    var prefix, suffix := name[..at], name[at..];
    ReferNothing(table);
    var p := Refer(table, prefix);
    assert prefix + suffix == name;
    hide Cut;
    if suffix == "" {
      assert prefix == name;
      WholeDecodes(p.1, prefix, p.0, false);
      WholeDecodes(p.1, prefix, p.0, true);
    } else {
      var s := Refer(p.1, suffix);
      OccursLater(p.1, s.1, prefix, p.0);
      SplitDecodes(s.1, prefix, p.0, suffix, s.0);
    }
  }

  lemma {:induction false} IndexNameGrowth(table: string, name: string)
    ensures |IndexName(table, name).1| <= |table| + |name|
  {
    hide Cut;
  }

  /** A name whose cut has both parts known costs nothing. */
  lemma {:induction false} KnownPartsCostNothing(table: string, name: string, at: nat)
    requires Shortest(|name|) <= at <= Longest(|name|) && PrefixKnown(table, name, at) && SuffixKnown(table, name, at)
    ensures IndexName(table, name).1 == table
  {
    var top := Longest(|name|);
    var both := LastBoth(table, name, top);
    CutsAreLongest(table, name, top, at);
    hide LastPrefix, LongestSuffix, LastBoth;
    assert name[..both] == name[..Cut(table, name)];
  }

  // --- What known parts save ---

  /** The cuts that are tried: prefixes of at most 15 characters, with suffixes of at most 6 if the name has
      no more than 21. */
  predicate Tried(n: nat, k: nat) {
    1 <= k <= n && k <= 15 && (n <= 21 ==> n - k <= 6)
  }

  lemma {:induction false} TriedCuts(n: nat, k: nat)
    ensures Tried(n, k) <==> Shortest(n) <= k <= Longest(n)
  {
  }

  /** The prefix has more than half of the name, or of a short name all but two characters. */
  predicate LongEnough(n: nat, k: nat) {
    if n >= 8 then 2 * k >= n + 2 else k + 2 >= n
  }

  lemma {:induction false} GrowthOfPart(table: string, s: string)
    ensures |Refer(table, s).1| <= |table| + |s|
    ensures Known(table, s) ==> Refer(table, s).1 == table
  {
    hide Known;
  }

  /** What the shared string grows by at a cut. */
  lemma {:induction false} GrowthAtCut(table: string, name: string)
    ensures var at, more := Cut(table, name), |IndexName(table, name).1|;
            && (PrefixKnown(table, name, at) ==> more <= |table| + |name| - at)
            && (SuffixKnown(table, name, at) ==> more <= |table| + at)
  {
    var at := Cut(table, name);
    var prefix, suffix := name[..at], name[at..];
    hide Cut, Known;
    var p := Refer(table, prefix);
    GrowthOfPart(table, prefix);
    GrowthOfPart(p.1, suffix);
    if SuffixKnown(table, name, at) { KnownLater(table, p.1, suffix); }
  }

  lemma {:induction false} KnownLater(table: string, more: string, s: string)
    requires Known(table, s) && table <= more
    ensures Known(more, s)
  {
    var i := IndexOf(table, s, 0).value;
    OccursLater(table, more, s, i);
    FoundIfItOccurs(more, s, i, 0);
  }

  lemma {:induction false} FoundIfItOccurs(table: string, s: string, i: nat, from: nat)
    requires OccursAt(table, s, i) && from <= i
    ensures IndexOf(table, s, from).Some?
    decreases i - from
  {
    if from < i && !OccursAt(table, s, from) { FoundIfItOccurs(table, s, i, from + 1); }
  }

  /** If a long enough prefix is known at a cut that is tried, the shared string grows by no more than the
      rest of the name. */
  lemma {:induction false} KnownPrefixSaves(table: string, name: string, k: nat)
    requires Tried(|name|, k) && LongEnough(|name|, k) && PrefixKnown(table, name, k)
    ensures |IndexName(table, name).1| <= |table| + |name| - k
  {
    var n := |name|;
    var top, at := Longest(n), Cut(table, name);
    TriedCuts(n, k);
    CutsAreLongest(table, name, top, k);
    var both, longest := LastBoth(table, name, top), LastPrefix(table, name, top);
    assert at == if both > 0 then both else longest;
    hide Cut, LastPrefix, LastBoth, LongestSuffix, Known;
    if both > 0 {
      KnownPartsCostNothing(table, name, both);
    } else {
      GrowthAtCut(table, name);
    }
  }

  /** A name of two characters, neither of them a known prefix, is put into the shared string as a whole. */
  lemma {:induction false} TwoCharacters(table: string, name: string)
    requires |name| == 2 && !PrefixKnown(table, name, 1) && !PrefixKnown(table, name, 2)
    ensures |IndexName(table, name).1| == |table| + 2
  {
    hide Known;
    var top := Longest(2);
    assert LastBoth(table, name, top) == 0 && LastPrefix(table, name, top) == 0;
    assert Cut(table, name) == 0;
    assert name[0..] == name == name[..2] && name[..0] == "";
    ReferNothing(table);
  }

  /** If no long enough prefix is known, but a suffix is at a cut that is tried, the shared string grows by
      no more than what stands before the suffix, unless these are two single characters. */
  lemma {:induction false} KnownSuffixSaves(table: string, name: string, k: nat)
    requires |name| <= 21 && Tried(|name|, k) && SuffixKnown(table, name, k)
    requires forall j | 1 <= j <= |name| :: Tried(|name|, j) && LongEnough(|name|, j) ==> !PrefixKnown(table, name, j)
    ensures |IndexName(table, name).1| <= |table| + k <==> !(|name| == 2 && k == 1)
  {
    var n := |name|;
    if n == 2 && k == 1 {
      assert Tried(2, 1) && Tried(2, 2);
      TwoCharacters(table, name);
    } else if n <= 2 {
      IndexNameGrowth(table, name);
    } else {
      hide *;
      var at := Cut(table, name);
      if at <= k && SuffixKnown(table, name, at) {
        GrowthAtCut(table, name);
      } else {
        CutWithoutPrefix(table, name, k);
        IndexNameGrowth(table, name);
      }
    }
  }

  lemma {:induction false} CutWithoutPrefix(table: string, name: string, k: nat)
    requires 2 < |name| <= 21 && Tried(|name|, k) && SuffixKnown(table, name, k)
    requires forall j | 1 <= j <= |name| :: Tried(|name|, j) && LongEnough(|name|, j) ==> !PrefixKnown(table, name, j)
    ensures IndexName(table, name).1 == table || (Cut(table, name) <= k && SuffixKnown(table, name, Cut(table, name))) || k == |name|
  {
    var n := |name|;
    var top := Longest(n);
    TriedCuts(n, k);
    CutsAreLongest(table, name, top, k);
    var both, prefix, suffix := LastBoth(table, name, top), LastPrefix(table, name, top), LongestSuffix(table, name, top);
    if prefix > 0 { TriedCuts(n, prefix); }
    assert both == 0 ==> Cut(table, name) == if suffix > 0 then n - suffix else Min(n, MAX_PREFIX);
    if both > 0 { KnownPartsCostNothing(table, name, both); }
    hide IndexName, Known, LastBoth, LastPrefix, LongestSuffix;
  }

  // --- A suffix where the mark of an alias is expected ---

  /** Where the suffix of the name is found or put, if it has one. */
  function SuffixPlace(table: string, name: string): Option<nat> {
    var at := Cut(table, name);
    if at == |name| then None else Some(Refer(Refer(table, name[..at]).1, name[at..]).0)
  }

  /** By accident, the text is followed by its own size and by itself. */
  predicate OwnAlias(table: string, s: string, p: nat) {
    var at := p + |s|;
    at < |table| && table[at] as nat % 256 == |s| && OccursAt(table, s, at + 1)
  }

  lemma {:induction false} BothIs(table: string, i: nat, n: nat, prefix: string, suffix: string)
    requires |prefix| + |suffix| <= BUFFER_SIZE
    ensures Both(Read(table, i, n), Some(suffix)) == Some(prefix + suffix) <==>
            n == |prefix| && (n == 0 || OccursAt(table, prefix, i))
  {
    var d := Both(Read(table, i, n), Some(suffix));
    if d == Some(prefix + suffix) {
      assert (prefix + suffix)[..|prefix|] == prefix;
      assert d.value[..n] == Read(table, i, n).value;
    }
  }

  lemma {:induction false} ReadAt(table: string, s: string, i: nat)
    requires OccursAt(table, s, i)
    ensures Read(table, i, |s|) == Some(s)
  {
  }

  lemma {:induction false} AtAliasMark(table: string, prefix: string, p: nat, suffix: string)
    requires |prefix| <= MAX_PREFIX && 0 < |suffix| <= 7 && p < 0x1000
    requires OccursAt(table, prefix, p) && OccursAt(table, suffix, ALIAS)
    ensures Decode(Pack(p, |prefix|, ALIAS, |suffix|), true, table) == Some(prefix + suffix) <==> OwnAlias(table, prefix, p)
  {
    hide Pack, Decode, Read, Both;
    var at := p + |prefix|;
    if at < |table| {
      AliasRead(p, |prefix|, |suffix|, table);
      ReadAt(table, suffix, ALIAS);
      BothIs(table, at + 1, table[at] as nat % 256, prefix, suffix);
      if prefix == "" && table[at] as nat % 256 == 0 { assert table[at + 1..at + 1] == prefix; }
    } else {
      AliasPastEnd(p, |prefix|, |suffix|, table);
    }
  }

  lemma {:induction false} AliasPastEnd(p: nat, size: nat, suffixSize: nat, table: string)
    requires p < 0x1000 && size < 16 && suffixSize <= 7 && p + size >= |table|
    ensures Decode(Pack(p, size, ALIAS, suffixSize), true, table) == None
  {
    hide Pack, Read, Both, DecodeSmall;
    PackFields(p, size, ALIAS, suffixSize);
  }

  /** When aliases are asked for, an indexed name of at most 21 characters is read exactly if its suffix
      is not at place 4095, which is the mark of an alias, unless the text after its prefix happens to
      make up for it. The shared string has such a place only with all its 4096 characters. */
  lemma {:induction false} IndexedNameWithAliases(table: string, name: string)
    requires |IndexName(table, name).1| <= 0x1000 && |name| <= MAX_PREFIX + MAX_SUFFIX
    ensures var r := IndexName(table, name);
            var prefix := name[..Cut(table, name)];
            Decode(r.0, true, r.1) == Some(name) <==>
            SuffixPlace(table, name) != Some(ALIAS) || OwnAlias(r.1, prefix, Refer(table, prefix).0)
  {
    hide Decode, Pack, OwnAlias;
    var at := Cut(table, name);
    var prefix, suffix := name[..at], name[at..];
    ReferNothing(table);
    var p := Refer(table, prefix);
    assert prefix + suffix == name;
    hide Cut;
    if suffix == "" {
      assert prefix == name;
      WholeDecodes(p.1, prefix, p.0, true);
    } else {
      var s := Refer(p.1, suffix);
      OccursLater(p.1, s.1, prefix, p.0);
      SplitDecodes(s.1, prefix, p.0, suffix, s.0);
      if s.0 == ALIAS { AtAliasMark(s.1, prefix, p.0, suffix); }
    }
  }

  function Repeat(c: char, n: nat): string {
    seq(n, _ => c)
  }

  lemma {:induction false} KnownInRepeat(c: char, n: nat, k: nat)
    requires k <= n
    ensures IndexOf(Repeat(c, n), Repeat(c, k), 0) == Some(0)
  {
    assert Repeat(c, n)[0..k] == Repeat(c, k);
  }

  lemma {:induction false} UnknownInRepeat(c: char, n: nat, s: string)
    requires s != "" && s[|s| - 1] != c
    ensures !Known(Repeat(c, n), s)
  {
    var table := Repeat(c, n);
    forall i | 0 <= i <= |table| ensures !OccursAt(table, s, i) {
      if OccursAt(table, s, i) { LastOfOccurrence(table, s, i); }
    }
  }

  lemma {:induction false} LastOfOccurrence(table: string, s: string, i: nat)
    requires OccursAt(table, s, i) && s != ""
    ensures table[i + |s| - 1] == s[|s| - 1]
  {
    assert table[i..i + |s|][|s| - 1] == table[i + |s| - 1];
  }

  /** It does happen: with 4095 letters before it, the last character of this name takes place 4095,
      and asking for aliases loses the name. */
  lemma {:induction false} AliasMarkWitness()
    ensures var table, name := Repeat('a', 4095), Repeat('a', 6) + "B";
            var r := IndexName(table, name);
            && |r.1| == 0x1000 && SuffixPlace(table, name) == Some(ALIAS)
            && Decode(r.0, false, r.1) == Some(name) && Decode(r.0, true, r.1) != Some(name)
  {
    hide Repeat, IndexName, Decode, SuffixPlace, Cut, Known;
    WitnessParts();
    AliasMarkLoss(Repeat('a', 4095), Repeat('a', 6) + "B");
  }

  lemma {:induction false} AliasMarkLoss(table: string, name: string)
    requires |table| == 4095 && table[6] == 'a' && |name| == 7 && name[6..] == "B" && |name[..6]| == 6
    requires IndexOf(table, name[..6], 0) == Some(0) && PrefixKnown(table, name, 6) && !PrefixKnown(table, name, 7)
    requires !Known(table, "B") && forall k | 0 <= k <= 6 :: !SuffixKnown(table, name, k)
    ensures var r := IndexName(table, name);
            && |r.1| == 0x1000 && SuffixPlace(table, name) == Some(ALIAS)
            && Decode(r.0, false, r.1) == Some(name) && Decode(r.0, true, r.1) != Some(name)
  {
    hide Decode, Pack;
    WitnessCut(table, name);
    hide Cut, PrefixKnown, SuffixKnown, Known;
    ReferNew(table, "B");
    assert Refer(table, name[..6]) == (0, table);
    IndexedNameDecodes(table, name);
    IndexedNameWithAliases(table, name);
    assert (table + "B")[6] == 'a';
  }

  lemma {:induction false} ReferNew(table: string, s: string)
    requires !Known(table, s)
    ensures Refer(table, s) == (|table|, table + s)
  {
  }

  lemma {:induction false} WitnessParts()
    ensures var table, name := Repeat('a', 4095), Repeat('a', 6) + "B";
            && |table| == 4095 && table[6] == 'a' && |name| == 7 && name[6..] == "B" && |name[..6]| == 6
            && IndexOf(table, name[..6], 0) == Some(0) && PrefixKnown(table, name, 6) && !PrefixKnown(table, name, 7)
            && !Known(table, "B") && forall k | 0 <= k <= 6 :: !SuffixKnown(table, name, k)
  {
    var table, name := Repeat('a', 4095), Repeat('a', 6) + "B";
    assert name[..6] == Repeat('a', 6) && name[..7] == name && name[6..] == "B";
    KnownInRepeat('a', 4095, 6);
    hide IndexOf;
    UnknownInRepeat('a', 4095, name);
    forall k | 0 <= k <= 6 ensures !SuffixKnown(table, name, k) {
      UnknownInRepeat('a', 4095, name[k..]);
    }
  }

  lemma {:induction false} WitnessCut(table: string, name: string)
    requires |name| == 7 && PrefixKnown(table, name, 6) && !PrefixKnown(table, name, 7)
    requires forall k | 0 <= k <= 6 :: !SuffixKnown(table, name, k)
    ensures Cut(table, name) == 6
  {
    hide Known;
    assert LastBoth(table, name, 7) == LastBoth(table, name, 6) == LastBoth(table, name, 5) == LastBoth(table, name, 4);
    assert LastBoth(table, name, 4) == LastBoth(table, name, 3) == LastBoth(table, name, 2) == LastBoth(table, name, 1) == 0;
    assert LastPrefix(table, name, 7) == LastPrefix(table, name, 6) == 6;
  }

  /** Alone in the shared string, a name can be read back exactly up to 22 characters. */
  lemma {:induction false} AloneUpTo22(name: string)
    requires |name| > MAX_PREFIX
    ensures var r := IndexName("", name);
            |r.1| <= 0x1000 ==> (Decode(r.0, false, r.1) == Some(name) <==> |name| <= 22)
  {
    var top := Longest(|name|);
    forall k | 0 < k <= top ensures !PrefixKnown("", name, k) && !SuffixKnown("", name, k) {
      assert |name[..k]| > 0 && |name[k..]| > 0;
    }
    assert LastBoth("", name, top) == 0 && LastPrefix("", name, top) == 0 && LongestSuffix("", name, top) == 0;
    hide LastPrefix, LongestSuffix, LastBoth;
    assert Cut("", name) == MAX_PREFIX;
    hide Cut, Pack, Decode;
    var prefix, suffix := name[..MAX_PREFIX], name[MAX_PREFIX..];
    assert prefix + suffix == name;
    var p := Refer("", prefix);
    var s := Refer(p.1, suffix);
    OccursLater(p.1, s.1, prefix, p.0);
    if |s.1| <= 0x1000 { SplitDecodes(s.1, prefix, p.0, suffix, s.0); }
  }

  // --- Names with an alias ---

  /** The text stored for a name that has an alias: the name, the size of the alias, the alias. */
  function WithAlias(name: string, alt: string): string {
    name + [(|alt| % 256) as char] + alt
  }

  function AliasEntry(p: nat, name: string): nat {
    Pack(p, |name|, ALIAS, 0)
  }

  /** The bits of a size from 16 on are lost in the mark of an alias. */
  lemma {:induction false} PackOverlap(p: nat, n: nat)
    requires p < 0x1000 && 16 <= n < 32
    ensures Pack(p, n, ALIAS, 0) == Pack(p, n - 16, ALIAS, 0)
  {
    hide Shl32, BitOr;
    var low := p + 0x1000 * (n - 16);
    PackValue(p, n - 16, ALIAS, 0);
    ShlValues(n - 16, ALIAS, 0);
    ShlOfSize(n);
    OrAt12(p, n);
    OrHigh16(low);
    OrNothing(low + ALIAS * 0x1_0000);
    hide Pack;
    assert Or32(p, n * 0x1000) == low + 0x1_0000;
    assert Or32(low + 0x1_0000, ALIAS * 0x1_0000) == low + ALIAS * 0x1_0000;
    assert Pack(p, n, ALIAS, 0) == Or32(low + ALIAS * 0x1_0000, 0) by { PackSteps(p, n, ALIAS, 0); }
  }

  lemma {:induction false} OrNothing(x: nat)
    requires x < TWO_32
    ensures Or32(x, 0) == x
  {
  }

  lemma {:induction false} PackSteps(prefix: nat, prefixSize: nat, suffix: nat, suffixSize: nat)
    ensures Pack(prefix, prefixSize, suffix, suffixSize)
         == Or32(Or32(Or32(prefix, Shl32(prefixSize, 12)), Shl32(suffix, 16)), Shl32(suffixSize, 28))
  {
  }

  lemma {:induction false} ShlOfSize(n: nat)
    requires n < 32
    ensures Shl32(n, 12) == n * 0x1000
  {
    Pow2Values();
    hide Pow2;
  }

  lemma {:induction false} OrHigh16(low: nat)
    requires low < 0x1_0000
    ensures BitOr(low + 0x1_0000, ALIAS * 0x1_0000) == low + ALIAS * 0x1_0000
  {
    assert BitOr(1, ALIAS) == ALIAS;
    Pow2Values();
    hide Pow2, BitOr;
    OrHigh(low, 1, ALIAS, 16);
  }

  lemma {:induction false} AliasPlace(table: string, name: string, alt: string, p: nat)
    requires OccursAt(table, WithAlias(name, alt), p)
    ensures p < |table|
  {
  }

  lemma {:induction false} AliasEntryIs(p: nat, name: string)
    ensures AliasEntry(p, name) == Pack(p, |name|, ALIAS, 0)
  {
  }

  /** A name with an alias decodes to the name exactly when it has at most 15 characters. */
  lemma {:induction false} AliasedNameDecodes(table: string, name: string, alt: string, p: nat)
    requires |table| <= 0x1000 && OccursAt(table, WithAlias(name, alt), p)
    ensures Decode(AliasEntry(p, name), false, table) == Some(name) <==> |name| <= MAX_PREFIX
  {
    hide Pack, Decode, WithAlias, Read, Both, OccursAt, AliasEntry;
    AliasParts(table, name, alt, p);
    AliasPlace(table, name, alt, p);
    ReadNothing(table, ALIAS);
    AliasEntryIs(p, name);
    if |name| <= MAX_PREFIX {
      PackDecodes(p, |name|, ALIAS, 0, false, table);
      ReadIsThere(table, name, p);
    } else if |name| < 23 {
      PackOverlap(p, |name|);
      PackDecodes(p, |name| - 16, ALIAS, 0, false, table);
      ReadLength(table, p, |name| - 16);
    } else {
      DecodeIsShort(AliasEntry(p, name), table);
    }
  }

  /** Such a name is formatted as its alias exactly when that fits the reader's buffer of 32 bytes. */
  lemma {:induction false} AliasDecodes(table: string, name: string, alt: string, p: nat)
    requires |table| <= 0x1000 && OccursAt(table, WithAlias(name, alt), p) && |name| <= MAX_PREFIX
    ensures Decode(AliasEntry(p, name), true, table) == Some(alt) <==> |alt| <= BUFFER_SIZE
  {
    AliasParts(table, name, alt, p);
    assert p < |table|;
    AliasRead(p, |name|, 0, table);
    ReadNothing(table, ALIAS);
    hide Pack, Decode, WithAlias, Read, Both, OccursAt;
    var at, size := p + |name| + 1, |alt| % 256;
    Byte(|alt|);
    assert table[at - 1] as nat % 256 == size;
    ReadIsThere(table, alt, at);
    ReadLength(table, at, size);
  }

  lemma {:induction false} Byte(x: nat)
    ensures x % 256 % 256 == x % 256 && (x < 256 ==> x % 256 == x) && (x >= 256 ==> x % 256 < x)
  {
  }

  lemma {:induction false} ReadLength(table: string, i: nat, n: nat)
    ensures var d := Both(Read(table, i, n), Some("")); d.Some? ==> |d.value| == n
  {
  }

  lemma {:induction false} ReadIsThere(table: string, s: string, i: nat)
    requires OccursAt(table, s, i)
    ensures Both(Read(table, i, |s|), Some("")) == if |s| <= BUFFER_SIZE then Some(s) else None
  {
    assert s + "" == s;
  }

  lemma {:induction false} AliasRead(p: nat, size: nat, suffixSize: nat, table: string)
    requires p < 0x1000 && size < 16 && suffixSize <= 7 && p + size < |table|
    ensures Decode(Pack(p, size, ALIAS, suffixSize), true, table)
         == Both(Read(table, p + size + 1, table[p + size] as nat % 256), Read(table, ALIAS, suffixSize))
  {
    hide Pack, Decode, Read, Both;
    PackFields(p, size, ALIAS, suffixSize);
    AliasOfFields(Pack(p, size, ALIAS, suffixSize), p, size, suffixSize, table);
  }

  lemma {:induction false} AliasOfFields(v: nat, p: nat, size: nat, suffixSize: nat, table: string)
    requires v < SMALL && v % 0x1000 == p && v / 0x1000 % 16 == size && v / 0x1_0000 % 0x1000 == ALIAS
    requires v / 0x1000_0000 % 8 == suffixSize && p + size < |table|
    ensures Decode(v, true, table)
         == Both(Read(table, p + size + 1, table[p + size] as nat % 256), Read(table, ALIAS, suffixSize))
  {
    hide Read, Both, DecodeSmall;
  }

  lemma {:induction false} ReadNothing(table: string, i: nat)
    ensures Read(table, i, 0) == Some("")
  {
  }

  lemma {:induction false} DecodeIsShort(v: nat, table: string)
    ensures var d := Decode(v, false, table); d.Some? ==> |d.value| <= 22
  {
    SmallIsShort(v, 6);
    hide DecodeSmall;
  }

  lemma {:induction false} AliasParts(table: string, name: string, alt: string, p: nat)
    requires OccursAt(table, WithAlias(name, alt), p)
    ensures OccursAt(table, name, p) && OccursAt(table, alt, p + |name| + 1)
    ensures table[p + |name|] as nat == |alt| % 256
  {
    var w := WithAlias(name, alt);
    assert table[p..p + |w|][|name|] == table[p + |name|] == w[|name|];
    assert w[..|name|] == name && w[|name| + 1..] == alt;
    assert table[p..p + |name|] == w[..|name|];
    assert table[p + |name| + 1..p + |name| + 1 + |alt|] == w[|name| + 1..];
  }
}
