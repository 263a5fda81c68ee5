/** The program that fills the table of names (tools/tablegen.js). */
module NameProgram {
  import opened Bits
  import opened NameTable
  import opened NameSplit
  import opened NameData
  import opened Wrappers

  lemma {:induction false} SmallIndexOfLast(s: string, c: char)
    requires (forall k | 0 <= k < |s| :: IsSmallChar(s[k])) && IsSmallChar(c)
    ensures forall k | 0 <= k < |s + [c]| :: IsSmallChar((s + [c])[k])
    ensures SmallIndex(s + [c]) == SmallIndex(s) + CharTo5Bit(c) * Pow2(5 * |s|)
  {
    if s == "" {
      assert SmallIndex([c]) == CharTo5Bit(c) + 32 * SmallIndex([c][1..]);
    } else {
      assert (s + [c])[1..] == s[1..] + [c];
      SmallIndexOfLast(s[1..], c);
      Pow2Of5(|s|);
      hide Pow2;
      Times32(CharTo5Bit(c), Pow2(5 * (|s| - 1)));
    }
  }

  lemma {:induction false} ShlFits(x: nat, n: nat)
    requires x * Pow2(n) < TWO_32
    ensures Shl32(x, n) == x * Pow2(n)
  {
    hide Pow2;
  }

  lemma {:induction false} ShlOfCode(code: nat, n: nat)
    requires code < 32 && n <= 25
    ensures Shl32(code, n) == code * Pow2(n) && code * Pow2(n) < 0x4000_0000
  {
    Pow2Of25();
    Pow2Grows(n, 25);
    hide Pow2, Shl32;
    ProductBound(code, 31, Pow2(n), 0x200_0000);
    ShlFits(code, n);
  }

  lemma {:induction false} Pow2Of25()
    ensures Pow2(25) == 0x200_0000
  {
    assert Pow2(12) == 0x1000;
  }

  lemma {:induction false} ProductBound(a: nat, b: nat, x: nat, y: nat)
    requires a <= b && x <= y
    ensures a * x <= b * y
  {
  }

  lemma {:induction false} Or32IsOr(a: nat, b: nat)
    requires a < TWO_32 && b < TWO_32
    ensures Or32(a, b) == BitOr(a, b)
  {
  }

  /** Or-ing in the next character. */
  lemma {:induction false} NextCode(s: string, c: char)
    requires IsSmall(s) && |s| < 6 && IsSmallChar(c)
    ensures IsSmall(s + [c]) && Or32(SmallIndex(s), Shl32(CharTo5Bit(c), |s| * 5)) == SmallIndex(s + [c])
  {
    var code, n := CharTo5Bit(c), 5 * |s|;
    SmallIndexOfLast(s, c);
    SmallBound(s);
    SmallFits(s);
    ShlOfCode(code, n);
    OrOfDisjoint(SmallIndex(s), code, n);
    hide Pow2, SmallIndex, BitOr, Shl32, Or32;
    Or32IsOr(SmallIndex(s), code * Pow2(n));
  }

  class InstructionNameData {
    var names: seq<string>
    var primaryTable: seq<nat>
    var stringTable: string

    function View(): Data
      reads this
    {
      Data(names, primaryTable, stringTable)
    }

    constructor ()
      ensures View() == EMPTY
    {
      names, primaryTable, stringTable := [], [], "";
    }

    method AddOrReferenceString(s: string) returns (index: nat)
      modifies `stringTable
      ensures (index, stringTable) == Refer(old(stringTable), s)
    {
      var at := IndexOf(stringTable, s, 0);
      if at.Some? {
        index := at.value;
      } else {
        index := |stringTable|;
        stringTable := stringTable + s;
      }
    }

    /** Adds a name. A short one of the 32 characters becomes its entry, one with an alias is
        stored with it, any other waits for `Index`. */
    method Add(name: string, alias: string)
      requires View().Valid()
      modifies this
      ensures View() == NameData.Add(old(View()), Request(name, alias)) && View().Valid()
    {
      var alt := if alias == name then "" else alias;
      names := names + [name];
      if IsSmall(name) && alt == "" {
        var index := EncodeSmall(name);
        primaryTable := primaryTable + [Or32(index, Shl32(1, 31))];
      } else if alt != "" {
        var prefixIndex := AddOrReferenceString(name + [(|alt| % 256) as char] + alt);
        primaryTable := primaryTable + [Pack(prefixIndex, |name|, ALIAS, 0)];
      } else {
        primaryTable := primaryTable + [0];
      }
    }

    /** Gives an entry to every name that has none, the longest names first. */
    method Index()
      requires View().Valid()
      modifies this
      ensures View() == NameData.Index(old(View())) && View().Valid()
    {
      ghost var start := View();
      var order := LongestFirst(names, Unindexed(primaryTable));
      hide IndexEntry, Unindexed, LongestFirst;
      NothingIndexed(start);
      var z := 0;
      hide IndexEntries;
      while z < |order|
        invariant z <= |order| && View() == IndexEntries(start, order[..z])
      {
        IndexAt(order[z]);
        IndexNext(start, order, z);
        z := z + 1;
      }
      assert order[..z] == order;
    }

    method IndexAt(idx: nat)
      requires View().Valid() && idx < |names|
      modifies this
      ensures View() == IndexEntry(old(View()), idx)
    {
      var name := names[idx];
      var at := ChooseCut(stringTable, name);
      var prefix, suffix := name[..at], name[at..];
      var entry: nat;
      if suffix != "" {
        var prefixIndex := AddOrReferenceString(prefix);
        var suffixIndex := AddOrReferenceString(suffix);
        entry := Pack(prefixIndex, |prefix|, suffixIndex, |suffix|);
      } else {
        var prefixIndex := AddOrReferenceString(prefix);
        entry := Pack(prefixIndex, |prefix|, 0, 0);
      }
      primaryTable := primaryTable[idx := entry];
    }
  }

  lemma {:induction false} NothingIndexed(d: Data)
    requires d.Valid()
    ensures IndexEntries(d, []) == d
  {
  }

  lemma {:induction false} IndexNext(d: Data, ks: seq<nat>, z: nat)
    requires d.Valid() && InRange(d.names, ks) && z < |ks|
    ensures IndexEntries(d, ks[..z + 1]) == IndexEntry(IndexEntries(d, ks[..z]), ks[z])
  {
    assert ks[..z + 1][..z] == ks[..z];
  }

  method EncodeSmall(name: string) returns (index: nat)
    requires IsSmall(name)
    ensures index == SmallIndex(name)
  {
    index := 0;
    var i := 0;
    while i < |name|
      invariant i <= |name| && IsSmall(name[..i]) && index == SmallIndex(name[..i])
    {
      NextCode(name[..i], name[i]);
      assert name[..i + 1] == name[..i] + [name[i]];
      index := Or32(index, Shl32(CharTo5Bit(name[i]), i * 5));
      i := i + 1;
    }
    assert name[..i] == name;
  }

  lemma {:induction false} NextCut(table: string, name: string, i: nat)
    requires i <= |name|
    ensures i < Shortest(|name|) ==>
              LastBoth(table, name, i) == 0 && LastPrefix(table, name, i) == 0 && LongestSuffix(table, name, i) == 0
    ensures i >= Shortest(|name|) ==>
              var prefix, suffix := PrefixKnown(table, name, i), SuffixKnown(table, name, i);
              && LastBoth(table, name, i) == (if prefix && suffix then i else LastBoth(table, name, i - 1))
              && LastPrefix(table, name, i) == (if prefix then i else LastPrefix(table, name, i - 1))
              && LongestSuffix(table, name, i)
                 == (if LongestSuffix(table, name, i - 1) == 0 && suffix then |name| - i else LongestSuffix(table, name, i - 1))
  {
    hide Known;
  }

  /** The longest known parts among all cuts are those seen so far, or among the cuts up to `i`. */
  ghost predicate SeenDownTo(table: string, name: string, i: nat, prefix: nat, suffix: nat) {
    var top := Longest(|name|);
    && i <= top && (i > 0 ==> i >= Shortest(|name|)) && suffix <= |name| - i
    && LastBoth(table, name, top) == LastBoth(table, name, i)
    && LastPrefix(table, name, top) == (if prefix > 0 then prefix else LastPrefix(table, name, i))
    && LongestSuffix(table, name, top)
       == (if LongestSuffix(table, name, i) > 0 then LongestSuffix(table, name, i) else suffix)
  }

  lemma {:induction false} SeeOneMore(table: string, name: string, i: nat, prefix: nat, suffix: nat)
    requires SeenDownTo(table, name, i, prefix, suffix) && i > 0
    requires !(PrefixKnown(table, name, i) && SuffixKnown(table, name, i))
    ensures var p := if PrefixKnown(table, name, i) && prefix == 0 then i else prefix;
            var s := if SuffixKnown(table, name, i) && |name| - i > suffix then |name| - i else suffix;
            SeenDownTo(table, name, if |name| - i == MAX_SUFFIX then 0 else i - 1, p, s)
  {
    NextCut(table, name, i);
    NextCut(table, name, i - 1);
    NextCut(table, name, 0);
    hide Known, LastBoth, LastPrefix, LongestSuffix, PrefixKnown, SuffixKnown;
  }

  lemma {:induction false} SeenBoth(table: string, name: string, i: nat, prefix: nat, suffix: nat)
    requires SeenDownTo(table, name, i, prefix, suffix) && i > 0
    requires PrefixKnown(table, name, i) && SuffixKnown(table, name, i)
    ensures Cut(table, name) == i
  {
    NextCut(table, name, i);
    hide Known, LastBoth, LastPrefix, LongestSuffix;
  }

  lemma {:induction false} SeenAll(table: string, name: string, prefix: nat, suffix: nat)
    requires SeenDownTo(table, name, 0, prefix, suffix)
    ensures suffix <= |name| && Cut(table, name) == Fallback(|name|, prefix, suffix)
  {
    NextCut(table, name, 0);
    hide Known, LastBoth, LastPrefix, LongestSuffix;
  }

  lemma {:induction false} SeenNone(table: string, name: string)
    ensures SeenDownTo(table, name, Longest(|name|), 0, 0)
  {
    hide Known, LastBoth, LastPrefix, LongestSuffix;
  }

  /** The loop over the cuts of a name. */
  method ChooseCut(table: string, name: string) returns (at: nat)
    ensures at == Cut(table, name)
  {
    hide SeenDownTo, Known, Cut, Fallback;
    var longestPrefix: nat, longestSuffix: nat := 0, 0;
    var i: nat := Longest(|name|);
    SeenNone(table, name);
    while i > 0
      invariant i <= |name| && SeenDownTo(table, name, i, longestPrefix, longestSuffix)
    {
      var prefixFound, suffixFound := Known(table, name[..i]), Known(table, name[i..]);
      if prefixFound && suffixFound {
        SeenBoth(table, name, i, longestPrefix, longestSuffix);
        return i;
      }
      SeeOneMore(table, name, i, longestPrefix, longestSuffix);
      if prefixFound && longestPrefix == 0 { longestPrefix := i; }
      if suffixFound && |name| - i > longestSuffix { longestSuffix := |name| - i; }
      if |name| - i == MAX_SUFFIX {
        i := 0;
      } else {
        i := i - 1;
      }
    }
    SeenAll(table, name, longestPrefix, longestSuffix);
    at := Fallback(|name|, longestPrefix, longestSuffix);
  }
}
