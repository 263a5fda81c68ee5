/** Instruction names packed into 32-bit entries and one shared string (tools/tablegen.js), and
    the reader of the packed names (asmjit/core/instdb.cpp). */
module NameTable {
  import opened Bits
  import opened Wrappers

  const SMALL := 0x8000_0000
  const MAX_PREFIX := 15
  const MAX_SUFFIX := 6
  const ALIAS := 0xFFF

  /** The size of the buffer that a name is decoded into. */
  const BUFFER_SIZE := 32

  // --- Searching the shared string ---

  predicate OccursAt(table: string, s: string, i: nat) {
    i + |s| <= |table| && table[i..i + |s|] == s
  }

  /** The first place, from `i` on, where the text occurs. */
  function IndexOf(table: string, s: string, i: nat): (r: Option<nat>)
    requires i <= |table|
    ensures r.Some? ==> OccursAt(table, s, r.value)
    ensures r.None? ==> forall k | i <= k <= |table| :: !OccursAt(table, s, k)
    decreases |table| - i
  {
    if OccursAt(table, s, i) then Some(i)
    else if i == |table| then None
    else IndexOf(table, s, i + 1)
  }

  predicate Known(table: string, s: string) {
    IndexOf(table, s, 0).Some?
  }

  /** Where the text is, and the table with it. */
  function Refer(table: string, s: string): (r: (nat, string))
    ensures OccursAt(r.1, s, r.0) && table <= r.1
    ensures r.1 == if Known(table, s) then table else table + s
  {
    var at := IndexOf(table, s, 0);
    if at.Some? then (at.value, table) else (|table|, table + s)
  }

  // --- Entries ---

  predicate IsSmallChar(c: char) {
    'a' <= c <= 'z' || '0' <= c <= '4'
  }

  predicate IsSmall(name: string) {
    |name| <= 6 && forall k | 0 <= k < |name| :: IsSmallChar(name[k])
  }

  function CharTo5Bit(c: char): (n: nat)
    requires IsSmallChar(c)
    ensures 0 < n < 32
  {
    if 'a' <= c <= 'z' then 1 + (c as nat - 'a' as nat) else 1 + 26 + (c as nat - '0' as nat)
  }

  function SmallIndex(name: string): nat
    requires forall k | 0 <= k < |name| :: IsSmallChar(name[k])
  {
    if name == "" then 0 else CharTo5Bit(name[0]) + 32 * SmallIndex(name[1..])
  }

  function Pack(prefix: nat, prefixSize: nat, suffix: nat, suffixSize: nat): nat {
    Or32(Or32(Or32(prefix, Shl32(prefixSize, 12)), Shl32(suffix, 16)), Shl32(suffixSize, 28))
  }

  // --- The reader ---

  function Decode5BitChar(c: nat): char
    requires 0 < c < 32
  {
    ((if c <= 26 then 'a' as int - 1 else '0' as int - 27) + c) as char
  }

  function DecodeSmall(v: nat, n: nat): string {
    if n == 0 || v % 32 == 0 then "" else [Decode5BitChar(v % 32)] + DecodeSmall(v / 32, n - 1)
  }

  function Read(table: string, base: nat, size: nat): Option<string> {
    if size == 0 then Some("")
    else if base + size <= |table| then Some(table[base..base + size])
    else None
  }

  /** The two texts one after the other, if both are there and the buffer holds them. */
  function Both(a: Option<string>, b: Option<string>): Option<string> {
    if a.Some? && b.Some? && |a.value| + |b.value| <= BUFFER_SIZE then Some(a.value + b.value) else None
  }

  /** What an entry is decoded to; none if the reader would leave the shared string or its buffer. */
  function Decode(v: nat, aliases: bool, table: string): Option<string> {
    if v >= SMALL then Some(DecodeSmall(v, 6))
    else
      var prefix, prefixSize := v % 0x1000, v / 0x1000 % 16;
      var suffix, suffixSize := v / 0x1_0000 % 0x1000, v / 0x1000_0000 % 8;
      if aliases && suffix == ALIAS then
        var at := prefix + prefixSize;
        if at < |table| then Both(Read(table, at + 1, table[at] as nat % 256), Read(table, suffix, suffixSize)) else None
      else
        Both(Read(table, prefix, prefixSize), Read(table, suffix, suffixSize))
  }

  // --- Small entries ---

  lemma {:induction false} DecodeCode(c: char)
    requires IsSmallChar(c)
    ensures Decode5BitChar(CharTo5Bit(c)) == c
  {
  }

  lemma {:induction false} SmallDecodes(name: string, n: nat, rest: nat)
    requires |name| <= n && forall k | 0 <= k < |name| :: IsSmallChar(name[k])
    ensures DecodeSmall(SmallIndex(name) + rest * Pow2(5 * n), n) == name
  {
    if name == "" {
      if n > 0 { Step32(rest, n, 0, 0); }
    } else {
      DecodeCode(name[0]);
      SmallStep(name, n, rest);
      hide Pow2, SmallIndex, CharTo5Bit, Decode5BitChar, IsSmallChar;
      SmallDecodes(name[1..], n - 1, rest);
    }
  }

  lemma {:induction false} SmallStep(name: string, n: nat, rest: nat)
    requires name != "" && n > 0 && forall k | 0 <= k < |name| :: IsSmallChar(name[k])
    ensures var v := SmallIndex(name) + rest * Pow2(5 * n);
            v % 32 == CharTo5Bit(name[0]) && v / 32 == SmallIndex(name[1..]) + rest * Pow2(5 * (n - 1))
  {
    var c, tail := CharTo5Bit(name[0]), SmallIndex(name[1..]);
    assert SmallIndex(name) == c + 32 * tail;
    hide Pow2, SmallIndex, CharTo5Bit, IsSmallChar;
    Step32(rest, n, c, tail);
  }

  lemma {:induction false} Pow2Of5(n: nat)
    requires n > 0
    ensures Pow2(5 * n) == 32 * Pow2(5 * (n - 1))
  {
    var k := 5 * (n - 1);
    assert Pow2(k + 5) == 2 * Pow2(k + 4) == 4 * Pow2(k + 3) == 8 * Pow2(k + 2) == 16 * Pow2(k + 1) == 32 * Pow2(k);
  }

  lemma {:induction false} Step32(rest: nat, n: nat, c: nat, tail: nat)
    requires n > 0 && c < 32
    ensures var v := c + 32 * tail + rest * Pow2(5 * n); v % 32 == c && v / 32 == tail + rest * Pow2(5 * (n - 1))
  {
    Pow2Of5(n);
    hide Pow2;
    Times32(rest, Pow2(5 * (n - 1)));
    Digit32(c, tail + rest * Pow2(5 * (n - 1)));
  }

  lemma {:induction false} Digit32(c: nat, x: nat)
    requires c < 32
    ensures (c + 32 * x) % 32 == c && (c + 32 * x) / 32 == x
  {
  }

  lemma {:induction false} Times32(a: nat, b: nat)
    ensures a * (32 * b) == 32 * (a * b)
  {
  }

  lemma {:induction false} SmallBound(name: string)
    requires forall k | 0 <= k < |name| :: IsSmallChar(name[k])
    ensures SmallIndex(name) < Pow2(5 * |name|)
  {
    if name != "" {
      SmallBound(name[1..]);
      Step32(1, |name|, 0, 0);
    }
  }

  lemma {:induction false} OrAt12(low: nat, high: nat)
    requires low < 0x1000
    ensures BitOr(low, high * 0x1000) == low + high * 0x1000
  {
    assert Pow2(12) == 0x1000 by { Pow2Values(); }
    hide Pow2, BitOr;
    OrOfDisjoint(low, high, 12);
  }

  lemma {:induction false} OrAt16(low: nat, high: nat)
    requires low < 0x1_0000
    ensures BitOr(low, high * 0x1_0000) == low + high * 0x1_0000
  {
    assert Pow2(16) == 0x1_0000 by { Pow2Values(); }
    hide Pow2, BitOr;
    OrOfDisjoint(low, high, 16);
  }

  lemma {:induction false} OrAt28(low: nat, high: nat)
    requires low < 0x1000_0000
    ensures BitOr(low, high * 0x1000_0000) == low + high * 0x1000_0000
  {
    assert Pow2(28) == 0x1000_0000 by { Pow2Values(); }
    hide Pow2, BitOr;
    OrOfDisjoint(low, high, 28);
  }

  lemma {:induction false} OrAt31(low: nat, high: nat)
    requires low < SMALL
    ensures BitOr(low, high * SMALL) == low + high * SMALL
  {
    assert Pow2(31) == SMALL by { Pow2Values(); }
    hide Pow2, BitOr;
    OrOfDisjoint(low, high, 31);
  }

  lemma {:induction false} OrSmallBit(x: nat)
    requires x < 0x4000_0000
    ensures Or32(x, SMALL) == x + SMALL
  {
    OrAt31(x, 1);
    hide BitOr;
    assert x % TWO_32 == x && SMALL % TWO_32 == SMALL;
  }

  lemma {:induction false} SmallFits(name: string)
    requires IsSmall(name)
    ensures SmallIndex(name) < 0x4000_0000
  {
    assert Pow2(30) == 0x4000_0000 by { Pow2Values(); }
    SmallBound(name);
    hide Pow2, SmallIndex;
    var n := 5 * |name|;
    Pow2Grows(n, 30);
  }

  lemma {:induction false} SmallBit()
    ensures Shl32(1, 31) == SMALL
  {
    Pow2Values();
    hide Pow2;
  }

  lemma {:induction false} SmallEntry(name: string)
    requires IsSmall(name)
    ensures Or32(SmallIndex(name), Shl32(1, 31)) == SmallIndex(name) + SMALL
  {
    hide Pow2, SmallIndex, BitOr, Or32, Shl32;
    SmallFits(name);
    SmallBit();
    OrSmallBit(SmallIndex(name));
  }

  /** A short name of the 32 characters is its own entry. */
  lemma {:induction false} SmallRoundTrip(name: string, aliases: bool, table: string)
    requires IsSmall(name)
    ensures Decode(Or32(SmallIndex(name), Shl32(1, 31)), aliases, table) == Some(name)
  {
    SmallEntry(name);
    SmallDecodes(name, 6, 2);
    assert Pow2(30) == 0x4000_0000 by { Pow2Values(); }
    hide Pow2, SmallIndex, Or32, Shl32, DecodeSmall;
  }

  // --- Split entries ---

  lemma {:induction false} ShlValues(prefixSize: nat, suffix: nat, suffixSize: nat)
    requires prefixSize < 16 && suffix < 0x1000
    ensures Shl32(prefixSize, 12) == prefixSize * 0x1000 && Shl32(suffix, 16) == suffix * 0x1_0000
    ensures Shl32(suffixSize, 28) == suffixSize % 16 * 0x1000_0000
  {
    Pow2Values();
    hide Pow2;
    Mod16(suffixSize);
  }

  lemma {:induction false} Mod16(x: nat)
    ensures x * 0x1000_0000 % TWO_32 == x % 16 * 0x1000_0000
  {
    var q, r := x / 16, x % 16;
    assert x * 0x1000_0000 == q * TWO_32 + r * 0x1000_0000;
  }

  lemma {:induction false} PackValue(prefix: nat, prefixSize: nat, suffix: nat, suffixSize: nat)
    requires prefix < 0x1000 && prefixSize < 16 && suffix < 0x1000
    ensures Pack(prefix, prefixSize, suffix, suffixSize)
         == prefix + 0x1000 * prefixSize + 0x1_0000 * suffix + 0x1000_0000 * (suffixSize % 16)
  {
    hide Shl32, BitOr;
    ShlValues(prefixSize, suffix, suffixSize);
    var low := prefix + 0x1000 * prefixSize;
    OrAt12(prefix, prefixSize);
    OrAt16(low, suffix);
    OrAt28(low + 0x1_0000 * suffix, suffixSize % 16);
  }

  lemma {:induction false} Fields(prefix: nat, prefixSize: nat, suffix: nat, top: nat)
    requires prefix < 0x1000 && prefixSize < 16 && suffix < 0x1000 && top < 16
    ensures var v := prefix + 0x1000 * prefixSize + 0x1_0000 * suffix + 0x1000_0000 * top;
            && v % 0x1000 == prefix && v / 0x1000 % 16 == prefixSize && v / 0x1_0000 % 0x1000 == suffix
            && v / 0x1000_0000 == top
  {
    var a := suffix + 0x1000 * top;
    var b := prefixSize + 16 * a;
    var v := prefix + 0x1000 * b;
    assert v / 0x1000 == b;
    assert v / 0x1_0000 == a;
  }

  lemma {:induction false} Top(x: nat)
    ensures x % 16 % 8 == x % 8
  {
  }

  /** The four fields do not overlap. */
  lemma {:induction false} PackFields(prefix: nat, prefixSize: nat, suffix: nat, suffixSize: nat)
    requires prefix < 0x1000 && prefixSize < 16 && suffix < 0x1000
    ensures var v := Pack(prefix, prefixSize, suffix, suffixSize);
            && v % 0x1000 == prefix && v / 0x1000 % 16 == prefixSize && v / 0x1_0000 % 0x1000 == suffix
            && v / 0x1000_0000 % 8 == suffixSize % 8 && (v >= SMALL <==> suffixSize % 16 >= 8)
  {
    PackValue(prefix, prefixSize, suffix, suffixSize);
    hide Pack;
    var top := suffixSize % 16;
    Fields(prefix, prefixSize, suffix, top);
    Top(suffixSize);
  }
}
