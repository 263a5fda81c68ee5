/** The bits of an AArch64 opcode and the fields inside it (db/aarch64.js). */
module A64Opcode {
  import opened Bits
  import opened Arithmetic
  import opened Wrappers

  /** A part of an opcode string: a run of literal bits, or a slice of a field given as name[hi:lo],
      name[at], name:size or just the name. */
  datatype Part =
    | Literal(bits: seq<bool>)
    | Range(name: string, hi: nat, lo: nat)
    | Single(name: string, at: nat)
    | Sized(name: string, size: nat)
    | Plain(name: string)

  /** `index` is the place in the opcode, `from` the place in the field. */
  datatype Slice = Slice(index: nat, from: nat, size: nat)

  datatype Field = Field(index: nat, values: seq<Slice>, bits: nat, mask: int)

  datatype State = State(index: nat, value: int, fields: map<string, Field>, dup: set<string>)

  const START := State(0, 0, map[], {})

  function BinaryValue(bits: seq<bool>): nat {
    if bits == [] then 0
    else 2 * BinaryValue(bits[..|bits| - 1]) + if bits[|bits| - 1] then 1 else 0
  }

  /** The size of a part; `info` has the sizes of the standard fields. */
  function Size(p: Part, info: map<string, nat>): Option<nat> {
    match p
    case Literal(bits) => Some(|bits|)
    case Range(_, hi, lo) => if hi < lo then None else Some(hi - lo + 1)
    case Single(_, _) => Some(1)
    case Sized(_, size) => Some(size)
    case Plain(name) => if name in info then Some(info[name]) else if |name| == 1 then Some(1) else None
  }

  function SliceMask(p: Part, size: nat): int {
    match p
    case Range(_, _, lo) => ShlInt32(ShlInt32(1, size) - 1, lo)
    case Single(_, at) => ShlInt32(1, at)
    case _ => 0
  }

  function NewField(index: nat): Field {
    Field(index, [], 0, 0)
  }

  function From(p: Part, field: Field): nat {
    match p
    case Range(_, _, lo) => lo
    case Single(_, at) => at
    case _ => field.bits
  }

  /** The bits that the part adds to its field; a name given a second time without a size adds none. */
  function AddedBits(p: Part, size: nat, dup: set<string>): nat {
    if p.Sized? then size else if p.Plain? && p.name !in dup then size else 0
  }

  function FieldOf(s: State, name: string): Field {
    if name in s.fields then s.fields[name] else NewField(s.index)
  }

  function AddSlice(s: State, p: Part, size: nat): Field
    requires !p.Literal?
  {
    var field := FieldOf(s, p.name);
    Field(field.index, field.values + [Slice(s.index, From(p, field), size)],
          field.bits + AddedBits(p, size, s.dup), OrInt32(field.mask, SliceMask(p, size)))
  }

  function Step(s: State, p: Part, info: map<string, nat>): Option<State> {
    if Size(p, info).None? then None
    else
      var size := Size(p, info).value;
      if p.Literal? then
        Some(s.(index := s.index + size, value := OrInt32(s.value, ShlInt32(BinaryValue(p.bits), s.index))))
      else
        Some(State(s.index + size, s.value, s.fields[p.name := AddSlice(s, p, size)],
                   if p.Plain? then s.dup + {p.name} else s.dup))
  }

  /** The parts are taken from the last to the first. */
  function Scan(parts: seq<Part>, info: map<string, nat>): Option<State> {
    if parts == [] then Some(START)
    else
      var s := Scan(parts[1..], info);
      if s.None? then None else Step(s.value, parts[0], info)
  }

  // --- The finished opcode ---

  /** The number of bits up to the highest one that is set. */
  function BitLength(x: nat): nat {
    if x == 0 then 0 else 1 + BitLength(x / 2)
  }

  function Normalize(f: Field): Option<Field> {
    if f.bits == 0 && f.mask == 0 then None
    else if f.bits != 0 && f.mask != 0 then None
    else if f.bits != 0 then Some(f.(mask := ShlInt32(1, f.bits) - 1))
    else Some(f.(bits := BitLength(f.mask % TWO_32)))
  }

  function NormalizeNumber(n: int): int {
    if n < 0 then TWO_32 + n else n
  }

  predicate Accepted(parts: seq<Part>, info: map<string, nat>) {
    && Scan(parts, info).Some?
    && var s := Scan(parts, info).value;
       s.index == 32 && forall name | name in s.fields :: Normalize(s.fields[name]).Some?
  }

  // --- The parts tile the opcode ---

  function Width(parts: seq<Part>, info: map<string, nat>): nat {
    if parts == [] then 0
    else Width(parts[1..], info) + if Size(parts[0], info).Some? then Size(parts[0], info).value else 0
  }

  lemma {:induction false} IndexIsWidth(parts: seq<Part>, info: map<string, nat>)
    requires Scan(parts, info).Some?
    ensures Scan(parts, info).value.index == Width(parts, info)
  {
    if parts != [] { IndexIsWidth(parts[1..], info); }
  }

  lemma {:induction false} WidthOfSuffix(parts: seq<Part>, info: map<string, nat>, k: nat)
    requires k <= |parts|
    ensures Width(parts[k..], info) <= Width(parts, info)
  {
    if k > 0 {
      WidthOfSuffix(parts[1..], info, k - 1);
      assert parts[1..][k - 1..] == parts[k..];
    }
  }

  lemma {:induction false} WidthFrom(parts: seq<Part>, info: map<string, nat>, i: nat, j: nat)
    requires i <= j <= |parts|
    ensures Width(parts[j..], info) <= Width(parts[i..], info)
  {
    WidthOfSuffix(parts[i..], info, j - i);
    assert parts[i..][j - i..] == parts[j..];
  }

  /** Part `k` covers the bit. */
  predicate CoversBit(parts: seq<Part>, info: map<string, nat>, k: nat, bit: nat)
    requires k < |parts|
  {
    Width(parts[k + 1..], info) <= bit < Width(parts[k..], info)
  }

  /** Every bit below the width is covered by exactly one part. */
  lemma {:induction false} PartsTile(parts: seq<Part>, info: map<string, nat>, bit: nat) returns (k: nat)
    requires bit < Width(parts, info)
    ensures k < |parts| && CoversBit(parts, info, k, bit)
    ensures forall j: nat | j < |parts| && CoversBit(parts, info, j, bit) :: j == k
  {
    if bit >= Width(parts[1..], info) {
      k := 0;
      assert parts[0..] == parts;
      forall j: nat | j < |parts| && CoversBit(parts, info, j, bit) ensures j == k {
        if j > 0 { WidthFrom(parts, info, 1, j); }
      }
    } else {
      var l := PartsTile(parts[1..], info, bit);
      k := l + 1;
      assert parts[1..][l + 1..] == parts[k + 1..] && parts[1..][l..] == parts[k..];
      forall j: nat | j < |parts| && CoversBit(parts, info, j, bit) ensures j == k {
        if j == 0 {
          assert parts[0..] == parts;
        } else {
          assert parts[1..][j..] == parts[j + 1..] && parts[1..][j - 1..] == parts[j..];
          assert CoversBit(parts[1..], info, j - 1, bit);
        }
      }
    }
  }

  /** The slices of a field, from the last part to the first: each lies where its part does. */
  function Slots(parts: seq<Part>, info: map<string, nat>, name: string): seq<(nat, nat)> {
    if parts == [] then []
    else
      var rest := Slots(parts[1..], info, name);
      if !parts[0].Literal? && parts[0].name == name && Size(parts[0], info).Some?
      then rest + [(Width(parts[1..], info), Size(parts[0], info).value)]
      else rest
  }

  function Places(values: seq<Slice>): seq<(nat, nat)> {
    seq(|values|, i requires 0 <= i < |values| => (values[i].index, values[i].size))
  }

  /** The slices of a field are its parts, at the bits they cover. */
  lemma {:induction false} SlicesAreParts(parts: seq<Part>, info: map<string, nat>, name: string)
    requires Scan(parts, info).Some?
    ensures var s := Scan(parts, info).value;
            Slots(parts, info, name) == if name in s.fields then Places(s.fields[name].values) else []
  {
    if parts != [] {
      SlicesAreParts(parts[1..], info, name);
      IndexIsWidth(parts[1..], info);
      hide From, AddedBits, SliceMask, OrInt32, ShlInt32, BinaryValue;
    }
  }

  // --- The value ---

  /** The opcode as text, with zeros for the fields. */
  function Text(parts: seq<Part>, info: map<string, nat>): seq<bool> {
    if parts == [] then []
    else
      (if parts[0].Literal? then parts[0].bits
       else if Size(parts[0], info).Some? then seq(Size(parts[0], info).value, _ => false)
       else []) + Text(parts[1..], info)
  }

  lemma {:induction false} BinaryOfConcat(a: seq<bool>, b: seq<bool>)
    ensures BinaryValue(a + b) == BinaryValue(a) * Pow2(|b|) + BinaryValue(b)
  {
    if b == [] {
      assert a + b == a;
    } else {
      var init := b[..|b| - 1];
      assert (a + b)[..|a + b| - 1] == a + init;
      assert BinaryValue(a + b) == 2 * BinaryValue(a + init) + if b[|b| - 1] then 1 else 0;
      assert Pow2(|b|) == 2 * Pow2(|init|);
      BinaryOfConcat(a, init);
      hide Pow2;
      Times2(BinaryValue(a), Pow2(|init|));
    }
  }

  lemma {:induction false} Times2(a: nat, b: nat)
    ensures 2 * (a * b) == a * (2 * b)
  {
  }

  lemma {:induction false} BinaryBound(bits: seq<bool>)
    ensures BinaryValue(bits) < Pow2(|bits|)
  {
    if bits != [] { BinaryBound(bits[..|bits| - 1]); }
  }

  lemma {:induction false} BinaryOfZeros(n: nat)
    ensures BinaryValue(seq(n, _ => false)) == 0
  {
    if n > 0 {
      BinaryOfZeros(n - 1);
      assert seq(n, _ => false)[..n - 1] == seq(n - 1, _ => false);
    }
  }

  lemma {:induction false} TextSize(parts: seq<Part>, info: map<string, nat>)
    ensures |Text(parts, info)| == Width(parts, info)
  {
    if parts != [] { TextSize(parts[1..], info); }
  }

  lemma {:induction false} WordOfInt32(u: nat)
    requires u < TWO_32
    ensures ToInt32(u) % TWO_32 == u
  {
  }

  lemma {:induction false} ShlOfWord(lit: nat, n: nat)
    requires lit < TWO_32 && n < 32 && lit * Pow2(n) < TWO_32
    ensures ShlInt32(lit, n) % TWO_32 == lit * Pow2(n)
  {
    hide Pow2, ToInt32;
    WordOfInt32(lit * Pow2(n));
    assert lit % TWO_32 == lit && n % 32 == n;
  }

  lemma {:induction false} OrOfWords(a: int, b: int, low: nat, high: nat)
    requires a % TWO_32 == low && b % TWO_32 == high && BitOr(low, high) < TWO_32
    ensures OrInt32(a, b) % TWO_32 == BitOr(low, high)
  {
    hide BitOr, ToInt32;
    WordOfInt32(BitOr(low, high));
  }

  lemma {:induction false} ShiftFits(lit: nat, size: nat, index: nat)
    requires lit < Pow2(size) && index + size <= 32 && index < 32
    ensures ShlInt32(lit, index) % TWO_32 == lit * Pow2(index)
  {
    Pow2Sum(size, index);
    Pow2Grows(size + index, 32);
    Pow2Values();
    hide Pow2, ShlInt32;
    Product(lit, Pow2(size), Pow2(index));
    ShlOfWord(lit, index);
  }

  lemma {:induction false} Product(a: nat, b: nat, c: nat)
    requires a < b && c > 0
    ensures a * c < b * c && a <= a * c
  {
  }

  lemma {:induction false} OrLiteral(value: int, low: nat, lit: nat, size: nat, index: nat)
    requires value % TWO_32 == low && low < Pow2(index) && lit < Pow2(size) && index + size <= 32 && index < 32
    ensures OrInt32(value, ShlInt32(lit, index)) % TWO_32 == low + lit * Pow2(index)
  {
    hide Pow2, BitOr, ShlInt32, OrInt32;
    ShiftFits(lit, size, index);
    OrOfDisjoint(low, lit, index);
    SumFits(low, lit, size, index);
    OrOfWords(value, ShlInt32(lit, index), low, lit * Pow2(index));
  }

  lemma {:induction false} SumFits(low: nat, lit: nat, size: nat, index: nat)
    requires low < Pow2(index) && lit < Pow2(size) && index + size <= 32
    ensures low + lit * Pow2(index) < TWO_32
  {
    Pow2Sum(size, index);
    Pow2Grows(size + index, 32);
    Pow2Values();
    hide Pow2;
    Bound(low, lit, Pow2(size), Pow2(index));
  }

  lemma {:induction false} Bound(low: nat, a: nat, b: nat, c: nat)
    requires low < c && a < b
    ensures low + a * c < b * c
  {
    assert (a + 1) * c <= b * c;
  }

  /** The value built from the right by shifts and ors is the text read from the left. */
  lemma {:induction false} ValueIsText(parts: seq<Part>, info: map<string, nat>)
    requires Scan(parts, info).Some? && Width(parts, info) <= 32
    ensures Scan(parts, info).value.value % TWO_32 == BinaryValue(Text(parts, info))
  {
    if parts != [] {
      var rest, p := parts[1..], parts[0];
      ValueIsText(rest, info);
      IndexIsWidth(rest, info);
      TextSize(rest, info);
      BinaryBound(Text(rest, info));
      var size := Size(p, info).value;
      var head := if p.Literal? then p.bits else seq(size, _ => false);
      assert Text(parts, info) == head + Text(rest, info);
      BinaryOfConcat(head, Text(rest, info));
      var s := Scan(rest, info).value;
      if p.Literal? {
        BinaryBound(p.bits);
        LiteralStep(s, p.bits, BinaryValue(Text(rest, info)));
      } else {
        BinaryOfZeros(size);
      }
    }
  }

  lemma {:induction false} LiteralStep(s: State, bits: seq<bool>, low: nat)
    requires s.value % TWO_32 == low && low < Pow2(s.index) && s.index + |bits| <= 32
    ensures OrInt32(s.value, ShlInt32(BinaryValue(bits), s.index)) % TWO_32 == BinaryValue(bits) * Pow2(s.index) + low
  {
    if s.index < 32 {
      BinaryBound(bits);
      hide Pow2, OrInt32, ShlInt32, BinaryValue;
      OrLiteral(s.value, low, BinaryValue(bits), |bits|, s.index);
    } else {
      assert bits == [] && BinaryValue(bits) == 0;
      hide Pow2, OrInt32, BinaryValue;
      OrNothing(s.value, s.index);
    }
  }

  lemma {:induction false} OrNothing(value: int, index: nat)
    ensures OrInt32(value, ShlInt32(0, index)) % TWO_32 == value % TWO_32
  {
    assert ShlInt32(0, index) == 0;
    hide BitOr, Pow2, ShlInt32;
    assert BitOr(value % TWO_32, 0) == value % TWO_32 by { OrZero(value % TWO_32); }
  }

  lemma {:induction false} OrZero(a: nat)
    ensures BitOr(a, 0) == a
  {
  }

  lemma {:induction false} ValueIsInt32(parts: seq<Part>, info: map<string, nat>)
    requires Scan(parts, info).Some?
    ensures -0x8000_0000 <= Scan(parts, info).value.value < 0x8000_0000
  {
    if parts != [] { ValueIsInt32(parts[1..], info); }
    hide BitOr, ShlInt32;
  }

  lemma {:induction false} Normalized(v: int)
    requires -0x8000_0000 <= v < 0x8000_0000
    ensures NormalizeNumber(v) == v % TWO_32
  {
  }

  /** The value of an accepted opcode is its 32 bits read from the left, with zeros for the fields. */
  lemma {:induction false} OpcodeValue(parts: seq<Part>, info: map<string, nat>)
    requires Accepted(parts, info)
    ensures |Text(parts, info)| == 32
    ensures NormalizeNumber(Scan(parts, info).value.value) == BinaryValue(Text(parts, info))
  {
    hide Scan, Text, BinaryValue, Width;
    IndexIsWidth(parts, info);
    TextSize(parts, info);
    ValueIsText(parts, info);
    ValueIsInt32(parts, info);
    Normalized(Scan(parts, info).value.value);
    hide NormalizeNumber;
  }

  // --- Fields written as name:size ---

  predicate OnlySized(parts: seq<Part>, name: string) {
    forall k | 0 <= k < |parts| :: parts[k].Literal? || parts[k].name != name || parts[k].Sized?
  }

  function Total(values: seq<Slice>): nat {
    if values == [] then 0 else Total(values[..|values| - 1]) + values[|values| - 1].size
  }

  ghost predicate Tiles(f: Field) {
    f.bits == Total(f.values) && forall j | 0 <= j < |f.values| :: f.values[j].from == Total(f.values[..j])
  }

  lemma {:induction false} AddedTiles(f: Field, g: Field, sl: Slice)
    requires Tiles(f) && g.values == f.values + [sl] && sl.from == f.bits && g.bits == f.bits + sl.size
    ensures Tiles(g)
  {
    assert g.values[..|f.values|] == f.values;
    forall j | 0 <= j < |g.values| ensures g.values[j].from == Total(g.values[..j]) {
      if j < |f.values| { assert g.values[..j] == f.values[..j]; }
    }
  }

  /** One step of the scan keeps the tiling. */
  lemma {:induction false} SizedStepTiles(s: State, p: Part, info: map<string, nat>, name: string)
    requires Step(s, p, info).Some? && name in Step(s, p, info).value.fields
    requires p.Literal? || p.name != name || p.Sized?
    requires name in s.fields ==> Tiles(s.fields[name]) && s.fields[name].mask == 0 && s.fields[name].bits <= s.index
    ensures var t := Step(s, p, info).value;
            Tiles(t.fields[name]) && t.fields[name].mask == 0 && t.fields[name].bits <= t.index
  {
    hide Tiles, OrInt32, ShlInt32, BinaryValue;
    if !p.Literal? && p.name == name {
      var size := Size(p, info).value;
      var f := FieldOf(s, name);
      NewFieldTiles(s.index);
      AddedTiles(f, AddSlice(s, p, size), Slice(s.index, f.bits, size));
      OrOfZeros();
    }
  }

  lemma {:induction false} NewFieldTiles(index: nat)
    ensures Tiles(NewField(index))
  {
  }

  lemma {:induction false} OrOfZeros()
    ensures OrInt32(0, 0) == 0
  {
  }

  /** The slices of a field that is written with sizes only tile it, from bit 0 up. */
  lemma {:induction false} SizedFieldsTile(parts: seq<Part>, info: map<string, nat>, name: string)
    requires Scan(parts, info).Some? && OnlySized(parts, name) && name in Scan(parts, info).value.fields
    ensures var f := Scan(parts, info).value.fields[name]; Tiles(f) && f.mask == 0 && f.bits <= Width(parts, info)
  {
    assert parts != [];
    assert OnlySized(parts[1..], name);
    ScanStep(parts, info);
    hide Scan, Tiles, Step;
    if name in Scan(parts[1..], info).value.fields { SizedFieldsTile(parts[1..], info, name); }
    IndexIsWidth(parts[1..], info);
    IndexIsWidth(parts, info);
    SizedStepTiles(Scan(parts[1..], info).value, parts[0], info, name);
  }

  /** The mask of a field covers exactly its bits if there are at most 30; from 31 bits on the
      32-bit shift that computes it overflows. */
  lemma {:induction false} FieldMask(bits: nat)
    requires 0 < bits <= 32
    ensures ShlInt32(1, bits) - 1 == Pow2(bits) - 1 <==> bits <= 30
  {
    Pow2Values();
    if bits <= 30 { Pow2Grows(bits, 30); }
    hide Pow2;
    assert bits < 32 ==> bits % 32 == bits;
    if bits == 32 { assert bits % 32 == 0; }
  }

  // --- Instruction words ---

  /** What the part holds when the fields have the values. */
  function Content(s: State, p: Part, size: nat, vals: string -> nat): nat {
    if p.Literal? then BinaryValue(p.bits)
    else vals(p.name) / Pow2(From(p, FieldOf(s, p.name))) % Pow2(size)
  }

  function At(c: nat, index: nat): nat {
    c * Pow2(index)
  }

  /** The instruction with the values in its fields. */
  function WordOf(parts: seq<Part>, info: map<string, nat>, vals: string -> nat): nat
    requires Scan(parts, info).Some?
  {
    if parts == [] then 0
    else
      var s := Scan(parts[1..], info).value;
      WordOf(parts[1..], info, vals) + At(Content(s, parts[0], Size(parts[0], info).value, vals), s.index)
  }

  function Extract(word: nat, index: nat, size: nat): nat {
    word / Pow2(index) % Pow2(size)
  }

  lemma {:induction false} ContentFits(s: State, p: Part, size: nat, vals: string -> nat, info: map<string, nat>)
    requires Size(p, info) == Some(size)
    ensures Content(s, p, size, vals) < Pow2(size)
  {
    if p.Literal? { BinaryBound(p.bits); }
    hide BinaryValue, From;
  }

  lemma {:induction false} BoundSum(low: nat, c: nat, size: nat, index: nat)
    requires low < Pow2(index) && c < Pow2(size)
    ensures low + At(c, index) < Pow2(index + size)
  {
    Pow2Sum(size, index);
    hide Pow2;
    Bound(low, c, Pow2(size), Pow2(index));
  }

  lemma {:induction false} WordFits(parts: seq<Part>, info: map<string, nat>, vals: string -> nat)
    requires Scan(parts, info).Some?
    ensures WordOf(parts, info, vals) < Pow2(Width(parts, info))
  {
    hide Pow2, Content, At;
    if parts == [] {
      assert Pow2(0) > 0;
    } else {
      var rest, p := parts[1..], parts[0];
      var s, size := Scan(rest, info).value, Size(p, info).value;
      WordFits(rest, info, vals);
      IndexIsWidth(rest, info);
      ContentFits(s, p, size, vals, info);
      BoundSum(WordOf(rest, info, vals), Content(s, p, size, vals), size, s.index);
    }
  }

  /** With zeros in the fields the word is the text read from the left. */
  lemma {:induction false} WordOfZeros(parts: seq<Part>, info: map<string, nat>)
    requires Scan(parts, info).Some?
    ensures WordOf(parts, info, _ => 0) == BinaryValue(Text(parts, info))
  {
    if parts != [] {
      var rest, p := parts[1..], parts[0];
      var s, size := Scan(rest, info).value, Size(p, info).value;
      hide Pow2;
      WordOfZeros(rest, info);
      IndexIsWidth(rest, info);
      TextSize(rest, info);
      var head := if p.Literal? then p.bits else seq(size, _ => false);
      assert Text(parts, info) == head + Text(rest, info);
      BinaryOfConcat(head, Text(rest, info));
      if !p.Literal? {
        BinaryOfZeros(size);
        ZeroDivMod(Pow2(From(p, FieldOf(s, p.name))), Pow2(size));
      }
    }
  }

  lemma {:induction false} ExtractTop(low: nat, c: nat, index: nat, size: nat)
    requires low < Pow2(index) && c < Pow2(size)
    ensures Extract(low + At(c, index), index, size) == c
  {
    hide Pow2;
    DivUnique(low + c * Pow2(index), Pow2(index), c, low);
    SmallMod(c, Pow2(size));
  }

  lemma {:induction false} ExtractLow(low: nat, c: nat, top: nat, index: nat, size: nat)
    requires index + size <= top
    ensures Extract(low + At(c, top), index, size) == Extract(low, index, size)
  {
    var gap := top - index - size;
    Pow2Sum(gap + size, index);
    Pow2Sum(gap, size);
    hide Pow2;
    AddMultiple(low, c, Pow2(gap), Pow2(size), Pow2(index));
  }

  /** The slice of the word holds the slice of the value. */
  predicate Holds(word: nat, width: nat, sl: Slice, v: nat) {
    sl.index + sl.size <= width && Extract(word, sl.index, sl.size) == Extract(v, sl.from, sl.size)
  }

  lemma {:induction false} HoldsAbove(low: nat, c: nat, width: nat, size: nat, sl: Slice, v: nat)
    requires Holds(low, width, sl, v)
    ensures Holds(low + At(c, width), width + size, sl, v)
  {
    hide Extract, At;
    ExtractLow(low, c, width, sl.index, sl.size);
  }

  lemma {:induction false} HoldsAtTop(low: nat, width: nat, sl: Slice, v: nat)
    requires low < Pow2(width) && sl.index == width
    ensures Holds(low + At(Extract(v, sl.from, sl.size), width), width + sl.size, sl, v)
  {
    assert Extract(v, sl.from, sl.size) < Pow2(sl.size);
    hide Extract, At, Pow2;
    ExtractTop(low, Extract(v, sl.from, sl.size), width, sl.size);
  }

  lemma {:induction false} WordOfStep(parts: seq<Part>, info: map<string, nat>, vals: string -> nat)
    requires parts != [] && Scan(parts, info).Some?
    ensures var rest, p := parts[1..], parts[0];
            && Scan(rest, info).Some? && Size(p, info).Some? && Scan(parts, info) == Step(Scan(rest, info).value, p, info)
            && var s, size := Scan(rest, info).value, Size(p, info).value;
            && s.index == Width(rest, info) && Width(parts, info) == s.index + size
            && WordOf(parts, info, vals) == WordOf(rest, info, vals) + At(Content(s, p, size, vals), s.index)
  {
    IndexIsWidth(parts[1..], info);
    hide Content, At;
  }

  /** The slice that a part adds. */
  lemma {:induction false} NewSliceHolds(parts: seq<Part>, info: map<string, nat>, vals: string -> nat)
    requires parts != [] && Scan(parts, info).Some? && !parts[0].Literal?
    ensures var s, p := Scan(parts[1..], info).value, parts[0];
            && Size(p, info).Some?
            && Holds(WordOf(parts, info, vals), Width(parts, info),
                     Slice(s.index, From(p, FieldOf(s, p.name)), Size(p, info).value), vals(p.name))
  {
    WordOfStep(parts, info, vals);
    WordFits(parts[1..], info, vals);
    var s, p, word := Scan(parts[1..], info).value, parts[0], WordOf(parts[1..], info, vals);
    var size := Size(p, info).value;
    hide *;
    ContentOfField(s, p, size, vals);
    HoldsAtTop(word, s.index, Slice(s.index, From(p, FieldOf(s, p.name)), size), vals(p.name));
  }

  /** A slice of an earlier part. */
  lemma {:induction false} OldSliceHolds(parts: seq<Part>, info: map<string, nat>, vals: string -> nat, sl: Slice, v: nat)
    requires parts != [] && Scan(parts, info).Some?
    requires Holds(WordOf(parts[1..], info, vals), Width(parts[1..], info), sl, v)
    ensures Holds(WordOf(parts, info, vals), Width(parts, info), sl, v)
  {
    WordOfStep(parts, info, vals);
    var s, p, word := Scan(parts[1..], info).value, parts[0], WordOf(parts[1..], info, vals);
    hide *;
    HoldsAbove(word, Content(s, p, Size(p, info).value, vals), s.index, Size(p, info).value, sl, v);
  }

  /** Every slice of the word holds its slice of the field's value. */
  lemma {:induction false} SliceHoldsValue(parts: seq<Part>, info: map<string, nat>, vals: string -> nat, name: string, j: nat)
    requires Scan(parts, info).Some? && name in Scan(parts, info).value.fields
    requires j < |Scan(parts, info).value.fields[name].values|
    ensures Holds(WordOf(parts, info, vals), Width(parts, info), Scan(parts, info).value.fields[name].values[j], vals(name))
  {
    assert parts != [];
    ScanStep(parts, info);
    hide *;
    var s, p := Scan(parts[1..], info).value, parts[0];
    SliceOfStep(s, p, info, name, j);
    if !p.Literal? && p.name == name && j == |FieldOf(s, name).values| {
      NewSliceHolds(parts, info, vals);
    } else {
      SliceHoldsValue(parts[1..], info, vals, name, j);
      OldSliceHolds(parts, info, vals, s.fields[name].values[j], vals(name));
    }
  }

  lemma {:induction false} ScanStep(parts: seq<Part>, info: map<string, nat>)
    requires parts != [] && Scan(parts, info).Some?
    ensures Scan(parts[1..], info).Some? && Scan(parts, info) == Step(Scan(parts[1..], info).value, parts[0], info)
  {
  }

  lemma {:induction false} ContentOfField(s: State, p: Part, size: nat, vals: string -> nat)
    requires !p.Literal?
    ensures Content(s, p, size, vals) == Extract(vals(p.name), From(p, FieldOf(s, p.name)), size)
  {
  }

  /** A step keeps the slices and adds the one of its part. */
  lemma {:induction false} SliceOfStep(s: State, p: Part, info: map<string, nat>, name: string, j: nat)
    requires Step(s, p, info).Some? && name in Step(s, p, info).value.fields
    requires j < |Step(s, p, info).value.fields[name].values|
    ensures var sl := Step(s, p, info).value.fields[name].values[j];
            if !p.Literal? && p.name == name && j == |FieldOf(s, name).values|
            then sl == Slice(s.index, From(p, FieldOf(s, name)), Size(p, info).value)
            else name in s.fields && j < |s.fields[name].values| && sl == s.fields[name].values[j]
  {
    hide OrInt32, ShlInt32, BinaryValue, SliceMask, From, AddedBits;
  }

  function Gather(values: seq<Slice>, word: nat): nat {
    if values == [] then 0
    else
      var sl := values[|values| - 1];
      Gather(values[..|values| - 1], word) + At(Extract(word, sl.index, sl.size), sl.from)
  }

  /** The lowest `n` bits of a value. */
  function LowBits(v: nat, n: nat): nat {
    v % Pow2(n)
  }

  lemma {:induction false} LowBitsSplit(v: nat, a: nat, b: nat)
    ensures LowBits(v, a + b) == LowBits(v, a) + At(Extract(v, a, b), a)
  {
    Pow2Sum(a, b);
    hide Pow2;
    SplitRemainder(v, Pow2(a), Pow2(b));
  }

  lemma {:induction false} GatherPrefix(values: seq<Slice>, n: nat, word: nat, v: nat)
    requires n <= |values|
    requires forall j | 0 <= j < |values| :: values[j].from == Total(values[..j])
    requires forall j | 0 <= j < |values| ::
               Extract(word, values[j].index, values[j].size) == Extract(v, values[j].from, values[j].size)
    ensures Gather(values[..n], word) == LowBits(v, Total(values[..n]))
  {
    hide Extract, At;
    if n > 0 {
      GatherLast(values, n, word);
      hide Gather, Total, LowBits;
      GatherPrefix(values, n - 1, word, v);
      LowBitsSplit(v, Total(values[..n - 1]), values[n - 1].size);
    }
  }

  lemma {:induction false} GatherLast(values: seq<Slice>, n: nat, word: nat)
    requires 0 < n <= |values|
    ensures var sl := values[n - 1];
            && Gather(values[..n], word) == Gather(values[..n - 1], word) + At(Extract(word, sl.index, sl.size), sl.from)
            && Total(values[..n]) == Total(values[..n - 1]) + sl.size
  {
    hide Extract, At;
    assert values[..n][..n - 1] == values[..n - 1];
  }

  /** Gathering a field that is written with sizes only gives back the value put into it. */
  lemma {:induction false} GatherUndoesScatter(parts: seq<Part>, info: map<string, nat>, vals: string -> nat, name: string)
    requires Scan(parts, info).Some? && OnlySized(parts, name) && name in Scan(parts, info).value.fields
    ensures var f := Scan(parts, info).value.fields[name];
            && Gather(f.values, WordOf(parts, info, vals)) == LowBits(vals(name), f.bits)
            && (vals(name) < Pow2(f.bits) ==> Gather(f.values, WordOf(parts, info, vals)) == vals(name))
  {
    var f := Scan(parts, info).value.fields[name];
    var word := WordOf(parts, info, vals);
    SizedFieldsTile(parts, info, name);
    hide Scan, Extract, Pow2, WordOf;
    forall j | 0 <= j < |f.values|
      ensures Extract(word, f.values[j].index, f.values[j].size) == Extract(vals(name), f.values[j].from, f.values[j].size)
    {
      SliceHoldsValue(parts, info, vals, name, j);
    }
    assert f.values[..|f.values|] == f.values;
    GatherPrefix(f.values, |f.values|, word, vals(name));
    if vals(name) < Pow2(f.bits) { SmallMod(vals(name), Pow2(f.bits)); }
  }

  // --- Gathering any field ---

  /** What the slices keep of a value, put together again. */
  function Recombine(values: seq<Slice>, v: nat): nat {
    if values == [] then 0
    else
      var sl := values[|values| - 1];
      Recombine(values[..|values| - 1], v) + At(Extract(v, sl.from, sl.size), sl.from)
  }

  /** How many slices hold bit `b` of the value. */
  function Holders(values: seq<Slice>, b: nat): nat {
    if values == [] then 0
    else
      var sl := values[|values| - 1];
      Holders(values[..|values| - 1], b) + if sl.from <= b < sl.from + sl.size then 1 else 0
  }

  lemma {:induction false} GatherIsRecombine(values: seq<Slice>, word: nat, v: nat)
    requires forall j | 0 <= j < |values| ::
               Extract(word, values[j].index, values[j].size) == Extract(v, values[j].from, values[j].size)
    ensures Gather(values, word) == Recombine(values, v)
  {
    hide Extract, At;
    if values != [] {
      var n := |values| - 1;
      GatherIsRecombine(values[..n], word, v);
      assert Extract(word, values[n].index, values[n].size) == Extract(v, values[n].from, values[n].size);
    }
  }

  lemma {:induction false} SmallExtract(v: nat, from: nat, size: nat)
    requires v < Pow2(from)
    ensures Extract(v, from, size) == 0
  {
    hide Pow2;
    DivUnique(v, Pow2(from), 0, v);
    SmallMod(0, Pow2(size));
  }

  /** A slice that reaches the highest bits of a value holds all from its first bit on. */
  lemma {:induction false} TopExtract(v: nat, from: nat, top: nat, size: nat)
    requires v < Pow2(top) && from <= top <= from + size
    ensures Extract(v, from, size) == v / Pow2(from)
  {
    Pow2Sum(top - from, from);
    Pow2Grows(top - from, size);
    hide Pow2;
    DivMod(v, Pow2(from));
    if v / Pow2(from) >= Pow2(top - from) { MulMono(Pow2(top - from), v / Pow2(from), Pow2(from)); }
    SmallMod(v / Pow2(from), Pow2(size));
  }

  /** One more bit on top of a value, as a slice sees it. */
  lemma {:induction false} ExtractBit(v: nat, c: nat, b: nat, from: nat, size: nat)
    requires v < Pow2(b) && c < 2
    ensures At(Extract(v + At(c, b), from, size), from)
         == At(Extract(v, from, size), from) + if from <= b < from + size then At(c, b) else 0
  {
    BitFits(v, c, b);
    if b < from {
      Pow2Grows(b, from);
      Pow2Grows(b + 1, from);
      hide Pow2, Extract;
      SmallExtract(v, from, size);
      SmallExtract(v + At(c, b), from, size);
    } else if b >= from + size {
      hide Pow2, Extract, At;
      ExtractLow(v, c, b, from, size);
    } else {
      hide Pow2, Extract;
      TopExtract(v, from, b, size);
      TopExtract(v + At(c, b), from, b + 1, size);
      Pow2Sum(b - from, from);
      BitAbove(v, c, Pow2(b - from), Pow2(from));
    }
  }

  lemma {:induction false} BitFits(v: nat, c: nat, b: nat)
    requires v < Pow2(b) && c < 2
    ensures v + At(c, b) < Pow2(b + 1)
  {
    Pow2Next(b);
    hide Pow2;
    MulMono(c, 1, Pow2(b));
  }

  lemma {:induction false} BitAbove(v: nat, c: nat, p: nat, q: nat)
    requires q > 0
    ensures (v + c * (p * q)) / q * q == v / q * q + c * (p * q)
  {
    assert c * (p * q) == c * p * q;
    AddedQuotient(v, c * p, q);
    Distribute(v / q, c * p, q);
  }

  lemma {:induction false} RecombineBit(values: seq<Slice>, v: nat, c: nat, b: nat)
    requires v < Pow2(b) && c < 2
    ensures Recombine(values, v + At(c, b)) == Recombine(values, v) + Holders(values, b) * At(c, b)
  {
    hide Pow2, Extract, At;
    if values != [] {
      var init, sl := values[..|values| - 1], values[|values| - 1];
      RecombineBit(init, v, c, b);
      ExtractBit(v, c, b, sl.from, sl.size);
      Distribute(Holders(init, b), 1, At(c, b));
    }
  }

  lemma {:induction false} RecombineZero(values: seq<Slice>)
    ensures Recombine(values, 0) == 0
  {
    if values != [] {
      var sl := values[|values| - 1];
      RecombineZero(values[..|values| - 1]);
      hide Pow2, Extract;
      assert Pow2(sl.from) > 0;
      SmallExtract(0, sl.from, sl.size);
    }
  }

  lemma {:induction false} RecombineAll(values: seq<Slice>, n: nat, v: nat)
    requires v < Pow2(n) && HeldOnceEach(values, n)
    ensures Recombine(values, v) == v
  {
    if n == 0 {
      RecombineZero(values);
    } else {
      hide Pow2, Recombine, Holders, At;
      var low, c := TopBit(v, n - 1);
      RecombineAll(values, n - 1, low);
      RecombineBit(values, low, c, n - 1);
      assert Holders(values, n - 1) == 1;
    }
  }

  lemma {:induction false} TopBit(v: nat, n: nat) returns (low: nat, c: nat)
    requires v < Pow2(n + 1)
    ensures low < Pow2(n) && c < 2 && v == low + At(c, n)
  {
    var p := Pow2(n);
    Pow2Next(n);
    hide Pow2;
    DivMod(v, p);
    c, low := v / p, v % p;
    if c >= 2 { MulMono(2, c, p); }
  }

  /** Each of the lowest `n` bits is in one slice. */
  ghost predicate HeldOnceEach(values: seq<Slice>, n: nat) {
    forall b | 0 <= b < n :: Holders(values, b) == 1
  }

  /** Every value of `n` bits comes back. */
  ghost predicate Recombines(values: seq<Slice>, n: nat) {
    forall v: nat | v < Pow2(n) :: Recombine(values, v) == v
  }

  lemma {:induction false} RecombineExactly(values: seq<Slice>, n: nat)
    ensures Recombines(values, n) <==> HeldOnceEach(values, n)
  {
    hide Recombine, Holders, Pow2;
    if HeldOnceEach(values, n) {
      forall v: nat | v < Pow2(n) ensures Recombine(values, v) == v { RecombineAll(values, n, v); }
    }
    if Recombines(values, n) {
      forall b | 0 <= b < n ensures Holders(values, b) == 1 { HeldOnce(values, n, b); }
    }
  }

  lemma {:induction false} HeldOnce(values: seq<Slice>, n: nat, b: nat)
    requires b < n && Recombines(values, n)
    ensures Holders(values, b) == 1
  {
    Pow2Next(b);
    Pow2Grows(b + 1, n);
    hide Pow2, Recombine, Holders;
    assert At(1, b) == Pow2(b);
    RecombineZero(values);
    RecombineBit(values, 0, 1, b);
    var h, p := Holders(values, b), Pow2(b);
    assert h * p == p;
    if h > 1 { MulMono(2, h, p); }
  }

  lemma {:induction false} GatherOfWord(parts: seq<Part>, info: map<string, nat>, vals: string -> nat, name: string)
    requires Scan(parts, info).Some? && name in Scan(parts, info).value.fields
    ensures var values := Scan(parts, info).value.fields[name].values;
            Gather(values, WordOf(parts, info, vals)) == Recombine(values, vals(name))
  {
    var values := Scan(parts, info).value.fields[name].values;
    var word := WordOf(parts, info, vals);
    hide Scan, Extract, WordOf, Gather, Recombine;
    forall j | 0 <= j < |values|
      ensures Extract(word, values[j].index, values[j].size) == Extract(vals(name), values[j].from, values[j].size)
    {
      SliceHoldsValue(parts, info, vals, name, j);
    }
    GatherIsRecombine(values, word, vals(name));
  }

  /** Whatever the values of the other fields, gathering the field gives back a value of `n` bits. */
  ghost predicate GivesBack(parts: seq<Part>, info: map<string, nat>, name: string, n: nat)
    requires Scan(parts, info).Some? && name in Scan(parts, info).value.fields
  {
    forall vals: string -> nat | vals(name) < Pow2(n) ::
      Gather(Scan(parts, info).value.fields[name].values, WordOf(parts, info, vals)) == vals(name)
  }

  /** However a field is written: gathering it gives back every value of `n` bits that was put in exactly
      if each of these bits is in one of its slices. */
  lemma {:induction false} GatherGivesBack(parts: seq<Part>, info: map<string, nat>, name: string, n: nat)
    requires Scan(parts, info).Some? && name in Scan(parts, info).value.fields
    ensures GivesBack(parts, info, name, n) <==> HeldOnceEach(Scan(parts, info).value.fields[name].values, n)
  {
    var values := Scan(parts, info).value.fields[name].values;
    RecombineExactly(values, n);
    hide Scan, WordOf, Gather, Recombine, HeldOnceEach, Pow2;
    if Recombines(values, n) {
      forall vals: string -> nat | vals(name) < Pow2(n) ensures Gather(values, WordOf(parts, info, vals)) == vals(name) {
        GatherOfWord(parts, info, vals, name);
      }
    }
    if GivesBack(parts, info, name, n) {
      forall v: nat | v < Pow2(n) ensures Recombine(values, v) == v {
        RecombineOne(parts, info, name, n, v);
      }
    }
  }

  lemma {:induction false} RecombineOne(parts: seq<Part>, info: map<string, nat>, name: string, n: nat, v: nat)
    requires Scan(parts, info).Some? && name in Scan(parts, info).value.fields
    requires GivesBack(parts, info, name, n) && v < Pow2(n)
    ensures Recombine(Scan(parts, info).value.fields[name].values, v) == v
  {
    hide Scan, WordOf, Gather, Recombine, Pow2;
    var vals: string -> nat := _ => v;
    GatherOfWord(parts, info, vals, name);
    assert vals(name) == v;
  }

  // --- The program ---

  class Instruction {
    var opcodeValue: int
    var fields: map<string, Field>

    constructor ()
      ensures fields == map[]
    {
      opcodeValue, fields := 0, map[];
    }

    /** Reads the parts from the last to the first, then completes the fields. */
    method AssignOpcode(parts: seq<Part>, info: map<string, nat>) returns (ok: bool)
      requires fields == map[]
      modifies this
      ensures ok <==> Accepted(parts, info)
      ensures ok ==> var s := Scan(parts, info).value;
              && opcodeValue == NormalizeNumber(s.value) && fields.Keys == s.fields.Keys
              && forall name | name in fields :: Normalize(s.fields[name]) == Some(fields[name])
    {
      var opcodeIndex: nat, value: int := 0, 0;
      var dup: set<string> := {};
      var i: nat := |parts|;
      while i > 0
        invariant i <= |parts| && Scan(parts[i..], info) == Some(State(opcodeIndex, value, fields, dup))
      {
        i := i - 1;
        ScanNext(parts, info, i);
        hide Scan;
        var placed;
        placed, opcodeIndex, value, dup := AssignPart(parts[i], info, opcodeIndex, value, dup);
        if !placed { return false; }
      }
      assert parts[i..] == parts;
      hide Scan;
      var done := CompleteFields();
      if !done || opcodeIndex != 32 { return false; }
      opcodeValue := NormalizeNumber(value);
      return true;
    }

    method AssignPart(p: Part, info: map<string, nat>, index0: nat, value0: int, dup0: set<string>)
      returns (ok: bool, index: nat, value: int, dup: set<string>)
      modifies `fields
      ensures Step(State(index0, value0, old(fields), dup0), p, info)
           == if ok then Some(State(index, value, fields, dup)) else None
    {
      index, value, dup, ok := index0, value0, dup0, true;
      var size := Size(p, info);
      if size.None? { ok := false; return; }
      if p.Literal? {
        value := OrInt32(value, ShlInt32(BinaryValue(p.bits), index));
      } else {
        var field := if p.name in fields then fields[p.name] else NewField(index);
        var from := From(p, field);
        var bits := AddedBits(p, size.value, dup);
        if p.Plain? { dup := dup + {p.name}; }
        fields := fields[p.name := Field(field.index, field.values + [Slice(index, from, size.value)],
                                         field.bits + bits, OrInt32(field.mask, SliceMask(p, size.value)))];
      }
      index := index + size.value;
    }

    /** A field needs either sizes or ranges; what is missing is computed from the other. */
    method CompleteFields() returns (ok: bool)
      modifies `fields
      ensures ok <==> forall name | name in old(fields) :: Normalize(old(fields)[name]).Some?
      ensures ok ==> fields.Keys == old(fields).Keys
      ensures ok ==> forall name | name in fields :: Normalize(old(fields)[name]) == Some(fields[name])
    {
      var left := fields.Keys;
      hide Normalize;
      while left != {}
        invariant left <= fields.Keys && fields.Keys == old(fields).Keys
        invariant forall name | name in left :: fields[name] == old(fields)[name]
        invariant forall name | name in fields && name !in left :: Normalize(old(fields)[name]) == Some(fields[name])
        decreases |left|
      {
        var name :| name in left;
        var f := Normalize(fields[name]);
        if f.None? { return false; }
        fields := fields[name := f.value];
        left := left - {name};
      }
      return true;
    }
  }

  lemma {:induction false} ScanNext(parts: seq<Part>, info: map<string, nat>, i: nat)
    requires i < |parts| && Scan(parts[i + 1..], info).Some?
    ensures Scan(parts[i..], info) == Step(Scan(parts[i + 1..], info).value, parts[i], info)
    ensures Scan(parts[i..], info).None? ==> Scan(parts, info).None?
  {
    assert parts[i..][1..] == parts[i + 1..];
    if Scan(parts[i..], info).None? { FailsBefore(parts, info, i); }
  }

  lemma {:induction false} FailsBefore(parts: seq<Part>, info: map<string, nat>, i: nat)
    requires i <= |parts| && Scan(parts[i..], info).None?
    ensures Scan(parts, info).None?
  {
    if i > 0 {
      assert parts[1..][i - 1..] == parts[i..];
      FailsBefore(parts[1..], info, i - 1);
    } else {
      assert parts[0..] == parts;
    }
  }
}
