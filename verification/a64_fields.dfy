/** The finished fields of an AArch64 opcode (db/aarch64.js): how many bits they have, and which bits their
    masks cover. */
module A64Fields {
  import opened Bits
  import opened WordBits
  import opened A64Opcode
  import opened Wrappers

  /** The field that the program hands on. */
  function Finished(parts: seq<Part>, info: map<string, nat>, name: string): Field
    requires Accepted(parts, info) && name in Scan(parts, info).value.fields
  {
    Normalize(Scan(parts, info).value.fields[name]).value
  }

  // --- Fields written with sizes, or by their names alone ---

  predicate HasNoPlaces(parts: seq<Part>, name: string) {
    forall k | 0 <= k < |parts| :: parts[k].Literal? || parts[k].name != name || parts[k].Sized? || parts[k].Plain?
  }

  /** The sizes given for the field, added up. A name alone stands for its standard size or for one bit,
      and counts once. */
  function SizesOf(parts: seq<Part>, info: map<string, nat>, name: string): nat {
    if parts == [] then 0
    else
      var rest := SizesOf(parts[1..], info, name);
      match parts[0]
      case Sized(n, size) => if n == name then rest + size else rest
      case Plain(n) =>
        if n != name || Plain(name) in parts[1..] then rest else rest + if name in info then info[name] else 1
      case _ => rest
  }

  lemma {:induction false} NamesAlone(parts: seq<Part>, info: map<string, nat>, name: string)
    requires Scan(parts, info).Some?
    ensures name in Scan(parts, info).value.dup <==> Plain(name) in parts
  {
    if parts != [] {
      NamesAlone(parts[1..], info, name);
      assert parts == [parts[0]] + parts[1..];
      hide AddSlice, OrInt32, ShlInt32, BinaryValue;
    }
  }

  lemma {:induction false} SizesAreBits(parts: seq<Part>, info: map<string, nat>, name: string)
    requires Scan(parts, info).Some? && HasNoPlaces(parts, name)
    ensures var s := Scan(parts, info).value;
            if name in s.fields then s.fields[name].mask == 0 && s.fields[name].bits == SizesOf(parts, info, name)
            else SizesOf(parts, info, name) == 0
    ensures SizesOf(parts, info, name) <= Width(parts, info)
  {
    if parts != [] {
      assert HasNoPlaces(parts[1..], name);
      SizesAreBits(parts[1..], info, name);
      NamesAlone(parts[1..], info, name);
      OrOfZeros();
      hide From, OrInt32, ShlInt32, BinaryValue;
    }
  }

  /** A field written with sizes or by its name alone has the sum of its sizes as the number of its bits,
      and a mask of just these bits exactly if there are at most 30. */
  lemma {:induction false} SizedField(parts: seq<Part>, info: map<string, nat>, name: string)
    requires Accepted(parts, info) && name in Scan(parts, info).value.fields && HasNoPlaces(parts, name)
    ensures var f := Finished(parts, info, name);
            && f.values != [] && f.index == f.values[0].index
            && 0 < f.bits == SizesOf(parts, info, name) <= 32
            && (f.mask == Pow2(f.bits) - 1 <==> f.bits <= 30)
  {
    SizesAreBits(parts, info, name);
    FieldIndex(parts, info, name);
    IndexIsWidth(parts, info);
    hide Scan, SizesOf, Width, ShlInt32, Pow2;
    FieldMask(Finished(parts, info, name).bits);
  }

  // --- Fields written with ranges and single bits ---

  predicate HasOnlyPlaces(parts: seq<Part>, name: string) {
    forall k | 0 <= k < |parts| :: parts[k].Literal? || parts[k].name != name || parts[k].Range? || parts[k].Single?
  }

  /** A bit of the field is in the slice. Places from 32 on wrap around, and the mask of a slice of 32 bits
      overflows to nothing. */
  predicate InSlice(sl: Slice, b: nat) {
    sl.size < 32 && sl.from % 32 <= b < sl.from % 32 + sl.size
  }

  ghost predicate InSomeSlice(values: seq<Slice>, b: nat) {
    exists j | 0 <= j < |values| :: InSlice(values[j], b)
  }

  /** The slices as they are written, the rightmost first. */
  function WrittenSlices(parts: seq<Part>, info: map<string, nat>, name: string): seq<Slice> {
    if parts == [] then []
    else
      var rest, index := WrittenSlices(parts[1..], info, name), Width(parts[1..], info);
      match parts[0]
      case Range(n, hi, lo) => if n == name && lo <= hi then rest + [Slice(index, lo, hi + 1 - lo)] else rest
      case Single(n, at) => if n == name then rest + [Slice(index, at, 1)] else rest
      case _ => rest
  }

  lemma {:induction false} SlicesAreWritten(parts: seq<Part>, info: map<string, nat>, name: string)
    requires Scan(parts, info).Some? && HasOnlyPlaces(parts, name)
    ensures var s := Scan(parts, info).value;
            WrittenSlices(parts, info, name) == if name in s.fields then s.fields[name].values else []
  {
    if parts != [] {
      assert HasOnlyPlaces(parts[1..], name);
      SlicesAreWritten(parts[1..], info, name);
      IndexIsWidth(parts[1..], info);
      hide AddedBits, SliceMask, OrInt32, ShlInt32, BinaryValue;
    }
  }

  /** A field begins where its rightmost slice does. */
  lemma {:induction false} FieldIndex(parts: seq<Part>, info: map<string, nat>, name: string)
    requires Scan(parts, info).Some? && name in Scan(parts, info).value.fields
    ensures var f := Scan(parts, info).value.fields[name]; f.values != [] && f.index == f.values[0].index
  {
    assert parts != [];
    hide From, AddedBits, SliceMask, OrInt32, ShlInt32, BinaryValue;
    if name in Scan(parts[1..], info).value.fields { FieldIndex(parts[1..], info, name); }
  }

  lemma {:induction false} OnesBelow(size: nat, c: nat)
    requires size <= 32 && c < 32
    ensures Bit32(ShlInt32(1, size) - 1, c) <==> size < 32 && c < size
  {
    NoBits(c);
    if size == 32 {
      assert ShlInt32(1, 32) == 1;
    } else {
      ShlOfOne(size);
      BitOfOnes(size, c);
      hide Pow2, BitAt, ShlInt32;
    }
  }

  lemma {:induction false} ShlOfOne(size: nat)
    requires size < 32
    ensures (ShlInt32(1, size) - 1) % TWO_32 == Pow2(size) - 1
  {
    Pow2Values();
    Pow2Grows(size, 31);
    hide Pow2;
    assert size % 32 == size && 1 % TWO_32 == 1;
  }

  lemma {:induction false} OneBit(b: nat)
    requires b < 32
    ensures Bit32(1, b) <==> b == 0
  {
    BitOfOnes(1, b);
    assert Pow2(1) == 2 * Pow2(0);
  }

  lemma {:induction false} SliceMaskBits(p: Part, size: nat, b: nat)
    requires (p.Range? || p.Single?) && size <= 32 && b < 32 && (p.Single? ==> size == 1)
    ensures Bit32(SliceMask(p, size), b) <==> InSlice(Slice(0, From(p, NewField(0)), size), b)
  {
    hide ShlInt32, Bit32;
    match p
    case Range(_, _, lo) =>
      ShlBits(ShlInt32(1, size) - 1, lo, b);
      if b >= lo % 32 { OnesBelow(size, b - lo % 32); }
    case Single(_, at) =>
      ShlBits(1, at, b);
      if b >= at % 32 { OneBit(b - at % 32); }
  }

  lemma {:induction false} MaskBits(parts: seq<Part>, info: map<string, nat>, name: string, b: nat)
    requires Scan(parts, info).Some? && Width(parts, info) <= 32 && HasOnlyPlaces(parts, name) && b < 32
    ensures var s := Scan(parts, info).value;
            name in s.fields ==>
              && s.fields[name].bits == 0 && IsInt32(s.fields[name].mask)
              && (Bit32(s.fields[name].mask, b) <==> InSomeSlice(s.fields[name].values, b))
  {
    if parts != [] {
      assert HasOnlyPlaces(parts[1..], name);
      MaskBits(parts[1..], info, name, b);
      ScanStep(parts, info);
      hide Scan, Bit32;
      MaskStep(Scan(parts[1..], info).value, parts[0], info, name, b);
    }
  }

  lemma {:induction false} MaskStep(s: State, p: Part, info: map<string, nat>, name: string, b: nat)
    requires Step(s, p, info).Some? && Size(p, info).value <= 32 && b < 32
    requires p.Literal? || p.name != name || p.Range? || p.Single?
    requires name in s.fields ==>
               && s.fields[name].bits == 0 && IsInt32(s.fields[name].mask)
               && (Bit32(s.fields[name].mask, b) <==> InSomeSlice(s.fields[name].values, b))
    ensures var t := Step(s, p, info).value;
            name in t.fields ==>
              && t.fields[name].bits == 0 && IsInt32(t.fields[name].mask)
              && (Bit32(t.fields[name].mask, b) <==> InSomeSlice(t.fields[name].values, b))
  {
    hide Bit32, OrInt32, ShlInt32, BinaryValue;
    if !p.Literal? && p.name == name {
      var f, size := FieldOf(s, name), Size(p, info).value;
      var g := AddSlice(s, p, size);
      NewFieldHasNoBits(s.index, b);
      OrBits(f.mask, SliceMask(p, size), b);
      SliceMaskBits(p, size, b);
      var sl := Slice(s.index, From(p, f), size);
      OneMoreSlice(f.values, sl, b);
      assert InSlice(sl, b) <==> InSlice(Slice(0, From(p, NewField(0)), size), b);
      hide InSomeSlice, InSlice, SliceMask;
      OrIsInt32(f.mask, SliceMask(p, size));
    }
  }

  lemma {:induction false} OneMoreSlice(values: seq<Slice>, sl: Slice, b: nat)
    ensures InSomeSlice(values + [sl], b) <==> InSomeSlice(values, b) || InSlice(sl, b)
  {
    hide InSlice;
    assert (values + [sl])[|values|] == sl;
    if InSomeSlice(values, b) {
      var j :| 0 <= j < |values| && InSlice(values[j], b);
      assert (values + [sl])[j] == values[j];
    }
  }

  lemma {:induction false} NewFieldHasNoBits(index: nat, b: nat)
    ensures !Bit32(NewField(index).mask, b) && !InSomeSlice(NewField(index).values, b)
  {
    NoBits(b);
  }

  lemma {:induction false} OrIsInt32(a: int, c: int)
    ensures IsInt32(OrInt32(a, c))
  {
    hide BitOr;
  }

  lemma {:induction false} BitLengthIsHighest(x: nat)
    requires x > 0
    ensures BitLength(x) > 0 && BitAt(x, BitLength(x) - 1)
    ensures forall b: nat | b >= BitLength(x) :: !BitAt(x, b)
  {
    if x == 1 {
      forall b: nat | b >= BitLength(x) ensures !BitAt(x, b) { NoBits(b - 1); }
    } else {
      BitLengthIsHighest(x / 2);
    }
  }

  lemma {:induction false} HighestOfMask(mask: int)
    requires IsInt32(mask) && mask != 0
    ensures var bits := BitLength(mask % TWO_32);
            0 < bits <= 32 && Bit32(mask, bits - 1) && forall b: nat | bits <= b < 32 :: !Bit32(mask, b)
  {
    var u := mask % TWO_32;
    BitLengthIsHighest(u);
    hide BitLength, BitAt;
    if BitLength(u) > 32 { NoBitBeyond(u, BitLength(u) - 1); }
  }

  lemma {:induction false} AllMaskBits(parts: seq<Part>, info: map<string, nat>, name: string)
    requires Scan(parts, info).Some? && Width(parts, info) <= 32 && HasOnlyPlaces(parts, name)
    requires name in Scan(parts, info).value.fields
    ensures var f := Scan(parts, info).value.fields[name];
            && f.bits == 0 && IsInt32(f.mask)
            && forall b: nat | b < 32 :: Bit32(f.mask, b) <==> InSomeSlice(f.values, b)
  {
    var f := Scan(parts, info).value.fields[name];
    hide Scan, Width, Bit32, InSomeSlice, HasOnlyPlaces;
    MaskBits(parts, info, name, 0);
    forall b: nat | b < 32 ensures Bit32(f.mask, b) <==> InSomeSlice(f.values, b) {
      MaskBits(parts, info, name, b);
    }
  }

  /** A field written with ranges and single bits has a mask of just the bits that are in its slices, and as
      many bits as it takes to reach the highest of them. */
  lemma {:induction false} PlacedField(parts: seq<Part>, info: map<string, nat>, name: string)
    requires Accepted(parts, info) && name in Scan(parts, info).value.fields && HasOnlyPlaces(parts, name)
    ensures var f := Finished(parts, info, name);
            && f.values == WrittenSlices(parts, info, name) != [] && f.index == f.values[0].index
            && (forall b: nat | b < 32 :: Bit32(f.mask, b) <==> InSomeSlice(f.values, b))
            && 0 < f.bits <= 32 && InSomeSlice(f.values, f.bits - 1)
            && forall b: nat | f.bits <= b < 32 :: !InSomeSlice(f.values, b)
  {
    var f := Scan(parts, info).value.fields[name];
    hide Scan, InSomeSlice, Bit32, BitLength, HasOnlyPlaces, WrittenSlices;
    IndexIsWidth(parts, info);
    SlicesAreWritten(parts, info, name);
    FieldIndex(parts, info, name);
    AllMaskBits(parts, info, name);
    HighestOfMask(f.mask);
  }
}
