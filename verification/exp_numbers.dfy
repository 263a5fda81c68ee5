/** When the tokenizer of db/exp.js takes a bar for a part of a number: the character classes of its
    number expression contain one. */
module ExpNumbers {
  import opened ExpSyntax
  import opened ExpLexer
  import Bits

  /** The text begins with a decimal number. */
  predicate StartsNumber(s: string) {
    (DigitAt(s, 0) && !IsHexStart(s)) || IsDotNumber(s)
  }

  /** An exponent as the program reads it, with a bar for its letter or its sign: `E`, `e` or a bar,
      then a plus, a minus, a bar or nothing, then a digit. */
  predicate BarExponent(t: string) {
    && t != "" && t[0] in "E|e"
    && if DigitAt(t, 1) then t[0] == '|'
       else |t| > 1 && t[1] in "+|-" && DigitAt(t, 2) && '|' in t[..2]
  }

  lemma {:induction false} DigitsHaveNoBar(s: string)
    ensures '|' !in s[..DigitSpan(s)]
  {
    if s != "" && IsDigit(s[0]) {
      DigitsHaveNoBar(s[1..]);
      assert s[..DigitSpan(s)] == [s[0]] + s[1..][..DigitSpan(s[1..])];
    }
  }

  lemma {:induction false} MantissaHasNoBar(s: string)
    ensures '|' !in s[..MantissaSpan(s)]
  {
    var d, m := DigitSpan(s), MantissaSpan(s);
    DigitsHaveNoBar(s);
    if m > d {
      DigitsHaveNoBar(s[d + 1..]);
      assert s[..m] == s[..d] + "." + s[d + 1..][..m - d - 1];
    }
  }

  lemma {:induction false} BarInExponent(t: string)
    ensures '|' in t[..ExponentSpan(t)] <==> BarExponent(t)
    ensures t != "" && t[0] == '|' && !BarExponent(t) ==> ExponentSpan(t) == 0
  {
    var n := ExponentSpan(t);
    if n > 0 {
      var k := if DigitAt(t, 1) then 1 else 2;
      DigitsHaveNoBar(t[k..]);
      assert t[..n] == t[..k] + t[k..][..n - k];
      assert k == 1 ==> t[..k] == [t[0]];
    }
  }

  lemma {:induction false} DigitsOfPrefix(s: string, n: nat)
    requires DigitSpan(s) <= n <= |s|
    ensures DigitSpan(s[..n]) == DigitSpan(s)
  {
    if s != "" && IsDigit(s[0]) {
      assert s[..n][1..] == s[1..][..n - 1];
      DigitsOfPrefix(s[1..], n - 1);
    }
  }

  lemma {:induction false} MantissaOfPrefix(s: string, n: nat)
    requires MantissaSpan(s) <= n <= |s|
    ensures MantissaSpan(s[..n]) == MantissaSpan(s)
  {
    var d := DigitSpan(s);
    DigitsOfPrefix(s, n);
    if MantissaSpan(s) > d {
      assert s[..n][d + 1..] == s[d + 1..][..n - d - 1];
      DigitsOfPrefix(s[d + 1..], n - d - 1);
    } else if d + 1 < n {
      assert s[..n][d + 1] == s[d + 1];
    }
  }

  lemma {:induction false} BarInSpan(s: string)
    ensures var m, n := MantissaSpan(s), NumberSpan(s);
            && ('|' in s[..n] <==> BarExponent(s[m..]))
            && (m < |s| && s[m] == '|' && !BarExponent(s[m..]) ==> n == m)
  {
    hide MantissaSpan, ExponentSpan, BarExponent;
    var m, n := MantissaSpan(s), NumberSpan(s);
    MantissaHasNoBar(s);
    BarInExponent(s[m..]);
    assert s[..n] == s[..m] + s[m..][..n - m];
  }

  lemma {:induction false} ValueWithBar(s: string)
    ensures var m, n := MantissaSpan(s), NumberSpan(s);
            '|' in s[..n] ==> NumberOf(s[..n]) == NumberOf(s[..m])
  {
    var m, n := MantissaSpan(s), NumberSpan(s);
    hide MantissaSpan, ExponentSpan;
    MantissaHasNoBar(s);
    MantissaOfPrefix(s, n);
    assert s[..n][..m] == s[..m];
  }

  /** Wherever a number is read: it takes a bar with it exactly if its mantissa is followed by an
      exponent with a bar, and then its value is that of the mantissa alone. Any other bar behind the
      mantissa is left for the operators. */
  lemma {:induction false} BarInNumber(g: Table, s: string)
    requires StartsNumber(s)
    ensures var m, n := MantissaSpan(s), NumberSpan(s);
            && Lex(g, s) == Prepend([Value(s[..n], NumberOf(s[..n]))], Lex(g, s[n..]))
            && ('|' in s[..n] <==> BarExponent(s[m..]))
            && ('|' in s[..n] ==> NumberOf(s[..n]) == NumberOf(s[..m]))
            && (m < |s| && s[m] == '|' && !BarExponent(s[m..]) ==> n == m)
  {
    hide MantissaSpan, NumberSpan, NumberOf, BarExponent, FirstOperator;
    NumberIsLexed(g, s);
    hide Lex;
    BarInSpan(s);
    ValueWithBar(s);
  }

  lemma {:induction false} NumberIsLexed(g: Table, s: string)
    requires StartsNumber(s)
    ensures Lex(g, s) == LexNumber(g, s)
  {
    hide LexNumber, FirstOperator;
  }

  predicate IsDigits(s: string) {
    s != "" && forall i | 0 <= i < |s| :: IsDigit(s[i])
  }

  // --- A bar behind a number ---

  predicate BarFirst(s: string) {
    s != "" && s[0] == '|'
  }

  lemma {:induction false} DigitsBeforeBar(a: string, tail: string)
    requires BarFirst(tail)
    ensures DigitSpan(a + tail) == DigitSpan(a)
  {
    if a != "" {
      assert (a + tail)[1..] == a[1..] + tail;
      DigitsBeforeBar(a[1..], tail);
    } else {
      assert a + tail == tail;
    }
  }

  lemma {:induction false} MantissaBeforeBar(a: string, tail: string)
    requires BarFirst(tail)
    ensures MantissaSpan(a + tail) == MantissaSpan(a)
  {
    var s, d := a + tail, DigitSpan(a);
    DigitsBeforeBar(a, tail);
    if d < |a| {
      assert s[d] == a[d] && s[d + 1..] == a[d + 1..] + tail;
      DigitsBeforeBar(a[d + 1..], tail);
      hide DigitSpan;
      assert DigitAt(s, d + 1) == DigitAt(a, d + 1);
    }
  }

  lemma {:induction false} ExponentBeforeBar(x: string, tail: string)
    requires BarFirst(tail) && x != "" && ExponentSpan(x) == |x|
    ensures ExponentSpan(x + tail) == |x|
  {
    var k := if DigitAt(x, 1) then 1 else 2;
    assert (x + tail)[k..] == x[k..] + tail;
    DigitsBeforeBar(x[k..], tail);
    hide DigitSpan;
    assert DigitAt(x + tail, 1) == DigitAt(x, 1);
    assert k == 2 ==> (x + tail)[1] == x[1] && DigitAt(x + tail, 2);
  }

  lemma {:induction false} StartBeforeBar(a: string, tail: string)
    requires BarFirst(tail) && StartsNumber(a)
    ensures StartsNumber(a + tail)
  {
    var s := a + tail;
    assert s[0] == a[0] && (|a| > 1 ==> s[1] == a[1] && s[1..] == a[1..] + tail);
    assert |a| > 2 ==> s[2] == a[2];
  }

  /** A bar, perhaps a sign, and digits. */
  lemma {:induction false} BarAndNumberSpan(sign: string, b: string, rest: string)
    requires IsDigits(b) && sign in {"", "|", "+", "-"} && !DigitAt(rest, 0)
    ensures ExponentSpan("|" + sign + b + rest) == |"|" + sign + b|
  {
    var t, k := "|" + sign + b + rest, 1 + |sign|;
    assert t[k..] == b + rest && (k == 2 ==> t[1] == sign[0]);
    DigitSpanOf(b, rest);
    hide DigitSpan;
    assert DigitAt(t, k);
  }

  /** A bar and a digit, perhaps with a sign or another bar between them, behind the digits or the
      fraction of a number: the bar is no operator, whatever the operators are, and what follows it is
      lost. */
  lemma {:induction false} BarBetweenNumbers(g: Table, a: string, sign: string, b: string, rest: string)
    requires StartsNumber(a) && MantissaSpan(a) == |a|
    requires IsDigits(b) && !DigitAt(rest, 0) && sign in {"", "|", "+", "-"}
    ensures var t := a + "|" + sign + b; Lex(g, t + rest) == Prepend([Value(t, NumberOf(a))], Lex(g, rest))
  {
    var t, tail := a + "|" + sign + b, "|" + sign + b + rest;
    BarAndNumberSpan(sign, b, rest);
    hide Lex, MantissaSpan, ExponentSpan, NumberOf, StartsNumber, IsDigits, DigitAt;
    JoinTexts(a, sign, b, rest);
    assert BarFirst(tail);
    StartBeforeBar(a, tail);
    MantissaBeforeBar(a, tail);
    FirstNumber(g, a, tail, t, rest);
  }

  lemma {:induction false} JoinTexts(a: string, sign: string, b: string, rest: string)
    ensures var t, tail := a + "|" + sign + b, "|" + sign + b + rest;
            && t + rest == a + tail && |t| == |a| + |"|" + sign + b| && tail[0] == '|'
            && (a + tail)[..|t|] == t && (a + tail)[|t|..] == rest && (a + tail)[|a|..] == tail
  {
    assert a + ("|" + sign + b + rest) == a + "|" + sign + b + rest;
  }

  /** The number at the front, whose mantissa is `a` and whose exponent has a bar. */
  lemma {:induction false} FirstNumber(g: Table, a: string, tail: string, t: string, rest: string)
    requires StartsNumber(a + tail) && MantissaSpan(a + tail) == |a| && (a + tail)[|a|..] == tail && BarFirst(tail)
    requires |t| == |a| + ExponentSpan(tail) > |a| && |t| <= |a + tail| && (a + tail)[..|t|] == t && (a + tail)[|t|..] == rest
    ensures Lex(g, a + tail) == Prepend([Value(t, NumberOf(a))], Lex(g, rest))
  {
    var s := a + tail;
    assert NumberSpan(s) == |t| && s[..|a|] == a;
    assert t[|a|] == s[|a|] == '|';
    hide Lex, MantissaSpan, ExponentSpan, NumberSpan, NumberOf, BarExponent, DigitAt, IsHexStart, IsDotNumber;
    BarInNumber(g, s);
    assert '|' in s[..NumberSpan(s)];
  }

  /** For digits only: the text is one number, the first one. */
  lemma {:induction false} BarBetweenDigits(g: Table, a: string, sign: string, b: string)
    requires IsDigits(a) && IsDigits(b) && sign in {"", "|", "+", "-"}
    ensures var s := a + "|" + sign + b; Lex(g, s) == Tokens([Value(s, Int(Decimal(a)))])
  {
    assert Lex(g, "") == Tokens([]) && a + "" == a;
    NumberOfDigits(a);
    hide Lex, NumberOf;
    assert StartsNumber(a) && MantissaSpan(a) == |a| by { DigitSpanOf(a, ""); }
    BarBetweenNumbers(g, a, sign, b, "");
    assert a + "|" + sign + b + "" == a + "|" + sign + b;
  }

  lemma {:induction false} NumberOfDigits(a: string)
    requires IsDigits(a)
    ensures NumberOf(a) == Int(Decimal(a))
  {
    assert '|' !in a;
  }

  // --- Where the bar is an operator ---

  /** Text that begins with a bar is read as an operator. */
  lemma {:induction false} BarIsOperator(g: Table, tail: string)
    requires BarFirst(tail)
    ensures var n := FirstOperator(g, tail);
            && 0 < n <= |tail| && tail[..n][0] == '|'
            && Lex(g, tail) == Prepend([Punct(tail[..n])], Lex(g, tail[n..]))
  {
    hide FirstOperator;
  }

  /** Behind a number that has an exponent already, a bar is an operator. */
  lemma {:induction false} BarAfterExponent(g: Table, a: string, tail: string)
    requires StartsNumber(a) && MantissaSpan(a) < |a| == NumberSpan(a) && BarFirst(tail)
    ensures Lex(g, a + tail) == Prepend([Value(a, NumberOf(a))], Lex(g, tail))
  {
    var s, m := a + tail, MantissaSpan(a);
    assert s[m..] == a[m..] + tail && s[..|a|] == a && s[|a|..] == tail;
    hide Lex, MantissaSpan, ExponentSpan, NumberOf, BarExponent, StartsNumber;
    StartBeforeBar(a, tail);
    MantissaBeforeBar(a, tail);
    ExponentBeforeBar(a[m..], tail);
    NumberSpanIs(s, m, |a|);
    ReadsNumberFirst(g, s);
  }

  lemma {:induction false} NumberSpanIs(s: string, m: nat, n: nat)
    requires m <= n <= |s| && MantissaSpan(s) == m && ExponentSpan(s[m..]) == n - m
    ensures NumberSpan(s) == n
  {
  }

  lemma {:induction false} ReadsNumberFirst(g: Table, s: string)
    requires StartsNumber(s)
    ensures var n := NumberSpan(s); Lex(g, s) == Prepend([Value(s[..n], NumberOf(s[..n]))], Lex(g, s[n..]))
  {
    hide MantissaSpan, NumberSpan, NumberOf, FirstOperator;
    NumberIsLexed(g, s);
  }

  lemma {:induction false} HexBeforeBar(h: string, tail: string, number: int, length: nat)
    requires BarFirst(tail) && (h != "" || length > 0) && forall i | 0 <= i < |h| :: HexDigit(h[i]) >= 0
    ensures ParseHex(h + tail, number, length) == ParseHex(h, number, length)
    ensures ParseHex(h, number, length).Hex? && ParseHex(h, number, length).length == length + |h|
  {
    if h != "" {
      assert (h + tail)[1..] == h[1..] + tail;
      HexBeforeBar(h[1..], tail, Bits.ToInt32(16 * number + HexDigit(h[0])), length + 1);
    } else {
      assert h + tail == tail;
    }
  }

  /** Behind a hexadecimal number, a bar is an operator. */
  lemma {:induction false} BarAfterHex(g: Table, h: string, tail: string)
    requires h != "" && BarFirst(tail) && forall i | 0 <= i < |h| :: HexDigit(h[i]) >= 0
    ensures var number := ParseHex(h, 0, 0);
            number.Hex? && Lex(g, "0x" + h + tail) == Prepend([Value("0x" + h, Int(number.number))], Lex(g, tail))
  {
    var s, n := "0x" + h + tail, 2 + |h|;
    HexBeforeBar(h, tail, 0, 0);
    assert s[2..] == h + tail && s[..n] == "0x" + h && s[n..] == tail;
    hide ParseHex, FirstOperator, NumberSpan, NumberOf;
    assert IsHexStart(s) && CategoryOf(s[0]) == Digit;
    assert Lex(g, s) == LexHex(g, s);
  }

  // --- Hexadecimal numbers ---

  const HEX_LOWER := "0123456789abcdef"
  const HEX_UPPER := "0123456789ABCDEF"

  /** The text spells the digits, in letters of either case. */
  predicate Spells(h: string, ds: seq<nat>) {
    && |h| == |ds|
    && forall i | 0 <= i < |ds| :: ds[i] < 16 && (h[i] == HEX_LOWER[ds[i]] || h[i] == HEX_UPPER[ds[i]])
  }

  function HexValue(ds: seq<nat>): nat {
    if ds == [] then 0 else 16 * HexValue(ds[..|ds| - 1]) + ds[|ds| - 1]
  }

  lemma {:induction false} DigitOfSpelling(c: char, d: nat)
    requires d < 16 && (c == HEX_LOWER[d] || c == HEX_UPPER[d])
    ensures HexDigit(c) == d
  {
    if d < 10 {
      assert c == "0123456789"[d];
    } else {
      assert c == "abcdef"[d - 10] || c == "ABCDEF"[d - 10];
    }
  }

  lemma {:induction false} NoDigit(c: char)
    requires c !in HEX_LOWER && c !in HEX_UPPER
    ensures HexDigit(c) == -1
  {
  }

  lemma {:induction false} Wraps(x: int, k: int)
    ensures Bits.ToInt32(x - k * Bits.TWO_32) == Bits.ToInt32(x)
  {
    assert (x - k * Bits.TWO_32) % Bits.TWO_32 == x % Bits.TWO_32;
  }

  lemma {:induction false} NextHexValue(x: nat, d: nat)
    ensures Bits.ToInt32(16 * Bits.ToInt32(x) + d) == Bits.ToInt32(16 * x + d)
  {
    var q := x / Bits.TWO_32;
    var k := if x % Bits.TWO_32 >= 0x8000_0000 then q + 1 else q;
    assert Bits.ToInt32(x) == x - k * Bits.TWO_32;
    hide Bits.ToInt32;
    Wraps(16 * x + d, 16 * k);
  }

  /** No digit begins the text. */
  predicate NoDigitFirst(rest: string) {
    rest == "" || (rest[0] !in HEX_LOWER && rest[0] !in HEX_UPPER)
  }

  lemma {:induction false} ReadsDigit(s: string, number: int, length: nat)
    requires s != "" && HexDigit(s[0]) >= 0
    ensures ParseHex(s, number, length) == ParseHex(s[1..], Bits.ToInt32(16 * number + HexDigit(s[0])), length + 1)
  {
    hide HexDigit, Bits.ToInt32;
  }

  /** The value of digits behind others whose value is `v`. */
  function ValueAfter(v: nat, ds: seq<nat>): nat
    decreases |ds|
  {
    if ds == [] then v else ValueAfter(16 * v + ds[0], ds[1..])
  }

  lemma {:induction false} ValueOfAll(ds: seq<nat>, k: nat)
    requires k <= |ds|
    ensures ValueAfter(HexValue(ds[..k]), ds[k..]) == HexValue(ds)
    decreases |ds| - k
  {
    if k == |ds| {
      assert ds[..k] == ds;
    } else {
      assert ds[..k + 1][..k] == ds[..k] && ds[k..][1..] == ds[k + 1..];
      ValueOfAll(ds, k + 1);
    }
  }

  lemma {:induction false} EndOfHex(rest: string, number: int, length: nat)
    requires NoDigitFirst(rest) && length > 0
    ensures ParseHex(rest, number, length) == if rest != "" && 'g' <= rest[0] <= 'z' then BadHex else Hex(number, length)
  {
    if rest != "" { NoDigit(rest[0]); }
    hide HexDigit, Bits.ToInt32;
  }

  /** Reading digits when `length` others have been read. */
  lemma {:induction false} ReadsHex(h: string, ds: seq<nat>, rest: string, v: nat, length: nat)
    requires Spells(h, ds) && length + |ds| > 0 && NoDigitFirst(rest)
    ensures ParseHex(h + rest, Bits.ToInt32(v), length)
         == if rest != "" && 'g' <= rest[0] <= 'z' then BadHex else Hex(Bits.ToInt32(ValueAfter(v, ds)), length + |ds|)
    decreases |ds|
  {
    hide HexDigit, Bits.ToInt32, ParseHex, NoDigitFirst;
    if ds == [] {
      EndOfHex(rest, Bits.ToInt32(v), length);
      assert h + rest == rest;
    } else {
      DigitOfSpelling(h[0], ds[0]);
      NextHexValue(v, ds[0]);
      assert (h + rest)[1..] == h[1..] + rest;
      ReadsDigit(h + rest, Bits.ToInt32(v), length);
      ReadsHex(h[1..], ds[1..], rest, 16 * v + ds[0], length + 1);
    }
  }

  /** Hexadecimal digits, up to the next character that is none, are read as the 32-bit integer with these
      digits; a letter from `g` to `z` behind them is an error. */
  lemma {:induction false} HexNumber(g: Table, h: string, ds: seq<nat>, rest: string)
    requires Spells(h, ds) && ds != [] && NoDigitFirst(rest)
    ensures Lex(g, "0x" + h + rest)
         == if rest != "" && 'g' <= rest[0] <= 'z' then Fail(InvalidHexNumber)
            else Prepend([Value("0x" + h, Int(Bits.ToInt32(HexValue(ds))))], Lex(g, rest))
  {
    var s, n := "0x" + h + rest, 2 + |h|;
    ReadsHex(h, ds, rest, 0, 0);
    ValueOfAll(ds, 0);
    assert ds[0..] == ds && ds[..0] == [] && Bits.ToInt32(0) == 0;
    assert s[2..] == h + rest && s[..n] == "0x" + h && s[n..] == rest;
    hide ParseHex, FirstOperator, NumberSpan, NumberOf;
    assert IsHexStart(s) && CategoryOf(s[0]) == Digit;
    assert Lex(g, s) == LexHex(g, s);
  }
}
