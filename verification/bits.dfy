/** Bit operations on unsigned words, written as arithmetic. */
module Bits {

  const TWO_32 := 0x1_0000_0000

  function Pow2(n: nat): (p: nat)
    ensures p > 0
  {
    if n == 0 then 1 else 2 * Pow2(n - 1)
  }

  lemma {:induction false} Pow2Grows(a: nat, b: nat)
    requires a <= b
    ensures Pow2(a) <= Pow2(b)
  {
    if a < b { Pow2Grows(a, b - 1); }
  }

  lemma {:induction false} Pow2Plus4(n: nat)
    ensures Pow2(n + 4) == 16 * Pow2(n)
  {
    assert Pow2(n + 2) == 4 * Pow2(n);
  }

  lemma {:induction false} Pow2Values()
    ensures Pow2(12) == 0x1000 && Pow2(16) == 0x1_0000 && Pow2(28) == 0x1000_0000
    ensures Pow2(30) == 0x4000_0000 && Pow2(31) == 0x8000_0000 && Pow2(32) == TWO_32
  {
    assert Pow2(4) == 16;
    Pow2Plus4(4);
    Pow2Plus4(8);
    Pow2Plus4(12);
    Pow2Plus4(16);
    Pow2Plus4(20);
    Pow2Plus4(24);
    assert Pow2(29) == 2 * Pow2(28);
    assert Pow2(30) == 2 * Pow2(29);
    assert Pow2(31) == 2 * Pow2(30);
    assert Pow2(32) == 2 * Pow2(31);
  }

  function BitOr(a: nat, b: nat): nat {
    if a == 0 then b
    else if b == 0 then a
    else (if a % 2 == 1 || b % 2 == 1 then 1 else 0) + 2 * BitOr(a / 2, b / 2)
  }

  /** The operators of a language whose bit operations work on 32-bit words. */
  function Or32(a: nat, b: nat): nat {
    BitOr(a % TWO_32, b % TWO_32)
  }

  function Shl32(x: nat, n: nat): nat {
    x * Pow2(n) % TWO_32
  }

  lemma {:induction false} Half(a: nat, n: nat)
    requires n > 0
    ensures (a * Pow2(n)) % 2 == 0 && (a * Pow2(n)) / 2 == a * Pow2(n - 1)
  {
    assert a * Pow2(n) == 2 * (a * Pow2(n - 1));
  }

  /** Or-ing words whose bits do not overlap adds them. */
  lemma {:induction false} OrOfDisjoint(low: nat, high: nat, n: nat)
    requires low < Pow2(n)
    ensures BitOr(low, high * Pow2(n)) == low + high * Pow2(n)
  {
    if n > 0 && low > 0 && high * Pow2(n) > 0 {
      Half(high, n);
      OrOfDisjoint(low / 2, high, n - 1);
    }
  }

  lemma {:induction false} OrStep(x: nat, y: nat)
    requires y % 2 == 0
    ensures BitOr(x, y) == x % 2 + 2 * BitOr(x / 2, y / 2)
  {
  }

  function Double(x: nat, n: nat): nat {
    if n == 0 then x else 2 * Double(x, n - 1)
  }

  lemma {:induction false} DoubleIsProduct(x: nat, n: nat)
    ensures Double(x, n) == x * Pow2(n)
  {
    if n > 0 {
      DoubleIsProduct(x, n - 1);
      assert x * Pow2(n) == 2 * (x * Pow2(n - 1));
    }
  }

  lemma {:induction false} OrOfDoubles(low: nat, high: nat, b: nat, n: nat)
    requires low < Pow2(n)
    ensures BitOr(low + Double(high, n), Double(b, n)) == low + Double(BitOr(high, b), n)
  {
    hide BitOr;
    if n > 0 {
      OrOfDoubles(low / 2, high, b, n - 1);
      HalfOfDouble(high, n);
      HalfOfDouble(b, n);
      HalfOfDouble(BitOr(high, b), n);
      hide Double;
      OrOfHalves(low, Double(high, n), Double(b, n), Double(BitOr(high, b), n));
    }
  }

  lemma {:induction false} HalfOfDouble(x: nat, n: nat)
    requires n > 0
    ensures Double(x, n) % 2 == 0 && Double(x, n) / 2 == Double(x, n - 1)
  {
  }

  /** Bits below the ones that are or-ed in stay as they are. */
  lemma {:induction false} OrHigh(low: nat, high: nat, b: nat, n: nat)
    requires low < Pow2(n)
    ensures BitOr(low + high * Pow2(n), b * Pow2(n)) == low + BitOr(high, b) * Pow2(n)
  {
    OrOfDoubles(low, high, b, n);
    DoubleIsProduct(high, n);
    DoubleIsProduct(b, n);
    DoubleIsProduct(BitOr(high, b), n);
    hide BitOr, Pow2, Double;
  }

  lemma {:induction false} OrOfHalves(low: nat, x: nat, y: nat, r: nat)
    requires x % 2 == 0 && y % 2 == 0 && r % 2 == 0 && BitOr(low / 2 + x / 2, y / 2) == low / 2 + r / 2
    ensures BitOr(low + x, y) == low + r
  {
    HalfOfSum(low, x);
    OrStep(low + x, y);
    hide BitOr;
  }

  lemma {:induction false} HalfOfSum(low: nat, x: nat)
    requires x % 2 == 0
    ensures (low + x) % 2 == low % 2 && (low + x) / 2 == low / 2 + x / 2
  {
  }

  lemma {:induction false} OrBounds(a: nat, b: nat, n: nat)
    requires a < Pow2(n) && b < Pow2(n)
    ensures a <= BitOr(a, b) && b <= BitOr(a, b) < Pow2(n)
  {
    if a > 0 && b > 0 { OrBounds(a / 2, b / 2, n - 1); }
  }

  // --- Operators on signed 32-bit integers ---

  function ToInt32(x: int): int {
    var u := x % TWO_32;
    if u >= 0x8000_0000 then u - TWO_32 else u
  }

  function OrInt32(a: int, b: int): int {
    ToInt32(BitOr(a % TWO_32, b % TWO_32))
  }

  /** The shift count is taken modulo 32. */
  function ShlInt32(a: int, n: nat): int {
    ToInt32(a % TWO_32 * Pow2(n % 32))
  }

  lemma {:induction false} Pow2Sum(a: nat, b: nat)
    ensures Pow2(a + b) == Pow2(a) * Pow2(b)
  {
    if a > 0 {
      Pow2Next(a - 1);
      Pow2Next(a - 1 + b);
      hide Pow2;
      Pow2Sum(a - 1, b);
      DoubledFactor(Pow2(a - 1), Pow2(b));
    }
  }

  lemma {:induction false} Pow2Next(n: nat)
    ensures Pow2(n + 1) == 2 * Pow2(n)
  {
  }

  lemma {:induction false} DoubledFactor(x: nat, y: nat)
    ensures 2 * x * y == 2 * (x * y)
  {
  }

  function BitAnd(a: nat, b: nat): nat {
    if a == 0 || b == 0 then 0
    else (if a % 2 == 1 && b % 2 == 1 then 1 else 0) + 2 * BitAnd(a / 2, b / 2)
  }

  function BitXor(a: nat, b: nat): nat {
    if a == 0 then b
    else if b == 0 then a
    else (if a % 2 != b % 2 then 1 else 0) + 2 * BitXor(a / 2, b / 2)
  }

  function AndInt32(a: int, b: int): int {
    ToInt32(BitAnd(a % TWO_32, b % TWO_32))
  }

  function XorInt32(a: int, b: int): int {
    ToInt32(BitXor(a % TWO_32, b % TWO_32))
  }

  /** The sign is kept. */
  function ShrInt32(a: int, n: nat): int {
    ToInt32(a) / Pow2(n % 32)
  }
}
