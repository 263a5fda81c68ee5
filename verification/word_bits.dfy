/** What the word operations do to single bits. */
module WordBits {
  import opened Arithmetic
  import opened Bits

  predicate BitAt(x: nat, b: nat) {
    if b == 0 then x % 2 == 1 else BitAt(x / 2, b - 1)
  }

  /** Bit `b` of the 32-bit word of an integer. */
  predicate Bit32(a: int, b: nat) {
    BitAt(a % TWO_32, b)
  }

  predicate IsInt32(a: int) {
    -0x8000_0000 <= a < 0x8000_0000
  }

  // --- Unsigned words ---

  lemma {:induction false} NoBits(b: nat)
    ensures !BitAt(0, b)
  {
    if b > 0 { NoBits(b - 1); }
  }

  lemma {:induction false} SmallHasNoBit(x: nat, b: nat)
    requires x < Pow2(b)
    ensures !BitAt(x, b)
  {
    if b > 0 { SmallHasNoBit(x / 2, b - 1); }
  }

  lemma {:induction false} BitOfOr(x: nat, y: nat, b: nat)
    ensures BitAt(BitOr(x, y), b) <==> BitAt(x, b) || BitAt(y, b)
  {
    NoBits(b);
    if x > 0 && y > 0 && b > 0 { BitOfOr(x / 2, y / 2, b - 1); }
  }

  lemma {:induction false} BitOfAnd(x: nat, y: nat, b: nat)
    ensures BitAt(BitAnd(x, y), b) <==> BitAt(x, b) && BitAt(y, b)
  {
    NoBits(b);
    if x > 0 && y > 0 && b > 0 { BitOfAnd(x / 2, y / 2, b - 1); }
  }

  lemma {:induction false} BitOfXor(x: nat, y: nat, b: nat)
    ensures BitAt(BitXor(x, y), b) <==> BitAt(x, b) != BitAt(y, b)
  {
    NoBits(b);
    if x > 0 && y > 0 && b > 0 { BitOfXor(x / 2, y / 2, b - 1); }
  }

  lemma {:induction false} BitOfProduct(x: nat, n: nat, b: nat)
    ensures BitAt(x * Pow2(n), b) <==> b >= n && BitAt(x, b - n)
  {
    if n > 0 {
      Half(x, n);
      hide Pow2;
      if b > 0 { BitOfProduct(x, n - 1, b - 1); }
    }
  }

  lemma {:induction false} BitOfQuotient(x: nat, n: nat, q: nat, b: nat)
    requires q == x / Pow2(n)
    ensures BitAt(q, b) == BitAt(x, b + n)
  {
    if n > 0 {
      Pow2Next(n - 1);
      hide Pow2;
      HalfFirst(x, Pow2(n - 1), Pow2(n));
      BitOfQuotient(x / 2, n - 1, q, b);
    }
  }

  lemma {:induction false} HalfOfSum(x: nat, y: nat, r: nat)
    requires x == 2 * y + r
    ensures x / 2 == y + r / 2 && x % 2 == r % 2
  {
  }

  lemma {:induction false} TwiceProduct(q: nat, p: nat, d: nat)
    requires d == 2 * p
    ensures q * d == 2 * (q * p)
  {
  }

  /** Dividing by an even number, and by its half what is left of the half. */
  lemma {:induction false} HalfOfDivision(x: nat, p: nat, d: nat, q: nat, r: nat)
    requires d == 2 * p && x == q * d + r && r < d
    ensures x / 2 / p == q && x / 2 % p == r / 2 && x % 2 == r % 2
  {
    TwiceProduct(q, p, d);
    HalfOfSum(x, q * p, r);
    DivUnique(x / 2, p, q, r / 2);
  }

  lemma {:induction false} Divide(x: nat, d: nat) returns (q: nat, r: nat)
    requires d > 0
    ensures q == x / d && r == x % d && x == q * d + r && r < d
  {
    q, r := x / d, x % d;
  }

  lemma {:induction false} HalfFirst(x: nat, p: nat, d: nat)
    requires p > 0 && d == 2 * p
    ensures x / d == x / 2 / p && x % d % 2 == x % 2 && x % d / 2 == x / 2 % p
  {
    var q, r := Divide(x, d);
    HalfOfDivision(x, p, d, q, r);
  }

  lemma {:induction false} BitOfRemainder(x: nat, n: nat, b: nat)
    requires b < n
    ensures BitAt(x % Pow2(n), b) == BitAt(x, b)
  {
    RemainderHalves(x, n - 1);
    hide Pow2;
    if b > 0 { BitOfRemainder(x / 2, n - 1, b - 1); }
  }

  lemma {:induction false} RemainderHalves(x: nat, n: nat)
    ensures x % Pow2(n + 1) % 2 == x % 2 && x % Pow2(n + 1) / 2 == x / 2 % Pow2(n)
  {
    Pow2Next(n);
    hide Pow2;
    HalfFirst(x, Pow2(n), Pow2(n + 1));
  }

  lemma {:induction false} BitOfOnes(n: nat, b: nat)
    ensures BitAt(Pow2(n) - 1, b) <==> b < n
  {
    if n == 0 {
      NoBits(b);
    } else {
      assert (Pow2(n) - 1) / 2 == Pow2(n - 1) - 1;
      if b > 0 { BitOfOnes(n - 1, b - 1); }
    }
  }

  /** The bit is a digit of the binary number. */
  lemma {:induction false} BitIsDigit(x: nat, b: nat)
    ensures BitAt(x, b) <==> x / Pow2(b) % 2 == 1
  {
    var q, r := Divide(x, Pow2(b));
    BitOfQuotient(x, b, q, 0);
    hide Pow2;
  }

  // --- Signed 32-bit integers ---

  lemma {:induction false} WordOf(x: int)
    ensures ToInt32(x) % TWO_32 == x % TWO_32 && IsInt32(ToInt32(x))
    ensures IsInt32(x) ==> ToInt32(x) == x
  {
  }

  lemma {:induction false} BitOfInt32(x: nat, b: nat)
    requires b < 32
    ensures Bit32(ToInt32(x), b) == BitAt(x, b)
  {
    WordOf(x);
    Pow2Values();
    BitOfRemainder(x, 32, b);
    hide ToInt32, Pow2;
  }

  lemma {:induction false} OrBits(a: int, c: int, b: nat)
    requires b < 32
    ensures Bit32(OrInt32(a, c), b) <==> Bit32(a, b) || Bit32(c, b)
  {
    BitOfOr(a % TWO_32, c % TWO_32, b);
    hide BitOr, ToInt32, BitAt;
    BitOfInt32(BitOr(a % TWO_32, c % TWO_32), b);
  }

  lemma {:induction false} AndBits(a: int, c: int, b: nat)
    requires b < 32
    ensures Bit32(AndInt32(a, c), b) <==> Bit32(a, b) && Bit32(c, b)
  {
    BitOfAnd(a % TWO_32, c % TWO_32, b);
    hide BitAnd, ToInt32, BitAt;
    BitOfInt32(BitAnd(a % TWO_32, c % TWO_32), b);
  }

  lemma {:induction false} XorBits(a: int, c: int, b: nat)
    requires b < 32
    ensures Bit32(XorInt32(a, c), b) <==> Bit32(a, b) != Bit32(c, b)
  {
    BitOfXor(a % TWO_32, c % TWO_32, b);
    hide BitXor, ToInt32, BitAt;
    BitOfInt32(BitXor(a % TWO_32, c % TWO_32), b);
  }

  lemma {:induction false} ShlBits(a: int, n: nat, b: nat)
    requires b < 32
    ensures Bit32(ShlInt32(a, n), b) <==> b >= n % 32 && Bit32(a, b - n % 32)
  {
    BitOfProduct(a % TWO_32, n % 32, b);
    hide Pow2, ToInt32, BitAt;
    BitOfInt32(a % TWO_32 * Pow2(n % 32), b);
  }

  /** Shifting a word with the highest bit set to the right: ones come in. */
  lemma {:induction false} QuotientOfNegative(u: nat, k: nat)
    requires u < TWO_32 && k < 32
    ensures u / Pow2(k) < Pow2(32 - k)
    ensures (u - TWO_32) / Pow2(k) % TWO_32 == u / Pow2(k) + (Pow2(k) - 1) * Pow2(32 - k)
  {
    Pow2Sum(32 - k, k);
    Pow2Sum(k, 32 - k);
    Pow2Values();
    hide Pow2;
    QuotientWraps(u, Pow2(32 - k), Pow2(k));
  }

  lemma {:induction false} QuotientWraps(u: nat, h: nat, p: nat)
    requires p > 0 && u < h * p == p * h
    ensures u / p < h && (u - h * p) / p % (p * h) == u / p + (p - 1) * h
  {
    var q := u / p;
    DivMod(u, p);
    if q >= h { MulMono(h, q, p); }
    FloorMinus(u, h, p);
    Distribute(p - 1, 1, h);
    WrapsOnce(q, h, p * h);
  }

  lemma {:induction false} WrapsOnce(q: nat, h: nat, m: nat)
    requires q < h <= m
    ensures (q - h) % m == q + m - h
  {
    FloorUnique(q - h, m, -1, q + m - h);
  }

  /** The highest bit comes in from the left. */
  lemma {:induction false} ShrBits(a: int, n: nat, b: nat)
    requires b < 32
    ensures Bit32(ShrInt32(a, n), b) <==> Bit32(a, if b + n % 32 < 32 then b + n % 32 else 31)
  {
    var u, k := a % TWO_32, n % 32;
    HighestBit(u);
    if u < 0x8000_0000 {
      assert ShrInt32(a, n) == u / Pow2(k);
      hide ShrInt32;
      ShrBitsOfSmall(u, k, b);
    } else {
      assert ShrInt32(a, n) == (u - TWO_32) / Pow2(k);
      hide ShrInt32;
      ShrBitsOfNegative(u, k, b);
    }
  }

  lemma {:induction false} HighestBit(u: nat)
    requires u < TWO_32
    ensures BitAt(u, 31) <==> u >= 0x8000_0000
  {
    Pow2Values();
    BitIsDigit(u, 31);
    hide Pow2;
  }

  lemma {:induction false} ShrBitsOfSmall(u: nat, k: nat, b: nat)
    requires u < 0x8000_0000 && k < 32 && b < 32
    ensures Bit32(u / Pow2(k), b) <==> b + k < 32 && BitAt(u, b + k)
  {
    hide Pow2, BitAt;
    var w, r := Divide(u, Pow2(k));
    BitOfQuotient(u, k, w, b);
    QuotientIsSmaller(u, Pow2(k));
    if b + k >= 32 { NoHighBit(u, b + k); }
    assert w % TWO_32 == w;
  }

  lemma {:induction false} NoHighBit(u: nat, b: nat)
    requires u < 0x8000_0000 && b >= 31
    ensures !BitAt(u, b)
  {
    Pow2Values();
    Pow2Grows(31, b);
    SmallHasNoBit(u, b);
  }

  lemma {:induction false} QuotientIsSmaller(u: nat, p: nat)
    requires p > 0
    ensures u / p <= u
  {
    DivMod(u, p);
    MulMono(1, p, u / p);
  }

  lemma {:induction false} ShrBitsOfNegative(u: nat, k: nat, b: nat)
    requires u < TWO_32 && k < 32 && b < 32
    ensures Bit32((u - TWO_32) / Pow2(k), b) <==> b + k >= 32 || BitAt(u, b + k)
  {
    var w, r := Divide(u, Pow2(k));
    BitOfQuotient(u, k, w, b);
    QuotientOfNegative(u, k);
    BitOfOnesAbove(w, k, Pow2(k) - 1, 32 - k, b);
    hide Pow2, BitAt;
    if b + k >= 32 { NoBitBeyond(u, b + k); }
  }

  lemma {:induction false} NoBitBeyond(u: nat, b: nat)
    requires u < TWO_32 && b >= 32
    ensures !BitAt(u, b)
  {
    Pow2Values();
    Pow2Grows(32, b);
    SmallHasNoBit(u, b);
  }

  lemma {:induction false} BitOfOnesAbove(low: nat, k: nat, ones: nat, n: nat, b: nat)
    requires low < Pow2(n) && ones == Pow2(k) - 1
    ensures BitAt(low + ones * Pow2(n), b) <==> BitAt(low, b) || n <= b < n + k
  {
    hide BitAt, BitOr, Pow2;
    if b >= n { BitOfOnes(k, b - n); }
    OrOfDisjoint(low, ones, n);
    BitOfOr(low, ones * Pow2(n), b);
    BitOfProduct(ones, n, b);
  }
}
