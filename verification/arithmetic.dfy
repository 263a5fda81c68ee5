/** Facts about products, quotients and remainders. */
module Arithmetic {

  function Min(a: int, b: int): int {
    if a < b then a else b
  }

  /** `n` rounded up to a multiple of the alignment. */
  function AlignUp(n: nat, alignment: nat): nat
    requires alignment > 0
  {
    (n + alignment - 1) / alignment * alignment
  }

  /** It is the least multiple that is not below `n`. */
  lemma {:induction false} AlignUpIsLeast(n: nat, alignment: nat)
    requires alignment > 0
    ensures n <= AlignUp(n, alignment) < n + alignment && AlignUp(n, alignment) % alignment == 0
  {
    var q := (n + alignment - 1) / alignment;
    DivMod(n + alignment - 1, alignment);
    DivUnique(q * alignment, alignment, q, 0);
  }

  lemma {:induction false} MulMono(a: nat, b: nat, p: nat)
    requires a <= b
    ensures a * p <= b * p
  {
  }

  lemma {:induction false} DivMod(x: nat, p: nat)
    requires p > 0
    ensures x == x / p * p + x % p && x % p < p
  {
  }

  /** Quotient and remainder are the only such numbers. */
  lemma {:induction false} DivUnique(x: nat, p: nat, q: nat, r: nat)
    requires x == q * p + r && r < p
    ensures x / p == q && x % p == r
  {
    DivMod(x, p);
    var d := x / p;
    Distribute(d, 1, p);
    Distribute(q, 1, p);
    if d < q { MulMono(d + 1, q, p); }
    if q < d { MulMono(q + 1, d, p); }
  }

  lemma {:induction false} FloorMinus(u: nat, m: nat, p: nat)
    requires p > 0
    ensures (u - m * p) / p == u / p - m
  {
    DivMod(u, p);
    FloorUnique(u - m * p, p, u / p - m, u % p);
  }

  lemma {:induction false} FloorUnique(x: int, p: nat, q: int, r: nat)
    requires r < p && x == q * p + r
    ensures x / p == q
  {
    var d := x / p - q;
    assert x / p * p + x % p == x;
    assert d * p == r - x % p;
    if d > 0 { ProductAtLeast(d, p); }
    if d < 0 { ProductAtLeast(-d, p); }
  }

  lemma {:induction false} ProductAtLeast(d: int, p: nat)
    requires d >= 1
    ensures d * p >= p && -d * p == -(d * p)
  {
  }

  lemma {:induction false} SmallMod(x: nat, m: nat)
    requires x < m
    ensures x % m == x
  {
    DivUnique(x, m, 0, x);
  }

  lemma {:induction false} ZeroDivMod(a: nat, b: nat)
    requires a > 0 && b > 0
    ensures 0 / a % b == 0
  {
    DivUnique(0, a, 0, 0);
    DivUnique(0, b, 0, 0);
  }

  lemma {:induction false} Distribute(a: nat, b: nat, p: nat)
    ensures (a + b) * p == a * p + b * p
  {
  }

  lemma {:induction false} Reassociate(c: nat, g: nat, s: nat, i: nat)
    ensures c * (g * s * i) == (c * g * s) * i
  {
  }

  /** Adding a multiple of i * s does not change the digit above i. */
  lemma {:induction false} AddMultiple(low: nat, c: nat, g: nat, s: nat, i: nat)
    requires s > 0 && i > 0
    ensures (low + c * (g * s * i)) / i % s == low / i % s
  {
    Reassociate(c, g, s, i);
    AddedQuotient(low, c * g * s, i);
    AddedRemainder(low / i, c * g, s);
  }

  lemma {:induction false} AddedQuotient(low: nat, k: nat, i: nat)
    requires i > 0
    ensures (low + k * i) / i == low / i + k
  {
    DivMod(low, i);
    Distribute(low / i, k, i);
    DivUnique(low + k * i, i, low / i + k, low % i);
  }

  lemma {:induction false} AddedRemainder(q: nat, k: nat, s: nat)
    requires s > 0
    ensures (q + k * s) % s == q % s
  {
    DivMod(q, s);
    Distribute(q / s, k, s);
    DivUnique(q + k * s, s, q / s + k, q % s);
  }

  /** The remainder by a product is the remainder by the first factor and the next digit. */
  lemma {:induction false} SplitRemainder(v: nat, p: nat, q: nat)
    requires p > 0 && q > 0
    ensures v % (p * q) == v % p + v / p % q * p
  {
    var d, r := v / p, v % p;
    var e, t := d / q, d % q;
    DivMod(v, p);
    DivMod(d, q);
    Expand(e, q, t, p);
    TwoDigits(r, t, p, q);
    DivUnique(v, p * q, e, r + t * p);
  }

  lemma {:induction false} Expand(e: nat, q: nat, t: nat, p: nat)
    ensures (e * q + t) * p == e * (p * q) + t * p
  {
    Distribute(e * q, t, p);
    assert e * q * p == e * (p * q);
  }

  lemma {:induction false} TwoDigits(r: nat, t: nat, p: nat, q: nat)
    requires r < p && t < q
    ensures r + t * p < p * q
  {
    MulMono(t + 1, q, p);
    Distribute(t, 1, p);
    assert q * p == p * q;
  }
}
