/** What the operators of the expression language compute (db/exp.js): integers without a bound for sums and
    products, signed 32-bit words for the rest. */
module ExpOperators {
  import opened Arithmetic
  import opened Bits
  import opened ExpEval
  import opened WordBits

  /** Sums and products, by their recursion, and differences. */
  lemma {:induction false} SumsAndProducts(ctx: Context, l: int, r: int)
    ensures EvalBinary(ctx, "+", l, 0) == l && EvalBinary(ctx, "+", l, r + 1) == EvalBinary(ctx, "+", l, r) + 1
    ensures EvalBinary(ctx, "*", l, 0) == 0 && EvalBinary(ctx, "*", l, r + 1) == EvalBinary(ctx, "+", EvalBinary(ctx, "*", l, r), l)
    ensures EvalBinary(ctx, "-", EvalBinary(ctx, "+", l, r), r) == l && EvalUnary(ctx, "-", l) == EvalBinary(ctx, "-", 0, l)
  {
    NextProduct(l, r);
  }

  lemma {:induction false} NextProduct(l: int, r: int)
    ensures l * (r + 1) == l * r + l
  {
  }

  /** Quotient and remainder are those of the division that rounds toward zero, as 32-bit integers. */
  lemma {:induction false} Division(ctx: Context, l: int, r: int, q: int, m: int)
    requires r != 0 && l == q * r + m && Abs(m) < Abs(r) && (m < 0 ==> l < 0) && (m > 0 ==> l > 0)
    ensures EvalBinary(ctx, "/", l, r) == ToInt32(q) && EvalBinary(ctx, "%", l, r) == ToInt32(m)
  {
    SignsOfQuotient(l, r, q, m);
    DivUnique(Abs(l), Abs(r), Abs(q), Abs(m));
    hide ToInt32;
    assert EvalBinary(ctx, "/", l, r) == Quotient(l, r) && EvalBinary(ctx, "%", l, r) == Remainder(l, r);
  }

  lemma {:induction false} SignsOfQuotient(l: int, r: int, q: int, m: int)
    requires r != 0 && l == q * r + m && Abs(m) < Abs(r) && (m < 0 ==> l < 0) && (m > 0 ==> l > 0)
    ensures Abs(l) == Abs(q) * Abs(r) + Abs(m)
    ensures if (l < 0) == (r < 0) then q >= 0 else q <= 0
  {
    if q > 0 { SameSigns(q, r); }
    if q < 0 { SameSigns(-q, r); assert q * r == -(-q * r); }
  }

  lemma {:induction false} SameSigns(q: int, r: int)
    requires q > 0 && r != 0
    ensures Abs(q * r) == q * Abs(r) >= Abs(r) && (q * r < 0 <==> r < 0)
  {
    if r > 0 { MulMono(1, q, r); } else { MulMono(1, q, -r); assert q * r == -(q * -r); }
  }

  /** A division by zero gives zero. */
  lemma {:induction false} DivisionByZero(ctx: Context, l: int)
    ensures EvalBinary(ctx, "/", l, 0) == EvalBinary(ctx, "%", l, 0) == 0
  {
  }

  /** The bitwise operators give 32-bit integers with the bits one expects. */
  lemma {:induction false} Bitwise(ctx: Context, l: int, r: int, b: nat)
    requires b < 32
    ensures var x := EvalBinary(ctx, "&", l, r); IsInt32(x) && (Bit32(x, b) <==> Bit32(l, b) && Bit32(r, b))
    ensures var x := EvalBinary(ctx, "|", l, r); IsInt32(x) && (Bit32(x, b) <==> Bit32(l, b) || Bit32(r, b))
    ensures var x := EvalBinary(ctx, "^", l, r); IsInt32(x) && (Bit32(x, b) <==> Bit32(l, b) != Bit32(r, b))
    ensures var x := EvalUnary(ctx, "~", l); IsInt32(x) && (Bit32(x, b) <==> !Bit32(l, b))
  {
    AndBits(l, r, b);
    OrBits(l, r, b);
    XorBits(l, r, b);
    NotBits(l, b);
    hide Bit32, BitAnd, BitOr, BitXor;
    assert EvalBinary(ctx, "&", l, r) == AndInt32(l, r) && EvalBinary(ctx, "|", l, r) == OrInt32(l, r);
    assert EvalBinary(ctx, "^", l, r) == XorInt32(l, r) && EvalUnary(ctx, "~", l) == -ToInt32(l) - 1;
  }

  lemma {:induction false} NotBits(l: int, b: nat)
    requires b < 32
    ensures Bit32(-ToInt32(l) - 1, b) <==> !Bit32(l, b)
  {
    var u := l % TWO_32;
    assert (-ToInt32(l) - 1) % TWO_32 == TWO_32 - 1 - u;
    Pow2Values();
    hide Pow2, BitAt, ToInt32;
    Complement(u, 32, b);
  }

  lemma {:induction false} Complement(u: nat, n: nat, b: nat)
    requires u < Pow2(n) && b < n
    ensures BitAt(Pow2(n) - 1 - u, b) <==> !BitAt(u, b)
  {
    var p := Pow2(n - 1);
    assert Pow2(n) == 2 * p && (2 * p - 1 - u) / 2 == p - 1 - u / 2;
    if b > 0 { Complement(u / 2, n - 1, b - 1); }
  }

  /** Shifts move the bits by the count modulo 32; zeros come in from the right, the sign from the left. */
  lemma {:induction false} Shifts(ctx: Context, l: int, r: int, b: nat)
    requires b < 32
    ensures var x, k := EvalBinary(ctx, "<<", l, r), r % 32; IsInt32(x) && (Bit32(x, b) <==> b >= k && Bit32(l, b - k))
    ensures var x, k := EvalBinary(ctx, ">>", l, r), r % 32;
            IsInt32(x) && (Bit32(x, b) <==> Bit32(l, if b + k < 32 then b + k else 31))
  {
    ShiftOperators(ctx, l, r);
    hide *;
    ShiftedBits(l, r % 32, b);
  }

  lemma {:induction false} ShiftOperators(ctx: Context, l: int, r: int)
    ensures EvalBinary(ctx, "<<", l, r) == ShlInt32(l, r % 32) && EvalBinary(ctx, ">>", l, r) == ShrInt32(l, r % 32)
  {
    hide ShlInt32, ShrInt32;
  }

  lemma {:induction false} ShiftedBits(l: int, k: nat, b: nat)
    requires k < 32 && b < 32
    ensures IsInt32(ShlInt32(l, k)) && (Bit32(ShlInt32(l, k), b) <==> b >= k && Bit32(l, b - k))
    ensures IsInt32(ShrInt32(l, k)) && (Bit32(ShrInt32(l, k), b) <==> Bit32(l, if b + k < 32 then b + k else 31))
  {
    ShlIsInt32(l, k);
    ShrIsInt32(l, k);
    hide *;
    assert k % 32 == k;
    ShlBits(l, k, b);
    ShrBits(l, k, b);
  }

  lemma {:induction false} ShlIsInt32(l: int, k: nat)
    ensures IsInt32(ShlInt32(l, k))
  {
    hide Pow2;
  }

  lemma {:induction false} ShrIsInt32(l: int, k: nat)
    requires k < 32
    ensures IsInt32(ShrInt32(l, k))
  {
    assert k % 32 == k;
    var x, p := ToInt32(l), Pow2(k);
    hide Pow2;
    ProductSize(x / p, p);
    FloorIsCloser(x, p, x / p * p, x / p, x % p);
  }

  lemma {:induction false} FloorIsCloser(x: int, p: nat, m: int, q: int, r: nat)
    requires x == m + r && r < p && if q >= 0 then m >= q else m + p <= q + 1 && m + p <= 0
    ensures if x >= 0 then 0 <= q <= x else x <= q < 0
  {
  }

  lemma {:induction false} ProductSize(q: int, p: nat)
    requires p > 0
    ensures if q >= 0 then q * p >= q else q * p + p <= q + 1 && q * p + p <= 0
  {
    if q >= 0 {
      NotSmaller(q, p);
    } else {
      NotSmaller(-1 - q, p);
      NextNegative(-1 - q, p);
    }
  }

  lemma {:induction false} NotSmaller(q: nat, p: nat)
    requires p > 0
    ensures q * p >= q
  {
  }

  lemma {:induction false} NextNegative(n: nat, p: nat)
    ensures (-1 - n) * p + p + n * p == 0
  {
  }

  /** Exactly one of the three comparisons holds, the others are put together from them, and what holds
      is 1 and what does not is 0. */
  lemma {:induction false} Comparisons(ctx: Context, l: int, r: int)
    ensures EvalBinary(ctx, "<", l, r) == if l < r then 1 else 0
    ensures EvalBinary(ctx, ">", l, r) == EvalBinary(ctx, "<", r, l)
    ensures EvalBinary(ctx, "<", l, r) + EvalBinary(ctx, "==", l, r) + EvalBinary(ctx, ">", l, r) == 1
    ensures EvalBinary(ctx, "<=", l, r) == EvalUnary(ctx, "!", EvalBinary(ctx, ">", l, r))
    ensures EvalBinary(ctx, ">=", l, r) == EvalUnary(ctx, "!", EvalBinary(ctx, "<", l, r))
    ensures EvalBinary(ctx, "!=", l, r) == EvalUnary(ctx, "!", EvalBinary(ctx, "==", l, r))
    ensures EvalUnary(ctx, "!", l) == EvalBinary(ctx, "==", l, 0)
  {
  }

  /** A conjunction holds if both sides do, and a disjunction if not both fail. */
  lemma {:induction false} Logic(ctx: Context, l: int, r: int)
    ensures EvalBinary(ctx, "&&", l, r) == EvalBinary(ctx, "*", EvalBinary(ctx, "!=", l, 0), EvalBinary(ctx, "!=", r, 0))
    ensures EvalBinary(ctx, "||", l, r)
         == EvalUnary(ctx, "!", EvalBinary(ctx, "&&", EvalUnary(ctx, "!", l), EvalUnary(ctx, "!", r)))
  {
  }
}
