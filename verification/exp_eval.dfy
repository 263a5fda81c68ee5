/** Evaluating an expression and collecting its names (db/exp.js), and what printing and reading
    the text again does to them. */
module ExpEval {
  import opened Bits
  import opened Arithmetic
  import opened ExpSyntax
  import opened ExpPrinter
  import ExpLexer
  import ExpParserSpec
  import opened Wrappers

  /** The values of the variables, and what is computed for functions and for operators that the
      program does not know. */
  datatype Context = Context(
    variable: string -> int,
    call: (string, seq<int>) -> int,
    unary: (string, int) -> int,
    binary: (string, int, int) -> int)

  // --- The operators ---

  function Truth(b: bool): int {
    if b then 1 else 0
  }

  function Abs(x: int): nat {
    if x < 0 then -x else x
  }

  /** The quotient rounded toward zero; a division by zero gives zero. */
  function Quotient(a: int, b: int): int {
    if b == 0 then 0
    else
      var q := Abs(a) / Abs(b);
      ToInt32(if (a < 0) == (b < 0) then q else -q)
  }

  /** The remainder has the sign of the dividend. */
  function Remainder(a: int, b: int): int {
    if b == 0 then 0
    else
      var r := Abs(a) % Abs(b);
      ToInt32(if a < 0 then -r else r)
  }

  function EvalUnary(ctx: Context, op: string, v: int): int {
    if op == "-" then -v
    else if op == "~" then -ToInt32(v) - 1
    else if op == "!" then Truth(v == 0)
    else ctx.unary(op, v)
  }

  function EvalBinary(ctx: Context, op: string, l: int, r: int): int {
    if op == "-" then l - r
    else if op == "+" then l + r
    else if op == "*" then l * r
    else if op == "/" then Quotient(l, r)
    else if op == "%" then Remainder(l, r)
    else if op == "&" then AndInt32(l, r)
    else if op == "|" then OrInt32(l, r)
    else if op == "^" then XorInt32(l, r)
    else if op == "<<" then ShlInt32(l, r % 32)
    else if op == ">>" then ShrInt32(l, r % 32)
    else if op == "==" then Truth(l == r)
    else if op == "!=" then Truth(l != r)
    else if op == "<" then Truth(l < r)
    else if op == "<=" then Truth(l <= r)
    else if op == ">" then Truth(l > r)
    else if op == ">=" then Truth(l >= r)
    else if op == "&&" then Truth(l != 0 && r != 0)
    else if op == "||" then Truth(l != 0 || r != 0)
    else ctx.binary(op, l, r)
  }

  /** The value of an expression. A bit access has none: its second argument is not a node, and the
      program fails on it. A number with a fraction has none in this model. */
  function Evaluate(ctx: Context, e: Exp): Option<int>
    decreases e
  {
    match e
    case Imm(v) => if v.Int? then Some(v.n) else None
    case Var(x) => Some(ctx.variable(x))
    case Call(f, args) =>
      var vs := EvaluateAll(ctx, args);
      if vs.None? then None else Some(ctx.call(f, vs.value))
    case Bit(_, _) => None
    case Unary(op, child) =>
      var v := Evaluate(ctx, child);
      if v.None? then None else Some(EvalUnary(ctx, op, v.value))
    case Binary(op, left, right) =>
      var l, r := Evaluate(ctx, left), Evaluate(ctx, right);
      if l.None? || r.None? then None else Some(EvalBinary(ctx, op, l.value, r.value))
  }

  function EvaluateAll(ctx: Context, es: seq<Exp>): Option<seq<int>>
    decreases es
  {
    if es == [] then Some([])
    else
      var v, vs := Evaluate(ctx, es[0]), EvaluateAll(ctx, es[1..]);
      if v.None? || vs.None? then None else Some([v.value] + vs.value)
  }

  // --- Printing keeps the value ---

  lemma {:induction false} DesugarKeepsValue(ctx: Context, e: Exp)
    requires Evaluate(ctx, e).Some?
    ensures Evaluate(ctx, Desugar(e)) == Evaluate(ctx, e)
    decreases e
  {
    hide EvalBinary;
    match e
    case Call(_, args) => DesugarAllKeepsValues(ctx, args);
    case Unary(_, child) => DesugarKeepsValue(ctx, child);
    case Binary(_, left, right) => DesugarKeepsValue(ctx, left); DesugarKeepsValue(ctx, right);
    case _ =>
  }

  lemma {:induction false} DesugarAllKeepsValues(ctx: Context, es: seq<Exp>)
    requires EvaluateAll(ctx, es).Some?
    ensures EvaluateAll(ctx, DesugarAll(es)) == EvaluateAll(ctx, es)
    decreases es
  {
    if es != [] {
      DesugarKeepsValue(ctx, es[0]);
      DesugarAllKeepsValues(ctx, es[1..]);
      assert DesugarAll(es)[1..] == DesugarAll(es[1..]);
    }
  }

  /** Printing an expression and reading the text gives an expression with the same value. */
  lemma {:induction false} PrintingKeepsValue(ctx: Context, e: Exp)
    requires Readable(OPERATORS, e) && Evaluate(ctx, e).Some?
    ensures var lexed := ExpLexer.Lex(OPERATORS, Print(e));
            && lexed.Tokens?
            && var parsed := ExpParserSpec.Parse(OPERATORS, lexed.tokens);
               parsed.Ok? && Evaluate(ctx, Erase(parsed.value)) == Evaluate(ctx, e)
  {
    hide Evaluate, ExpLexer.Lex, ExpParserSpec.Parse, Printable, Readable, Desugar;
    OperatorsArePrintable();
    RoundTrip(OPERATORS, e);
    DesugarKeepsValue(ctx, e);
  }

  // --- The printed form of a bit access ---

  lemma {:induction false} AndOne(x: nat)
    ensures BitAnd(x, 1) == x % 2
  {
    if x > 0 {
      assert BitAnd(x, 1) == (if x % 2 == 1 then 1 else 0) + 2 * BitAnd(x / 2, 0);
      assert BitAnd(x / 2, 0) == 0;
    }
  }

  lemma {:induction false} LowBit(x: int)
    ensures AndInt32(x, 1) == x % 2
  {
    AndOne(x % TWO_32);
    assert 1 % TWO_32 == 1;
    hide BitAnd;
    assert x % TWO_32 % 2 == x % 2;
  }

  /** An arithmetic shift of the signed word has the parity of the shifted unsigned word. */
  lemma {:induction false} ShiftParity(u: nat, k: nat)
    requires k < 32
    ensures (u - TWO_32) / Pow2(k) % 2 == u / Pow2(k) % 2
  {
    Pow2Sum(32 - k, k);
    Pow2Values();
    var p, h := Pow2(k), Pow2(32 - k - 1);
    assert Pow2(32 - k) == 2 * h;
    hide Pow2;
    FloorMinus(u, 2 * h, p);
    assert (u / p - 2 * h) % 2 == u / p % 2;
  }

  /** The text printed for a bit access reads that bit of the variable, the index modulo 32. */
  lemma {:induction false} BitTextReadsTheBit(ctx: Context, x: string, index: int)
    ensures Evaluate(ctx, Desugar(Bit(x, Int(index))))
         == Some(ctx.variable(x) % TWO_32 / Pow2(index % 32) % 2)
  {
    var v, k := ctx.variable(x), index % 32;
    var shifted := ShrInt32(v, k);
    assert Evaluate(ctx, DesugarNumber(Int(index))) == Some(index);
    assert Evaluate(ctx, Binary(">>", Var(x), DesugarNumber(Int(index)))) == Some(shifted);
    assert Evaluate(ctx, Desugar(Bit(x, Int(index)))) == Some(AndInt32(shifted, 1));
    hide Evaluate, EvalBinary;
    LowBit(shifted);
    assert k % 32 == k;
    if ToInt32(v) != v % TWO_32 { ShiftParity(v % TWO_32, k); }
  }

  // --- Collecting names ---

  datatype Kind = Vars | Calls

  function Counts(e: Exp, kind: Kind, name: string): nat
    decreases e
  {
    match e
    case Imm(_) => 0
    case Var(x) => if kind == Vars && x == name then 1 else 0
    case Call(f, args) => CountsAll(args, kind, name) + if kind == Calls && f == name then 1 else 0
    case Bit(x, _) => 0
    case Unary(_, child) => Counts(child, kind, name)
    case Binary(_, left, right) => Counts(left, kind, name) + Counts(right, kind, name)
  }

  function CountsAll(es: seq<Exp>, kind: Kind, name: string): nat
    decreases es
  {
    if es == [] then 0 else CountsAll(es[..|es| - 1], kind, name) + Counts(es[|es| - 1], kind, name)
  }

  /** No bit access, on which the visitor fails. */
  predicate Visitable(e: Exp)
    decreases e
  {
    match e
    case Call(_, args) => forall a | a in args :: Visitable(a)
    case Bit(_, _) => false
    case Unary(_, child) => Visitable(child)
    case Binary(_, left, right) => Visitable(left) && Visitable(right)
    case _ => true
  }

  class Collector {
    var dict: map<string, nat>
    const kind: Kind

    constructor (kind: Kind)
      ensures this.kind == kind && dict == map[]
    {
      this.kind := kind;
      dict := map[];
    }

    /** How often the name has been met. */
    function Count(name: string): nat
      reads this
    {
      if name in dict then dict[name] else 0
    }

    /** Only names that have been met are in the dictionary. */
    ghost predicate Valid()
      reads this
    {
      forall name | name in dict :: dict[name] > 0
    }

    method Add(name: string)
      requires Valid()
      modifies this
      ensures Valid() && dict == old(dict)[name := old(Count(name)) + 1]
    {
      if name in dict {
        dict := dict[name := dict[name] + 1];
      } else {
        dict := dict[name := 1];
      }
    }

    /** Counts every occurrence in the expression; fails exactly if there is a bit access. */
    method Visit(e: Exp) returns (ok: bool)
      requires Valid()
      modifies this
      ensures Valid() && ok == Visitable(e)
      ensures ok ==> forall name :: Count(name) == old(Count(name)) + Counts(e, kind, name)
      decreases e, 0
    {
      match e
      case Imm(_) => ok := true;
      case Var(x) =>
        if kind == Vars { Add(x); }
        ok := true;
      case Call(f, args) =>
        if kind == Calls { Add(f); }
        ok := VisitAll(args);
      case Bit(x, _) =>
        if kind == Calls { Add("$bit"); }
        ok := false;
      case Unary(_, child) => ok := Visit(child);
      case Binary(_, left, right) =>
        ok := Visit(left);
        if ok { ok := Visit(right); }
    }

    method VisitAll(args: seq<Exp>) returns (ok: bool)
      requires Valid()
      modifies this
      ensures Valid() && ok == forall a | a in args :: Visitable(a)
      ensures ok ==> forall name :: Count(name) == old(Count(name)) + CountsAll(args, kind, name)
      decreases args, 1
    {
      var i := 0;
      while i < |args|
        invariant i <= |args| && Valid() && forall k | 0 <= k < i :: Visitable(args[k])
        invariant forall name :: Count(name) == old(Count(name)) + CountsAll(args[..i], kind, name)
      {
        assert args[..i + 1][..i] == args[..i];
        var visited := Visit(args[i]);
        if !visited { return false; }
        i := i + 1;
      }
      assert args[..i] == args;
      return true;
    }
  }
}
