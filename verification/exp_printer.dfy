/** The printer of db/exp.js and its round trip: lexing and parsing the printed text of an
    expression gives the expression back. */
module ExpPrinter {
  import opened ExpSyntax
  import Arithmetic
  import ExpLexer
  import ExpParserSpec
  import ExpParserProof

  /** The operator tables of the program. */
  const OPERATORS := Table(
    {"-", "~", "!"},
    map["*" := 5, "/" := 5, "%" := 5, "+" := 6, "-" := 6, ">>" := 7, "<<" := 7,
        "<" := 9, ">" := 9, "<=" := 9, ">=" := 9, "==" := 10, "!=" := 10,
        "&" := 11, "^" := 12, "|" := 13, "&&" := 14, "||" := 15, "?" := 16, ":" := 16],
    {})

  /** What the round trip needs of the tables: every operator is made of punctuation and is short
      enough for the lexer, and no operator of several characters starts with the characters that
      meet in printed text. */
  ghost predicate Printable(g: Table) {
    && g.Valid() && g.unary == {"-", "~", "!"}
    && g.Infix(">>") && g.Infix("&")
    && (forall op | op in g.prec :: GoodOperator(op))
  }

  predicate GoodOperator(op: string) {
    && 1 <= |op| <= ExpLexer.MAX_OPERATOR_LEN && op[0] != '.'
    && (forall i | 0 <= i < |op| :: ExpLexer.IsPunct(op[i]))
    && (|op| > 1 ==> op[0] !in "-~()," && (op[0] == '!' ==> op[1] == '='))
  }

  lemma {:induction false} OperatorsArePrintable()
    ensures Printable(OPERATORS)
  {
    OperatorsAreValid();
    hide GoodOperator, Table.Valid;
    forall op | op in OPERATORS.prec ensures GoodOperator(op) {
      GoodOperatorCases(op);
    }
  }

  lemma {:induction false} OperatorsAreValid()
    ensures OPERATORS.Valid()
  {
  }

  lemma {:induction false} GoodOperatorCases(op: string)
    requires op in {"*", "/", "%", "+", "-", ">>", "<<", "<", ">", "<=", ">=", "==", "!=", "&", "^", "|",
                    "&&", "||", "?", ":"}
    ensures GoodOperator(op)
  {
  }

  // --- The printer ---

  predicate IsOperator(e: Exp) {
    e.Unary? || e.Binary?
  }

  predicate MustEnclose(e: Exp) {
    if e.Unary? then IsOperator(e.child) else e.Binary?
  }

  function Digits(n: nat): (s: string)
    ensures |s| > 0
  {
    var d := [(48 + n % 10) as char];
    if n < 10 then d else Digits(n / 10) + d
  }

  function PrintNumber(v: Number): string {
    match v
    case Int(n) => if n < 0 then "-" + Digits(-n) else Digits(n)
    case Float(text) => text
  }

  function Print(e: Exp): string
    decreases e, 0
  {
    match e
    case Imm(v) => PrintNumber(v)
    case Var(x) => x
    case Call(f, args) => f + "(" + PrintArgs(args) + ")"
    case Bit(x, index) => "((" + x + " >> " + PrintNumber(index) + ") & 1)"
    case Unary(op, child) => op + PrintChild(child)
    case Binary(op, left, right) => PrintChild(left) + " " + op + " " + PrintChild(right)
  }

  function PrintChild(e: Exp): string
    decreases e, 1
  {
    if MustEnclose(e) then "(" + Print(e) + ")" else Print(e)
  }

  function PrintArgs(es: seq<Exp>): string
    decreases es
  {
    if es == [] then ""
    else if |es| == 1 then Print(es[0])
    else Print(es[0]) + ", " + PrintArgs(es[1..])
  }

  // --- The tree that the printed text stands for ---

  function NumberCst(n: int): Cst {
    if n < 0 then CUnary("-", CLit(Digits(-n), Int(-n))) else CLit(Digits(n), Int(n))
  }

  function ImmCst(v: Number): Cst {
    match v
    case Int(n) => NumberCst(n)
    case Float(text) => CLit(text, v)
  }

  function ToCst(e: Exp): Cst
    decreases e, 0
  {
    match e
    case Imm(v) => ImmCst(v)
    case Var(x) => CVar(x)
    case Call(f, args) => CCall(f, ToCsts(args))
    case Bit(x, index) =>
      CParen(CBinary("&", CParen(CBinary(">>", CVar(x), ImmCst(index))), NumberCst(1)))
    case Unary(op, child) => CUnary(op, ChildCst(child))
    case Binary(op, left, right) => CBinary(op, ChildCst(left), ChildCst(right))
  }

  function ChildCst(e: Exp): Cst
    decreases e, 1
  {
    if MustEnclose(e) then CParen(ToCst(e)) else ToCst(e)
  }

  function ToCsts(es: seq<Exp>): (cs: seq<Cst>)
    ensures |cs| == |es|
    ensures forall i | 0 <= i < |es| :: cs[i] == ToCst(es[i])
    decreases es
  {
    if es == [] then [] else [ToCst(es[0])] + ToCsts(es[1..])
  }

  /** What reading the text back makes of an expression: a negative number, which only a
      hexadecimal literal can give, becomes a negation, and a bit access the operations it
      abbreviates. */
  function Desugar(e: Exp): Exp
    decreases e
  {
    match e
    case Imm(v) => DesugarNumber(v)
    case Var(_) => e
    case Call(f, args) => Call(f, DesugarAll(args))
    case Bit(x, index) => Binary("&", Binary(">>", Var(x), DesugarNumber(index)), Imm(Int(1)))
    case Unary(op, child) => Unary(op, Desugar(child))
    case Binary(op, left, right) => Binary(op, Desugar(left), Desugar(right))
  }

  function DesugarNumber(v: Number): Exp {
    if v.Int? && v.n < 0 then Unary("-", Imm(Int(-v.n))) else Imm(v)
  }

  function DesugarAll(es: seq<Exp>): (r: seq<Exp>)
    ensures |r| == |es|
    ensures forall i | 0 <= i < |es| :: r[i] == Desugar(es[i])
    decreases es
  {
    if es == [] then [] else [Desugar(es[0])] + DesugarAll(es[1..])
  }

  /** The expressions the parser can build: the operators are in the tables, names are identifiers
      and numbers are integers. */
  ghost predicate Readable(g: Table, e: Exp)
    decreases e
  {
    match e
    case Imm(v) => v.Int?
    case Var(x) => IsName(x)
    case Call(f, args) => IsName(f) && forall a | a in args :: Readable(g, a)
    case Bit(x, index) => IsName(x) && index.Int?
    case Unary(op, child) => op in g.unary && Readable(g, child)
    case Binary(op, left, right) => g.Infix(op) && Readable(g, left) && Readable(g, right)
  }

  predicate IsName(s: string) {
    && s != "" && ExpLexer.CategoryOf(s[0]) == ExpLexer.Alpha
    && forall i | 0 <= i < |s| :: ExpLexer.IsWord(s[i])
  }

  /** Expressions without negative numbers and bit accesses. */
  ghost predicate Plain(e: Exp)
    decreases e
  {
    match e
    case Imm(v) => v.Int? && v.n >= 0
    case Var(_) => true
    case Call(_, args) => forall a | a in args :: Plain(a)
    case Bit(_, _) => false
    case Unary(_, child) => Plain(child)
    case Binary(_, left, right) => Plain(left) && Plain(right)
  }

  lemma {:induction false} PlainIsDesugared(e: Exp)
    requires Plain(e)
    ensures Desugar(e) == e
    decreases e
  {
    match e
    case Call(_, args) =>
      forall i | 0 <= i < |args| ensures DesugarAll(args)[i] == args[i] { PlainIsDesugared(args[i]); }
    case Unary(_, child) => PlainIsDesugared(child);
    case Binary(_, left, right) => PlainIsDesugared(left); PlainIsDesugared(right);
    case _ =>
  }

  lemma {:induction false} NumberCstIsRight(v: Number)
    ensures Erase(ImmCst(v)) == DesugarNumber(v)
  {
  }

  lemma {:induction false} NumberCstIsWellFormed(g: Table, v: Number)
    requires Printable(g)
    ensures WF(g, ImmCst(v)) && !ImmCst(v).CBinary?
  {
    if v.Int? && v.n < 0 { assert WF(g, CLit(Digits(-v.n), Int(-v.n))); }
  }

  lemma {:induction false} ToCstErases(e: Exp)
    ensures Erase(ToCst(e)) == Desugar(e)
    decreases e
  {
    match e
    case Imm(v) => NumberCstIsRight(v);
    case Call(_, args) =>
      forall i | 0 <= i < |args| ensures EraseAll(ToCsts(args))[i] == DesugarAll(args)[i] { ToCstErases(args[i]); }
    case Bit(x, index) =>
      var shift := CBinary(">>", CVar(x), ImmCst(index));
      NumberCstIsRight(index);
      assert Erase(shift) == Binary(">>", Var(x), DesugarNumber(index));
      assert Erase(ToCst(e)) == Binary("&", Erase(CParen(shift)), Erase(NumberCst(1)));
    case Unary(_, child) => ToCstErases(child);
    case Binary(_, left, right) => ToCstErases(left); ToCstErases(right);
    case _ =>
  }

  lemma {:induction false} ToCstIsWellFormed(g: Table, e: Exp)
    requires Printable(g) && Readable(g, e)
    ensures WF(g, ToCst(e))
    decreases e
  {
    match e
    case Imm(v) => NumberCstIsWellFormed(g, v);
    case Call(_, args) =>
      forall c | c in ToCsts(args) ensures WF(g, c) {
        var i :| 0 <= i < |args| && ToCsts(args)[i] == c;
        ToCstIsWellFormed(g, args[i]);
      }
    case Bit(x, index) =>
      var shift := CBinary(">>", CVar(x), ImmCst(index));
      NumberCstIsWellFormed(g, index);
      NumberCstIsWellFormed(g, Int(1));
      assert WF(g, shift);
      assert WF(g, CBinary("&", CParen(shift), NumberCst(1)));
    case Unary(_, child) => ToCstIsWellFormed(g, child);
    case Binary(_, left, right) => ToCstIsWellFormed(g, left); ToCstIsWellFormed(g, right);
    case _ =>
  }

  // --- Parentheses ---

  /** The pairs of parentheses in a tree, not counting those of calls. */
  function Pairs(c: Cst): nat
    decreases c
  {
    match c
    case CCall(_, args) => AllPairs(args)
    case CParen(inner) => 1 + Pairs(inner)
    case CUnary(_, child) => Pairs(child)
    case CBinary(_, left, right) => Pairs(left) + Pairs(right)
    case _ => 0
  }

  function AllPairs(cs: seq<Cst>): nat
    decreases cs
  {
    if cs == [] then 0 else Pairs(cs[0]) + AllPairs(cs[1..])
  }

  /** Operands that are binary operators, or unary operators of operators, and two for every bit access. */
  function Compounds(e: Exp): nat
    decreases e
  {
    match e
    case Call(_, args) => AllCompounds(args)
    case Bit(_, _) => 2
    case Unary(_, child) => Compounds(child) + AsOperand(child)
    case Binary(_, left, right) => Compounds(left) + AsOperand(left) + Compounds(right) + AsOperand(right)
    case _ => 0
  }

  function AllCompounds(es: seq<Exp>): nat
    decreases es
  {
    if es == [] then 0 else Compounds(es[0]) + AllCompounds(es[1..])
  }

  function AsOperand(e: Exp): nat {
    match e
    case Binary(_, _, _) => 1
    case Unary(_, Unary(_, _)) => 1
    case Unary(_, Binary(_, _, _)) => 1
    case _ => 0
  }

  /** The printed text has a pair of parentheses for each of these, and no other. */
  lemma {:induction false} PairsPrinted(e: Exp)
    ensures Pairs(ToCst(e)) == Compounds(e)
    decreases e, 0
  {
    match e
    case Imm(v) => NoPairsInNumber(v);
    case Call(_, args) => AllPairsPrinted(args);
    case Bit(x, index) => PairsOfBit(x, index);
    case Unary(_, child) => PairsPrinted(child);
    case Binary(_, left, right) => PairsPrinted(left); PairsPrinted(right);
    case _ =>
  }

  lemma {:induction false} NoPairsInNumber(v: Number)
    ensures Pairs(ImmCst(v)) == 0
  {
    match v
    case Int(n) => assert Pairs(CLit(Digits(if n < 0 then -n else n), Int(if n < 0 then -n else n))) == 0;
    case Float(_) =>
  }

  lemma {:induction false} PairsOfBit(x: string, index: Number)
    ensures Pairs(ToCst(Bit(x, index))) == 2
  {
    NoPairsInNumber(index);
    NoPairsInNumber(Int(1));
    var shift := CBinary(">>", CVar(x), ImmCst(index));
    assert ImmCst(Int(1)) == NumberCst(1);
    hide ImmCst, NumberCst;
    assert Pairs(shift) == 0;
    assert Pairs(CBinary("&", CParen(shift), NumberCst(1))) == 1;
  }

  lemma {:induction false} AllPairsPrinted(es: seq<Exp>)
    ensures AllPairs(ToCsts(es)) == AllCompounds(es)
    decreases es, 1
  {
    if es != [] {
      PairsPrinted(es[0]);
      AllPairsPrinted(es[1..]);
      assert ToCsts(es)[1..] == ToCsts(es[1..]);
    }
  }

  // --- Lexing printed text ---

  /** What can follow an operand in printed text. */
  predicate Follows(rest: string) {
    rest == "" || rest[0] in " ),"
  }

  lemma {:induction false} SingleOperator(g: Table, run: string, j: nat)
    requires Printable(g) && 1 <= j <= |run|
    requires run[0] in "-~()," || (run[0] == '!' && (|run| > 1 ==> run[1] != '='))
    ensures ExpLexer.OperatorSpan(g, run, j) == 1
    decreases j
  {
    if j > 1 {
      assert run[..j] !in g.prec by {
        assert run[..j][0] == run[0] && run[..j][1] == run[1];
        assert !GoodOperator(run[..j]);
      }
      SingleOperator(g, run, j - 1);
    }
  }

  /** A character that is a token of its own. */
  lemma {:induction false} LexSingle(g: Table, c: char, s: string, ts: seq<Token>)
    requires Printable(g) && ExpLexer.Lex(g, s) == ExpLexer.Tokens(ts)
    requires c in "-~()," || (c == '!' && (s != "" ==> s[0] != '='))
    ensures ExpLexer.Lex(g, [c] + s) == ExpLexer.Tokens([Punct([c])] + ts)
  {
    hide GoodOperator;
    var t := [c] + s;
    assert ExpLexer.IsPunct(c);
    var k := ExpLexer.PunctSpan(t);
    assert k > 0 && t[1..] == s;
    SingleOperator(g, t[..k], Arithmetic.Min(k, ExpLexer.MAX_OPERATOR_LEN));
    assert t[..1] == [c];
  }

  lemma {:induction false} PunctSpanOf(op: string, s: string)
    requires forall i | 0 <= i < |op| :: ExpLexer.IsPunct(op[i])
    requires s == "" || !ExpLexer.IsPunct(s[0])
    ensures ExpLexer.PunctSpan(op + s) == |op|
  {
    if op == "" {
      assert op + s == s;
    } else {
      assert (op + s)[1..] == op[1..] + s;
      PunctSpanOf(op[1..], s);
    }
  }

  /** An operator between spaces. */
  lemma {:induction false} LexOperator(g: Table, op: string, s: string, ts: seq<Token>)
    requires Printable(g) && op in g.prec && ExpLexer.Lex(g, s) == ExpLexer.Tokens(ts)
    ensures ExpLexer.Lex(g, " " + op + " " + s) == ExpLexer.Tokens([Punct(op)] + ts)
  {
    hide ExpLexer.Lex, Printable;
    var t := op + (" " + s);
    LexSpace(g, s);
    OperatorIsFirst(g, op, " " + s);
    LexSpace(g, t);
    assert " " + op + " " + s == " " + t;
  }

  /** An operator before a space is read as a whole. */
  lemma {:induction false} OperatorIsFirst(g: Table, op: string, s: string)
    requires Printable(g) && op in g.prec && s != "" && s[0] == ' '
    ensures ExpLexer.Lex(g, op + s) == ExpLexer.Prepend([Punct(op)], ExpLexer.Lex(g, s))
  {
    assert GoodOperator(op);
    hide Printable;
    var t := op + s;
    assert t[..|op|] == op && t[|op|..] == s && op[..|op|] == op && t[0] == op[0];
    OperatorSpanOf(g, op, s);
    hide GoodOperator, ExpLexer.FirstOperator;
  }

  lemma {:induction false} OperatorSpanOf(g: Table, op: string, s: string)
    requires op in g.prec && GoodOperator(op) && s != "" && s[0] == ' '
    ensures ExpLexer.IsPunct((op + s)[0]) && !ExpLexer.IsDotNumber(op + s)
    ensures ExpLexer.FirstOperator(g, op + s) == |op|
  {
    PunctSpanOf(op, s);
    hide ExpLexer.PunctSpan;
    assert (op + s)[..|op|] == op && op[..|op|] == op && (op + s)[0] == op[0];
  }

  lemma {:induction false} WordSpanOf(x: string, s: string)
    requires forall i | 0 <= i < |x| :: ExpLexer.IsWord(x[i])
    requires s == "" || !ExpLexer.IsWord(s[0])
    ensures ExpLexer.WordSpan(x + s) == |x|
  {
    if x == "" {
      assert x + s == s;
    } else {
      assert (x + s)[1..] == x[1..] + s;
      WordSpanOf(x[1..], s);
    }
  }

  lemma {:induction false} LexName(g: Table, x: string, s: string, ts: seq<Token>)
    requires IsName(x) && (s == "" || !ExpLexer.IsWord(s[0])) && ExpLexer.Lex(g, s) == ExpLexer.Tokens(ts)
    ensures ExpLexer.Lex(g, x + s) == ExpLexer.Tokens([Ident(x)] + ts)
  {
    WordSpanOf(x, s);
    assert (x + s)[..|x|] == x && (x + s)[|x|..] == s;
  }

  lemma {:induction false} DigitsAreDigits(n: nat)
    ensures forall i | 0 <= i < |Digits(n)| :: ExpLexer.IsDigit(Digits(n)[i])
    ensures ExpLexer.Decimal(Digits(n)) == n
  {
    var d := [(48 + n % 10) as char];
    assert ExpLexer.IsDigit(d[0]);
    if n < 10 {
      assert d[..0] == "";
    } else {
      DigitsAreDigits(n / 10);
      assert Digits(n)[..|Digits(n)| - 1] == Digits(n / 10);
    }
  }

  lemma {:induction false} LexDigits(g: Table, n: nat, s: string, ts: seq<Token>)
    requires Follows(s) && ExpLexer.Lex(g, s) == ExpLexer.Tokens(ts)
    ensures ExpLexer.Lex(g, Digits(n) + s) == ExpLexer.Tokens([Value(Digits(n), Int(n))] + ts)
  {
    var d := Digits(n);
    var t := d + s;
    DigitsAreDigits(n);
    hide Digits;
    NumberSpanOf(n, d, s);
    assert t[..|d|] == d && t[|d|..] == s;
    assert !ExpLexer.IsHexStart(t) by {
      if |d| > 1 { assert ExpLexer.IsDigit(d[1]) && t[1] == d[1]; }
    }
    assert t[0] == d[0] && ExpLexer.IsDigit(t[0]);
    hide ExpLexer.NumberSpan, ExpLexer.NumberOf;
    assert ExpLexer.Lex(g, t) == ExpLexer.LexNumber(g, t);
  }

  lemma {:induction false} NumberSpanOf(n: nat, d: string, s: string)
    requires Follows(s) && d == Digits(n)
    ensures ExpLexer.NumberSpan(d + s) == |d| && ExpLexer.NumberOf(d) == Int(n)
  {
    var t := d + s;
    DigitsAreDigits(n);
    hide Digits;
    ExpLexer.DigitSpanOf(d, s);
    assert t[..|d|] == d && t[|d|..] == s;
    assert ExpLexer.MantissaSpan(t) == |d| && ExpLexer.NumberSpan(t) == |d|;
    assert ExpLexer.NumberOf(d) == Int(n) by {
      assert d + "" == d;
      ExpLexer.DigitSpanOf(d, "");
      assert '|' !in d;
    }
  }

  lemma {:induction false} LexNumber(g: Table, v: Number, s: string, ts: seq<Token>)
    requires Printable(g) && v.Int? && Follows(s) && ExpLexer.Lex(g, s) == ExpLexer.Tokens(ts)
    ensures ExpLexer.Lex(g, PrintNumber(v) + s) == ExpLexer.Tokens(YieldTo(ImmCst(v), ts))
  {
    hide ExpLexer.Lex, GoodOperator, Digits;
    if v.n < 0 {
      LexDigits(g, -v.n, s, ts);
      var d := Digits(-v.n);
      LexSingle(g, '-', d + s, [Value(d, Int(-v.n))] + ts);
      assert PrintNumber(v) + s == ['-'] + (d + s);
    } else {
      LexDigits(g, v.n, s, ts);
    }
  }

  /** Printed text never starts with an equals sign. */
  lemma {:induction false} FirstCharacter(g: Table, e: Exp)
    requires Printable(g) && Readable(g, e)
    ensures Print(e) != "" && Print(e)[0] != '='
    ensures PrintChild(e) != "" && PrintChild(e)[0] != '='
  {
    match e
    case Imm(Int(n)) => DigitsAreDigits(if n < 0 then -n else n);
    case Unary(op, _) => assert |op| == 1;
    case Binary(_, left, _) => FirstCharacter(g, left);
    case _ =>
  }

  lemma {:induction false} LexPrint(g: Table, e: Exp, rest: string, ts: seq<Token>)
    requires Printable(g) && Readable(g, e) && Follows(rest)
    requires ExpLexer.Lex(g, rest) == ExpLexer.Tokens(ts)
    ensures ExpLexer.Lex(g, Print(e) + rest) == ExpLexer.Tokens(YieldTo(ToCst(e), ts))
    decreases e, 0
  {
    hide ExpLexer.Lex, Printable, Follows, IsName, ImmCst, PrintNumber;
    match e
    case Imm(v) => LexNumber(g, v, rest, ts);
    case Var(x) => LexNameBeforeRest(g, x, rest, ts);
    case Call(f, args) => LexCall(g, e, rest, ts);
    case Bit(x, index) => LexBit(g, e, rest, ts);
    case Unary(op, child) =>
      LexChild(g, child, rest, ts);
      LexUnary(g, op, child, PrintChild(child) + rest, YieldTo(ChildCst(child), ts));
      assert Print(e) + rest == op + (PrintChild(child) + rest);
    case Binary(op, left, right) =>
      LexChild(g, right, rest, ts);
      var tail := YieldTo(ChildCst(right), ts);
      LexOperator(g, op, PrintChild(right) + rest, tail);
      var s := " " + op + " " + (PrintChild(right) + rest);
      SpaceFollows(s);
      LexChild(g, left, s, [Punct(op)] + tail);
      assert Print(e) + rest == PrintChild(left) + s;
  }

  lemma {:induction false} SpaceFollows(s: string)
    requires s != "" && s[0] == ' '
    ensures Follows(s)
  {
  }

  lemma {:induction false} LexNameBeforeRest(g: Table, x: string, rest: string, ts: seq<Token>)
    requires IsName(x) && Follows(rest) && ExpLexer.Lex(g, rest) == ExpLexer.Tokens(ts)
    ensures ExpLexer.Lex(g, x + rest) == ExpLexer.Tokens([Ident(x)] + ts)
  {
    hide ExpLexer.Lex;
    LexName(g, x, rest, ts);
  }

  lemma {:induction false} LexUnary(g: Table, op: string, child: Exp, s: string, ts: seq<Token>)
    requires Printable(g) && op in g.unary && Readable(g, child) && PrintChild(child) <= s
    requires ExpLexer.Lex(g, s) == ExpLexer.Tokens(ts)
    ensures ExpLexer.Lex(g, op + s) == ExpLexer.Tokens([Punct(op)] + ts)
  {
    hide ExpLexer.Lex, GoodOperator, Print;
    FirstCharacter(g, child);
    assert s[0] == PrintChild(child)[0];
    LexSingle(g, op[0], s, ts);
    assert op == [op[0]];
  }

  lemma {:induction false} LexCall(g: Table, e: Exp, rest: string, ts: seq<Token>)
    requires Printable(g) && Readable(g, e) && Follows(rest) && e.Call?
    requires ExpLexer.Lex(g, rest) == ExpLexer.Tokens(ts)
    ensures ExpLexer.Lex(g, Print(e) + rest) == ExpLexer.Tokens(YieldTo(ToCst(e), ts))
    decreases e.args, 1
  {
    hide ExpLexer.Lex, GoodOperator, PrintArgs, ToCsts, YieldArgsTo;
    LexSingle(g, ')', rest, ts);
    var s, close := ")" + rest, [Punct(")")] + ts;
    LexArgs(g, e.args, true, s, close);
    var inner, innerTokens := PrintArgs(e.args) + s, YieldArgsTo(ToCsts(e.args), true, close);
    assert "" + PrintArgs(e.args) + s == inner;
    LexSingle(g, '(', inner, innerTokens);
    LexName(g, e.name, "(" + inner, [Punct("(")] + innerTokens);
    assert Print(e) + rest == e.name + ("(" + inner);
    assert [Ident(e.name)] + ([Punct("(")] + innerTokens) == [Ident(e.name), Punct("(")] + innerTokens;
  }

  lemma {:induction false} LexChild(g: Table, e: Exp, rest: string, ts: seq<Token>)
    requires Printable(g) && Readable(g, e) && Follows(rest)
    requires ExpLexer.Lex(g, rest) == ExpLexer.Tokens(ts)
    ensures ExpLexer.Lex(g, PrintChild(e) + rest) == ExpLexer.Tokens(YieldTo(ChildCst(e), ts))
    decreases e, 1
  {
    hide ExpLexer.Lex, Printable, Readable, Print, ToCst;
    if MustEnclose(e) {
      LexSingle(g, ')', rest, ts);
      LexPrint(g, e, ")" + rest, [Punct(")")] + ts);
      LexSingle(g, '(', Print(e) + (")" + rest), YieldTo(ToCst(e), [Punct(")")] + ts));
      assert PrintChild(e) + rest == "(" + (Print(e) + (")" + rest));
    } else {
      LexPrint(g, e, rest, ts);
    }
  }

  lemma {:induction false} LexArgs(g: Table, es: seq<Exp>, first: bool, rest: string, ts: seq<Token>)
    requires Printable(g) && (forall e | e in es :: Readable(g, e)) && Follows(rest)
    requires ExpLexer.Lex(g, rest) == ExpLexer.Tokens(ts)
    ensures ExpLexer.Lex(g, (if first || es == [] then "" else ", ") + PrintArgs(es) + rest)
         == ExpLexer.Tokens(YieldArgsTo(ToCsts(es), first, ts))
    decreases es, 0
  {
    hide ExpLexer.Lex, GoodOperator, ToCst, Print;
    if es == [] {
      assert "" + PrintArgs(es) + rest == rest;
    } else {
      var tail := YieldArgsTo(ToCsts(es[1..]), false, ts);
      var more := (if |es| == 1 then "" else ", ") + PrintArgs(es[1..]) + rest;
      LexArgs(g, es[1..], false, rest, ts);
      FollowsArgs(es, rest);
      LexPrint(g, es[0], more, tail);
      hide PrintArgs, Follows, Printable, Readable;
      if first {
        assert "" + PrintArgs(es) + rest == PrintArgs(es) + rest;
      } else {
        LexSpace(g, PrintArgs(es) + rest);
        LexSingle(g, ',', " " + (PrintArgs(es) + rest), YieldTo(ToCst(es[0]), tail));
        assert ", " + PrintArgs(es) + rest == "," + (" " + (PrintArgs(es) + rest));
      }
    }
  }

  lemma {:induction false} FollowsArgs(es: seq<Exp>, rest: string)
    requires es != [] && Follows(rest)
    ensures var more := (if |es| == 1 then "" else ", ") + PrintArgs(es[1..]) + rest;
            Follows(more) && PrintArgs(es) + rest == Print(es[0]) + more
  {
    hide Print;
    var more := (if |es| == 1 then "" else ", ") + PrintArgs(es[1..]) + rest;
    if |es| == 1 { assert more == rest; }
    assert PrintArgs(es) + rest == Print(es[0]) + more;
  }

  lemma {:induction false} LexSpace(g: Table, s: string)
    ensures ExpLexer.Lex(g, " " + s) == ExpLexer.Lex(g, s)
  {
    assert (" " + s)[1..] == s;
  }

  lemma {:induction false} LexBit(g: Table, e: Exp, rest: string, ts: seq<Token>)
    requires Printable(g) && Readable(g, e) && e.Bit? && Follows(rest)
    requires ExpLexer.Lex(g, rest) == ExpLexer.Tokens(ts)
    ensures ExpLexer.Lex(g, Print(e) + rest) == ExpLexer.Tokens(YieldTo(ToCst(e), ts))
  {
    hide ExpLexer.Lex, GoodOperator, Digits, PrintNumber, ImmCst;
    var (s6, t6) := (")" + rest, [Punct(")")] + ts);
    LexSingle(g, ')', rest, ts);
    var (s5, t5) := (PrintNumber(Int(1)) + s6, YieldTo(ImmCst(Int(1)), t6));
    LexNumber(g, Int(1), s6, t6);
    var (s4, t4) := (" " + "&" + " " + s5, [Punct("&")] + t5);
    LexOperator(g, "&", s5, t5);
    var (s3, t3) := (")" + s4, [Punct(")")] + t4);
    LexSingle(g, ')', s4, t4);
    var (s2, t2) := (PrintNumber(e.index) + s3, YieldTo(ImmCst(e.index), t3));
    LexNumber(g, e.index, s3, t3);
    var (s1, t1) := (" " + ">>" + " " + s2, [Punct(">>")] + t2);
    LexOperator(g, ">>", s2, t2);
    var (s0, t0) := (e.name + s1, [Ident(e.name)] + t1);
    LexName(g, e.name, s1, t1);
    LexSingle(g, '(', s0, t0);
    LexSingle(g, '(', "(" + s0, [Punct("(")] + t0);
    BitText(e, rest);
    BitTokens(e, ts);
  }

  lemma {:induction false} BitText(e: Exp, rest: string)
    requires e.Bit?
    ensures var s5 := PrintNumber(Int(1)) + (")" + rest);
            var s2 := PrintNumber(e.index) + (")" + (" " + "&" + " " + s5));
            Print(e) + rest == "(" + ("(" + (e.name + (" " + ">>" + " " + s2)))
  {
    assert PrintNumber(Int(1)) == "1";
    var v := PrintNumber(e.index);
    assert Print(e) == "((" + e.name + " >> " + v + ") & 1)";
    assert Print(e) + rest == "((" + (e.name + (" >> " + (v + (") & 1)" + rest))));
  }

  lemma {:induction false} BitTokens(e: Exp, ts: seq<Token>)
    requires e.Bit?
    ensures var t5 := YieldTo(ImmCst(Int(1)), [Punct(")")] + ts);
            var t2 := YieldTo(ImmCst(e.index), [Punct(")")] + ([Punct("&")] + t5));
            YieldTo(ToCst(e), ts) == [Punct("(")] + ([Punct("(")] + ([Ident(e.name)] + ([Punct(">>")] + t2)))
  {
    var one := [Punct("&")] + YieldTo(ImmCst(Int(1)), [Punct(")")] + ts);
    assert ImmCst(Int(1)) == NumberCst(1);
    var shift := CBinary(">>", CVar(e.name), ImmCst(e.index));
    var tail := [Punct(")")] + one;
    assert YieldTo(shift, tail) == [Ident(e.name)] + ([Punct(">>")] + YieldTo(ImmCst(e.index), tail));
    assert YieldTo(CParen(shift), one) == [Punct("(")] + YieldTo(shift, tail);
    assert YieldTo(ToCst(e), ts) == [Punct("(")] + YieldTo(CParen(shift), one);
  }

  // --- The round trip ---

  /** Lexing and parsing the printed text gives the expression back, with negative numbers and bit
      accesses written out. */
  lemma {:induction false} RoundTrip(g: Table, e: Exp)
    requires Printable(g) && Readable(g, e)
    ensures var lexed := ExpLexer.Lex(g, Print(e));
            && lexed.Tokens?
            && var parsed := ExpParserSpec.Parse(g, lexed.tokens);
               parsed.Ok? && Erase(parsed.value) == Desugar(e)
  {
    LexPrint(g, e, "", []);
    assert Print(e) + "" == Print(e);
    ToCstIsWellFormed(g, e);
    ToCstErases(e);
    ExpParserProof.ParseCorrect(g, Yield(ToCst(e)), ToCst(e));
  }

  /** For expressions without negative numbers and bit accesses, and the tables of the program, it
      is the same expression. */
  lemma {:induction false} RoundTripPlain(e: Exp)
    requires Readable(OPERATORS, e) && Plain(e)
    ensures var lexed := ExpLexer.Lex(OPERATORS, Print(e));
            && lexed.Tokens?
            && var parsed := ExpParserSpec.Parse(OPERATORS, lexed.tokens);
               parsed.Ok? && Erase(parsed.value) == e
  {
    OperatorsArePrintable();
    RoundTrip(OPERATORS, e);
    PlainIsDesugared(e);
  }
}
