/** What the operator tables of db/exp.js mean for expressions without parentheses between their
    operators: which operator is at the root of the tree. */
module ExpPrecedence {
  import opened ExpSyntax
  import opened ExpParserSpec
  import opened ExpParserProof
  import opened ExpPrinter

  /** An operand: the parser takes its tokens for a tree that is not a binary operator. */
  ghost predicate IsOperand(g: Table, c: Cst) {
    !c.CBinary? && Parse(g, Yield(c)) == Ok(c, [])
  }

  /** The operands with the operators between them, followed by `rest`. */
  function ChainTo(cs: seq<Cst>, ops: seq<string>, rest: seq<Token>): seq<Token>
    requires |cs| == |ops| + 1
  {
    if ops == [] then YieldTo(cs[0], rest)
    else YieldTo(cs[0], [Punct(ops[0])] + ChainTo(cs[1..], ops[1..], rest))
  }

  predicate AreInTable(g: Table, ops: seq<string>) {
    forall i | 0 <= i < |ops| :: ops[i] in g.prec
  }

  ghost predicate IsChain(g: Table, cs: seq<Cst>, ops: seq<string>) {
    && |cs| == |ops| + 1
    && (forall i | 0 <= i < |cs| :: IsOperand(g, cs[i]))
    && (forall i | 0 <= i < |ops| :: g.Infix(ops[i]))
  }

  /** No operator binds looser than number `k`, and of those that bind as loosely, the ones before it
      associate to the left, and it associates to the right if there are any behind it. */
  ghost predicate IsRoot(g: Table, ops: seq<string>, k: nat)
    requires AreInTable(g, ops)
  {
    && k < |ops|
    && (forall i | 0 <= i < |ops| :: g.prec[ops[i]] <= g.prec[ops[k]])
    && (forall i | 0 <= i < k :: g.prec[ops[i]] == g.prec[ops[k]] ==> ops[i] !in g.rtl)
    && (forall i | k < i < |ops| :: g.prec[ops[i]] == g.prec[ops[k]] ==> ops[k] in g.rtl)
  }

  function Root(g: Table, ops: seq<string>): (k: nat)
    requires ops != [] && AreInTable(g, ops)
    ensures IsRoot(g, ops, k)
  {
    if |ops| == 1 then 0
    else
      var later := ops[1..];
      var r := Root(g, later);
      var a, b := g.prec[ops[0]], g.prec[later[r]];
      assert forall i | 1 <= i < |ops| :: ops[i] == later[i - 1];
      if a > b || (a == b && ops[0] in g.rtl) then 0 else r + 1
  }

  /** There is only one such operator. */
  lemma {:induction false} OneRoot(g: Table, ops: seq<string>, j: nat, k: nat)
    requires AreInTable(g, ops)
    requires IsRoot(g, ops, j) && IsRoot(g, ops, k)
    ensures j == k
  {
    assert g.prec[ops[j]] == g.prec[ops[k]];
  }

  lemma {:induction false} SplitChain(cs: seq<Cst>, ops: seq<string>, k: nat, rest: seq<Token>)
    requires |cs| == |ops| + 1 && k < |ops|
    ensures ChainTo(cs, ops, rest)
         == ChainTo(cs[..k + 1], ops[..k], [Punct(ops[k])] + ChainTo(cs[k + 1..], ops[k + 1..], rest))
  {
    if k > 0 {
      SplitChain(cs[1..], ops[1..], k - 1, rest);
      assert cs[1..][..k] == cs[..k + 1][1..] && ops[1..][..k - 1] == ops[..k][1..];
      assert cs[1..][k..] == cs[k + 1..] && ops[1..][k..] == ops[k + 1..];
    }
  }

  /** The tree with the root where it should be, at every level. */
  function TreeOf(g: Table, cs: seq<Cst>, ops: seq<string>): (c: Cst)
    requires |cs| == |ops| + 1 && AreInTable(g, ops)
    ensures ops != [] ==> c.CBinary?
    decreases |ops|
  {
    if ops == [] then cs[0]
    else
      var k := Root(g, ops);
      CBinary(ops[k], TreeOf(g, cs[..k + 1], ops[..k]), TreeOf(g, cs[k + 1..], ops[k + 1..]))
  }

  lemma {:induction false} TreeYields(g: Table, cs: seq<Cst>, ops: seq<string>, rest: seq<Token>)
    requires |cs| == |ops| + 1 && AreInTable(g, ops)
    ensures YieldTo(TreeOf(g, cs, ops), rest) == ChainTo(cs, ops, rest)
    decreases |ops|
  {
    if ops != [] {
      var k := Root(g, ops);
      TreeYields(g, cs[k + 1..], ops[k + 1..], rest);
      TreeYields(g, cs[..k + 1], ops[..k], [Punct(ops[k])] + ChainTo(cs[k + 1..], ops[k + 1..], rest));
      SplitChain(cs, ops, k, rest);
    }
  }

  lemma {:induction false} PartsAreChains(g: Table, cs: seq<Cst>, ops: seq<string>, k: nat)
    requires IsChain(g, cs, ops) && k < |ops|
    ensures IsChain(g, cs[..k + 1], ops[..k]) && IsChain(g, cs[k + 1..], ops[k + 1..]) && g.Infix(ops[k])
  {
    hide IsOperand;
  }

  lemma {:induction false} TreeIsWellFormed(g: Table, cs: seq<Cst>, ops: seq<string>)
    requires g.Valid() && IsChain(g, cs, ops)
    ensures WF(g, TreeOf(g, cs, ops))
    decreases |ops|
  {
    hide WF, Parse, Table.Valid, IsRoot;
    if ops == [] {
      assert IsOperand(g, cs[0]);
      ParseCorrect(g, Yield(cs[0]), cs[0]);
    } else {
      hide TreeOf;
      var k := Root(g, ops);
      assert k < |ops| by { RootIsThere(g, ops); }
      PartsAreChains(g, cs, ops, k);
      TreeIsWellFormed(g, cs[..k + 1], ops[..k]);
      TreeIsWellFormed(g, cs[k + 1..], ops[k + 1..]);
      RootedTree(g, cs, ops);
    }
  }

  lemma {:induction false} RootIsThere(g: Table, ops: seq<string>)
    requires ops != [] && AreInTable(g, ops)
    ensures Root(g, ops) < |ops|
  {
  }

  lemma {:induction false} TreeUnfolds(g: Table, cs: seq<Cst>, ops: seq<string>)
    requires |cs| == |ops| + 1 && AreInTable(g, ops) && ops != []
    ensures var k := Root(g, ops);
            TreeOf(g, cs, ops) == CBinary(ops[k], TreeOf(g, cs[..k + 1], ops[..k]), TreeOf(g, cs[k + 1..], ops[k + 1..]))
  {
    hide IsRoot;
  }

  lemma {:induction false} RootedTree(g: Table, cs: seq<Cst>, ops: seq<string>)
    requires IsChain(g, cs, ops) && ops != []
    requires var k := Root(g, ops);
             WF(g, TreeOf(g, cs[..k + 1], ops[..k])) && WF(g, TreeOf(g, cs[k + 1..], ops[k + 1..]))
    ensures WF(g, TreeOf(g, cs, ops))
  {
    hide WF, IsOperand, TreeOf, Table.Above;
    LeftOfRoot(g, cs, ops);
    RightOfRoot(g, cs, ops);
    TreeUnfolds(g, cs, ops);
    var k := Root(g, ops);
    assert g.Infix(ops[k]);
    hide IsChain, IsRoot, AreInTable;
    BinaryIsWellFormed(g, ops[k], TreeOf(g, cs[..k + 1], ops[..k]), TreeOf(g, cs[k + 1..], ops[k + 1..]));
  }

  lemma {:induction false} BinaryIsWellFormed(g: Table, op: string, left: Cst, right: Cst)
    requires g.Infix(op) && WF(g, left) && WF(g, right)
    requires left.CBinary? ==> left.op in g.prec && !g.Above(left.op, op)
    requires right.CBinary? ==> right.op in g.prec && g.Above(op, right.op)
    ensures WF(g, CBinary(op, left, right))
  {
  }

  lemma {:induction false} LeftOfRoot(g: Table, cs: seq<Cst>, ops: seq<string>)
    requires IsChain(g, cs, ops) && ops != []
    ensures var k := Root(g, ops);
            var left := TreeOf(g, cs[..k + 1], ops[..k]);
            left.CBinary? ==> left.op in g.prec && !g.Above(left.op, ops[k])
  {
    var k := Root(g, ops);
    if k > 0 {
      var i := Root(g, ops[..k]);
      assert TreeOf(g, cs[..k + 1], ops[..k]).op == ops[..k][i] == ops[i];
    } else {
      assert IsOperand(g, cs[0]) && TreeOf(g, cs[..1], ops[..0]) == cs[0];
    }
  }

  lemma {:induction false} RightOfRoot(g: Table, cs: seq<Cst>, ops: seq<string>)
    requires IsChain(g, cs, ops) && ops != []
    ensures var k := Root(g, ops);
            var right := TreeOf(g, cs[k + 1..], ops[k + 1..]);
            right.CBinary? ==> right.op in g.prec && g.Above(ops[k], right.op)
  {
    var k := Root(g, ops);
    if k < |ops| - 1 {
      var i := Root(g, ops[k + 1..]);
      assert TreeOf(g, cs[k + 1..], ops[k + 1..]).op == ops[k + 1..][i] == ops[k + 1 + i];
    } else {
      assert IsOperand(g, cs[k + 1]) && TreeOf(g, cs[k + 1..], ops[k + 1..]) == cs[k + 1];
    }
  }

  // --- Main results ---

  lemma {:induction false} ParseChain(g: Table, cs: seq<Cst>, ops: seq<string>)
    requires g.Valid() && IsChain(g, cs, ops)
    ensures Parse(g, ChainTo(cs, ops, [])) == Ok(TreeOf(g, cs, ops), [])
  {
    TreeIsWellFormed(g, cs, ops);
    TreeYields(g, cs, ops, []);
    ParseCorrect(g, ChainTo(cs, ops, []), TreeOf(g, cs, ops));
  }

  /** Of any number of operands with operators between them, the parser makes a tree with that operator
      at the root, and below it what it makes of the two parts. */
  lemma {:induction false} RootOfChain(g: Table, cs: seq<Cst>, ops: seq<string>, k: nat)
    requires g.Valid() && IsChain(g, cs, ops) && IsRoot(g, ops, k)
    ensures var left, right := Parse(g, ChainTo(cs[..k + 1], ops[..k], [])), Parse(g, ChainTo(cs[k + 1..], ops[k + 1..], []));
            && left.Ok? && right.Ok?
            && Parse(g, ChainTo(cs, ops, [])) == Ok(CBinary(ops[k], left.value, right.value), [])
  {
    OneRoot(g, ops, k, Root(g, ops));
    ParseChain(g, cs, ops);
    ParseChain(g, cs[..k + 1], ops[..k]);
    ParseChain(g, cs[k + 1..], ops[k + 1..]);
  }

  lemma {:induction false} NameIsOperand(g: Table, x: string)
    requires g.Valid()
    ensures IsOperand(g, CVar(x))
  {
    ParseCorrect(g, Yield(CVar(x)), CVar(x));
  }

  function ThreeNames(x: string, a: string, y: string, b: string, z: string): seq<Token> {
    [Ident(x), Punct(a), Ident(y), Punct(b), Ident(z)]
  }

  function ToTheLeft(x: string, a: string, y: string, b: string, z: string): Cst {
    CBinary(b, CBinary(a, CVar(x), CVar(y)), CVar(z))
  }

  function ToTheRight(x: string, a: string, y: string, b: string, z: string): Cst {
    CBinary(a, CVar(x), CBinary(b, CVar(y), CVar(z)))
  }

  /** Of two operators between three names, the first belongs together exactly if it has the smaller
      number, or the same and does not associate to the right. */
  lemma {:induction false} PrecedenceDecides(g: Table, x: string, a: string, y: string, b: string, z: string)
    requires g.Valid() && g.Infix(a) && g.Infix(b)
    ensures var first := g.prec[a] < g.prec[b] || (g.prec[a] == g.prec[b] && a !in g.rtl);
            && (Parse(g, ThreeNames(x, a, y, b, z)) == Ok(ToTheLeft(x, a, y, b, z), []) <==> first)
            && (Parse(g, ThreeNames(x, a, y, b, z)) == Ok(ToTheRight(x, a, y, b, z), []) <==> !first)
  {
    var cs, ops := [CVar(x), CVar(y), CVar(z)], [a, b];
    NameIsOperand(g, x);
    NameIsOperand(g, y);
    NameIsOperand(g, z);
    hide Parse, Table.Valid;
    ParseChain(g, cs, ops);
    ThreeNamesAreAChain(x, a, y, b, z);
    var k := Root(g, ops);
    assert k == if g.prec[a] < g.prec[b] || (g.prec[a] == g.prec[b] && a !in g.rtl) then 1 else 0;
    TreeOfThree(g, x, a, y, b, z);
  }

  lemma {:induction false} ThreeNamesAreAChain(x: string, a: string, y: string, b: string, z: string)
    ensures ChainTo([CVar(x), CVar(y), CVar(z)], [a, b], []) == ThreeNames(x, a, y, b, z)
  {
    var cs, ops := [CVar(x), CVar(y), CVar(z)], [a, b];
    assert cs[1..] == [CVar(y), CVar(z)] && ops[1..] == [b];
    assert cs[1..][1..] == [CVar(z)] && ops[1..][1..] == [];
    assert ChainTo([CVar(z)], [], []) == [Ident(z)];
    assert ChainTo(cs[1..], ops[1..], []) == [Ident(y)] + ([Punct(b)] + [Ident(z)]);
    assert ChainTo(cs, ops, []) == [Ident(x)] + ([Punct(a)] + ([Ident(y)] + ([Punct(b)] + [Ident(z)])));
  }

  lemma {:induction false} TreeOfThree(g: Table, x: string, a: string, y: string, b: string, z: string)
    requires g.Infix(a) && g.Infix(b)
    ensures TreeOf(g, [CVar(x), CVar(y), CVar(z)], [a, b])
         == if Root(g, [a, b]) == 1 then ToTheLeft(x, a, y, b, z) else ToTheRight(x, a, y, b, z)
  {
    var cs, ops := [CVar(x), CVar(y), CVar(z)], [a, b];
    if Root(g, ops) == 1 {
      assert cs[..2] == [CVar(x), CVar(y)] && ops[..1] == [a] && cs[2..] == [CVar(z)] && ops[2..] == [];
      TreeOfTwo(g, x, a, y);
    } else {
      assert cs[1..] == [CVar(y), CVar(z)] && ops[1..] == [b] && cs[..1] == [CVar(x)] && ops[..0] == [];
      TreeOfTwo(g, y, b, z);
    }
  }

  lemma {:induction false} TreeOfTwo(g: Table, x: string, a: string, y: string)
    requires g.Infix(a)
    ensures TreeOf(g, [CVar(x), CVar(y)], [a]) == CBinary(a, CVar(x), CVar(y))
  {
    var cs := [CVar(x), CVar(y)];
    assert cs[..1] == [CVar(x)] && cs[1..] == [CVar(y)];
  }

  /** The operators of the program, from the tightest to the loosest. */
  const GROUPS: seq<set<string>> :=
    [{"*", "/", "%"}, {"+", "-"}, {"<<", ">>"}, {"<", "<=", ">", ">="}, {"==", "!="}, {"&"}, {"^"}, {"|"}, {"&&"}, {"||"}]

  const LEVELS := [5, 6, 7, 9, 10, 11, 12, 13, 14, 15]

  lemma {:induction false} LevelOf(a: string, i: nat)
    requires i < |GROUPS| && a in GROUPS[i]
    ensures OPERATORS.Infix(a) && OPERATORS.prec[a] == LEVELS[i]
  {
    if i < 2 { LevelOfTight(a, i); } else if i < 4 { LevelOfMiddle(a, i); } else { LevelOfLoose(a, i); }
  }

  lemma {:induction false} LevelOfTight(a: string, i: nat)
    requires i < 2 && a in GROUPS[i]
    ensures OPERATORS.Infix(a) && OPERATORS.prec[a] == LEVELS[i]
  {
    if i == 0 {
      assert a == "*" || a == "/" || a == "%";
    } else {
      assert a == "+" || a == "-";
    }
  }

  lemma {:induction false} LevelOfMiddle(a: string, i: nat)
    requires 2 <= i < 4 && a in GROUPS[i]
    ensures OPERATORS.Infix(a) && OPERATORS.prec[a] == LEVELS[i]
  {
    if i == 2 {
      assert a == "<<" || a == ">>";
    } else {
      assert a == "<" || a == "<=" || a == ">" || a == ">=";
    }
  }

  lemma {:induction false} LevelOfLoose(a: string, i: nat)
    requires 4 <= i < |GROUPS| && a in GROUPS[i]
    ensures OPERATORS.Infix(a) && OPERATORS.prec[a] == LEVELS[i]
  {
    if i == 4 {
      assert a == "==" || a == "!=";
    } else {
      assert a == ["&", "^", "|", "&&", "||"][i - 5];
    }
  }

  /** With the tables of the program: the first of two operators belongs together exactly if its group
      is not a looser one. */
  lemma {:induction false} GroupsDecide(x: string, a: string, i: nat, y: string, b: string, j: nat, z: string)
    requires i < |GROUPS| && j < |GROUPS| && a in GROUPS[i] && b in GROUPS[j]
    ensures (Parse(OPERATORS, ThreeNames(x, a, y, b, z)) == Ok(ToTheLeft(x, a, y, b, z), []) <==> i <= j)
         && (Parse(OPERATORS, ThreeNames(x, a, y, b, z)) == Ok(ToTheRight(x, a, y, b, z), []) <==> i > j)
  {
    OperatorsAreValid();
    LevelOf(a, i);
    LevelOf(b, j);
    assert (LEVELS[i] < LEVELS[j] <==> i < j) && (LEVELS[i] == LEVELS[j] <==> i == j);
    assert OPERATORS.rtl == {};
    hide Parse, OPERATORS, GROUPS;
    PrecedenceDecides(OPERATORS, x, a, y, b, z);
  }
}
