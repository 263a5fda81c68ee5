/** Correctness of the parser against the stratified grammar: it is sound, complete, and so the
    grammar is unambiguous. */
module ExpParserProof {
  import opened ExpSyntax
  import opened ExpParserSpec

  // --- Soundness: what the parser accepts is a tree of the grammar that spells the input ---

  lemma {:induction false} OperandSound(g: Table, ts: seq<Token>)
    requires g.Valid() && ParseOperand(g, ts).Ok?
    ensures var r := ParseOperand(g, ts);
            WF(g, r.value) && !r.value.CBinary? && ts == YieldTo(r.value, r.rest)
    decreases |ts|, 1
  {
    if ts[0].Punct? && ts[0].data in g.unary {
      OperandSound(g, ts[1..]);
    } else if ts[0].Value? {
    } else if ts[0].Ident? {
      if StartsWith(ts[1..], "(") {
        ArgsSound(g, ts[2..], []);
        assert ts == [ts[0], ts[1]] + ts[2..];
      } else if StartsWith(ts[1..], "[") {
        assert ts == [ts[0], ts[1], ts[2], ts[3]] + ts[4..];
      }
    } else {
      ExprSound(g, ts[1..]);
      var inner := ParseExpr(g, ts[1..]);
      assert inner.rest == [Punct(")")] + inner.rest[1..];
    }
  }

  lemma {:induction false} ArgsSound(g: Table, ts: seq<Token>, args: seq<Cst>)
    requires g.Valid() && ParseArgs(g, ts, args).Ok?
    requires forall a | a in args :: WF(g, a)
    ensures var r := ParseArgs(g, ts, args);
            && |args| <= |r.value| && r.value[..|args|] == args
            && (forall a | a in r.value :: WF(g, a))
            && ts == YieldArgsTo(r.value[|args|..], args == [], [Punct(")")] + r.rest)
    decreases |ts|, 3
  {
    hide WF, YieldTo, YieldArgsTo;
    ParseArgsStep(g, ts, args);
    hide ParseArgs;
    var r := ParseArgs(g, ts, args);
    if StartsWith(ts, ")") {
      YieldNoArgs(args == [], [Punct(")")] + r.rest);
      assert r.value[|args|..] == [];
    } else {
      var ts' := if args != [] then ts[1..] else ts;
      ExprSound(g, ts');
      var first := ParseExpr(g, ts');
      ArgsSound(g, first.rest, args + [first.value]);
      ConsSlice(r.value, args, first.value);
      YieldOneArg(r.value[|args|..], args == [], [Punct(")")] + r.rest);
    }
  }

  /** One argument, or the end of the list. */
  lemma {:induction false} ParseArgsStep(g: Table, ts: seq<Token>, args: seq<Cst>)
    requires ParseArgs(g, ts, args).Ok?
    ensures StartsWith(ts, ")") ==> ParseArgs(g, ts, args) == Ok(args, ts[1..]) && ts == [Punct(")")] + ts[1..]
    ensures !StartsWith(ts, ")") ==>
              && (args != [] ==> ts != [] && ts == [Punct(",")] + ts[1..])
              && var first := ParseExpr(g, if args != [] then ts[1..] else ts);
                 first.Ok? && ParseArgs(g, ts, args) == ParseArgs(g, first.rest, args + [first.value])
  {
    hide ParseExpr;
  }

  lemma {:induction false} YieldNoArgs(first: bool, rest: seq<Token>)
    ensures YieldArgsTo([], first, rest) == rest
  {
  }

  lemma {:induction false} YieldOneArg(cs: seq<Cst>, first: bool, rest: seq<Token>)
    requires cs != []
    ensures var arg := YieldTo(cs[0], YieldArgsTo(cs[1..], false, rest));
            YieldArgsTo(cs, first, rest) == if first then arg else [Punct(",")] + arg
  {
  }

  lemma {:induction false} ConsSlice(cs: seq<Cst>, args: seq<Cst>, c: Cst)
    requires |args| < |cs| && cs[..|args| + 1] == args + [c]
    ensures cs[..|args|] == args && cs[|args|] == c && cs[|args|..][1..] == cs[|args| + 1..]
  {
    assert cs[|args|] == cs[..|args| + 1][|args|];
    assert cs[..|args|] == cs[..|args| + 1][..|args|];
  }

  lemma {:induction false} ExprSound(g: Table, ts: seq<Token>)
    requires g.Valid() && ParseExpr(g, ts).Ok?
    ensures WF(g, ParseExpr(g, ts).value)
    ensures ts == YieldTo(ParseExpr(g, ts).value, ParseExpr(g, ts).rest)
    decreases |ts|, 2, 1
  {
    FromSound(g, [], ts);
  }

  lemma {:induction false} FromSound(g: Table, stack: seq<Frame>, ts: seq<Token>)
    requires g.Valid() && StackOk(g, stack) && ParseFrom(g, stack, ts).Ok?
    ensures var r := ParseFrom(g, stack, ts);
            WF(g, r.value) && YieldTo(r.value, r.rest) == StackTo(stack, ts)
    decreases |ts|, 2, 0
  {
    OperandSound(g, ts);
    AfterSound(g, stack, ParseOperand(g, ts).value, ParseOperand(g, ts).rest);
  }

  lemma {:induction false} AfterSound(g: Table, stack: seq<Frame>, v: Cst, ts: seq<Token>)
    requires g.Valid() && StackOk(g, stack) && WF(g, v) && !v.CBinary?
    requires ParseAfter(g, stack, v, ts).Ok?
    ensures var r := ParseAfter(g, stack, v, ts);
            WF(g, r.value) && YieldTo(r.value, r.rest) == StackTo(stack, YieldTo(v, ts))
    decreases |ts|, 4
  {
    if ts != [] && ts[0].Punct? && ts[0].data in g.prec && ts[0].data != ":" {
      InsertSound(g, stack, v, ts[0].data, ts[1..]);
      FromSound(g, Insert(g, stack, v, ts[0].data), ts[1..]);
      assert ts == [ts[0]] + ts[1..];
    } else {
      PlugSound(g, stack, v, ts);
    }
  }

  // --- Completeness: every tree of the grammar is what the parser returns for its tokens ---

  /** The right spine of a tree as a stack, and the operand at its end. */
  function Spine(c: Cst): seq<Frame> {
    if c.CBinary? then [Frame(c.op, c.left)] + Spine(c.right) else []
  }

  function Last(c: Cst): Cst {
    if c.CBinary? then Last(c.right) else c
  }

  /** What follows cannot be taken for the argument list or the bit index of a name. */
  predicate NotOpen(rest: seq<Token>) {
    !StartsWith(rest, "(") && !StartsWith(rest, "[")
  }

  /** What follows cannot continue an expression either. */
  predicate Stops(g: Table, rest: seq<Token>) {
    NotOpen(rest) &&
    (rest != [] && rest[0].Punct? ==> rest[0].data !in g.prec || rest[0].data == ":")
  }

  /** Every operator on the stack stays above the root of `c`. */
  ghost predicate StaysAbove(g: Table, stack: seq<Frame>, c: Cst)
    requires StackOps(g, stack)
  {
    c.CBinary? ==> c.op in g.prec && forall i | 0 <= i < |stack| :: g.Above(stack[i].op, c.op)
  }

  lemma {:induction false} SpineOps(g: Table, c: Cst)
    requires WF(g, c)
    ensures StackOps(g, Spine(c))
  {
    if c.CBinary? { SpineOps(g, c.right); }
  }

  lemma {:induction false} PlugSpine(below: seq<Frame>, c: Cst)
    ensures Plug(below + Spine(c), Last(c)) == Plug(below, c)
    decreases c
  {
    if c.CBinary? {
      var f := Frame(c.op, c.left);
      PlugSpine(below + [f], c.right);
      assert below + Spine(c) == below + [f] + Spine(c.right);
      assert (below + [f])[..|below|] == below;
    } else {
      assert below + Spine(c) == below;
    }
  }

  /** An operator that the root of `c` does not stay above takes all of `c` as its left operand. */
  lemma {:induction false} InsertSpine(g: Table, below: seq<Frame>, c: Cst, op: string)
    requires StackOps(g, below) && WF(g, c) && op in g.prec
    requires c.CBinary? ==> !g.Above(c.op, op)
    ensures StackOps(g, below + Spine(c))
    ensures Insert(g, below + Spine(c), Last(c), op) == Insert(g, below, c, op)
    decreases c
  {
    SpineOps(g, c);
    if c.CBinary? {
      var f := Frame(c.op, c.left);
      InsertSpine(g, below + [f], c.right, op);
      assert below + Spine(c) == below + [f] + Spine(c.right);
      assert (below + [f])[..|below|] == below;
    } else {
      assert below + Spine(c) == below;
    }
  }

  lemma {:induction false} InsertOnTop(g: Table, stack: seq<Frame>, v: Cst, op: string)
    requires StackOps(g, stack) && op in g.prec
    requires forall i | 0 <= i < |stack| :: g.Above(stack[i].op, op)
    ensures Insert(g, stack, v, op) == stack + [Frame(op, v)]
  {
  }

  lemma {:induction false} FirstToken(g: Table, c: Cst, rest: seq<Token>)
    requires g.Valid() && WF(g, c)
    ensures var ts := YieldTo(c, rest); ts != [] && !StartsWith(ts, ")") && !StartsWith(ts, ",")
  {
    match c
    case CBinary(op, left, right) => FirstToken(g, left, [Punct(op)] + YieldTo(right, rest));
    case _ =>
  }

  lemma {:induction false} OperandComplete(g: Table, c: Cst, rest: seq<Token>)
    requires g.Valid() && WF(g, c) && !c.CBinary? && NotOpen(rest)
    ensures ParseOperand(g, YieldTo(c, rest)) == Ok(c, rest)
    decreases c, 0
  {
    var ts := YieldTo(c, rest);
    match c
    case CLit(_, _) =>
    case CVar(_) => assert ts[1..] == rest;
    case CBit(_, d, v) =>
      assert ts[2..] == [Value(d, v), Punct("]")] + rest;
      assert ts[2..][1..] == [Punct("]")] + rest;
    case CCall(f, args) =>
      assert ts[1] == Punct("(");
      assert ts[2..] == YieldArgsTo(args, true, [Punct(")")] + rest);
      ArgsComplete(g, args, [], rest);
      assert [] + args == args;
    case CParen(inner) =>
      var tail := [Punct(")")] + rest;
      assert ts[1..] == YieldTo(inner, tail);
      ExprComplete(g, inner, tail);
      assert tail[1..] == rest;
    case CUnary(op, child) =>
      assert ts[1..] == YieldTo(child, rest);
      OperandComplete(g, child, rest);
  }

  lemma {:induction false} ArgsComplete(g: Table, cs: seq<Cst>, args: seq<Cst>, rest: seq<Token>)
    requires g.Valid() && forall a | a in cs :: WF(g, a)
    ensures ParseArgs(g, YieldArgsTo(cs, args == [], [Punct(")")] + rest), args) == Ok(args + cs, rest)
    decreases cs, 1
  {
    var ts := YieldArgsTo(cs, args == [], [Punct(")")] + rest);
    if cs == [] {
      assert args + cs == args;
    } else {
      var tail := YieldArgsTo(cs[1..], false, [Punct(")")] + rest);
      var arg := YieldTo(cs[0], tail);
      FirstToken(g, cs[0], tail);
      assert args != [] ==> ts[1..] == arg;
      ExprComplete(g, cs[0], tail);
      ArgsComplete(g, cs[1..], args + [cs[0]], rest);
      assert args + [cs[0]] + cs[1..] == args + cs;
    }
  }

  lemma {:induction false} FromComplete(g: Table, c: Cst, stack: seq<Frame>, rest: seq<Token>)
    requires g.Valid() && WF(g, c) && NotOpen(rest)
    requires StackOps(g, stack) && StaysAbove(g, stack, c)
    ensures StackOps(g, stack + Spine(c))
    ensures ParseFrom(g, stack, YieldTo(c, rest)) == ParseAfter(g, stack + Spine(c), Last(c), rest)
    decreases c, 1
  {
    SpineOps(g, c);
    if c.CBinary? {
      BinaryParts(g, c, stack, rest);
      hide WF, ParseFrom, ParseAfter, Insert, Spine, Last, YieldTo, NotOpen, StaysAbove;
      var tail := YieldTo(c.right, rest);
      LeftStaysAbove(g, stack, c);
      FromComplete(g, c.left, stack, [Punct(c.op)] + tail);
      OperatorStep(g, stack, c, tail);
      RightStaysAbove(g, stack, c);
      FromComplete(g, c.right, stack + [Frame(c.op, c.left)], rest);
    } else {
      hide ParseAfter, ParseOperand, StaysAbove, NotOpen;
      OperandComplete(g, c, rest);
      assert stack + Spine(c) == stack;
    }
  }

  lemma {:induction false} BinaryParts(g: Table, c: Cst, stack: seq<Frame>, rest: seq<Token>)
    requires g.Valid() && WF(g, c) && c.CBinary?
    ensures var tail := YieldTo(c.right, rest);
            && YieldTo(c, rest) == YieldTo(c.left, [Punct(c.op)] + tail) && NotOpen([Punct(c.op)] + tail)
            && WF(g, c.left) && WF(g, c.right)
    ensures stack + [Frame(c.op, c.left)] + Spine(c.right) == stack + Spine(c) && Last(c) == Last(c.right)
  {
  }

  lemma {:induction false} LeftStaysAbove(g: Table, stack: seq<Frame>, c: Cst)
    requires WF(g, c) && c.CBinary? && StackOps(g, stack) && StaysAbove(g, stack, c)
    ensures StaysAbove(g, stack, c.left)
  {
  }

  lemma {:induction false} RightStaysAbove(g: Table, stack: seq<Frame>, c: Cst)
    requires WF(g, c) && c.CBinary? && StackOps(g, stack) && StaysAbove(g, stack, c)
    ensures StackOps(g, stack + [Frame(c.op, c.left)])
    ensures StaysAbove(g, stack + [Frame(c.op, c.left)], c.right)
  {
    if c.right.CBinary? {
      forall i | 0 <= i < |stack| ensures g.Above(stack[i].op, c.right.op) {
        AboveTransitive(g, stack[i].op, c.op, c.right.op);
      }
    }
  }

  /** The operator of `c` closes the spine of the left operand and waits for the right one. */
  lemma {:induction false} OperatorStep(g: Table, stack: seq<Frame>, c: Cst, tail: seq<Token>)
    requires WF(g, c) && c.CBinary? && StackOps(g, stack) && StaysAbove(g, stack, c)
    ensures StackOps(g, stack + Spine(c.left)) && StackOps(g, stack + [Frame(c.op, c.left)])
    ensures ParseAfter(g, stack + Spine(c.left), Last(c.left), [Punct(c.op)] + tail)
         == ParseFrom(g, stack + [Frame(c.op, c.left)], tail)
  {
    InsertSpine(g, stack, c.left, c.op);
    InsertOnTop(g, stack, c.left, c.op);
    assert ([Punct(c.op)] + tail)[1..] == tail;
  }

  lemma {:induction false} ExprComplete(g: Table, c: Cst, rest: seq<Token>)
    requires g.Valid() && WF(g, c) && Stops(g, rest)
    ensures ParseExpr(g, YieldTo(c, rest)) == Ok(c, rest)
    decreases c, 2
  {
    FromComplete(g, c, [], rest);
    PlugSpine([], c);
    assert [] + Spine(c) == Spine(c);
  }

  // --- Main results ---

  /** The parser returns `c` for a token list exactly when `c` is a tree of the grammar with these
      tokens. */
  lemma {:induction false} ParseCorrect(g: Table, ts: seq<Token>, c: Cst)
    requires g.Valid()
    ensures Parse(g, ts) == Ok(c, []) <==> WF(g, c) && Yield(c) == ts
  {
    if Parse(g, ts) == Ok(c, []) {
      ExprSound(g, ts);
    }
    if WF(g, c) && Yield(c) == ts {
      ExprComplete(g, c, []);
      FirstToken(g, c, []);
    }
  }

  /** The parser rejects exactly the token lists that are no sentence of the grammar. */
  lemma {:induction false} ParseFailsOnlyOutsideTheGrammar(g: Table, ts: seq<Token>)
    requires g.Valid()
    ensures Parse(g, ts).Fail? <==> !exists c :: WF(g, c) && Yield(c) == ts
  {
    if Parse(g, ts).Ok? {
      ParseCorrect(g, ts, Parse(g, ts).value);
    }
    forall c | WF(g, c) && Yield(c) == ts ensures Parse(g, ts).Ok? {
      ParseCorrect(g, ts, c);
    }
  }

  /** The grammar is unambiguous: precedence and associativity determine the tree. */
  lemma {:induction false} Unambiguous(g: Table, c: Cst, d: Cst)
    requires g.Valid() && WF(g, c) && WF(g, d) && Yield(c) == Yield(d)
    ensures c == d
  {
    ParseCorrect(g, Yield(c), c);
    ParseCorrect(g, Yield(c), d);
  }
}
