/** The parser of db/exp.js as it is written: a token cursor and methods that build nodes while
    they advance it. Each method is proved against the parser function. */
module ExpParser {
  import opened ExpSyntax
  import opened ExpParserSpec
  import opened ExpNodes
  import opened Wrappers

  datatype Result<+T> = Success(value: T) | Failure(error: Error)

  /** The node `r` and the nodes below it, all of them in `done`, are what `spec` promises, and the
      cursor is at the token list that `spec` leaves. */
  ghost predicate Delivers(r: Result<Node>, done: set<Node>, ts: seq<Token>, spec: Parsed<Cst>)
    reads done
  {
    if spec.Fail? then r == Failure(spec.error)
    else r.Success? && Models(r.value, Erase(spec.value), done) && ts == spec.rest
  }

  // --- Chains of unary operators ---

  function PrefixAll(ops: seq<string>, c: Cst): Cst {
    if ops == [] then c else CUnary(ops[0], PrefixAll(ops[1..], c))
  }

  function WrapAll(ops: seq<string>, r: Parsed<Cst>): Parsed<Cst> {
    if r.Fail? then r else Ok(PrefixAll(ops, r.value), r.rest)
  }

  lemma {:induction false} WrapStep(g: Table, tokens: seq<Token>, at: nat, ops: seq<string>)
    requires at < |tokens| && tokens[at].Punct? && tokens[at].data in g.unary
    ensures WrapAll(ops, ParseOperand(g, tokens[at..]))
         == WrapAll(ops + [tokens[at].data], ParseOperand(g, tokens[at + 1..]))
  {
    assert tokens[at..][1..] == tokens[at + 1..];
    var r := ParseOperand(g, tokens[at + 1..]);
    if r.Ok? { PrefixSnoc(ops, tokens[at].data, r.value); }
  }

  lemma {:induction false} PrefixSnoc(ops: seq<string>, op: string, c: Cst)
    ensures PrefixAll(ops + [op], c) == PrefixAll(ops, CUnary(op, c))
  {
    if ops == [] {
      assert ops + [op] == [op] && [op][1..] == [];
    } else {
      assert (ops + [op])[1..] == ops[1..] + [op];
      PrefixSnoc(ops[1..], op, c);
    }
  }

  /** Unary operator nodes, each the child of the one before; the last one's child is open. */
  ghost predicate Chain(chain: seq<Node>, ops: seq<string>)
    reads chain
  {
    && |chain| == |ops|
    && (forall i | 0 <= i < |chain| :: chain[i].kind == UnaryKind && chain[i].name == ops[i])
    && (forall i | 0 <= i < |chain| - 1 :: chain[i].child == chain[i + 1])
  }

  /** `first` and `last` are the ends of the chain. */
  ghost predicate ChainEnds(chain: seq<Node>, ops: seq<string>, first: Node?, last: Node?)
    reads chain
  {
    && Chain(chain, ops) && (chain == [] <==> last == null)
    && (chain != [] ==> first == chain[0] && last == chain[|chain| - 1])
    && (forall i | 0 <= i < |chain| - 1 :: chain[i] != last)
  }

  lemma {:induction false} NoChain()
    ensures ChainEnds([], [], null, null)
  {
  }

  method ExtendChain(op: string, first: Node?, last: Node?, ghost chain: seq<Node>, ghost ops: seq<string>)
    returns (first': Node?, node: Node, ghost chain': seq<Node>)
    requires ChainEnds(chain, ops, first, last)
    modifies if last == null then {} else {last}
    ensures fresh(node) && chain' == chain + [node] && ChainEnds(chain', ops + [op], first', node)
  {
    first' := first;
    node := new Node.Unary(op);
    if last != null { last.child := node; } else { first' := node; }
    chain' := chain + [node];
  }

  lemma {:induction false} ChainModels(chain: seq<Node>, ops: seq<string>, n: Node, c: Cst, done: set<Node>, all: set<Node>)
    requires Chain(chain, ops) && (chain != [] ==> chain[|chain| - 1].child == n)
    requires Models(n, Erase(c), done) && done <= all && forall m | m in chain :: m in all
    ensures Models(if chain == [] then n else chain[0], Erase(PrefixAll(ops, c)), all)
    decreases |chain|
  {
    if chain == [] {
      ModelsMore(n, Erase(c), done, all);
    } else {
      ChainModels(chain[1..], ops[1..], n, c, done, all);
    }
  }

  // --- The parser ---

  class Parser {
    const g: Table
    const tokens: seq<Token>
    var tIndex: nat

    constructor (g: Table, tokens: seq<Token>)
      ensures this.g == g && this.tokens == tokens && tIndex == 0
    {
      this.g, this.tokens, this.tIndex := g, tokens, 0;
    }

    /** The tokens that are still to be read. */
    function Ahead(): seq<Token>
      requires tIndex <= |tokens|
      reads this
    {
      tokens[tIndex..]
    }

    function Peek(): Option<Token>
      reads this
    {
      if tIndex < |tokens| then Some(tokens[tIndex]) else None
    }

    /** The token at a place was read last, or there is none there. */
    predicate JustRead(token: Option<Token>, at: nat)
      reads this
    {
      && at <= |tokens| && tIndex == (if at < |tokens| then at + 1 else at)
      && token == if at < |tokens| then Some(tokens[at]) else None
    }

    method Next() returns (token: Option<Token>)
      requires tIndex <= |tokens|
      modifies this
      ensures JustRead(token, old(tIndex))
    {
      token := Peek();
      if token.Some? { tIndex := tIndex + 1; }
    }

    static function Unexpected(token: Option<Token>): Error {
      if token.None? then UnexpectedEnd else UnexpectedToken(token.value)
    }

    predicate IsUnary(token: Option<Token>) {
      token.Some? && token.value.Punct? && token.value.data in g.unary
    }

    /** The operand is what the operators make of the operand at `at`. */
    ghost predicate Unwraps(spec: Parsed<Cst>, ops: seq<string>, at: nat) {
      at <= |tokens| && spec == WrapAll(ops, ParseOperand(g, tokens[at..]))
    }

    /** Adds the operator that was just read to the chain, and reads the next token. */
    method ReadUnaryOperator(token: Option<Token>, first: Node?, last: Node?,
                             ghost chain: seq<Node>, ghost ops: seq<string>, ghost at: nat, ghost spec: Parsed<Cst>)
      returns (first': Node?, last': Node?, token': Option<Token>, ghost chain': seq<Node>, ghost ops': seq<string>)
      requires IsUnary(token) && JustRead(token, at) && ChainEnds(chain, ops, first, last) && Unwraps(spec, ops, at)
      modifies this, if last == null then {} else {last}
      ensures at < |tokens| && JustRead(token', at + 1) && fresh(last')
      ensures ChainEnds(chain', ops', first', last') && forall n | n in chain' :: n in chain || fresh(n)
      ensures Unwraps(spec, ops', at + 1)
    {
      hide ParseOperand, WrapAll, ChainEnds;
      var op := token.value.data;
      WrapStep(g, tokens, at, ops);
      first', last', chain' := ExtendChain(op, first, last, chain, ops);
      ops' := ops + [op];
      token' := Next();
    }

    /** Reads the unary operators in front of an operand, and the token after them. */
    method ReadUnaryOperators()
      returns (unaryFirst: Node?, unaryLast: Node?, token: Option<Token>,
               ghost chain: seq<Node>, ghost ops: seq<string>, ghost at: nat)
      requires tIndex <= |tokens|
      modifies this
      ensures old(tIndex) <= at && JustRead(token, at) && !IsUnary(token)
      ensures ChainEnds(chain, ops, unaryFirst, unaryLast) && forall n | n in chain :: fresh(n)
      ensures unaryLast == null || fresh(unaryLast)
      ensures Unwraps(ParseOperand(g, old(Ahead())), ops, at)
    {
      ghost var spec := ParseOperand(g, Ahead());
      assert Unwraps(spec, [], tIndex);
      NoChain();
      hide ParseOperand, Unwraps, ChainEnds, JustRead, IsUnary;
      unaryFirst, unaryLast, chain, ops, at := null, null, [], [], tIndex;
      token := Next();
      while IsUnary(token)
        invariant old(tIndex) <= at && JustRead(token, at)
        invariant ChainEnds(chain, ops, unaryFirst, unaryLast) && forall n | n in chain :: fresh(n)
        invariant unaryLast == null || fresh(unaryLast)
        invariant Unwraps(spec, ops, at)
        decreases |tokens| - at
      {
        unaryFirst, unaryLast, token, chain, ops := ReadUnaryOperator(token, unaryFirst, unaryLast, chain, ops, at, spec);
        at := at + 1;
      }
    }

    /** Parses unary operators and the value, variable, call or nested expression they apply to. */
    method ParseOperandNode() returns (r: Result<Node>, ghost done: set<Node>)
      requires tIndex <= |tokens|
      modifies this
      ensures tIndex <= |tokens| && fresh(done)
      ensures Delivers(r, done, Ahead(), ParseOperand(g, old(Ahead())))
      decreases |tokens| - tIndex, 1
    {
      hide ParseOperand, Models, Erase;
      var unaryFirst, unaryLast, token;
      ghost var chain, ops, at;
      unaryFirst, unaryLast, token, chain, ops, at := ReadUnaryOperators();
      r, done := ParsePrimaryNode(token, at);
      if r.Success? && unaryLast != null {
        unaryLast.child := r.value;
        ghost var all := done + set n | n in chain;
        ChainModels(chain, ops, r.value, ParseOperand(g, tokens[at..]).value, done, all);
        done := all;
        r := Success(unaryFirst);
      }
    }

    /** Parses a value, variable, call or nested expression whose first token was just read. */
    method ParsePrimaryNode(token: Option<Token>, ghost at: nat) returns (r: Result<Node>, ghost done: set<Node>)
      requires JustRead(token, at)
      requires !IsUnary(token)
      modifies this
      ensures tIndex <= |tokens| && fresh(done)
      ensures Delivers(r, done, Ahead(), ParseOperand(g, tokens[at..]))
      decreases |tokens| - at, 0
    {
      done := {};
      if token.Some? && token.value.Value? {
        var n := new Node.Imm(token.value.value);
        r, done := Success(n), {n};
      } else if token.Some? && token.value.Ident? {
        var name := token.value.data;
        var after := Peek();
        if after == Some(Punct("(")) {
          r, done := ParseCallNode(name);
        } else if after == Some(Punct("[")) {
          r, done := ParseBitAccess(name);
        } else {
          var n := new Node.Var(name);
          r, done := Success(n), {n};
        }
      } else if token == Some(Punct("(")) {
        r, done := ParseExpressionNode();
        if r.Success? {
          var close := Next();
          if close != Some(Punct(")")) { r := Failure(Unexpected(close)); }
        }
      } else {
        r := Failure(Unexpected(token));
      }
    }

    method ParseCallNode(name: string) returns (r: Result<Node>, ghost done: set<Node>)
      requires 0 < tIndex < |tokens| && tokens[tIndex - 1] == Ident(name) && tokens[tIndex] == Punct("(")
      modifies this
      ensures tIndex <= |tokens| && fresh(done)
      ensures Delivers(r, done, Ahead(), ParseOperand(g, old(tokens[tIndex - 1..])))
      decreases |tokens| - tIndex, 4
    {
      done := {};
      ghost var start := tokens[tIndex - 1..];
      assert start[1..] == tokens[tIndex..] && start[2..] == tokens[tIndex + 1..];
      CallSpec(g, start, name);
      hide ParseOperand, ParseArgs, Models, Erase;
      var open := Next();
      var args: seq<Node> := [];
      ghost var cs: seq<Cst> := [];
      ghost var first := Ahead();
      while Peek() != Some(Punct(")"))
        invariant old(tIndex) < tIndex <= |tokens|
        invariant |args| == |cs| && fresh(done)
        invariant forall i | 0 <= i < |cs| :: Models(args[i], Erase(cs[i]), done)
        invariant ParseArgs(g, first, []) == ParseArgs(g, Ahead(), cs)
        decreases |tokens| - tIndex
      {
        r, args, cs, done := ParseArgument(args, cs, done);
        if r.Failure? { return; }
      }
      ArgsEnd(g, Ahead(), cs);
      assert Ahead()[1..] == tokens[tIndex + 1..];
      tIndex := tIndex + 1;
      var n := new Node.Call(name, args);
      ghost var all := done + {n};
      MoreArguments(args, cs, done, all);
      CallModels(n, name, args, cs, all);
      r, done := Success(n), all;
    }

    static lemma {:induction false} CallSpec(g: Table, start: seq<Token>, name: string)
      requires |start| >= 2 && start[0] == Ident(name) && start[1] == Punct("(")
      ensures var args := ParseArgs(g, start[2..], []);
              ParseOperand(g, start)
              == if args.Fail? then Fail(args.error) else Ok(CCall(name, args.value), args.rest)
    {
      hide ParseArgs;
    }

    static lemma {:induction false} ArgsEnd(g: Table, ts: seq<Token>, cs: seq<Cst>)
      requires StartsWith(ts, ")")
      ensures ParseArgs(g, ts, cs) == Ok(cs, ts[1..])
    {
    }

    static lemma {:induction false} CallModels(n: Node, name: string, args: seq<Node>, cs: seq<Cst>, all: set<Node>)
      requires n in all && n.kind == CallKind && n.name == name && n.args == args && |args| == |cs|
      requires forall i | 0 <= i < |cs| :: Models(args[i], Erase(cs[i]), all)
      ensures Models(n, Erase(CCall(name, cs)), all)
    {
    }

    /** Parses one more argument, after the comma that separates it from the last one. */
    method ParseArgument(args: seq<Node>, ghost cs: seq<Cst>, ghost done: set<Node>)
      returns (r: Result<Node>, args': seq<Node>, ghost cs': seq<Cst>, ghost done': set<Node>)
      requires tIndex <= |tokens| && Peek() != Some(Punct(")"))
      requires |args| == |cs| && forall i | 0 <= i < |cs| :: Models(args[i], Erase(cs[i]), done)
      modifies this
      ensures tIndex <= |tokens| && fresh(done' - done) && |args'| == |cs'|
      ensures r.Failure? ==> ParseArgs(g, old(Ahead()), cs) == Fail(r.error)
      ensures r.Success? ==>
        && old(tIndex) < tIndex && ParseArgs(g, old(Ahead()), cs) == ParseArgs(g, Ahead(), cs')
        && forall i | 0 <= i < |cs'| :: Models(args'[i], Erase(cs'[i]), done')
      decreases |tokens| - tIndex, 3
    {
      args', cs', done' := args, cs, done;
      if |args| != 0 {
        if Peek() != Some(Punct(",")) { return Failure(Unexpected(Peek())), args, cs, done; }
        assert Ahead()[1..] == tokens[tIndex + 1..];
        tIndex := tIndex + 1;
      }
      ghost var c := ParseExpr(g, Ahead());
      ghost var more;
      r, more := ParseExpressionNode();
      if r.Success? {
        args', cs', done' := args + [r.value], cs + [c.value], done + more;
        MoreArguments(args, cs, done, done');
        ModelsMore(r.value, Erase(c.value), more, done');
      }
    }

    static lemma {:induction false} MoreArguments(args: seq<Node>, cs: seq<Cst>, done: set<Node>, all: set<Node>)
      requires |args| == |cs| && forall i | 0 <= i < |cs| :: Models(args[i], Erase(cs[i]), done)
      requires done <= all
      ensures forall i | 0 <= i < |cs| :: Models(args[i], Erase(cs[i]), all)
    {
      forall i | 0 <= i < |cs| ensures Models(args[i], Erase(cs[i]), all) {
        ModelsMore(args[i], Erase(cs[i]), done, all);
      }
    }

    method ParseBitAccess(name: string) returns (r: Result<Node>, ghost done: set<Node>)
      requires 0 < tIndex < |tokens| && tokens[tIndex - 1] == Ident(name) && tokens[tIndex] == Punct("[")
      modifies this
      ensures tIndex <= |tokens| && fresh(done)
      ensures Delivers(r, done, Ahead(), ParseOperand(g, old(tokens[tIndex - 1..])))
    {
      done := {};
      ghost var start := tokens[tIndex - 1..];
      assert start[1..] == tokens[tIndex..] && start[2..] == tokens[tIndex + 1..];
      var token := Next();
      token := Next();
      if token.None? || !token.value.Value? {
        r := Failure(Unexpected(token));
        return;
      }
      var index := token.value.value;
      assert start[2..][1..] == Ahead();
      token := Next();
      if token != Some(Punct("]")) {
        r := Failure(Unexpected(token));
        return;
      }
      var n := new Node.Bit(name, index);
      r, done := Success(n), {n};
    }

    method ParseExpressionNode() returns (r: Result<Node>, ghost done: set<Node>)
      requires tIndex <= |tokens|
      modifies this
      ensures tIndex <= |tokens| && fresh(done)
      ensures Delivers(r, done, Ahead(), ParseExpr(g, old(Ahead())))
      decreases |tokens| - tIndex, 2, 1
    {
      hide ParseFrom, ParseAfter, Models, Plug;
      done := {};
      ghost var start := Ahead();
      var stack: seq<Node> := [];
      ghost var frames: seq<Frame> := [];
      while true
        invariant old(tIndex) <= tIndex <= |tokens|
        invariant StackOps(g, frames) && StackModels(stack, frames, done)
        invariant fresh(done) && forall n | n in stack :: fresh(n)
        invariant ParseExpr(g, start) == ParseFrom(g, frames, Ahead())
        decreases |tokens| - tIndex
      {
        ghost var v := CVar("");
        r, v, done := ParseOperandFor(stack, frames, done);
        if r.Failure? { return; }
        var value := r.value;
        var more;
        assert forall i | 0 <= i < |stack| :: stack[i] in stack;
        more, r, stack, frames, done := ParseOperator(stack, value, frames, v, done);
        if !more { return; }
      }
    }

    /** Parses the operator after the operand `value`, or ends the expression if there is none. */
    method ParseOperator(stack: seq<Node>, value: Node, ghost frames: seq<Frame>, ghost v: Cst, ghost done: set<Node>)
      returns (more: bool, r: Result<Node>, stack': seq<Node>, ghost frames': seq<Frame>, ghost done': set<Node>)
      requires tIndex <= |tokens| && StackOps(g, frames)
      requires StackModels(stack, frames, done) && Models(value, Erase(v), done)
      modifies this, stack`right
      ensures tIndex <= |tokens| && (more ==> old(tIndex) <= tIndex)
      ensures fresh(done' - done - set n | n in stack)
      ensures !more ==> Delivers(r, done', Ahead(), ParseAfter(g, frames, v, old(Ahead())))
      ensures more ==>
        && StackOps(g, frames') && StackModels(stack', frames', done')
        && (forall n | n in stack' :: n in stack || fresh(n))
        && ParseAfter(g, frames, v, old(Ahead())) == ParseFrom(g, frames', Ahead())
      decreases |tokens| - tIndex, 4
    {
      hide ParseFrom, ParseAfter, Insert, Plug, Models, FramesModel, Linked;
      AfterOperand(g, frames, v, Ahead());
      stack', frames', done' := stack, frames, done;
      var token := Peek();
      if token.None? || !token.value.Punct? || token.value.data !in g.prec || token.value.data == ":" {
        r, done' := FillStack(stack, value, frames, v, done);
        return false, r, stack, frames, done';
      }
      var opName := token.value.data;
      assert Ahead()[1..] == tokens[tIndex + 1..];
      tIndex := tIndex + 1;
      stack', done' := Attach(g, stack, value, opName, frames, v, done);
      frames' := Insert(g, frames, v, opName);
      more := opName != "?";
      r := Failure(UndefinedInfo);
      if opName == "?" { r := ParseTernary(); }
    }

    /** What follows an operand: an operator, or the end of the expression. */
    static lemma {:induction false} AfterOperand(g: Table, frames: seq<Frame>, v: Cst, ts: seq<Token>)
      requires StackOps(g, frames)
      ensures ParseAfter(g, frames, v, ts)
           == if ts == [] || !ts[0].Punct? || ts[0].data !in g.prec || ts[0].data == ":" then Ok(Plug(frames, v), ts)
              else if ts[0].data == "?" then Fail(TernaryError(g, ts[1..]))
              else ParseFrom(g, Insert(g, frames, v, ts[0].data), ts[1..])
    {
      hide ParseFrom, Insert, Plug, TernaryError;
    }

    /** Parses an operand while a stack waits for it. */
    method ParseOperandFor(ghost stack: seq<Node>, ghost frames: seq<Frame>, ghost done: set<Node>)
      returns (r: Result<Node>, ghost v: Cst, ghost done': set<Node>)
      requires tIndex <= |tokens| && StackOps(g, frames) && StackModels(stack, frames, done)
      modifies this
      ensures tIndex <= |tokens| && done <= done' && fresh(done' - done)
      ensures var spec := ParseFrom(g, frames, old(Ahead()));
              if r.Failure? then spec == Fail(r.error)
              else |Ahead()| < |old(Ahead())| && spec == ParseAfter(g, frames, v, Ahead())
      ensures r.Success? ==> Models(r.value, Erase(v), done') && StackModels(stack, frames, done')
      decreases |tokens| - tIndex, 2, 0
    {
      ghost var spec := ParseOperand(g, Ahead());
      ghost var more;
      r, more := ParseOperandNode();
      v := if spec.Ok? then spec.value else CVar("");
      done' := done + more;
      if r.Success? {
        MoreFrames(stack, frames, done, more);
        ModelsMore(r.value, Erase(v), more, done');
      }
    }

    static lemma {:induction false} MoreFrames(stack: seq<Node>, frames: seq<Frame>, done: set<Node>, more: set<Node>)
      requires StackModels(stack, frames, done) && forall n | n in stack :: n !in more
      ensures StackModels(stack, frames, done + more)
    {
      forall i | 0 <= i < |stack| ensures FrameModels(stack[i], frames[i], done + more) {
        assert FrameModels(stack[i], frames[i], done);
        ModelsMore(stack[i].left, Erase(frames[i].left), done, done + more);
      }
    }

    /** Parses the two branches of a ternary, and fails. */
    method ParseTernary() returns (r: Result<Node>)
      requires tIndex <= |tokens|
      modifies this
      ensures tIndex <= |tokens| && r == Failure(TernaryError(g, old(Ahead())))
      decreases |tokens| - tIndex, 3
    {
      ghost var done;
      r, done := ParseExpressionNode();
      if r.Failure? { return; }
      var token := Next();
      if token != Some(Punct(":")) { return Failure(UnterminatedTernary); }
      r, done := ParseExpressionNode();
      if r.Success? { r := Failure(UndefinedInfo); }
    }

    /** The end of an expression: `value` becomes the last open operand. */
    static method FillStack(stack: seq<Node>, value: Node, ghost frames: seq<Frame>, ghost v: Cst, ghost done: set<Node>)
      returns (r: Result<Node>, ghost all: set<Node>)
      requires StackModels(stack, frames, done) && Models(value, Erase(v), done)
      modifies stack`right
      ensures r.Success? && Models(r.value, Erase(Plug(frames, v)), all)
      ensures Grown(done, all, stack)
    {
      all := done + set n | n in stack;
      if |stack| != 0 {
        stack[|stack| - 1].right := value;
        assert stack[..|stack|] == stack && frames[..|stack|] == frames;
        assert Waiting(stack, frames, |stack|, v, done) by {
          assert forall i | 0 <= i < |stack| :: FrameModels(stack[i], frames[i], done);
        }
        PlugModels(stack, frames, |stack|, v, done, all);
        r := Success(stack[0]);
      } else {
        ModelsMore(value, Erase(v), done, all);
        r := Success(value);
      }
    }

    /** Parses all tokens. */
    method Parse() returns (r: Result<Node>, ghost done: set<Node>)
      requires tIndex == 0
      modifies this
      ensures tIndex <= |tokens| && fresh(done)
      ensures var spec := ExpParserSpec.Parse(g, tokens);
              if spec.Fail? then r == Failure(spec.error)
              else r.Success? && Models(r.value, Erase(spec.value), done)
    {
      done := {};
      if Peek() == None { return Failure(EmptyExpression), {}; }
      assert Ahead() == tokens;
      r, done := ParseExpressionNode();
      if r.Success? && Peek() != None { r := Failure(Unexpected(Peek())); }
    }
  }
}
