/** The parser of db/exp.js as a function of the tokens, and its correctness: it accepts exactly
    the token lists of the grammar and returns the one tree the grammar allows. */
module ExpParserSpec {
  import opened ExpSyntax

  datatype Error =
    | EmptyExpression
    | UnexpectedEnd
    | UnexpectedToken(token: Token)
    | UnterminatedTernary
    | UndefinedInfo // the ternary branch refers to an undefined variable

  datatype Parsed<+T> = Ok(value: T, rest: seq<Token>) | Fail(error: Error)

  function Unexpected<T>(ts: seq<Token>): Parsed<T> {
    if ts == [] then Fail(UnexpectedEnd) else Fail(UnexpectedToken(ts[0]))
  }

  predicate StartsWith(ts: seq<Token>, data: string) {
    ts != [] && ts[0] == Punct(data)
  }

  // --- The operator stack ---

  /** A stacked operator: its left operand is complete, its right one is still open. */
  datatype Frame = Frame(op: string, left: Cst)

  /** Fills the open operand of the stack with `v`. */
  function Plug(stack: seq<Frame>, v: Cst): Cst
    decreases |stack|
  {
    if stack == [] then v
    else
      var top := stack[|stack| - 1];
      Plug(stack[..|stack| - 1], CBinary(top.op, top.left, v))
  }

  ghost predicate StackOps(g: Table, stack: seq<Frame>) {
    forall i | 0 <= i < |stack| :: stack[i].op in g.prec
  }

  /** What the arrival of operator `op` after operand `v` makes of the stack: operators that do
      not stay above `op` take `v` as their right operand and become the left operand of `op`. */
  function Insert(g: Table, stack: seq<Frame>, v: Cst, op: string): (r: seq<Frame>)
    requires StackOps(g, stack) && op in g.prec
    ensures StackOps(g, r) && |r| > 0
    decreases |stack|
  {
    if stack == [] then [Frame(op, v)]
    else
      var top := stack[|stack| - 1];
      if g.Above(top.op, op) then stack + [Frame(op, v)]
      else Insert(g, stack[..|stack| - 1], CBinary(top.op, top.left, v), op)
  }

  /** `Insert` into the first `k` operators of the stack. */
  function InsertAt(g: Table, stack: seq<Frame>, k: nat, v: Cst, op: string): seq<Frame>
    requires StackOps(g, stack) && op in g.prec && k <= |stack|
    decreases k
  {
    if k == 0 then [Frame(op, v)]
    else if g.Above(stack[k - 1].op, op) then stack[..k] + [Frame(op, v)]
    else InsertAt(g, stack, k - 1, CBinary(stack[k - 1].op, stack[k - 1].left, v), op)
  }

  lemma {:induction false} InsertAtPrefix(g: Table, stack: seq<Frame>, k: nat, v: Cst, op: string)
    requires StackOps(g, stack) && op in g.prec && k <= |stack|
    ensures InsertAt(g, stack, k, v, op) == Insert(g, stack[..k], v, op)
    decreases k
  {
    if k > 0 && !g.Above(stack[k - 1].op, op) {
      assert stack[..k][..k - 1] == stack[..k - 1];
      InsertAtPrefix(g, stack, k - 1, CBinary(stack[k - 1].op, stack[k - 1].left, v), op);
    }
  }

  lemma {:induction false} InsertAtAll(g: Table, stack: seq<Frame>, v: Cst, op: string)
    requires StackOps(g, stack) && op in g.prec
    ensures InsertAt(g, stack, |stack|, v, op) == Insert(g, stack, v, op)
  {
    assert stack[..|stack|] == stack;
    InsertAtPrefix(g, stack, |stack|, v, op);
  }

  // --- The parser ---

  function ParseOperand(g: Table, ts: seq<Token>): (r: Parsed<Cst>)
    ensures r.Ok? ==> |r.rest| < |ts|
    decreases |ts|, 1
  {
    if ts == [] then Fail(UnexpectedEnd)
    else if ts[0].Punct? && ts[0].data in g.unary then
      var r := ParseOperand(g, ts[1..]);
      if r.Fail? then r else Ok(CUnary(ts[0].data, r.value), r.rest)
    else if ts[0].Value? then Ok(CLit(ts[0].data, ts[0].value), ts[1..])
    else if ts[0].Ident? then
      if StartsWith(ts[1..], "(") then
        var r := ParseArgs(g, ts[2..], []);
        if r.Fail? then Fail(r.error) else Ok(CCall(ts[0].data, r.value), r.rest)
      else if StartsWith(ts[1..], "[") then ParseBit(ts[0].data, ts[2..])
      else Ok(CVar(ts[0].data), ts[1..])
    else if StartsWith(ts, "(") then
      var r := ParseExpr(g, ts[1..]);
      if r.Fail? then r
      else if !StartsWith(r.rest, ")") then Unexpected(r.rest)
      else Ok(CParen(r.value), r.rest[1..])
    else Fail(UnexpectedToken(ts[0]))
  }

  function ParseBit(name: string, ts: seq<Token>): (r: Parsed<Cst>)
    ensures r.Ok? ==> |r.rest| < |ts|
  {
    if ts == [] || !ts[0].Value? then Unexpected(ts)
    else if !StartsWith(ts[1..], "]") then Unexpected(ts[1..])
    else Ok(CBit(name, ts[0].data, ts[0].value), ts[2..])
  }

  function ParseArgs(g: Table, ts: seq<Token>, args: seq<Cst>): (r: Parsed<seq<Cst>>)
    ensures r.Ok? ==> |r.rest| < |ts|
    decreases |ts|, 3
  {
    if StartsWith(ts, ")") then Ok(args, ts[1..])
    else if args != [] && !StartsWith(ts, ",") then Unexpected(ts)
    else
      var ts' := if args != [] then ts[1..] else ts;
      var r := ParseExpr(g, ts');
      if r.Fail? then Fail(r.error) else ParseArgs(g, r.rest, args + [r.value])
  }

  function ParseExpr(g: Table, ts: seq<Token>): (r: Parsed<Cst>)
    ensures r.Ok? ==> |r.rest| < |ts|
    decreases |ts|, 2, 1
  {
    ParseFrom(g, [], ts)
  }

  /** Parses an operand and everything after it, with `stack` waiting. */
  function ParseFrom(g: Table, stack: seq<Frame>, ts: seq<Token>): (r: Parsed<Cst>)
    requires StackOps(g, stack)
    ensures r.Ok? ==> |r.rest| < |ts|
    decreases |ts|, 2, 0
  {
    var r := ParseOperand(g, ts);
    if r.Fail? then r else ParseAfter(g, stack, r.value, r.rest)
  }

  /** Parses everything after the operand `v`. */
  function ParseAfter(g: Table, stack: seq<Frame>, v: Cst, ts: seq<Token>): (r: Parsed<Cst>)
    requires StackOps(g, stack)
    ensures r.Ok? ==> |r.rest| <= |ts|
    decreases |ts|, 4
  {
    if ts != [] && ts[0].Punct? && ts[0].data in g.prec && ts[0].data != ":" then
      var stack' := Insert(g, stack, v, ts[0].data);
      if ts[0].data == "?" then Fail(TernaryError(g, ts[1..]))
      else ParseFrom(g, stack', ts[1..])
    else Ok(Plug(stack, v), ts)
  }

  /** The ternary form parses both branches and then fails in any case. */
  function TernaryError(g: Table, ts: seq<Token>): Error
    decreases |ts|, 3
  {
    var taken := ParseExpr(g, ts);
    if taken.Fail? then taken.error
    else if !StartsWith(taken.rest, ":") then UnterminatedTernary
    else
      var notTaken := ParseExpr(g, taken.rest[1..]);
      if notTaken.Fail? then notTaken.error else UndefinedInfo
  }

  function Parse(g: Table, ts: seq<Token>): (r: Parsed<Cst>)
    ensures r.Ok? ==> r.rest == []
  {
    if ts == [] then Fail(EmptyExpression)
    else
      var r := ParseExpr(g, ts);
      if r.Ok? && r.rest != [] then Unexpected(r.rest) else r
  }

  // --- Soundness ---

  /** The invariant of the stack: every waiting operator stays above the next one, and each left
      operand is a tree the grammar allows to the left of its operator. */
  ghost predicate StackOk(g: Table, stack: seq<Frame>) {
    && (forall i | 0 <= i < |stack| :: g.Infix(stack[i].op) && FrameOk(g, stack[i]))
    && (forall i, j | 0 <= i < j < |stack| :: g.Above(stack[i].op, stack[j].op))
  }

  ghost predicate FrameOk(g: Table, f: Frame)
    requires f.op in g.prec
  {
    WF(g, f.left) && (f.left.CBinary? ==> f.left.op in g.prec && !g.Above(f.left.op, f.op))
  }

  /** `v` may be the right operand of the top of the stack. */
  ghost predicate Fits(g: Table, stack: seq<Frame>, v: Cst)
    requires StackOps(g, stack)
  {
    WF(g, v) &&
    (v.CBinary? && stack != [] ==> v.op in g.prec && g.Above(stack[|stack| - 1].op, v.op))
  }

  /** The tokens of the stack, followed by `rest`. */
  function StackTo(stack: seq<Frame>, rest: seq<Token>): seq<Token>
    decreases |stack|
  {
    if stack == [] then rest
    else
      var top := stack[|stack| - 1];
      StackTo(stack[..|stack| - 1], YieldTo(top.left, [Punct(top.op)] + rest))
  }

  /** Closing the top of the stack keeps the invariant and the tokens. */
  lemma {:induction false} CloseSound(g: Table, stack: seq<Frame>, v: Cst, rest: seq<Token>)
    requires StackOk(g, stack) && stack != [] && Fits(g, stack, v)
    ensures var top := stack[|stack| - 1];
            var below := stack[..|stack| - 1];
            var v' := CBinary(top.op, top.left, v);
            && StackOk(g, below) && Fits(g, below, v') && FrameOk(g, top)
            && StackTo(below, YieldTo(v', rest)) == StackTo(stack, YieldTo(v, rest))
  {
  }

  lemma {:induction false} PlugSound(g: Table, stack: seq<Frame>, v: Cst, rest: seq<Token>)
    requires StackOk(g, stack) && Fits(g, stack, v)
    ensures WF(g, Plug(stack, v))
    ensures YieldTo(Plug(stack, v), rest) == StackTo(stack, YieldTo(v, rest))
    decreases |stack|
  {
    if stack == [] {
    } else {
      var top := stack[|stack| - 1];
      CloseSound(g, stack, v, rest);
      PlugSound(g, stack[..|stack| - 1], CBinary(top.op, top.left, v), rest);
    }
  }

  lemma {:induction false} AboveTransitive(g: Table, a: string, b: string, c: string)
    requires a in g.prec && b in g.prec && c in g.prec && g.Above(a, b) && g.Above(b, c)
    ensures g.Above(a, c)
  {
  }

  lemma {:induction false} PushSound(g: Table, stack: seq<Frame>, v: Cst, op: string, rest: seq<Token>)
    requires StackOk(g, stack) && g.Infix(op) && FrameOk(g, Frame(op, v))
    requires stack != [] ==> g.Above(stack[|stack| - 1].op, op)
    ensures StackOk(g, stack + [Frame(op, v)])
    ensures StackTo(stack + [Frame(op, v)], rest) == StackTo(stack, YieldTo(v, [Punct(op)] + rest))
  {
    var r := stack + [Frame(op, v)];
    assert r[..|stack|] == stack;
    forall i, j | 0 <= i < j < |r| ensures g.Above(r[i].op, r[j].op) {
      if j == |stack| && i < |stack| - 1 {
        AboveTransitive(g, r[i].op, r[j - 1].op, op);
      }
    }
  }

  lemma {:induction false} InsertSound(g: Table, stack: seq<Frame>, v: Cst, op: string, rest: seq<Token>)
    requires StackOk(g, stack) && Fits(g, stack, v) && g.Infix(op)
    requires FrameOk(g, Frame(op, v))
    ensures StackOk(g, Insert(g, stack, v, op))
    ensures StackTo(Insert(g, stack, v, op), rest) == StackTo(stack, YieldTo(v, [Punct(op)] + rest))
    decreases |stack|
  {
    if stack == [] || g.Above(stack[|stack| - 1].op, op) {
      PushSound(g, stack, v, op, rest);
      if stack == [] { assert [Frame(op, v)] == stack + [Frame(op, v)]; }
    } else {
      var top := stack[|stack| - 1];
      CloseSound(g, stack, v, [Punct(op)] + rest);
      InsertSound(g, stack[..|stack| - 1], CBinary(top.op, top.left, v), op, rest);
    }
  }
}
