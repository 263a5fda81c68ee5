/** The expression nodes of db/exp.js, whose children are filled in after they are created, and the
    stack of operator nodes that the parser works with. */
module ExpNodes {
  import opened ExpSyntax
  import opened ExpParserSpec

  datatype Kind = ImmKind | VarKind | CallKind | BitKind | UnaryKind | BinaryKind

  /** A node of the expression tree. */
  class Node {
    var kind: Kind
    var name: string // of a variable or a function, or the operator
    var imm: Number
    var args: seq<Node>
    var child: Node?
    var left: Node?
    var right: Node?

    constructor Imm(value: Number)
      ensures kind == ImmKind && imm == value
    {
      kind, imm, name, args, child, left, right := ImmKind, value, "", [], null, null, null;
    }

    constructor Var(name: string)
      ensures kind == VarKind && this.name == name
    {
      this.kind, this.name, this.imm := VarKind, name, Int(0);
      args, child, left, right := [], null, null, null;
    }

    constructor Call(name: string, args: seq<Node>)
      ensures kind == CallKind && this.name == name && this.args == args
    {
      this.kind, this.name, this.args, this.imm := CallKind, name, args, Int(0);
      child, left, right := null, null, null;
    }

    constructor Bit(name: string, index: Number)
      ensures kind == BitKind && this.name == name && imm == index
    {
      this.kind, this.name, this.imm := BitKind, name, index;
      args, child, left, right := [], null, null, null;
    }

    constructor Unary(op: string)
      ensures kind == UnaryKind && name == op && child == null
    {
      kind, name, imm := UnaryKind, op, Int(0);
      args, child, left, right := [], null, null, null;
    }

    constructor Binary(op: string)
      ensures kind == BinaryKind && name == op
    {
      kind, name, imm := BinaryKind, op, Int(0);
      args, child, left, right := [], null, null, null;
    }
  }

  /** The node `n` is the root of the tree `e`, all of whose nodes are in `done`. */
  ghost predicate Models(n: Node?, e: Exp, done: set<Node>)
    reads done
    decreases e
  {
    n != null && n in done &&
    match e
    case Imm(v) => n.kind == ImmKind && n.imm == v
    case Var(x) => n.kind == VarKind && n.name == x
    case Call(f, args) =>
      && n.kind == CallKind && n.name == f && |n.args| == |args|
      && forall i | 0 <= i < |args| :: Models(n.args[i], args[i], done)
    case Bit(x, v) => n.kind == BitKind && n.name == x && n.imm == v
    case Unary(op, child) => n.kind == UnaryKind && n.name == op && Models(n.child, child, done)
    case Binary(op, left, right) =>
      && n.kind == BinaryKind && n.name == op
      && Models(n.left, left, done) && Models(n.right, right, done)
  }

  lemma {:induction false} ModelsMore(n: Node?, e: Exp, done: set<Node>, more: set<Node>)
    requires Models(n, e, done) && done <= more
    ensures Models(n, e, more)
    decreases e
  {
    match e
    case Call(f, args) =>
      forall i | 0 <= i < |args| ensures Models(n.args[i], args[i], more) {
        ModelsMore(n.args[i], args[i], done, more);
      }
    case Unary(op, child) => ModelsMore(n.child, child, done, more);
    case Binary(op, left, right) =>
      ModelsMore(n.left, left, done, more);
      ModelsMore(n.right, right, done, more);
    case _ =>
  }

  // --- The operator stack ---

  /** The node `n` is an operator node that waits for its right child. */
  ghost predicate FrameModels(n: Node, f: Frame, done: set<Node>)
    reads n`kind, n`name, n`left, done
  {
    n !in done && n.kind == BinaryKind && n.name == f.op && Models(n.left, Erase(f.left), done)
  }

  ghost predicate FramesModel(stack: seq<Node>, frames: seq<Frame>, done: set<Node>)
    reads stack`kind, stack`name, stack`left, done
  {
    |stack| == |frames| && forall i | 0 <= i < |stack| :: FrameModels(stack[i], frames[i], done)
  }

  /** The nodes are distinct, and each one's right child is the next one. */
  ghost predicate Linked(stack: seq<Node>)
    reads stack`right
  {
    && (forall i | 0 <= i < |stack| - 1 :: stack[i].right == stack[i + 1])
    && (forall i, j | 0 <= i < j < |stack| :: stack[i] != stack[j])
  }

  /** The nodes on the stack stand for the frames. */
  ghost predicate StackModels(stack: seq<Node>, frames: seq<Frame>, done: set<Node>)
    reads stack, done
  {
    FramesModel(stack, frames, done) && Linked(stack)
  }

  /** The nodes in `done` are old ones and nodes that were on the stack. */
  ghost predicate Grown(done: set<Node>, done': set<Node>, stack: seq<Node>) {
    done <= done' && forall n | n in done' :: n in done || n in stack
  }

  /** Of the stack, the first `k` nodes are left, and the topmost has the complete tree `t` as its
      right child. */
  ghost predicate Waiting(stack: seq<Node>, frames: seq<Frame>, k: nat, t: Cst, done: set<Node>)
    reads stack, done
  {
    && 0 < k <= |stack| == |frames|
    && (forall i | 0 <= i < k :: FrameModels(stack[i], frames[i], done))
    && Linked(stack[..k])
    && Models(stack[k - 1].right, Erase(t), done)
  }

  /** The topmost node is complete. */
  lemma {:induction false} Close(stack: seq<Node>, frames: seq<Frame>, k: nat, t: Cst, done: set<Node>)
    returns (t': Cst)
    requires Waiting(stack, frames, k, t, done)
    ensures t' == CBinary(frames[k - 1].op, frames[k - 1].left, t)
    ensures Models(stack[k - 1], Erase(t'), done + {stack[k - 1]})
    ensures k > 1 ==> Waiting(stack, frames, k - 1, t', done + {stack[k - 1]})
  {
    var n := stack[k - 1];
    assert FrameModels(n, frames[k - 1], done);
    t' := CBinary(frames[k - 1].op, frames[k - 1].left, t);
    ModelsMore(n.left, Erase(frames[k - 1].left), done, done + {n});
    ModelsMore(n.right, Erase(t), done, done + {n});
    forall i | 0 <= i < k - 1 ensures FrameModels(stack[i], frames[i], done + {n}) {
      assert stack[..k][i] != stack[..k][k - 1];
      ModelsMore(stack[i].left, Erase(frames[i].left), done, done + {n});
    }
    if k > 1 {
      assert stack[..k][k - 2].right == stack[..k][k - 1];
      assert Linked(stack[..k - 1]) by {
        assert forall i | 0 <= i < k - 1 :: stack[..k - 1][i] == stack[..k][i];
      }
    }
  }

  /** How many operators are still on the stack when the one to link `op` to has been found. */
  ghost function Remaining(g: Table, frames: seq<Frame>, k: nat, op: string): (n: nat)
    requires StackOps(g, frames) && op in g.prec && 0 < k <= |frames|
    ensures 0 < n <= k
    decreases k
  {
    if k == 1 || g.Above(frames[k - 1].op, op) then k else Remaining(g, frames, k - 1, op)
  }

  /** Takes the operators off the stack that do not stay above `op`. The operator taken off last
      is `aNode`: it stays above `op`, or the stack is empty. */
  method PopTo(g: Table, stack: seq<Node>, op: string, ghost frames: seq<Frame>)
    returns (aNode: Node, rest: seq<Node>)
    requires StackOps(g, frames) && op in g.prec && frames != [] && |stack| == |frames|
    requires forall i | 0 <= i < |stack| :: stack[i].name == frames[i].op
    ensures |rest| + 1 == Remaining(g, frames, |frames|, op)
    ensures rest == stack[..|rest|] && aNode == stack[|rest|]
    ensures rest == [] || g.Above(frames[|rest|].op, op)
  {
    aNode, rest := stack[|stack| - 1], stack[..|stack| - 1];
    while |rest| > 0 && !g.Above(aNode.name, op)
      invariant |rest| < |stack| && rest == stack[..|rest|] && aNode == stack[|rest|]
      invariant Remaining(g, frames, |frames|, op) == Remaining(g, frames, |rest| + 1, op)
    {
      aNode, rest := rest[|rest| - 1], rest[..|rest| - 1];
    }
  }

  /** What popping does to the trees: everything that was taken off became one complete tree. */
  lemma {:induction false} Popped(g: Table, stack: seq<Node>, frames: seq<Frame>, k: nat, v: Cst, op: string, done: set<Node>)
    returns (t: Cst, done': set<Node>)
    requires StackOps(g, frames) && op in g.prec && Waiting(stack, frames, k, v, done)
    ensures var n := Remaining(g, frames, k, op);
            && Waiting(stack, frames, n, t, done')
            && InsertAt(g, frames, k, v, op) == InsertAt(g, frames, n, t, op)
    ensures Grown(done, done', stack)
    decreases k
  {
    if k == 1 || g.Above(frames[k - 1].op, op) {
      t, done' := v, done;
    } else {
      t := Close(stack, frames, k, v, done);
      t, done' := Popped(g, stack, frames, k - 1, t, op, done + {stack[k - 1]});
    }
  }

  /** Pushing a node below which the last one of the stack is linked. */
  lemma {:induction false} Push(stack: seq<Node>, frames: seq<Frame>, n: Node, f: Frame, done: set<Node>)
    requires FramesModel(stack, frames, done) && Linked(stack) && n !in stack
    requires FrameModels(n, f, done)
    requires stack != [] ==> stack[|stack| - 1].right == n
    ensures StackModels(stack + [n], frames + [f], done)
  {
  }

  /** The node `bNode` takes over the right child of the topmost node and goes in its place. */
  method TakeOver(aNode: Node, bNode: Node, ghost stack: seq<Node>, ghost frames: seq<Frame>, ghost k: nat,
                  ghost t: Cst, ghost done: set<Node>)
    requires Waiting(stack, frames, k, t, done) && aNode == stack[k - 1]
    requires bNode !in stack && bNode !in done && bNode.kind == BinaryKind
    modifies aNode`right, bNode`left
    ensures StackModels(stack[..k] + [bNode], frames[..k] + [Frame(bNode.name, t)], done)
  {
    assert FramesModel(stack[..k], frames[..k], done);
    var tmp := aNode.right;
    aNode.right := bNode;
    bNode.left := tmp;
    Push(stack[..k], frames[..k], bNode, Frame(bNode.name, t), done);
  }

  /** Links `bNode` to the operator `aNode` that popping stopped at. */
  method LinkTo(g: Table, rest: seq<Node>, aNode: Node, bNode: Node,
                ghost stack: seq<Node>, ghost frames: seq<Frame>, ghost t: Cst, ghost done: set<Node>)
    returns (stack': seq<Node>, ghost done': set<Node>)
    requires StackOps(g, frames) && bNode.name in g.prec && bNode.kind == BinaryKind
    requires Waiting(stack, frames, |rest| + 1, t, done)
    requires rest == stack[..|rest|] && aNode == stack[|rest|]
    requires rest == [] || g.Above(frames[|rest|].op, bNode.name)
    requires bNode !in stack && bNode !in done
    modifies aNode`right, bNode`left
    ensures StackModels(stack', InsertAt(g, frames, |rest| + 1, t, bNode.name), done')
    ensures Grown(done, done', stack) && forall n | n in stack' :: n in stack || n == bNode
  {
    hide Models, Erase;
    var op := bNode.name;
    done' := done;
    assert FrameModels(aNode, frames[|rest|], done);
    if |rest| == 0 && !g.Above(aNode.name, op) {
      ghost var t' := Close(stack, frames, 1, t, done);
      done' := done + {aNode};
      bNode.left := aNode;
      stack' := [bNode];
      assert FrameModels(bNode, Frame(op, t'), done');
    } else {
      TakeOver(aNode, bNode, stack, frames, |rest| + 1, t, done);
      stack' := rest + [aNode, bNode];
      assert stack' == stack[..|rest| + 1] + [bNode];
    }
  }

  /** Puts the operator node `bNode` on a stack that is not empty, when its top does not have the
      larger precedence. */
  method AttachBelow(g: Table, stack: seq<Node>, value: Node, bNode: Node,
                     ghost frames: seq<Frame>, ghost v: Cst, ghost done: set<Node>)
    returns (stack': seq<Node>, ghost done': set<Node>)
    requires StackOps(g, frames) && bNode.name in g.prec && bNode.kind == BinaryKind && stack != []
    requires StackModels(stack, frames, done) && Models(value, Erase(v), done)
    requires bNode !in stack && bNode !in done
    modifies stack`right, bNode`left
    ensures StackModels(stack', Insert(g, frames, v, bNode.name), done')
    ensures Grown(done, done', stack) && forall n | n in stack' :: n in stack || n == bNode
  {
    hide Models, InsertAt, Insert, Remaining, Erase;
    var op := bNode.name;
    stack[|stack| - 1].right := value;
    assert forall i | 0 <= i < |stack| :: FrameModels(stack[i], frames[i], done);
    var aNode, rest := PopTo(g, stack, op, frames);
    ghost var t, popped;
    assert Waiting(stack, frames, |stack|, v, done) by { assert stack[..|stack|] == stack; }
    t, popped := Popped(g, stack, frames, |stack|, v, op, done);
    InsertAtAll(g, frames, v, op);
    stack', done' := LinkTo(g, rest, aNode, bNode, stack, frames, t, popped);
  }

  /** Puts the operator `op` on the stack after the operand `value`. */
  method Attach(g: Table, stack: seq<Node>, value: Node, op: string,
                ghost frames: seq<Frame>, ghost v: Cst, ghost done: set<Node>)
    returns (stack': seq<Node>, ghost done': set<Node>)
    requires StackOps(g, frames) && op in g.prec
    requires StackModels(stack, frames, done) && Models(value, Erase(v), done)
    modifies stack`right
    ensures StackModels(stack', Insert(g, frames, v, op), done')
    ensures Grown(done, done', stack) && forall n | n in stack' :: n in stack || fresh(n)
  {
    hide Models, Erase, Plug;
    done' := done;
    var bNode := new Node.Binary(op);
    if |stack| == 0 {
      bNode.left := value;
      stack' := [bNode];
    } else {
      var aNode := stack[|stack| - 1];
      assert FrameModels(aNode, frames[|stack| - 1], done);
      if g.prec[aNode.name] > g.prec[op] {
        aNode.right := bNode;
        bNode.left := value;
        stack' := stack + [bNode];
        assert Insert(g, frames, v, op) == frames + [Frame(op, v)];
        Push(stack, frames, bNode, Frame(op, v), done);
      } else {
        stack', done' := AttachBelow(g, stack, value, bNode, frames, v, done);
      }
    }
  }

  /** Filling the open operand of the top of the stack completes the tree at its bottom. */
  lemma {:induction false} PlugModels(stack: seq<Node>, frames: seq<Frame>, k: nat, v: Cst, done: set<Node>, all: set<Node>)
    requires Waiting(stack, frames, k, v, done)
    requires done <= all && forall m | m in stack :: m in all
    ensures Models(stack[0], Erase(Plug(frames[..k], v)), all)
    decreases k
  {
    var t := Close(stack, frames, k, v, done);
    assert frames[..k][..k - 1] == frames[..k - 1];
    assert Plug(frames[..k], v) == Plug(frames[..k - 1], t);
    if k == 1 {
      assert frames[..0] == [];
      ModelsMore(stack[0], Erase(t), done + {stack[0]}, all);
    } else {
      PlugModels(stack, frames, k - 1, t, done + {stack[k - 1]}, all);
    }
  }
}
