/** Tokens, operator tables, expression trees and the stratified grammar of the instruction
    database's expression language (db/exp.js). */
module ExpSyntax {

  /** A numeric literal. A literal with a fraction or an exponent keeps its spelling, because its
      value is a matter of floating-point conversion. */
  datatype Number = Int(n: int) | Float(text: string)

  datatype Token =
    | Punct(data: string)
    | Ident(data: string)
    | Value(data: string, value: Number)

  /** The operator tables: the unary operators, and a precedence (a smaller number binds tighter)
      and an associativity flag for each binary operator. */
  datatype Table = Table(unary: set<string>, prec: map<string, int>, rtl: set<string>)
  {
    /** Brackets and the comma are never operators. */
    predicate Valid() {
      forall s | s in {"(", ")", "[", "]", ","} :: s !in unary && s !in prec
    }

    /** `rightAssociate`: an operator `a` waiting on the stack keeps waiting when `b` arrives. */
    predicate Above(a: string, b: string)
      requires a in prec && b in prec
    {
      prec[a] > prec[b] || (prec[a] == prec[b] && a in rtl)
    }

    /** The binary operators that build trees; `?` and `:` belong to the ternary form. */
    predicate Infix(op: string) {
      op in prec && op != "?" && op != ":"
    }
  }

  /** An expression tree. `Bit` is the call node named `$bit`, whose second argument is the
      number itself and not a node. */
  datatype Exp =
    | Imm(value: Number)
    | Var(name: string)
    | Call(name: string, args: seq<Exp>)
    | Bit(name: string, index: Number)
    | Unary(op: string, child: Exp)
    | Binary(op: string, left: Exp, right: Exp)

  /** A concrete syntax tree: an expression together with its parentheses and the spelling of its
      literals. */
  datatype Cst =
    | CLit(data: string, value: Number)
    | CVar(name: string)
    | CCall(name: string, args: seq<Cst>)
    | CBit(name: string, data: string, value: Number)
    | CParen(inner: Cst)
    | CUnary(op: string, child: Cst)
    | CBinary(op: string, left: Cst, right: Cst)

  /** The tree without its parentheses. */
  function Erase(c: Cst): Exp
    decreases c
  {
    match c
    case CLit(_, v) => Imm(v)
    case CVar(x) => Var(x)
    case CCall(f, args) => Call(f, EraseAll(args))
    case CBit(x, _, v) => Bit(x, v)
    case CParen(inner) => Erase(inner)
    case CUnary(op, child) => Unary(op, Erase(child))
    case CBinary(op, left, right) => Binary(op, Erase(left), Erase(right))
  }

  function EraseAll(cs: seq<Cst>): (es: seq<Exp>)
    ensures |es| == |cs|
    ensures forall i | 0 <= i < |cs| :: es[i] == Erase(cs[i])
    decreases cs
  {
    if cs == [] then [] else [Erase(cs[0])] + EraseAll(cs[1..])
  }

  /** The tokens of a concrete syntax tree, left to right, followed by `rest`. */
  function YieldTo(c: Cst, rest: seq<Token>): seq<Token>
    decreases c
  {
    match c
    case CLit(d, v) => [Value(d, v)] + rest
    case CVar(x) => [Ident(x)] + rest
    case CCall(f, args) => [Ident(f), Punct("(")] + YieldArgsTo(args, true, [Punct(")")] + rest)
    case CBit(x, d, v) => [Ident(x), Punct("["), Value(d, v), Punct("]")] + rest
    case CParen(inner) => [Punct("(")] + YieldTo(inner, [Punct(")")] + rest)
    case CUnary(op, child) => [Punct(op)] + YieldTo(child, rest)
    case CBinary(op, left, right) => YieldTo(left, [Punct(op)] + YieldTo(right, rest))
  }

  /** The arguments of a call, separated by commas. */
  function YieldArgsTo(cs: seq<Cst>, first: bool, rest: seq<Token>): seq<Token>
    decreases cs
  {
    if cs == [] then rest
    else
      var arg := YieldTo(cs[0], YieldArgsTo(cs[1..], false, rest));
      if first then arg else [Punct(",")] + arg
  }

  /** The tokens of a concrete syntax tree. */
  function Yield(c: Cst): seq<Token> {
    YieldTo(c, [])
  }

  /** The stratified grammar as a property of trees: below a binary operator, the left subtree may
      only be a tighter operator (or an equal one, when it associates to the left) and the right
      subtree a tighter one (or an equal one, when it associates to the right); a unary operator
      only applies to unary and primary expressions. */
  ghost predicate WF(g: Table, c: Cst)
    decreases c
  {
    match c
    case CLit(_, _) => true
    case CVar(_) => true
    case CCall(_, args) => forall a | a in args :: WF(g, a)
    case CBit(_, _, _) => true
    case CParen(inner) => WF(g, inner)
    case CUnary(op, child) => op in g.unary && !child.CBinary? && WF(g, child)
    case CBinary(op, left, right) =>
      && g.Infix(op) && WF(g, left) && WF(g, right)
      && (left.CBinary? ==> left.op in g.prec && !g.Above(left.op, op))
      && (right.CBinary? ==> right.op in g.prec && g.Above(op, right.op))
  }
}
