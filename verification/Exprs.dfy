/** The symbolic expression tree shared by every component (crates/fsym-core/src/lib.rs). */
module Exprs {
  import opened Wrappers

  /** A printed name plus an optional typed identity; equal only when both agree. */
  datatype Symbol = Symbol(name: string, identity: Option<seq<int>>)

  datatype Constant = Pi | E | I | Infinity | NegativeInfinity | ComplexInfinity | NaN

  type Positive = n: int | 0 < n witness 1

  datatype Ratio = Ratio(numer: int, denom: Positive)

  datatype Expr =
    | Sym(symbol: Symbol)
    | Integer(value: int)
    | Rational(ratio: Ratio)
    | Const(constant: Constant)
    | Add(terms: seq<Expr>)
    | Mul(factors: seq<Expr>)
    | Pow(base: Expr, exponent: Expr)
    | Function(name: string, args: seq<Expr>)

  function Plain(name: string): Symbol {
    Symbol(name, None)
  }

  /** Immediate subexpressions, left to right. */
  function Children(e: Expr): (cs: seq<Expr>)
    ensures forall c | c in cs :: c < e
  {
    match e
    case Add(ts) => ts
    case Mul(ts) => ts
    case Pow(b, x) => [b, x]
    case Function(_, args) => args
    case _ => []
  }

  /** Number of nodes. */
  function Size(e: Expr): (n: nat)
    ensures 1 <= n
    ensures forall i | 0 <= i < |Children(e)| :: Size(Children(e)[i]) < n
    decreases e, 1
  {
    1 + match e
        case Add(ts) => SizeAll(ts)
        case Mul(ts) => SizeAll(ts)
        case Pow(b, x) => Size(b) + Size(x)
        case Function(_, args) => SizeAll(args)
        case _ => 0
  }

  function SizeAll(es: seq<Expr>): (n: nat)
    ensures forall i | 0 <= i < |es| :: Size(es[i]) <= n
    decreases es, 0
  {
    if es == [] then 0
    else
      var rest := SizeAll(es[1..]);
      assert forall i | 1 <= i < |es| :: es[i] == es[1..][i - 1];
      Size(es[0]) + rest
  }
}
