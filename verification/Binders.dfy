/** Scoped and operator-variable constructs, and their reading from an expression tree. */
module Binders {
  import opened Wrappers
  import opened Exprs

  /** A definite integral has limits; an indefinite integral has none. */
  datatype BinderNode =
    | Lambda(param: Symbol, body: Expr)
    | Integral(variable: Symbol, body: Expr, limits: Option<(Expr, Expr)>)
    | Derivative(variable: Symbol, body: Expr)

  /** The declared variable; alpha-bound only for a Lambda or a definite integral. */
  function BoundVariable(b: BinderNode): Symbol {
    match b
    case Lambda(param, _) => param
    case Integral(v, _, _) => v
    case Derivative(v, _) => v
  }

  function ToExpr(b: BinderNode): Expr {
    match b
    case Lambda(param, body) => Function("Lambda", [Sym(param), body])
    case Integral(v, body, Some((lower, upper))) => Function("Integral", [body, Sym(v), lower, upper])
    case Integral(v, body, None) => Function("Integral", [body, Sym(v)])
    case Derivative(v, body) => Function("Derivative", [body, Sym(v)])
  }

  /** One flat parameter list: symbols only, none repeated. */
  predicate DistinctSymbolParameters(ps: seq<Expr>) {
    && (forall i | 0 <= i < |ps| :: ps[i].Sym?)
    && (forall i, j | 0 <= i < j < |ps| :: ps[i] != ps[j])
  }

  /** Single-parameter, Tuple and multi-argument signatures, the last two curried one parameter at a time. */
  function TryParseLambda(args: seq<Expr>): (b: Option<BinderNode>)
    ensures b.Some? ==> b.value.Lambda? && Size(b.value.body) < 1 + SizeAll(args)
  {
    if |args| == 2 then
      match args[0]
      case Sym(param) => Some(Lambda(param, args[1]))
      case Function("Tuple", targs) =>
        assert SizeAll(args) == Size(args[0]) + SizeAll(args[1..]) && SizeAll(args[1..]) == Size(args[1]);
        if targs == [] then None
        else if |targs| == 1 then
          if targs[0].Sym? then Some(Lambda(targs[0].symbol, args[1])) else None
        else if DistinctSymbolParameters(targs) then
          var rest := if |targs| == 2 then targs[1] else Function("Tuple", targs[1..]);
          assert Size(targs[0]) == 1 && SizeAll(targs) == 1 + SizeAll(targs[1..]);
          assert Size(rest) <= 1 + SizeAll(targs[1..]);
          var inner := [rest, args[1]];
          assert inner[1..] == args[1..];
          assert SizeAll(inner) == Size(rest) + SizeAll(inner[1..]);
          Some(Lambda(targs[0].symbol, Function("Lambda", inner)))
        else None
      case _ => None
    else if |args| > 2 then
      if DistinctSymbolParameters(args[..|args| - 1]) then
        assert args[0] == args[..|args| - 1][0];
        Some(Lambda(args[0].symbol, Function("Lambda", args[1..])))
      else None
    else None
  }

  /** The binder read from an expression, if it has a recognised shape. */
  function TryFromExpr(e: Expr): (b: Option<BinderNode>)
    ensures b.Some? ==> Size(b.value.body) < Size(e)
    ensures b.Some? && b.value.Integral? && b.value.limits.Some? ==>
              Size(b.value.limits.value.0) < Size(e) && Size(b.value.limits.value.1) < Size(e)
  {
    match e
    case Function("Lambda", args) => TryParseLambda(args)
    case Function("Integral", args) =>
      if |args| == 2 && args[1].Sym? then Some(Integral(args[1].symbol, args[0], None))
      else if |args| == 4 && args[1].Sym? then Some(Integral(args[1].symbol, args[0], Some((args[2], args[3]))))
      else None
    case Function("Derivative", args) =>
      if |args| == 2 && args[1].Sym? then Some(Derivative(args[1].symbol, args[0])) else None
    case _ => None
  }

  /** Writing a binder and reading it back gives the same binder. */
  lemma BinderRoundTrip(b: BinderNode)
    ensures TryFromExpr(ToExpr(b)) == Some(b)
  {
  }
}
