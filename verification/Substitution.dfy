/** Capture-avoiding substitution, which answers or refuses. */
module Substitution {
  import opened Wrappers
  import opened Exprs
  import opened Binders
  import opened DeBruijn
  import opened Symbols
  import opened Freshening
  import opened Traversals

  /** The expression with the head of `e` and the given immediate subexpressions. */
  function WithChildren(e: Expr, cs: seq<Expr>): (r: Expr)
    requires |cs| == |Children(e)|
    ensures Children(r) == cs
  {
    match e
    case Add(_) => Add(cs)
    case Mul(_) => Mul(cs)
    case Pow(_, _) => assert cs == [cs[0], cs[1]]; Pow(cs[0], cs[1])
    case Function(name, _) => Function(name, cs)
    case _ => e
  }

  /** Replaces `target` by `replacement`, whose free symbols are `replFree`. */
  function Subs(e: Expr, target: Symbol, replacement: Expr, replFree: set<Symbol>, depth: nat): Result<Expr, BindingError>
    decreases MAX_BINDING_DEPTH + 1 - depth, 1
  {
    if depth > MAX_BINDING_DEPTH then Err(TOO_DEEP)
    else if e.Sym? then Ok(if e.symbol == target then replacement else e)
    else
      match TryFromExpr(e)
      case Some(Derivative(v, body)) =>
        var free := FreeSymbolsOf(body);
        if free.Err? then Err(free.error)
        else if v == target then
          if !replacement.Sym? then Err(UnsupportedOperatorVariableReplacement("Derivative"))
          else if replacement.symbol != v && replacement.symbol in free.value then Err(NonAlphaRenamingRequired("Derivative"))
          else
            var b := Subs(body, target, replacement, replFree, depth + 1);
            if b.Err? then b else Ok(ToExpr(Derivative(replacement.symbol, b.value)))
        else if target !in free.value then Ok(e)
        else if v in replFree then Err(NonAlphaRenamingRequired("Derivative"))
        else
          var b := Subs(body, target, replacement, replFree, depth + 1);
          if b.Err? then b else Ok(ToExpr(Derivative(v, b.value)))
      case Some(Integral(v, body, None)) =>
        var free := FreeSymbolsOf(body);
        if free.Err? then Err(free.error)
        else if v == target then
          if !replacement.Sym? then Err(UnsupportedOperatorVariableReplacement("Integral"))
          else
            var b := Subs(body, target, replacement, replFree, depth + 1);
            if b.Err? then b else Ok(ToExpr(Integral(replacement.symbol, b.value, None)))
        else if target !in free.value then Ok(e)
        else
          var b := Subs(body, target, replacement, replFree, depth + 1);
          if b.Err? then b else Ok(ToExpr(Integral(v, b.value, None)))
      case Some(Lambda(v, body)) =>
        if v == target then Ok(e)
        else
          var b := SubsUnder(v, body, target, replacement, replFree, depth);
          if b.Err? then Err(b.error) else Ok(ToExpr(Lambda(b.value.0, b.value.1)))
      case Some(Integral(v, body, Some((lower, upper)))) =>
        var b := if v == target then Ok((v, body)) else SubsUnder(v, body, target, replacement, replFree, depth);
        if b.Err? then Err(b.error)
        else
          var l := Subs(lower, target, replacement, replFree, depth + 1);
          if l.Err? then l
          else
            var u := Subs(upper, target, replacement, replFree, depth + 1);
            if u.Err? then u else Ok(ToExpr(Integral(b.value.0, b.value.1, Some((l.value, u.value)))))
      case None =>
        var cs := Collect(seq(|Children(e)|, i requires 0 <= i < |Children(e)| =>
          Subs(Children(e)[i], target, replacement, replFree, depth + 1)));
        if cs.Err? then Err(cs.error) else Ok(WithChildren(e, cs.value))
  }

  /** The declared name and the body of a binder that does not shadow `target`, after the replacement. */
  function SubsUnder(v: Symbol, body: Expr, target: Symbol, replacement: Expr, replFree: set<Symbol>, depth: nat)
    : Result<(Symbol, Expr), BindingError>
    requires depth <= MAX_BINDING_DEPTH
    decreases MAX_BINDING_DEPTH + 1 - depth, 0
  {
    var free := FreeSymbolsOf(body);
    if free.Err? then Err(free.error)
    else if target !in free.value then Ok((v, body))
    else if v in replFree then
      var all := AllSymbolsOf(body);
      if all.Err? then Err(all.error)
      else
        var w := Fresh(v.name, all.value + replFree + {target});
        var renamed := Subs(body, v, Sym(w), {w}, depth + 1);
        if renamed.Err? then Err(renamed.error)
        else
          var b := Subs(renamed.value, target, replacement, replFree, depth + 1);
          if b.Err? then Err(b.error) else Ok((w, b.value))
    else
      var b := Subs(body, target, replacement, replFree, depth + 1);
      if b.Err? then Err(b.error) else Ok((v, b.value))
  }

  function CaptureAvoidingSubs(e: Expr, target: Symbol, replacement: Expr): Result<Expr, BindingError> {
    var check := Preflight(e, 0);
    if check.Err? then Err(check.error)
    else
      var replFree := FreeSymbolsOf(replacement);
      if replFree.Err? then Err(replFree.error)
      else Subs(e, target, replacement, replFree.value, 0)
  }

  /** An answer comes from the inner traversal, run with the replacement's free symbols. */
  lemma AnswerOfSubs(e: Expr, target: Symbol, replacement: Expr, r: Expr)
    requires CaptureAvoidingSubs(e, target, replacement) == Ok(r)
    ensures Subs(e, target, replacement, FreeOf(replacement), 0) == Ok(r)
  {
    hide Subs, FreeOf, RawWithin, ReadWithin;
  }

  // ---- an opaque node stays opaque

  /** `qs` are the answers of substitution on `ps`, one by one. */
  ghost predicate SubsEach(ps: seq<Expr>, qs: seq<Expr>, target: Symbol, replacement: Expr, replFree: set<Symbol>, depth: nat) {
    |ps| == |qs| && forall i | 0 <= i < |ps| :: Subs(ps[i], target, replacement, replFree, depth) == Ok(qs[i])
  }

  /** A position that holds no symbol never comes to hold one, and becomes a Tuple only if it was one. */
  lemma SubsKeepsHead(e: Expr, target: Symbol, replacement: Expr, replFree: set<Symbol>, depth: nat, r: Expr)
    requires !e.Sym? && Subs(e, target, replacement, replFree, depth) == Ok(r)
    ensures !r.Sym?
    ensures r.Function? && r.name == "Tuple" ==>
              e.Function? && e.name == "Tuple" && SubsEach(Children(e), Children(r), target, replacement, replFree, depth + 1)
  {
  }

  /** A parameter list that is malformed by a repeated or non-symbol entry keeps its defect. */
  lemma DefectStays(ps: seq<Expr>, qs: seq<Expr>, target: Symbol, replacement: Expr, replFree: set<Symbol>, depth: nat)
    requires SubsEach(ps, qs, target, replacement, replFree, depth)
    requires !DistinctSymbolParameters(ps)
    ensures !DistinctSymbolParameters(qs)
  {
    hide Subs;
    if i :| 0 <= i < |ps| && !ps[i].Sym? {
      SubsKeepsHead(ps[i], target, replacement, replFree, depth, qs[i]);
    }
  }

  lemma OpaqueLambdaStays(cs: seq<Expr>, ds: seq<Expr>, target: Symbol, replacement: Expr, replFree: set<Symbol>, depth: nat)
    requires SubsEach(cs, ds, target, replacement, replFree, depth)
    requires TryParseLambda(cs).None?
    ensures TryParseLambda(ds).None?
  {
    hide Subs;
    if |cs| == 2 {
      SubsKeepsHead(cs[0], target, replacement, replFree, depth, ds[0]);
      if ds[0].Function? && ds[0].name == "Tuple" {
        var ps, qs := cs[0].args, ds[0].args;
        if |ps| == 1 {
          SubsKeepsHead(ps[0], target, replacement, replFree, depth + 1, qs[0]);
        } else if |ps| > 1 {
          DefectStays(ps, qs, target, replacement, replFree, depth + 1);
        }
      }
    } else if |cs| > 2 {
      DefectStays(cs[..|cs| - 1], ds[..|ds| - 1], target, replacement, replFree, depth);
    }
  }

  /** A node that is no binder is substituted child by child and does not become a binder. */
  lemma OpaqueStays(e: Expr, target: Symbol, replacement: Expr, replFree: set<Symbol>, depth: nat, r: Expr)
    requires !e.Sym? && TryFromExpr(e).None? && Subs(e, target, replacement, replFree, depth) == Ok(r)
    ensures SubsEach(Children(e), Children(r), target, replacement, replFree, depth + 1)
    ensures r == WithChildren(e, Children(r))
    ensures !r.Sym? && TryFromExpr(r).None? && Read(r) == Reading(Read(e).head, Children(r), [])
    ensures Read(e).parts == Children(e) && Read(e).names == []
    ensures |Children(r)| == 2 ==> !DerivativeVariable(Read(r), 1)
  {
    assert SubsEach(Children(e), Children(r), target, replacement, replFree, depth + 1);
    assert r == WithChildren(e, Children(r));
    OpaqueReading(e, target, replacement, replFree, depth, r);
  }

  lemma OpaqueReading(e: Expr, target: Symbol, replacement: Expr, replFree: set<Symbol>, depth: nat, r: Expr)
    requires !e.Sym? && TryFromExpr(e).None?
    requires SubsEach(Children(e), Children(r), target, replacement, replFree, depth + 1)
    requires r == WithChildren(e, Children(r))
    ensures !r.Sym? && TryFromExpr(r).None? && Read(r) == Reading(Read(e).head, Children(r), [])
    ensures Read(e).parts == Children(e) && Read(e).names == []
    ensures |Children(r)| == 2 ==> !DerivativeVariable(Read(r), 1)
  {
    hide Subs;
    if e.Function? {
      if e.name == "Lambda" {
        OpaqueLambdaStays(e.args, r.args, target, replacement, replFree, depth + 1);
      } else if |e.args| > 1 && !e.args[1].Sym? {
        SubsKeepsHead(e.args[1], target, replacement, replFree, depth + 1, r.args[1]);
      }
    }
  }
}
