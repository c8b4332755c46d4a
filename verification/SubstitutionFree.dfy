/** The free symbols of an answer of substitution, exactly, and with no hypothesis. */
module SubstitutionFree {
  import opened Wrappers
  import opened Exprs
  import opened Binders
  import opened DeBruijn
  import opened Symbols
  import opened Substitution
  import opened SubstitutionLaws

  /** What is free when `x` is replaced by something whose free symbols are `F`. */
  ghost function Exchanged(free: set<Symbol>, x: Symbol, F: set<Symbol>): set<Symbol> {
    free - {x} + if x in free then F else {}
  }

  // ---- one node

  lemma OpaqueFree(e: Expr, u: Symbol)
    requires !e.Sym? && TryFromExpr(e).None?
    ensures u in FreeOf(e) <==> exists i :: 0 <= i < |Children(e)| && u in FreeOf(Children(e)[i])
  {
    var r := Read(e);
    assert r.parts == Children(e) && r.names == [] && forall i | 0 <= i < |r.parts| :: r.Over(i) == [] && !DerivativeVariable(r, i);
    hide Read, TryFromExpr;
  }

  lemma OperatorFreeIs(e: Expr, n: BinderNode)
    requires TryFromExpr(e) == Some(n) && (n.Derivative? || (n.Integral? && n.limits.None?))
    ensures FreeOf(e) == FreeOf(n.body) + if n.Integral? then {n.variable} else {}
  {
    var r := Read(e);
    assert r.parts == [n.body, Sym(n.variable)] && r.names == [] && FreeOf(Sym(n.variable)) == {n.variable};
    assert DerivativeVariable(r, 1) <==> n.Derivative?;
    hide Read, TryFromExpr, FreeOf;
    FreeBelowAll(e);
    FreeBelowStep(r, 0);
    FreeBelowStep(r, 1);
  }

  lemma ScopedFreeIs(e: Expr, n: BinderNode)
    requires TryFromExpr(e) == Some(n) && (n.Lambda? || (n.Integral? && n.limits.Some?))
    ensures FreeOf(e) == FreeOf(n.body) - {BoundVariable(n)} + if n.Integral? then FreeOf(n.limits.value.0) + FreeOf(n.limits.value.1) else {}
  {
    var r := Read(e);
    assert r.names == [BoundVariable(n)];
    assert r.parts == if n.Lambda? then [n.body] else [n.body, n.limits.value.0, n.limits.value.1];
    assert !DerivativeVariable(r, 0) && !DerivativeVariable(r, 1) && !DerivativeVariable(r, 2);
    hide Read, TryFromExpr, FreeOf;
    FreeBelowAll(e);
    FreeBelowStep(r, 0);
    if n.Integral? {
      FreeBelowStep(r, 1);
      FreeBelowStep(r, 2);
    }
  }

  // ---- the induction

  lemma {:induction false} SubsFree(e: Expr, x: Symbol, s: Expr, depth: nat, r: Expr)
    requires Subs(e, x, s, FreeOf(s), depth) == Ok(r)
    ensures FreeOf(r) == Exchanged(FreeOf(e), x, FreeOf(s))
    decreases MAX_BINDING_DEPTH + 1 - depth, 2
  {
    if !e.Sym? {
      assert depth <= MAX_BINDING_DEPTH;
      hide Subs, FreeOf;
      var n := TryFromExpr(e);
      if n.None? {
        OpaqueSubsFree(e, x, s, depth, r);
      } else if n.value.Derivative? || (n.value.Integral? && n.value.limits.None?) {
        OperatorSubsFree(e, n.value, x, s, depth, r);
      } else {
        ScopedSubsFree(e, n.value, x, s, depth, r);
      }
    }
  }

  lemma {:induction false} OpaqueSubsFree(e: Expr, x: Symbol, s: Expr, depth: nat, r: Expr)
    requires !e.Sym? && TryFromExpr(e).None? && depth <= MAX_BINDING_DEPTH && Subs(e, x, s, FreeOf(s), depth) == Ok(r)
    ensures FreeOf(r) == Exchanged(FreeOf(e), x, FreeOf(s))
    decreases MAX_BINDING_DEPTH + 1 - depth, 1
  {
    hide Subs, FreeOf, Read, TryFromExpr;
    OpaqueStays(e, x, s, FreeOf(s), depth, r);
    var cs, ds := Children(e), Children(r);
    forall i | 0 <= i < |cs| ensures FreeOf(ds[i]) == Exchanged(FreeOf(cs[i]), x, FreeOf(s)) { SubsFree(cs[i], x, s, depth + 1, ds[i]); }
    OpaqueFree(e, x);
    forall u ensures u in FreeOf(r) <==> u in Exchanged(FreeOf(e), x, FreeOf(s)) {
      OpaqueFree(e, u);
      OpaqueFree(r, u);
    }
  }

  lemma {:induction false} OperatorSubsFree(e: Expr, n: BinderNode, x: Symbol, s: Expr, depth: nat, r: Expr)
    requires TryFromExpr(e) == Some(n) && (n.Derivative? || (n.Integral? && n.limits.None?)) && depth <= MAX_BINDING_DEPTH
    requires Subs(e, x, s, FreeOf(s), depth) == Ok(r)
    ensures FreeOf(r) == Exchanged(FreeOf(e), x, FreeOf(s))
    decreases MAX_BINDING_DEPTH + 1 - depth, 1
  {
    hide Subs, TryFromExpr, ToExpr, FreeOf;
    var w, b := OperatorShape(e, n, x, s, FreeOf(s), depth, r);
    OperatorFreeIs(e, n);
    if n.variable == x || x in FreeOf(n.body) {
      var m := n.(variable := w, body := b);
      BinderRoundTrip(m);
      OperatorFreeIs(r, m);
      SubsFree(n.body, x, s, depth + 1, b);
      FreeOfOne(w);
    }
  }

  lemma FreeOfOne(w: Symbol)
    ensures FreeOf(Sym(w)) == {w}
  {
  }

  lemma {:induction false} ScopedSubsFree(e: Expr, n: BinderNode, x: Symbol, s: Expr, depth: nat, r: Expr)
    requires TryFromExpr(e) == Some(n) && (n.Lambda? || (n.Integral? && n.limits.Some?)) && depth <= MAX_BINDING_DEPTH
    requires Subs(e, x, s, FreeOf(s), depth) == Ok(r)
    ensures FreeOf(r) == Exchanged(FreeOf(e), x, FreeOf(s))
    decreases MAX_BINDING_DEPTH + 1 - depth, 1
  {
    hide Subs, SubsUnder, TryFromExpr, ToExpr, FreeOf;
    var v := BoundVariable(n);
    var w, b, m := ScopedShape(e, n, x, s, FreeOf(s), depth, r);
    ScopedFreeIs(e, n);
    if v != x { UnderSubsFree(v, n.body, x, s, depth, w, b); }
    if n.Integral? {
      SubsFree(n.limits.value.0, x, s, depth + 1, m.limits.value.0);
      SubsFree(n.limits.value.1, x, s, depth + 1, m.limits.value.1);
    }
    if n.Integral? || v != x {
      BinderRoundTrip(m);
      ScopedFreeIs(r, m);
    }
  }

  /** The renaming branch, on sets: the new name takes the place of the old one, and is bound in its stead. */
  lemma RenamedFree(free: set<Symbol>, v: Symbol, w: Symbol, x: Symbol, F: set<Symbol>)
    requires v != x && w != x && w !in free && w !in F
    ensures Exchanged(Exchanged(free, v, {w}), x, F) - {w} == Exchanged(free - {v}, x, F)
  {
  }

  lemma {:induction false} UnderSubsFree(v: Symbol, body: Expr, x: Symbol, s: Expr, depth: nat, w: Symbol, b: Expr)
    requires depth <= MAX_BINDING_DEPTH && v != x && SubsUnder(v, body, x, s, FreeOf(s), depth) == Ok((w, b))
    ensures FreeOf(b) - {w} == Exchanged(FreeOf(body) - {v}, x, FreeOf(s))
    decreases MAX_BINDING_DEPTH + 1 - depth, 0
  {
    hide Subs, SubsUnder, FreeOf, AllOf;
    var renamed := UnderShape(v, body, x, s, FreeOf(s), depth, w, b);
    if x in FreeOf(body) {
      if v in FreeOf(s) {
        FreeOfOne(w);
        if w in FreeOf(body) { FreeIsDeclared(body, w); }
        SubsFree(body, v, Sym(w), depth + 1, renamed);
        SubsFree(renamed, x, s, depth + 1, b);
        RenamedFree(FreeOf(body), v, w, x, FreeOf(s));
      } else {
        SubsFree(body, x, s, depth + 1, b);
      }
    }
  }
}
