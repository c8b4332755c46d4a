/** Comparing De Bruijn forms decides equality up to the names of bound variables. */
module AlphaEquivalence {
  import opened Wrappers
  import opened Exprs
  import opened Binders
  import opened DeBruijn
  import opened Symbols
  import opened Traversals

  method AlphaEquivalent(a: Expr, b: Expr) returns (r: Result<bool, BindingError>)
    ensures r == if DeBruijnOf(a).Err? then Err(DeBruijnOf(a).error)
                 else if DeBruijnOf(b).Err? then Err(DeBruijnOf(b).error)
                 else Ok(Convert(a, []) == Convert(b, []))
    ensures r.Ok? ==> (r.value <==> Related(a, b, []))
    ensures r.Ok? && r.value ==> FreeOf(a) == FreeOf(b)
  {
    var s := ToDeBruijn(a);
    if s.Err? { return Err(s.error); }
    var t := ToDeBruijn(b);
    if t.Err? { return Err(t.error); }
    r := Ok(s.value == t.value);
    RelatedIffSameTerm(a, b, []);
    assert Left([]) == [] && Right([]) == [];
    if r.value { SameTermSameFree(a, b); }
  }

  // ---- the named relation

  /** The binders crossed on both sides, outermost first. */
  type Pairing = seq<(Symbol, Symbol)>

  /** Two names stand for each other: bound by the same crossed pair, or both unbound and equal. */
  predicate SameName(s: Symbol, t: Symbol, env: Pairing) {
    if env == [] then s == t
    else
      var (p, q) := env[|env| - 1];
      if p == s || q == t then p == s && q == t else SameName(s, t, env[..|env| - 1])
  }

  /** Same literal, same operation or same function name. */
  predicate SameLabel(a: Expr, b: Expr) {
    match (a, b)
    case (Integer(m), Integer(n)) => m == n
    case (Rational(p), Rational(q)) => p == q
    case (Const(c), Const(d)) => c == d
    case (Add(_), Add(_)) => true
    case (Mul(_), Mul(_)) => true
    case (Pow(_, _), Pow(_, _)) => true
    case (Function(f, _), Function(g, _)) => f == g
    case _ => false
  }

  /** Equality up to renaming of the binders crossed, a signature being crossed one parameter at a time. */
  predicate Related(a: Expr, b: Expr, env: Pairing)
    decreases Size(a)
  {
    match (TryFromExpr(a), TryFromExpr(b))
    case (Some(Lambda(v, p)), Some(Lambda(w, q))) => Related(p, q, env + [(v, w)])
    case (Some(Integral(v, p, Some((l, u)))), Some(Integral(w, q, Some((m, n))))) =>
      Related(p, q, env + [(v, w)]) && Related(l, m, env) && Related(u, n, env)
    case (Some(Integral(v, p, None)), Some(Integral(w, q, None))) => Related(p, q, env) && SameName(v, w, env)
    case (Some(Derivative(v, p)), Some(Derivative(w, q))) => Related(p, q, env) && SameName(v, w, env)
    case (None, None) =>
      if a.Sym? && b.Sym? then SameName(a.symbol, b.symbol, env)
      else
        && SameLabel(a, b) && |Children(a)| == |Children(b)|
        && forall i | 0 <= i < |Children(a)| :: Related(Children(a)[i], Children(b)[i], env)
    case _ => false
  }

  ghost function Left(env: Pairing): seq<Symbol> {
    seq(|env|, i requires 0 <= i < |env| => env[i].0)
  }

  ghost function Right(env: Pairing): seq<Symbol> {
    seq(|env|, i requires 0 <= i < |env| => env[i].1)
  }

  lemma {:induction false} SameNameIffSameLookup(s: Symbol, t: Symbol, env: Pairing)
    ensures SameName(s, t, env) <==> Lookup(Left(env), s) == Lookup(Right(env), t)
  {
    if env != [] {
      var rest := env[..|env| - 1];
      assert Left(env)[..|env| - 1] == Left(rest) && Right(env)[..|env| - 1] == Right(rest);
      SameNameIffSameLookup(s, t, rest);
    }
  }

  lemma Extend(env: Pairing, v: Symbol, w: Symbol)
    ensures Left(env + [(v, w)]) == Left(env) + [v] && Right(env + [(v, w)]) == Right(env) + [w]
  {
  }

  /** Which arm of the binder reading an expression takes. */
  datatype Kind = Opaque | Abstraction | Definite | Indefinite | Differentiation

  ghost function KindOf(e: Expr): Kind {
    match TryFromExpr(e)
    case Some(Lambda(_, _)) => Abstraction
    case Some(Integral(_, _, Some(_))) => Definite
    case Some(Integral(_, _, None)) => Indefinite
    case Some(Derivative(_, _)) => Differentiation
    case None => Opaque
  }

  ghost function TermKind(t: Term): Kind {
    if !t.Node? then Opaque
    else if t.head.Binder? then Abstraction
    else if t.head.BinderWithArguments? then Definite
    else if t.head == TFunction("Integral") && |t.parts| == 2 && !t.parts[1].Node? then Indefinite
    else if t.head == TFunction("Derivative") && |t.parts| == 2 && !t.parts[1].Node? then Differentiation
    else Opaque
  }

  /** The De Bruijn form shows which arm was taken: a genuine binder never collides with an opaque function. */
  lemma KindShows(e: Expr, scope: seq<Symbol>)
    ensures TermKind(Convert(e, scope)) == KindOf(e)
  {
    if !e.Sym? {
      var r, t := Read(e), Convert(e, scope);
      assert t.head == r.head && |t.parts| == |r.parts|;
      if |r.parts| == 2 && !r.head.Binder? && !r.head.BinderWithArguments? {
        assert t.parts[1] == Convert(r.parts[1], scope + r.Over(1));
        assert t.parts[1].Node? <==> !r.parts[1].Sym?;
      }
    }
  }

  /** Equal heads and equal parts, which is what it takes for two non-symbols to have equal forms. */
  ghost predicate SameParts(a: Expr, b: Expr, env: Pairing)
    requires !a.Sym? && !b.Sym?
  {
    var p, q := Read(a), Read(b);
    && p.head == q.head && |p.parts| == |q.parts|
    && forall i | 0 <= i < |p.parts| :: Convert(p.parts[i], Left(env) + p.Over(i)) == Convert(q.parts[i], Right(env) + q.Over(i))
  }

  lemma SamePartsIffSameTerm(a: Expr, b: Expr, env: Pairing)
    requires !a.Sym? && !b.Sym?
    ensures SameParts(a, b, env) <==> Convert(a, Left(env)) == Convert(b, Right(env))
  {
    hide Read;
    var p, q := Read(a), Read(b);
    var t, u := Convert(a, Left(env)), Convert(b, Right(env));
    assert t.head == p.head && u.head == q.head && |t.parts| == |p.parts| && |u.parts| == |q.parts|;
    assert forall i | 0 <= i < |p.parts| :: t.parts[i] == Convert(p.parts[i], Left(env) + p.Over(i));
    assert forall i | 0 <= i < |q.parts| :: u.parts[i] == Convert(q.parts[i], Right(env) + q.Over(i));
    if SameParts(a, b, env) { assert t.parts == u.parts; }
  }

  /** Related exactly when the De Bruijn forms coincide. */
  lemma {:induction false} RelatedIffSameTerm(a: Expr, b: Expr, env: Pairing)
    ensures Related(a, b, env) <==> Convert(a, Left(env)) == Convert(b, Right(env))
    decreases Size(a), 1
  {
    hide Convert, Read, Lookup;
    KindShows(a, Left(env));
    KindShows(b, Right(env));
    if KindOf(a) == KindOf(b) {
      if KindOf(a).Opaque? {
        OpaqueRelated(a, b, env);
      } else {
        BinderRelated(a, b, env);
      }
    }
  }

  lemma OpaqueShape(a: Expr, b: Expr, env: Pairing)
    requires KindOf(a) == Opaque == KindOf(b) && !a.Sym? && !b.Sym?
    ensures Read(a).parts == Children(a) && Read(b).parts == Children(b)
    ensures Read(a).head == Read(b).head <==> SameLabel(a, b)
    ensures forall i | 0 <= i < |Read(a).parts| :: Read(a).Over(i) == []
    ensures forall i | 0 <= i < |Read(b).parts| :: Read(b).Over(i) == []
    ensures Related(a, b, env) <==>
      && SameLabel(a, b) && |Children(a)| == |Children(b)|
      && forall i | 0 <= i < |Children(a)| :: Related(Children(a)[i], Children(b)[i], env)
  {
    var p, q := Read(a), Read(b);
    assert p.parts == Children(a) && q.parts == Children(b);
    assert p.head == q.head <==> SameLabel(a, b);
  }

  lemma {:induction false} OpaqueRelated(a: Expr, b: Expr, env: Pairing)
    requires KindOf(a) == Opaque == KindOf(b)
    ensures Related(a, b, env) <==> Convert(a, Left(env)) == Convert(b, Right(env))
    decreases Size(a), 0
  {
    if a.Sym? || b.Sym? {
      if a.Sym? && b.Sym? { SameNameIffSameLookup(a.symbol, b.symbol, env); }
    } else {
      OpaqueShape(a, b, env);
      SamePartsIffSameTerm(a, b, env);
      var p, q := Read(a), Read(b);
      hide Convert, Read, TryFromExpr, Related, SameLabel;
      if |p.parts| == |q.parts| {
        forall i | 0 <= i < |p.parts|
          ensures Related(p.parts[i], q.parts[i], env) <==>
                  Convert(p.parts[i], Left(env) + p.Over(i)) == Convert(q.parts[i], Right(env) + q.Over(i))
        {
          assert Left(env) + [] == Left(env) && Right(env) + [] == Right(env);
          RelatedIffSameTerm(p.parts[i], q.parts[i], env);
        }
      }
    }
  }

  lemma BinderShape(e: Expr)
    requires KindOf(e) != Opaque
    ensures var n, r := TryFromExpr(e).value, Read(e);
      && !e.Sym? && r.parts != [] && r.parts[0] == n.body && Size(n.body) < Size(e)
      && (KindOf(e).Abstraction? || KindOf(e).Definite? ==> r.Over(0) == [BoundVariable(n)])
      && (KindOf(e).Abstraction? ==> |r.parts| == 1)
      && (KindOf(e).Definite? ==>
            && |r.parts| == 3 && r.parts[1] == n.limits.value.0 && r.parts[2] == n.limits.value.1
            && r.Over(1) == [] == r.Over(2) && Size(r.parts[1]) < Size(e) && Size(r.parts[2]) < Size(e))
      && (KindOf(e).Indefinite? || KindOf(e).Differentiation? ==>
            |r.parts| == 2 && r.parts[1] == Sym(BoundVariable(n)) && r.Over(0) == [] == r.Over(1))
  {
  }

  lemma BinderHeads(a: Expr, b: Expr)
    requires KindOf(a) == KindOf(b) != Opaque
    ensures Read(a).head == Read(b).head
  {
  }

  lemma ConvertName(v: Symbol, scope: seq<Symbol>)
    ensures Convert(Sym(v), scope) == Lookup(scope, v)
  {
  }

  lemma {:induction false} BinderRelated(a: Expr, b: Expr, env: Pairing)
    requires KindOf(a) == KindOf(b) != Opaque
    ensures Related(a, b, env) <==> Convert(a, Left(env)) == Convert(b, Right(env))
    decreases Size(a), 0
  {
    hide Convert, Lookup, Read, SameName, BoundVariable;
    BinderShape(a);
    BinderShape(b);
    BinderHeads(a, b);
    SamePartsIffSameTerm(a, b, env);
    var m, n := TryFromExpr(a).value, TryFromExpr(b).value;
    var v, w := BoundVariable(m), BoundVariable(n);
    Extend(env, v, w);
    SameNameIffSameLookup(v, w, env);
    ConvertName(v, Left(env));
    ConvertName(w, Right(env));
    assert Left(env) + [] == Left(env) && Right(env) + [] == Right(env);
    BinderArms(a, b, env);
    hide Related, KindOf, TryFromExpr;
    if KindOf(a).Abstraction? || KindOf(a).Definite? {
      RelatedIffSameTerm(m.body, n.body, env + [(v, w)]);
      if KindOf(a).Definite? {
        RelatedIffSameTerm(m.limits.value.0, n.limits.value.0, env);
        RelatedIffSameTerm(m.limits.value.1, n.limits.value.1, env);
      }
    } else {
      RelatedIffSameTerm(m.body, n.body, env);
    }
  }

  /** The arms of the relation, for binders of one kind. */
  lemma BinderArms(a: Expr, b: Expr, env: Pairing)
    requires KindOf(a) == KindOf(b) != Opaque
    ensures var m, n := TryFromExpr(a).value, TryFromExpr(b).value;
      var v, w := BoundVariable(m), BoundVariable(n);
      && (KindOf(a).Definite? ==> m.Integral? && m.limits.Some? && n.Integral? && n.limits.Some?)
      && (Related(a, b, env) <==>
            if KindOf(a).Abstraction? then Related(m.body, n.body, env + [(v, w)])
            else if KindOf(a).Definite? then
              && Related(m.body, n.body, env + [(v, w)])
              && Related(m.limits.value.0, n.limits.value.0, env) && Related(m.limits.value.1, n.limits.value.1, env)
            else Related(m.body, n.body, env) && SameName(v, w, env))
  {
    hide SameName;
  }

  lemma SameTermSameFree(a: Expr, b: Expr)
    requires Convert(a, []) == Convert(b, [])
    ensures FreeOf(a) == FreeOf(b)
  {
    forall s ensures s in FreeOf(a) <==> s in FreeOf(b) {
      FreeInConvert(a, [], s);
      FreeInConvert(b, [], s);
    }
  }
}
