/**
  With no hypothesis on derivatives: what substitution by a replacement that mentions no symbol
  written in the source leaves of the target.
 */
module SubstitutionExactness {
  import opened Wrappers
  import opened Exprs
  import opened Binders
  import opened DeBruijn
  import opened Symbols
  import opened Substitution
  import opened SubstitutionLaws

  /** The occurrence test that substitution makes at this node is right: a name in the first part is reported free there. */
  ghost predicate TestIsRight(r: Reading, x: Symbol) {
    r.parts != [] && Occurs(Convert(r.parts[0], []), x) ==> x in FreeOf(r.parts[0])
  }

  /** Substitution tests for the target before entering this node's first part. */
  predicate Guarded(r: Reading) {
    r.names != [] || (|r.parts| == 2 && r.parts[1].Sym? && (r.head == TFunction("Derivative") || r.head == TFunction("Integral")))
  }

  /** No node that substitution tests hides an occurrence of `x`. */
  ghost predicate Visible(e: Expr, x: Symbol)
    decreases Size(e)
  {
    e.Sym? ||
    var r := Read(e);
    && (forall i | 0 <= i < |r.parts| && x !in r.Over(i) :: Visible(r.parts[i], x))
    && (Guarded(r) && r.names != [x] && !(r.names == [] && r.parts[1] == Sym(x)) ==> TestIsRight(r, x))
  }

  /** The names of the replacement are new to the source and to the target. */
  ghost predicate NewNames(e: Expr, x: Symbol, s: Expr) {
    forall u :: Occurs(Convert(s, []), u) ==> u != x && u !in AllOf(e)
  }

  lemma {:induction false} HiddenMeansOccurs(e: Expr, x: Symbol, scope: seq<Symbol>)
    requires !Occurs(Convert(e, scope), x) && x !in scope
    ensures Visible(e, x)
    decreases Size(e)
  {
    if !e.Sym? {
      hide Read;
      var r, t := Read(e), Convert(e, scope);
      forall i | 0 <= i < |r.parts| && x !in r.Over(i) ensures Visible(r.parts[i], x) {
        assert t.parts[i] == Convert(r.parts[i], scope + r.Over(i));
        HiddenMeansOccurs(r.parts[i], x, scope + r.Over(i));
      }
      if r.parts != [] && x !in r.Over(0) {
        assert (scope + r.Over(0)) + [] == scope + r.Over(0);
        ConvertUnderOuterScope(r.parts[0], scope + r.Over(0), []);
        OccursInClose(Convert(r.parts[0], []), scope + r.Over(0), 0, x);
        assert t.parts[0] == Convert(r.parts[0], scope + r.Over(0));
      }
    }
  }

  lemma {:induction false} FreeOccurs(e: Expr, scope: seq<Symbol>, s: Symbol)
    requires s in FreeOf(e) && s !in scope
    ensures Occurs(Convert(e, scope), s)
    decreases Size(e)
  {
    if !e.Sym? {
      var r := Read(e);
      var i :| 0 <= i < |r.parts| && !DerivativeVariable(r, i) && s in FreeOf(r.parts[i]) && s !in r.Over(i);
      FreeOccurs(r.parts[i], scope + r.Over(i), s);
      assert Convert(e, scope).parts[i] == Convert(r.parts[i], scope + r.Over(i));
    }
  }

  lemma NewForParts(e: Expr, i: nat, x: Symbol, s: Expr)
    requires !e.Sym? && i < |Read(e).parts| && NewNames(e, x, s)
    ensures NewNames(Read(e).parts[i], x, s)
  {
    hide Read, AllOf, Occurs;
    forall u | u in AllOf(Read(e).parts[i]) ensures u in AllOf(e) { PartsDeclareLess(e, i, u); }
  }

  /** The name of a binder is written in it, so a new replacement does not mention it. */
  lemma NameIsWritten(e: Expr, b: BinderNode)
    requires TryFromExpr(e) == Some(b)
    ensures BoundVariable(b) in AllOf(e)
  {
    var v := BoundVariable(b);
    if b.Lambda? {
      if e.args[0] == Sym(v) {
        DeclaredChild(e, e.args[0], v);
      } else {
        DeclaredChild(e.args[0], e.args[0].args[0], v);
        DeclaredChild(e, e.args[0], v);
      }
    } else {
      DeclaredChild(e, e.args[1], v);
    }
  }

  lemma NewName(e: Expr, b: BinderNode, x: Symbol, s: Expr)
    requires TryFromExpr(e) == Some(b) && NewNames(e, x, s)
    ensures !Occurs(Convert(s, []), BoundVariable(b)) && BoundVariable(b) !in FreeOf(s)
  {
    NameIsWritten(e, b);
    if BoundVariable(b) in FreeOf(s) { FreeOccurs(s, [], BoundVariable(b)); }
  }

  /** The answer `r` differs from a full replacement only where occurrences of `x` remain, and some remain unless all are visible. */
  ghost predicate Partial(e: Expr, x: Symbol, s: Expr, r: Expr) {
    && Subst(Convert(r, []), x, Convert(s, [])) == Subst(Convert(e, []), x, Convert(s, []))
    && (Occurs(Convert(r, []), x) <==> !Visible(e, x))
  }

  lemma {:induction false} SubsPartial(e: Expr, x: Symbol, s: Expr, depth: nat, r: Expr)
    requires NewNames(e, x, s) && Subs(e, x, s, FreeOf(s), depth) == Ok(r)
    ensures Partial(e, x, s, r)
    decreases MAX_BINDING_DEPTH + 1 - depth, 2
  {
    if e.Sym? {
      SubstAbsent(Convert(s, []), x, Convert(s, []));
    } else {
      assert depth <= MAX_BINDING_DEPTH;
      hide Subs, Convert, Subst, Visible, NewNames, Read, FreeOf, Occurs;
      var b := TryFromExpr(e);
      if b.None? {
        OpaquePartial(e, x, s, depth, r);
      } else if b.value.Derivative? || (b.value.Integral? && b.value.limits.None?) {
        OperatorPartial(e, b.value, x, s, depth, r);
      } else {
        ScopedPartial(e, b.value, x, s, depth, r);
      }
    }
  }

  lemma {:induction false} OpaquePartial(e: Expr, x: Symbol, s: Expr, depth: nat, r: Expr)
    requires !e.Sym? && TryFromExpr(e).None? && depth <= MAX_BINDING_DEPTH
    requires NewNames(e, x, s) && Subs(e, x, s, FreeOf(s), depth) == Ok(r)
    ensures Partial(e, x, s, r)
    decreases MAX_BINDING_DEPTH + 1 - depth, 1
  {
    hide Subs, Read, TryFromExpr, Convert, Subst, FreeOf, Occurs, NewNames, DerivativesBite, Visible;
    OpaqueVisible(e, x);
    OpaqueStays(e, x, s, FreeOf(s), depth, r);
    var cs, ds := Children(e), Children(r);
    var ts := seq(|cs|, i requires 0 <= i < |cs| => Convert(cs[i], []));
    var us := seq(|ds|, i requires 0 <= i < |ds| => Convert(ds[i], []));
    forall i | 0 <= i < |cs| ensures Partial(cs[i], x, s, ds[i]) {
      NewForParts(e, i, x, s);
      SubsPartial(cs[i], x, s, depth + 1, ds[i]);
    }
    ConvertParts(e, ts);
    ConvertParts(r, us);
    SamePartial(Read(e).head, ts, us, x, Convert(s, []));
  }

  lemma OpaqueVisible(e: Expr, x: Symbol)
    requires !e.Sym? && TryFromExpr(e).None?
    ensures Read(e).parts == Children(e) && Read(e).names == []
    ensures Visible(e, x) <==> forall i | 0 <= i < |Children(e)| :: Visible(Children(e)[i], x)
  {
    assert !Guarded(Read(e)) && Read(e).parts == Children(e);
    hide Read, TryFromExpr;
  }

  /** Nodes with the same head agree after the replacement when their parts do, and keep an occurrence when a part does. */
  lemma SamePartial(h: Head, ts: seq<Term>, us: seq<Term>, x: Symbol, t: Term)
    requires |ts| == |us| && forall i | 0 <= i < |ts| :: Subst(us[i], x, t) == Subst(ts[i], x, t)
    ensures Subst(Node(h, us), x, t) == Subst(Node(h, ts), x, t)
    ensures Occurs(Node(h, us), x) <==> exists i | 0 <= i < |us| :: Occurs(us[i], x)
  {
    var vs := seq(|ts|, i requires 0 <= i < |ts| => Subst(ts[i], x, t));
    SubstNode(h, ts, vs, x, t);
    SubstNode(h, us, vs, x, t);
  }

  ghost function OperatorHead(n: BinderNode): Head {
    TFunction(if n.Derivative? then "Derivative" else "Integral")
  }

  lemma OperatorTerm(e: Expr, n: BinderNode)
    requires TryFromExpr(e) == Some(n) && (n.Derivative? || (n.Integral? && n.limits.None?))
    ensures Convert(e, []) == Node(OperatorHead(n), [Convert(n.body, []), Free(n.variable)])
  {
    hide TryFromExpr, Convert;
    ReadBinder(e, n);
  }

  lemma {:induction false} OperatorPartial(e: Expr, n: BinderNode, x: Symbol, s: Expr, depth: nat, r: Expr)
    requires TryFromExpr(e) == Some(n) && (n.Derivative? || (n.Integral? && n.limits.None?)) && depth <= MAX_BINDING_DEPTH
    requires NewNames(e, x, s) && Subs(e, x, s, FreeOf(s), depth) == Ok(r)
    ensures Partial(e, x, s, r)
    decreases MAX_BINDING_DEPTH + 1 - depth, 1
  {
    OperatorVisible(e, n, x);
    hide Subs, TryFromExpr, ToExpr, Read, FreeOf, Convert, Subst, Occurs, Visible, NewNames, DerivativesBite;
    var v, body, t := n.variable, n.body, Convert(s, []);
    var w, b := OperatorShape(e, n, x, s, FreeOf(s), depth, r);
    OperatorTerm(e, n);
    NewForParts(e, 0, x, s);
    var h := OperatorHead(n);
    if v == x || x in FreeOf(body) {
      var m := n.(variable := w, body := b);
      BinderRoundTrip(m);
      OperatorTerm(r, m);
      SubsPartial(body, x, s, depth + 1, b);
      VariablePartial(e, v, x, s, w);
      if x in FreeOf(body) { FreeOccurs(body, [], x); }
      PairPartial(h, Convert(body, []), v, Convert(b, []), w, x, t);
    } else {
      OperatorUntouched(e, n, x, s);
    }
  }

  lemma OperatorUntouched(e: Expr, n: BinderNode, x: Symbol, s: Expr)
    requires TryFromExpr(e) == Some(n) && (n.Derivative? || (n.Integral? && n.limits.None?))
    requires n.variable != x && x !in FreeOf(n.body)
    ensures Partial(e, x, s, e)
  {
    OperatorVisible(e, n, x);
    OperatorTerm(e, n);
    hide TryFromExpr, FreeOf, Convert, Subst, Occurs, Visible;
    OtherName(n.variable, x);
    PairPartial(OperatorHead(n), Convert(n.body, []), n.variable, Convert(n.body, []), n.variable, x, Convert(s, []));
    if !Occurs(Convert(n.body, []), x) { HiddenMeansOccurs(n.body, x, []); }
  }

  lemma PairPartial(h: Head, t: Term, v: Symbol, u: Term, w: Symbol, x: Symbol, s: Term)
    requires Subst(u, x, s) == Subst(t, x, s) && Subst(Free(w), x, s) == Subst(Free(v), x, s) && !Occurs(Free(w), x)
    ensures Subst(Node(h, [u, Free(w)]), x, s) == Subst(Node(h, [t, Free(v)]), x, s)
    ensures Occurs(Node(h, [u, Free(w)]), x) <==> Occurs(u, x)
  {
    hide Subst, Occurs;
    SamePartial(h, [t, Free(v)], [u, Free(w)], x, s);
    assert [u, Free(w)][0] == u && [u, Free(w)][1] == Free(w);
  }

  lemma OtherName(v: Symbol, x: Symbol)
    requires v != x
    ensures !Occurs(Free(v), x)
  {
  }

  lemma VariablePartial(e: Expr, v: Symbol, x: Symbol, s: Expr, w: Symbol)
    requires NewNames(e, x, s)
    requires if v == x then s == Sym(w) else w == v
    ensures w != x && !Occurs(Free(w), x) && Subst(Free(w), x, Convert(s, [])) == Subst(Free(v), x, Convert(s, []))
  {
    if v == x { assert Occurs(Convert(s, []), w); }
  }

  lemma OperatorVisible(e: Expr, n: BinderNode, x: Symbol)
    requires TryFromExpr(e) == Some(n) && (n.Derivative? || (n.Integral? && n.limits.None?))
    ensures |Read(e).parts| == 2 && Read(e).parts[0] == n.body
    ensures Visible(e, x) <==>
            Visible(n.body, x) && (n.variable == x || (Occurs(Convert(n.body, []), x) ==> x in FreeOf(n.body)))
  {
    var r := Read(e);
    assert r.parts == [n.body, Sym(n.variable)] && r.names == [] && r.Over(0) == [] == r.Over(1);
    hide Read, TryFromExpr, FreeOf, Convert, Occurs;
    assert Visible(Sym(n.variable), x);
  }

  lemma ScopedVisible(e: Expr, n: BinderNode, x: Symbol)
    requires TryFromExpr(e) == Some(n) && (n.Lambda? || (n.Integral? && n.limits.Some?))
    ensures |Read(e).parts| == (if n.Lambda? then 1 else 3) && Read(e).parts[0] == n.body
    ensures n.Integral? ==> Read(e).parts[1] == n.limits.value.0 && Read(e).parts[2] == n.limits.value.1
    ensures Visible(e, x) <==>
            && (BoundVariable(n) == x || (Visible(n.body, x) && (Occurs(Convert(n.body, []), x) ==> x in FreeOf(n.body))))
            && (n.Integral? ==> Visible(n.limits.value.0, x) && Visible(n.limits.value.1, x))
  {
    var r := Read(e);
    assert r.names == [BoundVariable(n)] && r.Over(0) == r.names && r.Over(1) == [] == r.Over(2);
    assert r.parts == if n.Lambda? then [n.body] else [n.body, n.limits.value.0, n.limits.value.1];
    hide Read, TryFromExpr, FreeOf, Convert, Occurs;
  }

  lemma {:induction false} ScopedPartial(e: Expr, n: BinderNode, x: Symbol, s: Expr, depth: nat, r: Expr)
    requires TryFromExpr(e) == Some(n) && (n.Lambda? || (n.Integral? && n.limits.Some?)) && depth <= MAX_BINDING_DEPTH
    requires NewNames(e, x, s) && Subs(e, x, s, FreeOf(s), depth) == Ok(r)
    ensures Partial(e, x, s, r)
    decreases MAX_BINDING_DEPTH + 1 - depth, 1
  {
    hide Subs, SubsUnder, TryFromExpr, ToExpr, Read, FreeOf, Convert, Subst, Occurs, Visible, NewNames, DerivativesBite;
    ScopedVisible(e, n, x);
    var v, body, t := BoundVariable(n), n.body, Convert(s, []);
    var w, b, m := ScopedShape(e, n, x, s, FreeOf(s), depth, r);
    ReadBinder(e, n);
    NewForParts(e, 0, x, s);
    NewName(e, n, x, s);
    if v == x {
      OccursInConvertScope(body, x);
    } else {
      UnderPartial(v, body, x, s, depth, w, b);
    }
    if n.Lambda? {
      if v != x { BinderRoundTrip(m); ReadBinder(r, m); }
      assert Convert(r, []) == Node(Binder("Lambda"), [Convert(b, [w])]);
      SamePartial(Binder("Lambda"), [Convert(body, [v])], [Convert(b, [w])], x, t);
      assert [Convert(b, [w])][0] == Convert(b, [w]);
    } else {
      var (lower, upper) := n.limits.value;
      var (l, u) := m.limits.value;
      NewForParts(e, 1, x, s);
      NewForParts(e, 2, x, s);
      SubsPartial(lower, x, s, depth + 1, l);
      SubsPartial(upper, x, s, depth + 1, u);
      BinderRoundTrip(m);
      ReadBinder(r, m);
      var us := [Convert(b, [w]), Convert(l, []), Convert(u, [])];
      SamePartial(BinderWithArguments("Integral"), [Convert(body, [v]), Convert(lower, []), Convert(upper, [])], us, x, t);
      assert us[0] == Convert(b, [w]) && us[1] == Convert(l, []) && us[2] == Convert(u, []);
    }
  }

  lemma OccursInConvertScope(body: Expr, x: Symbol)
    ensures !Occurs(Convert(body, [x]), x)
  {
    assert [x] + [] == [x];
    ConvertUnderOuterScope(body, [x], []);
    OccursInClose(Convert(body, []), [x], 0, x);
  }

  lemma {:induction false} UnderPartial(v: Symbol, body: Expr, x: Symbol, s: Expr, depth: nat, w: Symbol, b: Expr)
    requires depth <= MAX_BINDING_DEPTH && v != x && NewNames(body, x, s)
    requires !Occurs(Convert(s, []), v) && v !in FreeOf(s)
    requires SubsUnder(v, body, x, s, FreeOf(s), depth) == Ok((w, b))
    ensures Subst(Convert(b, [w]), x, Convert(s, [])) == Subst(Convert(body, [v]), x, Convert(s, []))
    ensures Occurs(Convert(b, [w]), x) <==> !(Visible(body, x) && (Occurs(Convert(body, []), x) ==> x in FreeOf(body)))
    decreases MAX_BINDING_DEPTH + 1 - depth, 0
  {
    hide Subs, SubsUnder, FreeOf, Convert, Subst, Occurs, Visible, NewNames, DerivativesBite, AllOf;
    var t := Convert(s, []);
    var _ := UnderShape(v, body, x, s, FreeOf(s), depth, w, b);
    assert [v] + [] == [v];
    ConvertUnderOuterScope(body, [v], []);
    ConvertUnderOuterScope(b, [v], []);
    OccursInClose(Convert(body, []), [v], 0, x);
    OccursInClose(Convert(b, []), [v], 0, x);
    if x in FreeOf(body) {
      SubsPartial(body, x, s, depth + 1, b);
      CloseSubst(Convert(body, []), v, 0, x, t);
      CloseSubst(Convert(b, []), v, 0, x, t);
    } else if !Occurs(Convert(body, []), x) {
      HiddenMeansOccurs(body, x, []);
    }
  }
}
