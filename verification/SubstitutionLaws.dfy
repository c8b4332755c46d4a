/** Named substitution with freshening agrees with plain substitution on De Bruijn terms. */
module SubstitutionLaws {
  import opened Wrappers
  import opened Exprs
  import opened Binders
  import opened DeBruijn
  import opened Symbols
  import opened Freshening
  import opened Substitution

  // ---- binders seen through the conversion

  ghost function BinderTerm(b: BinderNode): Term {
    match b
    case Lambda(v, body) => Node(Binder("Lambda"), [Convert(body, [v])])
    case Integral(v, body, Some((lower, upper))) =>
      Node(BinderWithArguments("Integral"), [Convert(body, [v]), Convert(lower, []), Convert(upper, [])])
    case Integral(v, body, None) => Node(TFunction("Integral"), [Convert(body, []), Free(v)])
    case Derivative(v, body) => Node(TFunction("Derivative"), [Convert(body, []), Free(v)])
  }

  ghost predicate BinderBites(b: BinderNode) {
    && DerivativesBite(b.body)
    && (b.Derivative? ==> b.variable in FreeOf(b.body))
    && (b.Integral? && b.limits.Some? ==> DerivativesBite(b.limits.value.0) && DerivativesBite(b.limits.value.1))
  }

  lemma ConvertParts(e: Expr, ts: seq<Term>)
    requires !e.Sym? && |ts| == |Read(e).parts|
    requires forall i | 0 <= i < |ts| :: ts[i] == Convert(Read(e).parts[i], Read(e).Over(i))
    ensures Convert(e, []) == Node(Read(e).head, ts)
  {
    hide Read;
    var r := Read(e);
    var t := Convert(e, []);
    assert t.head == r.head && |t.parts| == |ts|;
    forall i | 0 <= i < |ts| ensures t.parts[i] == ts[i] {
      assert [] + r.Over(i) == r.Over(i);
    }
    assert t.parts == ts;
  }

  lemma ReadBinder(e: Expr, b: BinderNode)
    requires TryFromExpr(e) == Some(b)
    ensures Convert(e, []) == BinderTerm(b)
    ensures DerivativesBite(e) <==> BinderBites(b)
  {
    var r := Read(e);
    assert r.parts[0] == b.body;
    ConvertParts(e, BinderTerm(b).parts);
    if b.Integral? && b.limits.Some? {
      assert r.parts[1] == b.limits.value.0 && r.parts[2] == b.limits.value.1;
    }
  }

  lemma SubstNode(h: Head, ps: seq<Term>, qs: seq<Term>, x: Symbol, r: Term)
    requires |ps| == |qs| && forall i | 0 <= i < |ps| :: qs[i] == Subst(ps[i], x, r)
    ensures Subst(Node(h, ps), x, r) == Node(h, qs)
  {
  }

  lemma {:induction false} FreeIsDeclared(e: Expr, s: Symbol)
    requires s in FreeOf(e)
    ensures s in AllOf(e)
    decreases Size(e)
  {
    if !e.Sym? {
      var r := Read(e);
      var i :| 0 <= i < |r.parts| && !DerivativeVariable(r, i) && s in FreeOf(r.parts[i]) && s !in r.Over(i);
      FreeIsDeclared(r.parts[i], s);
      PartsDeclareLess(e, i, s);
    }
  }

  lemma {:induction false} DeclaredBelow(e: Expr, k: nat, s: Symbol)
    requires k <= |Children(e)|
    ensures s in AllBelow(e, k) <==> exists i | 0 <= i < k :: s in AllOf(Children(e)[i])
  {
    if k > 0 { DeclaredBelow(e, k - 1, s); }
  }

  ghost predicate InSome(args: seq<Expr>, s: Symbol) {
    exists i | 0 <= i < |args| :: s in AllOf(args[i])
  }

  lemma DeclaredInFunction(e: Expr, s: Symbol)
    requires e.Function?
    ensures s in AllOf(e) <==> InSome(e.args, s)
  {
    DeclaredBelow(e, |e.args|, s);
  }

  /** Currying a signature introduces no symbol. */
  lemma CurryingDeclaresLess(args: seq<Expr>, s: Symbol)
    requires TryParseLambda(args).Some? && s in AllOf(TryParseLambda(args).value.body)
    ensures InSome(args, s)
  {
    hide AllOf;
    var body := TryParseLambda(args).value.body;
    if |args| > 2 {
      DeclaredInFunction(body, s);
      assert body.args == args[1..];
    } else if body == args[1] {
    } else {
      DeclaredInFunction(body, s);
      var tuple, rest := args[0], body.args[0];
      DeclaredInFunction(tuple, s);
      if s in AllOf(rest) && |tuple.args| > 2 {
        DeclaredInFunction(rest, s);
        assert rest.args == tuple.args[1..];
      }
    }
  }

  /** Symbols written in a part of the reading are written in the expression. */
  lemma PartsDeclareLess(e: Expr, i: nat, s: Symbol)
    requires !e.Sym? && i < |Read(e).parts| && s in AllOf(Read(e).parts[i])
    ensures s in AllOf(e)
  {
    hide AllOf;
    var part := Read(e).parts[i];
    if part in Children(e) {
      DeclaredChild(e, part, s);
    } else {
      CurryingDeclaresLess(e.args, s);
      DeclaredInFunction(e, s);
    }
  }

  lemma DeclaredChild(e: Expr, c: Expr, s: Symbol)
    requires c in Children(e) && s in AllOf(c)
    ensures s in AllOf(e)
  {
    DeclaredBelow(e, |Children(e)|, s);
  }

  // ---- the main theorem

  /** `r` is a faithful answer to replacing `x` by `s` in `e`. */
  ghost predicate Agrees(e: Expr, x: Symbol, s: Expr, r: Expr) {
    DerivativesBite(r) && Convert(r, []) == Subst(Convert(e, []), x, Convert(s, []))
  }

  /** Exactly the free symbols one expects. */
  lemma AgreesOnFree(e: Expr, x: Symbol, s: Expr, r: Expr)
    requires DerivativesBite(e) && DerivativesBite(s) && Agrees(e, x, s, r)
    ensures FreeOf(r) == FreeOf(e) - {x} + if x in FreeOf(e) then FreeOf(s) else {}
  {
    forall u ensures u in FreeOf(r) <==> (u != x && u in FreeOf(e)) || (x in FreeOf(e) && u in FreeOf(s)) {
      OccursInConvert(r, [], u);
      OccursInSubst(Convert(e, []), x, Convert(s, []), u);
      OccursInConvert(e, [], u);
      OccursInConvert(e, [], x);
      OccursInConvert(s, [], u);
    }
  }

  /** A binder's body after a replacement that needed no renaming. */
  lemma AgreesUnder(body: Expr, v: Symbol, x: Symbol, s: Expr, r: Expr)
    requires DerivativesBite(s) && Agrees(body, x, s, r) && v != x && v !in FreeOf(s)
    ensures Convert(r, [v]) == Subst(Convert(body, [v]), x, Convert(s, []))
  {
    OccursInConvert(s, [], v);
    assert [v] + [] == [v];
    ConvertUnderOuterScope(r, [v], []);
    ConvertUnderOuterScope(body, [v], []);
    CloseSubst(Convert(body, []), v, 0, x, Convert(s, []));
  }

  /** Renaming a declared variable to an undeclared name leaves the binder's De Bruijn form unchanged. */
  lemma RenamedUnder(body: Expr, v: Symbol, w: Symbol, renamed: Expr)
    requires DerivativesBite(body) && Agrees(body, v, Sym(w), renamed) && w !in AllOf(body)
    ensures Convert(renamed, [w]) == Convert(body, [v])
  {
    OccursInConvert(body, [], w);
    if w in FreeOf(body) { FreeIsDeclared(body, w); }
    assert [v] + [] == [v] && [w] + [] == [w];
    ConvertUnderOuterScope(renamed, [w], []);
    ConvertUnderOuterScope(body, [v], []);
    CloseRenamed(Convert(body, []), v, w, 0);
  }

  lemma AbsentUnder(body: Expr, scope: seq<Symbol>, x: Symbol, t: Term)
    requires DerivativesBite(body) && (x in scope || x !in FreeOf(body))
    ensures Subst(Convert(body, scope), x, t) == Convert(body, scope)
  {
    OccursInConvert(body, scope, x);
    SubstAbsent(Convert(body, scope), x, t);
  }

  /** Substitution that answers is substitution of De Bruijn terms. */
  lemma {:induction false} SubsAgrees(e: Expr, x: Symbol, s: Expr, depth: nat, r: Expr)
    requires DerivativesBite(e) && DerivativesBite(s)
    requires Subs(e, x, s, FreeOf(s), depth) == Ok(r)
    ensures Agrees(e, x, s, r)
    decreases MAX_BINDING_DEPTH + 1 - depth, 2
  {
    if !e.Sym? {
      assert depth <= MAX_BINDING_DEPTH;
      hide Subs, Convert, Subst, DerivativesBite, Read, FreeOf;
      match TryFromExpr(e)
      case None => OpaqueAgrees(e, x, s, depth, r);
      case Some(b) =>
        if b.Derivative? || (b.Integral? && b.limits.None?) {
          OperatorAgrees(e, b, x, s, depth, r);
        } else {
          ScopedAgrees(e, b, x, s, depth, r);
        }
    }
  }

  lemma {:induction false} OpaqueAgrees(e: Expr, x: Symbol, s: Expr, depth: nat, r: Expr)
    requires !e.Sym? && TryFromExpr(e).None? && depth <= MAX_BINDING_DEPTH
    requires DerivativesBite(e) && DerivativesBite(s)
    requires Subs(e, x, s, FreeOf(s), depth) == Ok(r)
    ensures Agrees(e, x, s, r)
    decreases MAX_BINDING_DEPTH + 1 - depth, 0
  {
    hide Subs, Read, TryFromExpr, Convert, Subst, FreeOf;
    OpaqueStays(e, x, s, FreeOf(s), depth, r);
    var cs, ds := Children(e), Children(r);
    assert forall i | 0 <= i < |cs| :: cs[i] == Read(e).parts[i];
    var ts := seq(|cs|, i requires 0 <= i < |cs| => Convert(cs[i], []));
    var us := seq(|ds|, i requires 0 <= i < |ds| => Convert(ds[i], []));
    forall i | 0 <= i < |cs| ensures DerivativesBite(ds[i]) && us[i] == Subst(ts[i], x, Convert(s, [])) {
      SubsAgrees(cs[i], x, s, depth + 1, ds[i]);
    }
    ConvertParts(e, ts);
    ConvertParts(r, us);
    SubstNode(Read(e).head, ts, us, x, Convert(s, []));
  }

  /** What substitution did at a derivative or an indefinite integral. */
  lemma OperatorShape(e: Expr, n: BinderNode, x: Symbol, s: Expr, F: set<Symbol>, depth: nat, r: Expr) returns (w: Symbol, b: Expr)
    requires TryFromExpr(e) == Some(n) && (n.Derivative? || (n.Integral? && n.limits.None?))
    requires Subs(e, x, s, F, depth) == Ok(r)
    ensures if n.variable == x || x in FreeOf(n.body) then
              && (if n.variable == x then s == Sym(w) else w == n.variable)
              && Subs(n.body, x, s, F, depth + 1) == Ok(b)
              && r == ToExpr(n.(variable := w, body := b))
            else r == e
  {
    w := if n.variable == x && s.Sym? then s.symbol else n.variable;
    if n.variable == x || x in FreeOf(n.body) {
      b := Subs(n.body, x, s, F, depth + 1).value;
    } else {
      b := e;
    }
  }

  /** What substitution did under a declaration. */
  lemma UnderShape(v: Symbol, body: Expr, x: Symbol, s: Expr, F: set<Symbol>, depth: nat, w: Symbol, b: Expr) returns (renamed: Expr)
    requires depth <= MAX_BINDING_DEPTH && SubsUnder(v, body, x, s, F, depth) == Ok((w, b))
    ensures if x !in FreeOf(body) then w == v && b == body
            else if v in F then
              && w !in AllOf(body) + F + {x} && w == Fresh(v.name, AllOf(body) + F + {x})
              && Subs(body, v, Sym(w), {w}, depth + 1) == Ok(renamed)
              && Subs(renamed, x, s, F, depth + 1) == Ok(b)
            else w == v && Subs(body, x, s, F, depth + 1) == Ok(b)
  {
    hide Subs;
    if x in FreeOf(body) && v in F {
      renamed := Subs(body, v, Sym(w), {w}, depth + 1).value;
    } else {
      renamed := body;
    }
  }

  /** What substitution did at a Lambda or a definite integral. */
  lemma ScopedShape(e: Expr, n: BinderNode, x: Symbol, s: Expr, F: set<Symbol>, depth: nat, r: Expr) returns (w: Symbol, b: Expr, m: BinderNode)
    requires TryFromExpr(e) == Some(n) && (n.Lambda? || (n.Integral? && n.limits.Some?))
    requires depth <= MAX_BINDING_DEPTH && Subs(e, x, s, F, depth) == Ok(r)
    ensures if BoundVariable(n) == x then w == x && b == n.body else SubsUnder(BoundVariable(n), n.body, x, s, F, depth) == Ok((w, b))
    ensures n.Lambda? && n.param == x ==> r == e
    ensures n.Lambda? && n.param != x ==> m == Lambda(w, b) && r == ToExpr(m)
    ensures n.Integral? ==>
              && m.Integral? && m.limits.Some? && r == ToExpr(m) && m.variable == w && m.body == b
              && Subs(n.limits.value.0, x, s, F, depth + 1) == Ok(m.limits.value.0)
              && Subs(n.limits.value.1, x, s, F, depth + 1) == Ok(m.limits.value.1)
  {
    var v := BoundVariable(n);
    var wb := if v == x then (v, n.body) else SubsUnder(v, n.body, x, s, F, depth).value;
    w, b := wb.0, wb.1;
    if n.Lambda? {
      m := Lambda(w, b);
    } else {
      var (lower, upper) := n.limits.value;
      m := Integral(w, b, Some((Subs(lower, x, s, F, depth + 1).value, Subs(upper, x, s, F, depth + 1).value)));
    }
  }

  /** A derivative or an indefinite integral: its variable is replaced like an occurrence, never renamed. */
  lemma {:induction false} OperatorAgrees(e: Expr, n: BinderNode, x: Symbol, s: Expr, depth: nat, r: Expr)
    requires TryFromExpr(e) == Some(n) && (n.Derivative? || (n.Integral? && n.limits.None?)) && depth <= MAX_BINDING_DEPTH
    requires DerivativesBite(e) && DerivativesBite(s)
    requires Subs(e, x, s, FreeOf(s), depth) == Ok(r)
    ensures Agrees(e, x, s, r)
    decreases MAX_BINDING_DEPTH + 1 - depth, 1
  {
    hide Subs, TryFromExpr, ToExpr, Read, FreeOf, DerivativesBite, Convert, Subst;
    var v, body, t := n.variable, n.body, Convert(s, []);
    var w, b := OperatorShape(e, n, x, s, FreeOf(s), depth, r);
    ReadBinder(e, n);
    if v == x || x in FreeOf(body) {
      var m := n.(variable := w, body := b);
      BinderRoundTrip(m);
      SubsAgrees(body, x, s, depth + 1, b);
      OperatorVariableAgrees(body, v, x, s, b, w);
      ReadBinder(r, m);
      SubstNode(BinderTerm(n).head, [Convert(body, []), Free(v)], [Convert(b, []), Free(w)], x, t);
    } else {
      OperatorFree(e, n);
      AbsentUnder(e, [], x, t);
    }
  }

  lemma OperatorFree(e: Expr, n: BinderNode)
    requires TryFromExpr(e) == Some(n) && (n.Derivative? || (n.Integral? && n.limits.None?))
    ensures FreeOf(e) <= FreeOf(n.body) + {n.variable}
  {
    assert Read(e).parts == [n.body, Sym(n.variable)];
  }

  lemma OperatorVariableAgrees(body: Expr, v: Symbol, x: Symbol, s: Expr, b: Expr, w: Symbol)
    requires DerivativesBite(body) && DerivativesBite(s) && Agrees(body, x, s, b)
    requires if v == x then s == Sym(w) else w == v
    ensures v in FreeOf(body) ==> w in FreeOf(b)
    ensures Subst(Free(v), x, Convert(s, [])) == Free(w)
  {
    AgreesOnFree(body, x, s, b);
  }

  /** A Lambda or a definite integral: its variable may shadow, or be renamed. */
  lemma {:induction false} ScopedAgrees(e: Expr, n: BinderNode, x: Symbol, s: Expr, depth: nat, r: Expr)
    requires TryFromExpr(e) == Some(n) && (n.Lambda? || (n.Integral? && n.limits.Some?)) && depth <= MAX_BINDING_DEPTH
    requires DerivativesBite(e) && DerivativesBite(s)
    requires Subs(e, x, s, FreeOf(s), depth) == Ok(r)
    ensures Agrees(e, x, s, r)
    decreases MAX_BINDING_DEPTH + 1 - depth, 1
  {
    hide Subs, SubsUnder, TryFromExpr, ToExpr, Read, FreeOf, DerivativesBite, Convert, Subst;
    var v, body, t := BoundVariable(n), n.body, Convert(s, []);
    var w, b, m := ScopedShape(e, n, x, s, FreeOf(s), depth, r);
    ReadBinder(e, n);
    if v == x {
      AbsentUnder(body, [v], x, t);
    } else {
      SubsUnderAgrees(v, body, x, s, depth, w, b);
    }
    if n.Lambda? {
      if v != x {
        BinderRoundTrip(m);
        ReadBinder(r, m);
      }
      SubstNode(Binder("Lambda"), [Convert(body, [v])], [Convert(b, [w])], x, t);
    } else {
      var (lower, upper) := n.limits.value;
      var (l, u) := m.limits.value;
      SubsAgrees(lower, x, s, depth + 1, l);
      SubsAgrees(upper, x, s, depth + 1, u);
      BinderRoundTrip(m);
      ReadBinder(r, m);
      SubstNode(BinderWithArguments("Integral"), [Convert(body, [v]), Convert(lower, []), Convert(upper, [])],
                [Convert(b, [w]), Convert(l, []), Convert(u, [])], x, t);
    }
  }

  lemma {:induction false} SubsUnderAgrees(v: Symbol, body: Expr, x: Symbol, s: Expr, depth: nat, w: Symbol, b: Expr)
    requires depth <= MAX_BINDING_DEPTH && v != x
    requires DerivativesBite(body) && DerivativesBite(s)
    requires SubsUnder(v, body, x, s, FreeOf(s), depth) == Ok((w, b))
    ensures DerivativesBite(b) && Convert(b, [w]) == Subst(Convert(body, [v]), x, Convert(s, []))
    decreases MAX_BINDING_DEPTH + 1 - depth, 0
  {
    hide Subs, SubsUnder, Read, Convert, Subst;
    var renamed := UnderShape(v, body, x, s, FreeOf(s), depth, w, b);
    assert FreeOf(Sym(w)) == {w} && DerivativesBite(Sym(w));
    hide FreeOf, DerivativesBite;
    if x !in FreeOf(body) {
      AbsentUnder(body, [v], x, Convert(s, []));
    } else if v in FreeOf(s) {
      SubsAgrees(body, v, Sym(w), depth + 1, renamed);
      RenamedUnder(body, v, w, renamed);
      SubsAgrees(renamed, x, s, depth + 1, b);
      AgreesUnder(renamed, w, x, s, b);
    } else {
      SubsAgrees(body, x, s, depth + 1, b);
      AgreesUnder(body, v, x, s, b);
    }
  }
}
