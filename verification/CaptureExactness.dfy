/**
  With no hypothesis on derivatives or on names: exactly when an answer of substitution is the
  substitution of De Bruijn terms.
 */
module CaptureExactness {
  import opened Wrappers
  import opened Exprs
  import opened Binders
  import opened DeBruijn
  import opened Symbols
  import opened Freshening
  import opened Substitution
  import opened SubstitutionLaws
  import opened SubstitutionExactness

  // ---- terms

  lemma {:induction false} ClosedHigher(t: Term, k: nat, m: nat)
    requires LocallyClosed(t, k) && k <= m
    ensures LocallyClosed(t, m)
  {
    if t.Node? {
      forall i | 0 <= i < |t.parts| ensures LocallyClosed(t.parts[i], m + t.head.Scopes(i)) {
        ClosedHigher(t.parts[i], k + t.head.Scopes(i), m + t.head.Scopes(i));
      }
    }
  }

  lemma {:induction false} SubstIsClosed(t: Term, x: Symbol, r: Term, k: nat)
    requires LocallyClosed(t, k) && LocallyClosed(r, 0)
    ensures LocallyClosed(Subst(t, x, r), k)
  {
    if t.Node? {
      forall i | 0 <= i < |t.parts| ensures LocallyClosed(Subst(t.parts[i], x, r), k + t.head.Scopes(i)) {
        SubstIsClosed(t.parts[i], x, r, k + t.head.Scopes(i));
      }
    } else {
      ClosedHigher(r, 0, k);
    }
  }

  /** Closing over a name loses nothing. */
  lemma {:induction false} CloseIsInjective(a: Term, b: Term, v: Symbol, k: nat)
    requires LocallyClosed(a, k) && LocallyClosed(b, k) && Close(a, [v], k) == Close(b, [v], k)
    ensures a == b
  {
    if a.Node? {
      assert b.Node? && |a.parts| == |b.parts|;
      forall i | 0 <= i < |a.parts| ensures a.parts[i] == b.parts[i] {
        assert Close(a, [v], k).parts[i] == Close(b, [v], k).parts[i];
        CloseIsInjective(a.parts[i], b.parts[i], v, k + a.head.Scopes(i));
      }
    }
  }

  /** Replacing a name by anything but itself shows. */
  lemma {:induction false} SubstShows(t: Term, x: Symbol, r: Term)
    requires r != Free(x)
    ensures Subst(t, x, r) == t <==> !Occurs(t, x)
  {
    if t.Node? {
      var u := Subst(t, x, r);
      forall i | 0 <= i < |t.parts| ensures u.parts[i] == t.parts[i] <==> !Occurs(t.parts[i], x) {
        SubstShows(t.parts[i], x, r);
      }
      assert u == t <==> u.parts == t.parts;
    }
  }

  /** Under a binder of `v`, a replacement is faithful exactly when it is so in the body and does not mention `v`. */
  lemma UnderBinderIff(t: Term, b: Term, v: Symbol, x: Symbol, r: Term)
    requires v != x && Occurs(t, x) && LocallyClosed(t, 0) && LocallyClosed(b, 0) && LocallyClosed(r, 0)
    ensures Close(b, [v], 0) == Subst(Close(t, [v], 0), x, r) <==> !Occurs(r, v) && b == Subst(t, x, r)
  {
    if Occurs(r, v) {
      OccursInClose(b, [v], 0, v);
      OccursInClose(t, [v], 0, x);
      OccursInSubst(Close(t, [v], 0), x, r, v);
    } else {
      CloseSubst(t, v, 0, x, r);
      SubstIsClosed(t, x, r, 0);
      if Close(b, [v], 0) == Subst(Close(t, [v], 0), x, r) { CloseIsInjective(b, Subst(t, x, r), v, 0); }
    }
  }

  // ---- names that substitution leaves alone

  /** Same shape, and every free `v` of `p` stands in the same place in `b`. */
  ghost predicate Keeps(p: Term, b: Term, v: Symbol) {
    match p
    case Free(u) => u == v ==> b == Free(v)
    case Bound(_) => true
    case Node(_, ps) => b.Node? && b.head == p.head && |b.parts| == |ps| && forall i | 0 <= i < |ps| :: Keeps(ps[i], b.parts[i], v)
  }

  lemma {:induction false} KeepsItself(p: Term, v: Symbol)
    ensures Keeps(p, p, v)
  {
    if p.Node? {
      forall i | 0 <= i < |p.parts| ensures Keeps(p.parts[i], p.parts[i], v) { KeepsItself(p.parts[i], v); }
    }
  }

  lemma {:induction false} KeepsTwice(p: Term, q: Term, b: Term, v: Symbol)
    requires Keeps(p, q, v) && Keeps(q, b, v)
    ensures Keeps(p, b, v)
  {
    if p.Node? {
      forall i | 0 <= i < |p.parts| ensures Keeps(p.parts[i], b.parts[i], v) { KeepsTwice(p.parts[i], q.parts[i], b.parts[i], v); }
    }
  }

  /** A name that does not occur is kept by whatever keeps the shape. */
  lemma {:induction false} KeepsShape(p: Term, b: Term, other: Symbol, v: Symbol)
    requires Keeps(p, b, other) && !Occurs(p, v)
    ensures Keeps(p, b, v)
  {
    if p.Node? {
      forall i | 0 <= i < |p.parts| ensures Keeps(p.parts[i], b.parts[i], v) { KeepsShape(p.parts[i], b.parts[i], other, v); }
    }
  }

  /** Closing over names other than `v`, or over `v` where it does not matter. */
  lemma {:induction false} KeepsUnder(p: Term, b: Term, u: Symbol, w: Symbol, k: nat, v: Symbol)
    requires Keeps(p, b, v) && (u != v && Occurs(p, v) ==> w != v)
    ensures Keeps(Close(p, [u], k), Close(b, [w], k), v)
  {
    if p.Node? {
      forall i | 0 <= i < |p.parts| ensures Keeps(Close(p.parts[i], [u], k + p.head.Scopes(i)), Close(b.parts[i], [w], k + p.head.Scopes(i)), v) {
        KeepsUnder(p.parts[i], b.parts[i], u, w, k + p.head.Scopes(i), v);
      }
    }
  }

  /** A renaming that missed an occurrence is never made good by the replacement that follows it. */
  lemma {:induction false} MissedForGood(q: Term, p: Term, b: Term, v: Symbol, w: Symbol, k: nat, x: Symbol, r: Term)
    requires v != w && v != x && !Occurs(q, w) && Subst(p, v, Free(w)) == Subst(q, v, Free(w))
    requires Keeps(p, b, v) && Close(b, [w], k) == Subst(Close(q, [v], k), x, r)
    ensures !Occurs(p, v)
  {
    if p.Node? {
      assert q.Node? && q.head == p.head && |q.parts| == |p.parts|;
      forall i | 0 <= i < |p.parts| ensures !Occurs(p.parts[i], v) {
        assert Subst(p, v, Free(w)).parts[i] == Subst(q, v, Free(w)).parts[i];
        assert Close(b, [w], k).parts[i] == Subst(Close(q, [v], k), x, r).parts[i];
        MissedForGood(q.parts[i], p.parts[i], b.parts[i], v, w, k + p.head.Scopes(i), x, r);
      }
    }
  }

  lemma {:induction false} OccursIsWritten(e: Expr, scope: seq<Symbol>, s: Symbol)
    requires Occurs(Convert(e, scope), s)
    ensures s in AllOf(e)
    decreases Size(e)
  {
    if !e.Sym? {
      hide Read, AllOf;
      var r, t := Read(e), Convert(e, scope);
      assert t.Node? && |t.parts| == |r.parts|;
      var i :| 0 <= i < |t.parts| && Occurs(t.parts[i], s);
      assert t.parts[i] == Convert(r.parts[i], scope + r.Over(i));
      OccursIsWritten(r.parts[i], scope + r.Over(i), s);
      PartsDeclareLess(e, i, s);
    }
  }

  /** Conversion under one name, from conversion under none. */
  lemma ConvertUnder(e: Expr, v: Symbol)
    ensures Convert(e, [v]) == Close(Convert(e, []), [v], 0)
    ensures LocallyClosed(Convert(e, []), 0)
  {
    assert [v] + [] == [v];
    ConvertUnderOuterScope(e, [v], []);
    ConvertIsLocallyClosed(e, []);
  }

  lemma KeepsNode(h: Head, ps: seq<Term>, bs: seq<Term>, v: Symbol)
    requires |ps| == |bs| && forall i | 0 <= i < |ps| :: Keeps(ps[i], bs[i], v)
    ensures Keeps(Node(h, ps), Node(h, bs), v)
  {
  }

  /** Substitution leaves every other name where it is, whatever it renames on the way. */
  lemma {:induction false} SubsKeeps(e: Expr, x: Symbol, s: Expr, F: set<Symbol>, depth: nat, r: Expr, v: Symbol)
    requires Subs(e, x, s, F, depth) == Ok(r) && v != x
    ensures Keeps(Convert(e, []), Convert(r, []), v)
    decreases MAX_BINDING_DEPTH + 1 - depth, 2
  {
    if !e.Sym? {
      assert depth <= MAX_BINDING_DEPTH;
      hide Subs, Convert, Read, Keeps;
      var n := TryFromExpr(e);
      if n.None? {
        OpaqueKeeps(e, x, s, F, depth, r, v);
      } else if n.value.Derivative? || (n.value.Integral? && n.value.limits.None?) {
        OperatorKeeps(e, n.value, x, s, F, depth, r, v);
      } else {
        ScopedKeeps(e, n.value, x, s, F, depth, r, v);
      }
    } else {
      assert Convert(e, []) == Free(e.symbol);
    }
  }

  lemma {:induction false} OpaqueKeeps(e: Expr, x: Symbol, s: Expr, F: set<Symbol>, depth: nat, r: Expr, v: Symbol)
    requires !e.Sym? && TryFromExpr(e).None? && depth <= MAX_BINDING_DEPTH
    requires Subs(e, x, s, F, depth) == Ok(r) && v != x
    ensures Keeps(Convert(e, []), Convert(r, []), v)
    decreases MAX_BINDING_DEPTH + 1 - depth, 1
  {
    hide Subs, Read, TryFromExpr, Convert, Keeps;
    OpaqueStays(e, x, s, F, depth, r);
    var cs, ds := Children(e), Children(r);
    var ts := seq(|cs|, i requires 0 <= i < |cs| => Convert(cs[i], []));
    var us := seq(|ds|, i requires 0 <= i < |ds| => Convert(ds[i], []));
    forall i | 0 <= i < |cs| ensures Keeps(ts[i], us[i], v) { SubsKeeps(cs[i], x, s, F, depth + 1, ds[i], v); }
    ConvertParts(e, ts);
    ConvertParts(r, us);
    KeepsNode(Read(e).head, ts, us, v);
  }

  lemma KeepsVariable(u: Symbol, w: Symbol, x: Symbol, v: Symbol)
    requires v != x && (u != x ==> w == u)
    ensures Keeps(Free(u), Free(w), v)
  {
  }

  lemma {:induction false} OperatorKeeps(e: Expr, n: BinderNode, x: Symbol, s: Expr, F: set<Symbol>, depth: nat, r: Expr, v: Symbol)
    requires TryFromExpr(e) == Some(n) && (n.Derivative? || (n.Integral? && n.limits.None?)) && depth <= MAX_BINDING_DEPTH
    requires Subs(e, x, s, F, depth) == Ok(r) && v != x
    ensures Keeps(Convert(e, []), Convert(r, []), v)
    decreases MAX_BINDING_DEPTH + 1 - depth, 1
  {
    hide Subs, TryFromExpr, ToExpr, Convert, Keeps, FreeOf;
    var w, b := OperatorShape(e, n, x, s, F, depth, r);
    if n.variable == x || x in FreeOf(n.body) {
      var m := n.(variable := w, body := b);
      BinderRoundTrip(m);
      OperatorTerm(e, n);
      OperatorTerm(r, m);
      SubsKeeps(n.body, x, s, F, depth + 1, b, v);
      KeepsVariable(n.variable, w, x, v);
      KeepsNode(OperatorHead(n), [Convert(n.body, []), Free(n.variable)], [Convert(b, []), Free(w)], v);
    } else {
      KeepsItself(Convert(e, []), v);
    }
  }

  lemma {:induction false} ScopedKeeps(e: Expr, n: BinderNode, x: Symbol, s: Expr, F: set<Symbol>, depth: nat, r: Expr, v: Symbol)
    requires TryFromExpr(e) == Some(n) && (n.Lambda? || (n.Integral? && n.limits.Some?)) && depth <= MAX_BINDING_DEPTH
    requires Subs(e, x, s, F, depth) == Ok(r) && v != x
    ensures Keeps(Convert(e, []), Convert(r, []), v)
    decreases MAX_BINDING_DEPTH + 1 - depth, 1
  {
    hide Subs, SubsUnder, TryFromExpr, ToExpr, Convert, Keeps, Read, DerivativesBite;
    var u := BoundVariable(n);
    var w, b, m := ScopedShape(e, n, x, s, F, depth, r);
    ReadBinder(e, n);
    if u == x { KeepsItself(Convert(n.body, [u]), v); } else { UnderKeeps(u, n.body, x, s, F, depth, w, b, v); }
    if n.Lambda? {
      if u == x {
        KeepsItself(Convert(e, []), v);
      } else {
        BinderRoundTrip(m);
        ReadBinder(r, m);
        KeepsNode(Binder("Lambda"), [Convert(n.body, [u])], [Convert(b, [w])], v);
      }
    } else {
      var (lower, upper) := n.limits.value;
      var (l, h) := m.limits.value;
      SubsKeeps(lower, x, s, F, depth + 1, l, v);
      SubsKeeps(upper, x, s, F, depth + 1, h, v);
      BinderRoundTrip(m);
      ReadBinder(r, m);
      KeepsNode(BinderWithArguments("Integral"), [Convert(n.body, [u]), Convert(lower, []), Convert(upper, [])],
        [Convert(b, [w]), Convert(l, []), Convert(h, [])], v);
    }
  }

  lemma {:induction false} UnderKeeps(u: Symbol, body: Expr, x: Symbol, s: Expr, F: set<Symbol>, depth: nat, w: Symbol, b: Expr, v: Symbol)
    requires depth <= MAX_BINDING_DEPTH && v != x && SubsUnder(u, body, x, s, F, depth) == Ok((w, b))
    ensures Keeps(Convert(body, [u]), Convert(b, [w]), v)
    decreases MAX_BINDING_DEPTH + 1 - depth, 0
  {
    hide Subs, SubsUnder, Convert, Keeps, FreeOf, AllOf, Close, LocallyClosed, Occurs;
    var renamed := UnderShape(u, body, x, s, F, depth, w, b);
    ConvertUnder(body, u);
    ConvertUnder(b, w);
    var p, q := Convert(body, []), Convert(b, []);
    if x !in FreeOf(body) {
      KeepsItself(Convert(body, [u]), v);
    } else if u in F {
      if u != v {
        SubsKeeps(body, u, Sym(w), {w}, depth + 1, renamed, v);
        SubsKeeps(renamed, x, s, F, depth + 1, b, v);
        KeepsTwice(p, Convert(renamed, []), q, v);
        if Occurs(p, v) { OccursIsWritten(body, [], v); }
        KeepsUnder(p, q, u, w, 0, v);
      } else {
        var other := Fresh("v", {u, x, w});
        SubsKeeps(body, u, Sym(w), {w}, depth + 1, renamed, other);
        SubsKeeps(renamed, x, s, F, depth + 1, b, other);
        KeepsTwice(p, Convert(renamed, []), q, other);
        KeepsUnder(p, q, u, w, 0, other);
        OccursInClose(p, [u], 0, v);
        KeepsShape(Close(p, [u], 0), Close(q, [w], 0), other, v);
      }
    } else {
      SubsKeeps(body, x, s, F, depth + 1, b, v);
      KeepsUnder(p, q, u, w, 0, v);
    }
  }

  // ---- the condition

  /** `r` is the substitution of De Bruijn terms. */
  ghost predicate Faithful(e: Expr, x: Symbol, s: Expr, r: Expr) {
    Convert(r, []) == Subst(Convert(e, []), x, Convert(s, []))
  }

  /**
    What the branches taken at each node demand: where the body is left alone, the target does not
    occur in it; where it is entered under a declared name, the replacement does not mention that
    name; where that name is replaced first, none of its occurrences is hidden.
   */
  ghost predicate Sound(e: Expr, x: Symbol, s: Expr, depth: nat)
    decreases MAX_BINDING_DEPTH + 1 - depth, 1
  {
    s == Sym(x) || e.Sym? || depth > MAX_BINDING_DEPTH ||
    match TryFromExpr(e)
    case None => forall i | 0 <= i < |Children(e)| :: Sound(Children(e)[i], x, s, depth + 1)
    case Some(Derivative(v, body)) => SoundOperator(v, body, x, s, depth)
    case Some(Integral(v, body, None)) => SoundOperator(v, body, x, s, depth)
    case Some(Lambda(v, body)) => v == x || SoundUnder(v, body, x, s, depth)
    case Some(Integral(v, body, Some((lower, upper)))) =>
      (v == x || SoundUnder(v, body, x, s, depth)) && Sound(lower, x, s, depth + 1) && Sound(upper, x, s, depth + 1)
  }

  ghost predicate SoundOperator(v: Symbol, body: Expr, x: Symbol, s: Expr, depth: nat)
    requires depth <= MAX_BINDING_DEPTH
    decreases MAX_BINDING_DEPTH + 1 - depth, 0
  {
    if v == x || x in FreeOf(body) then Sound(body, x, s, depth + 1) else !Occurs(Convert(body, []), x)
  }

  ghost predicate SoundUnder(v: Symbol, body: Expr, x: Symbol, s: Expr, depth: nat)
    requires depth <= MAX_BINDING_DEPTH
    decreases MAX_BINDING_DEPTH + 1 - depth, 0
  {
    if x !in FreeOf(body) then !Occurs(Convert(body, []), x)
    else if v !in FreeOf(s) then !Occurs(Convert(s, []), v) && Sound(body, x, s, depth + 1)
    else
      var w := Fresh(v.name, AllOf(body) + FreeOf(s) + {x});
      var renamed := Subs(body, v, Sym(w), {w}, depth + 1);
      Visible(body, v) && !Occurs(Convert(s, []), w) && renamed.Ok? && Sound(renamed.value, x, s, depth + 1)
  }

  lemma SubstUnchanged(t: Term, x: Symbol, s: Expr)
    ensures Subst(t, x, Convert(s, [])) == t <==> s == Sym(x) || !Occurs(t, x)
  {
    if s == Sym(x) { SubstItself(t, x); } else { SubstShows(t, x, Convert(s, [])); }
  }

  lemma {:induction false} SubstItself(t: Term, x: Symbol)
    ensures Subst(t, x, Free(x)) == t
  {
    if t.Node? {
      forall i | 0 <= i < |t.parts| ensures Subst(t.parts[i], x, Free(x)) == t.parts[i] { SubstItself(t.parts[i], x); }
    }
  }

  lemma PartsDecide(h: Head, ts: seq<Term>, us: seq<Term>, x: Symbol, r: Term)
    requires |ts| == |us|
    ensures Node(h, us) == Subst(Node(h, ts), x, r) <==> forall i | 0 <= i < |ts| :: us[i] == Subst(ts[i], x, r)
  {
    var vs := seq(|ts|, i requires 0 <= i < |ts| => Subst(ts[i], x, r));
    SubstNode(h, ts, vs, x, r);
    assert us == vs <==> forall i | 0 <= i < |ts| :: us[i] == vs[i];
  }

  lemma OneDecides(h: Head, a: Term, a': Term, x: Symbol, r: Term)
    ensures Node(h, [a']) == Subst(Node(h, [a]), x, r) <==> a' == Subst(a, x, r)
  {
    hide Subst;
    PartsDecide(h, [a], [a'], x, r);
    assert [a'][0] == a';
  }

  lemma PairDecides(h: Head, a: Term, b: Term, a': Term, b': Term, x: Symbol, r: Term)
    ensures Node(h, [a', b']) == Subst(Node(h, [a, b]), x, r) <==> a' == Subst(a, x, r) && b' == Subst(b, x, r)
  {
    hide Subst;
    PartsDecide(h, [a, b], [a', b'], x, r);
    assert [a', b'][0] == a' && [a', b'][1] == b';
  }

  lemma TripleDecides(h: Head, a: Term, b: Term, c: Term, a': Term, b': Term, c': Term, x: Symbol, r: Term)
    ensures Node(h, [a', b', c']) == Subst(Node(h, [a, b, c]), x, r) <==> a' == Subst(a, x, r) && b' == Subst(b, x, r) && c' == Subst(c, x, r)
  {
    hide Subst;
    var us := [a', b', c'];
    PartsDecide(h, [a, b, c], us, x, r);
    assert us[0] == a' && us[1] == b' && us[2] == c';
  }

  /** With no hypothesis at all, an answer is faithful if and only if every branch taken was sound. */
  lemma {:induction false} SubsFaithfulIff(e: Expr, x: Symbol, s: Expr, depth: nat, r: Expr)
    requires Subs(e, x, s, FreeOf(s), depth) == Ok(r)
    ensures Faithful(e, x, s, r) <==> Sound(e, x, s, depth)
    decreases MAX_BINDING_DEPTH + 1 - depth, 4
  {
    if !e.Sym? {
      assert depth <= MAX_BINDING_DEPTH;
      hide Subs, Convert, Subst, Read, FreeOf, Sound;
      var n := TryFromExpr(e);
      if n.None? {
        OpaqueFaithful(e, x, s, depth, r);
      } else if n.value.Derivative? || (n.value.Integral? && n.value.limits.None?) {
        OperatorFaithful(e, n.value, x, s, depth, r);
      } else {
        ScopedFaithful(e, n.value, x, s, depth, r);
      }
    }
  }

  lemma OpaqueSound(e: Expr, x: Symbol, s: Expr, depth: nat)
    requires !e.Sym? && TryFromExpr(e).None? && depth <= MAX_BINDING_DEPTH
    ensures s == Sym(x) ==> Sound(e, x, s, depth) && forall i | 0 <= i < |Children(e)| :: Sound(Children(e)[i], x, s, depth + 1)
    ensures Sound(e, x, s, depth) <==> forall i | 0 <= i < |Children(e)| :: Sound(Children(e)[i], x, s, depth + 1)
  {
    hide TryFromExpr;
  }

  lemma {:induction false} OpaqueFaithful(e: Expr, x: Symbol, s: Expr, depth: nat, r: Expr)
    requires !e.Sym? && TryFromExpr(e).None? && depth <= MAX_BINDING_DEPTH
    requires Subs(e, x, s, FreeOf(s), depth) == Ok(r)
    ensures Faithful(e, x, s, r) <==> Sound(e, x, s, depth)
    decreases MAX_BINDING_DEPTH + 1 - depth, 3
  {
    hide Subs, Read, TryFromExpr, Convert, Subst, FreeOf, Sound;
    OpaqueStays(e, x, s, FreeOf(s), depth, r);
    OpaqueSound(e, x, s, depth);
    var cs, ds := Children(e), Children(r);
    var ts := seq(|cs|, i requires 0 <= i < |cs| => Convert(cs[i], []));
    var us := seq(|ds|, i requires 0 <= i < |ds| => Convert(ds[i], []));
    forall i | 0 <= i < |cs| ensures us[i] == Subst(ts[i], x, Convert(s, [])) <==> Sound(cs[i], x, s, depth + 1) {
      SubsFaithfulIff(cs[i], x, s, depth + 1, ds[i]);
    }
    ConvertParts(e, ts);
    ConvertParts(r, us);
    PartsDecide(Read(e).head, ts, us, x, Convert(s, []));
  }

  lemma VariableReplaced(v: Symbol, x: Symbol, s: Expr, w: Symbol)
    requires if v == x then s == Sym(w) else w == v
    ensures Subst(Free(v), x, Convert(s, [])) == Free(w)
  {
  }

  lemma OperatorSound(e: Expr, n: BinderNode, x: Symbol, s: Expr, depth: nat)
    requires TryFromExpr(e) == Some(n) && (n.Derivative? || (n.Integral? && n.limits.None?)) && depth <= MAX_BINDING_DEPTH
    ensures Sound(e, x, s, depth) <==> s == Sym(x) || SoundOperator(n.variable, n.body, x, s, depth)
  {
    hide TryFromExpr, SoundOperator;
  }

  lemma OperatorOccurs(e: Expr, n: BinderNode, x: Symbol)
    requires TryFromExpr(e) == Some(n) && (n.Derivative? || (n.Integral? && n.limits.None?)) && n.variable != x
    ensures Occurs(Convert(e, []), x) <==> Occurs(Convert(n.body, []), x)
  {
    hide TryFromExpr, Convert;
    OperatorTerm(e, n);
    var t := Convert(e, []);
    assert t.parts[0] == Convert(n.body, []) && t.parts[1] == Free(n.variable);
  }

  lemma {:induction false} OperatorFaithful(e: Expr, n: BinderNode, x: Symbol, s: Expr, depth: nat, r: Expr)
    requires TryFromExpr(e) == Some(n) && (n.Derivative? || (n.Integral? && n.limits.None?)) && depth <= MAX_BINDING_DEPTH
    requires Subs(e, x, s, FreeOf(s), depth) == Ok(r)
    ensures Faithful(e, x, s, r) <==> Sound(e, x, s, depth)
    decreases MAX_BINDING_DEPTH + 1 - depth, 3
  {
    hide Subs, TryFromExpr, ToExpr, Read, FreeOf, Convert, Subst, Occurs, Sound, Faithful;
    OperatorSound(e, n, x, s, depth);
    var v, body := n.variable, n.body;
    var w, b := OperatorShape(e, n, x, s, FreeOf(s), depth, r);
    if v == x || x in FreeOf(body) {
      BinderRoundTrip(n.(variable := w, body := b));
      OperatorEntered(e, n, x, s, w, b, r);
      SubsFaithfulIff(body, x, s, depth + 1, b);
      SelfIsSound(body, x, s, depth + 1);
    } else {
      OperatorLeft(e, n, x, s);
    }
  }

  lemma OperatorEntered(e: Expr, n: BinderNode, x: Symbol, s: Expr, w: Symbol, b: Expr, r: Expr)
    requires TryFromExpr(e) == Some(n) && (n.Derivative? || (n.Integral? && n.limits.None?))
    requires TryFromExpr(r) == Some(n.(variable := w, body := b))
    requires if n.variable == x then s == Sym(w) else w == n.variable
    ensures Faithful(e, x, s, r) <==> Faithful(n.body, x, s, b)
  {
    hide TryFromExpr, Convert, Subst;
    OperatorTerm(e, n);
    OperatorTerm(r, n.(variable := w, body := b));
    VariableReplaced(n.variable, x, s, w);
    PairDecides(OperatorHead(n), Convert(n.body, []), Free(n.variable), Convert(b, []), Free(w), x, Convert(s, []));
  }

  lemma OperatorLeft(e: Expr, n: BinderNode, x: Symbol, s: Expr)
    requires TryFromExpr(e) == Some(n) && (n.Derivative? || (n.Integral? && n.limits.None?)) && n.variable != x
    ensures Faithful(e, x, s, e) <==> s == Sym(x) || !Occurs(Convert(n.body, []), x)
  {
    hide TryFromExpr, Convert, Subst, Occurs;
    SubstUnchanged(Convert(e, []), x, s);
    OperatorOccurs(e, n, x);
  }

  lemma SelfIsSound(e: Expr, x: Symbol, s: Expr, depth: nat)
    ensures s == Sym(x) ==> Sound(e, x, s, depth)
  {
  }

  lemma ScopedSound(e: Expr, n: BinderNode, x: Symbol, s: Expr, depth: nat)
    requires TryFromExpr(e) == Some(n) && (n.Lambda? || (n.Integral? && n.limits.Some?)) && depth <= MAX_BINDING_DEPTH
    ensures Sound(e, x, s, depth) <==>
            && (s == Sym(x) || BoundVariable(n) == x || SoundUnder(BoundVariable(n), n.body, x, s, depth))
            && (n.Integral? ==> Sound(n.limits.value.0, x, s, depth + 1) && Sound(n.limits.value.1, x, s, depth + 1))
  {
    hide TryFromExpr, SoundUnder;
    if n.Integral? {
      SelfIsSound(n.limits.value.0, x, s, depth + 1);
      SelfIsSound(n.limits.value.1, x, s, depth + 1);
    }
  }

  lemma {:induction false} ScopedFaithful(e: Expr, n: BinderNode, x: Symbol, s: Expr, depth: nat, r: Expr)
    requires TryFromExpr(e) == Some(n) && (n.Lambda? || (n.Integral? && n.limits.Some?)) && depth <= MAX_BINDING_DEPTH
    requires Subs(e, x, s, FreeOf(s), depth) == Ok(r)
    ensures Faithful(e, x, s, r) <==> Sound(e, x, s, depth)
    decreases MAX_BINDING_DEPTH + 1 - depth, 3
  {
    ScopedSound(e, n, x, s, depth);
    hide Subs, SubsUnder, TryFromExpr, ToExpr, Read, FreeOf, Convert, Subst, Occurs, Sound, SoundUnder, DerivativesBite;
    var v, body, t := BoundVariable(n), n.body, Convert(s, []);
    var w, b, m := ScopedShape(e, n, x, s, FreeOf(s), depth, r);
    ReadBinder(e, n);
    if v == x {
      OccursInConvertScope(body, x);
      SubstUnchanged(Convert(body, [x]), x, s);
    } else {
      UnderFaithful(v, body, x, s, depth, w, b);
    }
    if n.Lambda? {
      if v != x { BinderRoundTrip(m); ReadBinder(r, m); }
      assert Convert(r, []) == Node(Binder("Lambda"), [Convert(b, [w])]);
      OneDecides(Binder("Lambda"), Convert(body, [v]), Convert(b, [w]), x, t);
    } else {
      var (lower, upper) := n.limits.value;
      var (l, u) := m.limits.value;
      SubsFaithfulIff(lower, x, s, depth + 1, l);
      SubsFaithfulIff(upper, x, s, depth + 1, u);
      BinderRoundTrip(m);
      ReadBinder(r, m);
      TripleDecides(BinderWithArguments("Integral"), Convert(body, [v]), Convert(lower, []), Convert(upper, []),
        Convert(b, [w]), Convert(l, []), Convert(u, []), x, t);
    }
  }

  lemma {:induction false} UnderFaithful(v: Symbol, body: Expr, x: Symbol, s: Expr, depth: nat, w: Symbol, b: Expr)
    requires depth <= MAX_BINDING_DEPTH && v != x && SubsUnder(v, body, x, s, FreeOf(s), depth) == Ok((w, b))
    ensures Convert(b, [w]) == Subst(Convert(body, [v]), x, Convert(s, [])) <==> s == Sym(x) || SoundUnder(v, body, x, s, depth)
    decreases MAX_BINDING_DEPTH + 1 - depth, 2
  {
    hide Subs, SubsUnder, FreeOf, Convert, Subst, Occurs, Visible, Sound, AllOf, Close, LocallyClosed;
    var renamed := UnderShape(v, body, x, s, FreeOf(s), depth, w, b);
    ConvertUnder(body, v);
    ConvertUnder(b, w);
    ConvertIsLocallyClosed(s, []);
    OccursInClose(Convert(body, []), [v], 0, x);
    if x !in FreeOf(body) {
      SubstUnchanged(Convert(body, [v]), x, s);
    } else if v !in FreeOf(s) {
      FreeOccurs(body, [], x);
      UnderBinderIff(Convert(body, []), Convert(b, []), v, x, Convert(s, []));
      SubsFaithfulIff(body, x, s, depth + 1, b);
      SelfIsSound(body, x, s, depth + 1);
      SymbolOccurs(s, x, v);
    } else {
      FreeOfSymbol(x);
      RenamedFaithful(v, body, x, s, depth, w, renamed, b);
    }
  }

  lemma SymbolOccurs(s: Expr, x: Symbol, v: Symbol)
    requires v != x
    ensures s == Sym(x) ==> !Occurs(Convert(s, []), v)
  {
  }

  lemma FreeOfSymbol(x: Symbol)
    ensures FreeOf(Sym(x)) == {x} && Convert(Sym(x), []) == Free(x)
  {
  }

  /** The renaming branch: the name is replaced throughout, or what it missed is captured or left free. */
  lemma {:induction false} RenamedFaithful(v: Symbol, body: Expr, x: Symbol, s: Expr, depth: nat, w: Symbol, renamed: Expr, b: Expr)
    requires depth <= MAX_BINDING_DEPTH && v != x && x in FreeOf(body) && v in FreeOf(s)
    requires w !in AllOf(body) + FreeOf(s) + {x}
    requires Subs(body, v, Sym(w), {w}, depth + 1) == Ok(renamed) && Subs(renamed, x, s, FreeOf(s), depth + 1) == Ok(b)
    ensures Convert(b, [w]) == Subst(Convert(body, [v]), x, Convert(s, [])) <==>
            Visible(body, v) && !Occurs(Convert(s, []), w) && Sound(renamed, x, s, depth + 1)
    decreases MAX_BINDING_DEPTH + 1 - depth, 1
  {
    FreeOfSymbol(w);
    hide Subs, FreeOf, Convert, Subst, Occurs, Visible, Sound, AllOf, Close, LocallyClosed, Keeps;
    var q, p, a, t := Convert(body, []), Convert(renamed, []), Convert(b, []), Convert(s, []);
    ConvertUnder(body, v);
    ConvertUnder(b, w);
    ConvertIsLocallyClosed(s, []);
    ConvertIsLocallyClosed(renamed, []);
    if Occurs(q, w) { OccursIsWritten(body, [], w); }
    NewSymbol(body, v, w);
    SubsPartial(body, v, Sym(w), depth + 1, renamed);
    if Visible(body, v) {
      SubstAbsent(p, v, Free(w));
      CloseRenamed(q, v, w, 0);
      FreeOccurs(body, [], x);
      OccursInSubst(q, v, Free(w), x);
      UnderBinderIff(p, a, w, x, t);
      SubsFaithfulIff(renamed, x, s, depth + 1, b);
    } else {
      SubsKeeps(renamed, x, s, FreeOf(s), depth + 1, b, v);
      if Close(a, [w], 0) == Subst(Close(q, [v], 0), x, t) { MissedForGood(q, p, a, v, w, 0, x, t); }
    }
  }

  lemma NewSymbol(body: Expr, v: Symbol, w: Symbol)
    requires w !in AllOf(body) && w != v
    ensures NewNames(body, v, Sym(w))
  {
    hide AllOf;
  }

  /** When an answer of substitution is the substitution of De Bruijn terms. */
  lemma FaithfulIffSound(e: Expr, x: Symbol, s: Expr, r: Expr)
    requires CaptureAvoidingSubs(e, x, s) == Ok(r)
    ensures Faithful(e, x, s, r) <==> Sound(e, x, s, 0)
  {
    hide Subs, Sound, Faithful;
    SubsFaithfulIff(e, x, s, 0, r);
  }

  // ---- where nothing is renamed

  /** No binder that has `x` free below it declares a name the replacement mentions, hidden or not. */
  ghost predicate Uncaptured(e: Expr, x: Symbol, s: Expr)
    decreases Size(e)
  {
    e.Sym? ||
    var r := Read(e);
    && (forall i | 0 <= i < |r.parts| && x !in r.Over(i) :: Uncaptured(r.parts[i], x, s))
    && (r.names != [] && r.parts != [] && r.names != [x] && x in FreeOf(r.parts[0]) ==> !Occurs(Convert(s, []), r.names[0]))
  }

  ghost predicate Clear(e: Expr, x: Symbol, s: Expr) {
    Visible(e, x) && Uncaptured(e, x, s)
  }

  lemma {:induction false} NotFreeUncaptured(e: Expr, x: Symbol, s: Expr)
    requires x !in FreeOf(e)
    ensures Uncaptured(e, x, s)
    decreases Size(e)
  {
    if !e.Sym? {
      hide Occurs, Convert;
      var r := Read(e);
      forall i | 0 <= i < |r.parts| && x !in r.Over(i) ensures Uncaptured(r.parts[i], x, s) {
        if !DerivativeVariable(r, i) { NotFreeUncaptured(r.parts[i], x, s); }
      }
      assert r.names != [] && r.parts != [] && r.names != [x] ==> x !in r.Over(0) && !DerivativeVariable(r, 0);
    }
  }

  lemma HiddenOrClear(e: Expr, x: Symbol, s: Expr)
    requires x !in FreeOf(e)
    ensures !Occurs(Convert(e, []), x) ==> Clear(e, x, s)
  {
    hide FreeOf, Occurs, Convert, Visible, Uncaptured;
    NotFreeUncaptured(e, x, s);
    if !Occurs(Convert(e, []), x) { HiddenMeansOccurs(e, x, []); }
  }

  lemma OpaqueClear(e: Expr, x: Symbol, s: Expr)
    requires !e.Sym? && TryFromExpr(e).None?
    ensures Clear(e, x, s) <==> forall i | 0 <= i < |Children(e)| :: Clear(Children(e)[i], x, s)
  {
    OpaqueVisible(e, x);
    hide Read, TryFromExpr, FreeOf, Occurs, Convert, Visible;
    assert forall i | 0 <= i < |Children(e)| :: Read(e).Over(i) == [];
  }

  lemma OperatorReading(e: Expr, n: BinderNode)
    requires TryFromExpr(e) == Some(n) && (n.Derivative? || (n.Integral? && n.limits.None?))
    ensures !e.Sym? && Read(e) == Reading(OperatorHead(n), [n.body, Sym(n.variable)], [])
  {
  }

  lemma OperatorUncaptured(e: Expr, n: BinderNode, x: Symbol, s: Expr)
    requires TryFromExpr(e) == Some(n) && (n.Derivative? || (n.Integral? && n.limits.None?))
    ensures Uncaptured(e, x, s) <==> Uncaptured(n.body, x, s)
  {
    hide Read, TryFromExpr, FreeOf, Occurs, Convert;
    OperatorReading(e, n);
    assert Uncaptured(Sym(n.variable), x, s);
    var r := Read(e);
    assert r.parts[0] == n.body && r.parts[1] == Sym(n.variable) && r.Over(0) == [] == r.Over(1);
  }

  lemma OperatorClear(e: Expr, n: BinderNode, x: Symbol, s: Expr)
    requires TryFromExpr(e) == Some(n) && (n.Derivative? || (n.Integral? && n.limits.None?))
    ensures Clear(e, x, s) <==> if n.variable == x || x in FreeOf(n.body) then Clear(n.body, x, s) else !Occurs(Convert(n.body, []), x)
  {
    hide Read, TryFromExpr, FreeOf, Occurs, Convert, Visible, Uncaptured;
    OperatorVisible(e, n, x);
    OperatorUncaptured(e, n, x, s);
    if x !in FreeOf(n.body) { HiddenOrClear(n.body, x, s); }
  }

  lemma ScopedReading(e: Expr, n: BinderNode)
    requires TryFromExpr(e) == Some(n) && (n.Lambda? || (n.Integral? && n.limits.Some?))
    ensures !e.Sym? && Read(e).names == [BoundVariable(n)] && Read(e).head.Scopes(0) == 1
    ensures Read(e).parts == if n.Lambda? then [n.body] else [n.body, n.limits.value.0, n.limits.value.1]
  {
  }

  lemma ScopedUncaptured(e: Expr, n: BinderNode, x: Symbol, s: Expr)
    requires TryFromExpr(e) == Some(n) && (n.Lambda? || (n.Integral? && n.limits.Some?))
    ensures Uncaptured(e, x, s) <==>
            && (BoundVariable(n) == x || (Uncaptured(n.body, x, s) && (x in FreeOf(n.body) ==> !Occurs(Convert(s, []), BoundVariable(n)))))
            && (n.Integral? ==> Uncaptured(n.limits.value.0, x, s) && Uncaptured(n.limits.value.1, x, s))
  {
    hide Read, TryFromExpr, FreeOf, Occurs, Convert;
    ScopedReading(e, n);
    var r := Read(e);
    assert r.Over(0) == r.names && r.Over(1) == [] == r.Over(2);
    assert r.parts[0] == n.body && (n.Integral? ==> r.parts[1] == n.limits.value.0 && r.parts[2] == n.limits.value.1);
  }

  lemma ScopedClear(e: Expr, n: BinderNode, x: Symbol, s: Expr)
    requires TryFromExpr(e) == Some(n) && (n.Lambda? || (n.Integral? && n.limits.Some?))
    ensures Clear(e, x, s) <==>
            && (BoundVariable(n) == x || ClearUnder(BoundVariable(n), n.body, x, s))
            && (n.Integral? ==> Clear(n.limits.value.0, x, s) && Clear(n.limits.value.1, x, s))
  {
    hide Read, TryFromExpr, FreeOf, Occurs, Convert, Visible, Uncaptured;
    ScopedVisible(e, n, x);
    ScopedUncaptured(e, n, x, s);
    if x !in FreeOf(n.body) { HiddenOrClear(n.body, x, s); }
  }

  ghost predicate ClearUnder(v: Symbol, body: Expr, x: Symbol, s: Expr) {
    if x !in FreeOf(body) then !Occurs(Convert(body, []), x) else !Occurs(Convert(s, []), v) && Clear(body, x, s)
  }

  lemma NewForPart(e: Expr, i: nat, s: Expr)
    requires !e.Sym? && i < |Read(e).parts| && FreeOf(s) !! AllOf(e)
    ensures FreeOf(s) !! AllOf(Read(e).parts[i])
  {
    hide Read, AllOf, FreeOf;
    forall u | u in AllOf(Read(e).parts[i]) ensures u in AllOf(e) { PartsDeclareLess(e, i, u); }
  }

  /** Without a renaming, the branches are sound when every target is visible and no binder captures. */
  lemma {:induction false} SoundIffClear(e: Expr, x: Symbol, s: Expr, depth: nat, r: Expr)
    requires FreeOf(s) !! AllOf(e) && s != Sym(x) && Subs(e, x, s, FreeOf(s), depth) == Ok(r)
    ensures Sound(e, x, s, depth) <==> Clear(e, x, s)
    decreases MAX_BINDING_DEPTH + 1 - depth, 1
  {
    if !e.Sym? {
      assert depth <= MAX_BINDING_DEPTH;
      hide Subs, Read, FreeOf, AllOf, Visible, Uncaptured, Sound, Clear, TryFromExpr;
      var n := TryFromExpr(e);
      if n.None? {
        OpaqueSoundIffClear(e, x, s, depth, r);
      } else if n.value.Derivative? || (n.value.Integral? && n.value.limits.None?) {
        OperatorSoundIffClear(e, n.value, x, s, depth, r);
      } else {
        ScopedSoundIffClear(e, n.value, x, s, depth, r);
      }
    }
  }

  lemma {:induction false} OpaqueSoundIffClear(e: Expr, x: Symbol, s: Expr, depth: nat, r: Expr)
    requires !e.Sym? && TryFromExpr(e).None? && depth <= MAX_BINDING_DEPTH
    requires FreeOf(s) !! AllOf(e) && s != Sym(x) && Subs(e, x, s, FreeOf(s), depth) == Ok(r)
    ensures Sound(e, x, s, depth) <==> Clear(e, x, s)
    decreases MAX_BINDING_DEPTH + 1 - depth, 0
  {
    hide Subs, Read, FreeOf, AllOf, Visible, Uncaptured, Sound, Clear, TryFromExpr;
    OpaqueStays(e, x, s, FreeOf(s), depth, r);
    OpaqueSound(e, x, s, depth);
    OpaqueClear(e, x, s);
    forall i | 0 <= i < |Children(e)| ensures Sound(Children(e)[i], x, s, depth + 1) <==> Clear(Children(e)[i], x, s) {
      NewForPart(e, i, s);
      SoundIffClear(Children(e)[i], x, s, depth + 1, Children(r)[i]);
    }
  }

  lemma {:induction false} OperatorSoundIffClear(e: Expr, n: BinderNode, x: Symbol, s: Expr, depth: nat, r: Expr)
    requires TryFromExpr(e) == Some(n) && (n.Derivative? || (n.Integral? && n.limits.None?)) && depth <= MAX_BINDING_DEPTH
    requires FreeOf(s) !! AllOf(e) && s != Sym(x) && Subs(e, x, s, FreeOf(s), depth) == Ok(r)
    ensures Sound(e, x, s, depth) <==> Clear(e, x, s)
    decreases MAX_BINDING_DEPTH + 1 - depth, 0
  {
    hide Subs, Read, FreeOf, AllOf, Occurs, Convert, Visible, Uncaptured, Sound, Clear, TryFromExpr, ToExpr;
    OperatorSound(e, n, x, s, depth);
    OperatorClear(e, n, x, s);
    var w, b := OperatorShape(e, n, x, s, FreeOf(s), depth, r);
    if n.variable == x || x in FreeOf(n.body) {
      FirstPart(e, n);
      NewForPart(e, 0, s);
      SoundIffClear(n.body, x, s, depth + 1, b);
    }
  }

  lemma FirstPart(e: Expr, n: BinderNode)
    requires TryFromExpr(e) == Some(n)
    ensures |Read(e).parts| > 0 && Read(e).parts[0] == n.body
    ensures n.Integral? && n.limits.Some? ==> Read(e).parts == [n.body, n.limits.value.0, n.limits.value.1]
  {
  }

  lemma {:induction false} ScopedSoundIffClear(e: Expr, n: BinderNode, x: Symbol, s: Expr, depth: nat, r: Expr)
    requires TryFromExpr(e) == Some(n) && (n.Lambda? || (n.Integral? && n.limits.Some?)) && depth <= MAX_BINDING_DEPTH
    requires FreeOf(s) !! AllOf(e) && s != Sym(x) && Subs(e, x, s, FreeOf(s), depth) == Ok(r)
    ensures Sound(e, x, s, depth) <==> Clear(e, x, s)
    decreases MAX_BINDING_DEPTH + 1 - depth, 0
  {
    hide Subs, Convert, Read, FreeOf, AllOf, Occurs, Visible, Uncaptured, Sound, SubsUnder, Clear, ToExpr, TryFromExpr;
    var v := BoundVariable(n);
    FirstPart(e, n);
    NewForPart(e, 0, s);
    ScopedSound(e, n, x, s, depth);
    ScopedClear(e, n, x, s);
    var w, b, m := ScopedShape(e, n, x, s, FreeOf(s), depth, r);
    if v != x {
      NameIsWritten(e, n);
      var _ := UnderShape(v, n.body, x, s, FreeOf(s), depth, w, b);
      if x in FreeOf(n.body) { SoundIffClear(n.body, x, s, depth + 1, b); }
    }
    if n.Integral? {
      NewForPart(e, 1, s);
      NewForPart(e, 2, s);
      SoundIffClear(n.limits.value.0, x, s, depth + 1, m.limits.value.0);
      SoundIffClear(n.limits.value.1, x, s, depth + 1, m.limits.value.1);
    }
  }

  /**
    When no free symbol of the replacement is written in the source, an answer is faithful if and
    only if every target is visible and no binder above a target declares a name the replacement mentions.
   */
  lemma FaithfulIffClear(e: Expr, x: Symbol, s: Expr, r: Expr)
    requires FreeOf(s) !! AllOf(e) && CaptureAvoidingSubs(e, x, s) == Ok(r)
    ensures Faithful(e, x, s, r) <==> Visible(e, x) && Uncaptured(e, x, s)
  {
    AnswerOfSubs(e, x, s, r);
    FreeOfSymbol(x);
    hide Subs, CaptureAvoidingSubs, Sound, Faithful, FreeOf, AllOf, Visible, Uncaptured, Occurs, Convert;
    FaithfulIffSound(e, x, s, r);
    if s == Sym(x) {
      SelfIsSound(e, x, s, 0);
      if x in FreeOf(e) { FreeIsDeclared(e, x); }
      if Occurs(Convert(e, []), x) { OccursIsWritten(e, [], x); }
      HiddenOrClear(e, x, s);
    } else {
      SoundIffClear(e, x, s, 0, r);
    }
  }

  /** A replacement of new names is not captured. */
  lemma {:induction false} NewNamesUncaptured(e: Expr, x: Symbol, s: Expr)
    requires NewNames(e, x, s)
    ensures Uncaptured(e, x, s)
    decreases Size(e)
  {
    if !e.Sym? {
      hide Read, TryFromExpr, Occurs, Convert, FreeOf, NewNames;
      var r := Read(e);
      forall i | 0 <= i < |r.parts| && x !in r.Over(i) ensures Uncaptured(r.parts[i], x, s) {
        NewForParts(e, i, x, s);
        NewNamesUncaptured(r.parts[i], x, s);
      }
      if r.names != [] { DeclaredIsNew(e, x, s); }
    }
  }

  lemma DeclaredIsNew(e: Expr, x: Symbol, s: Expr)
    requires !e.Sym? && Read(e).names != [] && NewNames(e, x, s)
    ensures !Occurs(Convert(s, []), Read(e).names[0])
  {
    var n := TryFromExpr(e);
    assert n.Some? && Read(e).names == [BoundVariable(n.value)];
    hide Read, TryFromExpr;
    NewName(e, n.value, x, s);
  }

  /** With new names only, an answer is faithful if and only if every occurrence of the target is visible. */
  lemma FaithfulIffVisible(e: Expr, x: Symbol, s: Expr, r: Expr)
    requires NewNames(e, x, s) && CaptureAvoidingSubs(e, x, s) == Ok(r)
    ensures Faithful(e, x, s, r) <==> Visible(e, x)
  {
    hide CaptureAvoidingSubs, Faithful, FreeOf, AllOf, Visible, Uncaptured, Occurs, Convert;
    forall u | u in FreeOf(s) ensures u !in AllOf(e) { FreeOccurs(s, [], u); }
    NewNamesUncaptured(e, x, s);
    FaithfulIffClear(e, x, s, r);
  }
}
