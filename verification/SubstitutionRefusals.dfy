/** Exactly when substitution refuses, within the depth limit. */
module SubstitutionRefusals {
  import opened Wrappers
  import opened Exprs
  import opened Binders
  import opened DeBruijn
  import opened Symbols
  import opened Freshening
  import opened Traversals
  import opened Substitution
  import opened SubstitutionLaws
  import opened SubstitutionExactness
  import opened SubstitutionFree

  // ---- refusals

  /**
    Substitution of `s` for `x` is refused somewhere in `e`, where the names in `pending` have been
    replaced by new ones on the way: a derivative or an indefinite integral cannot take as its
    variable what is no symbol, and a derivative cannot have its variable and a free symbol of its
    body made one. A name stops being pending where renaming stops, also where it is merely hidden.
   */
  ghost predicate Stuck(e: Expr, x: Symbol, s: Expr, pending: set<Symbol>)
    decreases Size(e)
  {
    !e.Sym? &&
    match TryFromExpr(e)
    case None => exists i | 0 <= i < |Children(e)| :: Stuck(Children(e)[i], x, s, pending)
    case Some(Derivative(v, body)) =>
      VariableStuck(v, body, x, s, pending) || ((v == x || x in FreeOf(body)) && Stuck(body, x, s, Renamed(pending, v, body)))
    case Some(Integral(v, body, None)) =>
      (v == x && !s.Sym?) || ((v == x || x in FreeOf(body)) && Stuck(body, x, s, Renamed(pending, v, body)))
    case Some(Lambda(v, body)) => v != x && x in FreeOf(body) && Stuck(body, x, s, Declared(pending, v, body, s))
    case Some(Integral(v, body, Some((lower, upper)))) =>
      || (v != x && x in FreeOf(body) && Stuck(body, x, s, Declared(pending, v, body, s)))
      || Stuck(lower, x, s, pending) || Stuck(upper, x, s, pending)
  }

  ghost predicate VariableStuck(v: Symbol, body: Expr, x: Symbol, s: Expr, pending: set<Symbol>) {
    if v == x then !s.Sym? || (s.symbol != x && s.symbol in FreeOf(body) - pending)
    else x in FreeOf(body) && v in FreeOf(s) - pending
  }

  /** The pending names still replaced below an operator. */
  ghost function Renamed(pending: set<Symbol>, v: Symbol, body: Expr): set<Symbol> {
    set u | u in pending && (u == v || u in FreeOf(body))
  }

  /** The same below a declaration, whose own name is replaced if it is free in the replacement. */
  ghost function Declared(pending: set<Symbol>, v: Symbol, body: Expr, s: Expr): set<Symbol> {
    pending * FreeOf(body) + if v in FreeOf(s) then {v} else {}
  }

  lemma OpaqueStuck(e: Expr, x: Symbol, s: Expr, pending: set<Symbol>)
    requires !e.Sym? && TryFromExpr(e).None?
    ensures Stuck(e, x, s, pending) <==> exists i | 0 <= i < |Children(e)| :: Stuck(Children(e)[i], x, s, pending)
  {
    hide TryFromExpr;
  }

  lemma OperatorStuck(e: Expr, n: BinderNode, x: Symbol, s: Expr, pending: set<Symbol>)
    requires TryFromExpr(e) == Some(n) && (n.Derivative? || (n.Integral? && n.limits.None?))
    ensures Stuck(e, x, s, pending) <==>
      || (if n.Derivative? then VariableStuck(n.variable, n.body, x, s, pending) else n.variable == x && !s.Sym?)
      || ((n.variable == x || x in FreeOf(n.body)) && Stuck(n.body, x, s, Renamed(pending, n.variable, n.body)))
  {
    hide TryFromExpr, FreeOf;
  }

  lemma ScopedStuck(e: Expr, n: BinderNode, x: Symbol, s: Expr, pending: set<Symbol>)
    requires TryFromExpr(e) == Some(n) && (n.Lambda? || (n.Integral? && n.limits.Some?))
    ensures Stuck(e, x, s, pending) <==>
      || (BoundVariable(n) != x && x in FreeOf(n.body) && Stuck(n.body, x, s, Declared(pending, BoundVariable(n), n.body, s)))
      || (n.Integral? && (Stuck(n.limits.value.0, x, s, pending) || Stuck(n.limits.value.1, x, s, pending)))
  {
    hide TryFromExpr, FreeOf;
  }

  // ---- the depth of a term bounds the depth of the expression

  lemma {:induction false} RawWithinMore(e: Expr, n: int)
    requires RawWithin(e, n)
    ensures RawWithin(e, n + 1)
  {
    forall i | 0 <= i < |Children(e)| ensures RawWithin(Children(e)[i], n) { RawWithinMore(Children(e)[i], n - 1); }
  }

  lemma SymbolsWithin(ps: seq<Expr>, n: int)
    requires 0 <= n && forall i | 0 <= i < |ps| :: ps[i].Sym?
    ensures forall i | 0 <= i < |ps| :: RawWithin(ps[i], n)
  {
  }

  /** A curried signature is at most one level shallower than it is written, and never below two. */
  lemma CurriedRawWithin(args: seq<Expr>, n: int)
    requires TryParseLambda(args).Some? && 2 <= n && RawWithin(TryParseLambda(args).value.body, n - 1)
    ensures forall i | 0 <= i < |args| :: RawWithin(args[i], n - 1)
  {
    var body := TryParseLambda(args).value.body;
    if |args| > 2 {
      assert body.args == args[1..];
      forall i | 0 <= i < |args| ensures RawWithin(args[i], n - 1) {
        if i > 0 {
          assert Children(body)[i - 1] == args[i];
          RawWithinMore(args[i], n - 2);
        }
      }
    } else {
      if args[0].Function? {
        SymbolsWithin(args[0].args, n - 2);
        if body != args[1] {
          assert Children(body)[1] == args[1];
          RawWithinMore(args[1], n - 2);
        }
      }
    }
  }

  /** Depth as read is the depth of the De Bruijn form. */
  lemma {:induction false} ReadWithinIff(e: Expr, scope: seq<Symbol>, n: int)
    ensures ReadWithin(e, n) <==> TermWithin(Convert(e, scope), n)
    decreases Size(e)
  {
    if !e.Sym? {
      hide Read;
      var r, t := Read(e), Convert(e, scope);
      assert t.Node? && t.head == r.head && |t.parts| == |r.parts|;
      forall i | 0 <= i < |r.parts| ensures ReadWithin(r.parts[i], n - 1) <==> TermWithin(t.parts[i], n - 1) {
        assert t.parts[i] == Convert(r.parts[i], scope + r.Over(i));
        ReadWithinIff(r.parts[i], scope + r.Over(i), n - 1);
      }
    }
  }

  /** As written, an expression is at most one level deeper than as read: the spelling of an innermost signature. */
  lemma {:induction false} ReadBoundsRaw(e: Expr, n: int)
    requires ReadWithin(e, n)
    ensures RawWithin(e, n + 1)
    decreases Size(e)
  {
    if !e.Sym? {
      hide Read, RawWithin;
      var r := Read(e);
      if r.head.Binder? { BinderHasAPart(e); assert ReadWithin(r.parts[0], n - 1); }
      forall i | 0 <= i < |r.parts| ensures RawWithin(r.parts[i], n) { ReadBoundsRaw(r.parts[i], n - 1); }
      PartsRawWithin(e, n + 1);
    }
  }

  lemma BinderHasAPart(e: Expr)
    requires !e.Sym? && Read(e).head.Binder?
    ensures Read(e).parts != []
  {
  }

  lemma PartsRawWithin(e: Expr, n: int)
    requires !e.Sym? && 0 <= n && (Read(e).head.Binder? ==> 2 <= n)
    requires forall i | 0 <= i < |Read(e).parts| :: RawWithin(Read(e).parts[i], n - 1)
    ensures RawWithin(e, n)
  {
    var b := TryFromExpr(e);
    if b.None? {
      assert Read(e).parts == Children(e);
    } else if b.value.Lambda? {
      assert Read(e).parts[0] == b.value.body;
      CurriedRawWithin(e.args, n);
    } else {
      assert Read(e).parts[0] == b.value.body == e.args[0];
      assert RawWithin(e.args[0], n - 1) && e.args[1].Sym? && 1 <= n;
      if b.value.Integral? && b.value.limits.Some? {
        assert Read(e).parts[1] == e.args[2] && Read(e).parts[2] == e.args[3];
      }
    }
  }

  lemma {:induction false} RawWithinAny(e: Expr, m: int, n: int)
    requires RawWithin(e, m) && m <= n
    ensures RawWithin(e, n)
    decreases n - m
  {
    if m < n { RawWithinMore(e, m); RawWithinAny(e, m + 1, n); }
  }

  lemma {:induction false} ReadWithinAny(e: Expr, m: int, n: int)
    requires ReadWithin(e, m) && m <= n
    ensures ReadWithin(e, n)
    decreases Size(e)
  {
    hide Read;
    if !e.Sym? {
      forall i | 0 <= i < |Read(e).parts| ensures ReadWithin(Read(e).parts[i], n - 1) { ReadWithinAny(Read(e).parts[i], m - 1, n - 1); }
    }
  }

  /** An expression below the limit as read has its free and its written symbols reported. */
  lemma LimitsSuffice(e: Expr, n: int)
    requires ReadWithin(e, n) && n < MAX_BINDING_DEPTH
    ensures FreeSymbolsOf(e) == Ok(FreeOf(e)) && AllSymbolsOf(e) == Ok(AllOf(e))
  {
    ReadBoundsRaw(e, n);
    RawWithinAny(e, n + 1, MAX_BINDING_DEPTH);
    ReadWithinAny(e, n, MAX_BINDING_DEPTH);
  }

  // ---- renaming

  /** Renaming to an unwritten name is never stuck. */
  lemma {:induction false} RenamingIsNeverStuck(e: Expr, v: Symbol, w: Symbol, pending: set<Symbol>)
    requires w !in AllOf(e)
    ensures !Stuck(e, v, Sym(w), pending)
    decreases Size(e)
  {
    if !e.Sym? {
      hide Stuck, TryFromExpr, FreeOf, AllOf, Read;
      FreeOfOne(w);
      var n := TryFromExpr(e);
      if n.None? {
        OpaqueStuck(e, v, Sym(w), pending);
        forall i | 0 <= i < |Children(e)| ensures !Stuck(Children(e)[i], v, Sym(w), pending) {
          ChildIsUnwritten(e, Children(e)[i], w);
          RenamingIsNeverStuck(Children(e)[i], v, w, pending);
        }
      } else {
        var b := n.value;
        PartsAreUnwritten(e, b, w);
        if w in FreeOf(b.body) { FreeIsDeclared(b.body, w); }
        if b.Derivative? || (b.Integral? && b.limits.None?) {
          OperatorStuck(e, b, v, Sym(w), pending);
          RenamingIsNeverStuck(b.body, v, w, Renamed(pending, b.variable, b.body));
        } else {
          ScopedStuck(e, b, v, Sym(w), pending);
          RenamingIsNeverStuck(b.body, v, w, Declared(pending, BoundVariable(b), b.body, Sym(w)));
          if b.Integral? {
            RenamingIsNeverStuck(b.limits.value.0, v, w, pending);
            RenamingIsNeverStuck(b.limits.value.1, v, w, pending);
          }
        }
      }
    }
  }

  lemma ChildIsUnwritten(e: Expr, c: Expr, w: Symbol)
    requires c in Children(e) && w !in AllOf(e)
    ensures w !in AllOf(c)
  {
    if w in AllOf(c) { DeclaredChild(e, c, w); }
  }

  lemma PartsAreUnwritten(e: Expr, n: BinderNode, w: Symbol)
    requires TryFromExpr(e) == Some(n) && w !in AllOf(e)
    ensures w != BoundVariable(n) && w !in AllOf(n.body)
    ensures n.Integral? && n.limits.Some? ==> w !in AllOf(n.limits.value.0) && w !in AllOf(n.limits.value.1)
  {
    NameIsWritten(e, n);
    var ps := Read(e).parts;
    assert ps[0] == n.body && (n.Integral? && n.limits.Some? ==> ps[1] == n.limits.value.0 && ps[2] == n.limits.value.1);
    hide TryFromExpr, Read, AllOf;
    forall i: nat | i < |ps| ensures w !in AllOf(ps[i]) { if w in AllOf(ps[i]) { PartsDeclareLess(e, i, w); } }
  }

  /** What is stuck after a name is replaced by a new one was stuck before, that name pending. */
  lemma {:induction false} RenamedStuck(e: Expr, v: Symbol, w: Symbol, depth: nat, r: Expr, x: Symbol, s: Expr, pending: set<Symbol>)
    requires Subs(e, v, Sym(w), {w}, depth) == Ok(r)
    requires v != x && v in FreeOf(s) && w !in AllOf(e) + FreeOf(s) + {x} && pending <= FreeOf(s) - {v}
    ensures Stuck(r, x, s, pending) <==> Stuck(e, x, s, pending + {v})
    decreases MAX_BINDING_DEPTH + 1 - depth, 1
  {
    if !e.Sym? {
      assert depth <= MAX_BINDING_DEPTH;
      hide Subs, Stuck, TryFromExpr, FreeOf, AllOf, Read;
      var n := TryFromExpr(e);
      if n.None? {
        OpaqueRenamedStuck(e, v, w, depth, r, x, s, pending);
      } else if n.value.Derivative? || (n.value.Integral? && n.value.limits.None?) {
        OperatorRenamedStuck(e, n.value, v, w, depth, r, x, s, pending);
      } else {
        ScopedRenamedStuck(e, n.value, v, w, depth, r, x, s, pending);
      }
    }
  }

  lemma {:induction false} OpaqueRenamedStuck(e: Expr, v: Symbol, w: Symbol, depth: nat, r: Expr, x: Symbol, s: Expr, pending: set<Symbol>)
    requires !e.Sym? && TryFromExpr(e).None? && depth <= MAX_BINDING_DEPTH
    requires Subs(e, v, Sym(w), {w}, depth) == Ok(r)
    requires v != x && v in FreeOf(s) && w !in AllOf(e) + FreeOf(s) + {x} && pending <= FreeOf(s) - {v}
    ensures Stuck(r, x, s, pending) <==> Stuck(e, x, s, pending + {v})
    decreases MAX_BINDING_DEPTH + 1 - depth, 0
  {
    hide Subs, Stuck, TryFromExpr, FreeOf, AllOf, Read;
    OpaqueStays(e, v, Sym(w), {w}, depth, r);
    OpaqueStuck(e, x, s, pending + {v});
    OpaqueStuck(r, x, s, pending);
    forall i | 0 <= i < |Children(e)| ensures Stuck(Children(r)[i], x, s, pending) <==> Stuck(Children(e)[i], x, s, pending + {v}) {
      ChildIsUnwritten(e, Children(e)[i], w);
      RenamedStuck(Children(e)[i], v, w, depth + 1, Children(r)[i], x, s, pending);
    }
  }

  lemma {:induction false} OperatorRenamedStuck(e: Expr, n: BinderNode, v: Symbol, w: Symbol, depth: nat, r: Expr, x: Symbol, s: Expr, pending: set<Symbol>)
    requires TryFromExpr(e) == Some(n) && (n.Derivative? || (n.Integral? && n.limits.None?)) && depth <= MAX_BINDING_DEPTH
    requires Subs(e, v, Sym(w), {w}, depth) == Ok(r)
    requires v != x && v in FreeOf(s) && w !in AllOf(e) + FreeOf(s) + {x} && pending <= FreeOf(s) - {v}
    ensures Stuck(r, x, s, pending) <==> Stuck(e, x, s, pending + {v})
    decreases MAX_BINDING_DEPTH + 1 - depth, 0
  {
    hide Subs, Stuck, TryFromExpr, ToExpr, FreeOf, AllOf, Read;
    var u, body := n.variable, n.body;
    var u', b := OperatorShape(e, n, v, Sym(w), {w}, depth, r);
    PartsAreUnwritten(e, n, w);
    OperatorStuck(e, n, x, s, pending + {v});
    SymbolsOfReplacement(s);
    if u == v || v in FreeOf(body) {
      var m := n.(variable := u', body := b);
      BinderRoundTrip(m);
      OperatorStuck(r, m, x, s, pending);
      FreeAfterRenaming(body, v, w, depth + 1, b);
      assert Renamed(pending + {v}, u, body) == Renamed(pending, u', b) + {v};
      RenamedStuck(body, v, w, depth + 1, b, x, s, Renamed(pending, u', b));
    } else {
      OperatorStuck(e, n, x, s, pending);
      assert Renamed(pending + {v}, u, body) == Renamed(pending, u, body);
    }
  }

  lemma SymbolsOfReplacement(s: Expr)
    ensures s.Sym? ==> FreeOf(s) == {s.symbol}
  {
  }

  lemma FreeAfterRenaming(body: Expr, v: Symbol, w: Symbol, depth: nat, b: Expr)
    requires Subs(body, v, Sym(w), {w}, depth) == Ok(b) && w !in AllOf(body)
    ensures FreeOf(b) == Exchanged(FreeOf(body), v, {w}) && w !in FreeOf(body)
  {
    hide Subs, AllOf, FreeOf;
    FreeOfOne(w);
    SubsFree(body, v, Sym(w), depth, b);
    if w in FreeOf(body) { FreeIsDeclared(body, w); }
  }

  lemma {:induction false} ScopedRenamedStuck(e: Expr, n: BinderNode, v: Symbol, w: Symbol, depth: nat, r: Expr, x: Symbol, s: Expr, pending: set<Symbol>)
    requires TryFromExpr(e) == Some(n) && (n.Lambda? || (n.Integral? && n.limits.Some?)) && depth <= MAX_BINDING_DEPTH
    requires Subs(e, v, Sym(w), {w}, depth) == Ok(r)
    requires v != x && v in FreeOf(s) && w !in AllOf(e) + FreeOf(s) + {x} && pending <= FreeOf(s) - {v}
    ensures Stuck(r, x, s, pending) <==> Stuck(e, x, s, pending + {v})
    decreases MAX_BINDING_DEPTH + 1 - depth, 0
  {
    hide Subs, SubsUnder, Stuck, TryFromExpr, ToExpr, FreeOf, AllOf, Read;
    var u, body := BoundVariable(n), n.body;
    var u', b, m := ScopedShape(e, n, v, Sym(w), {w}, depth, r);
    PartsAreUnwritten(e, n, w);
    ScopedStuck(e, n, x, s, pending + {v});
    if u != v {
      var renamed := UnderShape(u, body, v, Sym(w), {w}, depth, u', b);
      if v in FreeOf(body) {
        FreeAfterRenaming(body, v, w, depth + 1, b);
        assert Declared(pending + {v}, u, body, s) == Declared(pending, u, b, s) + {v};
        RenamedStuck(body, v, w, depth + 1, b, x, s, Declared(pending, u, b, s));
      } else {
        assert Declared(pending + {v}, u, body, s) == Declared(pending, u, body, s);
      }
    } else {
      assert Declared(pending + {v}, u, body, s) == Declared(pending, u, body, s);
    }
    if n.Integral? {
      RenamedStuck(n.limits.value.0, v, w, depth + 1, m.limits.value.0, x, s, pending);
      RenamedStuck(n.limits.value.1, v, w, depth + 1, m.limits.value.1, x, s, pending);
    }
    if n.Integral? || u != v {
      BinderRoundTrip(m);
      ScopedStuck(r, m, x, s, pending);
    } else {
      ScopedStuck(e, n, x, s, pending);
    }
  }

  /** Renaming changes no depth. */
  lemma {:induction false} RenamingKeepsDepth(e: Expr, v: Symbol, w: Symbol, F: set<Symbol>, depth: nat, r: Expr, k: int)
    requires Subs(e, v, Sym(w), F, depth) == Ok(r) && ReadWithin(e, k)
    ensures ReadWithin(r, k)
    decreases MAX_BINDING_DEPTH + 1 - depth, 1
  {
    if !e.Sym? {
      assert depth <= MAX_BINDING_DEPTH;
      hide Subs, SubsUnder, TryFromExpr, ToExpr, FreeOf, AllOf, Read, ReadWithin;
      var n := TryFromExpr(e);
      if n.None? {
        OpaqueKeepsDepth(e, v, w, F, depth, r, k);
      } else if n.value.Derivative? || (n.value.Integral? && n.value.limits.None?) {
        OperatorKeepsDepth(e, n.value, v, w, F, depth, r, k);
      } else {
        ScopedKeepsDepth(e, n.value, v, w, F, depth, r, k);
      }
    }
  }

  lemma {:induction false} OpaqueKeepsDepth(e: Expr, v: Symbol, w: Symbol, F: set<Symbol>, depth: nat, r: Expr, k: int)
    requires !e.Sym? && TryFromExpr(e).None? && depth <= MAX_BINDING_DEPTH
    requires Subs(e, v, Sym(w), F, depth) == Ok(r) && ReadWithin(e, k)
    ensures ReadWithin(r, k)
    decreases MAX_BINDING_DEPTH + 1 - depth, 0
  {
    hide Subs, TryFromExpr, Read, ReadWithin;
    OpaqueStays(e, v, Sym(w), F, depth, r);
    WithinParts(e, k);
    forall i | 0 <= i < |Children(e)| ensures ReadWithin(Children(r)[i], k - 1) {
      RenamingKeepsDepth(Children(e)[i], v, w, F, depth + 1, Children(r)[i], k - 1);
    }
    WithinParts(r, k);
  }

  lemma {:induction false} OperatorKeepsDepth(e: Expr, n: BinderNode, v: Symbol, w: Symbol, F: set<Symbol>, depth: nat, r: Expr, k: int)
    requires TryFromExpr(e) == Some(n) && (n.Derivative? || (n.Integral? && n.limits.None?)) && depth <= MAX_BINDING_DEPTH
    requires Subs(e, v, Sym(w), F, depth) == Ok(r) && ReadWithin(e, k)
    ensures ReadWithin(r, k)
    decreases MAX_BINDING_DEPTH + 1 - depth, 0
  {
    hide Subs, TryFromExpr, ToExpr, FreeOf, Read, ReadWithin;
    BinderWithin(e, n, k);
    var u, b := OperatorShape(e, n, v, Sym(w), F, depth, r);
    if n.variable == v || v in FreeOf(n.body) {
      var m := n.(variable := u, body := b);
      RenamingKeepsDepth(n.body, v, w, F, depth + 1, b, k - 1);
      BinderRoundTrip(m);
      BinderWithin(r, m, k);
    }
  }

  lemma {:induction false} ScopedKeepsDepth(e: Expr, n: BinderNode, v: Symbol, w: Symbol, F: set<Symbol>, depth: nat, r: Expr, k: int)
    requires TryFromExpr(e) == Some(n) && (n.Lambda? || (n.Integral? && n.limits.Some?)) && depth <= MAX_BINDING_DEPTH
    requires Subs(e, v, Sym(w), F, depth) == Ok(r) && ReadWithin(e, k)
    ensures ReadWithin(r, k)
    decreases MAX_BINDING_DEPTH + 1 - depth, 0
  {
    hide Subs, SubsUnder, TryFromExpr, ToExpr, FreeOf, AllOf, Read, ReadWithin;
    var u := BoundVariable(n);
    BinderWithin(e, n, k);
    var u', b, m := ScopedShape(e, n, v, Sym(w), F, depth, r);
    if u != v {
      var renamed := UnderShape(u, n.body, v, Sym(w), F, depth, u', b);
      if v in FreeOf(n.body) {
        if u in F {
          RenamingKeepsDepth(n.body, u, u', {u'}, depth + 1, renamed, k - 1);
          RenamingKeepsDepth(renamed, v, w, F, depth + 1, b, k - 1);
        } else {
          RenamingKeepsDepth(n.body, v, w, F, depth + 1, b, k - 1);
        }
      }
    }
    if n.Integral? {
      RenamingKeepsDepth(n.limits.value.0, v, w, F, depth + 1, m.limits.value.0, k - 1);
      RenamingKeepsDepth(n.limits.value.1, v, w, F, depth + 1, m.limits.value.1, k - 1);
    }
    if n.Integral? || u != v {
      BinderRoundTrip(m);
      BinderWithin(r, m, k);
    }
  }

  lemma WithinParts(e: Expr, k: int)
    requires !e.Sym? && TryFromExpr(e).None?
    ensures ReadWithin(e, k) <==> 0 <= k && forall i | 0 <= i < |Children(e)| :: ReadWithin(Children(e)[i], k - 1)
  {
    assert Read(e).parts == Children(e);
    hide Read, TryFromExpr;
  }

  lemma BinderWithin(e: Expr, n: BinderNode, k: int)
    requires TryFromExpr(e) == Some(n)
    ensures ReadWithin(e, k) <==>
      && 0 <= k && ReadWithin(n.body, k - 1)
      && (n.Derivative? || (n.Integral? && n.limits.None?) ==> 0 <= k - 1)
      && (n.Integral? && n.limits.Some? ==> ReadWithin(n.limits.value.0, k - 1) && ReadWithin(n.limits.value.1, k - 1))
  {
    var ps := Read(e).parts;
    assert ps[0] == n.body && (n.Integral? && n.limits.Some? ==> |ps| == 3 && ps[1] == n.limits.value.0 && ps[2] == n.limits.value.1);
    assert n.Derivative? || (n.Integral? && n.limits.None?) ==> |ps| == 2 && ps[1] == Sym(n.variable);
    assert n.Lambda? ==> |ps| == 1;
    hide Read, TryFromExpr;
  }

  // ---- the theorem

  ghost predicate NotTooDeep<T>(r: Result<T, BindingError>) {
    r.Err? ==> !r.error.DepthExceeded?
  }

  /** Within the limits the answer is an expression unless something is stuck, and never a depth error. */
  ghost predicate AnswersUnless<T>(refused: bool, r: Result<T, BindingError>) {
    (r.Ok? <==> !refused) && NotTooDeep(r)
  }

  ghost predicate SomeChildRefuses(e: Expr, x: Symbol, s: Expr, F: set<Symbol>, depth: nat)
    requires depth <= MAX_BINDING_DEPTH
  {
    exists i | 0 <= i < |Children(e)| :: Subs(Children(e)[i], x, s, F, depth + 1).Err?
  }

  lemma OpaqueOutcome(e: Expr, x: Symbol, s: Expr, F: set<Symbol>, depth: nat)
    requires !e.Sym? && TryFromExpr(e).None? && depth <= MAX_BINDING_DEPTH
    requires forall i | 0 <= i < |Children(e)| :: NotTooDeep(Subs(Children(e)[i], x, s, F, depth + 1))
    ensures AnswersUnless(SomeChildRefuses(e, x, s, F, depth), Subs(e, x, s, F, depth))
  {
    hide TryFromExpr, SubsUnder, FreeSymbolsOf, ToExpr;
    var rs := seq(|Children(e)|, i requires 0 <= i < |Children(e)| => Subs(Children(e)[i], x, s, F, depth + 1));
    var r := Subs(e, x, s, F, depth);
    assert forall i | 0 <= i < |rs| :: rs[i] == Subs(Children(e)[i], x, s, F, depth + 1);
    assert r.Err? ==> Collect(rs) == Err(r.error);
    assert r.Ok? ==> Collect(rs).Ok?;
  }

  lemma OperatorOutcome(e: Expr, n: BinderNode, x: Symbol, s: Expr, F: set<Symbol>, depth: nat)
    requires TryFromExpr(e) == Some(n) && (n.Derivative? || (n.Integral? && n.limits.None?))
    requires depth <= MAX_BINDING_DEPTH && FreeSymbolsOf(n.body) == Ok(FreeOf(n.body))
    requires NotTooDeep(Subs(n.body, x, s, F, depth + 1))
    ensures var v, free := n.variable, FreeOf(n.body);
            var here := if v == x then !s.Sym? || (n.Derivative? && s.symbol != v && s.symbol in free)
                        else n.Derivative? && v in F && x in free;
            AnswersUnless(here || ((v == x || x in free) && Subs(n.body, x, s, F, depth + 1).Err?), Subs(e, x, s, F, depth))
  {
    hide FreeOf, TryFromExpr;
  }

  lemma ScopedOutcome(e: Expr, n: BinderNode, x: Symbol, s: Expr, F: set<Symbol>, depth: nat)
    requires TryFromExpr(e) == Some(n) && (n.Lambda? || (n.Integral? && n.limits.Some?))
    requires depth <= MAX_BINDING_DEPTH
    requires BoundVariable(n) != x ==> NotTooDeep(SubsUnder(BoundVariable(n), n.body, x, s, F, depth))
    requires n.Integral? ==> NotTooDeep(Subs(n.limits.value.0, x, s, F, depth + 1)) && NotTooDeep(Subs(n.limits.value.1, x, s, F, depth + 1))
    ensures var below := BoundVariable(n) != x && SubsUnder(BoundVariable(n), n.body, x, s, F, depth).Err?;
            var beside := n.Integral? && (Subs(n.limits.value.0, x, s, F, depth + 1).Err? || Subs(n.limits.value.1, x, s, F, depth + 1).Err?);
            AnswersUnless(below || beside, Subs(e, x, s, F, depth))
  {
    hide SubsUnder, TryFromExpr;
  }

  function Declaring(v: Symbol, body: Result<Expr, BindingError>): Result<(Symbol, Expr), BindingError> {
    if body.Err? then Err(body.error) else Ok((v, body.value))
  }

  lemma UnderOutcome(v: Symbol, body: Expr, x: Symbol, s: Expr, F: set<Symbol>, depth: nat) returns (w: Symbol, renamed: Result<Expr, BindingError>)
    requires depth <= MAX_BINDING_DEPTH && FreeSymbolsOf(body) == Ok(FreeOf(body)) && AllSymbolsOf(body) == Ok(AllOf(body))
    ensures w !in AllOf(body) + F + {x} && renamed == Subs(body, v, Sym(w), {w}, depth + 1)
    ensures var r := SubsUnder(v, body, x, s, F, depth);
            if x !in FreeOf(body) then r.Ok?
            else if v !in F then r == Declaring(v, Subs(body, x, s, F, depth + 1))
            else renamed.Ok? ==> r == Declaring(w, Subs(renamed.value, x, s, F, depth + 1))
  {
    hide Subs, FreeOf, AllOf;
    w := Fresh(v.name, AllOf(body) + F + {x});
    renamed := Subs(body, v, Sym(w), {w}, depth + 1);
  }

  /** Substitution refuses exactly where something is stuck, and never for depth below the limit as read. */
  lemma {:induction false} SubsAnswers(e: Expr, x: Symbol, s: Expr, depth: nat)
    requires ReadWithin(e, MAX_BINDING_DEPTH - depth)
    ensures AnswersUnless(Stuck(e, x, s, {}), Subs(e, x, s, FreeOf(s), depth))
    decreases MAX_BINDING_DEPTH + 1 - depth, 2
  {
    if !e.Sym? {
      hide Subs, Stuck, Read, FreeOf, TryFromExpr;
      var n := TryFromExpr(e);
      if n.None? {
        OpaqueAnswers(e, x, s, depth);
      } else if n.value.Derivative? || (n.value.Integral? && n.value.limits.None?) {
        OperatorAnswers(e, n.value, x, s, depth);
      } else {
        ScopedAnswers(e, n.value, x, s, depth);
      }
    }
  }

  lemma {:induction false} OpaqueAnswers(e: Expr, x: Symbol, s: Expr, depth: nat)
    requires !e.Sym? && TryFromExpr(e).None? && ReadWithin(e, MAX_BINDING_DEPTH - depth)
    ensures AnswersUnless(Stuck(e, x, s, {}), Subs(e, x, s, FreeOf(s), depth))
    decreases MAX_BINDING_DEPTH + 1 - depth, 1
  {
    hide Subs, Stuck, Read, FreeOf, TryFromExpr, ReadWithin;
    WithinParts(e, MAX_BINDING_DEPTH - depth);
    OpaqueStuck(e, x, s, {});
    forall i | 0 <= i < |Children(e)| ensures AnswersUnless(Stuck(Children(e)[i], x, s, {}), Subs(Children(e)[i], x, s, FreeOf(s), depth + 1)) {
      SubsAnswers(Children(e)[i], x, s, depth + 1);
    }
    OpaqueOutcome(e, x, s, FreeOf(s), depth);
  }

  lemma {:induction false} OperatorAnswers(e: Expr, n: BinderNode, x: Symbol, s: Expr, depth: nat)
    requires TryFromExpr(e) == Some(n) && (n.Derivative? || (n.Integral? && n.limits.None?)) && ReadWithin(e, MAX_BINDING_DEPTH - depth)
    ensures AnswersUnless(Stuck(e, x, s, {}), Subs(e, x, s, FreeOf(s), depth))
    decreases MAX_BINDING_DEPTH + 1 - depth, 1
  {
    hide Subs, Stuck, Read, FreeOf, AllOf, TryFromExpr, ReadWithin, RawWithin;
    BinderWithin(e, n, MAX_BINDING_DEPTH - depth);
    LimitsSuffice(n.body, MAX_BINDING_DEPTH - depth - 1);
    SubsAnswers(n.body, x, s, depth + 1);
    OperatorOutcome(e, n, x, s, FreeOf(s), depth);
    OperatorStuck(e, n, x, s, {});
    assert Renamed({}, n.variable, n.body) == {};
  }

  lemma {:induction false} ScopedAnswers(e: Expr, n: BinderNode, x: Symbol, s: Expr, depth: nat)
    requires TryFromExpr(e) == Some(n) && (n.Lambda? || (n.Integral? && n.limits.Some?)) && ReadWithin(e, MAX_BINDING_DEPTH - depth)
    ensures AnswersUnless(Stuck(e, x, s, {}), Subs(e, x, s, FreeOf(s), depth))
    decreases MAX_BINDING_DEPTH + 1 - depth, 1
  {
    hide Subs, SubsUnder, Stuck, Read, FreeOf, TryFromExpr, ReadWithin;
    BinderWithin(e, n, MAX_BINDING_DEPTH - depth);
    var v := BoundVariable(n);
    if v != x { UnderAnswers(v, n.body, x, s, depth); }
    if n.Integral? {
      SubsAnswers(n.limits.value.0, x, s, depth + 1);
      SubsAnswers(n.limits.value.1, x, s, depth + 1);
    }
    ScopedOutcome(e, n, x, s, FreeOf(s), depth);
    ScopedStuck(e, n, x, s, {});
  }

  lemma {:induction false} UnderAnswers(v: Symbol, body: Expr, x: Symbol, s: Expr, depth: nat)
    requires depth <= MAX_BINDING_DEPTH && v != x && ReadWithin(body, MAX_BINDING_DEPTH - depth - 1)
    ensures AnswersUnless(x in FreeOf(body) && Stuck(body, x, s, Declared({}, v, body, s)), SubsUnder(v, body, x, s, FreeOf(s), depth))
    decreases MAX_BINDING_DEPTH + 1 - depth, 0
  {
    hide Subs, SubsUnder, Stuck, Read, FreeOf, AllOf, ReadWithin, RawWithin, FreeSymbolsOf, AllSymbolsOf;
    LimitsSuffice(body, MAX_BINDING_DEPTH - depth - 1);
    var w, renaming := UnderOutcome(v, body, x, s, FreeOf(s), depth);
    assert Declared({}, v, body, s) == if v in FreeOf(s) then {v} else {};
    if x in FreeOf(body) {
      if v in FreeOf(s) {
        FreeOfOne(w);
        RenamingIsNeverStuck(body, v, w, {});
        SubsAnswers(body, v, Sym(w), depth + 1);
        RenamingKeepsDepth(body, v, w, {w}, depth + 1, renaming.value, MAX_BINDING_DEPTH - depth - 1);
        SubsAnswers(renaming.value, x, s, depth + 1);
        RenamedStuck(body, v, w, depth + 1, renaming.value, x, s, {});
        assert {} + {v} == {v};
      } else {
        SubsAnswers(body, x, s, depth + 1);
      }
    }
  }

  // ---- refusals of De Bruijn forms

  /** A derivative or an indefinite integral: a function of a body and of a variable. */
  predicate Operator(t: Term) {
    t.Node? && (t.head == TFunction("Derivative") || t.head == TFunction("Integral")) && |t.parts| == 2 && !t.parts[1].Node?
  }

  /**
    The node itself cannot take `x := s`: its variable is `x` and `s` is no symbol, or the
    replacement would make a free symbol of a derivative's body its variable or the reverse.
   */
  predicate Clash(t: Term, x: Symbol, s: Expr) {
    Operator(t) &&
    var derivative := t.head == TFunction("Derivative");
    if t.parts[1] == Free(x) then !s.Sym? || (derivative && s.symbol != x && Occurs(t.parts[0], s.symbol))
    else derivative && t.parts[1].Free? && t.parts[1].symbol in FreeOf(s) && Occurs(t.parts[0], x)
  }

  predicate Refuses(t: Term, x: Symbol, s: Expr) {
    t.Node? && (Clash(t, x, s) || exists i | 0 <= i < |t.parts| :: Refuses(t.parts[i], x, s))
  }

  /** At most `n` levels deep. */
  predicate TermWithin(t: Term, n: int) {
    && 0 <= n
    && (t.Node? ==> forall i | 0 <= i < |t.parts| :: TermWithin(t.parts[i], n - 1))
  }

  lemma {:induction false} RefusesAbsent(t: Term, x: Symbol, s: Expr)
    requires !Occurs(t, x)
    ensures !Refuses(t, x, s)
  {
    if t.Node? {
      forall i | 0 <= i < |t.parts| ensures !Refuses(t.parts[i], x, s) { RefusesAbsent(t.parts[i], x, s); }
    }
  }

  lemma RefusesBelow(t: Term, x: Symbol, s: Expr)
    requires t.Node? && !Operator(t)
    ensures Refuses(t, x, s) <==> exists i | 0 <= i < |t.parts| :: Refuses(t.parts[i], x, s)
  {
  }

  /**
    When derivatives differentiate by free symbols, what is stuck is read off the De Bruijn form;
    `pending` are the bound names among the free symbols of the replacement.
   */
  lemma {:induction false} StuckIffRefuses(e: Expr, x: Symbol, s: Expr, pending: set<Symbol>, scope: seq<Symbol>)
    requires DerivativesBite(e) && x !in scope && PendingIn(FreeOf(e), s, pending, scope)
    ensures Stuck(e, x, s, pending) <==> Refuses(Convert(e, scope), x, s)
    decreases Size(e), 1
  {
    if !e.Sym? {
      hide Stuck, Refuses, TryFromExpr, FreeOf, Convert, Read, DerivativesBite;
      var n := TryFromExpr(e);
      if n.None? {
        OpaqueStuckIff(e, x, s, pending, scope);
      } else if n.value.Derivative? || (n.value.Integral? && n.value.limits.None?) {
        OperatorStuckIff(e, n.value, x, s, pending, scope);
      } else {
        ScopedStuckIff(e, n.value, x, s, pending, scope);
      }
    }
  }

  /** Of the names free in the replacement and here, exactly the bound ones are pending. */
  ghost predicate PendingIn(free: set<Symbol>, s: Expr, pending: set<Symbol>, scope: seq<Symbol>) {
    forall u :: u in FreeOf(s) && u in free ==> (u in pending <==> u in scope)
  }

  /** One level of a converted node. */
  lemma ConvertedParts(e: Expr, scope: seq<Symbol>)
    requires !e.Sym?
    ensures var r, t := Read(e), Convert(e, scope);
      && t.Node? && t.head == r.head && |t.parts| == |r.parts|
      && forall i | 0 <= i < |t.parts| :: t.parts[i] == Convert(r.parts[i], scope + r.Over(i))
  {
    hide Read;
  }

  lemma OpaqueIsNoOperator(e: Expr, scope: seq<Symbol>)
    requires !e.Sym? && TryFromExpr(e).None?
    ensures var t := Convert(e, scope);
      && t.Node? && !Operator(t) && |t.parts| == |Children(e)|
      && forall i | 0 <= i < |t.parts| :: t.parts[i] == Convert(Children(e)[i], scope)
  {
    var r := Read(e);
    ConvertedParts(e, scope);
    assert r.parts == Children(e) && forall i | 0 <= i < |r.parts| :: scope + r.Over(i) == scope;
    assert forall i | 0 <= i < |r.parts| && !r.parts[i].Sym? :: Convert(r.parts[i], scope).Node?;
  }

  lemma {:induction false} OpaqueStuckIff(e: Expr, x: Symbol, s: Expr, pending: set<Symbol>, scope: seq<Symbol>)
    requires !e.Sym? && TryFromExpr(e).None? && DerivativesBite(e) && x !in scope && PendingIn(FreeOf(e), s, pending, scope)
    ensures Stuck(e, x, s, pending) <==> Refuses(Convert(e, scope), x, s)
    decreases Size(e), 0
  {
    OpaqueBites(e);
    hide Stuck, Refuses, TryFromExpr, FreeOf, Convert, Read, DerivativesBite, Operator;
    var cs, t := Children(e), Convert(e, scope);
    OpaqueStuck(e, x, s, pending);
    OpaqueIsNoOperator(e, scope);
    RefusesBelow(t, x, s);
    forall i | 0 <= i < |cs| ensures Stuck(cs[i], x, s, pending) <==> Refuses(t.parts[i], x, s) {
      forall u | u in FreeOf(cs[i]) ensures u in FreeOf(e) { OpaqueFree(e, u); }
      StuckIffRefuses(cs[i], x, s, pending, scope);
    }
  }

  lemma OpaqueBites(e: Expr)
    requires !e.Sym? && TryFromExpr(e).None? && DerivativesBite(e)
    ensures forall i | 0 <= i < |Children(e)| :: DerivativesBite(Children(e)[i])
  {
    assert Read(e).parts == Children(e);
  }

  lemma OperatorConverted(e: Expr, n: BinderNode, scope: seq<Symbol>)
    requires TryFromExpr(e) == Some(n) && (n.Derivative? || (n.Integral? && n.limits.None?))
    ensures Convert(e, scope) == Node(OperatorHead(n), [Convert(n.body, scope), Lookup(scope, n.variable)])
  {
    ConvertedParts(e, scope);
    var r := Read(e);
    assert r.parts == [n.body, Sym(n.variable)] && scope + r.Over(0) == scope == scope + r.Over(1);
    assert Convert(Sym(n.variable), scope) == Lookup(scope, n.variable);
    hide Read, TryFromExpr;
  }

  lemma OperatorRefuses(h: Head, b: Term, v: Term, x: Symbol, s: Expr)
    requires (h == TFunction("Derivative") || h == TFunction("Integral")) && !v.Node?
    ensures Refuses(Node(h, [b, v]), x, s) <==> Clash(Node(h, [b, v]), x, s) || Refuses(b, x, s)
  {
    var t := Node(h, [b, v]);
    assert t.parts[0] == b && t.parts[1] == v;
    assert !Refuses(v, x, s);
  }

  lemma {:induction false} OperatorStuckIff(e: Expr, n: BinderNode, x: Symbol, s: Expr, pending: set<Symbol>, scope: seq<Symbol>)
    requires TryFromExpr(e) == Some(n) && (n.Derivative? || (n.Integral? && n.limits.None?))
    requires DerivativesBite(e) && x !in scope && PendingIn(FreeOf(e), s, pending, scope)
    ensures Stuck(e, x, s, pending) <==> Refuses(Convert(e, scope), x, s)
    decreases Size(e), 0
  {
    hide Stuck, Refuses, TryFromExpr, FreeOf, Convert, Read, DerivativesBite, Occurs;
    var v, body := n.variable, n.body;
    var b, u := Convert(body, scope), Lookup(scope, v);
    ReadBinder(e, n);
    OperatorStuck(e, n, x, s, pending);
    OperatorConverted(e, n, scope);
    OperatorRefuses(OperatorHead(n), b, u, x, s);
    OperatorFreeIs(e, n);
    OccursInConvert(body, scope, x);
    SymbolsOfReplacement(s);
    if s.Sym? { OccursInConvert(body, scope, s.symbol); }
    assert Node(OperatorHead(n), [b, u]).parts[0] == b && Node(OperatorHead(n), [b, u]).parts[1] == u;
    StuckIffRefuses(body, x, s, Renamed(pending, v, body), scope);
    if x !in FreeOf(body) { RefusesAbsent(b, x, s); }
  }

  lemma ScopedConverted(e: Expr, n: BinderNode, scope: seq<Symbol>)
    requires TryFromExpr(e) == Some(n) && (n.Lambda? || (n.Integral? && n.limits.Some?))
    ensures var t := Convert(e, scope);
      && t.Node? && !Operator(t) && |t.parts| == (if n.Lambda? then 1 else 3) && t.parts[0] == Convert(n.body, scope + [BoundVariable(n)])
      && (n.Integral? ==> t.parts[1] == Convert(n.limits.value.0, scope) && t.parts[2] == Convert(n.limits.value.1, scope))
  {
    ConvertedParts(e, scope);
    var r := Read(e);
    assert r.names == [BoundVariable(n)] && scope + r.Over(1) == scope == scope + r.Over(2);
    assert r.parts == if n.Lambda? then [n.body] else [n.body, n.limits.value.0, n.limits.value.1];
    hide Read, TryFromExpr, Convert;
  }

  lemma {:induction false} ScopedStuckIff(e: Expr, n: BinderNode, x: Symbol, s: Expr, pending: set<Symbol>, scope: seq<Symbol>)
    requires TryFromExpr(e) == Some(n) && (n.Lambda? || (n.Integral? && n.limits.Some?))
    requires DerivativesBite(e) && x !in scope && PendingIn(FreeOf(e), s, pending, scope)
    ensures Stuck(e, x, s, pending) <==> Refuses(Convert(e, scope), x, s)
    decreases Size(e), 0
  {
    hide Stuck, Refuses, TryFromExpr, FreeOf, Convert, Read, DerivativesBite, Occurs, Operator;
    var v, body, t := BoundVariable(n), n.body, Convert(e, scope);
    ReadBinder(e, n);
    ScopedStuck(e, n, x, s, pending);
    ScopedConverted(e, n, scope);
    RefusesBelow(t, x, s);
    ScopedFreeIs(e, n);
    OccursInConvert(body, scope + [v], x);
    if v == x || x !in FreeOf(body) {
      RefusesAbsent(t.parts[0], x, s);
    } else {
      StuckIffRefuses(body, x, s, Declared(pending, v, body, s), scope + [v]);
    }
    if n.Integral? {
      StuckIffRefuses(n.limits.value.0, x, s, pending, scope);
      StuckIffRefuses(n.limits.value.1, x, s, pending, scope);
    }
  }
}
