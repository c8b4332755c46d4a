/** The guarantees of capture-avoiding substitution, stated on its public entry. */
module CaptureAvoidance {
  import opened Wrappers
  import opened Exprs
  import opened Binders
  import opened DeBruijn
  import opened Symbols
  import opened Traversals
  import opened Substitution
  import opened SubstitutionLaws
  import opened SubstitutionFree
  import opened SubstitutionRefusals
  import opened AlphaEquivalence

  /** Two expressions have the same De Bruijn form. */
  ghost predicate SameTerm(a: Expr, b: Expr) {
    Convert(a, []) == Convert(b, [])
  }

  /** An answer is the De Bruijn form of the source with `x` replaced by that of the replacement. */
  lemma SubstitutionCommutes(e: Expr, x: Symbol, s: Expr, r: Expr)
    requires DerivativesBite(e) && DerivativesBite(s) && CaptureAvoidingSubs(e, x, s) == Ok(r)
    ensures Convert(r, []) == Subst(Convert(e, []), x, Convert(s, []))
    ensures DerivativesBite(r)
  {
    AnswerOfSubs(e, x, s, r);
    SubsAgrees(e, x, s, 0, r);
  }

  /** The free symbols of an answer, exactly; a derivative variable that is missed or captured is none of them. */
  lemma FreeSymbolLaw(e: Expr, x: Symbol, s: Expr, r: Expr)
    requires CaptureAvoidingSubs(e, x, s) == Ok(r)
    ensures FreeOf(r) == FreeOf(e) - {x} + if x in FreeOf(e) then FreeOf(s) else {}
  {
    hide CaptureAvoidingSubs, Subs, FreeOf;
    AnswerOfSubs(e, x, s, r);
    SubsFree(e, x, s, 0, r);
  }

  /** Within both of the depth checks, as written and as read. */
  predicate WithinBothLimits(e: Expr) {
    RawWithin(e, MAX_BINDING_DEPTH) && ReadWithin(e, MAX_BINDING_DEPTH)
  }

  /** Within the depth limits, substitution answers unless an operator variable stands in the way, and never refuses for depth. */
  lemma AnswersExactly(e: Expr, x: Symbol, s: Expr)
    requires WithinBothLimits(e) && WithinBothLimits(s)
    ensures CaptureAvoidingSubs(e, x, s).Ok? <==> !Stuck(e, x, s, {})
    ensures CaptureAvoidingSubs(e, x, s).Err? ==> !CaptureAvoidingSubs(e, x, s).error.DepthExceeded?
  {
    hide Subs, Stuck, RawWithin, ReadWithin, FreeOf;
    SubsAnswers(e, x, s, 0);
  }

  /** When derivatives differentiate by free symbols, whether it answers depends on the De Bruijn form of the source. */
  lemma AnswersByTerm(e: Expr, x: Symbol, s: Expr)
    requires DerivativesBite(e) && WithinBothLimits(e) && WithinBothLimits(s)
    ensures CaptureAvoidingSubs(e, x, s).Ok? <==> !Refuses(Convert(e, []), x, s)
  {
    hide CaptureAvoidingSubs, Stuck, Refuses, RawWithin, ReadWithin, FreeOf, DerivativesBite, Convert;
    AnswersExactly(e, x, s);
    StuckIffRefuses(e, x, s, {}, []);
  }

  /** Equal De Bruijn forms go to equal De Bruijn forms. */
  lemma AlphaCongruence(e: Expr, e': Expr, x: Symbol, s: Expr, s': Expr, r: Expr, r': Expr)
    requires SameTerm(e, e') && SameTerm(s, s')
    requires DerivativesBite(e) && DerivativesBite(e') && DerivativesBite(s) && DerivativesBite(s')
    requires CaptureAvoidingSubs(e, x, s) == Ok(r) && CaptureAvoidingSubs(e', x, s') == Ok(r')
    ensures SameTerm(r, r')
  {
    SubstitutionCommutes(e, x, s, r);
    SubstitutionCommutes(e', x, s', r');
  }

  /** A refusal depends on the replacement only through its free symbols and whether it is a symbol. */
  lemma {:induction false} RefusesAlike(t: Term, x: Symbol, s: Expr, s': Expr)
    requires FreeOf(s) == FreeOf(s') && (s.Sym? <==> s'.Sym?) && (s.Sym? ==> s == s')
    ensures Refuses(t, x, s) <==> Refuses(t, x, s')
  {
    if t.Node? {
      forall i | 0 <= i < |t.parts| ensures Refuses(t.parts[i], x, s) <==> Refuses(t.parts[i], x, s') { RefusesAlike(t.parts[i], x, s, s'); }
      assert Clash(t, x, s) <==> Clash(t, x, s') by { hide FreeOf, Occurs; }
    }
  }

  lemma SymbolsAlike(s: Expr, s': Expr)
    requires SameTerm(s, s')
    ensures FreeOf(s) == FreeOf(s') && (s.Sym? <==> s'.Sym?) && (s.Sym? ==> s == s')
  {
    SameTermSameFree(s, s');
    if s.Sym? { ConvertSymbol(s.symbol); }
    if s'.Sym? { ConvertSymbol(s'.symbol); }
  }

  /**
    Sources and replacements with equal De Bruijn forms are answered together, with equal De Bruijn
    forms again, or refused together; the depth as written is all that their forms do not share.
   */
  lemma AlphaAnswersTogether(e: Expr, e': Expr, x: Symbol, s: Expr, s': Expr)
    requires SameTerm(e, e') && SameTerm(s, s')
    requires DerivativesBite(e) && DerivativesBite(e')
    requires WithinBothLimits(e) && WithinBothLimits(s) && RawWithin(e', MAX_BINDING_DEPTH) && RawWithin(s', MAX_BINDING_DEPTH)
    ensures CaptureAvoidingSubs(e, x, s).Ok? <==> CaptureAvoidingSubs(e', x, s').Ok?
    ensures CaptureAvoidingSubs(e, x, s).Ok? && DerivativesBite(s) && DerivativesBite(s') ==> SameTerm(CaptureAvoidingSubs(e, x, s).value, CaptureAvoidingSubs(e', x, s').value)
  {
    SymbolsAlike(s, s');
    hide CaptureAvoidingSubs, Convert, RawWithin, ReadWithin, FreeOf, DerivativesBite, Refuses;
    ReadWithinIff(e, [], MAX_BINDING_DEPTH);
    ReadWithinIff(e', [], MAX_BINDING_DEPTH);
    ReadWithinIff(s, [], MAX_BINDING_DEPTH);
    ReadWithinIff(s', [], MAX_BINDING_DEPTH);
    AnswersByTerm(e, x, s);
    AnswersByTerm(e', x, s');
    RefusesAlike(Convert(e, []), x, s, s');
    if CaptureAvoidingSubs(e, x, s).Ok? && DerivativesBite(s) && DerivativesBite(s') {
      AlphaCongruence(e, e', x, s, s', CaptureAvoidingSubs(e, x, s).value, CaptureAvoidingSubs(e', x, s').value);
    }
  }

  /** The substitution lemma: two replacements may be exchanged. */
  lemma SubstitutionLemma(e: Expr, x: Symbol, r: Expr, y: Symbol, s: Expr, ex: Expr, exy: Expr, ey: Expr, ry: Expr, eyx: Expr)
    requires x != y && x !in FreeOf(s)
    requires DerivativesBite(e) && DerivativesBite(r) && DerivativesBite(s)
    requires CaptureAvoidingSubs(e, x, r) == Ok(ex) && CaptureAvoidingSubs(ex, y, s) == Ok(exy)
    requires CaptureAvoidingSubs(e, y, s) == Ok(ey) && CaptureAvoidingSubs(r, y, s) == Ok(ry) && CaptureAvoidingSubs(ey, x, ry) == Ok(eyx)
    ensures SameTerm(exy, eyx)
  {
    hide CaptureAvoidingSubs;
    SubstitutionCommutes(e, x, r, ex);
    SubstitutionCommutes(ex, y, s, exy);
    SubstitutionCommutes(e, y, s, ey);
    SubstitutionCommutes(r, y, s, ry);
    SubstitutionCommutes(ey, x, ry, eyx);
    OccursInConvert(s, [], x);
    SubstSubst(Convert(e, []), x, Convert(r, []), y, Convert(s, []));
  }

  // ---- both hypotheses on derivatives are needed

  const X: Symbol := Plain("x")
  const Y: Symbol := Plain("y")
  const Z: Symbol := Plain("z")

  /** The derivative of a constant with respect to `v`: `v` occurs in it but is not reported free. */
  function Flat(v: Symbol): Expr {
    Function("Derivative", [Integer(1), Sym(v)])
  }

  lemma FlatFacts(v: Symbol)
    ensures TryFromExpr(Flat(v)) == Some(Derivative(v, Integer(1)))
    ensures FreeSymbolsOf(Flat(v)) == Ok({}) && !DerivativesBite(Flat(v)) && RawWithin(Flat(v), 1)
  {
    var r := Read(Flat(v));
    assert r.parts == [Integer(1), Sym(v)] && r.head == TFunction("Derivative");
    assert FreeOf(Integer(1)) == {};
    FreeBelowAll(Flat(v));
    FreeBelowStep(r, 0);
    FreeBelowStep(r, 1);
    assert RawWithin(Integer(1), 0) && RawWithin(Sym(v), 0) && ReadWithin(Integer(1), 0) && ReadWithin(Sym(v), 0);
    assert RawWithin(Flat(v), 1);
    assert ReadWithin(Flat(v), 1);
    assert FreeOf(Flat(v)) == {};
    assert DerivativeVariable(r, 1) && r.parts[1].symbol !in FreeOf(r.parts[0]);
    LimitsSuffice(Flat(v), 1);
  }

  lemma ConvertInteger(n: int, scope: seq<Symbol>)
    ensures Convert(Integer(n), scope) == Node(TInteger(n), [])
  {
    assert Read(Integer(n)) == Reading(TInteger(n), [], []);
  }

  lemma ConvertFlat(v: Symbol, scope: seq<Symbol>)
    ensures Convert(Flat(v), scope) == Node(TFunction("Derivative"), [Node(TInteger(1), []), Lookup(scope, v)])
  {
    assert Read(Flat(v)) == Reading(TFunction("Derivative"), [Integer(1), Sym(v)], []);
    ConvertInteger(1, scope);
    assert scope + [] == scope;
    assert Convert(Sym(v), scope) == Lookup(scope, v);
    hide Read;
    var t := Convert(Flat(v), scope);
    assert |t.parts| == 2 && t.parts[0] == Node(TInteger(1), []) && t.parts[1] == Lookup(scope, v);
  }

  /** Under a Lambda, the variable of such a derivative is missed. */
  lemma HiddenVariableIsMissed()
    ensures var e := Function("Lambda", [Sym(Y), Flat(X)]);
            && CaptureAvoidingSubs(e, X, Sym(Z)) == Ok(e)
            && Convert(e, []) != Subst(Convert(e, []), X, Convert(Sym(Z), []))
  {
    var e := Function("Lambda", [Sym(Y), Flat(X)]);
    FlatFacts(X);
    ConvertFlat(X, [Y]);
    ReadBinder(e, Lambda(Y, Flat(X)));
    assert FreeSymbolsOf(Sym(Z)).Ok?;
    hide FreeOf, Convert, Read, FreeSymbolsOf;
    RawWithinAny(Flat(X), 1, 255);
    assert RawWithin(Sym(Y), 255) && RawWithin(e, MAX_BINDING_DEPTH);
    var t, u := Convert(e, []), Subst(Convert(e, []), X, Convert(Sym(Z), []));
    assert t.parts[0].parts[1] == Free(X) && u.parts[0] == Subst(t.parts[0], X, Convert(Sym(Z), []));
    assert u.parts[0].parts[1] == Convert(Sym(Z), []) == Lookup([], Z) by {
      ConvertSymbol(Z);
    }
  }

  lemma ConvertSymbol(s: Symbol)
    ensures Convert(Sym(s), []) == Lookup([], s) == Free(s)
  {
  }

  /** In a replacement, the variable of such a derivative is captured. */
  lemma HiddenVariableIsCaptured()
    ensures var e := Function("Lambda", [Sym(Y), Sym(X)]);
            var r := Function("Lambda", [Sym(Y), Flat(Y)]);
            && CaptureAvoidingSubs(e, X, Flat(Y)) == Ok(r)
            && Convert(r, []) != Subst(Convert(e, []), X, Convert(Flat(Y), []))
  {
    CapturingAnswer();
    CapturedTerm();
  }

  lemma CapturingAnswer()
    ensures CaptureAvoidingSubs(Function("Lambda", [Sym(Y), Sym(X)]), X, Flat(Y)) == Ok(Function("Lambda", [Sym(Y), Flat(Y)]))
  {
    var e := Function("Lambda", [Sym(Y), Sym(X)]);
    FlatFacts(Y);
    assert FreeSymbolsOf(Sym(X)) == Ok({X});
    hide FreeOf, FreeSymbolsOf, Read;
    assert RawWithin(Sym(Y), 255) && RawWithin(Sym(X), 255) && RawWithin(e, MAX_BINDING_DEPTH);
    assert Subs(Sym(X), X, Flat(Y), {}, 1) == Ok(Flat(Y));
  }

  lemma CapturedTerm()
    ensures Convert(Function("Lambda", [Sym(Y), Flat(Y)]), [])
         != Subst(Convert(Function("Lambda", [Sym(Y), Sym(X)]), []), X, Convert(Flat(Y), []))
  {
    var e, r := Function("Lambda", [Sym(Y), Sym(X)]), Function("Lambda", [Sym(Y), Flat(Y)]);
    ReadBinder(e, Lambda(Y, Sym(X)));
    ReadBinder(r, Lambda(Y, Flat(Y)));
    hide Read, TryFromExpr, Convert;
    ConvertFlat(Y, [Y]);
    ConvertFlat(Y, []);
    FreeStaysFree();
    SubstNode(Binder("Lambda"), [Convert(Sym(X), [Y])], [Convert(Flat(Y), [])], X, Convert(Flat(Y), []));
    assert Lookup([Y], Y) == Bound(0) && Lookup([], Y) == Free(Y);
  }

  lemma FreeStaysFree()
    ensures Convert(Sym(X), [Y]) == Free(X)
  {
  }

  /** Below a second declaration, such a variable is missed when the first is renamed, and the answer is refused for its sake. */
  lemma HiddenVariableIsRefused()
    ensures var e := Function("Lambda", [Sym(Y), Function("Lambda", [Sym(Z), Function("Derivative", [Sym(X), Sym(Y)])])]);
      CaptureAvoidingSubs(e, X, Sym(Y)).Err? && !Refuses(Convert(e, []), X, Sym(Y))
  {
    var d := Function("Derivative", [Sym(X), Sym(Y)]);
    var inner := Function("Lambda", [Sym(Z), d]);
    var e := Function("Lambda", [Sym(Y), inner]);
    assert Twofold(d, inner, e);
    hide Twofold, CaptureAvoidingSubs, Refuses, Convert, WithinBothLimits, Stuck;
    TwofoldIsWithin(d, inner, e);
    TwofoldIsStuck(d, inner, e);
    TwofoldIsNotRefused(d, inner, e);
    AnswersExactly(e, X, Sym(Y));
  }

  ghost predicate Twofold(d: Expr, inner: Expr, e: Expr) {
    && TryFromExpr(d) == Some(Derivative(Y, Sym(X))) && TryFromExpr(inner) == Some(Lambda(Z, d)) && TryFromExpr(e) == Some(Lambda(Y, inner))
  }

  lemma TwofoldIsStuck(d: Expr, inner: Expr, e: Expr)
    requires Twofold(d, inner, e)
    ensures Stuck(e, X, Sym(Y), {})
  {
    hide TryFromExpr, FreeOf, Stuck;
    OperatorFreeIs(d, Derivative(Y, Sym(X)));
    ScopedFreeIs(inner, Lambda(Z, d));
    FreeOfOne(X);
    FreeOfOne(Y);
    OperatorStuck(d, Derivative(Y, Sym(X)), X, Sym(Y), {});
    ScopedStuck(inner, Lambda(Z, d), X, Sym(Y), {Y});
    ScopedStuck(e, Lambda(Y, inner), X, Sym(Y), {});
    assert Declared({Y}, Z, d, Sym(Y)) == {} && Declared({}, Y, inner, Sym(Y)) == {Y};
  }

  lemma TwofoldIsNotRefused(d: Expr, inner: Expr, e: Expr)
    requires Twofold(d, inner, e)
    ensures !Refuses(Convert(e, []), X, Sym(Y))
  {
    hide TryFromExpr, Convert, Refuses, Operator;
    OperatorConverted(d, Derivative(Y, Sym(X)), [Y, Z]);
    ScopedConverted(inner, Lambda(Z, d), [Y]);
    ScopedConverted(e, Lambda(Y, inner), []);
    assert [Y] + [Z] == [Y, Z] && [] + [Y] == [Y];
    assert Lookup([Y, Z], Y) == Bound(1) && Convert(Sym(X), [Y, Z]) == Free(X) by { TwoNames(); }
    BoundVariableIsNoClash(Free(X), X, Sym(Y));
    RefusesBelow(Convert(inner, [Y]), X, Sym(Y));
    RefusesBelow(Convert(e, []), X, Sym(Y));
  }

  lemma TwoNames()
    ensures Lookup([Y, Z], Y) == Bound(1) && Convert(Sym(X), [Y, Z]) == Free(X)
  {
    PositionInnermost([Y], Z, Y);
    PositionInnermost([Y], Z, X);
    assert [Y] + [Z] == [Y, Z];
  }

  lemma TwofoldIsWithin(d: Expr, inner: Expr, e: Expr)
    requires Twofold(d, inner, e)
    ensures WithinBothLimits(e) && WithinBothLimits(Sym(Y))
  {
    hide TryFromExpr, RawWithin, ReadWithin;
    SymbolIsWithin(X, 0);
    SymbolIsWithin(Y, MAX_BINDING_DEPTH);
    BinderWithin(d, Derivative(Y, Sym(X)), 1);
    BinderWithin(inner, Lambda(Z, d), 2);
    BinderWithin(e, Lambda(Y, inner), 3);
    ReadBoundsRaw(e, 3);
    RawWithinAny(e, 4, MAX_BINDING_DEPTH);
    ReadWithinAny(e, 3, MAX_BINDING_DEPTH);
  }

  lemma SymbolIsWithin(s: Symbol, n: nat)
    ensures RawWithin(Sym(s), n) && ReadWithin(Sym(s), n)
  {
  }

  lemma BoundVariableIsNoClash(b: Term, x: Symbol, s: Expr)
    requires !b.Node?
    ensures !Refuses(Node(TFunction("Derivative"), [b, Bound(1)]), x, s)
  {
    OperatorRefuses(TFunction("Derivative"), b, Bound(1), x, s);
    assert Node(TFunction("Derivative"), [b, Bound(1)]).parts[1] == Bound(1);
  }
}
