/** The kernel's rules respect equality up to the names of bound variables. */
module KernelSoundness {
  import opened Wrappers
  import opened Exprs
  import opened Binders
  import opened DeBruijn
  import opened Symbols
  import opened Substitution
  import opened SubstitutionLaws
  import opened SubstitutionExactness
  import opened CaptureExactness
  import opened CaptureAvoidance
  import opened Derivations
  import opened ProofKernel

  // ---- replacements up to bound names

  lemma {:induction false} SubsAlike(e: Expr, x: Symbol, s: Expr, s': Expr, F: set<Symbol>, depth: nat, r: Expr, r': Expr)
    requires SameTerm(s, s') && Subs(e, x, s, F, depth) == Ok(r) && Subs(e, x, s', F, depth) == Ok(r')
    ensures SameTerm(r, r')
    decreases MAX_BINDING_DEPTH + 1 - depth, 2
  {
    if !e.Sym? {
      assert depth <= MAX_BINDING_DEPTH;
      hide Subs, SameTerm, Read, TryFromExpr;
      var n := TryFromExpr(e);
      if n.None? {
        OpaqueAlike(e, x, s, s', F, depth, r, r');
      } else if n.value.Derivative? || (n.value.Integral? && n.value.limits.None?) {
        OperatorAlike(e, n.value, x, s, s', F, depth, r, r');
      } else {
        ScopedAlike(e, n.value, x, s, s', F, depth, r, r');
      }
    }
  }

  lemma {:induction false} OpaqueAlike(e: Expr, x: Symbol, s: Expr, s': Expr, F: set<Symbol>, depth: nat, r: Expr, r': Expr)
    requires !e.Sym? && TryFromExpr(e).None? && depth <= MAX_BINDING_DEPTH
    requires SameTerm(s, s') && Subs(e, x, s, F, depth) == Ok(r) && Subs(e, x, s', F, depth) == Ok(r')
    ensures SameTerm(r, r')
    decreases MAX_BINDING_DEPTH + 1 - depth, 1
  {
    hide Subs, Read, TryFromExpr, Convert;
    OpaqueStays(e, x, s, F, depth, r);
    OpaqueStays(e, x, s', F, depth, r');
    var cs, ds := Children(r), Children(r');
    var ts := seq(|cs|, i requires 0 <= i < |cs| => Convert(cs[i], []));
    forall i | 0 <= i < |cs| ensures Convert(ds[i], []) == ts[i] { SubsAlike(Children(e)[i], x, s, s', F, depth + 1, cs[i], ds[i]); }
    ConvertParts(r, ts);
    ConvertParts(r', ts);
  }

  lemma {:induction false} OperatorAlike(e: Expr, n: BinderNode, x: Symbol, s: Expr, s': Expr, F: set<Symbol>, depth: nat, r: Expr, r': Expr)
    requires TryFromExpr(e) == Some(n) && (n.Derivative? || (n.Integral? && n.limits.None?)) && depth <= MAX_BINDING_DEPTH
    requires SameTerm(s, s') && Subs(e, x, s, F, depth) == Ok(r) && Subs(e, x, s', F, depth) == Ok(r')
    ensures SameTerm(r, r')
    decreases MAX_BINDING_DEPTH + 1 - depth, 1
  {
    hide Subs, TryFromExpr, ToExpr, Convert, FreeOf;
    var w, b := OperatorShape(e, n, x, s, F, depth, r);
    var w', b' := OperatorShape(e, n, x, s', F, depth, r');
    if n.variable == x || x in FreeOf(n.body) {
      SymbolsAlike(s, s');
      var m, m' := n.(variable := w, body := b), n.(variable := w', body := b');
      BinderRoundTrip(m);
      BinderRoundTrip(m');
      OperatorTerm(r, m);
      OperatorTerm(r', m');
      SubsAlike(n.body, x, s, s', F, depth + 1, b, b');
    }
  }

  lemma {:induction false} ScopedAlike(e: Expr, n: BinderNode, x: Symbol, s: Expr, s': Expr, F: set<Symbol>, depth: nat, r: Expr, r': Expr)
    requires TryFromExpr(e) == Some(n) && (n.Lambda? || (n.Integral? && n.limits.Some?)) && depth <= MAX_BINDING_DEPTH
    requires SameTerm(s, s') && Subs(e, x, s, F, depth) == Ok(r) && Subs(e, x, s', F, depth) == Ok(r')
    ensures SameTerm(r, r')
    decreases MAX_BINDING_DEPTH + 1 - depth, 1
  {
    hide Subs, SubsUnder, TryFromExpr, ToExpr, Convert, FreeOf, DerivativesBite;
    var v := BoundVariable(n);
    var w, b, m := ScopedShape(e, n, x, s, F, depth, r);
    var w', b', m' := ScopedShape(e, n, x, s', F, depth, r');
    if v != x { UnderAlike(v, n.body, x, s, s', F, depth, w, b, w', b'); }
    if n.Integral? {
      SubsAlike(n.limits.value.0, x, s, s', F, depth + 1, m.limits.value.0, m'.limits.value.0);
      SubsAlike(n.limits.value.1, x, s, s', F, depth + 1, m.limits.value.1, m'.limits.value.1);
    }
    if n.Integral? || v != x {
      BinderRoundTrip(m);
      BinderRoundTrip(m');
      ReadBinder(r, m);
      ReadBinder(r', m');
    }
  }

  lemma {:induction false} UnderAlike(v: Symbol, body: Expr, x: Symbol, s: Expr, s': Expr, F: set<Symbol>, depth: nat, w: Symbol, b: Expr, w': Symbol, b': Expr)
    requires depth <= MAX_BINDING_DEPTH && SameTerm(s, s')
    requires SubsUnder(v, body, x, s, F, depth) == Ok((w, b)) && SubsUnder(v, body, x, s', F, depth) == Ok((w', b'))
    ensures Convert(b, [w]) == Convert(b', [w'])
    decreases MAX_BINDING_DEPTH + 1 - depth, 0
  {
    hide Subs, SubsUnder, Convert, FreeOf, AllOf, Close, LocallyClosed;
    var renamed := UnderShape(v, body, x, s, F, depth, w, b);
    var renamed' := UnderShape(v, body, x, s', F, depth, w', b');
    if x in FreeOf(body) { SubsAlike(if v in F then renamed else body, x, s, s', F, depth + 1, b, b'); }
    ConvertUnder(b, w);
    ConvertUnder(b', w');
  }

  /** Replacing a variable by two expressions that differ in bound names only gives two such answers. */
  lemma ReplacedAlike(e: Expr, x: Symbol, s: Expr, s': Expr)
    requires SameTerm(s, s')
    ensures var p, q := CaptureAvoidingSubs(e, x, s), CaptureAvoidingSubs(e, x, s'); p.Ok? && q.Ok? ==> SameTerm(p.value, q.value)
  {
    hide Subs, SameTerm, CaptureAvoidingSubs, FreeOf;
    SymbolsAlike(s, s');
    var p, q := CaptureAvoidingSubs(e, x, s), CaptureAvoidingSubs(e, x, s');
    if p.Ok? && q.Ok? {
      AnswerOfSubs(e, x, s, p.value);
      AnswerOfSubs(e, x, s', q.value);
      SubsAlike(e, x, s, s', FreeOf(s), 0, p.value, q.value);
    }
  }

  // ---- operations up to bound names

  ghost predicate AlikeEach(ls: seq<Expr>, rs: seq<Expr>) {
    |ls| == |rs| && forall i :: 0 <= i < |ls| ==> SameTerm(ls[i], rs[i])
  }

  /** A symbol is like nothing but itself. */
  lemma SymbolIsAlone(a: Expr, b: Expr)
    requires SameTerm(a, b)
    ensures (a.Sym? <==> b.Sym?) && (a.Sym? ==> a == b)
  {
    SymbolsAlike(a, b);
  }

  lemma ParametersAlike(ls: seq<Expr>, rs: seq<Expr>)
    requires AlikeEach(ls, rs)
    ensures DistinctSymbolParameters(ls) <==> DistinctSymbolParameters(rs)
    ensures DistinctSymbolParameters(ls) ==> ls == rs
  {
    hide SameTerm;
    forall i | 0 <= i < |ls| ensures (ls[i].Sym? <==> rs[i].Sym?) && (ls[i].Sym? ==> ls[i] == rs[i]) { SymbolIsAlone(ls[i], rs[i]); }
  }

  /** Nodes that are no binders are alike when they carry the same and their parts are alike. */
  lemma OpaqueNodesAlike(a: Expr, b: Expr)
    requires !a.Sym? && !b.Sym? && TryFromExpr(a).None? && TryFromExpr(b).None? && Read(a).head == Read(b).head
    requires AlikeEach(Children(a), Children(b))
    ensures SameTerm(a, b)
  {
    OpaqueParts(a);
    OpaqueParts(b);
    hide Read, TryFromExpr, Convert;
    var ts := seq(|Children(a)|, i requires 0 <= i < |Children(a)| => Convert(Children(a)[i], []));
    ConvertParts(a, ts);
    ConvertParts(b, ts);
  }

  lemma OpaqueParts(e: Expr)
    requires !e.Sym? && TryFromExpr(e).None?
    ensures Read(e).parts == Children(e) && Read(e).names == [] && forall i | 0 <= i < |Children(e)| :: Read(e).Over(i) == []
  {
  }

  /** A Tuple is like Tuples only, part by part. */
  lemma TuplesAlike(a: Expr, b: Expr)
    requires SameTerm(a, b) && a.Function? && a.name == "Tuple"
    ensures b.Function? && b.name == "Tuple" && AlikeEach(a.args, b.args)
  {
    SymbolIsAlone(a, b);
    OpaqueParts(a);
    var ts := seq(|a.args|, i requires 0 <= i < |a.args| => Convert(a.args[i], []));
    ConvertParts(a, ts);
    assert Read(b).head == TFunction("Tuple");
    assert TryFromExpr(b).None? && b.Function? && b.name == "Tuple";
    OpaqueParts(b);
    var us := seq(|b.args|, i requires 0 <= i < |b.args| => Convert(b.args[i], []));
    ConvertParts(b, us);
    hide Convert;
    assert ts == us;
    forall i | 0 <= i < |a.args| ensures SameTerm(a.args[i], b.args[i]) { assert ts[i] == us[i]; }
  }

  /** A signature is read alike on both sides, with the same parameter. */
  lemma {:induction false} LambdasAlike(ls: seq<Expr>, rs: seq<Expr>)
    requires AlikeEach(ls, rs)
    ensures TryParseLambda(ls).None? <==> TryParseLambda(rs).None?
    ensures TryParseLambda(ls).Some? ==> TryParseLambda(ls).value.param == TryParseLambda(rs).value.param
    ensures TryParseLambda(ls).Some? ==> SameTerm(TryParseLambda(ls).value.body, TryParseLambda(rs).value.body)
    decreases SizeAll(ls)
  {
    hide SameTerm;
    if |ls| == 2 {
      SymbolIsAlone(ls[0], rs[0]);
      if ls[0].Function? && ls[0].name == "Tuple" {
        TuplesAlike(ls[0], rs[0]);
        SignaturesAlike(ls, rs);
      } else if !ls[0].Sym? && rs[0].Function? && rs[0].name == "Tuple" {
        AlikeIsSymmetric(ls[0], rs[0]);
        TuplesAlike(rs[0], ls[0]);
      }
    } else if |ls| > 2 {
      var ps, qs := ls[..|ls| - 1], rs[..|rs| - 1];
      ParametersAlike(ps, qs);
      if DistinctSymbolParameters(ps) {
        assert forall i :: 0 <= i < |ps| ==> ps[i] == ls[i] && qs[i] == rs[i];
        assert SizeAll(ls) == Size(ls[0]) + SizeAll(ls[1..]);
        LambdasAlike(ls[1..], rs[1..]);
        LambdaNodesAlike(ls[1..], rs[1..]);
      }
    }
  }

  lemma AlikeIsSymmetric(a: Expr, b: Expr)
    requires SameTerm(a, b)
    ensures SameTerm(b, a)
  {
  }

  lemma {:induction false} SignaturesAlike(ls: seq<Expr>, rs: seq<Expr>)
    requires AlikeEach(ls, rs) && |ls| == 2 && ls[0].Function? && ls[0].name == "Tuple" && rs[0].Function? && rs[0].name == "Tuple"
    requires AlikeEach(ls[0].args, rs[0].args)
    ensures TryParseLambda(ls).None? <==> TryParseLambda(rs).None?
    ensures TryParseLambda(ls).Some? ==> TryParseLambda(ls).value.param == TryParseLambda(rs).value.param
    ensures TryParseLambda(ls).Some? ==> SameTerm(TryParseLambda(ls).value.body, TryParseLambda(rs).value.body)
    decreases SizeAll(ls), 0
  {
    hide SameTerm;
    var ps, qs := ls[0].args, rs[0].args;
    ParametersAlike(ps, qs);
    if |ps| == 1 {
      SymbolIsAlone(ps[0], qs[0]);
    } else if |ps| > 1 && DistinctSymbolParameters(ps) {
      var ml, mr := TryParseLambda(ls).value.body, TryParseLambda(rs).value.body;
      var inner, inner' := ml.args, mr.args;
      assert inner[0] == inner'[0] && inner[1] == ls[1] && inner'[1] == rs[1];
      assert SameTerm(inner[0], inner'[0]) by { AlikeItself(inner[0]); }
      InnerIsSmaller(ls);
      LambdasAlike(inner, inner');
      LambdaNodesAlike(inner, inner');
    }
  }

  lemma AlikeItself(a: Expr)
    ensures SameTerm(a, a)
  {
  }

  lemma InnerIsSmaller(ls: seq<Expr>)
    requires TryParseLambda(ls).Some? && |ls| == 2 && ls[0].Function? && |ls[0].args| > 1
    ensures TryParseLambda(ls).value.body.Function? && SizeAll(TryParseLambda(ls).value.body.args) < SizeAll(ls)
  {
  }

  lemma LambdaNodesAlike(ls: seq<Expr>, rs: seq<Expr>)
    requires AlikeEach(ls, rs)
    requires TryParseLambda(ls).None? <==> TryParseLambda(rs).None?
    requires TryParseLambda(ls).Some? ==> TryParseLambda(ls).value.param == TryParseLambda(rs).value.param
    requires TryParseLambda(ls).Some? ==> SameTerm(TryParseLambda(ls).value.body, TryParseLambda(rs).value.body)
    ensures SameTerm(Function("Lambda", ls), Function("Lambda", rs))
  {
    var a, b := Function("Lambda", ls), Function("Lambda", rs);
    var m, n := TryFromExpr(a), TryFromExpr(b);
    assert m == TryParseLambda(ls) && n == TryParseLambda(rs);
    if m.None? {
      OpaqueNodesAlike(a, b);
    } else {
      ReadBinder(a, m.value);
      ReadBinder(b, n.value);
      ConvertUnder(m.value.body, m.value.param);
      ConvertUnder(n.value.body, n.value.param);
    }
  }

  /** Functions of one name and like arguments are alike, the binding ones included. */
  lemma FunctionsAlike(name: string, ls: seq<Expr>, rs: seq<Expr>)
    requires AlikeEach(ls, rs)
    ensures SameTerm(Function(name, ls), Function(name, rs))
  {
    if name == "Lambda" {
      LambdasAlike(ls, rs);
      LambdaNodesAlike(ls, rs);
    } else {
      OperatorsAlike(name, ls, rs);
    }
  }

  lemma OperatorsAlike(name: string, ls: seq<Expr>, rs: seq<Expr>)
    requires AlikeEach(ls, rs) && name != "Lambda"
    ensures SameTerm(Function(name, ls), Function(name, rs))
  {
    var a, b := Function(name, ls), Function(name, rs);
    if |ls| > 1 { SymbolIsAlone(ls[1], rs[1]); }
    var m, n := TryFromExpr(a), TryFromExpr(b);
    if m.None? {
      OpaqueNodesAlike(a, b);
    } else {
      ReadBinder(a, m.value);
      ReadBinder(b, n.value);
      if m.value.Integral? && m.value.limits.Some? {
        ConvertUnder(m.value.body, m.value.variable);
        ConvertUnder(n.value.body, n.value.variable);
      }
    }
  }

  // ---- the kernel

  /** The rules that rest on no step conclude equality up to bound names only. */
  ghost predicate LeavesAreAlike(k: Rules) {
    && (forall a, b :: k.sameNormalForm(a, b) ==> SameTerm(a, b))
    && (forall rule :: k.conclude(rule).Some? && k.conclude(rule).value.Equality? ==> SameTerm(k.conclude(rule).value.lhs, k.conclude(rule).value.rhs))
  }

  /** Equality up to bound names is respected by every rule, if the leaves respect it. */
  lemma AlphaIsRespected(k: Rules)
    requires LeavesAreAlike(k)
    ensures Respected(k, (a, b) => SameTerm(a, b))
  {
    hide SameTerm, CaptureAvoidingSubs;
    var same: (Expr, Expr) -> bool := (a, b) => SameTerm(a, b);
    forall a, b, c ensures same(a, a) && (same(a, b) ==> same(b, a)) && (same(a, b) && same(b, c) ==> same(a, c)) { Equivalence(a, b, c); }
    forall ls, rs | SameEach(same, ls, rs) ensures same(Add(ls), Add(rs)) && same(Mul(ls), Mul(rs)) {
      OpaqueNodesAlike(Add(ls), Add(rs));
      OpaqueNodesAlike(Mul(ls), Mul(rs));
    }
    forall a, b, c, d | same(a, b) && same(c, d) ensures same(Pow(a, c), Pow(b, d)) { OpaqueNodesAlike(Pow(a, c), Pow(b, d)); }
    forall name, ls, rs | SameEach(same, ls, rs) ensures same(Function(name, ls), Function(name, rs)) { FunctionsAlike(name, ls, rs); }
    forall t, x, a, b | same(a, b) ensures SameInContext(same, t, x, a, b) { ReplacedAlike(t, x, a, b); }
  }

  lemma Equivalence(a: Expr, b: Expr, c: Expr)
    ensures SameTerm(a, a) && (SameTerm(a, b) ==> SameTerm(b, a)) && (SameTerm(a, b) && SameTerm(b, c) ==> SameTerm(a, c))
  {
  }

  /** Without algebra in its leaves, whatever is verified differs in bound names only. */
  lemma VerifiedIsAlpha(k: Rules, d: Derivation, a: Expr, b: Expr)
    requires LeavesAreAlike(k) && Verified(k, d) == Some(Equality(a, b))
    ensures SameTerm(a, b)
  {
    AlphaIsRespected(k);
    VerifiedIsSound(k, (a, b) => SameTerm(a, b), d, a, b);
  }
}
