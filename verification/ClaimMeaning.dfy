/** What a claim states: the sides of its source, read in their places, under its bindings. */
module ClaimMeaning {
  import opened Wrappers
  import opened Sequences
  import opened Exprs
  import opened BoundedSubstitution
  import Derivations
  import opened ClaimRecords

  // ---- the limits, written out

  /** The sides, and each binding against both, are measured and small enough; nothing here is cut off at a machine word. */
  ghost predicate Affords(lhs: Expr, rhs: Expr, bindings: seq<(Symbol, Expr)>, m: Measures) {
    && m.units(lhs).Some? && m.units(rhs).Some? && (m.units(lhs).value + m.units(rhs).value) * 64 <= 262_144
    && forall i :: 0 <= i < |bindings| ==>
      m.units(bindings[i].1).Some? && WithinWork(m.units(lhs).value + m.units(rhs).value, m.units(bindings[i].1).value)
  }

  ghost predicate WithinWork(source: nat, units: nat) {
    (source * 64) * (units * 64) <= 262_144
  }

  lemma FitsIff(lhs: Expr, rhs: Expr, bindings: seq<(Symbol, Expr)>, m: Measures)
    requires forall j, k :: 0 <= j < k < |bindings| ==> bindings[j].0 != bindings[k].0
    ensures Fits(lhs, rhs, AsMap(bindings), m) <==> Affords(lhs, rhs, bindings, m)
  {
    forall i | 0 <= i < |bindings| ensures bindings[i].0 in AsMap(bindings) && AsMap(bindings)[bindings[i].0] == bindings[i].1 { MapHolds(bindings, i); }
    if m.units(lhs).Some? && m.units(rhs).Some? && (m.units(lhs).value + m.units(rhs).value) * 64 <= MAX_WORK {
      var source := m.units(lhs).value + m.units(rhs).value;
      forall i | 0 <= i < |bindings| && m.units(bindings[i].1).Some?
        ensures Affordable(source * 64, m.units(bindings[i].1).value) <==> WithinWork(source, m.units(bindings[i].1).value)
      {
        AffordableIff(source, m.units(bindings[i].1).value);
      }
      hide Affordable, WithinWork, AsMap;
      assert SourceUnits(m.units(lhs).value, m.units(rhs).value) == source * 64;
      FitsDecided(lhs, rhs, bindings, m, source);
    }
  }

  lemma FitsDecided(lhs: Expr, rhs: Expr, bindings: seq<(Symbol, Expr)>, m: Measures, source: nat)
    requires m.units(lhs).Some? && m.units(rhs).Some? && source == m.units(lhs).value + m.units(rhs).value
    requires SourceUnits(m.units(lhs).value, m.units(rhs).value) == source * 64 <= MAX_WORK
    requires forall i :: 0 <= i < |bindings| ==> bindings[i].0 in AsMap(bindings) && AsMap(bindings)[bindings[i].0] == bindings[i].1
    requires forall i :: 0 <= i < |bindings| && m.units(bindings[i].1).Some? ==>
      (Affordable(source * 64, m.units(bindings[i].1).value) <==> WithinWork(source, m.units(bindings[i].1).value))
    ensures Fits(lhs, rhs, AsMap(bindings), m) <==> Affords(lhs, rhs, bindings, m)
  {
    hide Affordable, WithinWork, SourceUnits, AsMap;
    if Affords(lhs, rhs, bindings, m) {
      forall s | s in AsMap(bindings)
        ensures m.units(AsMap(bindings)[s]).Some? && Affordable(source * 64, m.units(AsMap(bindings)[s]).value)
      {
        var i :| 0 <= i < |bindings| && bindings[i].0 == s;
      }
    }
  }

  lemma AffordableIff(source: nat, units: nat)
    requires source * 64 <= 262_144
    ensures Affordable(source * 64, units) <==> WithinWork(source, units)
  {
    var a, b := source * 64, units * 64;
    if b > U64_MAX {
      assert a > 0 ==> a * U64_MAX >= U64_MAX && a * b >= b;
    }
  }

  // ---- terms under bindings

  /** Every expression means itself. */
  function Terms(): Semantics<Expr> {
    Semantics(e => e, ts => Expr.Add(ts), ts => Expr.Mul(ts), (b, x) => Expr.Pow(b, x), (name, args) => Expr.Function(name, args), (e, env) => e)
  }

  lemma {:induction false} TermsMeanThemselves(e: Expr)
    ensures Value(Terms(), e, s => Sym(s)) == e
  {
    var env := (s: Symbol) => Sym(s);
    if e.Pow? {
      TermsMeanThemselves(e.base);
      TermsMeanThemselves(e.exponent);
    } else if e.Add? || e.Mul? || e.Function? {
      forall i | 0 <= i < |Children(e)| ensures Value(Terms(), Children(e)[i], env) == Children(e)[i] {
        TermsMeanThemselves(Children(e)[i]);
      }
      assert Values(Terms(), Children(e), env) == Children(e);
    }
  }

  /** `after` gives each bound symbol the value of its binding, and every other one what `before` gives it. */
  ghost predicate Binds<V>(sem: Semantics<V>, bindings: seq<(Symbol, Expr)>, before: Symbol -> V, after: Symbol -> V) {
    && (forall i :: 0 <= i < |bindings| ==> after(bindings[i].0) == Value(sem, bindings[i].1, before))
    && forall s :: (forall i :: 0 <= i < |bindings| ==> bindings[i].0 != s) ==> after(s) == before(s)
  }

  lemma {:induction false} EnvironmentsAgree<V(!new)>(sem: Semantics<V>, e: Expr, m: Measures, env1: Symbol -> V, env2: Symbol -> V)
    requires Coincides(sem, m) && forall s :: env1(s) == env2(s)
    ensures Value(sem, e, env1) == Value(sem, e, env2)
  {
    if e.Pow? {
      EnvironmentsAgree(sem, e.base, m, env1, env2);
      EnvironmentsAgree(sem, e.exponent, m, env1, env2);
    } else if e.Add? || e.Mul? || e.Function? {
      forall i | 0 <= i < |Children(e)| ensures Value(sem, Children(e)[i], env1) == Value(sem, Children(e)[i], env2) {
        EnvironmentsAgree(sem, Children(e)[i], m, env1, env2);
      }
      assert Values(sem, Children(e), env1) == Values(sem, Children(e), env2);
    }
  }

  lemma {:induction false} MapHolds(bindings: seq<(Symbol, Expr)>, i: nat)
    requires i < |bindings| && forall j, k :: 0 <= j < k < |bindings| ==> bindings[j].0 != bindings[k].0
    ensures bindings[i].0 in AsMap(bindings) && AsMap(bindings)[bindings[i].0] == bindings[i].1
  {
    if i < |bindings| - 1 { MapHolds(bindings[..|bindings| - 1], i); }
  }

  lemma {:induction false} OrderedAreDistinct(o: Outside, symbols: set<Symbol>, bindings: seq<(Symbol, Expr)>, i: nat, j: nat)
    requires TotalOrder(o.before) && Canonical(o, symbols, bindings) && i < j < |bindings|
    ensures o.before(bindings[i].0, bindings[j].0) && bindings[i].0 != bindings[j].0
  {
    if i < j - 1 { OrderedAreDistinct(o, symbols, bindings, i, j - 1); }
    assert o.before(bindings[j - 1].0, bindings[j - 1 + 1].0);
  }

  lemma EnvironmentIsUpdated<V(!new)>(sem: Semantics<V>, bindings: seq<(Symbol, Expr)>, before: Symbol -> V, after: Symbol -> V)
    requires Binds(sem, bindings, before, after) && forall j, k :: 0 <= j < k < |bindings| ==> bindings[j].0 != bindings[k].0
    ensures forall s :: after(s) == Updated(sem, before, AsMap(bindings))(s)
  {
    forall s ensures after(s) == Updated(sem, before, AsMap(bindings))(s) {
      if s in AsMap(bindings) {
        var i :| 0 <= i < |bindings| && bindings[i].0 == s;
        MapHolds(bindings, i);
      }
    }
  }

  // ---- the sides of a source

  lemma {:induction false} EqualsIsAt(l: string, rest: string)
    requires '=' !in l
    ensures EqualsAt(l + "=" + rest) == Some(|l|)
  {
    var source := l + "=" + rest;
    if l == [] {
      assert source[0] == '=';
    } else {
      assert source[0] == l[0] && source[1..] == l[1..] + "=" + rest;
      EqualsIsAt(l[1..], rest);
    }
  }

  lemma SidesOfEquation(o: Outside, l: string, t: string)
    requires '=' !in l
    ensures '=' in t ==> Sides(o, l + "=" + t) == Err(ParseFailed)
    ensures '=' !in t ==> Sides(o, l + "=" + t) == if o.parse(o.trim(l)).Some? && o.parse(o.trim(t)).Some? then Ok((o.parse(o.trim(l)).value, o.parse(o.trim(t)).value)) else Err(ParseFailed)
  {
    EqualsIsAt(l, t);
    assert (l + "=" + t)[..|l|] == l && (l + "=" + t)[|l| + 1..] == t;
  }

  // ---- what a record must say

  /** The record is about the two expressions: it binds only what they have free, in order, and states them with the bindings put in. */
  ghost predicate StatesSides(o: Outside, r: ClaimRecord, a: Expr, b: Expr, env: Symbol -> Expr) {
    && Canonical(o, o.free(a) + o.free(b), r.bindings)
    && Affords(a, b, r.bindings, o.measures())
    && !MeetsBlocked(a, AsMap(r.bindings), o.measures()) && !MeetsBlocked(b, AsMap(r.bindings), o.measures())
    && r.statement == Derivations.Equality(Value(Terms(), a, env), Value(Terms(), b, env))
  }

  lemma SubstitutedIsValue(e: Expr, bindings: seq<(Symbol, Expr)>, m: Measures, env: Symbol -> Expr)
    requires Binds(Terms(), bindings, s => Sym(s), env) && Substitute(e, AsMap(bindings), m).Ok?
    requires forall j, k :: 0 <= j < k < |bindings| ==> bindings[j].0 != bindings[k].0
    ensures Substitute(e, AsMap(bindings), m).value == Value(Terms(), e, env)
  {
    var own := (s: Symbol) => Sym(s);
    hide Binds, Substitute;
    EnvironmentIsUpdated(Terms(), bindings, own, env);
    SubstitutionIsSimultaneous(Terms(), e, own, AsMap(bindings), m);
    TermsMeanThemselves(Substitute(e, AsMap(bindings), m).value);
    hide Updated, Value;
    EnvironmentsAgree(Terms(), e, m, env, Updated(Terms(), own, AsMap(bindings)));
  }

  lemma StatesSidesIff(o: Outside, r: ClaimRecord, a: Expr, b: Expr, env: Symbol -> Expr)
    requires TotalOrder(o.before) && Binds(Terms(), r.bindings, s => Sym(s), env)
    requires Sides(o, r.source) == Ok((a, b))
    ensures Means(o, r) <==> Preflight(o, r) && StatesSides(o, r, a, b, env)
  {
    hide Sides, Binds, Preflight, TotalOrder, Substitute, Value, MeetsBlocked, Affords, Fits;
    var bindings, m := AsMap(r.bindings), o.measures();
    RefusesExactlyUnderBinders(a, bindings, m);
    RefusesExactlyUnderBinders(b, bindings, m);
    if Canonical(o, o.free(a) + o.free(b), r.bindings) {
      forall j, k | 0 <= j < k < |r.bindings| ensures r.bindings[j].0 != r.bindings[k].0 {
        OrderedAreDistinct(o, o.free(a) + o.free(b), r.bindings, j, k);
      }
      FitsIff(a, b, r.bindings, m);
      if Answer(a, b, bindings, m).Ok? {
        SubstitutedIsValue(a, r.bindings, m, env);
        SubstitutedIsValue(b, r.bindings, m, env);
      }
    }
  }

  /** An equation states its left side on the left and its right side on the right, each with the bindings put in. */
  lemma EquationMeans(o: Outside, r: ClaimRecord, l: string, t: string, env: Symbol -> Expr)
    requires TotalOrder(o.before) && Binds(Terms(), r.bindings, s => Sym(s), env)
    requires r.source == l + "=" + t && '=' !in l && '=' !in t
    ensures Means(o, r) <==>
      && Preflight(o, r) && o.parse(o.trim(l)).Some? && o.parse(o.trim(t)).Some?
      && StatesSides(o, r, o.parse(o.trim(l)).value, o.parse(o.trim(t)).value, env)
  {
    SidesOfEquation(o, l, t);
    hide Sides, Binds, Preflight, TotalOrder, StatesSides;
    if o.parse(o.trim(l)).Some? && o.parse(o.trim(t)).Some? {
      StatesSidesIff(o, r, o.parse(o.trim(l)).value, o.parse(o.trim(t)).value, env);
    }
  }

  /** An expression alone is read as it stands and stated equal to itself. */
  lemma ExpressionMeans(o: Outside, r: ClaimRecord, env: Symbol -> Expr)
    requires TotalOrder(o.before) && Binds(Terms(), r.bindings, s => Sym(s), env)
    requires '=' !in r.source
    ensures Means(o, r) <==>
      && Preflight(o, r) && o.parse(r.source).Some? && StatesSides(o, r, o.parse(r.source).value, o.parse(r.source).value, env)
  {
    hide Binds, Preflight, TotalOrder, StatesSides;
    if o.parse(r.source).Some? {
      StatesSidesIff(o, r, o.parse(r.source).value, o.parse(r.source).value, env);
    }
  }

  lemma InPrefix(s: string, p: nat, i: nat)
    requires p <= |s| && i < |s|
    ensures i < p ==> s[i] in s[..p]
  {
    if i < p { assert s[..p][i] == s[i]; }
  }

  /** Two equals signs state nothing. */
  lemma SeveralEqualsAreRefused(o: Outside, r: ClaimRecord, i: nat, j: nat)
    requires i < j < |r.source| && r.source[i] == '=' && r.source[j] == '='
    ensures !Means(o, r)
  {
    var p := EqualsAt(r.source).value;
    InPrefix(r.source, p, i);
    assert r.source[p + 1..][j - p - 1] == '=';
  }

  /** In every reading of the symbols, the two sides of the statement have the values of the two sides of the source. */
  lemma StatementHasItsSource<V(!new)>(o: Outside, r: ClaimRecord, l: string, t: string, sem: Semantics<V>, before: Symbol -> V, after: Symbol -> V)
    requires TotalOrder(o.before) && Means(o, r) && r.source == l + "=" + t && '=' !in l && '=' !in t
    requires Coincides(sem, o.measures()) && Binds(sem, r.bindings, before, after)
    ensures o.parse(o.trim(l)).Some? && o.parse(o.trim(t)).Some? && r.statement.Equality?
    ensures Value(sem, r.statement.lhs, before) == Value(sem, o.parse(o.trim(l)).value, after)
    ensures Value(sem, r.statement.rhs, before) == Value(sem, o.parse(o.trim(t)).value, after)
  {
    SidesOfEquation(o, l, t);
    hide Sides, TotalOrder, Binds, Substitute, Value, Preflight;
    var a, b, m, bindings := o.parse(o.trim(l)).value, o.parse(o.trim(t)).value, o.measures(), AsMap(r.bindings);
    forall j, k | 0 <= j < k < |r.bindings| ensures r.bindings[j].0 != r.bindings[k].0 {
      OrderedAreDistinct(o, o.free(a) + o.free(b), r.bindings, j, k);
    }
    EnvironmentIsUpdated(sem, r.bindings, before, after);
    SubstitutionIsSimultaneous(sem, a, before, bindings, m);
    SubstitutionIsSimultaneous(sem, b, before, bindings, m);
    hide Updated;
    EnvironmentsAgree(sem, a, m, after, Updated(sem, before, bindings));
    EnvironmentsAgree(sem, b, m, after, Updated(sem, before, bindings));
  }
}
