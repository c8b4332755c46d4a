/** Substituting the frozen bindings of a claim: bounded, simultaneous, and refusing under binders. */
module BoundedSubstitution {
  import opened Wrappers
  import opened Sequences
  import opened Exprs
  import DerivationLimits

  const MAX_WORK: nat := 262_144
  const UNIT: nat := DerivationLimits.UNIT

  datatype Refusal = ExportLimit | UnsupportedSubstitution

  function Saturated(n: nat): nat {
    if n > U64_MAX then U64_MAX else n
  }

  predicate IsBinder(name: string) {
    name in {"Lambda", "Sum", "Product", "Integral", "Subs", "Derivative", "diff"}
  }

  /** What the substitution is told of the rest of the system: the free symbols, and the size measure, of an expression. */
  datatype Measures = Measures(free: Expr -> set<Symbol>, units: Expr -> Option<nat>)

  predicate Blocked(e: Expr, bindings: map<Symbol, Expr>, m: Measures) {
    e.Function? && IsBinder(e.name) && m.free(e) * bindings.Keys != {}
  }

  /** Some binder outside every other binder has a bound symbol free. */
  predicate MeetsBlocked(e: Expr, bindings: map<Symbol, Expr>, m: Measures) {
    if e.Function? && IsBinder(e.name) then Blocked(e, bindings, m)
    else exists i | 0 <= i < |Children(e)| :: MeetsBlocked(Children(e)[i], bindings, m)
  }

  /** The recursion over the tree; nothing is evaluated on the way. */
  function Substitute(e: Expr, bindings: map<Symbol, Expr>, m: Measures): (r: Result<Expr, Refusal>)
    ensures r.Err? ==> r.error == UnsupportedSubstitution
  {
    match e
    case Sym(s) => Ok(if s in bindings then bindings[s] else e)
    case Add(ts) => (
      var rs := SubstituteAll(ts, bindings, m);
      if rs.Err? then Err(rs.error) else Ok(Add(rs.value)))
    case Mul(ts) => (
      var rs := SubstituteAll(ts, bindings, m);
      if rs.Err? then Err(rs.error) else Ok(Mul(rs.value)))
    case Pow(b, x) => (
      var b' := Substitute(b, bindings, m);
      if b'.Err? then b'
      else
        var x' := Substitute(x, bindings, m);
        if x'.Err? then x' else Ok(Pow(b'.value, x'.value)))
    case Function(name, args) => (
      if IsBinder(name) then (if Blocked(e, bindings, m) then Err(UnsupportedSubstitution) else Ok(e))
      else
        var rs := SubstituteAll(args, bindings, m);
        if rs.Err? then Err(rs.error) else Ok(Function(name, rs.value)))
    case _ => Ok(e)
  }

  function SubstituteAll(es: seq<Expr>, bindings: map<Symbol, Expr>, m: Measures): (r: Result<seq<Expr>, Refusal>)
    ensures r.Ok? ==> |r.value| == |es|
    ensures r.Ok? <==> forall i | 0 <= i < |es| :: Substitute(es[i], bindings, m).Ok?
    ensures r.Ok? ==> forall i | 0 <= i < |es| :: Substitute(es[i], bindings, m) == Ok(r.value[i])
    ensures r.Err? ==> r.error == UnsupportedSubstitution
  {
    if es == [] then Ok([])
    else
      var first := Substitute(es[0], bindings, m);
      if first.Err? then Err(first.error)
      else
        var rest := SubstituteAll(es[1..], bindings, m);
        assert forall i | 1 <= i < |es| :: es[i] == es[1..][i - 1];
        if rest.Err? then rest else Ok([first.value] + rest.value)
  }

  /** It refuses exactly at such binders. */
  lemma {:induction false} RefusesExactlyUnderBinders(e: Expr, bindings: map<Symbol, Expr>, m: Measures)
    ensures Substitute(e, bindings, m).Err? <==> MeetsBlocked(e, bindings, m)
  {
    if e.Pow? {
      RefusesExactlyUnderBinders(e.base, bindings, m);
      RefusesExactlyUnderBinders(e.exponent, bindings, m);
      var c := Children(e);
      assert c[0] == e.base && c[1] == e.exponent && |c| == 2;
      assert MeetsBlocked(e, bindings, m) <==> MeetsBlocked(c[0], bindings, m) || MeetsBlocked(c[1], bindings, m);
    } else if e.Add? || e.Mul? || e.Function? {
      forall i | 0 <= i < |Children(e)| ensures Substitute(Children(e)[i], bindings, m).Err? <==> MeetsBlocked(Children(e)[i], bindings, m) {
        RefusesExactlyUnderBinders(Children(e)[i], bindings, m);
      }
      hide MeetsBlocked;
      assert SubstituteAll(Children(e), bindings, m).Err? <==> exists i | 0 <= i < |Children(e)| :: MeetsBlocked(Children(e)[i], bindings, m);
    }
  }

  // ---- meaning

  /** A compositional meaning, with an arbitrary one for the operators that bind. */
  datatype Semantics<!V> = Semantics(
    constant: Expr -> V,
    sum: seq<V> -> V,
    product: seq<V> -> V,
    power: (V, V) -> V,
    apply: (string, seq<V>) -> V,
    binder: (Expr, Symbol -> V) -> V)

  function Value<V>(sem: Semantics<V>, e: Expr, env: Symbol -> V): V {
    match e
    case Sym(s) => env(s)
    case Add(ts) => sem.sum(Values(sem, ts, env))
    case Mul(ts) => sem.product(Values(sem, ts, env))
    case Pow(b, x) => sem.power(Value(sem, b, env), Value(sem, x, env))
    case Function(name, args) => if IsBinder(name) then sem.binder(e, env) else sem.apply(name, Values(sem, args, env))
    case _ => sem.constant(e)
  }

  function Values<V>(sem: Semantics<V>, es: seq<Expr>, env: Symbol -> V): (vs: seq<V>)
    ensures |vs| == |es| && forall i | 0 <= i < |es| :: vs[i] == Value(sem, es[i], env)
  {
    if es == [] then []
    else
      assert forall i | 1 <= i < |es| :: es[i] == es[1..][i - 1];
      [Value(sem, es[0], env)] + Values(sem, es[1..], env)
  }

  /** What a binding operator means depends on its free symbols only. */
  ghost predicate Coincides<V(!new)>(sem: Semantics<V>, m: Measures) {
    forall e: Expr, env1: Symbol -> V, env2: Symbol -> V ::
      (forall s :: s in m.free(e) ==> env1(s) == env2(s)) ==> sem.binder(e, env1) == sem.binder(e, env2)
  }

  /** The environment in which each bound symbol has the value of its binding. */
  function Updated<V>(sem: Semantics<V>, env: Symbol -> V, bindings: map<Symbol, Expr>): Symbol -> V {
    s => if s in bindings then Value(sem, bindings[s], env) else env(s)
  }

  /** The result means, in any environment, what the source means with every binding's value in place: a simultaneous substitution. */
  lemma {:induction false} SubstitutionIsSimultaneous<V(!new)>(sem: Semantics<V>, e: Expr, env: Symbol -> V, bindings: map<Symbol, Expr>, m: Measures)
    requires Coincides(sem, m) && Substitute(e, bindings, m).Ok?
    ensures Value(sem, Substitute(e, bindings, m).value, env) == Value(sem, e, Updated(sem, env, bindings))
  {
    if e.Function? && IsBinder(e.name) {
      forall s | s in m.free(e) ensures env(s) == Updated(sem, env, bindings)(s) {
        assert s in bindings.Keys ==> s in m.free(e) * bindings.Keys;
      }
    } else if e.Pow? {
      SubstitutionIsSimultaneous(sem, e.base, env, bindings, m);
      SubstitutionIsSimultaneous(sem, e.exponent, env, bindings, m);
    } else if e.Add? || e.Mul? || e.Function? {
      AllSimultaneous(sem, Children(e), env, bindings, m);
    }
  }

  lemma {:induction false} AllSimultaneous<V(!new)>(sem: Semantics<V>, es: seq<Expr>, env: Symbol -> V, bindings: map<Symbol, Expr>, m: Measures)
    requires Coincides(sem, m) && SubstituteAll(es, bindings, m).Ok?
    ensures Values(sem, SubstituteAll(es, bindings, m).value, env) == Values(sem, es, Updated(sem, env, bindings))
  {
    forall i | 0 <= i < |es|
      ensures Value(sem, SubstituteAll(es, bindings, m).value[i], env) == Value(sem, es[i], Updated(sem, env, bindings))
    {
      SubstitutionIsSimultaneous(sem, es[i], env, bindings, m);
    }
  }

  // ---- size

  ghost predicate AtMostTimes(a: nat, b: nat, factor: nat) {
    a <= b * factor
  }

  lemma TimesAdds(a: nat, b: nat, c: nat, d: nat, factor: nat)
    requires AtMostTimes(a, b, factor) && AtMostTimes(c, d, factor)
    ensures AtMostTimes(a + c, b + d, factor)
  {
    assert (b + d) * factor == b * factor + d * factor;
  }

  lemma OnceAtLeast(a: nat, factor: nat)
    requires a <= factor
    ensures AtMostTimes(a, 1, factor)
  {
  }

  /** A substitution multiplies the size by no more than the largest binding. */
  lemma {:induction false} SizeIsMultiplied(e: Expr, bindings: map<Symbol, Expr>, m: Measures, factor: nat)
    requires Substitute(e, bindings, m).Ok? && factor >= 1 && forall s :: s in bindings ==> Size(bindings[s]) <= factor
    ensures AtMostTimes(Size(Substitute(e, bindings, m).value), Size(e), factor)
    decreases e, 1
  {
    OnceAtLeast(1, factor);
    hide AtMostTimes;
    if e.Sym? {
      if e.symbol in bindings { OnceAtLeast(Size(bindings[e.symbol]), factor); }
    } else if e.Function? && IsBinder(e.name) {
      SizeGrowsByOne(Size(e), factor);
    } else if e.Pow? {
      SizeIsMultiplied(e.base, bindings, m, factor);
      SizeIsMultiplied(e.exponent, bindings, m, factor);
      var b, x := Substitute(e.base, bindings, m).value, Substitute(e.exponent, bindings, m).value;
      TimesAdds(Size(b), Size(e.base), Size(x), Size(e.exponent), factor);
      TimesAdds(1, 1, Size(b) + Size(x), Size(e.base) + Size(e.exponent), factor);
    } else if e.Add? || e.Mul? || e.Function? {
      SizesAreMultiplied(Children(e), bindings, m, factor);
      TimesAdds(1, 1, SizeAll(SubstituteAll(Children(e), bindings, m).value), SizeAll(Children(e)), factor);
    }
  }

  lemma SizeGrowsByOne(n: nat, factor: nat)
    requires factor >= 1
    ensures AtMostTimes(n, n, factor)
  {
  }

  lemma {:induction false} SizesAreMultiplied(es: seq<Expr>, bindings: map<Symbol, Expr>, m: Measures, factor: nat)
    requires SubstituteAll(es, bindings, m).Ok? && factor >= 1 && forall s :: s in bindings ==> Size(bindings[s]) <= factor
    ensures AtMostTimes(SizeAll(SubstituteAll(es, bindings, m).value), SizeAll(es), factor)
    decreases es, 0
  {
    if es == [] {
      assert SizeAll(es) == 0;
    } else {
      SizeIsMultiplied(es[0], bindings, m, factor);
      SizesAreMultiplied(es[1..], bindings, m, factor);
      hide AtMostTimes;
      var first, rest := Substitute(es[0], bindings, m).value, SubstituteAll(es[1..], bindings, m).value;
      assert SubstituteAll(es, bindings, m).value == [first] + rest;
      assert ([first] + rest)[1..] == rest;
      TimesAdds(Size(first), Size(es[0]), SizeAll(rest), SizeAll(es[1..]), factor);
    }
  }

  // ---- the bounded operation

  /** Each unit of the measure stands for at most 64 nodes. */
  ghost predicate UnitsBoundSize(m: Measures) {
    forall e: Expr :: m.units(e).Some? ==> Size(e) <= UNIT * m.units(e).value
  }

  function SourceUnits(l: nat, r: nat): nat {
    Saturated(Saturated(l + r) * UNIT)
  }

  /** Both sides, and each binding against both sides, are measured and stay within the work limit. */
  ghost predicate Fits(lhs: Expr, rhs: Expr, bindings: map<Symbol, Expr>, m: Measures) {
    && m.units(lhs).Some? && m.units(rhs).Some?
    && var source := SourceUnits(m.units(lhs).value, m.units(rhs).value);
      && source <= MAX_WORK
      && forall s :: s in bindings ==> m.units(bindings[s]).Some? && Affordable(source, m.units(bindings[s]).value)
  }

  ghost predicate Affordable(source: nat, units: nat) {
    Saturated(source * Saturated(units * UNIT)) <= MAX_WORK
  }

  lemma AffordableIsMonotone(source: nat, a: nat, b: nat)
    requires a <= b && Saturated(source * b) <= MAX_WORK
    ensures Saturated(source * a) <= MAX_WORK
  {
    assert source * a <= source * b;
  }

  ghost function Answer(lhs: Expr, rhs: Expr, bindings: map<Symbol, Expr>, m: Measures): Result<(Expr, Expr), Refusal> {
    if !Fits(lhs, rhs, bindings, m) then Err(ExportLimit)
    else
      var l := Substitute(lhs, bindings, m);
      if l.Err? then Err(l.error)
      else
        var r := Substitute(rhs, bindings, m);
        if r.Err? then Err(r.error) else Ok((l.value, r.value))
  }

  /** The bounds are settled before anything is substituted, whatever order the bindings are met in. */
  method SubstituteBounded(lhs: Expr, rhs: Expr, bindings: map<Symbol, Expr>, m: Measures) returns (r: Result<(Expr, Expr), Refusal>)
    ensures r == Answer(lhs, rhs, bindings, m)
  {
    var l, h := m.units(lhs), m.units(rhs);
    if l.None? || h.None? { return Err(ExportLimit); }
    var source := SourceUnits(l.value, h.value);
    var replacement, left := 1, bindings.Keys;
    while left != {}
      invariant left <= bindings.Keys && replacement >= 1
      invariant forall s :: s in bindings.Keys - left ==> m.units(bindings[s]).Some? && Saturated(m.units(bindings[s]).value * UNIT) <= replacement
      invariant replacement == 1 || exists s :: s in bindings && m.units(bindings[s]).Some? && replacement == Saturated(m.units(bindings[s]).value * UNIT)
      decreases |left|
    {
      var s :| s in left;
      var units := m.units(bindings[s]);
      if units.None? { return Err(ExportLimit); }
      replacement := if replacement < Saturated(units.value * UNIT) then Saturated(units.value * UNIT) else replacement;
      left := left - {s};
    }
    MaximumDecides(source, replacement, bindings, m);
    if Saturated(source * replacement) > MAX_WORK { return Err(ExportLimit); }
    var l' := Substitute(lhs, bindings, m);
    if l'.Err? { return Err(l'.error); }
    var r' := Substitute(rhs, bindings, m);
    r := if r'.Err? then Err(r'.error) else Ok((l'.value, r'.value));
  }

  lemma MaximumDecides(source: nat, replacement: nat, bindings: map<Symbol, Expr>, m: Measures)
    requires replacement >= 1
    requires forall s :: s in bindings ==> m.units(bindings[s]).Some? && Saturated(m.units(bindings[s]).value * UNIT) <= replacement
    requires replacement == 1 || exists s :: s in bindings && m.units(bindings[s]).Some? && replacement == Saturated(m.units(bindings[s]).value * UNIT)
    ensures Saturated(source * replacement) <= MAX_WORK
      <==> source <= MAX_WORK && forall s :: s in bindings ==> Affordable(source, m.units(bindings[s]).value)
  {
    if Saturated(source * replacement) <= MAX_WORK {
      AffordableIsMonotone(source, 1, replacement);
      forall s | s in bindings ensures Affordable(source, m.units(bindings[s]).value) {
        AffordableIsMonotone(source, Saturated(m.units(bindings[s]).value * UNIT), replacement);
      }
    }
  }

  /** Together the two results have at most as many nodes as the work limit. */
  lemma AnswerIsBounded(lhs: Expr, rhs: Expr, bindings: map<Symbol, Expr>, m: Measures)
    requires UnitsBoundSize(m) && Answer(lhs, rhs, bindings, m).Ok?
    ensures var (l, r) := Answer(lhs, rhs, bindings, m).value; Size(l) + Size(r) <= MAX_WORK
  {
    var l, r := Substitute(lhs, bindings, m).value, Substitute(rhs, bindings, m).value;
    assert Answer(lhs, rhs, bindings, m).value == (l, r);
    var source := SourceUnits(m.units(lhs).value, m.units(rhs).value);
    SourceIsMeasured(lhs, rhs, m);
    hide Answer, Substitute, Size, SourceUnits, Affordable;
    var factor := LargestBinding(bindings, source, m);
    SizeIsMultiplied(lhs, bindings, m, factor);
    SizeIsMultiplied(rhs, bindings, m, factor);
    TimesAdds(Size(l), Size(lhs), Size(r), Size(rhs), factor);
    StaysBelow(Size(l) + Size(r), Size(lhs) + Size(rhs), source, factor);
  }

  lemma SourceIsMeasured(lhs: Expr, rhs: Expr, m: Measures)
    requires UnitsBoundSize(m) && m.units(lhs).Some? && m.units(rhs).Some?
    ensures SourceUnits(m.units(lhs).value, m.units(rhs).value) <= MAX_WORK
      ==> Size(lhs) + Size(rhs) <= SourceUnits(m.units(lhs).value, m.units(rhs).value)
  {
    assert Size(lhs) <= UNIT * m.units(lhs).value && Size(rhs) <= UNIT * m.units(rhs).value;
    hide Size;
  }

  lemma StaysBelow(a: nat, size: nat, source: nat, factor: nat)
    requires AtMostTimes(a, size, factor) && size <= source && source * factor <= MAX_WORK
    ensures a <= MAX_WORK
  {
    assert size * factor <= source * factor;
  }

  /** The size of the largest binding, or one: still affordable. */
  lemma {:induction false} LargestBinding(bindings: map<Symbol, Expr>, source: nat, m: Measures) returns (factor: nat)
    requires UnitsBoundSize(m) && source <= MAX_WORK
    requires forall s :: s in bindings ==> m.units(bindings[s]).Some? && Affordable(source, m.units(bindings[s]).value)
    ensures factor >= 1 && source * factor <= MAX_WORK
    ensures forall s :: s in bindings ==> Size(bindings[s]) <= factor
    decreases |bindings|
  {
    if bindings == map[] {
      factor := 1;
    } else {
      var s :| s in bindings;
      var rest := bindings - {s};
      assert rest.Keys == bindings.Keys - {s};
      var f := LargestBinding(rest, source, m);
      factor := if f < Size(bindings[s]) then Size(bindings[s]) else f;
      forall t | t in bindings ensures Size(bindings[t]) <= factor {
        if t != s { assert t in rest && rest[t] == bindings[t]; }
      }
      BindingIsAffordable(source, Size(bindings[s]), m.units(bindings[s]).value);
    }
  }

  lemma BindingIsAffordable(source: nat, size: nat, units: nat)
    requires Affordable(source, units) && size <= UNIT * units
    ensures source * size <= MAX_WORK
  {
    if source > 0 {
      var u := units * UNIT;
      assert u > U64_MAX ==> source * U64_MAX >= U64_MAX;
      assert source * size <= source * u;
    }
  }
}
