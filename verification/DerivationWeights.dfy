/** The counters of the preflight are sums over the nodes of what is checked. */
module DerivationWeights {
  import opened Wrappers
  import opened Sequences
  import opened Exprs
  import opened Derivations
  import opened Symbols
  import opened DerivationLimits

  /** The sum of `f` over all nodes. */
  ghost function Tally(e: Expr, f: Expr -> nat): nat
    decreases e, 1
  {
    f(e) + TallyFirst(e, f, |Children(e)|)
  }

  ghost function TallyFirst(e: Expr, f: Expr -> nat, k: nat): nat
    requires k <= |Children(e)|
    decreases e, 0, k
  {
    if k == 0 then 0 else TallyFirst(e, f, k - 1) + Tally(Children(e)[k - 1], f)
  }

  function Bytes(g: Gauges, e: Expr): nat {
    if e.Sym? then g.bytes(e.symbol.name) else if e.Function? then g.bytes(e.name) else 0
  }

  function Limbs(g: Gauges, e: Expr): nat {
    if e.Integer? then g.limbs(e.value) else if e.Rational? then g.limbs(e.ratio.numer) + g.limbs(e.ratio.denom) else 0
  }

  /** One for the node, one for every 64 bytes begun of its name and one for every limb of its numbers, at least one each. */
  function Effort(g: Gauges, e: Expr): nat {
    1 + (if e.Sym? || e.Function? then Blocks(Bytes(g, e)) else if e.Integer? then Positively(g.limbs(e.value))
         else if e.Rational? then Positively(g.limbs(e.ratio.numer)) + Positively(g.limbs(e.ratio.denom)) else 0)
  }

  function Positively(n: nat): nat {
    if n > 1 then n else 1
  }

  function Blocks(bytes: nat): (blocks: nat)
    ensures blocks >= 1 && 64 * blocks >= bytes && (bytes > 0 ==> 64 * (blocks - 1) < bytes) && (bytes == 0 ==> blocks == 1)
  {
    if bytes <= 64 then 1 else 1 + Blocks(bytes - 64)
  }

  lemma {:induction false} BlocksAre(bytes: nat)
    ensures TextWeight(bytes) == Weight(0, bytes, 0, 0, 0, 0, Blocks(bytes))
  {
    var blocks := Blocks(bytes);
    assert bytes > 0 ==> (bytes + 63) / 64 == blocks;
  }

  lemma OwnCounts(g: Gauges, e: Expr)
    ensures Own(g, e) == Weight(1, Bytes(g, e), Limbs(g, e), 0, 0, 0, Effort(g, e))
  {
    if e.Sym? || e.Function? { BlocksAre(Bytes(g, e)); }
    hide Blocks, TextWeight;
  }

  /** Nodes, bytes, limbs and work are counted over all nodes, and nothing else is counted. */
  lemma {:induction false} ExprWeightCounts(g: Gauges, e: Expr)
    ensures ExprWeight(g, e) == Weight(Tally(e, n => 1), Tally(e, n => Bytes(g, n)), Tally(e, n => Limbs(g, n)), 0, 0, 0, Tally(e, n => Effort(g, n)))
    decreases e, 1
  {
    OwnCounts(g, e);
    hide Own, Bytes, Limbs, Effort;
    ChildrenWeightCounts(g, e, |Children(e)|);
  }

  lemma {:induction false} ChildrenWeightCounts(g: Gauges, e: Expr, k: nat)
    requires k <= |Children(e)|
    ensures ChildrenWeight(g, e, k) ==
      Weight(TallyFirst(e, n => 1, k), TallyFirst(e, n => Bytes(g, n), k), TallyFirst(e, n => Limbs(g, n), k), 0, 0, 0, TallyFirst(e, n => Effort(g, n), k))
    decreases e, 0, k
  {
    hide Own, Bytes, Limbs, Effort;
    if k > 0 {
      ChildrenWeightCounts(g, e, k - 1);
      ExprWeightCounts(g, Children(e)[k - 1]);
    }
  }

  lemma {:induction false} TallyOfOnesIsSize(e: Expr)
    ensures Tally(e, n => 1) == Size(e)
    decreases e, 1
  {
    TallyOfSome(e, |Children(e)|);
    FirstIsAll(e);
  }

  /** The sizes of the first `k` subexpressions. */
  ghost function SizeFirst(e: Expr, k: nat): nat
    requires k <= |Children(e)|
  {
    SizeAll(Children(e)[..k])
  }

  lemma {:induction false} TallyOfSome(e: Expr, k: nat)
    requires k <= |Children(e)|
    ensures TallyFirst(e, n => 1, k) == SizeFirst(e, k)
    decreases e, 0, k
  {
    if k > 0 {
      TallyOfSome(e, k - 1);
      TallyOfOnesIsSize(Children(e)[k - 1]);
      assert Children(e)[..k] == Children(e)[..k - 1] + [Children(e)[k - 1]];
      SizeAllSnoc(Children(e)[..k - 1], Children(e)[k - 1]);
    }
  }

  lemma {:induction false} SizeAllSnoc(es: seq<Expr>, e: Expr)
    ensures SizeAll(es + [e]) == SizeAll(es) + Size(e)
  {
    if es == [] {
      assert [] + [e] == [e] && SizeAll([e][1..]) == 0;
    } else {
      assert (es + [e])[1..] == es[1..] + [e];
      SizeAllSnoc(es[1..], e);
    }
  }

  lemma FirstIsAll(e: Expr)
    ensures Size(e) == 1 + SizeFirst(e, |Children(e)|)
  {
    assert Children(e)[..|Children(e)|] == Children(e);
    if e.Integer? || e.Rational? || e.Const? || e.Sym? { assert SizeAll([]) == 0; }
    if e.Pow? {
      var cs := [e.base, e.exponent];
      assert cs[1..] == [e.exponent] && cs[1..][1..] == [];
      assert SizeAll(cs) == Size(e.base) + SizeAll(cs[1..]) && SizeAll(cs[1..]) == Size(e.exponent) + SizeAll(cs[1..][1..]);
    }
  }

  /** An expression is measured exactly when it is at most 256 levels deep and each of its sums keeps to its limit; the measure is its work in 64s, rounded up. */
  lemma MeasuredIff(g: Gauges, e: Expr)
    ensures var text, limbs, work := Tally(e, n => Bytes(g, n)), Tally(e, n => Limbs(g, n)), Tally(e, n => Effort(g, n));
      && (Units(WeighExpr(g, e)).Some? <==>
            (RawWithin(e, 256) && Size(e) <= 262_144 && text <= 1_048_576 && limbs <= 262_144 && work <= 0xFFFF_FFFF_FFFF_FFFF))
      && (Units(WeighExpr(g, e)).Some? ==> Units(WeighExpr(g, e)).value == Blocks(work))
  {
    ExprWeightCounts(g, e);
    TallyOfOnesIsSize(e);
    BlocksAre(Tally(e, n => Effort(g, n)));
    hide Tally, Blocks, ExprWeight, RawWithin, Size;
  }

  /** Of a claim that is weighed elsewhere, each counter keeps to its own limit. */
  lemma OtherClaimMeasuredIff(g: Gauges, tag: nat, w: Weight)
    requires g.otherClaim(tag) == Some(w)
    ensures Units(WeighClaim(g, OtherClaim(tag))).Some? <==>
      && w.nodes <= 262_144 && w.text <= 1_048_576 && w.limbs <= 262_144 && w.references <= 262_144
      && w.domainNodes <= 4_096 && w.generators <= 4_096 && w.work <= 0xFFFF_FFFF_FFFF_FFFF
  {
  }

  // ---- steps

  /** The expressions that a rule holds, the texts, and what more is counted of it. */
  ghost function HeldExprs(f: Form): seq<Expr> {
    match f
    case Reflexivity(e) => [e]
    case Substitute(template, _) => [template]
    case PolynomialNormalForm(lhs, rhs) => [lhs, rhs]
    case _ => []
  }

  ghost function HeldTexts(f: Form): seq<string> {
    match f
    case CongruenceFunction(name) => [name]
    case Substitute(_, x) => [x.name]
    case PolynomialNormalForm(_, _) => ["PolynomialNormalForm"]
    case _ => []
  }

  ghost function ExprsWeight(g: Gauges, es: seq<Expr>): Weight {
    if es == [] then Nothing() else Plus(ExprWeight(g, es[0]), ExprsWeight(g, es[1..]))
  }

  ghost function TextsWeight(g: Gauges, ts: seq<string>): Weight {
    if ts == [] then Nothing() else Plus(Weight(0, g.bytes(ts[0]), 0, 0, 0, 0, Blocks(g.bytes(ts[0]))), TextsWeight(g, ts[1..]))
  }

  ghost predicate Shallow(es: seq<Expr>) {
    forall e :: e in es ==> RawWithin(e, 256)
  }

  /** Cites steps, and says how many it cites. */
  ghost predicate Cites(f: Form) {
    !f.Reflexivity? && !f.PolynomialNormalForm? && !f.Other?
  }

  /** One for the step; the expressions and texts of its rule, both sides of its claim, one for every step cited, and one more for a certificate. */
  lemma StepWeightCounts(g: Gauges, s: Step)
    requires !s.rule.form.Other? && s.claim.Equality?
    ensures var sides := [s.claim.lhs, s.claim.rhs];
      WeighStep(g, s) ==
        if Shallow(HeldExprs(s.rule.form)) && Shallow(sides) then Some(Plus(Work(1), Plus(Held(g, s.rule.form, |s.rule.premises|), ExprsWeight(g, sides))))
        else None
  {
    ExprsOfTwo(g, s.claim.lhs, s.claim.rhs);
    RuleWeightCounts(g, s.rule.form, |s.rule.premises|);
    hide RawWithin, ExprWeight, WeighRule, ExprsWeight, Held, HeldExprs;
  }

  lemma ExprsOfTwo(g: Gauges, a: Expr, b: Expr)
    ensures ExprsWeight(g, [a, b]) == Plus(ExprWeight(g, a), ExprWeight(g, b))
    ensures Shallow([a, b]) <==> RawWithin(a, 256) && RawWithin(b, 256)
  {
    ExprsOfOne(g, b);
    hide ExprWeight, RawWithin;
    assert [a, b][1..] == [b];
  }

  lemma ExprsOfOne(g: Gauges, a: Expr)
    ensures ExprsWeight(g, [a]) == ExprWeight(g, a)
    ensures Shallow([a]) <==> RawWithin(a, 256)
  {
    hide ExprWeight, RawWithin;
    assert [a][1..] == [];
  }

  lemma TextsOfOne(g: Gauges, t: string)
    ensures TextsWeight(g, [t]) == TextWeight(g.bytes(t))
  {
    BlocksAre(g.bytes(t));
    assert [t][1..] == [];
    hide Blocks, TextWeight;
  }

  lemma NoneHeld(g: Gauges)
    ensures ExprsWeight(g, []) == TextsWeight(g, []) == Nothing() && Shallow([])
  {
  }

  /** What is counted of a rule. */
  ghost function Held(g: Gauges, f: Form, count: nat): Weight {
    var cited, extra := if Cites(f) then count else 0, if f.PolynomialNormalForm? then 1 else 0;
    Plus(Weight(0, 0, 0, cited, 0, 0, cited + extra), Plus(ExprsWeight(g, HeldExprs(f)), TextsWeight(g, HeldTexts(f))))
  }

  /** Symmetry, transitivity and the congruences of the built-in operators hold nothing. */
  ghost predicate OnlyCites(f: Form) {
    f.Symmetry? || f.Transitivity? || f.CongruenceAdd? || f.CongruenceMul? || f.CongruencePow?
  }

  lemma HoldsNothing(g: Gauges, f: Form, count: nat)
    requires OnlyCites(f)
    ensures HeldExprs(f) == [] && HeldTexts(f) == [] && WeighRule(g, f, count) == Some(ReferencesWeight(count))
    ensures Cites(f) && !f.PolynomialNormalForm?
  {
    hide ReferencesWeight, ExprWeight, RawWithin;
  }

  lemma CitingRule(g: Gauges, f: Form, count: nat)
    requires OnlyCites(f)
    ensures Shallow(HeldExprs(f)) && WeighRule(g, f, count) == Some(Held(g, f, count))
  {
    hide WeighRule, HeldExprs, HeldTexts, OnlyCites, Cites, ExprsWeight, TextsWeight, Shallow, Plus, Nothing, ReferencesWeight;
    HoldsNothing(g, f, count);
    NoneHeld(g);
    PlusNothing(Nothing());
    ReferencesAre(count);
  }

  lemma ReferencesAre(count: nat)
    ensures Plus(Weight(0, 0, 0, count, 0, 0, count + 0), Nothing()) == ReferencesWeight(count)
  {
  }

  lemma FunctionRule(g: Gauges, name: string, count: nat)
    ensures var f := CongruenceFunction(name); Shallow(HeldExprs(f)) && WeighRule(g, f, count) == Some(Held(g, f, count))
  {
    var f := CongruenceFunction(name);
    assert HeldExprs(f) == [] && HeldTexts(f) == [name];
    hide HeldExprs, HeldTexts, ExprsWeight, TextsWeight, Shallow, Blocks, TextWeight;
    NoneHeld(g);
    TextsOfOne(g, name);
  }

  lemma ReflexivityRule(g: Gauges, e: Expr, count: nat)
    ensures var f := Reflexivity(e); WeighRule(g, f, count) == if Shallow(HeldExprs(f)) then Some(Held(g, f, count)) else None
  {
    NoneHeld(g);
    ExprsOfOne(g, e);
    hide Blocks, TextWeight, ExprsWeight, TextsWeight, RawWithin, ExprWeight, Shallow;
  }

  lemma SubstituteRule(g: Gauges, template: Expr, x: Symbol, count: nat)
    ensures var f := Substitute(template, x); WeighRule(g, f, count) == if Shallow(HeldExprs(f)) then Some(Held(g, f, count)) else None
  {
    TextsOfOne(g, x.name);
    ExprsOfOne(g, template);
    hide Blocks, TextWeight, ExprsWeight, TextsWeight, RawWithin, ExprWeight, Shallow;
  }

  lemma NormalFormRule(g: Gauges, lhs: Expr, rhs: Expr, count: nat)
    ensures var f := PolynomialNormalForm(lhs, rhs); WeighRule(g, f, count) == if Shallow(HeldExprs(f)) then Some(Held(g, f, count)) else None
  {
    TextsOfOne(g, "PolynomialNormalForm");
    ExprsOfTwo(g, lhs, rhs);
    hide Blocks, TextWeight, ExprsWeight, TextsWeight, RawWithin, ExprWeight, Shallow;
  }

  lemma RuleWeightCounts(g: Gauges, f: Form, count: nat)
    requires !f.Other?
    ensures WeighRule(g, f, count) == if Shallow(HeldExprs(f)) then Some(Held(g, f, count)) else None
  {
    hide WeighRule, Held, HeldExprs, Shallow;
    match f
    case Reflexivity(e) => ReflexivityRule(g, e, count);
    case Substitute(template, x) => SubstituteRule(g, template, x, count);
    case PolynomialNormalForm(lhs, rhs) => NormalFormRule(g, lhs, rhs, count);
    case CongruenceFunction(name) => FunctionRule(g, name, count);
    case _ => CitingRule(g, f, count);
  }
}
