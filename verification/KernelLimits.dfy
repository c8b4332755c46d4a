/** How much larger a proof is than its parts, and what the verifier therefore refuses of what the kernel proves. */
module KernelLimits {
  import opened Wrappers
  import opened Exprs
  import opened Symbols
  import opened Derivations
  import opened DerivationLimits
  import opened ProofKernel

  /** The weight of a Symmetry step apart from its claim. */
  function Turn(): Weight {
    ReferencesWeight(1)
  }

  function Twice(w: Weight): Weight {
    Plus(w, w)
  }

  function Thrice(w: Weight): Weight {
    Plus(Twice(w), w)
  }

  lemma StepWeight(g: Gauges, s: Step)
    ensures WeighStep(g, s) == Both(Some(Work(1)), WeighRecord(g, s.rule.form, |s.rule.premises|, s.claim))
  {
    hide WeighRecord;
  }

  lemma OneStep(g: Gauges, a: Step)
    ensures WeighSteps(g, [a]) == WeighStep(g, a)
  {
    hide WeighStep;
    assert [a][..0] == [];
    if WeighStep(g, a).Some? { PlusNothing(WeighStep(g, a).value); PlusAssociates(Nothing(), WeighStep(g, a).value, Nothing()); }
  }

  lemma TwoSteps(g: Gauges, a: Step, b: Step)
    ensures WeighSteps(g, [a, b]) == Both(WeighStep(g, a), WeighStep(g, b))
  {
    hide WeighStep;
    OneStep(g, a);
    assert [a, b][..1] == [a];
  }

  lemma ThreeSteps(g: Gauges, a: Step, b: Step, c: Step)
    ensures WeighSteps(g, [a, b, c]) == Both(Both(WeighStep(g, a), WeighStep(g, b)), WeighStep(g, c))
  {
    hide WeighStep;
    TwoSteps(g, a, b);
    assert [a, b, c][..2] == [a, b];
  }

  /** A claim of two shallow sides, and the records made of it. */
  lemma Records(g: Gauges, lhs: Expr, rhs: Expr)
    ensures var shallow := RawWithin(lhs, MAX_DERIVATION_EXPR_DEPTH) && RawWithin(rhs, MAX_DERIVATION_EXPR_DEPTH);
      var both := Plus(ExprWeight(g, lhs), ExprWeight(g, rhs));
      && WeighRecord(g, Symmetry, 1, Equality(lhs, rhs)) == (if shallow then Some(Plus(Turn(), both)) else None)
      && WeighRecord(g, PolynomialNormalForm(lhs, rhs), 0, Equality(lhs, rhs)) == (if shallow then Some(Plus(LeafRule(g), Twice(both))) else None)
      && (lhs == rhs ==> WeighRecord(g, Reflexivity(lhs), 0, Equality(lhs, rhs)) == (if shallow then Some(Thrice(ExprWeight(g, lhs))) else None))
  {
    hide ExprWeight, RawWithin;
  }

  /** The weight of a normal-form rule apart from its sides. */
  function LeafRule(g: Gauges): Weight {
    Plus(TextWeight(g.bytes("PolynomialNormalForm")), Work(1))
  }

  lemma ProofWeighed(k: Rules, lhs: Expr, rhs: Expr)
    requires lhs == rhs || k.sameNormalForm(lhs, rhs)
    ensures Verified(k, ProofOf(lhs, rhs)).Some? <==> Bearable(WeighSteps(k.gauges, ProofOf(lhs, rhs).steps))
  {
    hide WeighSteps, AllCheck, Bearable;
    ProofChecks(k, lhs, rhs);
  }

  lemma ProvableByRecords(k: Rules, lhs: Expr, rhs: Expr)
    ensures Provable(k, lhs, rhs) <==>
      && (lhs == rhs || k.sameNormalForm(lhs, rhs))
      && Bearable(WeighRecord(k.gauges, if lhs == rhs then Reflexivity(lhs) else PolynomialNormalForm(lhs, rhs), 0, Equality(lhs, rhs)))
      && Bearable(WeighRecord(k.gauges, Symmetry, 1, Equality(rhs, lhs)))
      && Bearable(WeighRecord(k.gauges, Symmetry, 1, Equality(lhs, rhs)))
  {
    hide Bearable, WeighRecord;
    var steps := ProofOf(lhs, rhs).steps;
    assert Provable(k, lhs, rhs) <==> (lhs == rhs || k.sameNormalForm(lhs, rhs)) && forall i :: 0 <= i < |steps| ==> Fits(k, steps[i]);
    assert Fits(k, steps[0]) <==> Bearable(WeighRecord(k.gauges, steps[0].rule.form, 0, steps[0].claim));
    assert Fits(k, steps[1]) <==> Bearable(WeighRecord(k.gauges, Symmetry, 1, Equality(rhs, lhs)));
    if lhs != rhs { assert Fits(k, steps[2]) <==> Bearable(WeighRecord(k.gauges, Symmetry, 1, Equality(lhs, rhs))); }
  }

  /** Three copies of an expression for the first step, and two for the second. */
  lemma SumOfTwo(w: Weight, s: Weight, t: Weight)
    ensures Plus(Plus(s, Thrice(w)), Plus(s, Plus(t, Plus(w, w)))) == Plus(Plus(Thrice(w), Twice(w)), Plus(t, Twice(s)))
  {
  }

  lemma ReflexiveWeight(g: Gauges, e: Expr)
    ensures WeighSteps(g, ProofOf(e, e).steps) ==
      if RawWithin(e, MAX_DERIVATION_EXPR_DEPTH) then Some(Plus(Plus(Thrice(ExprWeight(g, e)), Twice(ExprWeight(g, e))), Plus(Turn(), Twice(Work(1))))) else None
  {
    hide ExprWeight, RawWithin, WeighRecord, WeighSteps, WeighStep, Plus, Twice, Thrice, Work, Turn;
    var a, b := Step(0, Rule(Reflexivity(e), []), Equality(e, e)), Step(1, Rule(Symmetry, [0]), Equality(e, e));
    assert ProofOf(e, e).steps == [a, b];
    Records(g, e, e);
    TwoSteps(g, a, b);
    StepWeight(g, a);
    StepWeight(g, b);
    SumOfTwo(ExprWeight(g, e), Work(1), Turn());
  }

  lemma SumOfThree(leaf: Weight, l: Weight, r: Weight, s: Weight, t: Weight)
    ensures Plus(Plus(Plus(s, Plus(leaf, Twice(Plus(l, r)))), Plus(s, Plus(t, Plus(r, l)))), Plus(s, Plus(t, Plus(l, r))))
         == Plus(Plus(leaf, Twice(Twice(Plus(l, r)))), Plus(Twice(t), Thrice(s)))
  {
  }

  lemma NormalFormWeight(g: Gauges, lhs: Expr, rhs: Expr)
    requires lhs != rhs
    ensures WeighSteps(g, ProofOf(lhs, rhs).steps) ==
      if RawWithin(lhs, MAX_DERIVATION_EXPR_DEPTH) && RawWithin(rhs, MAX_DERIVATION_EXPR_DEPTH)
      then Some(Plus(Plus(LeafRule(g), Twice(Twice(Plus(ExprWeight(g, lhs), ExprWeight(g, rhs))))), Plus(Twice(Turn()), Thrice(Work(1))))) else None
  {
    hide ExprWeight, RawWithin, WeighRecord, WeighSteps, WeighStep, LeafRule, Plus, Twice, Thrice, Work, Turn;
    var a := Step(0, Rule(PolynomialNormalForm(lhs, rhs), []), Equality(lhs, rhs));
    var b, c := Step(1, Rule(Symmetry, [0]), Equality(rhs, lhs)), Step(2, Rule(Symmetry, [1]), Equality(lhs, rhs));
    assert ProofOf(lhs, rhs).steps == [a, b, c];
    Records(g, lhs, rhs);
    Records(g, rhs, lhs);
    ThreeSteps(g, a, b, c);
    StepWeight(g, a);
    StepWeight(g, b);
    StepWeight(g, c);
    SumOfThree(LeafRule(g), ExprWeight(g, lhs), ExprWeight(g, rhs), Work(1), Turn());
  }

  /** Turning a claim round is lighter than making it. */
  lemma TurningIsLighter(g: Gauges, lhs: Expr, rhs: Expr)
    ensures var l, r := ExprWeight(g, lhs), ExprWeight(g, rhs);
      && (Light(Thrice(l)) ==> Light(Plus(Turn(), Plus(l, l))))
      && (Light(Plus(LeafRule(g), Twice(Plus(l, r)))) ==> Light(Plus(Turn(), Plus(l, r))) && Light(Plus(Turn(), Plus(r, l))))
  {
    ExprIsCounted(g, lhs);
    ExprIsCounted(g, rhs);
    hide ExprWeight, Size;
  }

  /**
    Of the equation of `e` with itself: the kernel proves it exactly when three copies of `e` are
    within the limits, and the verifier accepts the proof exactly when five are.
   */
  lemma ReflexiveLimits(k: Rules, e: Expr)
    ensures var w := ExprWeight(k.gauges, e);
      && (Provable(k, e, e) <==> RawWithin(e, MAX_DERIVATION_EXPR_DEPTH) && Light(Thrice(w)))
      && (Verified(k, ProofOf(e, e)).Some? <==> RawWithin(e, MAX_DERIVATION_EXPR_DEPTH) && Light(Plus(Plus(Thrice(w), Twice(w)), Plus(Turn(), Twice(Work(1))))))
  {
    hide ExprWeight, RawWithin, WeighRecord, WeighSteps, ProofOf, Verified, Provable, Light, Work, Turn, Twice, Thrice, Plus;
    ProvableByRecords(k, e, e);
    var w := ExprWeight(k.gauges, e);
    Records(k.gauges, e, e);
    ProofWeighed(k, e, e);
    ReflexiveWeight(k.gauges, e);
    TurningIsLighter(k.gauges, e, e);
  }

  /** The same of two sides with one normal form: two pairs of sides, and four. */
  lemma NormalFormLimits(k: Rules, lhs: Expr, rhs: Expr)
    requires lhs != rhs && k.sameNormalForm(lhs, rhs)
    ensures var both := Plus(ExprWeight(k.gauges, lhs), ExprWeight(k.gauges, rhs));
      var shallow := RawWithin(lhs, MAX_DERIVATION_EXPR_DEPTH) && RawWithin(rhs, MAX_DERIVATION_EXPR_DEPTH);
      && (Provable(k, lhs, rhs) <==> shallow && Light(Plus(LeafRule(k.gauges), Twice(both))))
      && (Verified(k, ProofOf(lhs, rhs)).Some? <==>
            shallow && Light(Plus(Plus(LeafRule(k.gauges), Twice(Twice(both))), Plus(Twice(Turn()), Thrice(Work(1))))))
  {
    hide ExprWeight, RawWithin, WeighRecord, WeighSteps, ProofOf, Verified, Provable, Light, LeafRule, Work, Turn, Twice, Thrice, Plus;
    ProvableByRecords(k, lhs, rhs);
    var both := Plus(ExprWeight(k.gauges, lhs), ExprWeight(k.gauges, rhs));
    Records(k.gauges, lhs, rhs);
    Records(k.gauges, rhs, lhs);
    ProofWeighed(k, lhs, rhs);
    NormalFormWeight(k.gauges, lhs, rhs);
    TurningIsLighter(k.gauges, lhs, rhs);
  }

  // ---- an input

  /** A sum of 80000 constants. */
  function LongSum(): Expr {
    Add(seq(80_000, i => Const(Pi)))
  }

  lemma {:induction false} ConstantsWeight(g: Gauges, e: Expr, k: nat)
    requires k <= |Children(e)| && forall i :: 0 <= i < k ==> Children(e)[i] == Const(Pi)
    ensures ChildrenWeight(g, e, k) == Weight(k, 0, 0, 0, 0, 0, k)
  {
    hide Children, ExprWeight, ChildrenWeight;
    if k > 0 {
      ConstantsWeight(g, e, k - 1);
      ChildrenNext(g, e, k - 1);
      ConstantWeight(g, Children(e)[k - 1]);
    } else {
      NoChildren(g, e);
    }
  }

  lemma ConstantWeight(g: Gauges, e: Expr)
    requires e == Const(Pi)
    ensures ExprWeight(g, e) == Node()
  {
    assert Children(e) == [] && Own(g, e) == Node();
    hide ExprWeight, ChildrenWeight, Plus;
    NoChildren(g, e);
    OwnAndBelow(g, e);
    PlusNothing(Node());
  }

  lemma LongSumWeight(g: Gauges)
    ensures ExprWeight(g, LongSum()) == Weight(80_001, 0, 0, 0, 0, 0, 80_001) && RawWithin(LongSum(), MAX_DERIVATION_EXPR_DEPTH)
  {
    var e := LongSum();
    hide ExprWeight, ChildrenWeight;
    assert |Children(e)| == 80_000 && forall i :: 0 <= i < 80_000 ==> Children(e)[i] == Const(Pi);
    ConstantsWeight(g, e, 80_000);
    OwnAndBelow(g, e);
    assert Own(g, e) == Node();
  }

  /**
    Whatever the kernel already holds, if it has room for two more steps it proves the sum equal to
    itself, and the verifier refuses the export of that proof.
   */
  lemma ProvedButNotVerified(k: Rules, before: seq<Step>)
    requires AllCheck(k, before) && |before| + 2 <= MAX_DERIVATION_STEPS
    ensures var e := LongSum();
      && Reachable(k, before, e, e)
      && Slice(Grown(before, e, e, 2), |before| + 1) == ProofOf(e, e)
      && Verified(k, ProofOf(e, e)) == None
  {
    var e := LongSum();
    assert e == LongSum();
    LongSumLimits(k);
    hide LongSum, Provable, AllCheck, Slice, ProofOf, ProofFrom, Verified, Grown, Begun, Reachable;
    BegunIsReachable(k, before, e, e);
    RulesOfProof(0, e, e);
    ReachableInRoom(k, before, e, e);
    EndOfProof(k, before, e, e);
    StartOfProof(k, before, e, e);
  }

  lemma ReachableInRoom(k: Rules, before: seq<Step>, lhs: Expr, rhs: Expr)
    ensures Reachable(k, before, lhs, rhs) <==> Provable(k, lhs, rhs) && |before| + (if lhs == rhs then 2 else 3) <= MAX_DERIVATION_STEPS
  {
    hide Provable;
  }

  lemma LongSumLimits(k: Rules)
    ensures Provable(k, LongSum(), LongSum()) && Verified(k, ProofOf(LongSum(), LongSum())).None?
  {
    hide LongSum, Provable, Verified, ProofOf, ExprWeight, RawWithin, Light, Work;
    LongSumWeight(k.gauges);
    ReflexiveLimits(k, LongSum());
    ThreeButNotFive(ExprWeight(k.gauges, LongSum()), Plus(Turn(), Twice(Work(1))));
  }

  lemma ThreeButNotFive(w: Weight, rest: Weight)
    requires w == Weight(80_001, 0, 0, 0, 0, 0, 80_001)
    ensures Light(Thrice(w)) && !Light(Plus(Plus(Thrice(w), Twice(w)), rest))
  {
  }
}
