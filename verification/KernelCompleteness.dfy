/** The verifier accepts exactly the equations that proofs have as their sides, rule by rule. */
module KernelCompleteness {
  import opened Wrappers
  import opened Exprs
  import opened Derivations
  import opened DerivationLimits
  import opened ProofKernel
  import Substitution

  /** A proof, each rule with the proofs it rests on. */
  datatype Proof =
    | Itself(expr: Expr)
    | Turned(p: Proof)
    | Joined(p: Proof, q: Proof)
    | Summed(ps: seq<Proof>)
    | Multiplied(ps: seq<Proof>)
    | Raised(p: Proof, q: Proof)
    | Applied(name: string, ps: seq<Proof>)
    | Replaced(template: Expr, variable: Symbol, p: Proof)
    | ByNormalForm(lhs: Expr, rhs: Expr)
    | Given(rule: nat, lhs: Expr, rhs: Expr)

  /** The expression that a replacement answers, or the template where it is refused. */
  function Filled(template: Expr, x: Symbol, e: Expr): Expr {
    var r := Substitution.CaptureAvoidingSubs(template, x, e);
    if r.Ok? then r.value else template
  }

  function Left(p: Proof): Expr {
    match p
    case Itself(e) => e
    case Turned(q) => Right(q)
    case Joined(q, _) => Left(q)
    case Summed(ps) => Add(LeftSides(ps))
    case Multiplied(ps) => Mul(LeftSides(ps))
    case Raised(q, r) => Pow(Left(q), Left(r))
    case Applied(name, ps) => Function(name, LeftSides(ps))
    case Replaced(t, x, q) => Filled(t, x, Left(q))
    case ByNormalForm(lhs, _) => lhs
    case Given(_, lhs, _) => lhs
  }

  function Right(p: Proof): Expr {
    match p
    case Itself(e) => e
    case Turned(q) => Left(q)
    case Joined(_, r) => Right(r)
    case Summed(ps) => Add(RightSides(ps))
    case Multiplied(ps) => Mul(RightSides(ps))
    case Raised(q, r) => Pow(Right(q), Right(r))
    case Applied(name, ps) => Function(name, RightSides(ps))
    case Replaced(t, x, q) => Filled(t, x, Right(q))
    case ByNormalForm(_, rhs) => rhs
    case Given(_, _, rhs) => rhs
  }

  function LeftSides(ps: seq<Proof>): (es: seq<Expr>)
    ensures |es| == |ps|
  {
    seq(|ps|, i requires 0 <= i < |ps| => Left(ps[i]))
  }

  function RightSides(ps: seq<Proof>): (es: seq<Expr>)
    ensures |es| == |ps|
  {
    seq(|ps|, i requires 0 <= i < |ps| => Right(ps[i]))
  }

  function Sides(p: Proof): Claim {
    Equality(Left(p), Right(p))
  }

  function Claims(ps: seq<Proof>): (cs: seq<Claim>)
    ensures |cs| == |ps| && forall i :: 0 <= i < |ps| ==> cs[i] == Sides(ps[i])
  {
    seq(|ps|, i requires 0 <= i < |ps| => Sides(ps[i]))
  }

  function Parts(p: Proof): (ps: seq<Proof>)
    ensures forall q :: q in ps ==> q < p
  {
    match p
    case Turned(q) => [q]
    case Joined(q, r) => [q, r]
    case Summed(ps) => ps
    case Multiplied(ps) => ps
    case Raised(q, r) => [q, r]
    case Applied(_, ps) => ps
    case Replaced(_, _, q) => [q]
    case _ => []
  }

  function FormOf(p: Proof): Form {
    match p
    case Itself(e) => Reflexivity(e)
    case Turned(_) => Symmetry
    case Joined(_, _) => Transitivity
    case Summed(_) => CongruenceAdd
    case Multiplied(_) => CongruenceMul
    case Raised(_, _) => CongruencePow
    case Applied(name, _) => CongruenceFunction(name)
    case Replaced(t, x, _) => Substitute(t, x)
    case ByNormalForm(lhs, rhs) => PolynomialNormalForm(lhs, rhs)
    case Given(rule, _, _) => Other(rule)
  }

  /** What a proof asks at its root. */
  ghost predicate Fitting(k: Rules, p: Proof) {
    match p
    case Joined(q, r) => Right(q) == Left(r)
    case Summed(ps) => ps != [] && k.constructible(CongruenceAdd, Claims(ps))
    case Multiplied(ps) => ps != [] && k.constructible(CongruenceMul, Claims(ps))
    case Raised(q, r) => k.constructible(CongruencePow, [Sides(q), Sides(r)])
    case Applied(name, ps) => k.constructible(CongruenceFunction(name), Claims(ps))
    case Replaced(t, x, q) =>
      && k.constructible(Substitute(t, x), [Sides(q)])
      && Substitution.CaptureAvoidingSubs(t, x, Left(q)).Ok? && Substitution.CaptureAvoidingSubs(t, x, Right(q)).Ok?
    case ByNormalForm(lhs, rhs) => k.sameNormalForm(lhs, rhs)
    case Given(rule, lhs, rhs) => k.conclude(rule) == Some(Equality(lhs, rhs))
    case _ => true
  }

  ghost predicate Proves(k: Rules, p: Proof) {
    Fitting(k, p) && forall i | 0 <= i < |Parts(p)| :: Proves(k, Parts(p)[i])
  }

  // ---- every proof has a derivation

  /** The rule at the root concludes the sides. */
  lemma RootConcludes(k: Rules, p: Proof)
    requires Fitting(k, p)
    ensures Derive(k, FormOf(p), Claims(Parts(p))) == Some(Sides(p))
  {
    hide Substitution.CaptureAvoidingSubs;
    var cs := Claims(Parts(p));
    assert Lefts(cs) == LeftSides(Parts(p)) && Rights(cs) == RightSides(Parts(p));
    if p.Raised? { assert cs == [Sides(p.p), Sides(p.q)]; }
    if p.Replaced? { assert cs == [Sides(p.p)]; }
  }

  /** The steps of a proof after `n` others: first those of the parts, then its own. */
  function Steps(p: Proof, n: nat): (steps: seq<Step>)
    ensures steps != [] && steps[|steps| - 1].claim == Sides(p)
    decreases p, 1
  {
    var (steps, roots) := PartSteps(p, |Parts(p)|, n);
    steps + [Step(n + |steps|, Rule(FormOf(p), roots), Sides(p))]
  }

  /** The steps of the first `j` parts, and where their roots are. */
  function PartSteps(p: Proof, j: nat, n: nat): (r: (seq<Step>, seq<nat>))
    requires j <= |Parts(p)|
    ensures |r.1| == j
    decreases p, 0, j
  {
    if j == 0 then ([], [])
    else
      var (steps, roots) := PartSteps(p, j - 1, n);
      var more := Steps(Parts(p)[j - 1], n + |steps|);
      (steps + more, roots + [n + |steps| + |more| - 1])
  }

  /** A step that checks goes on checking with more after it. */
  lemma ChecksAppended(k: Rules, steps: seq<Step>, s: Step)
    requires AllCheck(k, steps) && s.id == |steps| && Check(k, s.rule, |steps|, ClaimsOf(steps)) == Some(s.claim)
    ensures AllCheck(k, steps + [s])
  {
    hide Check;
    var more := steps + [s];
    assert more[..|steps|] == steps;
    forall i: nat | i < |more| ensures StepChecks(k, more, i) {
      if i < |steps| { assert StepChecks(k, steps, i) && more[..i] == steps[..i]; }
    }
  }

  lemma {:induction false} StepsCheck(k: Rules, p: Proof, before: seq<Step>)
    requires Proves(k, p) && AllCheck(k, before)
    ensures AllCheck(k, before + Steps(p, |before|))
    decreases p, 1
  {
    hide Proves, AllCheck, Check, Derive, Steps, PartSteps, FormOf, Parts, Fitting, Claims;
    ProvesFitting(k, p);
    var n := |before|;
    var (steps, roots) := PartSteps(p, |Parts(p)|, n);
    PartStepsCheck(k, p, |Parts(p)|, before);
    RootConcludes(k, p);
    RootChecks(k, p, before + steps, roots);
    StepsAre(p, n);
    var s := Step(n + |steps|, Rule(FormOf(p), roots), Sides(p));
    ChecksAppended(k, before + steps, s);
    assert before + (steps + [s]) == (before + steps) + [s];
  }

  lemma StepsAre(p: Proof, n: nat)
    ensures var (steps, roots) := PartSteps(p, |Parts(p)|, n);
      Steps(p, n) == steps + [Step(n + |steps|, Rule(FormOf(p), roots), Sides(p))]
  {
    hide PartSteps, Parts, FormOf, Sides;
  }

  lemma RootChecks(k: Rules, p: Proof, held: seq<Step>, roots: seq<nat>)
    requires |roots| == |Parts(p)| && forall i :: 0 <= i < |roots| ==> roots[i] < |held| && held[roots[i]].claim == Sides(Parts(p)[i])
    requires Derive(k, FormOf(p), Claims(Parts(p))) == Some(Sides(p))
    ensures Check(k, Rule(FormOf(p), roots), |held|, ClaimsOf(held)) == Some(Sides(p))
  {
    hide Derive, FormOf, Parts, Sides;
    assert Cited(roots, ClaimsOf(held)) == Claims(Parts(p));
  }

  lemma ProvesFitting(k: Rules, p: Proof)
    requires Proves(k, p)
    ensures Fitting(k, p) && forall i :: 0 <= i < |Parts(p)| ==> Proves(k, Parts(p)[i])
  {
  }

  lemma {:induction false} PartStepsCheck(k: Rules, p: Proof, j: nat, before: seq<Step>)
    requires j <= |Parts(p)| && AllCheck(k, before) && forall i :: 0 <= i < |Parts(p)| ==> Proves(k, Parts(p)[i])
    ensures var (steps, roots) := PartSteps(p, j, |before|); var held := before + steps;
      && AllCheck(k, held)
      && forall i :: 0 <= i < j ==> roots[i] < |held| && held[roots[i]].claim == Sides(Parts(p)[i])
    decreases p, 0, j
  {
    hide Proves, AllCheck, Steps, Parts, Sides;
    if j == 0 {
      assert before + [] == before;
    } else {
      PartStepsCheck(k, p, j - 1, before);
      var (steps, roots) := PartSteps(p, j - 1, |before|);
      var more := Steps(Parts(p)[j - 1], |before| + |steps|);
      assert Parts(p)[j - 1] in Parts(p);
      StepsCheck(k, Parts(p)[j - 1], before + steps);
      MoreHeld(before, steps, more);
    }
  }

  lemma MoreHeld(before: seq<Step>, steps: seq<Step>, more: seq<Step>)
    ensures before + (steps + more) == (before + steps) + more
    ensures forall i :: 0 <= i < |before + steps| ==> (before + (steps + more))[i] == (before + steps)[i]
    ensures more != [] ==> (before + (steps + more))[|before| + |steps| + |more| - 1] == more[|more| - 1]
  {
  }

  /** A proof as a derivation of its own. */
  function DerivationOf(p: Proof): Derivation {
    Derivation(Steps(p, 0), |Steps(p, 0)| - 1)
  }

  /** Whatever has a proof is verified, if the proof is within the limits. */
  lemma ProofsAreVerified(k: Rules, p: Proof)
    requires Proves(k, p)
    ensures Verified(k, DerivationOf(p)) == if StepsUnits(k.gauges, Steps(p, 0)).Some? then Some(Equality(Left(p), Right(p))) else None
  {
    hide Proves, AllCheck, StepsUnits;
    NothingToCheck(k);
    StepsCheck(k, p, []);
    assert [] + Steps(p, 0) == Steps(p, 0);
  }

  lemma NothingToCheck(k: Rules)
    ensures AllCheck(k, [])
  {
  }

  // ---- every verified equation has a proof

  /** The rule concludes nothing but the sides of a proof made of proofs of what it cites. */
  lemma DerivedHasProof(k: Rules, f: Form, cs: seq<Claim>, ps: seq<Proof>) returns (p: Proof)
    requires Derive(k, f, cs).Some? && Derive(k, f, cs).value.Equality?
    requires |ps| == |cs| && forall i :: 0 <= i < |ps| ==> Sides(ps[i]) == cs[i]
    ensures Fitting(k, p) && Parts(p) == ps && Sides(p) == Derive(k, f, cs).value
  {
    hide Substitution.CaptureAvoidingSubs;
    p := MadeOf(k, f, cs, ps);
    assert Claims(ps) == cs;
    assert |cs| == 1 ==> cs == [Sides(ps[0])];
    assert |cs| == 2 ==> cs == [Sides(ps[0]), Sides(ps[1])];
    assert Lefts(cs) == LeftSides(ps) && Rights(cs) == RightSides(ps);
  }

  function MadeOf(k: Rules, f: Form, cs: seq<Claim>, ps: seq<Proof>): Proof
    requires Derive(k, f, cs).Some? && Derive(k, f, cs).value.Equality? && |ps| == |cs|
  {
    match f
    case Reflexivity(e) => Itself(e)
    case Symmetry => Turned(ps[0])
    case Transitivity => Joined(ps[0], ps[1])
    case CongruenceAdd => Summed(ps)
    case CongruenceMul => Multiplied(ps)
    case CongruencePow => Raised(ps[0], ps[1])
    case CongruenceFunction(name) => Applied(name, ps)
    case Substitute(t, x) => Replaced(t, x, ps[0])
    case PolynomialNormalForm(lhs, rhs) => ByNormalForm(lhs, rhs)
    case Other(rule) => Given(rule, Derive(k, f, cs).value.lhs, Derive(k, f, cs).value.rhs)
  }

  lemma {:induction false} StepHasProof(k: Rules, steps: seq<Step>, i: nat) returns (p: Proof)
    requires AllCheck(k, steps) && i < |steps| && steps[i].claim.Equality?
    ensures Proves(k, p) && Sides(p) == steps[i].claim
    decreases i
  {
    hide Derive, Fitting, Proves;
    assert StepChecks(k, steps, i);
    var premises := steps[i].rule.premises;
    var cs := Cited(premises, ClaimsOf(steps[..i]));
    DerivedFromEqualities(k, steps[i].rule.form, cs);
    var ps: seq<Proof> := [];
    for j := 0 to |premises|
      invariant |ps| == j && forall m :: 0 <= m < j ==> Proves(k, ps[m]) && Sides(ps[m]) == cs[m]
    {
      var q := StepHasProof(k, steps, premises[j]);
      ps := ps + [q];
    }
    p := DerivedHasProof(k, steps[i].rule.form, cs, ps);
    ProvesFrom(k, p);
  }

  lemma DerivedFromEqualities(k: Rules, f: Form, cs: seq<Claim>)
    requires Derive(k, f, cs).Some?
    ensures Equalities(cs)
  {
  }

  lemma ProvesFrom(k: Rules, p: Proof)
    requires Fitting(k, p) && forall i :: 0 <= i < |Parts(p)| ==> Proves(k, Parts(p)[i])
    ensures Proves(k, p)
  {
    hide Fitting;
  }

  /** An equation is concluded by some derivation that checks if and only if it is the two sides of a proof. */
  lemma CheckedIffProved(k: Rules, lhs: Expr, rhs: Expr)
    ensures (exists d: Derivation :: d.root < |d.steps| && AllCheck(k, d.steps) && d.steps[d.root].claim == Equality(lhs, rhs))
       <==> exists p :: Proves(k, p) && Left(p) == lhs && Right(p) == rhs
  {
    hide AllCheck, Proves;
    if d: Derivation :| d.root < |d.steps| && AllCheck(k, d.steps) && d.steps[d.root].claim == Equality(lhs, rhs) {
      var p := StepHasProof(k, d.steps, d.root);
      assert Proves(k, p) && Left(p) == lhs && Right(p) == rhs;
    }
    if p :| Proves(k, p) && Left(p) == lhs && Right(p) == rhs {
      NothingToCheck(k);
      StepsCheck(k, p, []);
      assert [] + Steps(p, 0) == Steps(p, 0);
      var d := DerivationOf(p);
      assert d.root < |d.steps| && AllCheck(k, d.steps) && d.steps[d.root].claim == Equality(lhs, rhs);
    }
  }
}
