/** The proof kernel's store of steps, the export of what one step rests on, and the independent verifier. */
module ProofKernel {
  import opened Wrappers
  import opened Exprs
  import opened Derivations
  import opened DerivationLimits
  import Substitution

  /**
    What the rules are given, for one fixed context: the comparison of polynomial normal forms, the
    conclusions of context queries, reductions and other certificates, the limit on what a rule may
    construct, and the gauges of what is counted.
   */
  datatype Rules = Rules(
    sameNormalForm: (Expr, Expr) -> bool,
    conclude: nat -> Option<Claim>,
    constructible: (Form, seq<Claim>) -> bool,
    gauges: Gauges)

  datatype KernelError = Budget | Rejected | UnknownStep(id: nat)

  // ---- one rule

  predicate Equalities(cs: seq<Claim>) {
    forall i :: 0 <= i < |cs| ==> cs[i].Equality?
  }

  function Lefts(cs: seq<Claim>): seq<Expr>
    requires Equalities(cs)
  {
    seq(|cs|, i requires 0 <= i < |cs| => cs[i].lhs)
  }

  function Rights(cs: seq<Claim>): seq<Expr>
    requires Equalities(cs)
  {
    seq(|cs|, i requires 0 <= i < |cs| => cs[i].rhs)
  }

  /** The conclusion of a rule from the claims of the steps it refers to. */
  function Derive(k: Rules, f: Form, cs: seq<Claim>): Option<Claim> {
    if !Equalities(cs) then None
    else
      match f
      case Reflexivity(e) => if cs == [] then Some(Equality(e, e)) else None
      case Symmetry => if |cs| == 1 then Some(Equality(cs[0].rhs, cs[0].lhs)) else None
      case Transitivity => if |cs| == 2 && cs[0].rhs == cs[1].lhs then Some(Equality(cs[0].lhs, cs[1].rhs)) else None
      case CongruenceAdd =>
        if cs != [] && k.constructible(f, cs) then Some(Equality(Add(Lefts(cs)), Add(Rights(cs)))) else None
      case CongruenceMul =>
        if cs != [] && k.constructible(f, cs) then Some(Equality(Mul(Lefts(cs)), Mul(Rights(cs)))) else None
      case CongruencePow =>
        if |cs| == 2 && k.constructible(f, cs) then Some(Equality(Pow(cs[0].lhs, cs[1].lhs), Pow(cs[0].rhs, cs[1].rhs))) else None
      case CongruenceFunction(name) =>
        if k.constructible(f, cs) then Some(Equality(Function(name, Lefts(cs)), Function(name, Rights(cs)))) else None
      case Substitute(template, x) =>
        if |cs| == 1 && k.constructible(f, cs) then
          var a := Substitution.CaptureAvoidingSubs(template, x, cs[0].lhs);
          var b := Substitution.CaptureAvoidingSubs(template, x, cs[0].rhs);
          if a.Ok? && b.Ok? then Some(Equality(a.value, b.value)) else None
        else None
      case PolynomialNormalForm(lhs, rhs) => if cs == [] && k.sameNormalForm(lhs, rhs) then Some(Equality(lhs, rhs)) else None
      case Other(rule) => if cs == [] then k.conclude(rule) else None
  }

  predicate Known(premises: seq<nat>, id: nat, claims: map<nat, Claim>) {
    forall i :: 0 <= i < |premises| ==> premises[i] < id && premises[i] in claims
  }

  /** The check of one rule against the claims before it: every reference is to an earlier, established step. */
  function Check(k: Rules, r: Rule, id: nat, claims: map<nat, Claim>): Option<Claim> {
    if Known(r.premises, id, claims) then Derive(k, r.form, Cited(r.premises, claims)) else None
  }

  function Cited(premises: seq<nat>, claims: map<nat, Claim>): (cs: seq<Claim>)
    requires forall i :: 0 <= i < |premises| ==> premises[i] in claims
    ensures |cs| == |premises| && forall i :: 0 <= i < |cs| ==> cs[i] == claims[premises[i]]
  {
    seq(|premises|, i requires 0 <= i < |premises| => claims[premises[i]])
  }

  function ClaimsOf(steps: seq<Step>): map<nat, Claim> {
    map i | 0 <= i < |steps| :: steps[i].claim
  }

  /** The `i`-th step carries its own number and the conclusion of its rule. */
  ghost predicate StepChecks(k: Rules, steps: seq<Step>, i: nat)
    requires i < |steps|
  {
    steps[i].id == i && Check(k, steps[i].rule, i, ClaimsOf(steps[..i])) == Some(steps[i].claim)
  }

  ghost predicate AllCheck(k: Rules, steps: seq<Step>) {
    forall i: nat :: i < |steps| ==> StepChecks(k, steps, i)
  }

  /** The step by itself is within the limits. */
  ghost predicate Fits(k: Rules, s: Step) {
    Bearable(WeighRecord(k.gauges, s.rule.form, |s.rule.premises|, s.claim))
  }

  // ---- the independent verifier

  /** What a derivation concludes, if it is within the limits as a whole and every step of it checks. */
  ghost function Verified(k: Rules, d: Derivation): Option<Claim> {
    if StepsUnits(k.gauges, d.steps).Some? && d.root < |d.steps| && AllCheck(k, d.steps) then Some(d.steps[d.root].claim) else None
  }

  method Verify(k: Rules, d: Derivation) returns (r: Option<Claim>)
    ensures r == Verified(k, d)
  {
    hide StepsUnits;
    var units := DerivationUnits(k.gauges, d.steps);
    if units.None? || d.root >= |d.steps| { return None; }
    var verified := map[];
    for i := 0 to |d.steps|
      invariant verified == ClaimsOf(d.steps[..i])
      invariant forall j: nat :: j < i ==> StepChecks(k, d.steps, j)
    {
      var step := d.steps[i];
      if step.id != i { assert !StepChecks(k, d.steps, i); return None; }
      var derived := Check(k, step.rule, i, verified);
      if derived != Some(step.claim) { assert !StepChecks(k, d.steps, i); return None; }
      verified := verified[i := step.claim];
      assert d.steps[..i + 1] == d.steps[..i] + [step];
    }
    assert d.steps[..|d.steps|] == d.steps;
    r := Some(verified[d.root]);
  }

  // ---- soundness

  /** A relation that every rule respects: an equivalence, a congruence, and right about the leaves. */
  ghost predicate Respected(k: Rules, same: (Expr, Expr) -> bool) {
    && (forall a :: same(a, a))
    && (forall a, b :: same(a, b) ==> same(b, a))
    && (forall a, b, c :: same(a, b) && same(b, c) ==> same(a, c))
    && (forall ls, rs :: SameEach(same, ls, rs) ==> same(Add(ls), Add(rs)) && same(Mul(ls), Mul(rs)))
    && (forall a, b, c, d :: same(a, b) && same(c, d) ==> same(Pow(a, c), Pow(b, d)))
    && (forall name, ls, rs :: SameEach(same, ls, rs) ==> same(Function(name, ls), Function(name, rs)))
    && (forall t, x, a, b :: same(a, b) ==> SameInContext(same, t, x, a, b))
    && (forall a, b :: k.sameNormalForm(a, b) ==> same(a, b))
    && (forall rule :: k.conclude(rule).Some? && k.conclude(rule).value.Equality? ==> same(k.conclude(rule).value.lhs, k.conclude(rule).value.rhs))
  }

  ghost predicate SameEach(same: (Expr, Expr) -> bool, ls: seq<Expr>, rs: seq<Expr>) {
    |ls| == |rs| && forall i :: 0 <= i < |ls| ==> same(ls[i], rs[i])
  }

  /** Replacing a variable by related expressions gives related answers. */
  ghost predicate SameInContext(same: (Expr, Expr) -> bool, t: Expr, x: Symbol, a: Expr, b: Expr) {
    var p, q := Substitution.CaptureAvoidingSubs(t, x, a), Substitution.CaptureAvoidingSubs(t, x, b);
    p.Ok? && q.Ok? ==> same(p.value, q.value)
  }

  ghost predicate Holds(same: (Expr, Expr) -> bool, c: Claim) {
    c.Equality? ==> same(c.lhs, c.rhs)
  }

  lemma DeriveHolds(k: Rules, same: (Expr, Expr) -> bool, f: Form, cs: seq<Claim>)
    requires Respected(k, same) && Derive(k, f, cs).Some? && forall i :: 0 <= i < |cs| ==> Holds(same, cs[i])
    ensures Holds(same, Derive(k, f, cs).value)
  {
    hide Substitution.CaptureAvoidingSubs;
    assert SameEach(same, Lefts(cs), Rights(cs));
    match f
    case Substitute(t, x) => assert SameInContext(same, t, x, cs[0].lhs, cs[0].rhs);
    case Other(rule) => if k.conclude(rule).value.Equality? { assert Holds(same, k.conclude(rule).value); }
    case _ =>
  }

  /** Every step of a derivation that checks holds in every relation that the rules respect. */
  lemma {:induction false} StepsHold(k: Rules, same: (Expr, Expr) -> bool, steps: seq<Step>, i: nat)
    requires Respected(k, same) && AllCheck(k, steps) && i < |steps|
    ensures Holds(same, steps[i].claim)
    decreases i
  {
    hide Respected, Derive, Holds;
    assert StepChecks(k, steps, i);
    var ps := steps[i].rule.premises;
    var cs := Cited(ps, ClaimsOf(steps[..i]));
    forall j | 0 <= j < |ps| ensures Holds(same, cs[j]) { StepsHold(k, same, steps, ps[j]); }
    DeriveHolds(k, same, steps[i].rule.form, cs);
  }

  lemma VerifiedIsSound(k: Rules, same: (Expr, Expr) -> bool, d: Derivation, a: Expr, b: Expr)
    requires Respected(k, same) && Verified(k, d) == Some(Equality(a, b))
    ensures same(a, b)
  {
    hide Respected;
    StepsHold(k, same, d.steps, d.root);
  }

  // ---- the export

  /** The proof of the step `root` rests on the step `i`. */
  ghost predicate Needs(steps: seq<Step>, root: nat, i: nat)
    requires i <= root < |steps|
    decreases root - i
  {
    i == root || exists j :: i < j <= root && Needs(steps, root, j) && i in steps[j].rule.premises
  }

  ghost function Needed(steps: seq<Step>, root: nat): set<nat>
    requires root < |steps|
  {
    set i: nat | i <= root && Needs(steps, root, i)
  }

  /** The number of needed steps before the `i`-th. */
  function Rank(needed: set<nat>, i: nat): (n: nat)
    ensures n <= i
  {
    if i == 0 then 0 else Rank(needed, i - 1) + if i - 1 in needed then 1 else 0
  }

  function Renumbered(needed: set<nat>, r: Rule): Rule {
    Rule(r.form, seq(|r.premises|, i requires 0 <= i < |r.premises| => Rank(needed, r.premises[i])))
  }

  /** The needed ones among the first `n` steps, numbered afresh. */
  function Compact(steps: seq<Step>, needed: set<nat>, n: nat): (r: seq<Step>)
    requires n <= |steps|
    ensures |r| == Rank(needed, n)
  {
    if n == 0 then []
    else
      var before := Compact(steps, needed, n - 1);
      if n - 1 in needed then before + [Step(|before|, Renumbered(needed, steps[n - 1].rule), steps[n - 1].claim)] else before
  }

  ghost function Slice(steps: seq<Step>, root: nat): Derivation
    requires root < |steps|
  {
    Derivation(Compact(steps, Needed(steps, root), root + 1), Rank(Needed(steps, root), root))
  }

  lemma {:induction false} RankGrows(needed: set<nat>, i: nat, j: nat)
    requires i < j && i in needed
    ensures Rank(needed, i) < Rank(needed, j)
  {
    if i < j - 1 { RankGrows(needed, i, j - 1); }
  }

  /** Where a needed step went. */
  lemma {:induction false} CompactAt(steps: seq<Step>, needed: set<nat>, n: nat, i: nat)
    requires i < n <= |steps| && i in needed
    ensures Rank(needed, i) < |Compact(steps, needed, n)|
    ensures Compact(steps, needed, n)[Rank(needed, i)] == Step(Rank(needed, i), Renumbered(needed, steps[i].rule), steps[i].claim)
    ensures Compact(steps, needed, n)[..Rank(needed, i)] == Compact(steps, needed, i)
  {
    RankGrows(needed, i, n);
    if i < n - 1 {
      CompactAt(steps, needed, n - 1, i);
      assert Compact(steps, needed, n - 1) <= Compact(steps, needed, n);
      assert Compact(steps, needed, n)[..Rank(needed, i)] == Compact(steps, needed, n - 1)[..Rank(needed, i)];
    }
  }

  /** Every exported step was a needed one. */
  lemma {:induction false} CompactFrom(steps: seq<Step>, needed: set<nat>, n: nat, m: nat) returns (i: nat)
    requires n <= |steps| && m < |Compact(steps, needed, n)|
    ensures i < n && i in needed && m == Rank(needed, i)
  {
    i := n - 1;
    if !(n - 1 in needed && m == Rank(needed, n - 1)) { i := CompactFrom(steps, needed, n - 1, m); }
  }

  /** What a step refers to is needed with it. */
  ghost predicate Downward(steps: seq<Step>, needed: set<nat>) {
    forall i: nat, p: nat :: i in needed && i < |steps| && p in steps[i].rule.premises ==> p in needed
  }

  lemma NeededIsDownward(k: Rules, steps: seq<Step>, root: nat)
    requires root < |steps| && AllCheck(k, steps)
    ensures Downward(steps, Needed(steps, root)) && root in Needed(steps, root)
  {
    forall i: nat, p: nat | i in Needed(steps, root) && i < |steps| && p in steps[i].rule.premises ensures p in Needed(steps, root) {
      assert StepChecks(k, steps, i);
      var j :| 0 <= j < |steps[i].rule.premises| && steps[i].rule.premises[j] == p;
      assert p < i;
    }
  }

  lemma CompactChecks(k: Rules, steps: seq<Step>, needed: set<nat>, n: nat, i: nat)
    requires AllCheck(k, steps) && Downward(steps, needed) && i < n <= |steps| && i in needed
    ensures Rank(needed, i) < |Compact(steps, needed, n)| && StepChecks(k, Compact(steps, needed, n), Rank(needed, i))
  {
    CompactAt(steps, needed, n, i);
    assert StepChecks(k, steps, i);
    var was, now := steps[i].rule, Renumbered(needed, steps[i].rule);
    var m := Rank(needed, i);
    var before, claims := ClaimsOf(steps[..i]), ClaimsOf(Compact(steps, needed, n)[..m]);
    forall j | 0 <= j < |was.premises| ensures now.premises[j] < m && now.premises[j] in claims && claims[now.premises[j]] == before[was.premises[j]] {
      var p := was.premises[j];
      assert p in was.premises && p < i && p in needed;
      RankGrows(needed, p, i);
      CompactAt(steps, needed, n, p);
    }
    hide Derive, Rank, Compact, Downward, AllCheck;
    assert Cited(was.premises, before) == Cited(now.premises, claims);
  }

  /** The weight of the needed ones among the first `n` steps. */
  function NeededWeight(g: Gauges, steps: seq<Step>, needed: set<nat>, n: nat): Option<Weight>
    requires n <= |steps|
  {
    if n == 0 then Some(Nothing())
    else if n - 1 in needed then Both(NeededWeight(g, steps, needed, n - 1), WeighStep(g, steps[n - 1]))
    else NeededWeight(g, steps, needed, n - 1)
  }

  /** Numbering the steps afresh changes nothing that is counted. */
  lemma {:induction false} CompactWeight(g: Gauges, steps: seq<Step>, needed: set<nat>, n: nat)
    requires n <= |steps|
    ensures WeighSteps(g, Compact(steps, needed, n)) == NeededWeight(g, steps, needed, n)
  {
    if n > 0 {
      hide WeighRecord, Both;
      CompactWeight(g, steps, needed, n - 1);
      var before := Compact(steps, needed, n - 1);
      if n - 1 in needed { assert Compact(steps, needed, n)[..|before|] == before; }
    }
  }

  /** Every step of an export checks, whatever else the kernel holds, and the exported one comes last. */
  lemma ExportChecks(k: Rules, steps: seq<Step>, root: nat)
    requires AllCheck(k, steps) && root < |steps|
    ensures AllCheck(k, Slice(steps, root).steps)
    ensures var d := Slice(steps, root); d.root == |d.steps| - 1 && d.steps[d.root].claim == steps[root].claim
  {
    var needed := Needed(steps, root);
    NeededIsDownward(k, steps, root);
    hide Needed, Needs, StepChecks, AllCheck;
    var all := Compact(steps, needed, root + 1);
    CompactAt(steps, needed, root + 1, root);
    forall m: nat | m < |all| ensures StepChecks(k, all, m) {
      var i := CompactFrom(steps, needed, root + 1, m);
      CompactChecks(k, steps, needed, root + 1, i);
    }
    assert AllCheck(k, all);
  }

  /**
    An export is verified independently, and then concludes the exported step, if and only if the
    steps that this one rests on are within the limits together; the kernel asked it of each alone.
   */
  lemma ExportVerifiesIff(k: Rules, steps: seq<Step>, root: nat)
    requires AllCheck(k, steps) && root < |steps| <= MAX_DERIVATION_STEPS
    ensures Verified(k, Slice(steps, root)) ==
      if Bearable(NeededWeight(k.gauges, steps, Needed(steps, root), root + 1)) then Some(steps[root].claim) else None
  {
    hide AllCheck, Needed, NeededWeight, Compact, Light;
    ExportChecks(k, steps, root);
    CompactWeight(k.gauges, steps, Needed(steps, root), root + 1);
  }

  /** An export holds nothing that its conclusion does not rest on. */
  lemma ExportIsMinimal(k: Rules, steps: seq<Step>, root: nat, m: nat)
    requires AllCheck(k, steps) && root < |steps| && m < |Slice(steps, root).steps|
    ensures Slice(steps, root).root < |Slice(steps, root).steps| && m <= Slice(steps, root).root
    ensures Needs(Slice(steps, root).steps, Slice(steps, root).root, m)
  {
    ExportChecks(k, steps, root);
    NeededIsDownward(k, steps, root);
    var i := CompactFrom(steps, Needed(steps, root), root + 1, m);
    NeedsStays(steps, root, i);
  }

  lemma {:induction false} NeedsStays(steps: seq<Step>, root: nat, i: nat)
    requires root < |steps| && i <= root && Needs(steps, root, i)
    ensures var d := Slice(steps, root); var m := Rank(Needed(steps, root), i);
      m <= d.root < |d.steps| && Needs(d.steps, d.root, m)
    decreases root - i
  {
    var needed, d := Needed(steps, root), Slice(steps, root);
    CompactAt(steps, needed, root + 1, root);
    if i < root {
      var j :| i < j <= root && Needs(steps, root, j) && i in steps[j].rule.premises;
      assert i in needed && j in needed;
      hide Needed, Compact, Rank, Renumbered;
      NeedsStays(steps, root, j);
      RankGrows(needed, i, j);
      CompactAt(steps, needed, root + 1, j);
      RenumberedHas(needed, steps[j].rule, i);
    }
  }

  lemma RenumberedHas(needed: set<nat>, r: Rule, p: nat)
    requires p in r.premises
    ensures Rank(needed, p) in Renumbered(needed, r).premises
  {
    var c :| 0 <= c < |r.premises| && r.premises[c] == p;
    assert Renumbered(needed, r).premises[c] == Rank(needed, p);
  }

  // ---- the kernel and its meter

  /** Any meter: whether the `k`-th charge is refused. */
  class Meter {
    const refuses: nat -> bool
    var charges: nat

    constructor (refuses: nat -> bool)
      ensures this.refuses == refuses
    {
      this.refuses, charges := refuses, 0;
    }

    method Charge() returns (ok: bool)
      modifies this
      ensures ok <==> !refuses(old(charges))
    {
      ok := !refuses(charges);
      charges := charges + 1;
    }
  }

  ghost predicate Willing(refuses: nat -> bool) {
    forall k :: !refuses(k)
  }

  class Kernel {
    const rules: Rules
    var steps: seq<Step>
    var claims: map<nat, Claim>

    ghost predicate Valid()
      reads this
    {
      AllCheck(rules, steps) && claims == ClaimsOf(steps) && |steps| <= MAX_DERIVATION_STEPS
    }

    constructor (rules: Rules)
      ensures Valid() && steps == [] && this.rules == rules
    {
      this.rules, steps, claims := rules, [], map[];
    }

    /** A step is recorded only with the conclusion of its rule; a refusal records nothing. */
    method AddStep(rule: Rule, meter: Meter) returns (r: Result<nat, KernelError>)
      requires Valid()
      modifies this, meter
      ensures Valid()
      ensures r.Ok? ==> Addable(rules, old(steps), rule) && r.value == |old(steps)| && steps == Added(rules, old(steps), rule)
      ensures r.Err? ==> steps == old(steps) && r.error in {Budget, Rejected}
      ensures Willing(meter.refuses) ==> r != Err(Budget)
      ensures r == Err(Rejected) ==> !Addable(rules, old(steps), rule)
    {
      hide Derive;
      var started := meter.Charge();
      if !started { return Err(Budget); }
      if |steps| >= MAX_DERIVATION_STEPS { return Err(Rejected); }
      var id := |steps|;
      var claim := Check(rules, rule, id, claims);
      if claim.None? { return Err(Rejected); }
      var fits := RecordFits(rules.gauges, rule.form, |rule.premises|, claim.value);
      if !fits { return Err(Rejected); }
      var finished := meter.Charge();
      if !finished { return Err(Budget); }
      AddedChecks(rules, steps, rule);
      steps := steps + [Step(id, rule, claim.value)];
      claims := claims[id := claim.value];
      r := Ok(id);
    }

    /** The `m`-th step of the proof of an equation that the store was `before`. */
    method Continue(ghost before: seq<Step>, lhs: Expr, rhs: Expr, ghost m: nat, rule: Rule, meter: Meter) returns (r: Result<nat, KernelError>)
      requires Valid() && m < |ProofFrom(0, lhs, rhs)| && Begun(rules, before, lhs, rhs, m)
      requires steps == Grown(before, lhs, rhs, m) && rule == ProofFrom(|before|, lhs, rhs)[m].rule
      modifies this, meter
      ensures Valid()
      ensures r.Ok? ==> Begun(rules, before, lhs, rhs, m + 1) && steps == Grown(before, lhs, rhs, m + 1) && r.value == |before| + m
      ensures r.Err? ==> r.error in {Budget, Rejected}
      ensures r.Err? && (r.error == Rejected || Willing(meter.refuses)) ==> r.error == Rejected && !Begun(rules, before, lhs, rhs, m + 1)
    {
      NextOfProof(rules, before, lhs, rhs, m);
      StartOfProof(rules, before, lhs, rhs);
      hide AllCheck, Addable, Added, Begun, Grown, ProofFrom;
      r := AddStep(rule, meter);
    }

    /** The steps that one step rests on, found by a stack. */
    method Reach(root: nat) returns (needed: set<nat>)
      requires Valid() && root < |steps|
      ensures needed == Needed(steps, root)
    {
      hide AllCheck, Needed, Needs, Reaching;
      NeededIsDownward(rules, steps, root);
      needed := {};
      var stack := [root];
      ReachingStarts(steps, root);
      while stack != []
        invariant Reaching(steps, root, needed, stack) && needed <= Needed(steps, root)
        decreases Needed(steps, root) - needed, |stack|
      {
        var rest, curr := stack[..|stack| - 1], stack[|stack| - 1];
        ReachingGoesOn(steps, root, needed, stack);
        stack := rest;
        if curr !in needed {
          needed := needed + {curr};
          stack := stack + steps[curr].rule.premises;
        }
      }
      AllReached(steps, root, needed);
    }

    /** The slice of the store that one step rests on, numbered afresh. */
    method ExportDerivation(root: nat) returns (r: Result<Derivation, KernelError>)
      requires Valid()
      ensures r == if root < |steps| then Ok(Slice(steps, root)) else Err(UnknownStep(root))
    {
      hide AllCheck, Needed, Needs, Remapped, Renumbered, Downward, Compact, Ranks, Rank;
      if root !in claims { return Err(UnknownStep(root)); }
      var needed := Reach(root);
      NeededIsDownward(rules, steps, root);
      PremisesArePrior(rules, steps);
      NothingExported(steps, needed);
      var renumbering, compact := map[], [];
      for i := 0 to root + 1
        invariant compact == Compact(steps, needed, i)
        invariant renumbering == Ranks(needed, i)
      {
        NextExported(steps, needed, i);
        if i in needed {
          renumbering := renumbering[i := |compact|];
          compact := compact + [Step(|compact|, Remapped(steps[i].rule, renumbering), steps[i].claim)];
        }
      }
      LastExported(needed, root);
      r := Ok(Derivation(compact, renumbering[root]));
    }
  }

  ghost predicate Addable(k: Rules, steps: seq<Step>, rule: Rule) {
    && |steps| < MAX_DERIVATION_STEPS && Check(k, rule, |steps|, ClaimsOf(steps)).Some?
    && Fits(k, Step(|steps|, rule, Check(k, rule, |steps|, ClaimsOf(steps)).value))
  }

  ghost function Added(k: Rules, steps: seq<Step>, rule: Rule): seq<Step>
    requires Addable(k, steps, rule)
  {
    steps + [Step(|steps|, rule, Check(k, rule, |steps|, ClaimsOf(steps)).value)]
  }

  lemma AddedChecks(k: Rules, steps: seq<Step>, rule: Rule)
    requires AllCheck(k, steps) && Addable(k, steps, rule)
    ensures AllCheck(k, Added(k, steps, rule))
    ensures ClaimsOf(Added(k, steps, rule)) == ClaimsOf(steps)[|steps| := Check(k, rule, |steps|, ClaimsOf(steps)).value]
  {
    hide Check;
    var more := Added(k, steps, rule);
    assert more[..|steps|] == steps;
    forall i: nat | i < |more| ensures StepChecks(k, more, i) {
      if i < |steps| { assert StepChecks(k, steps, i) && more[..i] == steps[..i]; }
    }
  }

  /** Everything found or on the stack is needed, and what the found steps refer to is found or on the stack. */
  ghost predicate Reaching(steps: seq<Step>, root: nat, needed: set<nat>, stack: seq<nat>)
    requires root < |steps|
  {
    && needed <= Needed(steps, root) && (forall i :: i in stack ==> i in Needed(steps, root))
    && (root in needed || root in stack)
    && (forall i: nat, p: nat :: i in needed && i < |steps| && p in steps[i].rule.premises ==> p in needed || p in stack)
  }

  lemma ReachingStarts(steps: seq<Step>, root: nat)
    requires root < |steps| && root in Needed(steps, root)
    ensures Reaching(steps, root, {}, [root])
  {
    hide Needed;
  }

  lemma ReachingGoesOn(steps: seq<Step>, root: nat, needed: set<nat>, stack: seq<nat>)
    requires root < |steps| && stack != [] && Reaching(steps, root, needed, stack) && Downward(steps, Needed(steps, root))
    ensures var rest, curr := stack[..|stack| - 1], stack[|stack| - 1];
      && curr <= root && curr in Needed(steps, root)
      && (if curr in needed then Reaching(steps, root, needed, rest) else Reaching(steps, root, needed + {curr}, rest + steps[curr].rule.premises))
  {
    var rest, curr := stack[..|stack| - 1], stack[|stack| - 1];
    assert forall i :: i in stack <==> i in rest || i == curr;
    assert curr in stack && curr in Needed(steps, root);
    assert curr <= root;
    hide Needed;
    if curr !in needed {
      assert forall p :: p in rest + steps[curr].rule.premises <==> p in rest || p in steps[curr].rule.premises;
    }
  }

  lemma PremisesArePrior(k: Rules, steps: seq<Step>)
    requires AllCheck(k, steps)
    ensures forall i: nat, p: nat :: i < |steps| && p in steps[i].rule.premises ==> p < i
  {
    forall i: nat, p: nat | i < |steps| && p in steps[i].rule.premises ensures p < i { assert StepChecks(k, steps, i); }
  }

  lemma AllReached(steps: seq<Step>, root: nat, needed: set<nat>)
    requires root < |steps| && Reaching(steps, root, needed, [])
    ensures needed == Needed(steps, root)
  {
    assert Downward(steps, needed);
    forall i: nat | i <= root && Needs(steps, root, i) ensures i in needed { ReachedBelow(steps, root, needed, i); }
  }

  lemma {:induction false} ReachedBelow(steps: seq<Step>, root: nat, needed: set<nat>, i: nat)
    requires i <= root < |steps| && root in needed && Downward(steps, needed) && Needs(steps, root, i)
    ensures i in needed
    decreases root - i
  {
    if i < root {
      var j :| i < j <= root && Needs(steps, root, j) && i in steps[j].rule.premises;
      ReachedBelow(steps, root, needed, j);
    }
  }

  function Remapped(r: Rule, renumbering: map<nat, nat>): Rule
    requires forall p :: p in r.premises ==> p in renumbering
  {
    Rule(r.form, seq(|r.premises|, i requires 0 <= i < |r.premises| => renumbering[r.premises[i]]))
  }

  lemma NothingExported(steps: seq<Step>, needed: set<nat>)
    ensures Compact(steps, needed, 0) == [] && Ranks(needed, 0) == map[]
  {
  }

  lemma NextExported(steps: seq<Step>, needed: set<nat>, i: nat)
    requires i < |steps| && Downward(steps, needed) && forall p: nat :: p in steps[i].rule.premises ==> p < i
    ensures i !in needed ==> Ranks(needed, i + 1) == Ranks(needed, i) && Compact(steps, needed, i + 1) == Compact(steps, needed, i)
    ensures i in needed ==> Ranks(needed, i + 1) == Ranks(needed, i)[i := |Compact(steps, needed, i)|]
    ensures i in needed ==> forall p :: p in steps[i].rule.premises ==> p in Ranks(needed, i + 1)
    ensures i in needed ==> var before := Compact(steps, needed, i); Compact(steps, needed, i + 1) == before + [Step(|before|, Remapped(steps[i].rule, Ranks(needed, i + 1)), steps[i].claim)]
  {
    hide Remapped, Renumbered;
    if i in needed { RemapIsRenumbering(steps, needed, i); }
  }

  lemma LastExported(needed: set<nat>, root: nat)
    requires root in needed
    ensures root in Ranks(needed, root + 1) && Ranks(needed, root + 1)[root] == Rank(needed, root)
  {
  }

  lemma RemapIsRenumbering(steps: seq<Step>, needed: set<nat>, i: nat)
    requires i < |steps| && i in needed && Downward(steps, needed) && forall p: nat :: p in steps[i].rule.premises ==> p < i
    ensures forall p :: p in steps[i].rule.premises ==> p in Ranks(needed, i + 1)
    ensures Remapped(steps[i].rule, Ranks(needed, i + 1)) == Renumbered(needed, steps[i].rule)
  {
  }

  function Ranks(needed: set<nat>, n: nat): map<nat, nat> {
    map i: nat | i < n && i in needed :: Rank(needed, i)
  }

  // ---- proofs of equations

  /** The proof of an equation, numbered from `n`: of itself and turned round, or by normal forms and turned round twice. */
  function ProofFrom(n: nat, lhs: Expr, rhs: Expr): seq<Step> {
    if lhs == rhs then
      [Step(n, Rule(Reflexivity(lhs), []), Equality(lhs, rhs)), Step(n + 1, Rule(Symmetry, [n]), Equality(rhs, lhs))]
    else
      [Step(n, Rule(PolynomialNormalForm(lhs, rhs), []), Equality(lhs, rhs)),
       Step(n + 1, Rule(Symmetry, [n]), Equality(rhs, lhs)),
       Step(n + 2, Rule(Symmetry, [n + 1]), Equality(lhs, rhs))]
  }

  function ProofOf(lhs: Expr, rhs: Expr): Derivation {
    Derivation(ProofFrom(0, lhs, rhs), if lhs == rhs then 1 else 2)
  }

  /** The equation has a proof of that form, each step of it small enough. */
  ghost predicate Provable(k: Rules, lhs: Expr, rhs: Expr) {
    && (lhs == rhs || k.sameNormalForm(lhs, rhs))
    && forall s :: s in ProofOf(lhs, rhs).steps ==> Fits(k, s)
  }

  lemma ProofChecks(k: Rules, lhs: Expr, rhs: Expr)
    ensures lhs == rhs || k.sameNormalForm(lhs, rhs) ==> AllCheck(k, ProofOf(lhs, rhs).steps)
  {
    if lhs == rhs || k.sameNormalForm(lhs, rhs) {
      var steps := ProofOf(lhs, rhs).steps;
      hide Substitution.CaptureAvoidingSubs;
      forall i: nat | i < |steps| ensures StepChecks(k, steps, i) {
        var cs := Cited(steps[i].rule.premises, ClaimsOf(steps[..i]));
        assert i > 0 ==> cs == [steps[i - 1].claim];
      }
    }
  }

  lemma ProofVerifies(k: Rules, lhs: Expr, rhs: Expr)
    requires Provable(k, lhs, rhs)
    ensures Verified(k, ProofOf(lhs, rhs)) == if StepsUnits(k.gauges, ProofOf(lhs, rhs).steps).Some? then Some(Equality(lhs, rhs)) else None
  {
    hide AllCheck, StepsUnits, Fits;
    ProofChecks(k, lhs, rhs);
  }

  /** Whatever was proved before, the export of such a proof is the proof alone. */
  lemma ProofExport(before: seq<Step>, lhs: Expr, rhs: Expr)
    ensures var steps := before + ProofFrom(|before|, lhs, rhs); Slice(steps, |steps| - 1) == ProofOf(lhs, rhs)
  {
    var n := |before|;
    var steps := before + ProofFrom(n, lhs, rhs);
    var root := |steps| - 1;
    ChainOfProof(before, lhs, rhs);
    hide ProofFrom;
    ChainNeeded(steps, root, n);
    NothingBelow(steps, Needed(steps, root), n);
    ProofCompact(before, lhs, rhs, Needed(steps, root));
  }

  /** Each step from the `n`-th on refers to the one before it, the `n`-th to none. */
  ghost predicate Chain(steps: seq<Step>, n: nat) {
    forall j: nat :: n <= j < |steps| ==> steps[j].rule.premises == if j == n then [] else [j - 1]
  }

  lemma ChainOfProof(before: seq<Step>, lhs: Expr, rhs: Expr)
    ensures Chain(before + ProofFrom(|before|, lhs, rhs), |before|)
  {
    var proof := ProofFrom(|before|, lhs, rhs);
    var steps := before + proof;
    assert forall j: nat :: |before| <= j < |steps| ==> steps[j] == proof[j - |before|];
  }

  lemma ChainNeeded(steps: seq<Step>, root: nat, n: nat)
    requires n <= root == |steps| - 1 && Chain(steps, n)
    ensures forall i: nat :: i in Needed(steps, root) <==> n <= i <= root
  {
    forall i: nat | i <= root ensures i in Needed(steps, root) <==> n <= i {
      if i < n { NotNeeded(steps, root, n, i); } else { ChainReaches(steps, root, n, i); }
    }
  }

  lemma {:induction false} ChainReaches(steps: seq<Step>, root: nat, n: nat, i: nat)
    requires n <= i <= root == |steps| - 1 && Chain(steps, n)
    ensures Needs(steps, root, i)
    decreases root - i
  {
    if i < root {
      ChainReaches(steps, root, n, i + 1);
      assert i in steps[i + 1].rule.premises;
    }
  }

  lemma {:induction false} NotNeeded(steps: seq<Step>, root: nat, n: nat, i: nat)
    requires i < n <= root < |steps| && Chain(steps, n)
    ensures !Needs(steps, root, i)
    decreases root - i
  {
    forall j | i < j <= root && Needs(steps, root, j) && i in steps[j].rule.premises ensures false {
      if j < n { NotNeeded(steps, root, n, j); }
    }
  }

  lemma {:induction false} NothingBelow(steps: seq<Step>, needed: set<nat>, n: nat)
    requires n <= |steps| && forall i: nat :: i < n ==> i !in needed
    ensures Rank(needed, n) == 0 && Compact(steps, needed, n) == []
  {
    if n > 0 { NothingBelow(steps, needed, n - 1); }
  }

  lemma ProofCompact(before: seq<Step>, lhs: Expr, rhs: Expr, needed: set<nat>)
    requires var steps := before + ProofFrom(|before|, lhs, rhs);
      && Rank(needed, |before|) == 0 && Compact(steps, needed, |before|) == []
      && forall i: nat :: |before| <= i < |steps| ==> i in needed
    ensures var steps := before + ProofFrom(|before|, lhs, rhs);
      Compact(steps, needed, |steps|) == ProofOf(lhs, rhs).steps && Rank(needed, |steps| - 1) == ProofOf(lhs, rhs).root
  {
    hide Compact, Rank, Renumbered;
    var n := |before|;
    var proof := ProofFrom(n, lhs, rhs);
    var steps := before + proof;
    assert steps[n] == proof[0] && steps[n + 1] == proof[1];
    CompactNext(steps, needed, n);
    CompactNext(steps, needed, n + 1);
    RenumberedNone(needed, proof[0].rule.form);
    RenumberedOne(needed, Symmetry, n);
    if lhs != rhs {
      assert steps[n + 2] == proof[2];
      CompactNext(steps, needed, n + 2);
      RenumberedOne(needed, Symmetry, n + 1);
    }
  }

  lemma CompactNext(steps: seq<Step>, needed: set<nat>, i: nat)
    requires i < |steps| && i in needed
    ensures Compact(steps, needed, i + 1) == Compact(steps, needed, i) + [Step(Rank(needed, i), Renumbered(needed, steps[i].rule), steps[i].claim)]
    ensures Rank(needed, i + 1) == Rank(needed, i) + 1
  {
  }

  lemma RenumberedNone(needed: set<nat>, f: Form)
    ensures Renumbered(needed, Rule(f, [])) == Rule(f, [])
  {
  }

  lemma RenumberedOne(needed: set<nat>, f: Form, p: nat)
    ensures Renumbered(needed, Rule(f, [p])) == Rule(f, [Rank(needed, p)])
  {
  }

  /** A leaf concludes by itself. */
  lemma LeafConcludes(k: Rules, steps: seq<Step>, f: Form)
    ensures Check(k, Rule(f, []), |steps|, ClaimsOf(steps)) == Derive(k, f, [])
  {
  }

  lemma SymmetryConcludes(k: Rules, steps: seq<Step>, a: Expr, b: Expr)
    requires steps != [] && steps[|steps| - 1].claim == Equality(a, b)
    ensures Check(k, Rule(Symmetry, [|steps| - 1]), |steps|, ClaimsOf(steps)) == Some(Equality(b, a))
  {
    assert Cited([|steps| - 1], ClaimsOf(steps)) == [Equality(a, b)];
  }

  /** Room for the proof, and the proof itself. */
  ghost predicate Reachable(k: Rules, steps: seq<Step>, lhs: Expr, rhs: Expr) {
    Provable(k, lhs, rhs) && |steps| + |ProofFrom(0, lhs, rhs)| <= MAX_DERIVATION_STEPS
  }

  /** The store after the first `m` steps of the proof. */
  ghost function Grown(before: seq<Step>, lhs: Expr, rhs: Expr, m: nat): seq<Step>
    requires m <= |ProofFrom(0, lhs, rhs)|
  {
    before + ProofFrom(|before|, lhs, rhs)[..m]
  }

  /** The first `m` steps of the proof can be made. */
  ghost predicate Begun(k: Rules, before: seq<Step>, lhs: Expr, rhs: Expr, m: nat)
    requires m <= |ProofFrom(0, lhs, rhs)|
  {
    && (m > 0 ==> lhs == rhs || k.sameNormalForm(lhs, rhs))
    && |before| + m <= MAX_DERIVATION_STEPS
    && forall i: nat :: i < m ==> Fits(k, ProofFrom(|before|, lhs, rhs)[i])
  }

  lemma BegunIsReachable(k: Rules, before: seq<Step>, lhs: Expr, rhs: Expr)
    ensures Reachable(k, before, lhs, rhs) <==> Begun(k, before, lhs, rhs, |ProofFrom(0, lhs, rhs)|)
    ensures Reachable(k, before, lhs, rhs) ==> forall m: nat :: m <= |ProofFrom(0, lhs, rhs)| ==> Begun(k, before, lhs, rhs, m)
  {
    var here, there := ProofFrom(|before|, lhs, rhs), ProofFrom(0, lhs, rhs);
    assert forall i: nat :: i < |there| ==> Fits(k, here[i]) == Fits(k, there[i]);
    if Begun(k, before, lhs, rhs, |there|) {
      forall s | s in there ensures Fits(k, s) {
        var i: nat :| i < |there| && there[i] == s;
        assert Fits(k, here[i]);
      }
    }
  }

  /** One step of the proof: when it can be made, and what it leaves. */
  lemma NextOfProof(k: Rules, before: seq<Step>, lhs: Expr, rhs: Expr, m: nat)
    requires m < |ProofFrom(0, lhs, rhs)| && Begun(k, before, lhs, rhs, m)
    ensures var steps, rule := Grown(before, lhs, rhs, m), ProofFrom(|before|, lhs, rhs)[m].rule;
      && (Addable(k, steps, rule) <==> Begun(k, before, lhs, rhs, m + 1))
      && (Addable(k, steps, rule) ==> Added(k, steps, rule) == Grown(before, lhs, rhs, m + 1))
  {
    hide Check;
    var proof := ProofFrom(|before|, lhs, rhs);
    ProofConcludes(k, before, lhs, rhs, m);
    assert proof[..m + 1] == proof[..m] + [proof[m]];
    assert Begun(k, before, lhs, rhs, m + 1) <==> (lhs == rhs || k.sameNormalForm(lhs, rhs)) && |before| + m < MAX_DERIVATION_STEPS && Fits(k, proof[m]);
  }

  lemma ProofConcludes(k: Rules, before: seq<Step>, lhs: Expr, rhs: Expr, m: nat)
    requires m < |ProofFrom(0, lhs, rhs)| && (m > 0 ==> lhs == rhs || k.sameNormalForm(lhs, rhs))
    ensures var steps, step := Grown(before, lhs, rhs, m), ProofFrom(|before|, lhs, rhs)[m];
      Check(k, step.rule, |steps|, ClaimsOf(steps)) == if lhs == rhs || k.sameNormalForm(lhs, rhs) then Some(step.claim) else None
  {
    hide Check, Substitution.CaptureAvoidingSubs;
    var proof := ProofFrom(|before|, lhs, rhs);
    var steps := Grown(before, lhs, rhs, m);
    if m == 0 {
      LeafConcludes(k, steps, proof[0].rule.form);
    } else {
      hide Derive;
      assert steps[|steps| - 1] == proof[m - 1];
      SymmetryConcludes(k, steps, proof[m - 1].claim.lhs, proof[m - 1].claim.rhs);
    }
  }

  lemma RulesOfProof(n: nat, lhs: Expr, rhs: Expr)
    ensures var proof := ProofFrom(n, lhs, rhs);
      && |proof| == |ProofFrom(0, lhs, rhs)| == (if lhs == rhs then 2 else 3)
      && proof[0].rule == Rule(if lhs == rhs then Reflexivity(lhs) else PolynomialNormalForm(lhs, rhs), [])
      && proof[1].rule == Rule(Symmetry, [n])
      && (lhs != rhs ==> proof[2].rule == Rule(Symmetry, [n + 1]))
  {
  }

  lemma StartOfProof(k: Rules, before: seq<Step>, lhs: Expr, rhs: Expr)
    requires |before| <= MAX_DERIVATION_STEPS
    ensures Begun(k, before, lhs, rhs, 0) && Grown(before, lhs, rhs, 0) == before
    ensures lhs != rhs && !k.sameNormalForm(lhs, rhs) ==> !Begun(k, before, lhs, rhs, 1)
    ensures forall m: nat :: m <= |ProofFrom(0, lhs, rhs)| ==> |Grown(before, lhs, rhs, m)| == |before| + m
  {
  }

  lemma EndOfProof(k: Rules, before: seq<Step>, lhs: Expr, rhs: Expr)
    requires Begun(k, before, lhs, rhs, |ProofFrom(0, lhs, rhs)|)
    ensures var steps := Grown(before, lhs, rhs, |ProofFrom(0, lhs, rhs)|);
      steps != [] && Slice(steps, |steps| - 1) == ProofOf(lhs, rhs) && Provable(k, lhs, rhs)
  {
    var proof := ProofFrom(|before|, lhs, rhs);
    BegunIsReachable(k, before, lhs, rhs);
    ProofExport(before, lhs, rhs);
    assert proof[..|proof|] == proof;
  }
}
