/** The limits on what the kernel records and the independent verifier reads, and the walk that applies them. */
module DerivationLimits {
  import opened Wrappers
  import opened Sequences
  import opened Exprs
  import opened Derivations
  import opened Symbols

  const MAX_DERIVATION_STEPS: nat := 16_384
  const MAX_DERIVATION_EXPR_NODES: nat := 262_144
  const MAX_DERIVATION_EXPR_DEPTH: nat := 256
  const MAX_DERIVATION_REFERENCES: nat := 262_144
  const MAX_DERIVATION_TEXT_BYTES: nat := 1_048_576
  const MAX_DERIVATION_NUMERIC_LIMBS: nat := 262_144
  const MAX_DERIVATION_DOMAIN_NODES: nat := 4_096
  const MAX_DERIVATION_DOMAIN_GENERATORS: nat := 4_096
  const UNIT: nat := 64

  /** What is counted. */
  datatype Weight = Weight(nodes: nat, text: nat, limbs: nat, references: nat, domainNodes: nat, generators: nat, work: nat)

  /** The sizes of texts and numbers, and the weights of the rules and claims that are not modelled further. */
  datatype Gauges = Gauges(bytes: string -> nat, limbs: int -> nat, otherRule: nat -> Option<Weight>, otherClaim: nat -> Option<Weight>)

  function Nothing(): Weight {
    Weight(0, 0, 0, 0, 0, 0, 0)
  }

  function Work(n: nat): Weight {
    Nothing().(work := n)
  }

  function Node(): Weight {
    Weight(1, 0, 0, 0, 0, 0, 1)
  }

  function Plus(a: Weight, b: Weight): Weight {
    Weight(a.nodes + b.nodes, a.text + b.text, a.limbs + b.limbs, a.references + b.references,
           a.domainNodes + b.domainNodes, a.generators + b.generators, a.work + b.work)
  }

  predicate Light(w: Weight) {
    && w.nodes <= MAX_DERIVATION_EXPR_NODES && w.text <= MAX_DERIVATION_TEXT_BYTES && w.limbs <= MAX_DERIVATION_NUMERIC_LIMBS
    && w.references <= MAX_DERIVATION_REFERENCES && w.domainNodes <= MAX_DERIVATION_DOMAIN_NODES
    && w.generators <= MAX_DERIVATION_DOMAIN_GENERATORS && w.work <= U64_MAX
  }

  function AtLeastOne(n: nat): nat {
    if n == 0 then 1 else n
  }

  function TextWeight(bytes: nat): Weight {
    Nothing().(text := bytes, work := AtLeastOne(DivCeil(bytes, UNIT)))
  }

  function LimbsWeight(limbs: nat): Weight {
    Nothing().(limbs := limbs, work := AtLeastOne(limbs))
  }

  function ReferencesWeight(count: nat): Weight {
    Nothing().(references := count, work := count)
  }

  // ---- expressions

  /** The weight of a node without its subexpressions. */
  function Own(g: Gauges, e: Expr): Weight {
    match e
    case Sym(s) => Plus(Node(), TextWeight(g.bytes(s.name)))
    case Integer(v) => Plus(Node(), LimbsWeight(g.limbs(v)))
    case Rational(q) => Plus(Node(), Plus(LimbsWeight(g.limbs(q.numer)), LimbsWeight(g.limbs(q.denom))))
    case Function(name, _) => Plus(Node(), TextWeight(g.bytes(name)))
    case _ => Node()
  }

  function ExprWeight(g: Gauges, e: Expr): (w: Weight)
    ensures w.nodes >= 1
    decreases e, 1
  {
    Plus(Own(g, e), ChildrenWeight(g, e, |Children(e)|))
  }

  /** The first `k` subexpressions. */
  function ChildrenWeight(g: Gauges, e: Expr, k: nat): (w: Weight)
    requires k <= |Children(e)|
    ensures w.nodes >= k
    decreases e, 0, k
  {
    if k == 0 then Nothing() else Plus(ChildrenWeight(g, e, k - 1), ExprWeight(g, Children(e)[k - 1]))
  }

  function Both(a: Option<Weight>, b: Option<Weight>): Option<Weight> {
    if a.Some? && b.Some? then Some(Plus(a.value, b.value)) else None
  }

  /** The weight of an expression that is not too deep. */
  function WeighExpr(g: Gauges, e: Expr): Option<Weight> {
    if RawWithin(e, MAX_DERIVATION_EXPR_DEPTH) then Some(ExprWeight(g, e)) else None
  }

  function WeighClaim(g: Gauges, c: Claim): Option<Weight> {
    match c
    case Equality(lhs, rhs) => Both(WeighExpr(g, lhs), WeighExpr(g, rhs))
    case OtherClaim(tag) => g.otherClaim(tag)
  }

  /** A rule that refers to `count` steps; how the steps are numbered does not matter. */
  function WeighRule(g: Gauges, f: Form, count: nat): Option<Weight> {
    match f
    case Reflexivity(e) => WeighExpr(g, e)
    case CongruenceFunction(name) => Some(Plus(TextWeight(g.bytes(name)), ReferencesWeight(count)))
    case Substitute(template, x) => Both(WeighExpr(g, template), Some(Plus(TextWeight(g.bytes(x.name)), ReferencesWeight(count))))
    case PolynomialNormalForm(lhs, rhs) =>
      Both(Some(TextWeight(g.bytes("PolynomialNormalForm"))), Both(WeighClaim(g, Equality(lhs, rhs)), Some(Work(1))))
    case Other(rule) => g.otherRule(rule)
    case _ => Some(ReferencesWeight(count))
  }

  function WeighRecord(g: Gauges, f: Form, count: nat, c: Claim): Option<Weight> {
    Both(WeighRule(g, f, count), WeighClaim(g, c))
  }

  function WeighStep(g: Gauges, s: Step): Option<Weight> {
    Both(Some(Work(1)), WeighRecord(g, s.rule.form, |s.rule.premises|, s.claim))
  }

  function WeighSteps(g: Gauges, steps: seq<Step>): Option<Weight> {
    if steps == [] then Some(Nothing()) else Both(WeighSteps(g, steps[..|steps| - 1]), WeighStep(g, steps[|steps| - 1]))
  }

  predicate Bearable(w: Option<Weight>) {
    w.Some? && Light(w.value)
  }

  /** What verifying is charged, if it is within the limits. */
  function Units(w: Option<Weight>): Option<nat> {
    if Bearable(w) then Some(AtLeastOne(DivCeil(w.value.work, UNIT))) else None
  }

  function StepsUnits(g: Gauges, steps: seq<Step>): Option<nat> {
    if |steps| > MAX_DERIVATION_STEPS then None else Units(WeighSteps(g, steps))
  }

  // ---- the walk

  type Entry = (Expr, nat)

  ghost function PendingWeight(g: Gauges, pending: seq<Entry>): (w: Weight)
    ensures w.nodes >= |pending|
  {
    if pending == [] then Nothing() else Plus(PendingWeight(g, pending[..|pending| - 1]), ExprWeight(g, pending[|pending| - 1].0))
  }

  ghost predicate AllShallow(pending: seq<Entry>) {
    forall i | 0 <= i < |pending| :: RawWithin(pending[i].0, MAX_DERIVATION_EXPR_DEPTH - pending[i].1)
  }

  function Below(e: Expr, depth: nat, k: nat): (es: seq<Entry>)
    requires k <= |Children(e)|
    ensures |es| == k && forall i :: 0 <= i < k ==> es[i] == (Children(e)[i], depth + 1)
  {
    seq(k, i requires 0 <= i < k => (Children(e)[i], depth + 1))
  }

  lemma PlusAssociates(a: Weight, b: Weight, c: Weight)
    ensures Plus(Plus(a, b), c) == Plus(a, Plus(b, c))
    ensures Plus(a, b) == Plus(b, a)
  {
  }

  lemma PlusNothing(a: Weight)
    ensures Plus(a, Nothing()) == a
  {
  }

  /** What is too heavy already stays so. */
  lemma HeavyStays(a: Weight, b: Weight)
    ensures Light(Plus(a, b)) ==> Light(a) && a.nodes + b.nodes <= MAX_DERIVATION_EXPR_NODES
  {
  }

  lemma PendingSnoc(g: Gauges, pending: seq<Entry>, last: Entry)
    ensures PendingWeight(g, pending + [last]) == Plus(PendingWeight(g, pending), ExprWeight(g, last.0))
  {
    assert (pending + [last])[..|pending|] == pending;
    hide ExprWeight, Plus;
  }

  lemma ChildrenNext(g: Gauges, e: Expr, k: nat)
    requires k < |Children(e)|
    ensures ChildrenWeight(g, e, k + 1) == Plus(ChildrenWeight(g, e, k), ExprWeight(g, Children(e)[k]))
  {
    hide ExprWeight, Children, Plus;
  }

  lemma {:induction false} PendingConcat(g: Gauges, pending: seq<Entry>, e: Expr, depth: nat, k: nat)
    requires k <= |Children(e)|
    ensures PendingWeight(g, pending + Below(e, depth, k)) == Plus(PendingWeight(g, pending), ChildrenWeight(g, e, k))
  {
    hide ExprWeight, PendingWeight, Children, Plus;
    if k == 0 {
      assert pending + Below(e, depth, 0) == pending;
      PlusNothing(PendingWeight(g, pending));
    } else {
      hide ChildrenWeight;
      var c := Children(e)[k - 1];
      PendingConcat(g, pending, e, depth, k - 1);
      ChildrenNext(g, e, k - 1);
      assert pending + Below(e, depth, k) == (pending + Below(e, depth, k - 1)) + [(c, depth + 1)];
      PendingSnoc(g, pending + Below(e, depth, k - 1), (c, depth + 1));
      PlusAssociates(PendingWeight(g, pending), ChildrenWeight(g, e, k - 1), ExprWeight(g, c));
    }
  }

  lemma ShallowConcat(a: seq<Entry>, b: seq<Entry>)
    ensures AllShallow(a + b) <==> AllShallow(a) && AllShallow(b)
  {
    hide RawWithin;
    assert forall i :: 0 <= i < |a| ==> (a + b)[i] == a[i];
    assert forall i :: 0 <= i < |b| ==> (a + b)[|a| + i] == b[i];
  }

  lemma ShallowChildren(e: Expr, depth: nat)
    requires depth <= MAX_DERIVATION_EXPR_DEPTH
    ensures AllShallow(Below(e, depth, |Children(e)|)) <==> AllShallow([(e, depth)])
  {
    hide Children;
    var below := Below(e, depth, |Children(e)|);
    assert AllShallow([(e, depth)]) <==> RawWithin(e, MAX_DERIVATION_EXPR_DEPTH - depth) by {
      assert [(e, depth)][0] == (e, depth);
      hide RawWithin;
    }
    assert forall i :: 0 <= i < |below| ==> below[i] == (Children(e)[i], depth + 1);
  }

  /** Popping an expression and pushing its subexpressions moves the bound down one level, and takes off its own weight. */
  lemma PopAndPush(g: Gauges, pending: seq<Entry>, e: Expr, depth: nat)
    requires depth <= MAX_DERIVATION_EXPR_DEPTH
    ensures var after := pending + Below(e, depth, |Children(e)|);
      && (AllShallow(pending + [(e, depth)]) <==> AllShallow(after))
      && PendingWeight(g, pending + [(e, depth)]) == Plus(Own(g, e), PendingWeight(g, after))
      && |Children(e)| <= PendingWeight(g, after).nodes < PendingWeight(g, pending + [(e, depth)]).nodes
  {
    hide Children, RawWithin, PendingWeight, ExprWeight, ChildrenWeight, Below, AllShallow;
    var n := |Children(e)|;
    ShallowConcat(pending, [(e, depth)]);
    ShallowConcat(pending, Below(e, depth, n));
    ShallowChildren(e, depth);
    PendingSnoc(g, pending, (e, depth));
    PendingConcat(g, pending, e, depth, n);
    OwnAndBelow(g, e);
    hide Own;
  }

  class DerivationPreflight {
    const gauges: Gauges
    var total: Weight

    constructor (gauges: Gauges)
      ensures this.gauges == gauges && total == Nothing()
    {
      this.gauges, total := gauges, Nothing();
    }

    /** Every counter is checked whenever it grows. */
    method Add(amount: Weight) returns (ok: bool)
      modifies this
      ensures total == Plus(old(total), amount) && (ok <==> Light(total))
    {
      total := Plus(total, amount);
      ok := Light(total);
    }

    method VisitExpr(e: Expr) returns (ok: bool)
      requires Light(total)
      modifies this
      ensures ok <==> WeighExpr(gauges, e).Some? && Light(Plus(old(total), ExprWeight(gauges, e)))
      ensures ok ==> total == Plus(old(total), ExprWeight(gauges, e))
    {
      hide ExprWeight, Own, RawWithin, Children, PendingWeight, AllShallow, Below, Plus, Light;
      ghost var whole := Plus(old(total), ExprWeight(gauges, e));
      var pending: seq<Entry> := [(e, 0)];
      OnePending(gauges, e);
      while pending != []
        invariant Light(total) && Plus(total, PendingWeight(gauges, pending)) == whole
        invariant AllShallow(pending) <==> RawWithin(e, MAX_DERIVATION_EXPR_DEPTH)
        decreases PendingWeight(gauges, pending).nodes
      {
        var (current, depth) := pending[|pending| - 1];
        var rest := pending[..|pending| - 1];
        assert pending == rest + [(current, depth)];
        if depth > MAX_DERIVATION_EXPR_DEPTH {
          TooDeep(pending);
          return false;
        }
        PopAndPush(gauges, rest, current, depth);
        ghost var after := PendingWeight(gauges, rest + Below(current, depth, |Children(current)|));
        PlusAssociates(total, Own(gauges, current), after);
        var fits := Add(Own(gauges, current));
        HeavyStays(total, after);
        if !fits || |Children(current)| > MAX_DERIVATION_EXPR_NODES - total.nodes { return false; }
        pending := rest + Below(current, depth, |Children(current)|);
      }
      NothingPending(gauges);
      PlusNothing(total);
      ok := true;
    }

    method VisitClaim(c: Claim) returns (ok: bool)
      requires Light(total)
      modifies this
      ensures ok <==> Bears(old(total), WeighClaim(gauges, c))
      ensures ok ==> total == Plus(old(total), WeighClaim(gauges, c).value)
    {
      hide ExprWeight, RawWithin, Light, Plus;
      ghost var before := total;
      match c {
        case Equality(lhs, rhs) =>
          BearsBoth(before, WeighExpr(gauges, lhs), WeighExpr(gauges, rhs));
          ok := VisitExpr(lhs);
          if ok { ok := VisitExpr(rhs); }
        case OtherClaim(tag) =>
          var w := gauges.otherClaim(tag);
          ok := w.Some?;
          if ok { ok := Add(w.value); }
      }
    }

    method VisitRule(f: Form, count: nat) returns (ok: bool)
      requires Light(total)
      modifies this
      ensures ok <==> Bears(old(total), WeighRule(gauges, f, count))
      ensures ok ==> total == Plus(old(total), WeighRule(gauges, f, count).value)
    {
      hide ExprWeight, RawWithin, Light, Plus, TextWeight, ReferencesWeight;
      ghost var before := total;
      match f {
        case Reflexivity(e) => ok := VisitExpr(e);
        case CongruenceFunction(name) =>
          BearsBoth(before, Some(TextWeight(gauges.bytes(name))), Some(ReferencesWeight(count)));
          ok := Add(TextWeight(gauges.bytes(name)));
          if ok { ok := Add(ReferencesWeight(count)); }
        case Substitute(template, x) =>
          ghost var text, references := Some(TextWeight(gauges.bytes(x.name))), Some(ReferencesWeight(count));
          BearsBoth(before, WeighExpr(gauges, template), Both(text, references));
          ok := VisitExpr(template);
          if ok {
            BearsBoth(total, text, references);
            ok := Add(TextWeight(gauges.bytes(x.name)));
            if ok { ok := Add(ReferencesWeight(count)); }
          }
        case PolynomialNormalForm(lhs, rhs) =>
          ghost var claim, work := WeighClaim(gauges, Equality(lhs, rhs)), Some(Work(1));
          BearsBoth(before, Some(TextWeight(gauges.bytes("PolynomialNormalForm"))), Both(claim, work));
          ok := Add(TextWeight(gauges.bytes("PolynomialNormalForm")));
          if ok {
            BearsBoth(total, claim, work);
            ok := VisitClaim(Equality(lhs, rhs));
            if ok { ok := Add(Work(1)); }
          }
        case Other(rule) =>
          var w := gauges.otherRule(rule);
          ok := w.Some?;
          if ok { ok := Add(w.value); }
        case _ => ok := Add(ReferencesWeight(count));
      }
    }
  }

  /** One record of the kernel by itself. */
  method RecordFits(g: Gauges, f: Form, count: nat, c: Claim) returns (ok: bool)
    ensures ok <==> Bearable(WeighRecord(g, f, count, c))
  {
    hide Light, WeighRule, WeighClaim;
    var preflight := new DerivationPreflight(g);
    FromNothing(WeighRecord(g, f, count, c));
    BearsBoth(Nothing(), WeighRule(g, f, count), WeighClaim(g, c));
    ok := preflight.VisitRule(f, count);
    if ok { ok := preflight.VisitClaim(c); }
  }

  /** A whole derivation, or the steps of one page of it, in one count. */
  method DerivationUnits(g: Gauges, steps: seq<Step>) returns (units: Option<nat>)
    ensures units == StepsUnits(g, steps)
  {
    if |steps| > MAX_DERIVATION_STEPS { return None; }
    hide Light, WeighRule, WeighClaim, Plus, Bears;
    var preflight := new DerivationPreflight(g);
    NothingIsLight();
    for i := 0 to |steps|
      invariant preflight.gauges == g && WeighSteps(g, steps[..i]) == Some(preflight.total) && Light(preflight.total)
    {
      var step := steps[i];
      NextWeight(g, steps, i);
      StepInParts(preflight.total, g, step);
      BearsIsAcceptable(preflight.total, WeighStep(g, step));
      var ok := preflight.Add(Work(1));
      if ok { ok := preflight.VisitRule(step.rule.form, |step.rule.premises|); }
      if ok { ok := preflight.VisitClaim(step.claim); }
      if !ok { TooHeavyFrom(g, steps, i); return None; }
    }
    assert steps[..|steps|] == steps;
    units := Some(AtLeastOne(DivCeil(preflight.total.work, UNIT)));
  }

  lemma NextWeight(g: Gauges, steps: seq<Step>, i: nat)
    requires i < |steps|
    ensures WeighSteps(g, steps[..i + 1]) == Both(WeighSteps(g, steps[..i]), WeighStep(g, steps[i]))
  {
    assert steps[..i + 1][..i] == steps[..i];
    hide WeighStep, Both;
  }

  /** A step is counted in three parts. */
  lemma StepInParts(total: Weight, g: Gauges, s: Step)
    ensures var one, rule, claim := Some(Work(1)), WeighRule(g, s.rule.form, |s.rule.premises|), WeighClaim(g, s.claim);
      && (Bears(total, WeighStep(g, s)) <==>
            Bears(total, one) && Bears(Plus(total, one.value), rule) && Bears(Plus(Plus(total, one.value), rule.value), claim))
      && (Bears(total, WeighStep(g, s)) ==> Plus(total, WeighStep(g, s).value) == Plus(Plus(Plus(total, one.value), rule.value), claim.value))
  {
    hide WeighRule, WeighClaim, Plus, Bears;
    var one := Some(Work(1));
    var rule, claim := WeighRule(g, s.rule.form, |s.rule.premises|), WeighClaim(g, s.claim);
    BearsBoth(total, one, Both(rule, claim));
    BearsBoth(Plus(total, one.value), rule, claim);
    BearsNone(total, WeighStep(g, s));
  }

  lemma BearsNone(total: Weight, w: Option<Weight>)
    ensures Bears(total, w) ==> w.Some?
  {
  }

  /** Steps that are too heavy stay so with more of them. */
  lemma {:induction false} TooHeavyFrom(g: Gauges, steps: seq<Step>, i: nat)
    requires i < |steps| && !Bearable(WeighSteps(g, steps[..i + 1]))
    ensures !Bearable(WeighSteps(g, steps))
    decreases |steps| - i
  {
    hide WeighStep, Plus, Light;
    if i + 1 == |steps| {
      assert steps[..i + 1] == steps;
    } else {
      NextWeight(g, steps, i + 1);
      var before, step := WeighSteps(g, steps[..i + 1]), WeighStep(g, steps[i + 1]);
      if before.Some? && step.Some? { HeavyStays(before.value, step.value); }
      TooHeavyFrom(g, steps, i + 1);
    }
  }

  /** What a count may still bear is what is acceptable with it. */
  lemma BearsIsAcceptable(before: Weight, w: Option<Weight>)
    ensures Bears(before, w) <==> Bearable(Both(Some(before), w))
  {
  }

  // ---- sums of weights

  /** The weight `w` may still be added to `total`. */
  ghost predicate Bears(total: Weight, w: Option<Weight>) {
    w.Some? && Light(Plus(total, w.value))
  }

  lemma NothingIsLight()
    ensures Light(Nothing())
  {
  }

  lemma FromNothing(w: Option<Weight>)
    ensures Light(Nothing()) && (Bears(Nothing(), w) <==> Bearable(w))
  {
    if w.Some? { PlusNothing(w.value); PlusAssociates(w.value, Nothing(), Nothing()); }
  }

  /** Two additions in turn are one. */
  lemma BearsBoth(total: Weight, a: Option<Weight>, b: Option<Weight>)
    ensures Bears(total, Both(a, b)) <==> Bears(total, a) && Bears(Plus(total, a.value), b)
    ensures a.Some? && b.Some? ==> Plus(total, Both(a, b).value) == Plus(Plus(total, a.value), b.value)
  {
    if a.Some? && b.Some? {
      PlusAssociates(total, a.value, b.value);
      HeavyStays(Plus(total, a.value), b.value);
    }
  }

  lemma NothingPending(g: Gauges)
    ensures PendingWeight(g, []) == Nothing() && AllShallow([])
  {
  }

  lemma OnePending(g: Gauges, e: Expr)
    ensures PendingWeight(g, [(e, 0)]) == ExprWeight(g, e)
    ensures AllShallow([(e, 0)]) <==> RawWithin(e, MAX_DERIVATION_EXPR_DEPTH)
  {
    assert [(e, 0)][0] == (e, 0);
    hide RawWithin, ExprWeight;
    assert [(e, 0)][..0] == [];
  }

  lemma TooDeep(pending: seq<Entry>)
    requires pending != [] && pending[|pending| - 1].1 > MAX_DERIVATION_EXPR_DEPTH
    ensures !AllShallow(pending)
  {
    assert !RawWithin(pending[|pending| - 1].0, MAX_DERIVATION_EXPR_DEPTH - pending[|pending| - 1].1);
  }

  lemma OwnAndBelow(g: Gauges, e: Expr)
    ensures ExprWeight(g, e) == Plus(Own(g, e), ChildrenWeight(g, e, |Children(e)|)) && Own(g, e).nodes == 1
  {
  }

  lemma NoChildren(g: Gauges, e: Expr)
    ensures ChildrenWeight(g, e, 0) == Nothing()
  {
    hide ExprWeight, Own;
  }

  /** An expression has a node, takes work, and refers to nothing. */
  lemma {:induction false} ExprIsCounted(g: Gauges, e: Expr)
    ensures var w := ExprWeight(g, e); Size(e) == w.nodes <= w.work && w.references == w.domainNodes == w.generators == 0
    decreases e, 1
  {
    hide ExprWeight, Size, SizeAll, Children, ChildrenWeight;
    ChildrenAreCounted(g, e, |Children(e)|);
    SizeIsOfChildren(e);
    OwnAndBelow(g, e);
    OwnIsCounted(g, e);
    hide Own;
  }

  lemma OwnIsCounted(g: Gauges, e: Expr)
    ensures var w := Own(g, e); 1 == w.nodes <= w.work && w.references == w.domainNodes == w.generators == 0
  {
  }

  lemma {:induction false} ChildrenAreCounted(g: Gauges, e: Expr, k: nat)
    requires k <= |Children(e)|
    ensures var w := ChildrenWeight(g, e, k); SizeAll(Children(e)[..k]) == w.nodes <= w.work && w.references == w.domainNodes == w.generators == 0
    decreases e, 0, k
  {
    if k > 0 {
      ChildrenAreCounted(g, e, k - 1);
      ExprIsCounted(g, Children(e)[k - 1]);
      SizeAllSnoc(Children(e)[..k - 1], Children(e)[k - 1]);
      assert Children(e)[..k] == Children(e)[..k - 1] + [Children(e)[k - 1]];
    }
  }

  lemma {:induction false} SizeAllSnoc(es: seq<Expr>, e: Expr)
    ensures SizeAll(es + [e]) == SizeAll(es) + Size(e)
  {
    if es == [] {
      assert [e][1..] == [];
    } else {
      assert (es + [e])[1..] == es[1..] + [e];
      SizeAllSnoc(es[1..], e);
    }
  }

  lemma SizeIsOfChildren(e: Expr)
    ensures Size(e) == 1 + SizeAll(Children(e)) && Children(e)[..|Children(e)|] == Children(e)
  {
    if e.Pow? {
      var cs := Children(e);
      assert cs[1..] == [e.exponent] && [e.exponent][1..] == [];
      assert SizeAll(cs[1..]) == Size(cs[1]);
    }
  }

  /** The units of an expression bound its size. */
  lemma UnitsBoundNodes(g: Gauges, e: Expr)
    ensures Units(WeighExpr(g, e)).Some? ==> Size(e) <= UNIT * Units(WeighExpr(g, e)).value
  {
    ExprIsCounted(g, e);
    hide ExprWeight, RawWithin, Size;
  }

  lemma {:induction false} WeighConcat(g: Gauges, a: seq<Step>, b: seq<Step>)
    ensures WeighSteps(g, a + b) == Both(WeighSteps(g, a), WeighSteps(g, b))
  {
    hide WeighStep, Plus;
    if b == [] {
      assert a + b == a;
      if WeighSteps(g, a).Some? { PlusNothing(WeighSteps(g, a).value); }
    } else {
      var front, last := b[..|b| - 1], b[|b| - 1];
      assert (a + b)[..|a + b| - 1] == a + front;
      WeighConcat(g, a, front);
      var x, y, z := WeighSteps(g, a), WeighSteps(g, front), WeighStep(g, last);
      if x.Some? && y.Some? && z.Some? { PlusAssociates(x.value, y.value, z.value); }
    }
  }

  /** Any run of the steps of a derivation within the limits is within them. */
  lemma PartIsLight(g: Gauges, steps: seq<Step>, i: nat, j: nat)
    requires i <= j <= |steps| && StepsUnits(g, steps).Some?
    ensures StepsUnits(g, steps[i..j]).Some?
  {
    hide WeighSteps, Plus, Light;
    var a, b, c := steps[..i], steps[i..j], steps[j..];
    assert steps == (a + b) + c;
    WeighConcat(g, a + b, c);
    WeighConcat(g, a, b);
    HeavyStays(WeighSteps(g, a + b).value, WeighSteps(g, c).value);
    PlusAssociates(WeighSteps(g, a).value, WeighSteps(g, b).value, Nothing());
    HeavyStays(WeighSteps(g, b).value, WeighSteps(g, a).value);
  }
}
