/** Which cells bisection accepts, halves or gives up, from what evaluation says of them. */
module Bisection {
  import opened Wrappers
  import opened Balls
  import opened Quadrature
  import opened Integration

  /** Evaluation over a cell, or at its midpoint once it has succeeded over the cell, fails with `e`. */
  ghost predicate FailsWith(f: Integrand, l: real, u: real, e: QuadratureError) {
    var whole, point := f.evaluate(Ball((l + u) / 2.0, (u - l) / 2.0)), f.evaluate(Ball((l + u) / 2.0, 0.0));
    whole == Err(e) || (whole.Ok? && point == Err(e))
  }

  /** The bounds of a cell over which evaluation succeeds: the range, and the midpoint value with either remainder. */
  ghost predicate Bounds(f: Integrand, l: real, u: real, cell: Jet, midpoint: Ball) {
    var whole, point := f.evaluate(Ball((l + u) / 2.0, (u - l) / 2.0)), f.evaluate(Ball((l + u) / 2.0, 0.0));
    whole == Ok(cell) && point.Ok? && point.value.value == midpoint
  }

  ghost predicate Shared(cell: Jet, midpoint: Ball, width: real, x: real) {
    Rectangle(cell, width).Contains(x) && Centred(cell, midpoint, width).Contains(x) && SecondOrder(cell, midpoint, width).Contains(x)
  }

  ghost predicate NothingShared(cell: Jet, midpoint: Ball, width: real) {
    forall x :: !Shared(cell, midpoint, width, x)
  }

  /** What the two halves give, one after the other. */
  ghost function Halves(goal: Goal, l: real, u: real, depth: nat): Outcome<seq<real>> {
    var m := (l + u) / 2.0;
    Append(goal.Bisect(l, m, depth + 1), goal.Bisect(m, u, depth + 1))
  }

  /** A domain error, a division by zero or a square root of a negative number may be overestimation: the cell is halved while it may be. */
  lemma OverestimationIsHalved(goal: Goal, l: real, u: real, depth: nat, cause: EnclosureError)
    requires l < u && FailsWith(goal.f, l, u, Enclosure(cause)) && cause in {EnclosureError.Domain, DivisionByZero, NonRealSquareRoot}
    ensures goal.Bisect(l, u, depth) == if depth < 64 then Halves(goal, l, u, depth) else Err(Enclosure(cause))
  {
  }

  /** Every other failure ends bisection with that failure. */
  lemma OtherFailuresEnd(goal: Goal, l: real, u: real, depth: nat, e: QuadratureError)
    requires l < u && FailsWith(goal.f, l, u, e)
    requires e !in {Enclosure(EnclosureError.Domain), Enclosure(DivisionByZero), Enclosure(NonRealSquareRoot)}
    ensures goal.Bisect(l, u, depth) == Err(e)
  {
  }

  /** Bounds that share no point end it as inconsistent. */
  lemma DisagreementEnds(goal: Goal, l: real, u: real, depth: nat, cell: Jet, midpoint: Ball)
    requires l < u && Bounds(goal.f, l, u, cell, midpoint) && NothingShared(cell, midpoint, u - l)
    ensures goal.Bisect(l, u, depth) == Err(InconsistentEnclosure)
  {
    BoundIsShared(cell, midpoint, u - l);
    hide CellBound;
  }

  lemma BoundIsShared(cell: Jet, midpoint: Ball, width: real)
    ensures CellBound(cell, midpoint, width).None? <==> NothingShared(cell, midpoint, width)
    ensures CellBound(cell, midpoint, width).Some? ==> forall x :: CellBound(cell, midpoint, width).value.Contains(x) <==> Shared(cell, midpoint, width, x)
  {
    hide Rectangle, Centred, SecondOrder;
    var both := Intersect(Rectangle(cell, width), Centred(cell, midpoint, width));
    forall x ensures Shared(cell, midpoint, width, x) <==> both.Some? && both.value.Contains(x) && SecondOrder(cell, midpoint, width).Contains(x) { }
  }

  /**
    Otherwise the cell is accepted exactly when its enclosure, which keeps every shared point, is no
    wider than its share of the tolerance by length; and if not, it is halved while it may be.
   */
  lemma AcceptedIffWithinShare(goal: Goal, l: real, u: real, depth: nat, cell: Jet, midpoint: Ball, x: real) returns (b: Ball)
    requires l < u && goal.total > 0.0 && Bounds(goal.f, l, u, cell, midpoint) && Shared(cell, midpoint, u - l, x)
    ensures goal.f.CellEnclosure(l, u) == Ok(b) && forall y :: Shared(cell, midpoint, u - l, y) ==> b.Contains(y)
    ensures goal.Bisect(l, u, depth) ==
      if b.Width() <= goal.tolerance * (u - l) / goal.total then Ok([u]) else if depth < 64 then Halves(goal, l, u, depth) else Err(AccuracyNotReached)
  {
    hide CellBound, Shared, RoundOutward, Power10, Bounds, goal.Allows, goal.f.CellEnclosure, goal.Bisect;
    BoundIsShared(cell, midpoint, u - l);
    Power10IsPositive(goal.f.precision + 8);
    var bound := CellBound(cell, midpoint, u - l).value;
    b := RoundOutward(bound, Power10(goal.f.precision + 8));
    RoundOutwardContains(bound, Power10(goal.f.precision + 8));
    EnclosureOfCell(goal.f, l, u, cell, midpoint);
    ShareByLength(b, goal.tolerance, u - l, goal.total);
    EnclosedCell(goal, l, u, depth, b);
  }

  lemma EnclosureOfCell(f: Integrand, l: real, u: real, cell: Jet, midpoint: Ball)
    requires l < u && Bounds(f, l, u, cell, midpoint) && CellBound(cell, midpoint, u - l).Some?
    ensures Power10(f.precision + 8) > 0 && f.CellEnclosure(l, u) == Ok(RoundOutward(CellBound(cell, midpoint, u - l).value, Power10(f.precision + 8)))
  {
    Power10IsPositive(f.precision + 8);
    hide CellBound, RoundOutward, Power10;
  }

  lemma EnclosedCell(goal: Goal, l: real, u: real, depth: nat, b: Ball)
    requires goal.f.CellEnclosure(l, u) == Ok(b)
    ensures goal.Bisect(l, u, depth) ==
      if b.rad * goal.total * 2.0 <= goal.tolerance * (u - l) then Ok([u]) else if depth < 64 then Halves(goal, l, u, depth) else Err(AccuracyNotReached)
  {
    hide goal.f.CellEnclosure;
  }

  lemma ShareByLength(b: Ball, tolerance: real, length: real, total: real)
    requires total > 0.0
    ensures b.rad * total * 2.0 <= tolerance * length <==> b.Width() <= tolerance * length / total
  {
    var share := tolerance * length / total;
    assert share * total == tolerance * length;
    assert b.Width() * total == b.rad * total * 2.0;
    if b.Width() <= share { Scaled(b.Width(), share, total); }
    if b.Width() > share { StrictlyScaled(share, b.Width(), total); }
  }

  // ---- one integrand for each of the three

  /** The number one, computed from something of `x x + 1/4` that fails with `cause` unless this is seen to be positive. */
  function Guarded(cause: EnclosureError, precision: nat): Integrand {
    Integrand((x: Ball) => if Radicand(x).mid > Radicand(x).rad then Ok(Jet(Exact(1.0), Exact(0.0), Exact(0.0))) else Err(Enclosure(cause)), precision)
  }

  function Radicand(x: Ball): Ball {
    Add(Mul(x, x), Exact(0.25))
  }

  lemma RadicandAt(m: real, r: real)
    requires m >= 0.0
    ensures Radicand(Ball(m, r)) == Ball(m * m + 0.25, m * r + m * r + r * r)
  {
  }

  /** What the guard makes of a ball whose radicand is known. */
  lemma GuardedAt(cause: EnclosureError, precision: nat, m: real, r: real, mid: real, rad: real)
    requires Radicand(Ball(m, r)) == Ball(mid, rad)
    ensures Guarded(cause, precision).evaluate(Ball(m, r)) == if mid > rad then Ok(Jet(Exact(1.0), Exact(0.0), Exact(0.0))) else Err(Enclosure(cause))
  {
    hide Radicand;
  }

  /** Over the whole of the unit interval it is not seen to be positive; on both halves it is. */
  lemma OverestimatedIsCertified(cause: EnclosureError, precision: nat, tolerance: real)
    requires cause in {EnclosureError.Domain, DivisionByZero, NonRealSquareRoot} && 8 <= precision <= 128 && tolerance > 0.0
    ensures var q := Request(Guarded(cause, precision), 0.0, 1.0, tolerance, 2);
      FailsWith(q.f, 0.0, 1.0, Enclosure(cause)) && Admitted(q) && Proposed(q, [0.0, 0.5, 1.0])
  {
    hide Guarded, Goal.Bisect, Integrand.CellEnclosure;
    var f := Guarded(cause, precision);
    var q := Request(f, 0.0, 1.0, tolerance, 2);
    var goal := Goal(f, 1.0, tolerance);
    assert GoalOf(q) == goal && f.precision == precision by { GuardedPrecision(cause, precision); }
    RadicandAt(0.5, 0.5);
    GuardedAt(cause, precision, 0.5, 0.5, 0.5, 0.75);
    OverestimationIsHalved(goal, 0.0, 1.0, 0, cause);
    SeenIsAccepted(goal, cause, precision, 0.25, 0.0, 0.5);
    SeenIsAccepted(goal, cause, precision, 0.75, 0.5, 1.0);
    PointIsSeen(cause, precision, 0.0);
    PointIsSeen(cause, precision, 1.0);
    assert [0.5] + [1.0] == [0.5, 1.0] && [0.0] + [0.5, 1.0] == [0.0, 0.5, 1.0];
  }

  lemma GuardedPrecision(cause: EnclosureError, precision: nat)
    ensures Guarded(cause, precision).precision == precision
  {
  }

  lemma PointIsSeen(cause: EnclosureError, precision: nat, x: real)
    requires x >= 0.0
    ensures Guarded(cause, precision).CellEnclosure(x, x).Ok?
  {
    hide Guarded;
    var square := x * x;
    assert square >= 0.0;
    RadicandAt(x, 0.0);
    GuardedAt(cause, precision, x, 0.0, square + 0.25, 0.0);
    PointCell(Guarded(cause, precision), x);
  }

  lemma PointCell(f: Integrand, x: real)
    ensures f.CellEnclosure(x, x).Ok? <==> f.evaluate(Ball(x, 0.0)).Ok?
  {
  }

  lemma SeenIsAccepted(goal: Goal, cause: EnclosureError, precision: nat, m: real, l: real, u: real)
    requires goal == Goal(Guarded(cause, precision), 1.0, goal.tolerance) && goal.tolerance > 0.0
    requires m == (l + u) / 2.0 && u - l == 0.5 && (m == 0.25 || m == 0.75)
    ensures goal.Bisect(l, u, 1) == Ok([u])
  {
    hide Guarded, Goal.Bisect, Integrand.CellEnclosure, CellBound, RoundOutward, Power10, Radicand;
    var one := Jet(Exact(1.0), Exact(0.0), Exact(0.0));
    SeenAt(cause, precision, m);
    assert Bounds(goal.f, l, u, one, Exact(1.0));
    OneIsExact(one, u - l);
    EnclosureOfCell(goal.f, l, u, one, Exact(1.0));
    var share := goal.tolerance * (u - l);
    assert share >= 0.0;
    EnclosedCell(goal, l, u, 1, Exact(u - l));
  }

  lemma SeenAt(cause: EnclosureError, precision: nat, m: real)
    requires m == 0.25 || m == 0.75
    ensures var one := Jet(Exact(1.0), Exact(0.0), Exact(0.0));
      Guarded(cause, precision).evaluate(Ball(m, 0.25)) == Ok(one) && Guarded(cause, precision).evaluate(Ball(m, 0.0)) == Ok(one)
  {
    hide Guarded;
    if m == 0.25 {
      RadicandAt(0.25, 0.25);
      GuardedAt(cause, precision, 0.25, 0.25, 0.3125, 0.1875);
      RadicandAt(0.25, 0.0);
      GuardedAt(cause, precision, 0.25, 0.0, 0.3125, 0.0);
    } else {
      RadicandAt(0.75, 0.25);
      GuardedAt(cause, precision, 0.75, 0.25, 0.8125, 0.4375);
      RadicandAt(0.75, 0.0);
      GuardedAt(cause, precision, 0.75, 0.0, 0.8125, 0.0);
    }
  }

  lemma OneIsExact(one: Jet, width: real)
    requires one == Jet(Exact(1.0), Exact(0.0), Exact(0.0)) && width >= 0.0
    ensures CellBound(one, Exact(1.0), width) == Some(Exact(width))
    ensures forall scale: nat | scale > 0 :: RoundOutward(Exact(width), scale) == Exact(width)
  {
    ExactMul(1.0, width);
    ExactCurvatureTerm(0.0, width);
    FirstOrderErrorIs(0.0, width);
  }
}
