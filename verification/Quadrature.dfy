/** Certified integration: adaptive bisection on a stack, and the checker that trusts none of it. */
module Quadrature {
  import opened Wrappers
  import opened Balls

  const MAX_QUADRATURE_INTERVALS: nat := 1024
  const MAX_QUADRATURE_EVALUATIONS: nat := 4 * MAX_QUADRATURE_INTERVALS + 4
  const MAX_DEPTH: nat := 64

  datatype EnclosureError = Domain | DivisionByZero | NonRealSquareRoot | InvalidPrecision | Stopped | OtherRefusal

  datatype QuadratureError =
    | InvalidTolerance
    | InvalidPartition
    | ResourceLimit
    | AccuracyNotReached
    | InconsistentEnclosure
    | Enclosure(cause: EnclosureError)

  type Outcome<T> = Result<T, QuadratureError>

  /** Overestimation of the domain may go away on smaller cells; nothing else does. */
  predicate SubdivisionCanResolve(e: QuadratureError) {
    e in {Enclosure(Domain), Enclosure(DivisionByZero), Enclosure(NonRealSquareRoot)}
  }

  function Midpoint(l: real, u: real): real {
    (l + u) / 2.0
  }

  /** The integrand, as interval evaluation sees it. */
  datatype Integrand = Integrand(evaluate: Ball -> Outcome<Jet>, precision: nat) {
    /** The enclosure of the integral over one cell. */
    function CellEnclosure(l: real, u: real): Outcome<Ball> {
      if l > u then Err(InvalidPartition)
      else
        var range := evaluate(Ball(Midpoint(l, u), (u - l) / 2.0));
        if range.Err? then Err(range.error)
        else if l == u then Ok(Exact(0.0))
        else
          var midpoint := evaluate(Exact(Midpoint(l, u)));
          if midpoint.Err? then Err(midpoint.error)
          else
            match CellBound(range.value, midpoint.value.value, u - l)
            case None => Err(InconsistentEnclosure)
            case Some(bound) =>
              Power10IsPositive(precision + 8);
              Ok(RoundOutward(bound, Power10(precision + 8)))
    }
  }

  /** What the local tolerance is a share of. */
  datatype Goal = Goal(f: Integrand, total: real, tolerance: real) {
    predicate Allows(b: Ball, l: real, u: real) {
      b.rad * total * 2.0 <= tolerance * (u - l)
    }

    /** Whether a cell is accepted as it is; a refusal that smaller cells may not have counts as not. */
    function Decide(l: real, u: real): Outcome<bool> {
      match f.CellEnclosure(l, u)
      case Ok(b) => Ok(Allows(b, l, u))
      case Err(e) => if SubdivisionCanResolve(e) then Ok(false) else Err(e)
    }

    /** Why a cell that cannot be split further is given up. */
    function GiveUp(l: real, u: real): QuadratureError {
      match f.CellEnclosure(l, u)
      case Ok(_) => AccuracyNotReached
      case Err(e) => e
    }

    /** Plain recursive bisection: the right ends of the accepted cells, left to right. */
    function Bisect(l: real, u: real, depth: nat): Outcome<seq<real>>
      decreases MAX_DEPTH - depth
    {
      var accepted := Decide(l, u);
      if accepted.Err? then Err(accepted.error)
      else if accepted.value then Ok([u])
      else if depth >= MAX_DEPTH then Err(GiveUp(l, u))
      else Append(Bisect(l, Midpoint(l, u), depth + 1), Bisect(Midpoint(l, u), u, depth + 1))
    }

    /** Points that increase, with every cell between them accepted. */
    ghost predicate Tiling(points: seq<real>) {
      points != [] && forall i :: 0 <= i < |points| - 1 ==> points[i] < points[i + 1] && Decide(points[i], points[i + 1]) == Ok(true)
    }

    lemma TilingConcat(a: seq<real>, b: seq<real>)
      requires Tiling(a) && Tiling(b) && a[|a| - 1] == b[0]
      ensures Tiling(a + b[1..]) && (a + b[1..])[|a + b[1..]| - 1] == b[|b| - 1]
    {
      hide Decide;
      var c := a + b[1..];
      forall i | 0 <= i < |c| - 1 ensures c[i] < c[i + 1] && Decide(c[i], c[i + 1]) == Ok(true) {
        if i >= |a| - 1 { assert c[i] == b[i - (|a| - 1)] && c[i + 1] == b[i + 1 - (|a| - 1)]; }
      }
    }

    lemma {:induction false} BisectTiles(l: real, u: real, depth: nat)
      requires l < u && Bisect(l, u, depth).Ok?
      ensures var p := Bisect(l, u, depth).value; p != [] && p[|p| - 1] == u && Tiling([l] + p)
      decreases MAX_DEPTH - depth
    {
      hide Decide, GiveUp, Tiling;
      if Decide(l, u) == Ok(true) {
        OneCell(l, u);
      } else {
        var m := Midpoint(l, u);
        BisectTiles(l, m, depth + 1);
        BisectTiles(m, u, depth + 1);
        var left, right := Bisect(l, m, depth + 1).value, Bisect(m, u, depth + 1).value;
        TilingConcat([l] + left, [m] + right);
        assert [l] + left + ([m] + right)[1..] == [l] + (left + right);
      }
    }

    lemma OneCell(l: real, u: real)
      requires l < u && Decide(l, u) == Ok(true)
      ensures Tiling([l] + [u])
    {
    }

    /** Only lengths of the form `total / 2^d` occur, with `d` at most the depth limit. */
    lemma {:induction false} BisectIsDyadic(l: real, u: real, depth: nat, w: real)
      requires depth <= MAX_DEPTH && u - l == Halved(w, depth) && Bisect(l, u, depth).Ok?
      ensures var p := Bisect(l, u, depth).value; p != [] && p[|p| - 1] == u && AllDyadic(w, [l] + p)
      decreases MAX_DEPTH - depth
    {
      OneDyadic(w, l, u, depth);
      hide Decide, GiveUp, Dyadic, Halved, AllDyadic;
      if Decide(l, u) != Ok(true) {
        var m := Midpoint(l, u);
        MidpointHalves(l, u, w, depth);
        hide Midpoint;
        BisectIsDyadic(l, m, depth + 1, w);
        BisectIsDyadic(m, u, depth + 1, w);
        JoinDyadic(w, l, Bisect(l, m, depth + 1).value, m, Bisect(m, u, depth + 1).value);
      }
    }
  }

  lemma OneDyadic(w: real, l: real, u: real, depth: nat)
    requires depth <= MAX_DEPTH && u - l == Halved(w, depth)
    ensures AllDyadic(w, [l] + [u])
  {
    assert Dyadic(w, u - l);
    hide Dyadic, Halved;
  }

  lemma JoinDyadic(w: real, l: real, left: seq<real>, m: real, right: seq<real>)
    requires left != [] && left[|left| - 1] == m && AllDyadic(w, [l] + left) && AllDyadic(w, [m] + right)
    ensures AllDyadic(w, [l] + (left + right))
  {
    AllDyadicConcat(w, [l] + left, [m] + right);
    assert [l] + left + ([m] + right)[1..] == [l] + (left + right);
  }

  lemma MidpointHalves(l: real, u: real, w: real, depth: nat)
    requires u - l == Halved(w, depth)
    ensures Midpoint(l, u) - l == Halved(w, depth + 1) && u - Midpoint(l, u) == Halved(w, depth + 1)
  {
  }

  ghost predicate AllDyadic(w: real, points: seq<real>) {
    forall i :: 0 <= i < |points| - 1 ==> Dyadic(w, points[i + 1] - points[i])
  }

  lemma AllDyadicConcat(w: real, a: seq<real>, b: seq<real>)
    requires a != [] && b != [] && a[|a| - 1] == b[0] && AllDyadic(w, a) && AllDyadic(w, b)
    ensures AllDyadic(w, a + b[1..])
  {
    hide Dyadic;
    var c := a + b[1..];
    forall i | 0 <= i < |c| - 1 ensures Dyadic(w, c[i + 1] - c[i]) {
      if i >= |a| - 1 { assert c[i] == b[i - (|a| - 1)] && c[i + 1] == b[i + 1 - (|a| - 1)]; }
    }
  }

  // ---- the whole enclosure

  ghost predicate Covers(f: Integrand, points: seq<real>) {
    points != [] && forall i :: 0 <= i < |points| - 1 ==> points[i] < points[i + 1] && f.CellEnclosure(points[i], points[i + 1]).Ok?
  }

  function Sum(f: Integrand, points: seq<real>, k: nat): Ball
    requires k < |points| && Covers(f, points)
  {
    if k == 0 then Exact(0.0) else Add(Sum(f, points, k - 1), f.CellEnclosure(points[k - 1], points[k]).value)
  }

  /** Each accepted cell keeps to its share, so their sum keeps to the sum of the shares. */
  lemma {:induction false} LocalTolerancesCompose(goal: Goal, points: seq<real>, k: nat)
    requires goal.Tiling(points) && k < |points| && Covers(goal.f, points)
    ensures goal.Allows(Sum(goal.f, points, k), points[0], points[k])
  {
    if k > 0 {
      LocalTolerancesCompose(goal, points, k - 1);
      var rest, cell := Sum(goal.f, points, k - 1), goal.f.CellEnclosure(points[k - 1], points[k]).value;
      assert goal.Decide(points[k - 1], points[k]) == Ok(true);
      hide goal.Allows, goal.f.CellEnclosure;
      AddsUp(goal, rest, cell, points[0], points[k - 1], points[k]);
    }
  }

  lemma AddsUp(goal: Goal, x: Ball, y: Ball, a: real, b: real, c: real)
    requires goal.Allows(x, a, b) && goal.Allows(y, b, c)
    ensures goal.Allows(Add(x, y), a, c)
  {
    var total, tolerance := goal.total, goal.tolerance;
    assert tolerance * (b - a) + tolerance * (c - b) == tolerance * (c - a);
    assert (x.rad + y.rad) * total * 2.0 == x.rad * total * 2.0 + y.rad * total * 2.0;
  }

  /** The whole share is the tolerance. */
  lemma WholeShare(goal: Goal, b: Ball, l: real, u: real)
    requires goal.Allows(b, l, u) && goal.total == u - l > 0.0
    ensures b.Width() <= goal.tolerance
  {
    assert b.Width() * goal.total <= goal.tolerance * goal.total;
    Cancel(b.Width(), goal.tolerance, goal.total);
  }

  /** A tiling's cells have enclosures, since they were accepted by them. */
  lemma TilingCovers(goal: Goal, points: seq<real>)
    requires goal.Tiling(points)
    ensures Covers(goal.f, points)
  {
    forall i | 0 <= i < |points| - 1 ensures points[i] < points[i + 1] && goal.f.CellEnclosure(points[i], points[i + 1]).Ok? {
      assert goal.Decide(points[i], points[i + 1]) == Ok(true);
    }
  }

  /** `integral(l, u)` adds up over neighbouring intervals. */
  ghost predicate Additive(integral: (real, real) -> real) {
    forall a, b, c :: a <= b <= c ==> integral(a, b) + integral(b, c) == integral(a, c)
  }

  /** The interval evaluation is right about the integral over every cell it has an answer for. */
  ghost predicate Describes(f: Integrand, integral: (real, real) -> real) {
    forall l, u | l < u ::
      var range, midpoint := f.evaluate(Ball(Midpoint(l, u), (u - l) / 2.0)), f.evaluate(Exact(Midpoint(l, u)));
      range.Ok? && midpoint.Ok? ==> CellFacts(integral(l, u), range.value, midpoint.value.value, u - l)
  }

  /** Interval evaluation of the straight line `a x + b`. */
  function LineJet(a: real, b: real, domain: Ball): Jet {
    Jet(Ball(a * domain.mid + b, Abs(a) * domain.rad), Exact(a), Exact(0.0))
  }

  function Line(a: real, b: real, precision: nat): Integrand {
    Integrand((domain: Ball) => Ok(LineJet(a, b, domain)), precision)
  }

  function LineIntegral(a: real, b: real, l: real, u: real): real {
    (a * Midpoint(l, u) + b) * (u - l)
  }

  /** It describes the integral of the line, which is additive: what the main theorems ask can be met. */
  lemma LinesAreDescribed(a: real, b: real, precision: nat)
    ensures var integral := (l: real, u: real) => LineIntegral(a, b, l, u);
      Additive(integral) && Describes(Line(a, b, precision), integral)
  {
    forall x, y, z ensures LineIntegral(a, b, x, y) + LineIntegral(a, b, y, z) == LineIntegral(a, b, x, z) { LineAdds(a, b, x, y, z); }
    forall l, u | l < u
      ensures CellFacts(LineIntegral(a, b, l, u), LineJet(a, b, Ball(Midpoint(l, u), (u - l) / 2.0)), LineJet(a, b, Exact(Midpoint(l, u))).value, u - l)
    {
      LineFacts(a, b, l, u);
    }
    hide LineIntegral, LineJet, CellFacts, Midpoint;
  }

  lemma LineAdds(a: real, b: real, x: real, y: real, z: real)
    ensures LineIntegral(a, b, x, y) + LineIntegral(a, b, y, z) == LineIntegral(a, b, x, z)
  {
  }

  lemma LineFacts(a: real, b: real, l: real, u: real)
    requires l < u
    ensures CellFacts(LineIntegral(a, b, l, u), LineJet(a, b, Ball(Midpoint(l, u), (u - l) / 2.0)), LineJet(a, b, Exact(Midpoint(l, u))).value, u - l)
  {
    var m, w := Midpoint(l, u), u - l;
    var y := a * m + b;
    var radius := Abs(a) * (w / 2.0);
    assert radius >= 0.0;
    assert LineJet(a, b, Ball(m, w / 2.0)).value.Contains(y) && LineJet(a, b, Exact(m)).value.Contains(y) && Exact(0.0).Contains(0.0);
    assert NearMidpointRule(y * w, y, w, 0.0) && IsMidpointRulePlus(y * w, y, w, 0.0);
  }

  lemma CellIsEnclosed(f: Integrand, integral: (real, real) -> real, l: real, u: real)
    requires Describes(f, integral) && l < u && f.CellEnclosure(l, u).Ok?
    ensures f.CellEnclosure(l, u).value.Contains(integral(l, u))
  {
    var range, midpoint := f.evaluate(Ball(Midpoint(l, u), (u - l) / 2.0)), f.evaluate(Exact(Midpoint(l, u)));
    assert CellFacts(integral(l, u), range.value, midpoint.value.value, u - l);
    CellBoundContains(integral(l, u), range.value, midpoint.value.value, u - l);
    Power10IsPositive(f.precision + 8);
    RoundOutwardContains(CellBound(range.value, midpoint.value.value, u - l).value, Power10(f.precision + 8));
    hide CellBound, RoundOutward, CellFacts, Power10;
  }

  /** An inconsistency between the three bounds shows that the evaluation is wrong about some integral. */
  lemma InconsistencyRefutes(f: Integrand, integral: (real, real) -> real, l: real, u: real)
    requires Describes(f, integral) && l < u && f.CellEnclosure(l, u).Err?
    ensures f.evaluate(Ball(Midpoint(l, u), (u - l) / 2.0)).Err? || f.evaluate(Exact(Midpoint(l, u))).Err?
  {
    var range, midpoint := f.evaluate(Ball(Midpoint(l, u), (u - l) / 2.0)), f.evaluate(Exact(Midpoint(l, u)));
    if range.Ok? && midpoint.Ok? {
      assert CellFacts(integral(l, u), range.value, midpoint.value.value, u - l);
      CellBoundContains(integral(l, u), range.value, midpoint.value.value, u - l);
    }
  }

  lemma {:induction false} SumEncloses(f: Integrand, integral: (real, real) -> real, points: seq<real>, k: nat)
    requires Additive(integral) && Describes(f, integral) && k < |points| && Covers(f, points)
    ensures points[0] <= points[k] && Sum(f, points, k).Contains(integral(points[0], points[k]))
  {
    hide Describes;
    if k == 0 {
      assert integral(points[0], points[0]) + integral(points[0], points[0]) == integral(points[0], points[0]);
    } else {
      SumEncloses(f, integral, points, k - 1);
      CellIsEnclosed(f, integral, points[k - 1], points[k]);
      var a, b, c := points[0], points[k - 1], points[k];
      assert integral(a, b) + integral(b, c) == integral(a, c);
      AddContains(Sum(f, points, k - 1), f.CellEnclosure(b, c).value, integral(a, b), integral(b, c));
    }
  }

  function Append(a: Outcome<seq<real>>, b: Outcome<seq<real>>): Outcome<seq<real>> {
    if a.Err? then a else if b.Err? then b else Ok(a.value + b.value)
  }

  function Halved(w: real, d: nat): real {
    if d == 0 then w else Halved(w, d - 1) / 2.0
  }

  ghost predicate Dyadic(w: real, length: real) {
    exists d: nat :: d <= MAX_DEPTH && length == Halved(w, d)
  }
}
