/** Exact ball arithmetic, and the enclosure of one quadrature cell. */
module Balls {
  import opened Wrappers

  /** All the numbers within `rad` of `mid`. */
  datatype Ball = Ball(mid: real, rad: real) {
    predicate Contains(x: real) {
      mid - rad <= x <= mid + rad
    }

    function Width(): real {
      2.0 * rad
    }
  }

  function Exact(x: real): Ball {
    Ball(x, 0.0)
  }

  function Abs(x: real): real {
    if x < 0.0 then -x else x
  }

  function Add(a: Ball, b: Ball): Ball {
    Ball(a.mid + b.mid, a.rad + b.rad)
  }

  function Neg(a: Ball): Ball {
    Ball(-a.mid, a.rad)
  }

  function Mul(a: Ball, b: Ball): Ball {
    Ball(a.mid * b.mid, Abs(a.mid) * b.rad + Abs(b.mid) * a.rad + a.rad * b.rad)
  }

  /** The tightest ball around what two balls share; nothing when they share nothing. */
  function Intersect(a: Ball, b: Ball): (r: Option<Ball>)
    ensures r.None? <==> !exists x :: a.Contains(x) && b.Contains(x)
    ensures r.Some? ==> forall x :: r.value.Contains(x) <==> a.Contains(x) && b.Contains(x)
  {
    var low := if a.mid - a.rad < b.mid - b.rad then b.mid - b.rad else a.mid - a.rad;
    var high := if a.mid + a.rad < b.mid + b.rad then a.mid + a.rad else b.mid + b.rad;
    if low > high then
      assert forall x :: a.Contains(x) && b.Contains(x) ==> low <= x <= high;
      None
    else
      var r := FromEnds(low, high);
      assert r.mid - r.rad == low && r.mid + r.rad == high;
      assert a.rad >= 0.0 && b.rad >= 0.0 ==> a.Contains(low) && b.Contains(low);
      Some(r)
  }

  lemma ProductBound(x: real, r: real, y: real, s: real)
    requires -r <= x <= r && -s <= y <= s
    ensures -(r * s) <= x * y <= r * s
  {
    assert (r - x) * (s + y) >= 0.0 && (r + x) * (s - y) >= 0.0;
    assert (r - x) * (s - y) >= 0.0 && (r + x) * (s + y) >= 0.0;
    assert (r - x) * (s + y) + (r + x) * (s - y) == 2.0 * (r * s) - 2.0 * (x * y);
    assert (r - x) * (s - y) + (r + x) * (s + y) == 2.0 * (r * s) + 2.0 * (x * y);
  }

  lemma MulContains(a: Ball, b: Ball, x: real, y: real)
    requires a.Contains(x) && b.Contains(y)
    ensures Mul(a, b).Contains(x * y)
  {
    var dx, dy := x - a.mid, y - b.mid;
    ProductBound(a.mid, Abs(a.mid), dy, b.rad);
    ProductBound(dx, a.rad, b.mid, Abs(b.mid));
    ProductBound(dx, a.rad, dy, b.rad);
    assert x * y == a.mid * b.mid + a.mid * dy + dx * b.mid + dx * dy;
  }

  /** Sums and negatives are exact: every point of the result comes from points of the operands. */
  lemma AddIsExact(a: Ball, b: Ball, z: real)
    requires a.rad >= 0.0 && b.rad >= 0.0
    ensures Add(a, b).Contains(z) <==> exists x :: a.Contains(x) && b.Contains(z - x)
  {
    if Add(a, b).Contains(z) {
      var d := z - a.mid - b.mid;
      var x := a.mid + if d > b.rad then d - b.rad else if d < -b.rad then d + b.rad else 0.0;
      assert a.Contains(x) && b.Contains(z - x);
    }
  }

  lemma NegIsExact(a: Ball, x: real)
    ensures Neg(a).Contains(-x) <==> a.Contains(x)
  {
  }

  /** A product reaches the edge of its ball: no smaller ball about that midpoint contains all products. */
  lemma MulIsTight(a: Ball, b: Ball) returns (x: real, y: real)
    requires a.rad >= 0.0 && b.rad >= 0.0
    ensures a.Contains(x) && b.Contains(y)
    ensures var p := Mul(a, b); x * y == p.mid + p.rad || x * y == p.mid - p.rad
  {
    var up := (a.mid < 0.0) == (b.mid < 0.0);
    var dx, dy := if (b.mid < 0.0) == up then -a.rad else a.rad, if (a.mid < 0.0) == up then -b.rad else b.rad;
    x, y := a.mid + dx, b.mid + dy;
    assert x * y == a.mid * b.mid + a.mid * dy + dx * b.mid + dx * dy;
    EdgeSigns(a.mid, dy, b.rad, up);
    EdgeSigns(b.mid, dx, a.rad, up);
    assert dx * dy == if up then a.rad * b.rad else -(a.rad * b.rad);
  }

  lemma EdgeSigns(mid: real, d: real, rad: real, up: bool)
    requires d == if (mid < 0.0) == up then -rad else rad
    ensures mid * d == if up then Abs(mid) * rad else -(Abs(mid) * rad)
  {
    assert d == -rad ==> mid * d == -(mid * rad);
    assert (-mid) * rad == -(mid * rad);
  }

  // ---- outward rounding

  /** Integer division truncated toward zero. */
  function Truncated(n: int, d: int): int
    requires d > 0
  {
    if n < 0 then -(-n / d) else n / d
  }

  function FloorQuotient(n: int, d: int): int
    requires d > 0
  {
    if n - Truncated(n, d) * d < 0 then Truncated(n, d) - 1 else Truncated(n, d)
  }

  lemma FloorQuotientBounds(n: int, d: int)
    requires d > 0
    ensures FloorQuotient(n, d) * d <= n < (FloorQuotient(n, d) + 1) * d
  {
    if n < 0 { assert -n == (-n / d) * d + (-n) % d; } else { assert n == (n / d) * d + n % d; }
  }

  lemma FloorQuotientIsFloor(n: int, d: int)
    requires d > 0
    ensures FloorQuotient(n, d) == (n as real / d as real).Floor
  {
    var q := FloorQuotient(n, d);
    FloorQuotientBounds(n, d);
    hide FloorQuotient, Truncated;
    var x := n as real / d as real;
    TimesAsReal(q, d);
    TimesAsReal(q + 1, d);
    Between(q as real, (q + 1) as real, n as real, d as real, x);
  }

  lemma {:induction false} TimesAsReal(q: int, d: nat)
    ensures (q * d) as real == q as real * d as real
  {
    if d > 0 {
      TimesAsReal(q, d - 1);
      assert q * d == q * (d - 1) + q;
      assert d as real == (d - 1) as real + 1.0;
    }
  }

  lemma Between(low: real, high: real, n: real, d: real, x: real)
    requires d > 0.0 && x * d == n && low * d <= n < high * d
    ensures low <= x < high
  {
    Cancel(low, x, d);
    CancelStrictly(x, high, d);
  }

  lemma Cancel(x: real, y: real, s: real)
    requires s > 0.0 && x * s <= y * s
    ensures x <= y
  {
    if x > y { StrictlyScaled(y, x, s); }
  }

  lemma CancelStrictly(x: real, y: real, s: real)
    requires s > 0.0 && x * s < y * s
    ensures x < y
  {
    if x >= y { Scaled(y, x, s); }
  }

  lemma StrictlyScaled(x: real, y: real, s: real)
    requires s > 0.0 && x < y
    ensures x * s < y * s
  {
    assert (y - x) * s > 0.0;
  }

  lemma Scaled(x: real, y: real, s: real)
    requires s > 0.0 && x <= y
    ensures x * s <= y * s
  {
    assert (y - x) * s >= 0.0;
  }

  function Power10(n: nat): nat {
    if n == 0 then 1 else 10 * Power10(n - 1)
  }

  /** One, ten, and sums of exponents: the powers of ten. */
  lemma {:induction false} Power10Adds(m: nat, n: nat)
    ensures Power10(0) == 1 && Power10(1) == 10 && Power10(m + n) == Power10(m) * Power10(n)
  {
    if m > 0 {
      Power10Adds(m - 1, n);
      assert Power10(m + n) == 10 * Power10(m - 1 + n);
      assert 10 * (Power10(m - 1) * Power10(n)) == (10 * Power10(m - 1)) * Power10(n);
    }
  }

  lemma {:induction false} Power10IsPositive(n: nat)
    ensures Power10(n) > 0
  {
    if n > 0 { Power10IsPositive(n - 1); }
  }

  function FromEnds(low: real, high: real): Ball {
    Ball((low + high) / 2.0, (high - low) / 2.0)
  }

  /** The grid point at or below `x`, in `s`ths. */
  function GridBelow(x: real, s: real): int {
    (x * s).Floor
  }

  function GridAbove(x: real, s: real): int {
    -(-x * s).Floor
  }

  /** Both ends moved outward to the grid of `scale`ths; exact balls stay. */
  function RoundOutward(b: Ball, scale: nat): Ball
    requires scale > 0
  {
    var s := scale as real;
    if b.rad == 0.0 then b
    else FromEnds(GridBelow(b.mid - b.rad, s) as real / s, GridAbove(b.mid + b.rad, s) as real / s)
  }

  lemma BelowIsClose(x: real, s: real)
    requires s > 0.0
    ensures GridBelow(x, s) as real / s <= x < GridBelow(x, s) as real / s + 1.0 / s
  {
    var n := GridBelow(x, s) as real;
    var q, e := n / s, 1.0 / s;
    assert q * s == n && e * s == 1.0 && (q + e) * s == q * s + e * s;
    assert n <= x * s < n + 1.0;
    hide GridBelow;
    Cancel(q, x, s);
    CancelStrictly(x, q + e, s);
  }

  lemma AboveIsClose(x: real, s: real)
    requires s > 0.0
    ensures GridAbove(x, s) as real / s - 1.0 / s < x <= GridAbove(x, s) as real / s
  {
    BelowIsClose(-x, s);
    var n := GridBelow(-x, s);
    assert GridAbove(x, s) == -n;
    assert (-n) as real == -(n as real);
    Opposite(n as real, s);
  }

  lemma RoundedEnds(b: Ball, scale: nat)
    requires scale > 0 && b.rad != 0.0
    ensures var r, e := RoundOutward(b, scale), 1.0 / scale as real;
      && r.mid - r.rad <= b.mid - b.rad < r.mid - r.rad + e
      && r.mid + r.rad - e < b.mid + b.rad <= r.mid + r.rad
  {
    var s := scale as real;
    BelowIsClose(b.mid - b.rad, s);
    AboveIsClose(b.mid + b.rad, s);
    hide GridBelow, GridAbove;
    EndsOf(GridBelow(b.mid - b.rad, s) as real / s, GridAbove(b.mid + b.rad, s) as real / s);
    hide FromEnds;
  }

  /** Rounding never loses a point, and widens by at most two grid steps. */
  lemma RoundOutwardContains(b: Ball, scale: nat)
    requires scale > 0
    ensures forall x :: b.Contains(x) ==> RoundOutward(b, scale).Contains(x)
    ensures RoundOutward(b, scale).Width() <= b.Width() + 2.0 * (1.0 / scale as real)
  {
    var e := 1.0 / scale as real;
    assert e > 0.0;
    if b.rad != 0.0 {
      RoundedEnds(b, scale);
      hide RoundOutward;
    }
  }

  lemma Opposite(x: real, s: real)
    requires s > 0.0
    ensures -x / s == -(x / s)
  {
  }

  lemma EndsOf(low: real, high: real)
    ensures FromEnds(low, high).mid - FromEnds(low, high).rad == low
    ensures FromEnds(low, high).mid + FromEnds(low, high).rad == high
  {
  }

  // ---- one cell

  /** Bounds for a function, its slope and its curvature over a set of points. */
  datatype Jet = Jet(value: Ball, slope: Ball, curvature: Ball)

  function FirstOrderError(radius: real, width: real): Ball {
    var square := Mul(Exact(width), Exact(width));
    Mul(Mul(Exact(radius), square), Exact(1.0 / 4.0))
  }

  function CurvatureTerm(curvature: Ball, width: real): Ball {
    var cube := Mul(Mul(Exact(width), Exact(width)), Exact(width));
    Mul(Mul(curvature, cube), Exact(1.0 / 24.0))
  }

  /** The whole-cell range, the centred first-order bound and the signed second-order bound. */
  function Rectangle(cell: Jet, width: real): Ball {
    Mul(cell.value, Exact(width))
  }

  function Centred(cell: Jet, midpoint: Ball, width: real): Ball {
    Add(Mul(midpoint, Exact(width)), Ball(0.0, FirstOrderError(cell.slope.rad, width).mid))
  }

  function SecondOrder(cell: Jet, midpoint: Ball, width: real): Ball {
    Add(Mul(midpoint, Exact(width)), CurvatureTerm(cell.curvature, width))
  }

  /** What the three bounds agree on; nothing when they are inconsistent. */
  function CellBound(cell: Jet, midpoint: Ball, width: real): Option<Ball> {
    match Intersect(Rectangle(cell, width), Centred(cell, midpoint, width))
    case None => None
    case Some(both) => Intersect(both, SecondOrder(cell, midpoint, width))
  }

  /**
    What calculus says of the integral over a cell, in terms of the jets: it is the width times a
    value in range; it differs from the midpoint rule by at most a quarter of the slope's radius
    times the squared width; and by exactly a 24th of some curvature in range times the cubed width.
   */
  ghost predicate CellFacts(integral: real, cell: Jet, midpoint: Ball, width: real) {
    && (exists v :: cell.value.Contains(v) && integral == v * width)
    && exists y, h ::
      && midpoint.Contains(y) && cell.curvature.Contains(h)
      && NearMidpointRule(integral, y, width, cell.slope.rad) && IsMidpointRulePlus(integral, y, width, h)
  }

  ghost predicate NearMidpointRule(integral: real, y: real, width: real, radius: real) {
    Abs(integral - y * width) <= radius * (width * width) * (1.0 / 4.0)
  }

  ghost predicate IsMidpointRulePlus(integral: real, y: real, width: real, h: real) {
    integral - y * width == h * (width * width * width) * (1.0 / 24.0)
  }

  lemma ExactMul(x: real, y: real)
    ensures Mul(Exact(x), Exact(y)) == Exact(x * y)
  {
  }

  lemma ExactMulTwice(x: real, y: real, z: real)
    ensures Mul(Mul(Exact(x), Exact(y)), Exact(z)) == Exact(x * y * z)
  {
    ExactMul(x, y);
    ExactMul(x * y, z);
    hide Mul;
  }

  lemma FirstOrderErrorIs(radius: real, width: real)
    ensures FirstOrderError(radius, width) == Exact(radius * (width * width) * (1.0 / 4.0))
  {
    ExactMul(width, width);
    hide Mul;
    var square := width * width;
    ScaledErrorIs(radius, width, square);
  }

  lemma ScaledErrorIs(radius: real, width: real, square: real)
    requires Mul(Exact(width), Exact(width)) == Exact(square)
    ensures FirstOrderError(radius, width) == Exact(radius * square * (1.0 / 4.0))
  {
    ExactMulTwice(radius, square, 1.0 / 4.0);
    hide Mul;
    var y := radius * square * (1.0 / 4.0);
    assert Mul(Mul(Exact(radius), Exact(square)), Exact(1.0 / 4.0)) == Exact(y);
    assert FirstOrderError(radius, width) == Exact(y);
  }

  lemma CubeIs(width: real)
    ensures Mul(Mul(Exact(width), Exact(width)), Exact(width)) == Exact(width * width * width)
  {
    ExactMulTwice(width, width, width);
  }

  lemma ExactCurvatureTerm(h: real, w: real)
    ensures CurvatureTerm(Exact(h), w) == Exact(h * (w * w * w) * (1.0 / 24.0))
  {
    CubeIs(w);
    hide Mul;
    var cube := w * w * w;
    ScaledCurvatureIs(h, w, cube);
  }

  lemma ScaledCurvatureIs(h: real, w: real, cube: real)
    requires Mul(Mul(Exact(w), Exact(w)), Exact(w)) == Exact(cube)
    ensures CurvatureTerm(Exact(h), w) == Exact(h * cube * (1.0 / 24.0))
  {
    ExactMulTwice(h, cube, 1.0 / 24.0);
    hide Mul;
  }

  lemma CurvatureTermContains(curvature: Ball, width: real, h: real)
    requires curvature.Contains(h)
    ensures CurvatureTerm(curvature, width).Contains(h * (width * width * width) * (1.0 / 24.0))
  {
    CubeIs(width);
    var cube := width * width * width;
    TwiceMulContains(curvature, h, cube, 1.0 / 24.0);
  }

  lemma TwiceMulContains(b: Ball, h: real, x: real, y: real)
    requires b.Contains(h)
    ensures Mul(Mul(b, Exact(x)), Exact(y)).Contains(h * x * y)
  {
    MulContains(b, Exact(x), h, x);
    MulContains(Mul(b, Exact(x)), Exact(y), h * x, y);
  }

  lemma AddContains(a: Ball, b: Ball, x: real, y: real)
    requires a.Contains(x) && b.Contains(y)
    ensures Add(a, b).Contains(x + y)
  {
  }

  /** Either refinement of the midpoint rule contains what is that far from it. */
  lemma RefinedContains(a: Ball, b: Ball, x: real, y: real)
    requires a.Contains(x) && b.Contains(y - x)
    ensures Add(a, b).Contains(y)
  {
  }

  lemma CentredContains(cell: Jet, midpoint: Ball, width: real, integral: real, y: real)
    requires midpoint.Contains(y) && NearMidpointRule(integral, y, width, cell.slope.rad)
    ensures Centred(cell, midpoint, width).Contains(integral)
  {
    MulContains(midpoint, Exact(width), y, width);
    FirstOrderErrorIs(cell.slope.rad, width);
    var p, e := y * width, FirstOrderError(cell.slope.rad, width).mid;
    assert Abs(integral - p) <= e;
    hide Mul, FirstOrderError, NearMidpointRule;
    RefinedContains(Mul(midpoint, Exact(width)), Ball(0.0, e), p, integral);
  }

  lemma SecondOrderContains(cell: Jet, midpoint: Ball, width: real, integral: real, y: real, h: real)
    requires midpoint.Contains(y) && cell.curvature.Contains(h) && IsMidpointRulePlus(integral, y, width, h)
    ensures SecondOrder(cell, midpoint, width).Contains(integral)
  {
    MulContains(midpoint, Exact(width), y, width);
    CurvatureTermContains(cell.curvature, width, h);
    var p := y * width;
    assert CurvatureTerm(cell.curvature, width).Contains(integral - p);
    hide Mul, CurvatureTerm, IsMidpointRulePlus;
    RefinedContains(Mul(midpoint, Exact(width)), CurvatureTerm(cell.curvature, width), p, integral);
  }

  /** The three bounds never disagree about a cell calculus is right about, and never lose its integral. */
  lemma CellBoundContains(integral: real, cell: Jet, midpoint: Ball, width: real)
    requires CellFacts(integral, cell, midpoint, width)
    ensures CellBound(cell, midpoint, width).Some? && CellBound(cell, midpoint, width).value.Contains(integral)
  {
    hide Rectangle, Centred, SecondOrder, NearMidpointRule, IsMidpointRulePlus;
    var v :| cell.value.Contains(v) && integral == v * width;
    RectangleContains(cell, width, v);
    var y, h :|
      && midpoint.Contains(y) && cell.curvature.Contains(h)
      && NearMidpointRule(integral, y, width, cell.slope.rad) && IsMidpointRulePlus(integral, y, width, h);
    CentredContains(cell, midpoint, width, integral, y);
    SecondOrderContains(cell, midpoint, width, integral, y, h);
  }

  lemma RectangleContains(cell: Jet, width: real, v: real)
    requires cell.value.Contains(v)
    ensures Rectangle(cell, width).Contains(v * width)
  {
    MulContains(cell.value, Exact(width), v, width);
  }

  /** The integral of `a x^2 + b x + c` from `l` to `u`. */
  function QuadraticIntegral(a: real, b: real, c: real, l: real, u: real): real {
    a * (u * u * u - l * l * l) / 3.0 + b * (u * u - l * l) / 2.0 + c * (u - l)
  }

  function QuadraticAt(a: real, b: real, c: real, x: real): real {
    a * (x * x) + b * x + c
  }

  /** The midpoint rule and one curvature term are exact for it. */
  lemma QuadraticByMidpoint(a: real, b: real, c: real, m: real, w: real)
    ensures QuadraticIntegral(a, b, c, m - w / 2.0, m + w / 2.0)
      == QuadraticAt(a, b, c, m) * w + 2.0 * a * (w * w * w) * (1.0 / 24.0)
  {
    var k := w / 2.0;
    Cubes(m, k);
    assert (m + k) * (m + k) - (m - k) * (m - k) == 4.0 * (m * k);
    assert w == 2.0 * k && w * w * w == 8.0 * (k * k * k);
    var cubes := 6.0 * (m * m * k) + 2.0 * (k * k * k);
    assert a * cubes / 3.0 == 2.0 * (a * (m * m * k)) + 2.0 * (a * (k * k * k)) / 3.0;
    assert a * (m * m) * w == 2.0 * (a * (m * m * k));
    assert 2.0 * a * (w * w * w) * (1.0 / 24.0) == 2.0 * (a * (k * k * k)) / 3.0;
    assert b * (4.0 * (m * k)) / 2.0 == b * m * w;
  }

  lemma Cubes(m: real, k: real)
    ensures (m + k) * (m + k) * (m + k) - (m - k) * (m - k) * (m - k) == 6.0 * (m * m * k) + 2.0 * (k * k * k)
  {
  }

  /** A quadratic is integrated without error in one cell, once its curvature and midpoint value are known exactly. */
  lemma QuadraticIsExact(a: real, b: real, c: real, l: real, u: real, cell: Jet)
    requires cell.curvature == Exact(2.0 * a)
    requires Rectangle(cell, u - l).Contains(QuadraticIntegral(a, b, c, l, u))
    requires Centred(cell, Exact(QuadraticAt(a, b, c, (l + u) / 2.0)), u - l).Contains(QuadraticIntegral(a, b, c, l, u))
    ensures CellBound(cell, Exact(QuadraticAt(a, b, c, (l + u) / 2.0)), u - l) == Some(Exact(QuadraticIntegral(a, b, c, l, u)))
  {
    hide QuadraticAt, QuadraticIntegral, Rectangle, Centred, SecondOrder, CellBound;
    QuadraticSecondOrder(a, b, c, l, u, cell);
    AgreedPoint(cell, Exact(QuadraticAt(a, b, c, (l + u) / 2.0)), u - l, QuadraticIntegral(a, b, c, l, u));
  }

  lemma QuadraticSecondOrder(a: real, b: real, c: real, l: real, u: real, cell: Jet)
    requires cell.curvature == Exact(2.0 * a)
    ensures SecondOrder(cell, Exact(QuadraticAt(a, b, c, (l + u) / 2.0)), u - l) == Exact(QuadraticIntegral(a, b, c, l, u))
  {
    hide QuadraticAt, QuadraticIntegral, SecondOrder;
    var m, w := (l + u) / 2.0, u - l;
    assert l == m - w / 2.0 && u == m + w / 2.0;
    QuadraticByMidpoint(a, b, c, m, w);
    ExactSecondOrder(cell, a, QuadraticAt(a, b, c, m), w);
  }

  lemma AgreedPoint(cell: Jet, midpoint: Ball, width: real, integral: real)
    requires Rectangle(cell, width).Contains(integral) && Centred(cell, midpoint, width).Contains(integral)
    requires SecondOrder(cell, midpoint, width) == Exact(integral)
    ensures CellBound(cell, midpoint, width) == Some(Exact(integral))
  {
    hide Rectangle, Centred, SecondOrder;
    var both := Intersect(Rectangle(cell, width), Centred(cell, midpoint, width));
    assert both.value.Contains(integral);
    PointIntersect(both.value, integral);
  }

  lemma PointIntersect(a: Ball, x: real)
    requires a.Contains(x)
    ensures Intersect(a, Exact(x)) == Some(Exact(x))
  {
  }

  lemma ExactSecondOrder(cell: Jet, a: real, y: real, w: real)
    requires cell.curvature == Exact(2.0 * a)
    ensures SecondOrder(cell, Exact(y), w) == Exact(y * w + 2.0 * a * (w * w * w) * (1.0 / 24.0))
  {
    ExactMul(y, w);
    ExactCurvatureTerm(2.0 * a, w);
    hide Mul, CurvatureTerm;
  }
}
