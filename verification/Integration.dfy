/** The metered workspace, the stack-driven generator, and the independent checker. */
module Integration {
  import opened Wrappers
  import opened Balls
  import opened Quadrature

  /** One meter: whether the `k`th charge stops the work. */
  type Meter = nat -> bool

  ghost predicate Unmetered(meter: Meter) {
    forall k :: !meter(k)
  }

  class Workspace {
    const f: Integrand
    const meter: Meter
    var charges: nat
    var evaluations: nat

    constructor (f: Integrand, meter: Meter)
      ensures this.f == f && this.meter == meter && charges == 0 && evaluations == 0
    {
      this.f, this.meter, charges, evaluations := f, meter, 0, 0;
    }

    method Charge() returns (r: Outcome<()>)
      modifies this`charges
      ensures r == if meter(old(charges)) then Err(Enclosure(Stopped)) else Ok(())
    {
      r := if meter(charges) then Err(Enclosure(Stopped)) else Ok(());
      charges := charges + 1;
    }

    method Evaluate(domain: Ball) returns (r: Outcome<Jet>)
      modifies this`evaluations
      ensures old(evaluations) < MAX_QUADRATURE_EVALUATIONS ==> r == f.evaluate(domain) && evaluations == old(evaluations) + 1
      ensures old(evaluations) >= MAX_QUADRATURE_EVALUATIONS ==> r == Err(ResourceLimit) && evaluations == old(evaluations)
    {
      if evaluations >= MAX_QUADRATURE_EVALUATIONS {
        return Err(ResourceLimit);
      }
      evaluations := evaluations + 1;
      r := f.evaluate(domain);
    }

    /** At most two evaluations; and while the count has room for them, the cell's own outcome unless the meter stops. */
    method EncloseCell(l: real, u: real) returns (r: Outcome<Ball>)
      modifies this
      ensures old(evaluations) <= evaluations <= old(evaluations) + 2
      ensures l == u ==> evaluations <= old(evaluations) + 1
      ensures r == f.CellEnclosure(l, u) || r == Err(Enclosure(Stopped)) || r == Err(ResourceLimit)
      ensures Unmetered(meter) && old(evaluations) + 2 <= MAX_QUADRATURE_EVALUATIONS ==> r == f.CellEnclosure(l, u)
    {
      var charged := Charge();
      if charged.Err? { return Err(charged.error); }
      if l > u { return Err(InvalidPartition); }
      var range := Evaluate(Ball(Midpoint(l, u), (u - l) / 2.0));
      if range.Err? { return Err(range.error); }
      if l == u { return Ok(Exact(0.0)); }
      var midpoint := Evaluate(Exact(Midpoint(l, u)));
      if midpoint.Err? { return Err(midpoint.error); }
      var bound := CellBound(range.value, midpoint.value.value, u - l);
      if bound.None? { return Err(InconsistentEnclosure); }
      Power10IsPositive(f.precision + 8);
      r := Ok(RoundOutward(bound.value, Power10(f.precision + 8)));
    }

    method WithinLocalTolerance(b: Ball, l: real, u: real, goal: Goal) returns (r: Outcome<bool>)
      modifies this`charges
      ensures r.Ok? ==> r.value == goal.Allows(b, l, u)
      ensures Unmetered(meter) && l < u && goal.total > 0.0 && goal.tolerance > 0.0 ==> r.Ok?
    {
      var charged := Charge();
      if charged.Err? { return Err(charged.error); }
      if l >= u || goal.total <= 0.0 || goal.tolerance <= 0.0 { return Err(InvalidPartition); }
      r := Ok(goal.Allows(b, l, u));
    }

    method Halve(l: real, u: real) returns (r: Outcome<real>)
      modifies this`charges
      ensures r.Ok? ==> r.value == Midpoint(l, u)
      ensures Unmetered(meter) && l < u ==> r.Ok?
    {
      var charged := Charge();
      if charged.Err? { return Err(charged.error); }
      if l >= u { return Err(InvalidPartition); }
      r := Ok(Midpoint(l, u));
    }

    /** The checks a workspace makes before its first cell. */
    method Prepare() returns (r: Outcome<()>)
      modifies this`charges
      ensures r.Ok? ==> ValidPrecision(f)
      ensures Unmetered(meter) && ValidPrecision(f) ==> r.Ok?
    {
      var charged := Charge();
      if charged.Err? { return charged; }
      r := if ValidPrecision(f) then Ok(()) else Err(Enclosure(InvalidPrecision));
    }
  }

  predicate ValidPrecision(f: Integrand) {
    8 <= f.precision <= 128
  }

  // ---- the generator

  datatype Cell = Cell(left: real, right: real, depth: nat)

  /** The cells on the stack, top last, cover what is left in order. */
  ghost predicate Pending(cells: seq<Cell>, from: real, to: real) {
    if cells == [] then from == to
    else
      var top := cells[|cells| - 1];
      top.left == from && top.left < top.right && top.depth <= MAX_DEPTH && Pending(cells[..|cells| - 1], top.right, to)
  }

  /** What plain bisection makes of the cells on the stack. */
  ghost function Rest(goal: Goal, cells: seq<Cell>): Outcome<seq<real>> {
    if cells == [] then Ok([])
    else
      var top := cells[|cells| - 1];
      Append(goal.Bisect(top.left, top.right, top.depth), Rest(goal, cells[..|cells| - 1]))
  }

  lemma {:induction false} EveryCellHasALeaf(goal: Goal, cells: seq<Cell>)
    requires Rest(goal, cells).Ok?
    ensures |Rest(goal, cells).value| >= |cells|
  {
    hide goal.Decide;
    if cells != [] {
      EveryCellHasALeaf(goal, cells[..|cells| - 1]);
      LeavesAre(goal, cells[|cells| - 1].left, cells[|cells| - 1].right, cells[|cells| - 1].depth);
    }
  }

  lemma {:induction false} LeavesAre(goal: Goal, l: real, u: real, depth: nat)
    requires goal.Bisect(l, u, depth).Ok?
    ensures |goal.Bisect(l, u, depth).value| >= 1
    decreases MAX_DEPTH - depth
  {
    hide goal.Decide;
    if goal.Decide(l, u) != Ok(true) { LeavesAre(goal, l, Midpoint(l, u), depth + 1); }
  }

  lemma AppendAssociates(a: Outcome<seq<real>>, b: Outcome<seq<real>>, c: Outcome<seq<real>>)
    ensures Append(Append(a, b), c) == Append(a, Append(b, c))
  {
    if a.Ok? && b.Ok? && c.Ok? { assert a.value + b.value + c.value == a.value + (b.value + c.value); }
  }

  /** Where the loop stands: the accepted ends, then what the stack will make, are what plain bisection makes of the whole. */
  ghost predicate OnCourse(goal: Goal, whole: Outcome<seq<real>>, done: seq<real>, cells: seq<Cell>, from: real, to: real) {
    && Pending(cells, from, to)
    && whole == Append(Ok(done), Rest(goal, cells))
    && goal.tolerance > 0.0 && goal.total > 0.0
  }

  lemma Accepts(goal: Goal, whole: Outcome<seq<real>>, done: seq<real>, cells: seq<Cell>, from: real, to: real)
    requires cells != [] && OnCourse(goal, whole, done, cells, from, to)
    requires goal.Decide(cells[|cells| - 1].left, cells[|cells| - 1].right) == Ok(true)
    ensures OnCourse(goal, whole, done + [cells[|cells| - 1].right], cells[..|cells| - 1], cells[|cells| - 1].right, to)
  {
    hide goal.Decide;
    var top := cells[|cells| - 1];
    assert goal.Bisect(top.left, top.right, top.depth) == Ok([top.right]);
    AppendAssociates(Ok(done), Ok([top.right]), Rest(goal, cells[..|cells| - 1]));
  }

  lemma Splits(goal: Goal, whole: Outcome<seq<real>>, done: seq<real>, cells: seq<Cell>, from: real, to: real, cells': seq<Cell>)
    requires cells != [] && OnCourse(goal, whole, done, cells, from, to)
    requires var top := cells[|cells| - 1];
      && goal.Decide(top.left, top.right) == Ok(false) && top.depth < MAX_DEPTH
      && cells' == cells[..|cells| - 1] + [Cell(Midpoint(top.left, top.right), top.right, top.depth + 1)] + [Cell(top.left, Midpoint(top.left, top.right), top.depth + 1)]
    ensures OnCourse(goal, whole, done, cells', from, to)
  {
    hide goal.Decide;
    var top, rest := cells[|cells| - 1], cells[..|cells| - 1];
    var m := Midpoint(top.left, top.right);
    var right, left := Cell(m, top.right, top.depth + 1), Cell(top.left, m, top.depth + 1);
    assert top.left < m < top.right;
    hide Midpoint;
    assert cells'[..|cells'| - 1] == rest + [right] && (rest + [right])[..|rest|] == rest;
    assert Pending(rest + [right], m, to);
    assert goal.Bisect(top.left, top.right, top.depth) == Append(goal.Bisect(top.left, m, top.depth + 1), goal.Bisect(m, top.right, top.depth + 1));
    assert Rest(goal, rest + [right]) == Append(goal.Bisect(m, top.right, top.depth + 1), Rest(goal, rest));
    AppendAssociates(goal.Bisect(top.left, m, top.depth + 1), goal.Bisect(m, top.right, top.depth + 1), Rest(goal, rest));
  }

  /** A cell that is not accepted and not split spoils the whole, unless it has too many leaves. */
  lemma GivesUp(goal: Goal, whole: Outcome<seq<real>>, done: seq<real>, cells: seq<Cell>, from: real, to: real)
    requires cells != [] && OnCourse(goal, whole, done, cells, from, to)
    requires goal.Decide(cells[|cells| - 1].left, cells[|cells| - 1].right) != Ok(true)
    ensures cells[|cells| - 1].depth >= MAX_DEPTH || goal.Decide(cells[|cells| - 1].left, cells[|cells| - 1].right).Err? ==> whole.Err?
    ensures whole.Err? || |whole.value| > |done| + |cells|
  {
    hide goal.Decide;
    var top, rest := cells[|cells| - 1], cells[..|cells| - 1];
    if whole.Ok? {
      EveryCellHasALeaf(goal, rest);
      LeavesAre(goal, top.left, Midpoint(top.left, top.right), top.depth + 1);
      LeavesAre(goal, Midpoint(top.left, top.right), top.right, top.depth + 1);
    }
  }

  /** One cell put to the test; `failure` is the refusal that smaller cells may not have. */
  method TryCell(workspace: Workspace, goal: Goal, cell: Cell) returns (accepted: Outcome<bool>, failure: Option<QuadratureError>)
    requires workspace.f == goal.f && goal.tolerance > 0.0 && goal.total > 0.0 && cell.left < cell.right
    modifies workspace
    ensures old(workspace.evaluations) <= workspace.evaluations <= old(workspace.evaluations) + 2
    ensures accepted.Ok? ==> accepted == goal.Decide(cell.left, cell.right)
    ensures Unmetered(workspace.meter) && old(workspace.evaluations) + 2 <= MAX_QUADRATURE_EVALUATIONS
      ==> accepted == goal.Decide(cell.left, cell.right)
    ensures accepted == Ok(false) ==> goal.GiveUp(cell.left, cell.right) == if failure.Some? then failure.value else AccuracyNotReached
  {
    hide goal.f.CellEnclosure;
    failure := None;
    var enclosed := workspace.EncloseCell(cell.left, cell.right);
    if enclosed.Ok? {
      accepted := workspace.WithinLocalTolerance(enclosed.value, cell.left, cell.right, goal);
    } else if SubdivisionCanResolve(enclosed.error) {
      accepted, failure := Ok(false), Some(enclosed.error);
    } else {
      accepted := Err(enclosed.error);
    }
  }

  /**
    The stack machine is plain bisection with a limit on the number of cells: what it answers is
    what `Bisect` makes of the whole interval; it answers exactly when `Bisect` does within the
    limit, if the meter does not stop it; it takes at most twice the limit less one turns; and its
    evaluations never reach their own limit.
   */
  method Partition(workspace: Workspace, goal: Goal, start: real, end: real, maxIntervals: nat) returns (r: Outcome<seq<real>>, turns: nat)
    requires workspace.f == goal.f && goal.tolerance > 0.0 && goal.total > 0.0 && start < end
    requires 1 <= maxIntervals <= MAX_QUADRATURE_INTERVALS && workspace.evaluations <= 2
    modifies workspace
    ensures turns <= 2 * maxIntervals - 1 && workspace.evaluations <= 2 + 2 * turns < MAX_QUADRATURE_EVALUATIONS
    ensures r.Ok? ==> r == goal.Bisect(start, end, 0) && 1 <= |r.value| <= maxIntervals
    ensures Unmetered(workspace.meter) ==>
      (r.Ok? <==> goal.Bisect(start, end, 0).Ok? && |goal.Bisect(start, end, 0).value| <= maxIntervals)
    ensures Unmetered(workspace.meter) && r.Err? ==> exists l, u :: l < u && r.error == goal.GiveUp(l, u)
  {
    ghost var whole := goal.Bisect(start, end, 0);
    ghost var from := start;
    var partition, pending, leafCount := [], [Cell(start, end, 0)], 1;
    turns := 0;
    StartsOnCourse(goal, start, end);
    LeafOrTwo(goal, start, end);
    hide OnCourse, goal.Decide, goal.Bisect, goal.GiveUp, Unmetered, Pending, Rest;
    while pending != []
      invariant OnCourse(goal, whole, partition, pending, from, end)
      invariant leafCount == |partition| + |pending| <= maxIntervals
      invariant turns == |partition| + leafCount - 1
      invariant workspace.evaluations <= 2 + 2 * turns
      decreases 2 * maxIntervals - turns
    {
      var cell := pending[|pending| - 1];
      TopIsACell(goal, whole, partition, pending, from, end);
      turns := turns + 1;
      var accepted, failure := TryCell(workspace, goal, cell);
      if accepted == Ok(true) {
        Accepts(goal, whole, partition, pending, from, end);
        partition, pending, from := partition + [cell.right], pending[..|pending| - 1], cell.right;
        continue;
      }
      if accepted.Err? {
        if Unmetered(workspace.meter) {
          GivesUp(goal, whole, partition, pending, from, end);
          RefusedIsGivenUp(goal, cell.left, cell.right);
        }
        return Err(accepted.error), turns;
      }
      GivesUp(goal, whole, partition, pending, from, end);
      if leafCount >= maxIntervals || cell.depth >= MAX_DEPTH {
        return Err(if failure.Some? then failure.value else AccuracyNotReached), turns;
      }
      var midpoint := workspace.Halve(cell.left, cell.right);
      if midpoint.Err? { return Err(midpoint.error), turns; }
      leafCount := leafCount + 1;
      ghost var before := pending;
      pending := pending[..|pending| - 1] + [Cell(midpoint.value, cell.right, cell.depth + 1)] + [Cell(cell.left, midpoint.value, cell.depth + 1)];
      Splits(goal, whole, partition, before, from, end, pending);
    }
    Finishes(goal, whole, partition, from, end);
    r := Ok(partition);
  }

  lemma RefusedIsGivenUp(goal: Goal, l: real, u: real)
    requires goal.Decide(l, u).Err?
    ensures goal.Decide(l, u).error == goal.GiveUp(l, u)
  {
  }

  lemma LeafOrTwo(goal: Goal, l: real, u: real)
    ensures goal.Bisect(l, u, 0).Ok? ==> |goal.Bisect(l, u, 0).value| >= 1
  {
    if goal.Bisect(l, u, 0).Ok? { LeavesAre(goal, l, u, 0); }
  }

  lemma Finishes(goal: Goal, whole: Outcome<seq<real>>, done: seq<real>, from: real, to: real)
    requires OnCourse(goal, whole, done, [], from, to)
    ensures whole == Ok(done)
  {
    assert done + [] == done;
  }

  lemma StartsOnCourse(goal: Goal, start: real, end: real)
    requires goal.tolerance > 0.0 && goal.total > 0.0 && start < end
    ensures OnCourse(goal, goal.Bisect(start, end, 0), [], [Cell(start, end, 0)], start, end)
  {
    hide goal.Decide;
    var cells := [Cell(start, end, 0)];
    assert cells[..0] == [];
    assert Pending([], end, end);
    var b := goal.Bisect(start, end, 0);
    assert Rest(goal, cells) == Append(b, Ok([]));
    if b.Ok? { assert [] + (b.value + []) == b.value; }
  }

  lemma TopIsACell(goal: Goal, whole: Outcome<seq<real>>, done: seq<real>, cells: seq<Cell>, from: real, to: real)
    requires cells != [] && OnCourse(goal, whole, done, cells, from, to)
    ensures cells[|cells| - 1].left == from < cells[|cells| - 1].right && cells[|cells| - 1].depth <= MAX_DEPTH
  {
  }

  // ---- requests

  datatype Request = Request(f: Integrand, lower: real, upper: real, tolerance: real, maxIntervals: nat)

  function Least(a: real, b: real): real {
    if a <= b then a else b
  }

  function Greatest(a: real, b: real): real {
    if a <= b then b else a
  }

  /** The shares are of the distance between the limits, whichever way round they are. */
  function GoalOf(q: Request): Goal {
    Goal(q.f, Greatest(q.lower, q.upper) - Least(q.lower, q.upper), q.tolerance)
  }

  /** What the generator proposes for a request, if it proposes anything. */
  ghost predicate Proposed(q: Request, points: seq<real>) {
    var start, end := Least(q.lower, q.upper), Greatest(q.lower, q.upper);
    && q.f.CellEnclosure(start, start).Ok? && q.f.CellEnclosure(end, end).Ok?
    && if start == end then points == [start]
      else
        var whole := GoalOf(q).Bisect(start, end, 0);
        whole.Ok? && |whole.value| <= q.maxIntervals && points == [start] + whole.value
  }

  ghost predicate Admitted(q: Request) {
    q.tolerance > 0.0 && 1 <= q.maxIntervals <= MAX_QUADRATURE_INTERVALS && ValidPrecision(q.f)
  }

  method Generate(q: Request, meter: Meter) returns (r: Outcome<seq<real>>)
    ensures r.Ok? ==> Admitted(q) && Proposed(q, r.value)
    ensures Unmetered(meter) ==> (r.Ok? <==> Admitted(q) && exists points :: Proposed(q, points))
  {
    if q.tolerance <= 0.0 { return Err(InvalidTolerance); }
    if !(1 <= q.maxIntervals <= MAX_QUADRATURE_INTERVALS) { return Err(ResourceLimit); }
    hide q.f.CellEnclosure, Unmetered;
    var workspace := new Workspace(q.f, meter);
    var prepared := workspace.Prepare();
    if prepared.Err? { return Err(prepared.error); }
    var measured := workspace.Charge();
    if measured.Err? { UnmeteredRuns(meter); return Err(measured.error); }
    var start, end := Least(q.lower, q.upper), Greatest(q.lower, q.upper);
    var atStart := workspace.EncloseCell(start, start);
    if atStart.Err? { return Err(atStart.error); }
    if start == end {
      assert Proposed(q, [start]);
      return Ok([start]);
    }
    var atEnd := workspace.EncloseCell(end, end);
    if atEnd.Err? { return Err(atEnd.error); }
    var rest, _ := Partition(workspace, GoalOf(q), start, end, q.maxIntervals);
    if rest.Err? { return Err(rest.error); }
    assert Proposed(q, [start] + rest.value);
    r := Ok([start] + rest.value);
  }

  lemma UnmeteredRuns(meter: Meter)
    ensures Unmetered(meter) ==> forall k :: !meter(k)
  {
  }

  // ---- the checker

  datatype Receipt = Receipt(request: Request, partition: seq<real>, enclosure: Ball)

  /** What the checker demands of a partition, whoever proposed it. */
  ghost predicate Acceptable(q: Request, points: seq<real>) {
    var start, end := Least(q.lower, q.upper), Greatest(q.lower, q.upper);
    && q.tolerance > 0.0 && ValidPrecision(q.f)
    && 1 <= |points| <= MAX_QUADRATURE_INTERVALS + 1
    && points[0] == start && points[|points| - 1] == end
    && if start == end then |points| == 1 && q.f.CellEnclosure(start, start).Ok?
      else Covers(q.f, points) && Sum(q.f, points, |points| - 1).Width() <= q.tolerance
  }

  ghost function Enclosed(q: Request, points: seq<real>): Ball
    requires Acceptable(q, points)
  {
    var sum := if q.lower == q.upper then Exact(0.0) else Sum(q.f, points, |points| - 1);
    if q.lower <= q.upper then sum else Neg(sum)
  }

  /** Adds up the cells; stops at the first that is out of order or has no enclosure. */
  method AddUp(workspace: Workspace, points: seq<real>) returns (r: Outcome<Ball>)
    requires 1 <= |points| <= MAX_QUADRATURE_INTERVALS + 1 && workspace.evaluations == 0
    modifies workspace
    ensures r.Ok? ==> Covers(workspace.f, points) && r.value == Sum(workspace.f, points, |points| - 1)
    ensures Unmetered(workspace.meter) ==> (r.Ok? <==> Covers(workspace.f, points))
  {
    hide workspace.f.CellEnclosure, Unmetered;
    var sum := Exact(0.0);
    for i := 0 to |points| - 1
      invariant Covers(workspace.f, points[..i + 1]) && sum == Sum(workspace.f, points[..i + 1], i)
      invariant workspace.evaluations <= 2 * i
    {
      if points[i] >= points[i + 1] { return Err(InvalidPartition); }
      var cell := workspace.EncloseCell(points[i], points[i + 1]);
      if cell.Err? { return Err(cell.error); }
      OneMore(workspace.f, points, i);
      sum := Add(sum, cell.value);
    }
    assert points[..|points|] == points;
    r := Ok(sum);
  }

  lemma OneMore(f: Integrand, points: seq<real>, i: nat)
    requires i + 1 < |points| && Covers(f, points[..i + 1])
    requires points[i] < points[i + 1] && f.CellEnclosure(points[i], points[i + 1]).Ok?
    ensures Covers(f, points[..i + 2])
    ensures Sum(f, points[..i + 2], i + 1) == Add(Sum(f, points[..i + 1], i), f.CellEnclosure(points[i], points[i + 1]).value)
  {
    var p := points[..i + 2];
    assert p[..i + 1] == points[..i + 1];
    hide f.CellEnclosure;
    forall j | 0 <= j < |p| - 1 ensures p[j] < p[j + 1] && f.CellEnclosure(p[j], p[j + 1]).Ok? {
      if j < i { assert points[..i + 1][j] == p[j] && points[..i + 1][j + 1] == p[j + 1]; }
    }
    SumOfPrefix(f, p, i);
  }

  lemma {:induction false} SumOfPrefix(f: Integrand, p: seq<real>, k: nat)
    requires k + 1 < |p| && Covers(f, p) && Covers(f, p[..|p| - 1])
    ensures Sum(f, p, k) == Sum(f, p[..|p| - 1], k)
  {
    hide f.CellEnclosure;
    if k > 0 { SumOfPrefix(f, p, k - 1); }
  }

  /** The checker accepts exactly what it demands, and its enclosure is the sum over the cells. */
  method VerifyEnclosure(q: Request, points: seq<real>, meter: Meter) returns (r: Outcome<Receipt>)
    ensures r.Ok? ==> Acceptable(q, points) && r.value == Receipt(q, points, Enclosed(q, points))
    ensures Unmetered(meter) ==> (r.Ok? <==> Acceptable(q, points))
  {
    if q.tolerance <= 0.0 { return Err(InvalidTolerance); }
    if points == [] || |points| > MAX_QUADRATURE_INTERVALS + 1 { return Err(InvalidPartition); }
    hide q.f.CellEnclosure, Unmetered;
    var workspace := new Workspace(q.f, meter);
    var prepared := workspace.Prepare();
    if prepared.Err? { return Err(prepared.error); }
    var start, end := Least(q.lower, q.upper), Greatest(q.lower, q.upper);
    if points[0] != start || points[|points| - 1] != end { return Err(InvalidPartition); }
    var sum := Exact(0.0);
    if start == end {
      if |points| != 1 { return Err(InvalidPartition); }
      var cell := workspace.EncloseCell(start, end);
      if cell.Err? { return Err(cell.error); }
    } else {
      var added := AddUp(workspace, points);
      if added.Err? { return Err(added.error); }
      sum := added.value;
    }
    if sum.Width() > q.tolerance { return Err(AccuracyNotReached); }
    r := Ok(Receipt(q, points, if q.lower > q.upper then Neg(sum) else sum));
  }

  // ---- both together

  /** A proposal runs from the lesser limit to the greater, strictly increasing, in at most the requested number of cells of dyadic length. */
  lemma ProposalIsAPartition(q: Request, points: seq<real>)
    requires Proposed(q, points) && Admitted(q)
    ensures 1 <= |points| <= q.maxIntervals + 1
    ensures points[0] == Least(q.lower, q.upper) && points[|points| - 1] == Greatest(q.lower, q.upper)
    ensures forall i, j :: 0 <= i < j < |points| ==> points[i] < points[j]
    ensures AllDyadic(GoalOf(q).total, points)
    ensures |points| == 1 <==> q.lower == q.upper
    ensures GoalOf(q).Tiling(points)
  {
    var start, end, goal := Least(q.lower, q.upper), Greatest(q.lower, q.upper), GoalOf(q);
    if start != end {
      goal.BisectTiles(start, end, 0);
      assert Halved(goal.total, 0) == goal.total;
      goal.BisectIsDyadic(start, end, 0, goal.total);
      hide goal.Bisect, goal.Decide, AllDyadic;
      Increasing(goal, points);
    }
  }

  lemma {:induction false} Increasing(goal: Goal, points: seq<real>)
    requires goal.Tiling(points)
    ensures forall i, j :: 0 <= i < j < |points| ==> points[i] < points[j]
  {
    hide goal.Decide;
    if |points| > 1 {
      var rest := points[..|points| - 1];
      assert goal.Tiling(rest);
      Increasing(goal, rest);
      assert rest[|rest| - 1] < points[|points| - 1];
    }
  }

  /** The checker accepts every proposal of the generator. */
  lemma ProposalsAreAcceptable(q: Request, points: seq<real>)
    requires Admitted(q) && Proposed(q, points)
    ensures Acceptable(q, points)
  {
    var start, end, goal := Least(q.lower, q.upper), Greatest(q.lower, q.upper), GoalOf(q);
    ProposalIsAPartition(q, points);
    if start != end {
      TilingCovers(goal, points);
      LocalTolerancesCompose(goal, points, |points| - 1);
      WholeShare(goal, Sum(q.f, points, |points| - 1), start, end);
    }
  }

  /**
    Whatever partition was accepted, the receipt's enclosure is no wider than the tolerance and
    contains the integral from `lower` to `upper`, negative when the limits are reversed.
   */
  lemma ReceiptIsSound(q: Request, points: seq<real>, integral: (real, real) -> real)
    requires Acceptable(q, points) && Additive(integral) && Describes(q.f, integral)
    ensures Enclosed(q, points).Width() <= q.tolerance
    ensures Enclosed(q, points).Contains(if q.lower <= q.upper then integral(q.lower, q.upper) else -integral(q.upper, q.lower))
  {
    hide Describes;
    if q.lower == q.upper {
      assert integral(q.lower, q.lower) + integral(q.lower, q.lower) == integral(q.lower, q.lower);
    } else {
      SumEncloses(q.f, integral, points, |points| - 1);
    }
  }

  /** Reversing the limits negates the enclosure and changes nothing else. */
  lemma ReversalNegates(q: Request, points: seq<real>)
    requires Acceptable(q, points) && q.lower != q.upper
    ensures var back := q.(lower := q.upper, upper := q.lower);
      Acceptable(back, points) && Enclosed(back, points) == Neg(Enclosed(q, points))
  {
  }

  /**
    The two phases together, each with its own meter. Unless a meter stops it, a request is
    certified exactly when bisection succeeds within the limit: the checker turns none away.
   */
  method CertifiedIntegral(q: Request, generatorMeter: Meter, verifierMeter: Meter) returns (r: Outcome<Receipt>)
    ensures r.Ok? ==> q.tolerance > 0.0 && 1 <= q.maxIntervals <= 1024 && 8 <= q.f.precision <= 128
    ensures r.Ok? ==> Admitted(q) && r.value.request == q && Proposed(q, r.value.partition)
    ensures r.Ok? ==> Acceptable(q, r.value.partition) && r.value.enclosure == Enclosed(q, r.value.partition)
    ensures Unmetered(generatorMeter) && Unmetered(verifierMeter) ==> (r.Ok? <==> Admitted(q) && exists points :: Proposed(q, points))
  {
    hide Proposed, Acceptable, Enclosed, Unmetered;
    var points := Generate(q, generatorMeter);
    if points.Err? { return Err(points.error); }
    ProposalsAreAcceptable(q, points.value);
    r := VerifyEnclosure(q, points.value, verifierMeter);
  }
}
