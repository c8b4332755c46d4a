/** The depth-first visit that orders obligations and reports dependency cycles. */
module CycleReport {
  import opened Sequences
  import opened Graphs

  /** The four things a visit changes. */
  datatype Progress = Progress(state: map<string, int>, stack: seq<string>, order: seq<string>, cycles: seq<seq<string>>)

  ghost function Untouched(state: map<string, int>): set<string> {
    set n | n in state && state[n] == 0
  }

  /** What every step keeps: the stack, and whatever is already touched, ordered or reported. */
  ghost predicate Keeps(p: Progress, q: Progress) {
    && q.stack == p.stack && p.order <= q.order && p.cycles <= q.cycles
    && q.state.Keys == p.state.Keys
    && forall n :: n in p.state && p.state[n] != 0 ==> q.state[n] == p.state[n]
  }

  lemma KeepsBoth(p: Progress, q: Progress, r: Progress)
    requires Keeps(p, q) && Keeps(q, r)
    ensures Keeps(p, r)
  {
  }

  lemma KeepsItself(p: Progress)
    ensures Keeps(p, p)
  {
  }

  lemma KeptFacts(p: Progress, q: Progress)
    requires Keeps(p, q)
    ensures Untouched(q.state) <= Untouched(p.state) && (q.cycles == [] ==> p.cycles == [])
    ensures p.cycles <= q.cycles && q.state.Keys == p.state.Keys
    ensures forall n :: n in p.state && p.state[n] != 0 ==> q.state[n] != 0
    ensures q.stack == p.stack && forall d :: d in p.order ==> d in q.order
  {
  }

  lemma KeptStack(p: Progress, q: Progress)
    requires Keeps(p, q)
    ensures q.stack == p.stack
  {
  }

  /** Opening a node, visiting below it and finishing it. */
  lemma KeepsAround(p: Progress, q: Progress, r: Progress, s: Progress, n: string)
    requires n in p.state && p.state[n] == 0
    requires q == p.(state := p.state[n := 1], stack := p.stack + [n])
    requires Keeps(q, r)
    requires s == r.(state := r.state[n := 2], stack := r.stack[..|r.stack| - 1], order := r.order + [n])
    ensures Keeps(p, s)
  {
  }

  ghost predicate Touched(nodes: seq<string>, state: map<string, int>) {
    forall n :: n in nodes ==> n in state && state[n] != 0
  }

  lemma TouchedNothing(state: map<string, int>)
    ensures Touched([], state)
  {
  }

  lemma TouchedNext(nodes: seq<string>, k: nat, s: map<string, int>, t: map<string, int>)
    requires k < |nodes| && Touched(nodes[..k], s) && nodes[k] in t && t[nodes[k]] != 0
    requires s.Keys == t.Keys && forall n :: n in s && s[n] != 0 ==> t[n] != 0
    ensures Touched(nodes[..k + 1], t)
  {
    assert nodes[..k + 1] == nodes[..k] + [nodes[k]];
  }

  // ---- what is reported

  /** The path closes a cycle by the step from `u` to `d`. */
  ghost predicate Closes(path: seq<string>, u: string, d: string) {
    |path| >= 2 && path[|path| - 2] == u && path[|path| - 1] == d
  }

  /** How many of the reports are closed by the step from `u` to `d`. */
  ghost function Reports(cycles: seq<seq<string>>, u: string, d: string): nat {
    if cycles == [] then 0
    else Reports(cycles[..|cycles| - 1], u, d) + if Closes(cycles[|cycles| - 1], u, d) then 1 else 0
  }

  lemma ReportsOneMore(cycles: seq<seq<string>>, path: seq<string>, u: string, d: string)
    ensures Reports(cycles + [path], u, d) == Reports(cycles, u, d) + if Closes(path, u, d) then 1 else 0
  {
    assert (cycles + [path])[..|cycles|] == cycles;
  }

  ghost predicate Before(order: seq<string>, a: string, b: string) {
    exists i, j :: 0 <= i < j < |order| && order[i] == a && order[j] == b
  }

  lemma BeforeOneMore(order: seq<string>, n: string, a: string, b: string)
    requires n !in order
    ensures Before(order + [n], a, b) <==> Before(order, a, b) || (b == n && a in order)
  {
    var longer := order + [n];
    if Before(order, a, b) {
      var i, j :| 0 <= i < j < |order| && order[i] == a && order[j] == b;
      assert longer[i] == a && longer[j] == b;
    }
    if b == n && a in order {
      var i :| 0 <= i < |order| && order[i] == a;
      assert longer[i] == a && longer[|order|] == b;
    }
    if Before(longer, a, b) {
      var i, j :| 0 <= i < j < |longer| && longer[i] == a && longer[j] == b;
      assert order[i] == a && (j < |order| ==> order[j] == b);
    }
  }

  /** A finished node has one report for each time it lists a dependency that does not come before it, an untouched one none. */
  ghost predicate SettledAt(g: Graph, p: Progress, u: string, d: string)
    requires u in p.state && u in g.deps
  {
    && (p.state[u] == 0 ==> Reports(p.cycles, u, d) == 0)
    && (p.state[u] == 2 ==> Reports(p.cycles, u, d) == if Before(p.order, d, u) then 0 else multiset(g.deps[u])[d])
  }

  ghost predicate Settled(g: Graph, p: Progress) {
    p.state.Keys == g.deps.Keys && forall u, d :: g.Known(u) && g.Known(d) ==> SettledAt(g, p, u, d)
  }

  /** The reports of the touched nodes stay, but for what `node` has listed of `listed` that is on the stack. */
  ghost predicate Reported(g: Graph, p: Progress, q: Progress, node: string, listed: seq<string>) {
    forall u, d :: u in p.state && p.state[u] != 0 && g.Known(d) ==>
      Reports(q.cycles, u, d) == Reports(p.cycles, u, d) + if u == node && d in p.stack then multiset(listed)[d] else 0
  }

  lemma NothingReported(g: Graph, p: Progress, q: Progress, node: string)
    requires p.cycles == q.cycles
    ensures Reported(g, p, q, node, [])
  {
  }

  lemma ReportedNext(g: Graph, p: Progress, q: Progress, r: Progress, node: string, listed: seq<string>, next: string)
    requires Keeps(p, q) && Reported(g, p, q, node, listed) && Reported(g, q, r, node, [next])
    ensures Reported(g, p, r, node, listed + [next])
  {
    assert multiset(listed + [next]) == multiset(listed) + multiset([next]);
  }

  /** What is reported below a node that is not on the stack does not concern it. */
  lemma ReportedElsewhere(g: Graph, p: Progress, q: Progress, node: string, next: string)
    requires next !in p.stack
    requires Reported(g, p, q, next, []) || Reported(g, p, q, node, [])
    ensures Reported(g, p, q, node, [next])
  {
    assert multiset([next]) == multiset{next};
  }

  lemma ReportedOnStack(g: Graph, p: Progress, path: seq<string>, node: string, next: string)
    requires next in p.stack && Settled(g, p) && node in p.state && p.state[node] == 1 && |path| >= 2
    requires path[|path| - 2] == node && path[|path| - 1] == next
    ensures var q := p.(cycles := p.cycles + [path]);
      Settled(g, q) && Reported(g, p, q, node, [next])
  {
    var q := p.(cycles := p.cycles + [path]);
    forall u, d ensures Reports(q.cycles, u, d) == Reports(p.cycles, u, d) + if u == node && d == next then 1 else 0 {
      ReportsOneMore(p.cycles, path, u, d);
    }
    hide Reports;
    forall u, d | g.Known(u) && g.Known(d) ensures SettledAt(g, q, u, d) { assert SettledAt(g, p, u, d); }
  }

  lemma UnknownIsNotReported(g: Graph, p: Progress, q: Progress, node: string, listed: seq<string>, unknown: string)
    requires Reported(g, p, q, node, listed) && !g.Known(unknown)
    ensures Reported(g, p, q, node, listed + [unknown])
  {
    assert multiset(listed + [unknown]) == multiset(listed) + multiset([unknown]);
  }

  lemma OpenedIsSettled(g: Graph, p: Progress, q: Progress, node: string)
    requires Settled(g, p) && node in p.state && p.state[node] == 0 && q == p.(state := p.state[node := 1], stack := p.stack + [node])
    ensures Settled(g, q)
  {
    forall u, d | g.Known(u) && g.Known(d) ensures SettledAt(g, q, u, d) { assert SettledAt(g, p, u, d); }
  }

  /** Opening a node, visiting what it lists and finishing it settles it. */
  lemma FinishedIsSettled(g: Graph, p: Progress, q: Progress, r: Progress, s: Progress, node: string, listed: seq<string>)
    requires Settled(g, p) && node in p.state && p.state[node] == 0 && q == p.(state := p.state[node := 1], stack := p.stack + [node])
    requires Keeps(q, r) && Settled(g, r) && Reported(g, q, r, node, listed) && multiset(listed) == multiset(g.deps[node])
    requires s == r.(state := r.state[node := 2], stack := r.stack[..|r.stack| - 1], order := r.order + [node])
    requires node !in r.order && (forall n :: n in r.order <==> n in r.state && r.state[n] == 2)
    requires forall d :: d in listed && g.Known(d) ==> (d in r.order <==> d !in r.stack)
    ensures Settled(g, s) && Reported(g, p, s, node, [])
  {
    forall u, d | g.Known(u) && g.Known(d) ensures SettledAt(g, s, u, d) {
      assert SettledAt(g, r, u, d) && SettledAt(g, p, u, d);
      BeforeOneMore(r.order, node, d, u);
      hide Reports;
      if u == node {
        assert d in multiset(listed) <==> d in listed;
        assert !Before(r.order, d, u);
      }
    }
  }

  class CycleReporter {
    const graph: Graph
    var state: map<string, int>   // 0 untouched, 1 on the stack, 2 finished
    var stack: seq<string>
    var order: seq<string>
    var cycles: seq<seq<string>>  // the paths of the "dependency cycle" errors

    ghost predicate Valid()
      reads this
    {
      && graph.Valid()
      && (forall n :: n in state <==> graph.Known(n))
      && (forall n :: n in state ==> 0 <= state[n] <= 2)
      && Distinct(stack)
      && (forall n :: n in stack <==> n in state && state[n] == 1)
      && (forall i :: 0 <= i < |stack| - 1 ==> graph.Edge(stack[i], stack[i + 1]))
      && Distinct(order)
      && (forall n :: n in order <==> n in state && state[n] == 2)
      && (forall c :: c in cycles ==> graph.Cycle(c))
      && (cycles == [] ==> graph.Topological(order))
    }

    ghost function Now(): Progress
      reads this
    {
      Progress(state, stack, order, cycles)
    }

    constructor (g: Graph)
      requires g.Valid()
      ensures Valid() && graph == g && stack == [] && cycles == [] && order == []
      ensures Settled(g, Now())
    {
      graph := g;
      state := map n | n in g.deps :: 0;
      stack, order, cycles := [], [], [];
    }

    function IndexOf(s: seq<string>, n: string): (i: nat)
      requires n in s
      ensures i < |s| && s[i] == n
    {
      if s[0] == n then 0 else 1 + IndexOf(s[1..], n)
    }

    /** A node met again on the stack: the stack from its first position closes a cycle. */
    method Report(node: string)
      requires Valid() && graph.Known(node) && state[node] == 1
      requires graph.Edge(stack[|stack| - 1], node)
      modifies this`cycles
      ensures Valid() && Keeps(old(Now()), Now()) && cycles != []
      ensures old(Settled(graph, Now())) ==> Settled(graph, Now()) && Reported(graph, old(Now()), Now(), stack[|stack| - 1], [node])
    {
      ghost var p := Now();
      var start := if node in stack then IndexOf(stack, node) else 0;
      var path := stack[start..] + [node];
      assert graph.Cycle(path);
      cycles := cycles + [path];
      if Settled(graph, p) { ReportedOnStack(graph, p, path, stack[|stack| - 1], node); }
    }

    method Open(node: string)
      requires Valid() && graph.Known(node) && state[node] == 0
      requires stack != [] ==> graph.Edge(stack[|stack| - 1], node)
      modifies this`state, this`stack
      ensures Valid() && stack == old(stack) + [node] && state == old(state)[node := 1]
      ensures Untouched(state) < Untouched(old(state))
    {
      state := state[node := 1];
      stack := stack + [node];
      assert node in Untouched(old(state)) && node !in Untouched(state);
    }

    method Finish(node: string)
      requires Valid() && stack != [] && stack[|stack| - 1] == node
      requires cycles == [] ==> forall d :: graph.Edge(node, d) ==> d in order
      modifies this`state, this`stack, this`order
      ensures Valid() && stack == old(stack)[..|old(stack)| - 1] && state == old(state)[node := 2] && order == old(order) + [node]
    {
      stack := stack[..|stack| - 1];
      state := state[node := 2];
      order := order + [node];
      assert node !in old(order);
      if cycles == [] { graph.TopologicalAppend(old(order), node); }
    }

    lemma OnTop(node: string, listed: seq<string>)
      requires Valid() && stack != [] && stack[|stack| - 1] == node
      requires forall d :: d in listed && graph.Known(d) ==> d in state && state[d] != 0
      ensures node !in order && (forall n :: n in order <==> n in state && state[n] == 2)
      ensures forall d :: d in listed && graph.Known(d) ==> (d in order <==> d !in stack)
    {
    }

    lemma NodeFacts(node: string)
      requires Valid() && graph.Known(node)
      ensures node in state && 0 <= state[node] <= 2
      ensures state[node] == 1 ==> stack != []
      ensures state[node] == 2 <==> node in order
      ensures forall d :: d in graph.deps[node] && graph.Known(d) ==> graph.Edge(node, d)
    {
    }

    /** Visits one node from the top of the stack. */
    method Visit(node: string)
      requires Valid() && graph.Known(node)
      requires stack != [] ==> graph.Edge(stack[|stack| - 1], node)
      requires Settled(graph, Now())
      modifies this
      ensures Valid() && Keeps(old(Now()), Now())
      ensures state[node] != 0 && (cycles == [] ==> node in order)
      ensures Settled(graph, Now()) && (stack != [] ==> Reported(graph, old(Now()), Now(), stack[|stack| - 1], [node]))
      decreases Untouched(state), 2
    {
      NodeFacts(node);
      hide Valid, Keeps, Settled, Reported;
      ghost var p := Now();
      var marker := state[node];
      if marker == 2 {
        assert Keeps(p, p) by { KeepsItself(p); }
        if stack != [] {
          NothingReported(graph, p, p, stack[|stack| - 1]);
          ReportedElsewhere(graph, p, p, stack[|stack| - 1], node);
        }
        return;
      }
      if marker == 1 {
        Report(node);
        return;
      }
      Descend(node);
      KeptStack(p, Now());
      if stack != [] { ReportedElsewhere(graph, p, Now(), stack[|stack| - 1], node); }
    }

    /** A node met for the first time: its dependencies in between opening and finishing it. */
    method Descend(node: string)
      requires Valid() && graph.Known(node) && state[node] == 0
      requires stack != [] ==> graph.Edge(stack[|stack| - 1], node)
      requires Settled(graph, Now())
      modifies this
      ensures Valid() && Keeps(old(Now()), Now())
      ensures state[node] == 2 && node in order
      ensures Settled(graph, Now()) && Reported(graph, old(Now()), Now(), node, [])
      decreases Untouched(state), 1
    {
      hide Valid, Keeps, Settled, Reported;
      ghost var p := Now();
      Open(node);
      ghost var q := Now();
      OpenedIsSettled(graph, p, q, node);
      var listed := Sorted(graph.deps[node]);
      VisitAll(node, listed);
      ghost var r := Now();
      KeptFacts(q, r);
      OnTop(node, listed);
      Finish(node);
      FinishedIsSettled(graph, p, q, r, Now(), node, listed);
      KeepsAround(p, q, r, Now(), node);
      NodeFacts(node);
    }

    /** Visits the dependencies of the node on top of the stack, skipping unknown ones. */
    method VisitAll(node: string, dependencies: seq<string>)
      requires Valid() && graph.Known(node) && stack != [] && stack[|stack| - 1] == node
      requires forall d :: d in dependencies ==> d in graph.deps[node]
      requires Settled(graph, Now())
      modifies this
      ensures Valid() && Keeps(old(Now()), Now())
      ensures Settled(graph, Now()) && Reported(graph, old(Now()), Now(), node, dependencies)
      ensures forall d :: d in dependencies && graph.Known(d) ==> d in state && state[d] != 0
      ensures cycles == [] ==> forall d :: d in dependencies && graph.Known(d) ==> d in order
      decreases Untouched(state), 4
    {
      hide Valid, Keeps, Settled, Reported, Touched;
      ghost var p := Now();
      KeepsItself(p);
      NothingReported(graph, p, p, node);
      for k := 0 to |dependencies|
        invariant Valid() && Keeps(p, Now()) && Settled(graph, Now())
        invariant Reported(graph, p, Now(), node, dependencies[..k])
        invariant forall d :: d in dependencies[..k] && graph.Known(d) ==> d in state && state[d] != 0
        invariant cycles == [] ==> forall d :: d in dependencies[..k] && graph.Known(d) ==> d in order
      {
        assert dependencies[..k + 1] == dependencies[..k] + [dependencies[k]];
        assert dependencies[k] in dependencies;
        ghost var q := Now();
        KeptFacts(p, q);
        VisitNext(node, dependencies[..k], dependencies[k], p);
        KeptFacts(q, Now());
      }
      assert dependencies[..|dependencies|] == dependencies;
    }

    /** One more dependency, after those listed already. */
    method VisitNext(node: string, listed: seq<string>, next: string, ghost p: Progress)
      requires Valid() && graph.Known(node) && stack != [] && stack[|stack| - 1] == node && next in graph.deps[node]
      requires Settled(graph, Now()) && Keeps(p, Now()) && Reported(graph, p, Now(), node, listed)
      modifies this
      ensures Valid() && Settled(graph, Now()) && Keeps(old(Now()), Now()) && Keeps(p, Now())
      ensures Reported(graph, p, Now(), node, listed + [next])
      ensures graph.Known(next) ==> next in state && state[next] != 0 && (cycles == [] ==> next in order)
      decreases Untouched(state), 3
    {
      NodeFacts(node);
      hide Valid, Keeps, Settled, Reported;
      ghost var q := Now();
      if next in graph.deps {
        Visit(next);
        KeepsBoth(p, q, Now());
        KeptStack(q, Now());
        VisitedIsKnown(next);
        ReportedNext(graph, p, q, Now(), node, listed, next);
      } else {
        KeepsItself(q);
        UnknownIsNotReported(graph, p, q, node, listed, next);
      }
    }

    lemma VisitedIsKnown(next: string)
      requires Valid() && graph.Known(next)
      ensures next in state
    {
    }

    /** The driver: every id in sorted order, from an empty stack. */
    method VisitEverything()
      requires Valid() && stack == [] && Settled(graph, Now())
      modifies this
      ensures Valid() && stack == [] && Settled(graph, Now())
      ensures multiset(order) == multiset(graph.ids)
      ensures old(cycles) <= cycles
    {
      var nodes := Sorted(graph.ids);
      assert forall n :: n in nodes ==> graph.Known(n);
      KnownStates();
      hide Valid, Keeps, InOrder, Touched, Settled, Reported;
      TouchedNothing(state);
      for k := 0 to |nodes|
        invariant Valid() && stack == [] && Settled(graph, Now()) && old(cycles) <= cycles && Touched(nodes[..k], state)
      {
        assert nodes[k] in nodes;
        ghost var p := Now();
        Visit(nodes[k]);
        KeptFacts(p, Now());
        KnownStates();
        TouchedNext(nodes, k, p.state, state);
      }
      assert nodes[..|nodes|] == nodes;
      AllFinished(nodes);
    }

    lemma AllReported()
      requires Valid() && Settled(graph, Now()) && multiset(order) == multiset(graph.ids)
      ensures forall u, d :: graph.Known(u) && graph.Known(d) ==> Reports(cycles, u, d) == if Before(order, d, u) then 0 else multiset(graph.deps[u])[d]
    {
      forall u, d | graph.Known(u) && graph.Known(d)
        ensures Reports(cycles, u, d) == if Before(order, d, u) then 0 else multiset(graph.deps[u])[d]
      {
        assert u in multiset(order);
        assert SettledAt(graph, Now(), u, d);
      }
    }

    lemma KnownStates()
      requires Valid()
      ensures forall n :: n in state <==> graph.Known(n)
    {
    }

    /** With an empty stack and nothing untouched, the order lists every id once. */
    lemma AllFinished(nodes: seq<string>)
      requires Valid() && stack == [] && Touched(nodes, state) && forall n :: n in graph.ids ==> n in nodes
      ensures multiset(order) == multiset(graph.ids)
    {
      SameEntries(order, graph.ids);
    }
  }

  /** Repetition-free sequences with the same members are permutations of each other. */
  lemma {:induction false} SameEntries(s: seq<string>, t: seq<string>)
    requires Distinct(s) && Distinct(t) && forall n :: n in s <==> n in t
    ensures multiset(s) == multiset(t)
  {
    forall n ensures multiset(s)[n] == multiset(t)[n] {
      AtMostOnce(s, n);
      AtMostOnce(t, n);
    }
  }

  /**
    The check as a whole: the order is always a permutation of the ids, so the warning about an
    incomplete order is never due; every reported path is a cycle; a cycle is reported exactly
    when there is one; and with none, dependencies come before dependants.
   */
  method Validate(g: Graph) returns (order: seq<string>, cycles: seq<seq<string>>)
    requires g.Valid()
    ensures multiset(order) == multiset(g.ids)
    ensures forall c :: c in cycles ==> g.Cycle(c)
    ensures cycles == [] <==> g.Acyclic()
    ensures cycles == [] ==> g.Topological(order)
    ensures forall u, d :: g.Known(u) && g.Known(d) ==> Reports(cycles, u, d) == if Before(order, d, u) then 0 else multiset(g.deps[u])[d]
  {
    var reporter := new CycleReporter(g);
    reporter.VisitEverything();
    order, cycles := reporter.order, reporter.cycles;
    reporter.AllReported();
    if cycles == [] {
      assert forall n :: g.Known(n) ==> n in multiset(order);
      g.CompleteOrderIsAcyclic(order);
    } else {
      assert g.Cycle(cycles[0]);
    }
  }
}
