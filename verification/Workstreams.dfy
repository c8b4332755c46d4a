/** Kahn's sort of the workstream dependencies: order, leftovers, and why nothing is missed. */
module Workstreams {
  import opened Sequences
  import opened Graphs

  /** How many listed dependencies of a node are known and not yet done, repetitions counted. */
  function Pending(ds: seq<string>, known: set<string>, done: set<string>): nat {
    if ds == [] then 0
    else Pending(ds[..|ds| - 1], known, done) + if ds[|ds| - 1] in known && ds[|ds| - 1] !in done then 1 else 0
  }

  lemma {:induction false} PendingIsZero(ds: seq<string>, known: set<string>, done: set<string>)
    ensures Pending(ds, known, done) == 0 <==> forall d :: d in ds && d in known ==> d in done
  {
    if ds != [] {
      PendingIsZero(ds[..|ds| - 1], known, done);
      assert ds == ds[..|ds| - 1] + [ds[|ds| - 1]];
    }
  }

  /** How often `x` stands in `s`. */
  ghost function Times(s: seq<string>, x: string): nat {
    multiset(s)[x]
  }

  lemma TimesAppend(s: seq<string>, y: string, x: string)
    ensures Times(s + [y], x) == Times(s, x) + if x == y then 1 else 0
  {
  }

  lemma TimesPositive(s: seq<string>, x: string)
    ensures Times(s, x) > 0 <==> x in s
  {
  }

  /** Doing a node removes it as often as it is listed. */
  lemma {:induction false} PendingDone(ds: seq<string>, known: set<string>, done: set<string>, d: string)
    requires d in known && d !in done
    ensures Pending(ds, known, done + {d}) == Pending(ds, known, done) - Times(ds, d)
  {
    if ds != [] {
      PendingDone(ds[..|ds| - 1], known, done, d);
      assert ds == ds[..|ds| - 1] + [ds[|ds| - 1]];
    }
  }

  /** The ids that list `d`, as often as they list it. */
  type Outgoing = map<string, seq<string>>

  function Children(outgoing: Outgoing, d: string): seq<string> {
    if d in outgoing then outgoing[d] else []
  }

  ghost function Out(outgoing: Outgoing, d: string, n: string): nat {
    Times(Children(outgoing, d), n)
  }

  function AddEdge(outgoing: Outgoing, d: string, n: string): Outgoing {
    outgoing[d := Children(outgoing, d) + [n]]
  }

  lemma OutOfAddEdge(outgoing: Outgoing, d: string, n: string)
    ensures forall e, c :: Out(AddEdge(outgoing, d, n), e, c) == Out(outgoing, e, c) + if e == d && c == n then 1 else 0
  {
    forall e, c ensures Out(AddEdge(outgoing, d, n), e, c) == Out(outgoing, e, c) + if e == d && c == n then 1 else 0 {
      TimesAppend(Children(outgoing, d), n, c);
    }
  }

  /** Every node counts its pending dependencies and is listed under each of them as often as it lists it. */
  ghost predicate Counted(g: Graph, indegree: map<string, int>, outgoing: Outgoing, n: string) {
    && n in g.deps && n in indegree
    && indegree[n] == Pending(g.deps[n], g.deps.Keys, {})
    && forall d :: d in g.deps ==> Out(outgoing, d, n) == Times(g.deps[n], d)
  }

  ghost predicate Uncounted(indegree: map<string, int>, outgoing: Outgoing, n: string) {
    n in indegree && indegree[n] == 0 && forall d :: Out(outgoing, d, n) == 0
  }

  /** Only known ids are listed under a dependency. */
  ghost predicate Listed(g: Graph, outgoing: Outgoing) {
    forall c, d :: c in Children(outgoing, d) ==> c in g.deps
  }

  lemma ListedAddEdge(g: Graph, outgoing: Outgoing, d: string, n: string)
    requires Listed(g, outgoing) && n in g.deps
    ensures Listed(g, AddEdge(outgoing, d, n))
  {
    forall c, e | c in Children(AddEdge(outgoing, d, n), e) ensures c in g.deps {
      assert Children(AddEdge(outgoing, d, n), e) == Children(outgoing, e) + if e == d then [n] else [];
    }
  }

  /** Only the entries of `n` differ. */
  ghost predicate SameElsewhere(indegree: map<string, int>, outgoing: Outgoing, indegree': map<string, int>, outgoing': Outgoing, n: string) {
    && indegree.Keys == indegree'.Keys
    && (forall c :: c in indegree && c != n ==> indegree'[c] == indegree[c])
    && forall c, d :: c != n ==> Out(outgoing', d, c) == Out(outgoing, d, c)
  }

  lemma OthersStay(g: Graph, indegree: map<string, int>, outgoing: Outgoing, indegree': map<string, int>, outgoing': Outgoing, n: string, c: string)
    requires SameElsewhere(indegree, outgoing, indegree', outgoing', n) && c != n
    ensures Counted(g, indegree, outgoing, c) ==> Counted(g, indegree', outgoing', c)
    ensures Uncounted(indegree, outgoing, c) ==> Uncounted(indegree', outgoing', c)
  {
  }

  lemma NothingCounted(g: Graph)
    requires g.Valid()
    ensures forall j :: 0 <= j < |g.ids| ==> Uncounted(map m | m in g.deps :: 0, map[], g.ids[j])
  {
    forall d, c ensures Out(map[], d, c) == 0 { TimesPositive([], c); }
  }

  /** The two dictionaries, filled by one pass over every listed dependency. */
  method CountDependencies(g: Graph) returns (indegree: map<string, int>, outgoing: Outgoing)
    requires g.Valid()
    ensures indegree.Keys == g.deps.Keys
    ensures Listed(g, outgoing) && forall n :: n in g.deps ==> Counted(g, indegree, outgoing, n)
  {
    indegree := map n | n in g.deps :: 0;
    outgoing := map[];
    NothingCounted(g);
    assert Listed(g, outgoing);
    hide Counted, Uncounted, SameElsewhere, Listed;
    for i := 0 to |g.ids|
      invariant indegree.Keys == g.deps.Keys && Listed(g, outgoing) && CountedUpTo(g, indegree, outgoing, i)
    {
      ghost var indegree0, outgoing0 := indegree, outgoing;
      indegree, outgoing := CountOne(g, g.ids[i], indegree, outgoing);
      CountedNext(g, i, indegree0, outgoing0, indegree, outgoing);
    }
    assert forall n :: n in g.deps ==> n in g.ids;
  }

  ghost predicate CountedUpTo(g: Graph, indegree: map<string, int>, outgoing: Outgoing, i: nat) {
    && i <= |g.ids|
    && (forall j :: 0 <= j < i ==> Counted(g, indegree, outgoing, g.ids[j]))
    && (forall j :: i <= j < |g.ids| ==> Uncounted(indegree, outgoing, g.ids[j]))
  }

  lemma CountedNext(g: Graph, i: nat, indegree: map<string, int>, outgoing: Outgoing, indegree': map<string, int>, outgoing': Outgoing)
    requires g.Valid() && i < |g.ids| && CountedUpTo(g, indegree, outgoing, i)
    requires SameElsewhere(indegree, outgoing, indegree', outgoing', g.ids[i]) && Counted(g, indegree', outgoing', g.ids[i])
    ensures CountedUpTo(g, indegree', outgoing', i + 1)
  {
    hide Counted, Uncounted, SameElsewhere;
    forall j | 0 <= j < |g.ids| && j != i
      ensures Counted(g, indegree, outgoing, g.ids[j]) ==> Counted(g, indegree', outgoing', g.ids[j])
      ensures Uncounted(indegree, outgoing, g.ids[j]) ==> Uncounted(indegree', outgoing', g.ids[j])
    {
      OthersStay(g, indegree, outgoing, indegree', outgoing', g.ids[i], g.ids[j]);
    }
  }

  method CountOne(g: Graph, n: string, indegree0: map<string, int>, outgoing0: Outgoing) returns (indegree: map<string, int>, outgoing: Outgoing)
    requires n in g.deps && Uncounted(indegree0, outgoing0, n) && Listed(g, outgoing0)
    ensures Listed(g, outgoing)
    ensures Counted(g, indegree, outgoing, n) && SameElsewhere(indegree0, outgoing0, indegree, outgoing, n)
    ensures indegree.Keys == indegree0.Keys
  {
    hide Times, Listed;
    indegree, outgoing := indegree0, outgoing0;
    var ds := g.deps[n];
    assert forall x :: Times([], x) == 0 by { forall x { TimesPositive([], x); } }
    for k := 0 to |ds|
      invariant SameElsewhere(indegree0, outgoing0, indegree, outgoing, n) && Listed(g, outgoing)
      invariant n in indegree && indegree[n] == Pending(ds[..k], g.deps.Keys, {})
      invariant forall d :: d in g.deps ==> Out(outgoing, d, n) == Times(ds[..k], d)
    {
      assert ds[..k + 1] == ds[..k] + [ds[k]] && ds[..k + 1][..k] == ds[..k];
      forall d ensures Times(ds[..k + 1], d) == Times(ds[..k], d) + if d == ds[k] then 1 else 0 { TimesAppend(ds[..k], ds[k], d); }
      if ds[k] in g.deps {
        OutOfAddEdge(outgoing, ds[k], n);
        ListedAddEdge(g, outgoing, ds[k], n);
        indegree := indegree[n := indegree[n] + 1];
        outgoing := AddEdge(outgoing, ds[k], n);
      }
    }
    assert ds[..|ds|] == ds;
  }

  // ---- the queue

  function Members(s: seq<string>): set<string> {
    set x | x in s
  }

  /** Each count is what is pending after `done`, less what `taken` already removed. */
  ghost predicate Remaining(g: Graph, indegree: map<string, int>, done: set<string>, taken: seq<string>) {
    indegree.Keys == g.deps.Keys
    && forall n :: n in g.deps ==> indegree[n] == Pending(g.deps[n], g.deps.Keys, done) - Times(taken, n)
  }

  /** `ready` lists, once each, the nodes whose count is zero. */
  ghost predicate Ready(indegree: map<string, int>, ready: seq<string>) {
    Distinct(ready) && forall n :: n in ready <==> n in indegree && indegree[n] == 0
  }

  /** Takes the children of a done node off its count, queueing each at zero. */
  method Release(g: Graph, children: seq<string>, indegree0: map<string, int>, queue0: seq<string>, ghost order: seq<string>, ghost done: set<string>)
    returns (indegree: map<string, int>, queue: seq<string>)
    requires Remaining(g, indegree0, done, []) && Ready(indegree0, order + queue0)
    requires forall n :: n in g.deps ==> Times(children, n) <= Pending(g.deps[n], g.deps.Keys, done)
    requires forall c :: c in children ==> c in g.deps
    ensures Remaining(g, indegree, done, children) && Ready(indegree, order + queue)
  {
    indegree, queue := indegree0, queue0;
    hide Times, Pending;
    for k := 0 to |children|
      invariant Remaining(g, indegree, done, children[..k]) && Ready(indegree, order + queue)
    {
      var c := children[k];
      assert c in children;
      TakeOne(g, children, k, indegree, done);
      indegree := indegree[c := indegree[c] - 1];
      if indegree[c] == 0 {
        assert order + (queue + [c]) == (order + queue) + [c];
        queue := queue + [c];
      }
    }
    assert children[..|children|] == children;
  }

  lemma TakeOne(g: Graph, children: seq<string>, k: nat, indegree: map<string, int>, done: set<string>)
    requires k < |children| && children[k] in g.deps && Remaining(g, indegree, done, children[..k])
    requires forall n :: n in g.deps ==> Times(children, n) <= Pending(g.deps[n], g.deps.Keys, done)
    ensures indegree[children[k]] > 0
    ensures Remaining(g, indegree[children[k] := indegree[children[k]] - 1], done, children[..k + 1])
  {
    var c := children[k];
    assert children[..k + 1] == children[..k] + [c];
    forall n ensures Times(children[..k + 1], n) == Times(children[..k], n) + if n == c then 1 else 0 { TimesAppend(children[..k], c, n); }
    assert children == children[..k] + [c] + children[k + 1..];
    assert Times(children[..k], c) < Times(children, c);
  }

  /** Once a node is done, its listing under others is what they no longer wait for. */
  lemma AfterDone(g: Graph, indegree: map<string, int>, done: set<string>, d: string, children: seq<string>)
    requires d in g.deps && d !in done && Remaining(g, indegree, done, children)
    requires forall n :: n in g.deps ==> Times(children, n) == Times(g.deps[n], d)
    ensures Remaining(g, indegree, done + {d}, [])
  {
    forall n | n in g.deps ensures Pending(g.deps[n], g.deps.Keys, done + {d}) == indegree[n] && Times([], n) == 0 {
      PendingDone(g.deps[n], g.deps.Keys, done, d);
      TimesPositive([], n);
    }
  }

  lemma ChildrenAreListed(g: Graph, outgoing: Outgoing, done: set<string>, d: string, children: seq<string>)
    requires d in g.deps && d !in done && multiset(children) == multiset(Children(outgoing, d))
    requires forall n :: n in g.deps ==> Out(outgoing, d, n) == Times(g.deps[n], d)
    ensures forall n :: n in g.deps ==> Times(children, n) == Times(g.deps[n], d) <= Pending(g.deps[n], g.deps.Keys, done)
  {
    forall n | n in g.deps ensures Times(children, n) == Times(g.deps[n], d) <= Pending(g.deps[n], g.deps.Keys, done) {
      PendingDone(g.deps[n], g.deps.Keys, done, d);
    }
  }

  function WithCount(ids: seq<string>, indegree: map<string, int>): (r: seq<string>)
    requires forall n :: n in ids ==> n in indegree
    ensures forall n :: n in r <==> n in ids && indegree[n] > 0
  {
    if ids == [] then []
    else
      var rest := WithCount(ids[..|ids| - 1], indegree);
      var n := ids[|ids| - 1];
      assert ids == ids[..|ids| - 1] + [n];
      if indegree[n] > 0 then rest + [n] else rest
  }

  function WithoutCount(ids: seq<string>, indegree: map<string, int>): (r: seq<string>)
    requires forall n :: n in ids ==> n in indegree
    requires Distinct(ids)
    ensures forall n :: n in r <==> n in ids && indegree[n] == 0
    ensures Distinct(r)
  {
    if ids == [] then []
    else
      var rest := WithoutCount(ids[..|ids| - 1], indegree);
      var n := ids[|ids| - 1];
      assert ids == ids[..|ids| - 1] + [n];
      if indegree[n] == 0 then rest + [n] else rest
  }

  // ---- completeness

  /** Some known dependency of `n` is outside `order`. */
  ghost predicate Stuck(g: Graph, order: seq<string>, n: string) {
    exists d :: g.Edge(n, d) && d !in order
  }

  lemma {:induction false} WalkOutside(g: Graph, order: seq<string>, n: string, k: nat) returns (w: seq<string>)
    requires g.Known(n) && n !in order && forall m :: g.Known(m) && m !in order ==> Stuck(g, order, m)
    ensures g.Walk(w) && |w| == k + 1 && w[0] == n && w[k] !in order && g.Known(w[k])
  {
    if k == 0 {
      w := [n];
    } else {
      w := WalkOutside(g, order, n, k - 1);
      assert Stuck(g, order, w[k - 1]);
      var d :| g.Edge(w[k - 1], d) && d !in order;
      w := w + [d];
    }
  }

  lemma {:induction false} WalkIsKnown(g: Graph, w: seq<string>, i: nat)
    requires g.Walk(w) && i < |w|
    ensures g.Known(w[i])
  {
    if i > 0 { assert g.Edge(w[i - 1], w[i]); }
  }

  /** What stays stuck forever depends on a cycle. */
  lemma StuckLeadsToCycle(g: Graph, order: seq<string>, n: string)
    requires g.Known(n) && n !in order && forall m :: g.Known(m) && m !in order ==> Stuck(g, order, m)
    ensures g.LeadsToCycle(n)
  {
    var w := WalkOutside(g, order, n, |g.deps.Keys|);
    forall x | x in w ensures x in g.deps.Keys {
      var i :| 0 <= i < |w| && w[i] == x;
      WalkIsKnown(g, w, i);
    }
    if Distinct(w) { DistinctWithin(w, g.deps.Keys); }
    var i, j :| 0 <= i < j < |w| && w[i] == w[j];
  }

  /** When the queue is empty, every node outside the order is stuck. */
  lemma EmptyQueueMeansStuck(g: Graph, indegree: map<string, int>, order: seq<string>, n: string)
    requires Remaining(g, indegree, Members(order), []) && Ready(indegree, order) && g.Known(n) && n !in order
    ensures Stuck(g, order, n) && indegree[n] > 0
  {
    TimesPositive([], n);
    assert indegree[n] == Pending(g.deps[n], g.deps.Keys, Members(order)) != 0;
    PendingIsZero(g.deps[n], g.deps.Keys, Members(order));
    var d :| d in g.deps[n] && d in g.deps.Keys && d !in Members(order);
    assert g.Edge(n, d) && d !in order;
  }

  /** The ordered nodes are exactly those that depend on no cycle, and exactly those with nothing left to count. */
  ghost predicate Complete(g: Graph, indegree: map<string, int>, order: seq<string>) {
    && (forall n :: g.Known(n) ==> n in indegree && (n in order <==> !g.LeadsToCycle(n)) && (n in order <==> indegree[n] <= 0))
    && (|order| == |g.ids| <==> g.Acyclic())
  }

  lemma Completeness(g: Graph, indegree: map<string, int>, order: seq<string>)
    requires g.Valid() && g.Topological(order)
    requires Remaining(g, indegree, Members(order), []) && Ready(indegree, order)
    ensures indegree.Keys == g.deps.Keys
    ensures Complete(g, indegree, order)
  {
    assert indegree.Keys == g.deps.Keys;
    hide Remaining;
    forall n | g.Known(n) ensures (n in order <==> !g.LeadsToCycle(n)) && (n in order <==> indegree[n] <= 0) {
      if n in order {
        g.OrderedIsClear(order, n);
      } else {
        forall m | g.Known(m) && m !in order ensures Stuck(g, order, m) { EmptyQueueMeansStuck(g, indegree, order, m); }
        EmptyQueueMeansStuck(g, indegree, order, n);
        StuckLeadsToCycle(g, order, n);
      }
    }
    FullIffAcyclic(g, order);
  }

  lemma FullIffAcyclic(g: Graph, order: seq<string>)
    requires g.Valid() && Distinct(order) && forall n :: n in order <==> g.Known(n) && !g.LeadsToCycle(n)
    ensures |order| == |g.ids| <==> g.Acyclic()
  {
    SizeOfMembers(order);
    SizeOfMembers(g.ids);
    assert Members(order) <= Members(g.ids);
    if g.Acyclic() {
      hide g.LeadsToCycle, g.Acyclic;
      forall n | n in g.ids ensures n in order { AcyclicIsClear(g, n); }
      assert Members(order) == Members(g.ids);
    } else {
      var w :| g.Cycle(w);
      g.CycleLeads(w);
      hide g.LeadsToCycle, g.Acyclic;
      assert w[0] in g.ids && w[0] !in order;
      DistinctWithin(order, Members(g.ids) - {w[0]});
    }
  }

  lemma {:induction false} SizeOfMembers(s: seq<string>)
    requires Distinct(s)
    ensures |Members(s)| == |s|
  {
    if s != [] {
      var rest, last := s[..|s| - 1], s[|s| - 1];
      SizeOfMembers(rest);
      assert s == rest + [last];
      assert Members(s) == Members(rest) + {last} && last !in Members(rest);
    }
  }

  /** The node at the head of the queue waits for nothing, so it extends the order. */
  lemma HeadIsNext(g: Graph, indegree: map<string, int>, order: seq<string>, queue: seq<string>)
    requires g.Valid() && queue != [] && g.Topological(order)
    requires Remaining(g, indegree, Members(order), []) && Ready(indegree, order + queue)
    ensures g.Known(queue[0]) && queue[0] !in order && g.Topological(order + [queue[0]])
    ensures (order + [queue[0]]) + queue[1..] == order + queue
    ensures |order| < |g.ids|
  {
    var n := queue[0];
    HeadWaitsForNothing(g, indegree, order, queue);
    g.TopologicalAppend(order, n);
    OrderFits(g, order + [n]);
  }

  lemma HeadWaitsForNothing(g: Graph, indegree: map<string, int>, order: seq<string>, queue: seq<string>)
    requires queue != [] && Remaining(g, indegree, Members(order), []) && Ready(indegree, order + queue)
    ensures g.Known(queue[0]) && queue[0] !in order && forall d :: g.Edge(queue[0], d) ==> d in order
  {
    var n := queue[0];
    var ready := order + queue;
    assert ready[|order|] == n && n in ready;
    assert forall i :: 0 <= i < |order| ==> ready[i] == order[i];
    TimesPositive([], n);
    PendingIsZero(g.deps[n], g.deps.Keys, Members(order));
  }

  lemma OrderFits(g: Graph, order: seq<string>)
    requires g.Valid() && g.Topological(order)
    ensures |order| <= |g.ids|
  {
    DistinctWithin(order, Members(g.ids));
    SizeOfMembers(g.ids);
  }

  ghost predicate AllOut(g: Graph, outgoing: Outgoing) {
    forall n, d :: n in g.deps && d in g.deps ==> Out(outgoing, d, n) == Times(g.deps[n], d)
  }

  /** One turn of the queue. */
  method Step(g: Graph, outgoing: Outgoing, indegree0: map<string, int>, queue0: seq<string>, order0: seq<string>)
    returns (indegree: map<string, int>, queue: seq<string>, order: seq<string>)
    requires g.Valid() && queue0 != [] && g.Topological(order0)
    requires AllOut(g, outgoing) && Listed(g, outgoing)
    requires Remaining(g, indegree0, Members(order0), []) && Ready(indegree0, order0 + queue0)
    ensures g.Topological(order) && |order| == |order0| + 1 <= |g.ids|
    ensures Remaining(g, indegree, Members(order), []) && Ready(indegree, order + queue)
  {
    HeadIsNext(g, indegree0, order0, queue0);
    hide Remaining, Ready, Times, Out, Pending;
    var current := queue0[0];
    order := order0 + [current];
    var children := Sorted(Children(outgoing, current));
    ChildrenAreListed(g, outgoing, Members(order0), current, children);
    indegree, queue := Release(g, children, indegree0, queue0[1..], order, Members(order0));
    AfterDone(g, indegree, Members(order0), current, children);
    assert Members(order) == Members(order0) + {current};
  }

  /**
    The sort is complete: it orders exactly the nodes that are on no cycle and depend on none,
    dependencies first; it orders everything exactly when the graph is acyclic; and otherwise it
    names exactly the nodes on or downstream of a cycle.
   */
  method TopologicalSort(g: Graph) returns (order: seq<string>, cyclic: seq<string>)
    requires g.Valid()
    ensures g.Topological(order)
    ensures forall n :: g.Known(n) ==> (n in order <==> !g.LeadsToCycle(n))
    ensures |order| == |g.ids| <==> g.Acyclic()
    ensures forall n :: n in cyclic <==> g.Known(n) && g.LeadsToCycle(n)
    ensures InOrder(cyclic)
  {
    var indegree, outgoing := CountDependencies(g);
    var queue := Sorted(WithoutCount(g.ids, indegree));
    order := [];
    hide Remaining, Ready, Times, Out, Pending, Counted, AllOut, Listed, InOrder;
    AllCounted(g, indegree, outgoing);
    Initially(g, indegree, queue);
    while queue != []
      invariant Remaining(g, indegree, Members(order), []) && Ready(indegree, order + queue)
      invariant g.Topological(order) && |order| <= |g.ids|
      decreases |g.ids| - |order|
    {
      indegree, queue, order := Step(g, outgoing, indegree, queue, order);
    }
    assert order + [] == order;
    Completeness(g, indegree, order);
    cyclic := [];
    if |order| != |g.ids| {
      assert forall n :: n in g.ids ==> n in indegree;
      cyclic := Sorted(WithCount(g.ids, indegree));
    }
    Leftovers(g, indegree, order, cyclic);
  }

  /** What is left with a count is on or downstream of a cycle; with a complete order nothing is. */
  lemma Leftovers(g: Graph, indegree: map<string, int>, order: seq<string>, cyclic: seq<string>)
    requires g.Valid() && indegree.Keys == g.deps.Keys && Complete(g, indegree, order) && InOrder(cyclic)
    requires if |order| == |g.ids| then cyclic == [] else forall n :: n in cyclic <==> n in g.ids && indegree[n] > 0
    ensures forall n :: g.Known(n) ==> (n in order <==> !g.LeadsToCycle(n))
    ensures |order| == |g.ids| <==> g.Acyclic()
    ensures forall n :: n in cyclic <==> g.Known(n) && g.LeadsToCycle(n)
  {
    if g.Acyclic() {
      forall n ensures !g.LeadsToCycle(n) { AcyclicIsClear(g, n); }
    }
  }

  lemma AcyclicIsClear(g: Graph, n: string)
    requires g.Acyclic()
    ensures !g.LeadsToCycle(n)
  {
    if g.LeadsToCycle(n) {
      var w, i, j :| g.Walk(w) && w[0] == n && 0 <= i < j < |w| && w[i] == w[j];
      g.RepeatedIsCyclic(w, i, j);
    }
  }

  lemma AllCounted(g: Graph, indegree: map<string, int>, outgoing: Outgoing)
    requires forall n :: n in g.deps ==> Counted(g, indegree, outgoing, n)
    ensures AllOut(g, outgoing)
    ensures forall n :: n in g.deps ==> n in indegree && indegree[n] == Pending(g.deps[n], g.deps.Keys, {})
  {
  }

  lemma Initially(g: Graph, indegree: map<string, int>, queue: seq<string>)
    requires g.Valid() && indegree.Keys == g.deps.Keys
    requires forall n :: n in g.deps ==> indegree[n] == Pending(g.deps[n], g.deps.Keys, {})
    requires multiset(queue) == multiset(WithoutCount(g.ids, indegree))
    ensures Remaining(g, indegree, Members([]), []) && Ready(indegree, [] + queue) && g.Topological([])
  {
    assert Members([]) == {} && [] + queue == queue;
    forall n ensures Times([], n) == 0 { TimesPositive([], n); }
    SameMultisetDistinct(WithoutCount(g.ids, indegree), queue);
  }

  lemma SameMultisetDistinct(s: seq<string>, t: seq<string>)
    requires Distinct(s) && multiset(s) == multiset(t)
    ensures Distinct(t) && forall n :: n in t <==> n in s
  {
    assert forall n :: n in t <==> n in multiset(t);
    assert forall n :: n in s <==> n in multiset(s);
    forall i, j | 0 <= i < j < |t| ensures t[i] != t[j] {
      if t[i] == t[j] {
        var n := t[i];
        assert t == t[..j] + [n] + t[j + 1..];
        assert multiset(t)[n] >= 2 by { assert t[..j][i] == n; }
        AtMostOnce(s, n);
      }
    }
  }
}
