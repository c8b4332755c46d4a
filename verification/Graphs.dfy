/** Dependency graphs: walks, cycles, topological orders, and Python's `sorted` on strings. */
module Graphs {
  import opened Sequences

  /** Known ids, without repetition, and the dependencies listed for each; a listed dependency need not be known. */
  datatype Graph = Graph(ids: seq<string>, deps: map<string, seq<string>>) {
    ghost predicate Valid() {
      && Distinct(ids)
      && (forall n :: n in ids <==> n in deps)
    }

    predicate Known(n: string) {
      n in deps
    }

    /** `n` depends on the known `d`. */
    predicate Edge(n: string, d: string) {
      n in deps && d in deps && d in deps[n]
    }

    /** Each entry depends on the next. */
    ghost predicate Walk(w: seq<string>) {
      w != [] && Known(w[0]) && forall i :: 0 <= i < |w| - 1 ==> Edge(w[i], w[i + 1])
    }

    ghost predicate Cycle(w: seq<string>) {
      |w| >= 2 && Walk(w) && w[0] == w[|w| - 1]
    }

    ghost predicate Acyclic() {
      forall w :: !Cycle(w)
    }

    /** Some walk from `n` meets a node twice: `n` is on a cycle or depends, directly or not, on one. */
    ghost predicate LeadsToCycle(n: string) {
      exists w, i, j :: Walk(w) && w[0] == n && 0 <= i < j < |w| && w[i] == w[j]
    }

    /** No repetition, only known ids, and every known dependency earlier than its dependant. */
    ghost predicate Topological(order: seq<string>) {
      && Distinct(order)
      && (forall n :: n in order ==> Known(n))
      && (forall i, d :: 0 <= i < |order| && Edge(order[i], d) ==> d in order[..i])
    }

    /** A node whose known dependencies are all ordered may come next. */
    lemma TopologicalAppend(order: seq<string>, n: string)
      requires Topological(order) && Known(n) && n !in order
      requires forall d :: Edge(n, d) ==> d in order
      ensures Topological(order + [n])
    {
      var longer := order + [n];
      forall i, d | 0 <= i < |longer| && Edge(longer[i], d) ensures d in longer[..i] {
        assert longer[..i] == order[..i];
        if i == |order| { assert order[..i] == order; }
      }
    }

    lemma {:induction false} WalksDescend(order: seq<string>, w: seq<string>, i: nat, k: nat)
      requires Topological(order) && Walk(w) && k < |w| && i < |order| && order[i] == w[0]
      ensures exists j :: 0 <= j <= i - k && order[j] == w[k]
    {
      if k > 0 {
        WalksDescend(order, w, i, k - 1);
        var j :| 0 <= j <= i - (k - 1) && order[j] == w[k - 1];
        assert Edge(order[j], w[k]);
        var m :| 0 <= m < j && order[..j][m] == w[k];
        assert order[m] == w[k];
      }
    }

    /** Nothing in a topological order leads to a cycle. */
    lemma OrderedIsClear(order: seq<string>, n: string)
      requires Topological(order) && n in order
      ensures !LeadsToCycle(n)
    {
      if LeadsToCycle(n) {
        var w, i, j :| Walk(w) && w[0] == n && 0 <= i < j < |w| && w[i] == w[j];
        var p :| 0 <= p < |order| && order[p] == n;
        WalksDescend(order, w, p, i);
        var a :| 0 <= a <= p - i && order[a] == w[i];
        var v := w[i..];
        assert Walk(v) by { forall m | 0 <= m < |v| - 1 ensures Edge(v[m], v[m + 1]) { assert Edge(w[i + m], w[i + m + 1]); } }
        assert v[j - i] == w[j];
        WalksDescend(order, v, a, j - i);
      }
    }

    lemma CycleLeads(w: seq<string>)
      requires Cycle(w)
      ensures LeadsToCycle(w[0])
    {
      assert w[0] == w[|w| - 1] && 0 <= 0 < |w| - 1 < |w|;
    }

    /** A complete topological order exists only without cycles. */
    lemma CompleteOrderIsAcyclic(order: seq<string>)
      requires Topological(order) && forall n :: Known(n) ==> n in order
      ensures Acyclic()
    {
      forall w ensures !Cycle(w) {
        if Cycle(w) {
          CycleLeads(w);
          OrderedIsClear(order, w[0]);
        }
      }
    }

    /** A walk that repeats a node contains a cycle. */
    lemma RepeatedIsCyclic(w: seq<string>, i: nat, j: nat)
      requires Walk(w) && i < j < |w| && w[i] == w[j]
      ensures !Acyclic()
    {
      var v := w[i..j + 1];
      assert Edge(w[i], w[i + 1]);
      assert Walk(v) by { forall m | 0 <= m < |v| - 1 ensures Edge(v[m], v[m + 1]) { assert Edge(w[i + m], w[i + m + 1]); } }
      assert Cycle(v);
    }
  }

  // ---- counting and sorting

  /** A sequence without repetition inside a finite set is no longer than the set. */
  lemma {:induction false} DistinctWithin(s: seq<string>, within: set<string>)
    requires Distinct(s)
    requires forall x :: x in s ==> x in within
    ensures |s| <= |within|
  {
    if s != [] {
      var last := s[|s| - 1];
      var rest := s[..|s| - 1];
      assert forall x :: x in rest ==> x in s && x != last;
      DistinctWithin(rest, within - {last});
      assert last in within;
    }
  }

  /** Lexicographic order by code point. */
  predicate AtMost(a: string, b: string) {
    a == [] || (b != [] && (a[0] < b[0] || (a[0] == b[0] && AtMost(a[1..], b[1..]))))
  }

  lemma {:induction false} AtMostIsTotal(a: string, b: string)
    ensures AtMost(a, b) || AtMost(b, a)
  {
    if a != [] && b != [] && a[0] == b[0] { AtMostIsTotal(a[1..], b[1..]); }
  }

  lemma {:induction false} AtMostIsTransitive(a: string, b: string, c: string)
    requires AtMost(a, b) && AtMost(b, c)
    ensures AtMost(a, c)
  {
    if a != [] && a[0] == b[0] == c[0] { AtMostIsTransitive(a[1..], b[1..], c[1..]); }
  }

  ghost predicate InOrder(s: seq<string>) {
    forall i, j :: 0 <= i < j < |s| ==> AtMost(s[i], s[j])
  }

  lemma InOrderBefore(x: string, s: seq<string>)
    requires s != [] && AtMost(x, s[0])
    ensures InOrder(s) ==> InOrder([x] + s)
  {
    hide AtMost;
    if InOrder(s) {
      forall j | 0 < j < |s| ensures AtMost(x, s[j]) { AtMostIsTransitive(x, s[0], s[j]); }
    }
  }

  lemma InOrderAfter(x: string, s: seq<string>, rest: seq<string>)
    requires s != [] && !AtMost(x, s[0]) && multiset(rest) == multiset(s[1..]) + multiset{x}
    requires InOrder(s[1..]) ==> InOrder(rest)
    ensures InOrder(s) ==> InOrder([s[0]] + rest)
  {
    AtMostIsTotal(x, s[0]);
    hide AtMost;
    if InOrder(s) {
      forall j | 0 <= j < |rest| ensures AtMost(s[0], rest[j]) {
        assert rest[j] in multiset(rest);
        assert rest[j] == x || rest[j] in s[1..];
      }
    }
  }

  function Insert(x: string, s: seq<string>): (r: seq<string>)
    ensures multiset(r) == multiset(s) + multiset{x}
    ensures InOrder(s) ==> InOrder(r)
  {
    if s == [] then [x]
    else if AtMost(x, s[0]) then
      InOrderBefore(x, s);
      [x] + s
    else
      var rest := Insert(x, s[1..]);
      assert s == [s[0]] + s[1..];
      InOrderAfter(x, s, rest);
      [s[0]] + rest
  }

  /** The same entries, repetitions included, in lexicographic order. */
  function Sorted(s: seq<string>): (r: seq<string>)
    ensures multiset(r) == multiset(s) && InOrder(r) && |r| == |s|
    ensures forall x :: x in r <==> x in s
  {
    if s == [] then []
    else
      var r := Insert(s[0], Sorted(s[1..]));
      assert s == [s[0]] + s[1..];
      assert |r| == |multiset(r)| && |s| == |multiset(s)|;
      assert forall x :: x in r <==> x in multiset(r);
      assert forall x :: x in s <==> x in multiset(s);
      r
  }
}
