/** The bounded walk over an imported claim, before anything of it is decoded. */
module ExportPreflight {
  import opened JsonText

  const MAX_NODES: nat := 32_768
  const MAX_NESTING: nat := 64
  const MAX_CLAIM_EXPORT_BYTES: nat := 1024 * 1024

  function Items(j: Json): (s: seq<Json>)
    ensures forall c :: c in s ==> c < j
  {
    if j.Scalar? then [] else j.items
  }

  function Nodes(j: Json): (n: nat)
    ensures n >= 1
    decreases j, 1
  {
    1 + if j.Scalar? then 0 else NodesOfAll(j.items)
  }

  function NodesOfAll(js: seq<Json>): (n: nat)
    ensures n >= |js|
    decreases js, 0
  {
    if js == [] then 0 else NodesOfAll(js[..|js| - 1]) + Nodes(js[|js| - 1])
  }

  /** No value stands more than `n` levels below `j`. */
  predicate Within(j: Json, n: int) {
    0 <= n && forall i | 0 <= i < |Items(j)| :: Within(Items(j)[i], n - 1)
  }

  type Entry = (Json, nat)

  ghost function NodesPending(pending: seq<Entry>): (n: nat)
    ensures n >= |pending|
  {
    if pending == [] then 0 else NodesPending(pending[..|pending| - 1]) + Nodes(pending[|pending| - 1].0)
  }

  ghost predicate AllWithin(pending: seq<Entry>) {
    forall i | 0 <= i < |pending| :: Within(pending[i].0, MAX_NESTING - pending[i].1)
  }

  function Below(js: seq<Json>, depth: nat): (es: seq<Entry>)
    ensures |es| == |js| && forall i :: 0 <= i < |js| ==> es[i] == (js[i], depth + 1)
  {
    seq(|js|, i requires 0 <= i < |js| => (js[i], depth + 1))
  }

  lemma {:induction false} NodesPendingConcat(pending: seq<Entry>, js: seq<Json>, depth: nat)
    ensures NodesPending(pending + Below(js, depth)) == NodesPending(pending) + NodesOfAll(js)
  {
    var both := pending + Below(js, depth);
    if js == [] {
      assert both == pending;
    } else {
      NodesPendingConcat(pending, js[..|js| - 1], depth);
      assert both[..|both| - 1] == pending + Below(js[..|js| - 1], depth);
    }
  }

  /** Popping a value and pushing its items moves the bound down one level. */
  lemma WithinBelow(pending: seq<Entry>, j: Json, depth: nat)
    requires depth <= MAX_NESTING
    ensures AllWithin(pending + [(j, depth)]) <==> AllWithin(pending + Below(Items(j), depth))
  {
    var before, below := pending + [(j, depth)], Below(Items(j), depth);
    var after := pending + below;
    assert AllWithin(before) <==> AllWithin(pending) && Within(j, MAX_NESTING - depth) by {
      assert before[|pending|] == (j, depth);
      assert forall i :: 0 <= i < |pending| ==> before[i] == pending[i];
    }
    assert AllWithin(below) <==> Within(j, MAX_NESTING - depth);
    assert AllWithin(after) <==> AllWithin(pending) && AllWithin(below) by {
      assert forall i :: 0 <= i < |pending| ==> after[i] == pending[i];
      assert forall i :: 0 <= i < |below| ==> after[|pending| + i] == below[i];
    }
  }

  /**
    The walk passes exactly the values with at most 32768 nodes nested at most 64 deep, and then
    only those that encode small enough; its stack never holds more entries than that.
   */
  method Passes(value: Json, encodedBytes: nat) returns (ok: bool, peak: nat)
    ensures ok <==> Nodes(value) <= MAX_NODES && Within(value, MAX_NESTING) && encodedBytes <= MAX_CLAIM_EXPORT_BYTES
    ensures peak <= MAX_NODES
  {
    var pending: seq<Entry> := [(value, 0)];
    var visited := 0;
    peak := 1;
    assert pending[..0] == [] && NodesPending(pending) == Nodes(value);
    while pending != []
      invariant visited + |pending| <= MAX_NODES && peak <= MAX_NODES
      invariant visited + NodesPending(pending) == Nodes(value)
      invariant AllWithin(pending) <==> Within(value, MAX_NESTING)
      decreases NodesPending(pending)
    {
      var (j, depth) := pending[|pending| - 1];
      ghost var before := pending;
      pending := pending[..|pending| - 1];
      assert before == pending + [(j, depth)];
      visited := visited + 1;
      if depth > MAX_NESTING || visited + |pending| > MAX_NODES {
        assert !Within(before[|pending|].0, MAX_NESTING - before[|pending|].1);
        return false, peak;
      }
      WithinBelow(pending, j, depth);
      NodesPendingConcat(pending, Items(j), depth);
      if !j.Scalar? && visited + |pending| + |j.items| > MAX_NODES {
        return false, peak;
      }
      pending := pending + Below(Items(j), depth);
      peak := if |pending| > peak then |pending| else peak;
    }
    ok := encodedBytes <= MAX_CLAIM_EXPORT_BYTES;
  }
}
