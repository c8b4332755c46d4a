/** JSON values and two of their texts: the shortest one, and the indented one that records are written in. */
module JsonText {

  /** Scalars are given by their own text. */
  datatype Json = Scalar(text: string) | Array(items: seq<Json>) | Object(keys: seq<string>, items: seq<Json>)

  function Quoted(s: string): string {
    "\"" + s + "\""
  }

  function Text(s: string): Json {
    Scalar(Quoted(s))
  }

  /** The label of the `i`-th item; an array has none. */
  function Label(j: Json, i: nat, separator: string): string {
    if j.Object? && i < |j.keys| then Quoted(j.keys[i]) + separator else ""
  }

  // ---- without spaces

  function Compact(j: Json): string
    decreases j, 1
  {
    match j
    case Scalar(text) => text
    case Array(items) => "[" + CompactItems(j, |items|) + "]"
    case Object(_, items) => "{" + CompactItems(j, |items|) + "}"
  }

  function CompactItems(j: Json, k: nat): string
    requires !j.Scalar? && k <= |j.items|
    decreases j, 0, k
  {
    if k == 0 then ""
    else CompactItems(j, k - 1) + (if k == 1 then "" else ",") + Label(j, k - 1, ":") + Compact(j.items[k - 1])
  }

  lemma CompactNext(j: Json, k: nat)
    requires j.Object? && k < |j.items| == |j.keys|
    ensures |CompactItems(j, 0)| == 0
    ensures |CompactItems(j, k + 1)| <= |CompactItems(j, k)| + |j.keys[k]| + 4 + |Compact(j.items[k])|
  {
    hide Compact;
  }

  lemma CompactObject(j: Json)
    requires j.Object?
    ensures |Compact(j)| == |CompactItems(j, |j.items|)| + 2
  {
    hide CompactItems;
  }

  // ---- one item a line, two spaces a level

  function Spaces(n: nat): (s: string)
    ensures |s| == n
  {
    seq(n, i => ' ')
  }

  function Dump(j: Json, level: nat): string
    decreases j, 1
  {
    match j
    case Scalar(text) => text
    case Array(items) => if items == [] then "[]" else "[" + DumpItems(j, |items|, level) + "\n" + Spaces(2 * level) + "]"
    case Object(_, items) => if items == [] then "{}" else "{" + DumpItems(j, |items|, level) + "\n" + Spaces(2 * level) + "}"
  }

  function DumpItems(j: Json, k: nat, level: nat): string
    requires !j.Scalar? && k <= |j.items|
    decreases j, 0, k
  {
    if k == 0 then ""
    else
      DumpItems(j, k - 1, level) + (if k == 1 then "" else ",") + "\n" + Spaces(2 * (level + 1))
      + Label(j, k - 1, ": ") + Dump(j.items[k - 1], level + 1)
  }

  /** A value's text is at least as long as that of any item of it, one level deeper. */
  lemma {:induction false} ItemIsDumped(j: Json, k: nat, i: nat, level: nat)
    requires !j.Scalar? && i < k <= |j.items|
    ensures |DumpItems(j, k, level)| >= |Dump(j.items[i], level + 1)|
  {
    hide Dump;
    if i < k - 1 { ItemIsDumped(j, k - 1, i, level); }
  }

  lemma DumpIsLonger(j: Json, i: nat, level: nat)
    requires !j.Scalar? && i < |j.items|
    ensures |Dump(j, level)| >= |Dump(j.items[i], level + 1)|
  {
    hide DumpItems;
    ItemIsDumped(j, |j.items|, i, level);
  }

  // ---- what indentation can do

  /** A list of ones, deep inside other lists. */
  function Ones(n: nat): Json {
    Array(seq(n, i => Scalar("1")))
  }

  function Nested(depth: nat, j: Json): Json {
    if depth == 0 then j else Array([Nested(depth - 1, j)])
  }

  lemma {:induction false} NestedDump(depth: nat, j: Json, level: nat)
    ensures |Dump(Nested(depth, j), level)| >= |Dump(j, level + depth)|
  {
    if depth > 0 {
      NestedDump(depth - 1, j, level + 1);
      DumpIsLonger(Nested(depth, j), 0, level);
    }
  }

  lemma {:induction false} NestedCompact(depth: nat, j: Json)
    ensures |Compact(Nested(depth, j))| == |Compact(j)| + 2 * depth
  {
    if depth > 0 {
      NestedCompact(depth - 1, j);
      var outer := Nested(depth, j);
      assert CompactItems(outer, 0) == "" && CompactItems(outer, 1) == Compact(Nested(depth - 1, j));
    }
  }

  lemma {:induction false} OnesDump(j: Json, k: nat, level: nat)
    requires j.Array? && k <= |j.items| && level >= 99
    ensures |DumpItems(j, k, level)| >= 200 * k
  {
    hide Dump;
    if k > 0 { OnesDump(j, k - 1, level); }
  }

  lemma {:induction false} OnesCompact(j: Json, k: nat)
    requires j.Array? && k <= |j.items| && forall i :: 0 <= i < k ==> j.items[i] == Scalar("1")
    ensures |CompactItems(j, k)| <= 2 * k
  {
    if k > 0 {
      OnesCompact(j, k - 1);
      assert Compact(j.items[k - 1]) == "1";
      hide CompactItems;
    }
  }

  const BULKY_DEPTH: nat := 100
  const BULKY_COUNT: nat := 500_000

  function Bulky(): Json {
    Nested(BULKY_DEPTH, Ones(BULKY_COUNT))
  }

  /** About a million characters without spaces, and over a hundred million with indentation. */
  lemma BulkyTexts(level: nat)
    ensures |Compact(Bulky())| <= 1_000_202 && |Dump(Bulky(), level)| >= 100_000_000
  {
    var ones := Ones(BULKY_COUNT);
    NestedCompact(BULKY_DEPTH, ones);
    NestedDump(BULKY_DEPTH, ones, level);
    OnesCompact(ones, BULKY_COUNT);
    OnesDump(ones, BULKY_COUNT, level + BULKY_DEPTH);
    hide CompactItems, DumpItems, Nested;
  }
}
