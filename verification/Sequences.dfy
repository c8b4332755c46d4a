/** What several modules need of numbers and of sequences without repetition. */
module Sequences {

  const U64_MAX: nat := 0xFFFF_FFFF_FFFF_FFFF

  function Min(a: nat, b: nat): nat {
    if a <= b then a else b
  }

  function DivCeil(n: nat, size: nat): nat
    requires size > 0
  {
    (n + size - 1) / size
  }

  ghost predicate Distinct<T>(s: seq<T>) {
    forall i, j :: 0 <= i < j < |s| ==> s[i] != s[j]
  }

  lemma {:induction false} AtMostOnce<T>(s: seq<T>, x: T)
    requires Distinct(s)
    ensures multiset(s)[x] == if x in s then 1 else 0
  {
    if s != [] {
      var rest := s[..|s| - 1];
      AtMostOnce(rest, x);
      assert s == rest + [s[|s| - 1]];
    }
  }
}
