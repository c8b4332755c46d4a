/** Choosing a name outside a set, and why the search for one ends. */
module Freshening {
  import opened Wrappers
  import opened Exprs

  function Decimal(n: nat): (s: string)
    ensures s != []
  {
    if n < 10 then [('0' as int + n) as char] else Decimal(n / 10) + [('0' as int + n % 10) as char]
  }

  function Numeral(s: string): int {
    if s == [] then 0 else 10 * Numeral(s[..|s| - 1]) + (s[|s| - 1] as int - '0' as int)
  }

  lemma {:induction false} NumeralOfDecimal(n: nat)
    ensures Numeral(Decimal(n)) == n
  {
    if 10 <= n {
      var s := Decimal(n);
      NumeralOfDecimal(n / 10);
      assert s[..|s| - 1] == Decimal(n / 10);
    } else {
      assert Decimal(n)[..0] == [];
    }
  }

  /** Digits only, and none wasted on a leading zero: with `NumeralOfDecimal`, the decimal form. */
  lemma {:induction false} DecimalHasDigits(n: nat)
    ensures forall i :: 0 <= i < |Decimal(n)| ==> '0' <= Decimal(n)[i] <= '9'
    ensures n > 0 ==> Decimal(n)[0] != '0'
  {
    if 10 <= n { DecimalHasDigits(n / 10); }
  }

  /** The `i`-th numbered name built from `base`. */
  function Candidate(base: string, i: nat): Symbol {
    Plain(base + "_" + Decimal(i))
  }

  lemma CandidatesDiffer(base: string, i: nat, j: nat)
    requires Candidate(base, i) == Candidate(base, j)
    ensures i == j
  {
    var s, t := base + "_" + Decimal(i), base + "_" + Decimal(j);
    assert s[|base| + 1..] == Decimal(i) && t[|base| + 1..] == Decimal(j);
    NumeralOfDecimal(i);
    NumeralOfDecimal(j);
  }

  /** The numbered names from `1` up to but excluding `i`. */
  ghost function Tried(base: string, i: nat): (names: set<Symbol>)
    requires 1 <= i
    ensures forall j | 1 <= j < i :: Candidate(base, j) in names
    ensures forall s | s in names :: exists j | 1 <= j < i :: s == Candidate(base, j)
    ensures |names| == i - 1
  {
    if i == 1 then {}
    else
      var earlier := Tried(base, i - 1);
      assert Candidate(base, i - 1) !in earlier by {
        forall j | 1 <= j < i - 1 && Candidate(base, i - 1) == Candidate(base, j) ensures false {
          CandidatesDiffer(base, i - 1, j);
        }
      }
      earlier + {Candidate(base, i - 1)}
  }

  /** Once every candidate below `i` is taken, `i` is at most the number of taken names. */
  lemma TakenCandidatesBound(base: string, avoid: set<Symbol>, i: nat)
    requires 1 <= i && Plain(base) in avoid && forall j | 1 <= j < i :: Candidate(base, j) in avoid
    ensures i <= |avoid|
  {
    var taken := Tried(base, i) + {Plain(base)};
    assert Plain(base) !in Tried(base, i) by {
      assert forall j: nat :: |Candidate(base, j).name| > |base|;
    }
    assert taken <= avoid;
    Subset(taken, avoid);
  }

  lemma {:induction false} Subset<T>(a: set<T>, b: set<T>)
    requires a <= b
    ensures |a| <= |b|
  {
    if x :| x in a {
      Subset(a - {x}, b - {x});
    }
  }

  /** The first of `base`, `base_1`, `base_2`, ... outside `avoid`. */
  function Fresh(base: string, avoid: set<Symbol>): (s: Symbol)
    ensures s !in avoid
  {
    if Plain(base) !in avoid then Plain(base) else FreshFrom(base, avoid, 1)
  }

  function FreshFrom(base: string, avoid: set<Symbol>, i: nat): (s: Symbol)
    requires 1 <= i && Plain(base) in avoid && forall j | 1 <= j < i :: Candidate(base, j) in avoid
    ensures s !in avoid
    decreases |avoid| - i
  {
    if Candidate(base, i) !in avoid then Candidate(base, i)
    else
      TakenCandidatesBound(base, avoid, i + 1);
      FreshFrom(base, avoid, i + 1)
  }

  /** The name itself if it is free; otherwise it, and every numbered name below the one chosen, is taken. */
  lemma FreshIsFirst(base: string, avoid: set<Symbol>) returns (i: nat)
    ensures Fresh(base, avoid) == Symbol(if i == 0 then base else base + "_" + Decimal(i), None)
    ensures i > 0 ==> Symbol(base, None) in avoid
    ensures forall j :: 1 <= j < i ==> Symbol(base + "_" + Decimal(j), None) in avoid
  {
    i := 0;
    if Plain(base) in avoid {
      i := FirstFrom(base, avoid, 1);
      forall j | 1 <= j < i ensures Symbol(base + "_" + Decimal(j), None) in avoid { assert Candidate(base, j) in avoid; }
    }
  }

  lemma {:induction false} FirstFrom(base: string, avoid: set<Symbol>, i: nat) returns (k: nat)
    requires 1 <= i && Plain(base) in avoid && forall j | 1 <= j < i :: Candidate(base, j) in avoid
    ensures i <= k && FreshFrom(base, avoid, i) == Candidate(base, k) && forall j | 1 <= j < k :: Candidate(base, j) in avoid
    decreases |avoid| - i
  {
    k := i;
    if Candidate(base, i) in avoid {
      TakenCandidatesBound(base, avoid, i + 1);
      k := FirstFrom(base, avoid, i + 1);
    }
  }

  /** The search ends at an index no larger than the number of names to avoid. */
  method FreshSymbol(base: string, avoid: set<Symbol>) returns (s: Symbol)
    ensures s == Fresh(base, avoid)
    ensures s !in avoid
    ensures s == Plain(base) || exists i | 1 <= i <= |avoid| :: s == Candidate(base, i)
  {
    if Plain(base) !in avoid {
      return Plain(base);
    }
    var index := 1;
    while true
      invariant 1 <= index
      invariant forall j | 1 <= j < index :: Candidate(base, j) in avoid
      invariant FreshFrom(base, avoid, index) == FreshFrom(base, avoid, 1)
      decreases |avoid| - index
    {
      TakenCandidatesBound(base, avoid, index);
      var candidate := Candidate(base, index);
      if candidate !in avoid {
        return candidate;
      }
      index := index + 1;
      TakenCandidatesBound(base, avoid, index);
    }
  }
}
