/** The strong probable-prime test on machine words, and what it never gets wrong. */
module Primality {
  import opened NumberTheory

  newtype u64 = x: int | 0 <= x < 0x1_0000_0000_0000_0000
  newtype u128 = x: int | 0 <= x < 0x1_0000_0000_0000_0000_0000_0000_0000_0000

  const BASES: seq<u64> := [2, 3, 5, 7, 11, 13, 17, 19, 23, 29, 31, 37]

  const WORD: int := 0x1_0000_0000_0000_0000

  lemma ProductBound(a: int, b: int, m: int)
    requires 0 <= a <= m && 0 <= b <= m
    ensures 0 <= a * b <= m * m
  {
    assert (m - a) * b >= 0 && m * (m - b) >= 0;
    assert m * m - a * b == (m - a) * b + m * (m - b);
  }

  /** A product of two words fits a double word. */
  lemma ProductFits(a: u64, b: u64)
    ensures 0 <= a as int * b as int < 0x1_0000_0000_0000_0000_0000_0000_0000_0000
  {
    ProductBound(a as int, b as int, WORD - 1);
  }

  method MulMod(a: u64, b: u64, modulus: u64) returns (r: u64)
    requires 0 < modulus
    ensures r as int == (a as int * b as int) % modulus as int
  {
    ProductFits(a, b);
    var wide := (a as u128 * b as u128) % modulus as u128;
    r := wide as u64;
  }

  lemma HalveExponent(res: nat, b: nat, e: nat, m: nat)
    requires 0 < m && 0 < e
    ensures var res' := if e % 2 != 0 then (res * b) % m else res;
            (res' * Pow((b * b) % m, e / 2)) % m == (res * Pow(b, e)) % m
  {
    var h := e / 2;
    PowOfSquare(b, h);
    ResidueOfPow(b * b, h, m);
    var sq := Pow(b, 2 * h);
    if e % 2 != 0 {
      assert Pow(b, e) == b * sq;
      var x := (res * b) % m;
      ResidueOfProduct(x, Pow((b * b) % m, h), m);
      ResidueOfProduct(x, sq, m);
      ResidueOfProduct(res * b, sq, m);
      assert res * b * sq == res * Pow(b, e);
    } else {
      ResidueOfProduct(res, Pow((b * b) % m, h), m);
      ResidueOfProduct(res, sq, m);
    }
  }

  /** Square-and-multiply; every intermediate value fits its word. */
  method ModPow(base0: u64, exp0: u64, modulus: u64) returns (res: u64)
    requires 0 < modulus
    ensures res as int == if exp0 == 0 then 1 else Pow(base0 as int, exp0 as int) % modulus as int
  {
    ghost var m, goal := modulus as nat, Pow(base0 as nat, exp0 as nat) % modulus as nat;
    ResidueOfPow(base0 as nat, exp0 as nat, m);
    hide Pow;
    res := 1;
    var base, exp := base0 % modulus, exp0;
    while exp > 0
      invariant exp <= exp0 && (exp == exp0 ==> res == 1)
      invariant exp == 0 < exp0 ==> res < modulus
      invariant (res as nat * Pow(base as nat, exp as nat)) % m == goal
    {
      HalveExponent(res as nat, base as nat, exp as nat, m);
      var odd := exp % 2 != 0;
      if odd {
        res := MulMod(res, base, modulus);
      }
      base := MulMod(base, base, modulus);
      exp := exp / 2;
    }
    LastPower(res as nat, base as nat, m, goal);
  }

  lemma LastPower(res: nat, b: nat, m: nat, goal: nat)
    requires 0 < m && (res * Pow(b, 0)) % m == goal
    ensures res % m == goal && (res < m ==> res == goal)
  {
    if res < m { ResidueIsUnique(res, m, 0, res); }
  }

  // ---- specification

  /** The odd part of a positive number and the power of two beside it. */
  function Split(m: nat): (r: (nat, nat))
    requires 0 < m
    ensures m == r.0 * Pow(2, r.1) && r.0 % 2 == 1
  {
    if m % 2 == 0 then
      var (d, s) := Split(m / 2);
      assert d * Pow(2, s + 1) == 2 * (d * Pow(2, s));
      (d, s + 1)
    else (m, 0)
  }

  /** `a` to the odd part, squared `i` times, modulo `n`. */
  function Squared(n: nat, a: nat, i: nat): nat
    requires 2 <= n
  {
    Pow(a, Split(n - 1).0 * Pow(2, i)) % n
  }

  /** The sequence starts at one, or meets minus one before its last squaring. */
  predicate Passes(n: nat, a: nat)
    requires 2 <= n
  {
    Squared(n, a, 0) == 1 || exists i | 0 <= i < Split(n - 1).1 :: Squared(n, a, i) == n - 1
  }

  predicate Accepted(n: nat) {
    2 <= n && (n <= 3 || (n % 2 != 0 && n % 3 != 0 && forall k | 0 <= k < |BASES| && BASES[k] as int < n :: Passes(n, BASES[k] as int)))
  }

  lemma NextSquare(n: nat, a: nat, i: nat)
    requires 2 <= n
    ensures Squared(n, a, i + 1) == (Squared(n, a, i) * Squared(n, a, i)) % n
  {
    var d, p := Split(n - 1).0, Pow(2, i);
    assert Pow(2, i + 1) == 2 * p && d * (2 * p) == d * p + d * p;
    hide Split, Pow;
    PowAdd(a, d * p, d * p);
    ResidueOfProduct(Pow(a, d * p), Pow(a, d * p), n);
  }

  ghost predicate NoMinusOne(n: nat, a: nat, k: nat)
    requires 2 <= n
  {
    forall i: nat | i < k :: Squared(n, a, i) != n - 1
  }

  lemma FirstOfSequence(n: nat, a: nat, d: nat)
    requires 2 <= n && d == Split(n - 1).0
    ensures 0 < d && Squared(n, a, 0) == Pow(a, d) % n
  {
    assert Split(n - 1).0 * Pow(2, 0) == d;
  }

  // ---- the test

  /** One round of the test for one base. */
  method PassesRound(n: u64, a: u64, d: u64, s: u64) returns (b: bool)
    requires 3 < n && (d as int, s as int) == Split(n as int - 1) && 0 < s
    ensures b <==> Passes(n as int, a as int)
  {
    ghost var N, A := n as nat, a as nat;
    FirstOfSequence(N, A, d as nat);
    hide Squared, Split;
    var x := ModPow(a, d, n);
    if x == 1 || x == n - 1 {
      return true;
    }
    var k: u64 := 1;
    while k < s
      invariant 1 <= k <= s
      invariant x as nat == Squared(N, A, k as nat - 1)
      invariant Squared(N, A, 0) != 1 && NoMinusOne(N, A, k as nat)
    {
      NextSquare(N, A, k as nat - 1);
      x := MulMod(x, x, n);
      if x == n - 1 {
        return true;
      }
      k := k + 1;
    }
    b := false;
  }

  lemma EvenSplit(m: nat)
    requires 0 < m && m % 2 == 0
    ensures 0 < Split(m).1 < m
  {
    SplitBound(m);
  }

  lemma {:induction false} SplitBound(m: nat)
    requires 0 < m
    ensures Split(m).1 < m
  {
    if m % 2 == 0 { SplitBound(m / 2); }
  }

  lemma AcceptedMeans(n: nat)
    ensures IsPrime(n) ==> Accepted(n)
    ensures n < 1681 ==> (Accepted(n) <==> IsPrime(n))
  {
    hide Accepted;
    if IsPrime(n) { PrimesAreAccepted(n); }
    if n < 1681 && Accepted(n) { SmallAcceptedIsPrime(n); }
  }

  lemma HalveSplit(m: nat)
    requires 0 < m && m % 2 == 0
    ensures Split(m) == (Split(m / 2).0, Split(m / 2).1 + 1)
  {
  }

  lemma OddSplit(m: nat)
    requires 0 < m && m % 2 == 1
    ensures Split(m) == (m, 0)
  {
  }

  method IsPrimeU64(n: u64) returns (b: bool)
    ensures b <==> Accepted(n as int)
    ensures IsPrime(n as int) ==> b
    ensures n < 1681 ==> (b <==> IsPrime(n as int))
  {
    AcceptedMeans(n as nat);
    hide IsPrime, Passes, Split;
    if n <= 1 { return false; }
    if n <= 3 { return true; }
    if n % 2 == 0 || n % 3 == 0 { return false; }
    var d, s := n - 1, 0;
    ghost var m := n as nat - 1;
    EvenSplit(m);
    while d % 2 == 0
      invariant 0 < d && Split(m) == (Split(d as nat).0, Split(d as nat).1 + s as nat)
      decreases d
    {
      SplitBound(m);
      HalveSplit(d as nat);
      d := d / 2;
      s := s + 1;
    }
    OddSplit(d as nat);
    b := PassesBases(n, d, s);
  }

  /** The bases in turn, up to the first that is not below `n`. */
  method PassesBases(n: u64, d: u64, s: u64) returns (b: bool)
    requires 3 < n && (d as int, s as int) == Split(n as int - 1) && 0 < s
    ensures b <==> forall k | 0 <= k < |BASES| && BASES[k] as int < n as int :: Passes(n as int, BASES[k] as int)
  {
    hide Passes, Split;
    var i := 0;
    while i < |BASES|
      invariant 0 <= i <= |BASES|
      invariant forall k | 0 <= k < i :: BASES[k] < n && Passes(n as nat, BASES[k] as nat)
    {
      if n <= BASES[i] { break; }
      var passes := PassesRound(n, BASES[i], d, s);
      if !passes { return false; }
      i := i + 1;
    }
    b := true;
  }

  // ---- what it means

  lemma {:induction false} BackToOne(n: nat, a: nat, i: nat)
    requires IsPrime(n) && Squared(n, a, i) == 1 && NoMinusOne(n, a, i)
    ensures Squared(n, a, 0) == 1
  {
    hide Squared;
    if i > 0 {
      NextSquare(n, a, i - 1);
      SquaredIsResidue(n, a, i - 1);
      RootsOfOne(n, Squared(n, a, i - 1));
      BackToOne(n, a, i - 1);
    }
  }

  lemma SquaredIsResidue(n: nat, a: nat, i: nat)
    requires 2 <= n
    ensures Squared(n, a, i) < n
  {
  }

  /** A prime passes the round of every base it does not divide. */
  lemma PrimePasses(n: nat, a: nat)
    requires IsPrime(n) && a % n != 0
    ensures Passes(n, a)
  {
    Fermat(n, a);
    var s := Split(n - 1).1;
    assert Squared(n, a, s) == 1;
    hide Squared, Split;
    if NoMinusOne(n, a, s) { BackToOne(n, a, s); }
  }

  /** No prime is ever rejected. */
  lemma PrimesAreAccepted(n: nat)
    requires IsPrime(n)
    ensures Accepted(n)
  {
    forall k | 0 <= k < |BASES| && BASES[k] as int < n ensures Passes(n, BASES[k] as int) {
      ResidueIsUnique(BASES[k] as int, n, 0, BASES[k] as int);
      PrimePasses(n, BASES[k] as int);
    }
  }

  lemma ResidueThroughDivisor(x: nat, n: nat, q: nat)
    requires 0 < q && 0 < n && n % q == 0
    ensures (x % n) % q == x % q
  {
    var k := (x / n) * (n / q);
    assert x == x % n + k * q by {
      assert n == (n / q) * q;
      assert (x / n) * ((n / q) * q) == k * q;
    }
    ResidueOfShift(x % n, k, q);
  }

  lemma PowerOfBase(q: nat, e: nat)
    requires 2 <= q && 1 <= e
    ensures Pow(q, e) % q == 0
  {
    assert Pow(q, e) == Pow(q, e - 1) * q;
    MultipleHasNoResidue(Pow(q, e - 1), q);
  }

  lemma PositiveExponent(m: nat, i: nat)
    requires 0 < m
    ensures 1 <= Split(m).0 * Pow(2, i)
  {
    PowPositive(i);
    assert 1 <= Split(m).0;
    hide Split, Pow;
    PositiveProduct(Split(m).0, Pow(2, i));
  }

  lemma PositiveProduct(a: nat, b: nat)
    requires 1 <= a && 1 <= b
    ensures 1 <= a * b
  {
  }

  lemma {:induction false} PowPositive(i: nat)
    ensures 1 <= Pow(2, i)
  {
    if i > 0 { PowPositive(i - 1); }
  }

  /** A base that divides the number exposes it. */
  lemma DivisorExposes(n: nat, q: nat)
    requires 3 < n && 2 <= q < n && n % q == 0
    ensures !Passes(n, q)
  {
    ResidueOfShift(q - 1, n / q - 1, q);
    assert n - 1 == q - 1 + (n / q - 1) * q;
    ResidueIsUnique(q - 1, q, 0, q - 1);
    ResidueIsUnique(1, q, 0, 1);
    assert 1 % q != 0 && (n - 1) % q != 0;
    forall i: nat ensures Squared(n, q, i) % q == 0 {
      PositiveExponent(n - 1, i);
      PowerOfBase(q, Split(n - 1).0 * Pow(2, i));
      ResidueThroughDivisor(Pow(q, Split(n - 1).0 * Pow(2, i)), n, q);
    }
    hide Squared, Split;
  }

  lemma LeastDivisor(n: nat, d: nat) returns (q: nat)
    requires 2 <= d < n && n % d == 0
    ensures 2 <= q < n && n % q == 0 && forall c | 2 <= c < q :: n % c != 0
    decreases d
  {
    if c :| 2 <= c < d && n % c == 0 {
      q := LeastDivisor(n, c);
    } else {
      q := d;
    }
  }

  /** The least divisor of a composite number is at most its square root. */
  lemma LeastDivisorIsSmall(n: nat, q: nat)
    requires 2 <= q < n && n % q == 0 && forall c | 2 <= c < q :: n % c != 0
    ensures q * q <= n
  {
    var k := n / q;
    assert n == k * q;
    MultipleHasNoResidue(q, k);
    assert q * k == n && n % k == 0;
    if q <= k { assert (k - q) * q >= 0; }
  }

  lemma DivisorOfDivisor(n: nat, q: nat, c: nat)
    requires 0 < c && 0 < q && n % q == 0 && q % c == 0
    ensures n % c == 0
  {
    assert n == (n / q) * ((q / c) * c) == ((n / q) * (q / c)) * c;
    MultipleHasNoResidue((n / q) * (q / c), c);
  }

  /** Below 41 squared, only primes are accepted. */
  lemma SmallAcceptedIsPrime(n: nat)
    requires n < 1681 && Accepted(n)
    ensures IsPrime(n)
  {
    if d :| 2 <= d < n && n % d == 0 {
      var q := LeastDivisor(n, d);
      LeastDivisorIsSmall(n, q);
      SmallSquareRoot(q);
      if q % 2 == 0 { DivisorOfDivisor(n, q, 2); }
      if q % 3 == 0 { DivisorOfDivisor(n, q, 3); }
      if q % 5 == 0 { DivisorOfDivisor(n, q, 5); }
      DivisorExposes(n, q);
      var k := BaseIndex(q);
    }
  }

  lemma SmallSquareRoot(q: nat)
    requires q * q < 1681
    ensures q <= 40
  {
    if q > 40 { ProductBound(41, 41, q); }
  }

  lemma BaseIndex(q: nat) returns (k: nat)
    requires 2 <= q <= 40 && (q % 2 == 0 ==> q == 2) && (q % 3 == 0 ==> q == 3) && (q % 5 == 0 ==> q == 5)
    ensures k < |BASES| && BASES[k] as int == q
  {
    if q <= 7 { k := if q == 2 then 0 else if q == 3 then 1 else if q == 5 then 2 else 3; }
    else if q <= 19 { k := if q == 11 then 4 else if q == 13 then 5 else if q == 17 then 6 else 7; }
    else { k := if q == 23 then 8 else if q == 29 then 9 else if q == 31 then 10 else 11; }
  }
}
