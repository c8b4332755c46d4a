/** Residues, primes, Fermat's little theorem and the square roots of one modulo a prime. */
module NumberTheory {
  import opened Sequences

  ghost predicate IsPrime(p: int) {
    2 <= p && forall d :: 2 <= d < p ==> p % d != 0
  }

  function Pow(b: nat, e: nat): nat {
    if e == 0 then 1 else b * Pow(b, e - 1)
  }

  // ---- residues

  lemma ResidueIsUnique(n: int, m: int, q: int, r: int)
    requires n == q * m + r && 0 <= r < m
    ensures n % m == r && n / m == q
  {
    var d := q - n / m;
    assert d * m == n % m - r by {
      assert n == (n / m) * m + n % m;
      assert d * m == q * m - (n / m) * m;
    }
    MultiplesAreApart(d, m);
  }

  lemma MultiplesAreApart(d: int, m: int)
    requires 0 < m
    ensures d >= 1 ==> d * m >= m
    ensures d <= -1 ==> d * m <= -m
  {
    if d >= 1 { assert (d - 1) * m >= 0; }
    if d <= -1 { assert (-d - 1) * m >= 0; }
  }

  lemma MultipleHasNoResidue(k: int, m: int)
    requires 0 < m
    ensures (k * m) % m == 0
  {
    ResidueIsUnique(k * m, m, k, 0);
  }

  /** Adding a multiple of the modulus changes nothing. */
  lemma ResidueOfShift(n: int, k: int, m: int)
    requires 0 < m
    ensures (n + k * m) % m == n % m
  {
    var q, r := n / m, n % m;
    assert n + k * m == (q + k) * m + r;
    ResidueIsUnique(n + k * m, m, q + k, r);
  }

  lemma ResidueOfProduct(a: int, b: int, m: int)
    requires 0 < m
    ensures ((a % m) * b) % m == (a * b) % m
    ensures (a * (b % m)) % m == (a * b) % m
    ensures ((a % m) * (b % m)) % m == (a * b) % m
  {
    ResidueOfFactor(a, b, m);
    ResidueOfFactor(b, a, m);
    ResidueOfFactor(b, a % m, m);
    assert (b % m) * a == a * (b % m) && b * a == a * b;
    assert (b % m) * (a % m) == (a % m) * (b % m) && b * (a % m) == (a % m) * b;
  }

  lemma ResidueOfFactor(a: int, b: int, m: int)
    requires 0 < m
    ensures ((a % m) * b) % m == (a * b) % m
  {
    var q := a / m;
    assert a * b == (a % m) * b + (q * b) * m by {
      assert a == q * m + a % m;
      assert (q * m) * b == (q * b) * m;
    }
    ResidueOfShift((a % m) * b, q * b, m);
  }

  lemma {:induction false} ResidueOfPow(b: nat, e: nat, m: nat)
    requires 0 < m
    ensures Pow(b % m, e) % m == Pow(b, e) % m
  {
    if e > 0 {
      ResidueOfPow(b, e - 1, m);
      ResidueOfProduct(b % m, Pow(b % m, e - 1), m);
      ResidueOfProduct(b % m, Pow(b, e - 1), m);
      ResidueOfProduct(b, Pow(b, e - 1), m);
    }
  }

  lemma {:induction false} PowAdd(b: nat, e: nat, f: nat)
    ensures Pow(b, e + f) == Pow(b, e) * Pow(b, f)
  {
    if e > 0 {
      PowAdd(b, e - 1, f);
      assert b * (Pow(b, e - 1) * Pow(b, f)) == (b * Pow(b, e - 1)) * Pow(b, f);
    }
  }

  lemma {:induction false} PowOfSquare(b: nat, e: nat)
    ensures Pow(b * b, e) == Pow(b, 2 * e)
  {
    if e > 0 {
      PowOfSquare(b, e - 1);
      assert Pow(b, 2 * e) == b * Pow(b, 2 * e - 1) == b * (b * Pow(b, 2 * (e - 1)));
      assert (b * b) * Pow(b, 2 * (e - 1)) == b * (b * Pow(b, 2 * (e - 1)));
    }
  }

  // ---- Euclid's lemma

  /** A prime that divides a product of a smaller positive number and `b` divides `b`. */
  lemma {:induction false} EuclidBelow(p: nat, a: nat, b: int)
    requires IsPrime(p) && 0 < a < p && (a * b) % p == 0
    ensures b % p == 0
    decreases a
  {
    if a > 1 {
      var q, r := p / a, p % a;
      assert r != 0;
      assert p == q * a + r;
      // r * b == p * b - q * (a * b)
      assert (r * b) % p == 0 by {
        var k := (a * b) / p;
        assert a * b == k * p;
        assert r * b == (b - q * k) * p by {
          assert r * b == p * b - (q * a) * b;
          assert (q * a) * b == q * (a * b) == (q * k) * p by { assert q * (k * p) == (q * k) * p; }
        }
        MultipleHasNoResidue(b - q * k, p);
      }
      EuclidBelow(p, r, b);
    } else {
      assert a * b == b;
    }
  }

  lemma Euclid(p: nat, a: int, b: int)
    requires IsPrime(p) && (a * b) % p == 0
    ensures a % p == 0 || b % p == 0
  {
    if a % p != 0 {
      ResidueOfProduct(a, b, p);
      EuclidBelow(p, a % p, b);
    }
  }

  // ---- Fermat's little theorem

  function Product(s: seq<nat>): nat {
    if s == [] then 1 else Product(s[..|s| - 1]) * s[|s| - 1]
  }

  function Factorial(n: nat): nat {
    if n == 0 then 1 else n * Factorial(n - 1)
  }

  ghost predicate Within(s: seq<nat>, n: nat) {
    forall i :: 0 <= i < |s| ==> 1 <= s[i] <= n
  }

  lemma {:induction false} ProductWithout(s: seq<nat>, i: nat)
    requires i < |s|
    ensures Product(s) == s[i] * Product(s[..i] + s[i + 1..])
  {
    var last := |s| - 1;
    if i == last {
      assert s[..i] + s[i + 1..] == s[..last];
    } else {
      var t := s[..last];
      ProductWithout(t, i);
      var rest := s[..i] + s[i + 1..];
      assert rest[..|rest| - 1] == t[..i] + t[i + 1..] && rest[|rest| - 1] == s[last];
      assert s[i] * Product(t[..i] + t[i + 1..]) * s[last] == s[i] * (Product(t[..i] + t[i + 1..]) * s[last]);
    }
  }

  /** More than `n` distinct numbers do not fit between 1 and `n`. */
  lemma {:induction false} Pigeonhole(s: seq<nat>, n: nat)
    requires Distinct(s) && Within(s, n)
    ensures |s| <= n
  {
    assert s == [] || 1 <= s[0] <= n;
    if n > 0 {
      if i :| 0 <= i < |s| && s[i] == n {
        Pigeonhole(s[..i] + s[i + 1..], n - 1);
      } else {
        Pigeonhole(s, n - 1);
      }
    }
  }

  /** `n` distinct numbers between 1 and `n` multiply to `n!`, in whatever order. */
  lemma {:induction false} ProductOfPermutation(s: seq<nat>, n: nat)
    requires |s| == n && Distinct(s) && Within(s, n)
    ensures Product(s) == Factorial(n)
  {
    if n > 0 {
      if forall i | 0 <= i < |s| :: s[i] != n {
        Pigeonhole(s, n - 1);
      }
      var i :| 0 <= i < |s| && s[i] == n;
      ProductWithout(s, i);
      var rest := s[..i] + s[i + 1..];
      assert forall j | 0 <= j < |rest| :: rest[j] == s[if j < i then j else j + 1];
      ProductOfPermutation(rest, n - 1);
    }
  }

  /** The multiples `a`, `2a`, ..., `na` modulo `p`. */
  function Multiples(a: nat, p: nat, n: nat): (s: seq<nat>)
    requires 0 < p
    ensures |s| == n && forall i | 0 <= i < n :: s[i] == (a * (i + 1)) % p
  {
    seq(n, i requires 0 <= i < n => (a * (i + 1)) % p)
  }

  lemma {:induction false} ProductOfMultiples(a: nat, p: nat, n: nat)
    requires 0 < p
    ensures Product(Multiples(a, p, n)) % p == (Pow(a, n) * Factorial(n)) % p
  {
    if n > 0 {
      var s := Multiples(a, p, n);
      assert s[..n - 1] == Multiples(a, p, n - 1);
      ProductOfMultiples(a, p, n - 1);
      var u, v := Product(s[..n - 1]), Pow(a, n - 1) * Factorial(n - 1);
      ResidueOfProduct(u, a * n, p);
      ResidueOfProduct(v, a * n, p);
      assert v * (a * n) == Pow(a, n) * Factorial(n) by {
        assert Pow(a, n - 1) * Factorial(n - 1) * (a * n) == (a * Pow(a, n - 1)) * (n * Factorial(n - 1));
      }
    }
  }

  lemma SameMultiple(a: nat, p: nat, i: nat, j: nat)
    requires IsPrime(p) && a % p != 0 && i < j && (a * i) % p == (a * j) % p
    ensures (j - i) % p == 0
  {
    var k := (a * j) / p - (a * i) / p;
    assert a * (j - i) == k * p by {
      assert a * j == ((a * j) / p) * p + (a * j) % p && a * i == ((a * i) / p) * p + (a * i) % p;
      assert a * (j - i) == a * j - a * i;
      assert k * p == ((a * j) / p) * p - ((a * i) / p) * p;
    }
    MultipleHasNoResidue(k, p);
    Euclid(p, a, j - i);
  }

  lemma NoMultiple(a: nat, p: nat, i: nat)
    requires IsPrime(p) && a % p != 0 && 0 < i < p
    ensures 1 <= (a * i) % p <= p - 1
  {
    if (a * i) % p == 0 { Euclid(p, a, i); }
  }

  lemma ApartMultiples(a: nat, p: nat, i: nat, j: nat)
    requires IsPrime(p) && a % p != 0 && 0 < i < j < p
    ensures (a * i) % p != (a * j) % p
  {
    if (a * i) % p == (a * j) % p {
      SameMultiple(a, p, i, j);
      ResidueIsUnique(j - i, p, 0, j - i);
    }
  }

  lemma MultiplesAreAPermutation(a: nat, p: nat)
    requires IsPrime(p) && a % p != 0
    ensures Distinct(Multiples(a, p, p - 1)) && Within(Multiples(a, p, p - 1), p - 1)
  {
    assert 2 <= p;
    hide IsPrime, Multiples;
    var s := Multiples(a, p, p - 1);
    forall i | 0 <= i < |s| ensures 1 <= s[i] <= p - 1 { NoMultiple(a, p, i + 1); }
    forall i, j | 0 <= i < j < |s| ensures s[i] != s[j] { ApartMultiples(a, p, i + 1, j + 1); }
  }

  lemma {:induction false} FactorialIsNoMultiple(p: nat, n: nat)
    requires IsPrime(p) && n < p
    ensures Factorial(n) % p != 0
  {
    if n > 0 {
      FactorialIsNoMultiple(p, n - 1);
      if Factorial(n) % p == 0 { Euclid(p, n, Factorial(n - 1)); }
    }
  }

  /** A factor that is no multiple of the prime can be cancelled. */
  lemma Cancel(p: nat, w: nat, f: nat)
    requires IsPrime(p) && (w * f) % p == f % p && f % p != 0
    ensures w % p == 1
  {
    var k := (w * f) / p - f / p;
    assert (w - 1) * f == k * p by {
      assert w * f == ((w * f) / p) * p + f % p && f == (f / p) * p + f % p;
      assert (w - 1) * f == w * f - f;
      assert k * p == ((w * f) / p) * p - (f / p) * p;
    }
    MultipleHasNoResidue(k, p);
    Euclid(p, w - 1, f);
    var q := (w - 1) / p;
    assert w == q * p + 1;
    ResidueIsUnique(w, p, q, 1);
  }

  lemma Fermat(p: nat, a: nat)
    requires IsPrime(p) && a % p != 0
    ensures Pow(a, p - 1) % p == 1
  {
    MultiplesAreAPermutation(a, p);
    ProductOfPermutation(Multiples(a, p, p - 1), p - 1);
    ProductOfMultiples(a, p, p - 1);
    FactorialIsNoMultiple(p, p - 1);
    Cancel(p, Pow(a, p - 1), Factorial(p - 1));
  }

  lemma FactorsOfOneLess(p: nat, x: nat, q: nat)
    requires p > 0 && q == (x * x) / p && (x * x) % p == 1
    ensures (x - 1) * (x + 1) == q * p
  {
    assert (x - 1) * (x + 1) == x * x - 1;
  }

  /** One has no other square roots than plus and minus one. */
  lemma RootsOfOne(p: nat, x: nat)
    requires IsPrime(p) && x < p && (x * x) % p == 1
    ensures x == 1 || x == p - 1
  {
    var q := (x * x) / p;
    FactorsOfOneLess(p, x, q);
    hide IsPrime;
    MultipleHasNoResidue(q, p);
    Euclid(p, x - 1, x + 1);
    ResidueIsUnique(p - 1, p, 0, p - 1);
    if x != p - 1 { ResidueIsUnique(x + 1, p, 0, x + 1); }
  }
}
