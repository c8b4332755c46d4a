/** Inferring a domain from the structure of an expression: what the answer promises, and how substitution moves it. */
module DomainInference {
  import opened Wrappers
  import opened Exprs
  import opened Domains
  import opened Symbols
  import opened Substitution

  datatype Sign = Negative | Zero | Positive

  function IntegerSign(n: int): Sign {
    if n < 0 then Negative else if n == 0 then Zero else Positive
  }

  function ExactRealSign(e: Expr): Option<Sign> {
    match e
    case Integer(n) => Some(IntegerSign(n))
    case Rational(q) => Some(IntegerSign(q.numer))
    case Const(c) =>
      if c.Pi? || c.E? || c.Infinity? then Some(Positive) else if c.NegativeInfinity? then Some(Negative) else None
    case _ => None
  }

  predicate IsIntegral(q: Ratio) {
    q.numer % q.denom == 0
  }

  function ExactIntegerExponentSign(e: Expr): Option<Sign> {
    match e
    case Integer(_) => ExactRealSign(e)
    case Rational(q) => if IsIntegral(q) then ExactRealSign(e) else None
    case _ => None
  }

  function Join(a: Domain, b: Domain): Domain {
    match CommonDomain(a, b)
    case Some(c) => c
    case None => ExpressionDomain
  }

  function OfPow(b: Expr, x: Expr, bdom: Domain, xdom: Domain): Domain {
    if ExactRealSign(b) == Some(Zero) && ExactRealSign(x) != Some(Positive) then ExpressionDomain
    else
      match ExactIntegerExponentSign(x)
      case Some(sign) =>
        (match bdom
         case ZZ => if sign == Negative then QQ else ZZ
         case QQ => QQ
         case RR => RR
         case CC => CC
         case PolyRing(base, g) => if sign == Negative then FractionField(base, g) else PolyRing(base, g)
         case _ => ExpressionDomain)
      case None =>
        var realBase := bdom.ZZ? || bdom.QQ? || bdom.RR?;
        if xdom.ZZ? && (bdom.ZZ? || bdom.QQ?) then QQ
        else if xdom.ZZ? && bdom.RR? then RR
        else if realBase && (xdom.QQ? || xdom.RR?) then
          (match ExactRealSign(b)
           case Some(Positive) => RR
           case Some(Zero) => RR
           case _ => CC)
        else if bdom.CC? && (xdom.ZZ? || xdom.QQ? || xdom.RR? || xdom.CC?) then CC
        else if realBase && xdom.CC? then CC
        else if bdom.PolyRing? && xdom.ZZ? then FractionField(bdom.base, bdom.generators)
        else ExpressionDomain
  }

  function OfExpr(e: Expr): Domain
    decreases e, 1
  {
    match e
    case Integer(_) => ZZ
    case Rational(_) => QQ
    case Const(c) => if c.I? || c.ComplexInfinity? then CC else RR
    case Sym(s) => PolyRing(ZZ, [s])
    case Add(ts) => OfTerms(ts)
    case Mul(ts) => OfTerms(ts)
    case Pow(b, x) => OfPow(b, x, OfExpr(b), OfExpr(x))
    case Function(_, _) => ExpressionDomain
  }

  function OfTerms(ts: seq<Expr>): Domain
    decreases ts, 0
  {
    if ts == [] then ZZ else Join(OfTerms(ts[..|ts| - 1]), OfExpr(ts[|ts| - 1]))
  }

  /** The fold over the terms of a sum or a product, accumulating one domain. */
  method InferDomain(e: Expr) returns (d: Domain)
    ensures d == OfExpr(e)
    decreases e
  {
    match e {
      case Pow(b, x) =>
        var bdom := InferDomain(b);
        var xdom := InferDomain(x);
        d := OfPow(b, x, bdom, xdom);
      case Add(ts) =>
        d := ZZ;
        for k := 0 to |ts|
          invariant d == OfTerms(ts[..k])
        {
          var t := InferDomain(ts[k]);
          assert ts[..k + 1][..k] == ts[..k];
          d := Join(d, t);
        }
        assert ts[..|ts|] == ts;
      case Mul(ts) =>
        d := ZZ;
        for k := 0 to |ts|
          invariant d == OfTerms(ts[..k])
        {
          var t := InferDomain(ts[k]);
          assert ts[..k + 1][..k] == ts[..k];
          d := Join(d, t);
        }
        assert ts[..|ts|] == ts;
      case _ => d := OfExpr(e);
    }
  }

  // ---- soundness on ground arithmetic

  function RealPow(b: real, k: nat): (r: real)
    ensures b != 0.0 ==> r != 0.0
  {
    if k == 0 then 1.0 else b * RealPow(b, k - 1)
  }

  predicate IsInt(v: real) {
    v.Floor as real == v
  }

  /** A real number, or some complex number that need not be real. */
  datatype Number = Real(value: real) | Complex

  /** The numbers that arithmetic alone does not give: the real constants, and positive reals raised to powers that are no integers. */
  datatype Reals = Reals(pi: real, e: real, power: (real, real) -> real)

  ghost predicate Positives(m: Reals) {
    m.pi > 0.0 && m.e > 0.0
  }

  /** The value of an arithmetic expression without variables, where it is defined; zero has no non-positive power. */
  function Value(m: Reals, x: Expr): Option<Number>
    decreases x, 1
  {
    match x
    case Integer(n) => Some(Real(n as real))
    case Rational(q) => Some(Real(q.numer as real / q.denom as real))
    case Const(c) => if c.Pi? then Some(Real(m.pi)) else if c.E? then Some(Real(m.e)) else if c.I? then Some(Complex) else None
    case Add(ts) => Total(m, ts, true)
    case Mul(ts) => Total(m, ts, false)
    case Pow(b, x) => (match (Value(m, b), Value(m, x)) case (Some(u), Some(w)) => Power(m, u, w) case _ => None)
    case _ => None
  }

  function Power(m: Reals, u: Number, w: Number): Option<Number> {
    if u.Complex? || w.Complex? then Some(Complex)
    else if u.value == 0.0 && w.value <= 0.0 then None
    else if IsInt(w.value) then Some(Real(IntegerPower(u.value, w.value.Floor)))
    else if u.value < 0.0 then Some(Complex)
    else Some(Real(if u.value == 0.0 then 0.0 else m.power(u.value, w.value)))
  }

  function IntegerPower(u: real, k: int): real
    requires k > 0 || u != 0.0
  {
    if 0 <= k then RealPow(u, k) else 1.0 / RealPow(u, -k)
  }

  function Total(m: Reals, ts: seq<Expr>, sum: bool): Option<Number>
    decreases ts, 0
  {
    if ts == [] then Some(Real(if sum then 0.0 else 1.0))
    else
      match (Total(m, ts[..|ts| - 1], sum), Value(m, ts[|ts| - 1]))
      case (Some(u), Some(w)) => Some(CombinedNumbers(u, w, sum))
      case _ => None
  }

  function CombinedNumbers(u: Number, w: Number, sum: bool): Number {
    if u.Complex? || w.Complex? then Complex else Real(if sum then u.value + w.value else u.value * w.value)
  }

  ghost predicate IsFraction(v: real, p: int, q: int) {
    0 < q && v * q as real == p as real
  }

  ghost predicate IsRational(v: real) {
    exists p: int, q: int :: IsFraction(v, p, q)
  }

  /** What a number domain promises about a value. */
  ghost predicate Holds(d: Domain, v: Number) {
    && (d.ZZ? || d.QQ? || d.RR? ==> v.Real?)
    && (d.ZZ? ==> IsInt(v.value)) && (d.QQ? ==> IsRational(v.value))
  }

  lemma IntsAreClosed(u: real, v: real) returns (s: real, p: real)
    requires IsInt(u) && IsInt(v)
    ensures s == u + v && p == u * v && IsInt(s) && IsInt(p)
  {
    var m, n := u.Floor, v.Floor;
    s, p := (m + n) as real, (m * n) as real;
  }

  lemma IntIsRational(v: real)
    requires IsInt(v)
    ensures IsRational(v)
  {
    assert IsFraction(v, v.Floor, 1);
  }

  lemma FractionsAreClosed(u: real, p: int, q: int, v: real, r: int, s: int)
    requires IsFraction(u, p, q) && IsFraction(v, r, s)
    ensures IsFraction(u + v, p * s + r * q, q * s) && IsFraction(u * v, p * r, q * s)
  {
    assert (q * s) as real == q as real * s as real;
    assert (u + v) * (q as real * s as real) == (u * q as real) * s as real + (v * s as real) * q as real;
    assert (u * v) * (q as real * s as real) == (u * q as real) * (v * s as real);
    assert (p * s + r * q) as real == p as real * s as real + r as real * q as real;
    assert (p * r) as real == p as real * r as real;
  }

  lemma RationalsAreClosed(u: real, v: real) returns (sum: real, product: real)
    requires IsRational(u) && IsRational(v)
    ensures sum == u + v && product == u * v && IsRational(sum) && IsRational(product)
  {
    sum, product := u + v, u * v;
    var p, q :| IsFraction(u, p, q);
    var r, s :| IsFraction(v, r, s);
    FractionsAreClosed(u, p, q, v, r, s);
  }

  lemma InverseIsRational(v: real)
    requires IsRational(v) && v != 0.0
    ensures IsRational(1.0 / v)
  {
    var p, q :| IsFraction(v, p, q);
    var w := 1.0 / v;
    assert v * w == 1.0;
    assert w * p as real == q as real by { assert w * (v * q as real) == (w * v) * q as real; }
    if 0 < p {
      assert IsFraction(w, q, p);
    } else {
      assert p != 0;
      assert w * (-p) as real == (-q) as real;
      assert IsFraction(w, -q, -p);
    }
  }

  lemma {:induction false} PowersOfInts(n: int, k: nat)
    ensures IsInt(RealPow(n as real, k))
  {
    if k > 0 {
      PowersOfInts(n, k - 1);
      var _, p := IntsAreClosed(n as real, RealPow(n as real, k - 1));
      assert RealPow(n as real, k) == p;
    }
  }

  lemma {:induction false} PowersOfRationals(v: real, k: nat)
    requires IsRational(v)
    ensures IsRational(RealPow(v, k))
  {
    if k > 0 {
      PowersOfRationals(v, k - 1);
      var _, p := RationalsAreClosed(v, RealPow(v, k - 1));
      assert RealPow(v, k) == p;
    } else {
      IntIsRational(1.0);
    }
  }

  /** Only what lies below a number domain joins into it. */
  lemma JoinInto(a: Domain, b: Domain)
    ensures Join(a, b).ZZ? ==> a.ZZ? && b.ZZ?
    ensures Join(a, b).QQ? ==> (a.ZZ? || a.QQ?) && (b.ZZ? || b.QQ?)
    ensures Join(a, b).RR? ==> (a.ZZ? || a.QQ? || a.RR?) && (b.ZZ? || b.QQ? || b.RR?)
  {
    CommonDomainIsUpperBound(a, b);
  }

  /** A defined value lies where the inferred number domain says: an integer, a rational, or a real. */
  lemma {:induction false} InferenceIsSound(m: Reals, x: Expr)
    requires Positives(m) && Value(m, x).Some?
    ensures Holds(OfExpr(x), Value(m, x).value)
    decreases x, 1
  {
    match x
    case Integer(n) =>
    case Rational(q) => assert IsFraction(q.numer as real / q.denom as real, q.numer, q.denom);
    case Add(ts) => FoldIsSound(m, ts, true);
    case Mul(ts) => FoldIsSound(m, ts, false);
    case Pow(b, y) =>
      InferenceIsSound(m, b);
      InferenceIsSound(m, y);
      PowerIsSound(m, b, y, OfExpr(b), OfExpr(y), Value(m, b).value, Value(m, y).value);
    case _ =>
  }

  lemma {:induction false} FoldIsSound(m: Reals, ts: seq<Expr>, sum: bool)
    requires Positives(m) && Total(m, ts, sum).Some?
    ensures Holds(OfTerms(ts), Total(m, ts, sum).value)
    decreases ts, 0
  {
    if ts != [] {
      var init, last := ts[..|ts| - 1], ts[|ts| - 1];
      FoldIsSound(m, init, sum);
      InferenceIsSound(m, last);
      JoinInto(OfTerms(init), OfExpr(last));
      hide OfExpr, Join, Value, Holds, CombinedNumbers;
      CombinedIsSound(OfTerms(init), OfExpr(last), OfTerms(ts), Total(m, init, sum).value, Value(m, last).value, sum);
    }
  }

  /** Sums and products of what two domains promise are in any that only both join into. */
  lemma CombinedIsSound(a: Domain, b: Domain, d: Domain, u: Number, w: Number, sum: bool)
    requires Holds(a, u) && Holds(b, w)
    requires d.ZZ? ==> a.ZZ? && b.ZZ?
    requires d.QQ? ==> (a.ZZ? || a.QQ?) && (b.ZZ? || b.QQ?)
    requires d.RR? ==> (a.ZZ? || a.QQ? || a.RR?) && (b.ZZ? || b.QQ? || b.RR?)
    ensures Holds(d, CombinedNumbers(u, w, sum))
  {
    hide IsInt, IsRational;
    if d.ZZ? {
      var s, p := IntsAreClosed(u.value, w.value);
      assert CombinedNumbers(u, w, sum) == Real(if sum then s else p);
    } else if d.QQ? {
      if IsInt(u.value) { IntIsRational(u.value); }
      if IsInt(w.value) { IntIsRational(w.value); }
      var s, p := RationalsAreClosed(u.value, w.value);
      assert CombinedNumbers(u, w, sum) == Real(if sum then s else p);
    }
  }

  lemma WholeRatio(q: Ratio)
    requires IsIntegral(q)
    ensures q.numer as real / q.denom as real == (q.numer / q.denom) as real
    ensures IntegerSign(q.numer / q.denom) == IntegerSign(q.numer)
  {
    var k := q.numer / q.denom;
    assert q.numer == k * q.denom;
    assert q.numer as real == k as real * q.denom as real;
  }

  lemma LiteralExponent(m: Reals, x: Expr)
    requires ExactIntegerExponentSign(x).Some?
    ensures Value(m, x).Some? && Value(m, x).value.Real? && IsInt(Value(m, x).value.value)
    ensures ExactIntegerExponentSign(x).value == IntegerSign(Value(m, x).value.value.Floor)
  {
    if x.Rational? {
      WholeRatio(x.ratio);
    }
  }

  /** The sign read off a literal is the sign of its value. */
  lemma LiteralSign(m: Reals, x: Expr)
    requires Positives(m) && ExactRealSign(x).Some? && Value(m, x).Some?
    ensures Value(m, x).value.Real?
    ensures ExactRealSign(x) == Some(Positive) <==> Value(m, x).value.value > 0.0
    ensures ExactRealSign(x) == Some(Zero) <==> Value(m, x).value.value == 0.0
  {
    if x.Rational? {
      var v, n, d := x.ratio.numer as real / x.ratio.denom as real, x.ratio.numer as real, x.ratio.denom as real;
      assert v * d == n && d > 0.0;
    }
  }

  /** The sign is known of every integer and rational literal, of the real constants, and of both infinities, and of nothing else. */
  lemma KnownSigns(x: Expr)
    ensures ExactRealSign(x).Some? <==> x.Integer? || x.Rational? || x == Const(Constant.Pi) || x == Const(E) || x == Const(Infinity) || x == Const(NegativeInfinity)
    ensures x == Const(Infinity) ==> ExactRealSign(x) == Some(Positive)
    ensures x == Const(NegativeInfinity) ==> ExactRealSign(x) == Some(Negative)
    ensures ExactIntegerExponentSign(x) == if x.Integer? || (x.Rational? && x.ratio.numer % x.ratio.denom == 0) then ExactRealSign(x) else None
  {
  }

  /** Where a power stays in a number domain, what is known of its base and its exponent. */
  lemma PowDomain(b: Expr, x: Expr, bdom: Domain, xdom: Domain)
    ensures OfPow(b, x, bdom, xdom).ZZ? ==> bdom.ZZ? && ExactIntegerExponentSign(x).Some? && !ExactIntegerExponentSign(x).value.Negative?
    ensures OfPow(b, x, bdom, xdom).QQ? ==> (bdom.ZZ? || bdom.QQ?) && (xdom.ZZ? || ExactIntegerExponentSign(x).Some?)
    ensures OfPow(b, x, bdom, xdom).RR? ==> (
      && (bdom.ZZ? || bdom.QQ? || bdom.RR?)
      && (ExactIntegerExponentSign(x).Some? || xdom.ZZ?
          || ((xdom.QQ? || xdom.RR?) && ExactRealSign(b).Some? && !ExactRealSign(b).value.Negative?)))
  {
  }

  lemma IntegerPowerIsRational(u: real, k: int)
    requires (k > 0 || u != 0.0) && (IsInt(u) || IsRational(u))
    ensures IsRational(IntegerPower(u, k))
  {
    if IsInt(u) { IntIsRational(u); }
    hide IsRational, IsInt;
    PowersOfRationals(u, if 0 <= k then k else -k);
    if k < 0 { InverseIsRational(RealPow(u, -k)); }
  }

  lemma PowerIsSound(m: Reals, b: Expr, x: Expr, bdom: Domain, xdom: Domain, u: Number, w: Number)
    requires Positives(m) && Value(m, b) == Some(u) && Value(m, x) == Some(w) && Power(m, u, w).Some?
    requires Holds(bdom, u) && Holds(xdom, w)
    ensures Holds(OfPow(b, x, bdom, xdom), Power(m, u, w).value)
  {
    PowDomain(b, x, bdom, xdom);
    if ExactIntegerExponentSign(x).Some? { LiteralExponent(m, x); }
    if ExactRealSign(b).Some? { LiteralSign(m, b); }
    hide OfPow, Value, ExactRealSign, ExactIntegerExponentSign;
    var d := OfPow(b, x, bdom, xdom);
    if d.ZZ? {
      PowersOfInts(u.value.Floor, w.value.Floor);
    } else if d.QQ? {
      IntegerPowerIsRational(u.value, w.value.Floor);
    }
  }

  // ---- powers among the domains

  /** The imaginary unit and the undirected infinity are complex; every other constant is taken to be real, and a symbol is a polynomial. */
  lemma LeafDomains(n: int, q: Ratio, s: Symbol)
    ensures OfExpr(Integer(n)).ZZ? && OfExpr(Rational(q)).QQ? && OfExpr(Sym(s)) == PolyRing(ZZ, [s])
    ensures OfExpr(Const(I)).CC? && OfExpr(Const(ComplexInfinity)).CC?
    ensures forall c :: c != I && c != ComplexInfinity ==> OfExpr(Const(c)).RR?
  {
  }

  /** Every element but zero has an inverse. */
  predicate IsField(d: Domain) {
    d.QQ? || d.RR? || d.CC? || d.FractionField? || d.FiniteField?
  }

  predicate IsNumber(d: Domain) {
    d.ZZ? || d.QQ? || d.RR? || d.CC?
  }

  /** Zero raised to what is not known to be positive. */
  predicate Undefined(b: Expr, x: Expr) {
    ExactRealSign(b) == Some(Zero) && ExactRealSign(x) != Some(Positive)
  }

  /** The smallest field that a domain is part of. */
  ghost predicate IsLeastField(a: Domain, f: Domain) {
    && IsField(f) && CanCoerceTo(a, f)
    && forall u | Flat(u) && IsField(u) && CanCoerceTo(a, u) :: CanCoerceTo(f, u)
  }

  lemma OfPowExpr(b: Expr, x: Expr)
    ensures OfExpr(Pow(b, x)) == OfPow(b, x, OfExpr(b), OfExpr(x))
  {
  }

  /** A power with a literal natural exponent stays where its base is: numbers and polynomials multiply. */
  lemma NaturalPowerStays(b: Expr, k: nat)
    requires IsNumber(OfExpr(b)) || OfExpr(b).PolyRing?
    requires !Undefined(b, Integer(k))
    ensures OfExpr(Pow(b, Integer(k))) == OfExpr(b)
  {
  }

  /** Where the exponent is an integer that may be negative, it goes to the smallest field around its base. */
  lemma IntegerPowerIsInLeastField(b: Expr, x: Expr)
    requires IsNumber(OfExpr(b)) || OfExpr(b).PolyRing?
    requires !Undefined(b, x)
    requires if ExactIntegerExponentSign(x).Some? then ExactIntegerExponentSign(x).value.Negative? else OfExpr(x).ZZ?
    ensures IsLeastField(OfExpr(b), OfExpr(Pow(b, x)))
  {
    OfPowExpr(b, x);
    var a, f := OfExpr(b), OfExpr(Pow(b, x));
    hide OfExpr;
    assert f == if a.PolyRing? then FractionField(a.base, a.generators) else if a.ZZ? then QQ else a;
    assert IsField(f) && CanCoerceTo(a, f);
    forall u | Flat(u) && IsField(u) && CanCoerceTo(a, u) ensures CanCoerceTo(f, u) {
      if a.PolyRing? {
        IntoFractions(a.base, a.generators, u);
      } else {
        FlatCoercion(a, u);
        FlatCoercion(f, u);
      }
    }
  }

  /** Whatever field a ring enters, its fractions enter. */
  lemma IntoFractions(base: Domain, g: seq<Symbol>, u: Domain)
    requires IsField(u) && CanCoerceTo(PolyRing(base, g), u)
    ensures CanCoerceTo(FractionField(base, g), u)
  {
    assert u.FractionField?;
    if base == u.base {
      CoercionIsReflexive(base);
    }
  }

  /**
    With an exponent that is a number but no integer, the power of a number is real if it is known
    to be, and otherwise complex; it is never smaller than its base.
   */
  lemma NumberPowers(b: Expr, x: Expr)
    requires IsNumber(OfExpr(b)) && IsNumber(OfExpr(x)) && !OfExpr(x).ZZ?
    requires ExactIntegerExponentSign(x).None? && !Undefined(b, x)
    ensures var d := OfExpr(Pow(b, x));
      && (d.RR? || d.CC?) && CanCoerceTo(OfExpr(b), d) && CanCoerceTo(OfExpr(x), d)
      && (d.RR? <==> !OfExpr(b).CC? && !OfExpr(x).CC? && ExactRealSign(b).Some? && !ExactRealSign(b).value.Negative?)
  {
    OfPowExpr(b, x);
    hide OfExpr;
  }

  /** Nothing more is said of any other power. */
  lemma OtherPowers(b: Expr, x: Expr)
    requires Undefined(b, x) || !(IsNumber(OfExpr(b)) || OfExpr(b).PolyRing?)
      || (ExactIntegerExponentSign(x).None? && !OfExpr(x).ZZ? && (OfExpr(b).PolyRing? || !IsNumber(OfExpr(x))))
    ensures OfExpr(Pow(b, x)).ExpressionDomain?
  {
    OfPowExpr(b, x);
    hide OfExpr;
  }

  // ---- stability of polynomial rings under substitution

  /** Built from integer and rational literals and symbols by sums, products and positive literal integer powers. */
  predicate Polynomial(e: Expr) {
    match e
    case Integer(_) => true
    case Rational(_) => true
    case Sym(_) => true
    case Add(ts) => forall i | 0 <= i < |ts| :: Polynomial(ts[i])
    case Mul(ts) => forall i | 0 <= i < |ts| :: Polynomial(ts[i])
    case Pow(b, x) => Polynomial(b) && ExactIntegerExponentSign(x) == Some(Positive)
    case _ => false
  }

  /** A rational literal occurs outside the exponents. */
  predicate HasRational(e: Expr) {
    match e
    case Rational(_) => true
    case Add(ts) => exists i | 0 <= i < |ts| :: HasRational(ts[i])
    case Mul(ts) => exists i | 0 <= i < |ts| :: HasRational(ts[i])
    case Pow(b, _) => HasRational(b)
    case _ => false
  }

  predicate HasVariable(e: Expr, s: Symbol) {
    match e
    case Sym(u) => u == s
    case Add(ts) => exists i | 0 <= i < |ts| :: HasVariable(ts[i], s)
    case Mul(ts) => exists i | 0 <= i < |ts| :: HasVariable(ts[i], s)
    case Pow(b, _) => HasVariable(b, s)
    case _ => false
  }

  /** The integers or the rationals, with the generators `has` if there are any. */
  ghost predicate InRing(d: Domain, rational: bool, has: Symbol -> bool) {
    var base := if rational then QQ else ZZ;
    if d.PolyRing? then d.base == base && d.generators != [] && forall s :: s in d.generators <==> has(s)
    else d == base && forall s :: !has(s)
  }

  lemma JoinRings(a: Domain, p: bool, f: Symbol -> bool, b: Domain, q: bool, g: Symbol -> bool, h: Symbol -> bool)
    requires InRing(a, p, f) && InRing(b, q, g)
    requires forall s :: h(s) <==> f(s) || g(s)
    ensures InRing(Join(a, b), p || q, h)
  {
    CommonDomainIsUpperBound(a, b);
    FlatCoercion(a, b);
    FlatCoercion(b, a);
  }

  lemma {:induction false} TermsOfRing(ts: seq<Expr>, has: Symbol -> bool, rational: bool)
    requires forall i | 0 <= i < |ts| :: Polynomial(ts[i])
    requires forall s :: has(s) <==> exists i | 0 <= i < |ts| :: HasVariable(ts[i], s)
    requires rational <==> exists i | 0 <= i < |ts| :: HasRational(ts[i])
    ensures InRing(OfTerms(ts), rational, has)
    decreases ts, 0
  {
    if ts != [] {
      var init, last := ts[..|ts| - 1], ts[|ts| - 1];
      var f := s => exists i | 0 <= i < |init| :: HasVariable(init[i], s);
      var p := exists i | 0 <= i < |init| :: HasRational(init[i]);
      TermsOfRing(init, f, p);
      PolynomialsInferRings(last);
      assert ts == init + [last];
      JoinRings(OfTerms(init), p, f, OfExpr(last), HasRational(last), s => HasVariable(last, s), has);
    }
  }

  /** A polynomial is inferred into the ring of its literals and its variables, exactly. */
  lemma {:induction false} PolynomialsInferRings(e: Expr)
    requires Polynomial(e)
    ensures InRing(OfExpr(e), HasRational(e), s => HasVariable(e, s))
    decreases e, 1
  {
    match e
    case Add(ts) => TermsOfRing(ts, s => HasVariable(e, s), HasRational(e));
    case Mul(ts) => TermsOfRing(ts, s => HasVariable(e, s), HasRational(e));
    case Pow(b, x) =>
      PolynomialsInferRings(b);
      assert OfExpr(e) == OfExpr(b);
      SameRing(OfExpr(b), HasRational(b), s => HasVariable(b, s), s => HasVariable(e, s));
    case _ =>
  }

  lemma SameRing(d: Domain, rational: bool, f: Symbol -> bool, g: Symbol -> bool)
    requires InRing(d, rational, f) && forall s :: f(s) <==> g(s)
    ensures InRing(d, rational, g)
  {
  }

  /** `e'` is a polynomial with no literals and no variables beyond those of `e` and `r`. */
  ghost predicate GrowsBy(e: Expr, r: Expr, e': Expr) {
    && Polynomial(e')
    && (HasRational(e') ==> HasRational(e) || HasRational(r))
    && forall s | HasVariable(e', s) :: HasVariable(e, s) || HasVariable(r, s)
  }

  lemma NodeGrowsBy(e: Expr, r: Expr, ds: seq<Expr>)
    requires (e.Add? || e.Mul?) && |ds| == |Children(e)|
    requires forall i | 0 <= i < |ds| :: GrowsBy(Children(e)[i], r, ds[i])
    ensures GrowsBy(e, r, WithChildren(e, ds))
  {
    var e' := WithChildren(e, ds);
    if HasRational(e') {
      var i :| 0 <= i < |ds| && HasRational(ds[i]);
      assert HasRational(Children(e)[i]) || HasRational(r);
    }
    forall s | HasVariable(e', s) ensures HasVariable(e, s) || HasVariable(r, s) {
      var i :| 0 <= i < |ds| && HasVariable(ds[i], s);
      assert GrowsBy(Children(e)[i], r, ds[i]);
    }
  }

  lemma PowGrowsBy(b: Expr, x: Expr, r: Expr, b': Expr)
    requires Polynomial(Pow(b, x)) && GrowsBy(b, r, b')
    ensures GrowsBy(Pow(b, x), r, Pow(b', x))
  {
  }

  /** Substituting a polynomial into a polynomial adds no literals and no variables but the replacement's. */
  lemma {:induction false} SubstitutedPolynomial(e: Expr, x: Symbol, r: Expr, F: set<Symbol>, depth: nat, e': Expr)
    requires Polynomial(e) && Polynomial(r) && Subs(e, x, r, F, depth) == Ok(e')
    ensures GrowsBy(e, r, e')
    decreases e
  {
    if !e.Sym? {
      assert Binders.TryFromExpr(e).None?;
      hide Subs, GrowsBy;
      OpaqueStays(e, x, r, F, depth, e');
      var cs, ds := Children(e), Children(e');
      if e.Pow? {
        SubstitutedPolynomial(cs[0], x, r, F, depth + 1, ds[0]);
        LiteralUntouched(cs[1], x, r, F, depth + 1, ds[1]);
        PowGrowsBy(e.base, e.exponent, r, ds[0]);
      } else if e.Add? || e.Mul? {
        forall i | 0 <= i < |cs| ensures GrowsBy(cs[i], r, ds[i]) {
          SubstitutedPolynomial(cs[i], x, r, F, depth + 1, ds[i]);
        }
        NodeGrowsBy(e, r, ds);
      } else {
        LeafGrowsBy(e, r);
      }
    }
  }

  lemma LeafGrowsBy(e: Expr, r: Expr)
    requires Polynomial(e)
    ensures GrowsBy(e, r, e)
  {
  }

  lemma LiteralUntouched(e: Expr, x: Symbol, r: Expr, F: set<Symbol>, depth: nat, e': Expr)
    requires ExactIntegerExponentSign(e).Some? && Subs(e, x, r, F, depth) == Ok(e')
    ensures e' == e
  {
  }

  /** The domain of a substituted polynomial coerces into the common domain of source and replacement. */
  lemma SubstitutionStaysInCommonDomain(e: Expr, x: Symbol, r: Expr, e': Expr)
    requires Polynomial(e) && Polynomial(r) && CaptureAvoidingSubs(e, x, r) == Ok(e')
    ensures CommonDomain(OfExpr(e), OfExpr(r)).Some?
    ensures CanCoerceTo(OfExpr(e'), CommonDomain(OfExpr(e), OfExpr(r)).value)
  {
    hide Subs, CaptureAvoidingSubs, FreeOf, Polynomial, HasRational, HasVariable, OfExpr, CommonDomain, CanCoerceTo;
    AnswerOfSubs(e, x, r, e');
    SubstitutedPolynomial(e, x, r, FreeOf(r), 0, e');
    PolynomialsInferRings(e);
    PolynomialsInferRings(r);
    PolynomialsInferRings(e');
    CommonDomainIsUpperBound(OfExpr(e), OfExpr(r));
    var has := s => HasVariable(e, s) || HasVariable(r, s);
    JoinRings(OfExpr(e), HasRational(e), s => HasVariable(e, s), OfExpr(r), HasRational(r), s => HasVariable(r, s), has);
    SmallerRing(OfExpr(e'), HasRational(e'), s => HasVariable(e', s), Join(OfExpr(e), OfExpr(r)), HasRational(e) || HasRational(r), has);
  }

  lemma SmallerRing(a: Domain, p: bool, f: Symbol -> bool, b: Domain, q: bool, g: Symbol -> bool)
    requires InRing(a, p, f) && InRing(b, q, g)
    requires (p ==> q) && forall s :: f(s) ==> g(s)
    ensures CanCoerceTo(a, b)
  {
    FlatCoercion(a, b);
    if a.PolyRing? { assert f(a.generators[0]) by { assert a.generators[0] in a.generators; } }
  }
}
