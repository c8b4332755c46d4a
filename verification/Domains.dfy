/** Mathematical domains, coercion between them, and their common superdomains. */
module Domains {
  import opened Wrappers
  import opened Exprs
  import Primality
  import NumberTheory

  datatype Domain =
    | ZZ
    | QQ
    | RR
    | CC
    | PolyRing(base: Domain, generators: seq<Symbol>)
    | FractionField(base: Domain, generators: seq<Symbol>)
    | FiniteField(characteristic: nat)
    | ExpressionDomain

  datatype CoercionKind = ExactSubdomain | PolynomialEmbedding | FractionEmbedding | BaseCoercion | ExpressionPromotion

  datatype CoercionReceipt = CoercionReceipt(from: Domain, to: Domain, kind: CoercionKind, isExact: bool)

  predicate IsExact(d: Domain) {
    match d
    case RR => false
    case CC => false
    case PolyRing(base, _) => IsExact(base)
    case FractionField(base, _) => IsExact(base)
    case _ => true
  }

  function Characteristic(d: Domain): nat {
    match d
    case FiniteField(p) => p
    case PolyRing(base, _) => Characteristic(base)
    case FractionField(base, _) => Characteristic(base)
    case _ => 0
  }

  /** What is under all layers. */
  function Foundation(d: Domain): Domain {
    if d.PolyRing? || d.FractionField? then Foundation(d.base) else d
  }

  /** Layers change neither exactness nor characteristic: only what is under them all decides. */
  lemma {:induction false} FoundationDecides(d: Domain)
    ensures IsExact(d) <==> !Foundation(d).RR? && !Foundation(d).CC?
    ensures Characteristic(d) == if Foundation(d).FiniteField? then Foundation(d).characteristic else 0
  {
    if d.PolyRing? || d.FractionField? { FoundationDecides(d.base); }
  }

  /** A finite field is made of primes only as far as the test tells, and of every prime. */
  method TryFiniteField(characteristic: Primality.u64) returns (d: Option<Domain>)
    ensures NumberTheory.IsPrime(characteristic as int) ==> d == Some(FiniteField(characteristic as nat))
    ensures characteristic < 1681 ==> (d.Some? <==> NumberTheory.IsPrime(characteristic as int))
  {
    var prime := Primality.IsPrimeU64(characteristic);
    if characteristic <= 1 || !prime { return None; }
    return Some(FiniteField(characteristic as nat));
  }

  predicate AllIn(g: seq<Symbol>, h: seq<Symbol>) {
    forall i | 0 <= i < |g| :: g[i] in h
  }

  predicate CanCoerceTo(a: Domain, b: Domain)
    decreases b, 1
  {
    CoercionTo(a, b).Some?
  }

  /** The arms are tried in order: a polynomial ring only ever enters another through its own base. */
  function CoercionTo(a: Domain, b: Domain): (r: Option<CoercionReceipt>)
    ensures r.Some? ==> r.value.from == a && r.value.to == b
    decreases b, 0
  {
    if a == b then Some(CoercionReceipt(a, b, ExactSubdomain, IsExact(a)))
    else if b.ExpressionDomain? then Some(CoercionReceipt(a, b, ExpressionPromotion, true))
    else
      match (a, b)
      case (ZZ, QQ) => Some(CoercionReceipt(a, b, ExactSubdomain, true))
      case (ZZ, RR) => Some(CoercionReceipt(a, b, ExactSubdomain, false))
      case (ZZ, CC) => Some(CoercionReceipt(a, b, ExactSubdomain, false))
      case (QQ, RR) => Some(CoercionReceipt(a, b, ExactSubdomain, false))
      case (QQ, CC) => Some(CoercionReceipt(a, b, ExactSubdomain, false))
      case (RR, CC) => Some(CoercionReceipt(a, b, ExactSubdomain, false))
      case (PolyRing(b1, g1), PolyRing(b2, g2)) =>
        if CanCoerceTo(b1, b2) && AllIn(g1, g2) then
          Some(CoercionReceipt(a, b, if b1 == b2 then PolynomialEmbedding else BaseCoercion, IsExact(a) && IsExact(b)))
        else None
      case (_, PolyRing(base, _)) =>
        if a == base || CanCoerceTo(a, base) then Some(CoercionReceipt(a, b, PolynomialEmbedding, IsExact(a))) else None
      case (PolyRing(base, g), FractionField(fbase, fg)) =>
        if base == fbase && g == fg then Some(CoercionReceipt(a, b, FractionEmbedding, true))
        else if (CanCoerceTo(base, fbase) || (base == QQ && fbase == ZZ)) && AllIn(g, fg) then
          Some(CoercionReceipt(a, b, BaseCoercion, IsExact(a)))
        else None
      case (FractionField(b1, g1), FractionField(b2, g2)) =>
        if (CanCoerceTo(b1, b2) || (b1 == QQ && b2 == ZZ)) && AllIn(g1, g2) then
          Some(CoercionReceipt(a, b, BaseCoercion, IsExact(a) && IsExact(b)))
        else None
      case (_, FractionField(base, _)) =>
        if a == base || CanCoerceTo(a, base) || (a == QQ && base == ZZ) then
          Some(CoercionReceipt(a, b, FractionEmbedding, IsExact(a)))
        else None
      case _ => None
  }

  /** The generators of `g`, then those of `h` not yet present. */
  function Merged(g: seq<Symbol>, h: seq<Symbol>): (m: seq<Symbol>)
    ensures g <= m
    ensures forall s :: s in m <==> s in g || s in h
    decreases |h|
  {
    if h == [] then g
    else
      var rest := Merged(g, h[..|h| - 1]);
      var s := h[|h| - 1];
      assert h == h[..|h| - 1] + [s];
      if s in rest then rest else rest + [s]
  }

  method MergeGenerators(g: seq<Symbol>, h: seq<Symbol>) returns (m: seq<Symbol>)
    ensures m == Merged(g, h)
  {
    m := g;
    for i := 0 to |h|
      invariant m == Merged(g, h[..i])
    {
      assert h[..i + 1][..i] == h[..i];
      if h[i] !in m {
        m := m + [h[i]];
      }
    }
    assert h[..|h|] == h;
  }

  function Height(d: Domain): nat {
    match d
    case PolyRing(base, _) => 1 + Height(base)
    case FractionField(base, _) => 1 + Height(base)
    case _ => 0
  }

  function CommonDomain(a: Domain, b: Domain): (c: Option<Domain>)
    decreases Height(a) + Height(b)
  {
    if a == b then Some(a)
    else if CanCoerceTo(a, b) then Some(b)
    else if CanCoerceTo(b, a) then Some(a)
    else
      match (a, b)
      case (PolyRing(b1, g1), PolyRing(b2, g2)) =>
        (match CommonDomain(b1, b2)
         case None => None
         case Some(base) => Some(PolyRing(base, Merged(g1, g2))))
      case (PolyRing(base, g), _) =>
        (match CommonDomain(base, b)
         case None => None
         case Some(common) => Some(PolyRing(common, g)))
      case (_, PolyRing(base, g)) =>
        (match CommonDomain(base, a)
         case None => None
         case Some(common) => Some(PolyRing(common, g)))
      case _ => Some(ExpressionDomain)
  }

  // ---- an upper bound always, however nested

  /** There is always a common domain, and both sides coerce into it. */
  lemma {:induction false} CommonDomainIsUpperBound(a: Domain, b: Domain)
    ensures var c := CommonDomain(a, b); c.Some? && CanCoerceTo(a, c.value) && CanCoerceTo(b, c.value)
    decreases Height(a) + Height(b)
  {
    if a == b || CanCoerceTo(a, b) || CanCoerceTo(b, a) {
      CoercionIsReflexive(a);
      CoercionIsReflexive(b);
    } else if a.PolyRing? && b.PolyRing? {
      CommonDomainIsUpperBound(a.base, b.base);
      var base := CommonDomain(a.base, b.base).value;
      IntoPolyRing(a, base, Merged(a.generators, b.generators));
      IntoPolyRing(b, base, Merged(a.generators, b.generators));
    } else if a.PolyRing? {
      CommonDomainIsUpperBound(a.base, b);
      var base := CommonDomain(a.base, b).value;
      IntoPolyRing(a, base, a.generators);
      IntoPolyRing(b, base, a.generators);
    } else if b.PolyRing? {
      CommonDomainIsUpperBound(b.base, a);
      var base := CommonDomain(b.base, a).value;
      IntoPolyRing(a, base, b.generators);
      IntoPolyRing(b, base, b.generators);
    } else {
      IntoExpressions(a);
      IntoExpressions(b);
    }
  }

  lemma IntoPolyRing(a: Domain, base: Domain, g: seq<Symbol>)
    requires if a.PolyRing? then CanCoerceTo(a.base, base) && AllIn(a.generators, g) else CanCoerceTo(a, base)
    ensures CanCoerceTo(a, PolyRing(base, g))
  {
  }

  lemma IntoExpressions(a: Domain)
    ensures CanCoerceTo(a, ExpressionDomain)
  {
  }

  lemma CoercionIsReflexive(a: Domain)
    ensures CanCoerceTo(a, a)
  {
  }

  // ---- receipts

  predicate OwnFractions(a: Domain, b: Domain) {
    a.PolyRing? && b.FractionField? && a.base == b.base && a.generators == b.generators
  }

  /** The kind of a receipt, from the shapes of the two domains alone. */
  lemma KindIff(a: Domain, b: Domain)
    requires CanCoerceTo(a, b)
    ensures var kind, layered := CoercionTo(a, b).value.kind, a.PolyRing? || a.FractionField?;
      && (kind.ExactSubdomain? <==> a == b || !(b.PolyRing? || b.FractionField? || b.ExpressionDomain?))
      && (kind.ExpressionPromotion? <==> a != b && b.ExpressionDomain?)
      && (kind.PolynomialEmbedding? <==> a != b && b.PolyRing? && (a.PolyRing? ==> a.base == b.base))
      && (kind.FractionEmbedding? <==> a != b && b.FractionField? && (layered ==> OwnFractions(a, b)))
      && (kind.BaseCoercion? <==> a != b && layered && ((b.PolyRing? && a.PolyRing? && a.base != b.base) || (b.FractionField? && !OwnFractions(a, b))))
  {
  }

  /** The target is a ring or a field of fractions, and the source is not one of the same kind. */
  predicate NewLayer(a: Domain, b: Domain) {
    (b.PolyRing? && !a.PolyRing?) || (b.FractionField? && !a.FractionField?)
  }

  /**
    A receipt is exact exactly when something is promoted to the catch-all, or a ring enters its own
    fractions, or the source is exact and either the target is too or is a new layer.
   */
  lemma ReceiptIsExactIff(a: Domain, b: Domain)
    requires CanCoerceTo(a, b)
    ensures CoercionTo(a, b).value.isExact <==>
      (a != b && b.ExpressionDomain?) || OwnFractions(a, b) || (IsExact(a) && (IsExact(b) || NewLayer(a, b)))
  {
  }

  /** The two ways for an exact receipt to end in an inexact target: over a new layer, and from a ring into its own fractions. */
  lemma ExactReceiptOfInexactTargetIff(a: Domain, b: Domain)
    requires CanCoerceTo(a, b) && !IsExact(b)
    ensures CoercionTo(a, b).value.isExact <==> OwnFractions(a, b) || (IsExact(a) && NewLayer(a, b))
  {
    ReceiptIsExactIff(a, b);
  }

  /** Both happen: integers enter polynomials over the reals, and real polynomials their fractions. */
  lemma ExactReceiptsIntoInexactTargets(x: Symbol)
    ensures var r := PolyRing(RR, [x]); !IsExact(r) && CanCoerceTo(ZZ, r) && CoercionTo(ZZ, r).value.isExact
    ensures var r, f := PolyRing(RR, [x]), FractionField(RR, [x]);
      !IsExact(r) && !IsExact(f) && CanCoerceTo(r, f) && CoercionTo(r, f).value.isExact
  {
  }

  // ---- flat domains

  /** The number tower, and the finite fields. */
  predicate Base(d: Domain) {
    d.ZZ? || d.QQ? || d.RR? || d.CC? || (d.FiniteField? && 0 < d.characteristic)
  }

  predicate Flat(d: Domain) {
    Base(d) || d.ExpressionDomain? || ((d.PolyRing? || d.FractionField?) && Base(d.base))
  }

  /** The tower order. */
  predicate Below(a: Domain, b: Domain) {
    a == b || (a.ZZ? && (b.QQ? || b.RR? || b.CC?)) || (a.QQ? && (b.RR? || b.CC?)) || (a.RR? && b.CC?)
  }

  /** The tower order under a field of fractions, where the integers already give the rationals. */
  predicate BelowInFractions(a: Domain, b: Domain) {
    Below(a, b) || (a.QQ? && b.ZZ?)
  }

  /** Coercion between flat domains, without recursion. */
  predicate FlatBelow(a: Domain, b: Domain)
    requires Flat(a) && Flat(b)
  {
    if b.ExpressionDomain? then true
    else if a.ExpressionDomain? then false
    else if b.FractionField? then
      if a.PolyRing? || a.FractionField? then BelowInFractions(a.base, b.base) && AllIn(a.generators, b.generators)
      else BelowInFractions(a, b.base)
    else if b.PolyRing? then
      if a.PolyRing? then Below(a.base, b.base) && AllIn(a.generators, b.generators)
      else !a.FractionField? && Below(a, b.base)
    else Base(a) && Below(a, b)
  }

  lemma CoercionOfBases(a: Domain, b: Domain)
    requires Flat(a) && Base(b)
    ensures CanCoerceTo(a, b) <==> Base(a) && Below(a, b)
  {
  }

  lemma FlatCoercion(a: Domain, b: Domain)
    requires Flat(a) && Flat(b)
    ensures CanCoerceTo(a, b) <==> FlatBelow(a, b)
  {
    if b.PolyRing? || b.FractionField? {
      CoercionOfBases(if a.PolyRing? || a.FractionField? then a.base else a, b.base);
      CoercionOfBases(a, b.base);
    } else if Base(b) {
      CoercionOfBases(a, b);
    }
  }

  /** Through nested rings coercion is not transitive: the polynomial-to-polynomial arm is tried first. */
  lemma NestedCoercionIsNotTransitive(x: Symbol, y: Symbol)
    requires x != y
    ensures var r, f := PolyRing(ZZ, [x]), FractionField(ZZ, [x]);
            CanCoerceTo(r, f) && CanCoerceTo(f, PolyRing(f, [y])) && !CanCoerceTo(r, PolyRing(f, [y]))
  {
    var r, f := PolyRing(ZZ, [x]), FractionField(ZZ, [x]);
    FlatCoercion(r, f);
    CoercionIsReflexive(f);
    assert [x][0] !in [y];
    assert !AllIn([x], [y]);
  }

  ghost predicate IsLeast(a: Domain, b: Domain, c: Domain) {
    forall u | Flat(u) && CanCoerceTo(a, u) && CanCoerceTo(b, u) :: CanCoerceTo(c, u)
  }

  /** One side coerces into the other. */
  predicate Comparable(a: Domain, b: Domain) {
    CanCoerceTo(a, b) || CanCoerceTo(b, a)
  }

  predicate LeastCondition(a: Domain, b: Domain) {
    Comparable(a, b) || (!a.FractionField? && !b.FractionField?) || Characteristic(a) != Characteristic(b)
  }

  /**
    On flat domains the common domain is the least one exactly when the two are comparable, or
    neither is a fraction field, or their characteristics differ.
   */
  lemma CommonDomainLeastIff(a: Domain, b: Domain)
    requires Flat(a) && Flat(b)
    ensures CommonDomain(a, b).Some? && (IsLeast(a, b, CommonDomain(a, b).value) <==> LeastCondition(a, b))
  {
    CommonDomainIsUpperBound(a, b);
    if LeastCondition(a, b) {
      forall u | Flat(u) && CanCoerceTo(a, u) && CanCoerceTo(b, u) ensures CanCoerceTo(CommonDomain(a, b).value, u) {
        CommonDomainBelow(a, b, u);
      }
    } else {
      var u := CommonFractions(a, b);
    }
  }

  /** Coercion does not change the characteristic, except into the catch-all. */
  lemma CoercionKeepsCharacteristic(a: Domain, u: Domain)
    requires Flat(a) && Flat(u) && CanCoerceTo(a, u) && !u.ExpressionDomain?
    ensures Characteristic(a) == Characteristic(u)
  {
    FlatCoercion(a, u);
  }

  lemma CommonOfRingsBelow(a: Domain, b: Domain, u: Domain)
    requires Flat(a) && Flat(b) && Flat(u) && CanCoerceTo(a, u) && CanCoerceTo(b, u)
    requires !Comparable(a, b) && !a.FractionField? && !b.FractionField? && Characteristic(a) == Characteristic(b)
    ensures CommonDomain(a, b).Some? && CanCoerceTo(CommonDomain(a, b).value, u)
  {
    hide CanCoerceTo, CommonDomain, Comparable;
    FlatCoercion(a, u);
    FlatCoercion(b, u);
    CommonOfRings(a, b);
    if u.PolyRing? || u.FractionField? {
      MergedIn(if a.PolyRing? then a.generators else [], if b.PolyRing? then b.generators else [], u.generators);
    }
    FlatCoercion(CommonDomain(a, b).value, u);
  }

  lemma MergedIn(g: seq<Symbol>, h: seq<Symbol>, k: seq<Symbol>)
    requires AllIn(g, k) && AllIn(h, k)
    ensures AllIn(Merged(g, h), k)
  {
  }

  lemma CommonDomainBelow(a: Domain, b: Domain, u: Domain)
    requires Flat(a) && Flat(b) && Flat(u) && LeastCondition(a, b)
    requires CanCoerceTo(a, u) && CanCoerceTo(b, u)
    ensures CommonDomain(a, b).Some? && CanCoerceTo(CommonDomain(a, b).value, u)
  {
    CommonDomainIsUpperBound(a, b);
    if Comparable(a, b) {
      assert CommonDomain(a, b).value in {a, b};
    } else if u.ExpressionDomain? {
      IntoExpressions(CommonDomain(a, b).value);
    } else {
      CoercionKeepsCharacteristic(a, u);
      CoercionKeepsCharacteristic(b, u);
      CommonOfRingsBelow(a, b, u);
    }
  }

  /** The common domain of incomparable flat rings of one characteristic. */
  lemma CommonOfRings(a: Domain, b: Domain)
    requires Flat(a) && Flat(b) && !Comparable(a, b) && !a.FractionField? && !b.FractionField? && Characteristic(a) == Characteristic(b)
    ensures (a.PolyRing? || b.PolyRing?) && !a.ExpressionDomain? && !b.ExpressionDomain?
    ensures var p, q := if a.PolyRing? then a.base else a, if b.PolyRing? then b.base else b;
            && (Below(p, q) || Below(q, p))
            && CommonDomain(a, b) == Some(PolyRing(if Below(p, q) then q else p,
                 if a.PolyRing? && b.PolyRing? then Merged(a.generators, b.generators)
                 else if a.PolyRing? then a.generators else b.generators))
  {
    FlatCoercion(a, b);
    FlatCoercion(b, a);
    var p, q := if a.PolyRing? then a.base else a, if b.PolyRing? then b.base else b;
    CoercionOfBases(p, q);
    CoercionOfBases(q, p);
  }

  /** When one side is a fraction field, fractions over the larger base in all generators bound both sides. */
  lemma CommonFractions(a: Domain, b: Domain) returns (u: Domain)
    requires Flat(a) && Flat(b) && !LeastCondition(a, b)
    ensures Flat(u) && CanCoerceTo(a, u) && CanCoerceTo(b, u)
    ensures CommonDomain(a, b).Some? && !CanCoerceTo(CommonDomain(a, b).value, u)
  {
    hide CanCoerceTo, CommonDomain, Comparable;
    CommonDomainIsUpperBound(a, b);
    var p := if a.PolyRing? || a.FractionField? then a.base else a;
    var q := if b.PolyRing? || b.FractionField? then b.base else b;
    var g := if a.PolyRing? || a.FractionField? then a.generators else [];
    var h := if b.PolyRing? || b.FractionField? then b.generators else [];
    ComparableWithExpressions(a, b);
    assert Characteristic(p) == Characteristic(a) && Characteristic(q) == Characteristic(b);
    assert Below(p, q) || Below(q, p);
    u := FractionField(if Below(p, q) then q else p, Merged(g, h));
    assert AllIn(g, u.generators) && AllIn(h, u.generators);
    FlatCoercion(a, u);
    FlatCoercion(b, u);
    CommonIsNotFlat(a, b);
    var c := CommonDomain(a, b).value;
    if c.PolyRing? { NotInto(c, u); } else { FlatCoercion(c, u); }
  }

  lemma ComparableWithExpressions(a: Domain, b: Domain)
    ensures a.ExpressionDomain? || b.ExpressionDomain? ==> Comparable(a, b)
  {
  }

  lemma CommonIsNotFlat(a: Domain, b: Domain)
    requires Flat(a) && Flat(b) && !Comparable(a, b) && (a.FractionField? || b.FractionField?)
    ensures CommonDomain(a, b).Some?
    ensures var c := CommonDomain(a, b).value; c.ExpressionDomain? || (c.PolyRing? && (c.base.ExpressionDomain? || c.base.FractionField?))
  {
    CommonDomainIsUpperBound(a, b);
    if a.PolyRing? {
      CommonWithFractions(a.base, b);
      assert CommonDomain(a, b) == Some(PolyRing(CommonDomain(a.base, b).value, a.generators));
    } else if b.PolyRing? {
      CommonWithFractions(b.base, a);
      assert CommonDomain(a, b) == Some(PolyRing(CommonDomain(b.base, a).value, b.generators));
    } else {
      assert CommonDomain(a, b) == Some(ExpressionDomain);
    }
  }

  lemma CommonWithFractions(p: Domain, f: Domain)
    requires Base(p) && f.FractionField?
    ensures CommonDomain(p, f) == Some(f) || CommonDomain(p, f) == Some(ExpressionDomain)
  {
    CanCoerceIntoBase(f, p);
  }

  lemma NotInto(c: Domain, u: Domain)
    requires c.PolyRing? && (c.base.ExpressionDomain? || c.base.FractionField?) && u.FractionField? && Base(u.base)
    ensures !CanCoerceTo(c, u)
  {
    CanCoerceIntoBase(c.base, u.base);
  }

  lemma CanCoerceIntoBase(a: Domain, b: Domain)
    requires Base(b) && !Base(a)
    ensures !CanCoerceTo(a, b)
  {
  }
}
