/** When coercions compose, exactly, for arbitrarily nested domains. */
module CoercionOrder {
  import opened Exprs
  import opened Domains
  import Freshening

  /** A ring or a field of fractions over another domain. */
  predicate Layered(d: Domain) {
    d.PolyRing? || d.FractionField?
  }

  /** What may enter a field of fractions over `b` as a coefficient: the integers already give the rationals. */
  predicate Into(a: Domain, b: Domain) {
    CanCoerceTo(a, b) || (a.QQ? && b.ZZ?)
  }

  /** The outermost field of fractions below any number of rings. */
  predicate HasCore(d: Domain) {
    d.FractionField? || (d.PolyRing? && HasCore(d.base))
  }

  function Core(d: Domain): (f: Domain)
    requires HasCore(d)
    ensures f.FractionField? && Height(f) <= Height(d)
  {
    if d.FractionField? then d else Core(d.base)
  }

  /** Each layer has all the generators of the layer below it. */
  predicate Chain(d: Domain) {
    Layered(d) ==> Chain(d.base) && (Layered(d.base) ==> AllIn(d.base.generators, d.generators))
  }

  /** A layer with generators `g` may be put over `d`: the core of `d` is a chain and keeps its generators. */
  predicate MayCarry(d: Domain, g: seq<Symbol>) {
    HasCore(d) ==> Chain(Core(d)) && AllIn(Core(d).generators, g)
  }

  /** The innermost layer is a ring over the integers. */
  predicate RingOfIntegers(d: Domain) {
    Layered(d) && ((d.PolyRing? && d.base.ZZ?) || RingOfIntegers(d.base))
  }

  /**
    The shape of the targets into which coercions compose: no layer over the catch-all, every layer
    may be carried by what is below it, and no field of fractions over a ring of integers.
   */
  predicate Composes(c: Domain) {
    Layered(c) ==>
      && !c.base.ExpressionDomain? && Composes(c.base) && MayCarry(c.base, c.generators)
      && (c.FractionField? ==> !RingOfIntegers(c.base))
  }

  // ---- the arms, one by one

  lemma IntoRing(a: Domain, b: Domain)
    requires b.PolyRing?
    ensures CanCoerceTo(a, b) <==>
      if a.PolyRing? then CanCoerceTo(a.base, b.base) && AllIn(a.generators, b.generators) else CanCoerceTo(a, b.base)
  {
    if a == b { CoercionIsReflexive(a.base); }
  }

  lemma IntoField(a: Domain, b: Domain)
    requires b.FractionField?
    ensures CanCoerceTo(a, b) <==>
      if Layered(a) then Into(a.base, b.base) && AllIn(a.generators, b.generators) else Into(a, b.base)
  {
    CoercionIsReflexive(a);
    if Layered(a) { CoercionIsReflexive(a.base); }
  }

  /** Layers never enter a number domain, and nothing but the catch-all enters it from there. */
  lemma IntoGround(a: Domain, b: Domain)
    requires !Layered(b) && !b.ExpressionDomain? && CanCoerceTo(a, b)
    ensures !Layered(a) && !a.ExpressionDomain?
  {
  }

  lemma AllInTransitive(g: seq<Symbol>, h: seq<Symbol>, k: seq<Symbol>)
    requires AllIn(g, h) && AllIn(h, k)
    ensures AllIn(g, k)
  {
    forall i | 0 <= i < |g| ensures g[i] in k {
      var j :| 0 <= j < |h| && h[j] == g[i];
    }
  }

  lemma GroundCompose(a: Domain, b: Domain, c: Domain)
    requires !Layered(c) && CanCoerceTo(a, b) && CanCoerceTo(b, c)
    ensures CanCoerceTo(a, c)
  {
    if !c.ExpressionDomain? {
      IntoGround(b, c);
      IntoGround(a, b);
    }
  }

  /** Nothing enters a domain over no catch-all from the catch-all. */
  lemma {:induction false} CatchAllStaysOut(c: Domain)
    requires Composes(c) && !c.ExpressionDomain?
    ensures !CanCoerceTo(ExpressionDomain, c)
  {
    if Layered(c) {
      CatchAllStaysOut(c.base);
      if c.PolyRing? { IntoRing(ExpressionDomain, c); } else { IntoField(ExpressionDomain, c); }
    }
  }

  /** What enters a chain has its outermost generators among those of the chain, and its base enters too. */
  lemma {:induction false} BaseEntersChain(a: Domain, d: Domain)
    requires Composes(d) && Chain(d) && !d.ExpressionDomain? && Layered(a) && CanCoerceTo(a, d)
    ensures Layered(d) && AllIn(a.generators, d.generators) && CanCoerceTo(a.base, d)
    decreases d, 1
  {
    if !Layered(d) {
      IntoGround(a, d);
    } else if d.PolyRing? {
      IntoRing(a, d);
      IntoRing(a.base, d);
      if !a.PolyRing? {
        BaseEntersChain(a, d.base);
        AllInTransitive(a.generators, d.base.generators, d.generators);
      }
      EntersLayer(a.base, d);
    } else {
      IntoField(a, d);
      EntersLayer(a.base, d);
    }
  }

  /** What enters the base of a chain enters the chain. */
  lemma {:induction false} EntersLayer(a: Domain, d: Domain)
    requires Layered(d) && Composes(d) && Chain(d)
    requires CanCoerceTo(a, d.base) || (d.FractionField? && Into(a, d.base))
    ensures CanCoerceTo(a, d)
    decreases d, 0
  {
    if d.PolyRing? { IntoRing(a, d); } else { IntoField(a, d); }
    if Layered(a) && CanCoerceTo(a, d.base) {
      BaseEntersChain(a, d.base);
      AllInTransitive(a.generators, d.base.generators, d.generators);
    }
  }

  // ---- coercions compose into such targets

  /** What enters the core of a domain enters the domain. */
  lemma {:induction false} ThroughCore(a: Domain, d: Domain)
    requires HasCore(d) && Composes(d) && Chain(Core(d)) && CanCoerceTo(a, Core(d))
    ensures CanCoerceTo(a, d)
  {
    if d.PolyRing? {
      ThroughCore(a, d.base);
      IntoRing(a, d);
      if a.PolyRing? {
        CoreComposes(d);
        BaseEntersChain(a, Core(d));
        ThroughCore(a.base, d.base);
        AllInTransitive(a.generators, Core(d).generators, d.generators);
      }
    }
  }

  lemma {:induction false} CoreComposes(d: Domain)
    requires HasCore(d) && Composes(d)
    ensures Composes(Core(d))
  {
    if d.PolyRing? { CoreComposes(d.base); }
  }

  /** A field of fractions that enters a domain enters its core. */
  lemma {:induction false} FieldEntersCore(f: Domain, d: Domain)
    requires f.FractionField? && CanCoerceTo(f, d) && Composes(d) && !d.ExpressionDomain?
    ensures HasCore(d) && CanCoerceTo(f, Core(d))
  {
    if !Layered(d) {
      IntoGround(f, d);
    } else if d.PolyRing? {
      IntoRing(f, d);
      FieldEntersCore(f, d.base);
    }
  }

  /** Where the integers enter, so do the rationals, but for the integers themselves and rings of integers. */
  lemma {:induction false} RationalsFollow(d: Domain)
    requires Composes(d) && CanCoerceTo(ZZ, d)
    ensures CanCoerceTo(QQ, d) <==> !d.ZZ? && !RingOfIntegers(d)
  {
    if d.PolyRing? {
      IntoRing(ZZ, d);
      IntoRing(QQ, d);
      RationalsFollow(d.base);
    } else if d.FractionField? {
      IntoField(ZZ, d);
      IntoField(QQ, d);
      RationalsFollow(d.base);
    }
  }

  /** Coercions into such a target compose, whatever they pass through. */
  lemma {:induction false} CoercionsCompose(a: Domain, b: Domain, c: Domain)
    requires Composes(c) && CanCoerceTo(a, b) && CanCoerceTo(b, c)
    ensures CanCoerceTo(a, c)
    decreases c, 1
  {
    if !Layered(c) {
      GroundCompose(a, b, c);
    } else {
      if c.PolyRing? { IntoRing(b, c); IntoRing(a, c); } else { IntoField(b, c); IntoField(a, c); }
      if b.PolyRing? {
        IntoRing(a, b);
        ComposeThroughRing(a, b, c);
      } else if b.FractionField? {
        IntoField(a, b);
        ComposeThroughField(a, b, c);
      } else {
        CatchAllStaysOut(c);
        IntoGround(a, b);
        IntoComposes(a, b, c.base);
      }
    }
  }

  /** The same with integer fractions allowed at either step. */
  lemma {:induction false} IntoComposes(a: Domain, b: Domain, d: Domain)
    requires Composes(d) && Into(a, b) && Into(b, d)
    ensures RingOfIntegers(d) || Into(a, d)
    ensures CanCoerceTo(a, b) && CanCoerceTo(b, d) ==> CanCoerceTo(a, d)
    decreases d, 2
  {
    if CanCoerceTo(b, d) {
      if CanCoerceTo(a, b) {
        CoercionsCompose(a, b, d);
      } else {
        RationalsFollow(d);
      }
    } else if CanCoerceTo(a, b) {
      assert a.ZZ? || a.QQ?;
      CoercionIsReflexive(d);
    }
  }

  lemma {:induction false} ComposeThroughRing(a: Domain, b: Domain, c: Domain)
    requires Layered(c) && Composes(c) && b.PolyRing? && CanCoerceTo(a, b) && CanCoerceTo(b, c)
    ensures CanCoerceTo(a, c)
    decreases c, 0
  {
    IntoRing(a, b);
    if c.PolyRing? { IntoRing(b, c); IntoRing(a, c); } else { IntoField(b, c); IntoField(a, c); }
    if Layered(a) {
      if a.PolyRing? { AllInTransitive(a.generators, b.generators, c.generators); }
      assert Into(b.base, c.base);
    }
    if CanCoerceTo(b.base, c.base) {
      if a.PolyRing? {
        CoercionsCompose(a.base, b.base, c.base);
      } else {
        CoercionsCompose(a, b.base, c.base);
        if a.FractionField? {
          CoercionIsReflexive(a.base);
          FieldCarries(a.base, a, c.base, c.generators);
        }
      }
    } else {
      IntoGround(if a.PolyRing? then a.base else a, QQ);
    }
  }

  lemma {:induction false} ComposeThroughField(a: Domain, b: Domain, c: Domain)
    requires Layered(c) && Composes(c) && b.FractionField? && CanCoerceTo(a, b) && CanCoerceTo(b, c)
    ensures CanCoerceTo(a, c)
    decreases c, 0
  {
    IntoField(a, b);
    var a1 := if Layered(a) then a.base else a;
    if c.PolyRing? {
      IntoRing(b, c);
      IntoRing(a, c);
      FieldCarries(a1, b, c.base, c.generators);
      if a.PolyRing? {
        AllInTransitive(a.generators, b.generators, c.generators);
      } else {
        CoercionsCompose(a, b, c.base);
      }
    } else {
      IntoField(b, c);
      IntoField(a, c);
      IntoComposes(a1, b.base, c.base);
      if Layered(a) { AllInTransitive(a.generators, b.generators, c.generators); }
    }
  }

  /** When a field of fractions enters `d`, so does all that enters its base, and its generators may be carried along. */
  lemma {:induction false} FieldCarries(a: Domain, f: Domain, d: Domain, g: seq<Symbol>)
    requires Composes(d) && !d.ExpressionDomain? && MayCarry(d, g) && f.FractionField? && CanCoerceTo(f, d) && Into(a, f.base)
    ensures CanCoerceTo(a, d) && AllIn(f.generators, g)
    decreases d, 3
  {
    FieldEntersCore(f, d);
    CoreComposes(d);
    var core := Core(d);
    IntoField(f, core);
    AllInTransitive(f.generators, core.generators, g);
    CoreIsInside(d);
    IntoComposes(a, f.base, core.base);
    EntersLayer(a, core);
    ThroughCore(a, d);
  }

  lemma {:induction false} CoreIsInside(d: Domain)
    requires HasCore(d)
    ensures Core(d).base < d
  {
    if d.PolyRing? { CoreIsInside(d.base); }
  }

  // ---- and into no others

  /** In two steps, but not in one. */
  ghost predicate Breaks(a: Domain, b: Domain, c: Domain) {
    CanCoerceTo(a, b) && CanCoerceTo(b, c) && !CanCoerceTo(a, c)
  }

  /** The base of a broken chain does not enter it. */
  lemma {:induction false} BaseStaysOut(d: Domain)
    requires Layered(d) && Composes(d) && !Chain(d)
    ensures !CanCoerceTo(d.base, d)
  {
    var e := d.base;
    assert Layered(e);
    if d.PolyRing? { IntoRing(e, d); } else { IntoField(e, d); }
    if !(d.PolyRing? && e.FractionField?) && !Chain(e) { BaseStaysOut(e); }
  }

  lemma NothingBreaksAtIntegers(a: Domain, b: Domain)
    ensures !Breaks(a, b, ZZ)
  {
    if CanCoerceTo(a, b) && CanCoerceTo(b, ZZ) { GroundCompose(a, b, ZZ); }
  }

  /** A break below a layer gives one above it. */
  lemma LiftBreak(a: Domain, b: Domain, c: Domain)
    requires Layered(c) && Breaks(a, b, c.base)
    ensures if c.PolyRing? then Breaks(PolyRing(a, c.generators), PolyRing(b, c.generators), c)
            else Breaks(FractionField(a, c.generators), FractionField(b, c.generators), c)
  {
    var g := c.generators;
    if c.PolyRing? {
      IntoRing(PolyRing(a, g), PolyRing(b, g));
      IntoRing(PolyRing(b, g), c);
      IntoRing(PolyRing(a, g), c);
    } else {
      IntoField(FractionField(a, g), FractionField(b, g));
      IntoField(FractionField(b, g), c);
      IntoField(FractionField(a, g), c);
      NothingBreaksAtIntegers(a, b);
    }
  }

  /** Any target of another shape is reached in two steps from somewhere it is not reached from in one. */
  lemma {:induction false} SomethingBreaks(c: Domain) returns (a: Domain, b: Domain)
    requires !Composes(c)
    ensures Breaks(a, b, c)
  {
    var d, g := c.base, c.generators;
    if d.ExpressionDomain? {
      a, b := BreakAtCatchAll(c);
    } else if !Composes(d) {
      a, b := SomethingBreaks(d);
      LiftBreak(a, b, c);
      if c.PolyRing? { a, b := PolyRing(a, g), PolyRing(b, g); } else { a, b := FractionField(a, g), FractionField(b, g); }
    } else if !MayCarry(d, g) {
      a, b := BreakAtCore(c);
    } else {
      a, b := QQ, FractionField(ZZ, g);
      IntegersEnter(d);
      RationalsFollow(d);
      CoercionIsReflexive(ZZ);
      IntoField(a, b);
      IntoField(b, c);
      IntoField(a, c);
    }
  }

  lemma {:induction false} IntegersEnter(d: Domain)
    requires RingOfIntegers(d)
    ensures CanCoerceTo(ZZ, d) && !d.ZZ?
  {
    if d.PolyRing? { IntoRing(ZZ, d); } else { IntoField(ZZ, d); }
    if d.base.ZZ? { CoercionIsReflexive(ZZ); } else { IntegersEnter(d.base); }
  }

  /** Everything enters the catch-all, a ring in a generator that the layer above does not have included. */
  lemma BreakAtCatchAll(c: Domain) returns (a: Domain, b: Domain)
    requires Layered(c) && c.base.ExpressionDomain?
    ensures Breaks(a, b, c)
  {
    var x := Freshening.Fresh("x", set s | s in c.generators);
    a, b := PolyRing(ZZ, [x]), ExpressionDomain;
    CoercionIsReflexive(b);
    assert [x][0] !in c.generators;
    if c.PolyRing? { IntoRing(b, c); IntoRing(a, c); } else { IntoField(b, c); IntoField(a, c); }
  }

  lemma {:induction false} CoreEnters(d: Domain)
    requires HasCore(d)
    ensures CanCoerceTo(Core(d), d)
  {
    if d.FractionField? {
      CoercionIsReflexive(d);
    } else {
      CoreEnters(d.base);
      IntoRing(Core(d), d);
    }
  }

  /** A broken core is the whole of what the layer is put over; a core with more generators may lie deeper. */
  lemma BreakAtCore(c: Domain) returns (a: Domain, b: Domain)
    requires Layered(c) && !c.base.ExpressionDomain? && Composes(c.base) && !MayCarry(c.base, c.generators)
    ensures Breaks(a, b, c)
  {
    var d, g := c.base, c.generators;
    var f := Core(d);
    CoreEnters(d);
    CoercionIsReflexive(f.base);
    if AllIn(f.generators, g) {
      assert d == f;
      BaseStaysOut(d);
    }
    if c.PolyRing? {
      a, b := PolyRing(f.base, f.generators), f;
      IntoField(a, b);
      IntoRing(b, c);
      IntoRing(a, c);
    } else {
      a, b := f, PolyRing(f, g);
      CoercionIsReflexive(f);
      IntoRing(a, b);
      IntoField(b, c);
      IntoField(a, c);
    }
  }

  /**
    Coercion composes into a target, from anywhere and through anything, if and only if the target
    has the shape of `Composes`.
   */
  lemma CompositionIff(c: Domain)
    ensures (forall a, b :: !Breaks(a, b, c)) <==> Composes(c)
  {
    if Composes(c) {
      forall a, b ensures !Breaks(a, b, c) {
        if CanCoerceTo(a, b) && CanCoerceTo(b, c) { CoercionsCompose(a, b, c); }
      }
    } else {
      var a, b := SomethingBreaks(c);
    }
  }

  // ---- the condition on the domains that are met most

  /** Polynomial rings, however nested, over a number domain or a finite field. */
  predicate RingTower(d: Domain) {
    if d.PolyRing? then RingTower(d.base) else !d.FractionField? && !d.ExpressionDomain?
  }

  lemma {:induction false} RingTowersCompose(c: Domain)
    requires RingTower(c)
    ensures Composes(c) && !HasCore(c)
  {
    if c.PolyRing? { RingTowersCompose(c.base); }
  }

  /** Coercion is transitive on nested polynomial rings; only the target need be one. */
  lemma NestedRingsAreTransitive(a: Domain, b: Domain, c: Domain)
    requires RingTower(c) && CanCoerceTo(a, b) && CanCoerceTo(b, c)
    ensures CanCoerceTo(a, c)
  {
    RingTowersCompose(c);
    CoercionsCompose(a, b, c);
  }

  /** Coercion is transitive on flat domains; only the target need be one. */
  lemma FlatCoercionIsTransitive(a: Domain, b: Domain, c: Domain)
    requires Flat(c) && CanCoerceTo(a, b) && CanCoerceTo(b, c)
    ensures CanCoerceTo(a, c)
  {
    CoercionsCompose(a, b, c);
  }

  /** Fractions over a ring are such a target exactly when the ring is not one of integers. */
  lemma FractionsOfRings(base: Domain, g: seq<Symbol>)
    requires RingTower(base)
    ensures Composes(FractionField(base, g)) <==> !RingOfIntegers(base)
  {
    RingTowersCompose(base);
  }

  /** A layer over flat fractions is one exactly when it has all their generators. */
  lemma LayersOverFractions(base: Domain, g: seq<Symbol>, h: seq<Symbol>)
    requires Base(base)
    ensures Composes(PolyRing(FractionField(base, g), h)) <==> AllIn(g, h)
    ensures Composes(FractionField(FractionField(base, g), h)) <==> AllIn(g, h)
  {
    var f := FractionField(base, g);
    assert Composes(base) && Chain(base) && !RingOfIntegers(base);
    assert Composes(f) && Core(f) == f && Chain(f) && !RingOfIntegers(f);
  }

  /** The rationals enter integer fractions, but the exception is not tried through a ring. */
  lemma RationalsAreLostOverIntegerRings(x: Symbol, y: Symbol)
    ensures Breaks(QQ, FractionField(ZZ, [x]), FractionField(PolyRing(ZZ, [y]), [x]))
  {
    var b, c := FractionField(ZZ, [x]), FractionField(PolyRing(ZZ, [y]), [x]);
    CoercionIsReflexive(ZZ);
    IntoRing(ZZ, c.base);
    IntoRing(QQ, c.base);
    IntoField(QQ, b);
    IntoField(b, c);
    IntoField(QQ, c);
  }

  /** The catch-all is entered by everything, but its rings only by their own generators. */
  lemma CatchAllRingsAreLeftBehind(x: Symbol, y: Symbol)
    requires x != y
    ensures Breaks(PolyRing(ZZ, [x]), ExpressionDomain, PolyRing(ExpressionDomain, [y]))
  {
    assert [x][0] !in [y];
    CoercionIsReflexive(ExpressionDomain);
    IntoRing(ExpressionDomain, PolyRing(ExpressionDomain, [y]));
    IntoRing(PolyRing(ZZ, [x]), PolyRing(ExpressionDomain, [y]));
  }
}
