/** The traversals that push and pop a scope or grow a set, proved against the specification functions. */
module Traversals {
  import opened Wrappers
  import opened Exprs
  import opened DeBruijn
  import opened Symbols

  const TOO_DEEP: BindingError := DepthExceeded(MAX_BINDING_DEPTH)

  /** The check made before any body is copied: it refuses before descending past the limit. */
  function Preflight(e: Expr, depth: nat): (r: Result<(), BindingError>)
    ensures r == if RawWithin(e, MAX_BINDING_DEPTH - depth) then Ok(()) else Err(TOO_DEEP)
    decreases e
  {
    if depth > MAX_BINDING_DEPTH then Err(TOO_DEEP)
    else
      var checks := seq(|Children(e)|, i requires 0 <= i < |Children(e)| => Preflight(Children(e)[i], depth + 1));
      var below := Collect(checks);
      assert below.Ok? ==> forall i | 0 <= i < |Children(e)| :: checks[i] == Preflight(Children(e)[i], depth + 1) && checks[i].Ok?;
      assert below.Ok? ==> forall i | 0 <= i < |Children(e)| :: RawWithin(Children(e)[i], MAX_BINDING_DEPTH - depth - 1);
      if below.Err? then Err(below.error) else Ok(())
  }

  /** What `free_symbols` answers: the whole set, or a refusal. */
  function FreeSymbolsOf(e: Expr): Result<set<Symbol>, BindingError> {
    if RawWithin(e, MAX_BINDING_DEPTH) && ReadWithin(e, MAX_BINDING_DEPTH) then Ok(FreeOf(e)) else Err(TOO_DEEP)
  }

  /** What `all_symbols` answers. */
  function AllSymbolsOf(e: Expr): Result<set<Symbol>, BindingError> {
    if RawWithin(e, MAX_BINDING_DEPTH) then Ok(AllOf(e)) else Err(TOO_DEEP)
  }

  /** What `to_de_bruijn` answers. */
  function DeBruijnOf(e: Expr): Result<Term, BindingError> {
    if RawWithin(e, MAX_BINDING_DEPTH) && ReadWithin(e, MAX_BINDING_DEPTH) then Ok(Convert(e, [])) else Err(TOO_DEEP)
  }

  class ScopedConverter {
    var scope: seq<Symbol>

    constructor ()
      ensures scope == []
    {
      scope := [];
    }

    /**
      Converts under the current scope, pushing the declared name while the body is walked, and
      leaves the scope as it was, also when it refuses.
     */
    method Walk(e: Expr, depth: nat) returns (r: Result<Term, BindingError>)
      modifies this
      ensures scope == old(scope)
      ensures r == if ReadWithin(e, MAX_BINDING_DEPTH - depth) then Ok(Convert(e, old(scope))) else Err(TOO_DEEP)
      decreases Size(e)
    {
      hide Read;
      if depth > MAX_BINDING_DEPTH {
        return Err(TOO_DEEP);
      }
      if e.Sym? {
        return Ok(Lookup(scope, e.symbol));
      }
      var reading := Read(e);
      var terms := [];
      for k := 0 to |reading.parts|
        invariant scope == old(scope) && |terms| == k
        invariant forall i | 0 <= i < k :: ReadWithin(reading.parts[i], MAX_BINDING_DEPTH - depth - 1)
        invariant forall i | 0 <= i < k :: terms[i] == Convert(e, scope).parts[i]
      {
        scope := scope + reading.Over(k);
        var term := Walk(reading.parts[k], depth + 1);
        scope := scope[..|scope| - |reading.Over(k)|];
        if term.Err? { return term; }
        terms := terms + [term.value];
      }
      assert terms == Convert(e, scope).parts;
      r := Ok(Node(reading.head, terms));
    }
  }

  class FreeSymbolCollector {
    var boundScope: set<Symbol>
    var free: set<Symbol>

    constructor ()
      ensures boundScope == {} && free == {}
    {
      boundScope, free := {}, {};
    }

    /**
      Adds the symbols free outside the current scope, and restores the scope also when it refuses.
      A shadowing declaration must not unbind the outer one of the same name.
     */
    method Visit(e: Expr, depth: nat) returns (r: Result<(), BindingError>)
      modifies this
      ensures boundScope == old(boundScope)
      ensures r == if ReadWithin(e, MAX_BINDING_DEPTH - depth) then Ok(()) else Err(TOO_DEEP)
      ensures r.Ok? ==> free == old(free) + (FreeOf(e) - boundScope)
      decreases Size(e), 1
    {
      hide Read;
      if depth > MAX_BINDING_DEPTH {
        return Err(TOO_DEEP);
      }
      if e.Sym? {
        if e.symbol !in boundScope {
          free := free + {e.symbol};
        }
        return Ok(());
      }
      var reading := Read(e);
      FreeBelowAll(e);
      hide FreeBelow, FreeOf;
      for k := 0 to |reading.parts|
        invariant boundScope == old(boundScope)
        invariant forall i | 0 <= i < k :: ReadWithin(reading.parts[i], MAX_BINDING_DEPTH - depth - 1)
        invariant free == old(free) + (FreeBelow(reading, k) - boundScope)
      {
        FreeBelowStep(reading, k);
        if !DerivativeVariable(reading, k) {
          if reading.Over(k) == [] {
            r := Visit(reading.parts[k], depth + 1);
          } else {
            r := VisitUnder(reading.names[0], reading.parts[k], depth + 1);
          }
          if r.Err? { return; }
        } else {
          assert ReadWithin(reading.parts[0], MAX_BINDING_DEPTH - depth - 1);
        }
      }
      r := Ok(());
    }

    /** Visits a body under the declaration of `v`. */
    method VisitUnder(v: Symbol, body: Expr, depth: nat) returns (r: Result<(), BindingError>)
      modifies this
      ensures boundScope == old(boundScope)
      ensures r == if ReadWithin(body, MAX_BINDING_DEPTH - depth) then Ok(()) else Err(TOO_DEEP)
      ensures r.Ok? ==> free == old(free) + (FreeOf(body) - {v} - boundScope)
      decreases Size(body), 2
    {
      var newlyBound := v !in boundScope;
      boundScope := boundScope + {v};
      r := Visit(body, depth);
      if newlyBound {
        boundScope := boundScope - {v};
      }
    }
  }

  class SymbolCollector {
    var symbols: set<Symbol>

    constructor ()
      ensures symbols == {}
    {
      symbols := {};
    }

    method Visit(e: Expr, depth: nat) returns (r: Result<(), BindingError>)
      modifies this
      ensures r == if RawWithin(e, MAX_BINDING_DEPTH - depth) then Ok(()) else Err(TOO_DEEP)
      ensures r.Ok? ==> symbols == old(symbols) + AllOf(e)
      decreases e
    {
      if depth > MAX_BINDING_DEPTH {
        return Err(TOO_DEEP);
      }
      if e.Sym? {
        symbols := symbols + {e.symbol};
        return Ok(());
      }
      for k := 0 to |Children(e)|
        invariant symbols == old(symbols) + AllBelow(e, k)
        invariant forall i | 0 <= i < k :: RawWithin(Children(e)[i], MAX_BINDING_DEPTH - depth - 1)
      {
        r := Visit(Children(e)[k], depth + 1);
        if r.Err? { return; }
      }
      r := Ok(());
    }
  }

  method FreeSymbols(e: Expr) returns (r: Result<set<Symbol>, BindingError>)
    ensures r == FreeSymbolsOf(e)
  {
    hide FreeOf, ReadWithin, Read;
    var check := Preflight(e, 0);
    if check.Err? { return Err(check.error); }
    var collector := new FreeSymbolCollector();
    var walked := collector.Visit(e, 0);
    if walked.Err? { return Err(walked.error); }
    assert FreeOf(e) == {} + (FreeOf(e) - {});
    r := Ok(collector.free);
  }

  method AllSymbols(e: Expr) returns (r: Result<set<Symbol>, BindingError>)
    ensures r == AllSymbolsOf(e)
  {
    var collector := new SymbolCollector();
    var walked := collector.Visit(e, 0);
    if walked.Err? { return Err(walked.error); }
    assert AllOf(e) == {} + AllOf(e);
    r := Ok(collector.symbols);
  }

  method ToDeBruijn(e: Expr) returns (r: Result<Term, BindingError>)
    ensures r == DeBruijnOf(e)
  {
    hide ReadWithin, Read, Convert;
    var check := Preflight(e, 0);
    if check.Err? { return Err(check.error); }
    var converter := new ScopedConverter();
    r := converter.Walk(e, 0);
  }
}
