/** Free and declared symbols of an expression, the depth limits, and the collectors that compute them. */
module Symbols {
  import opened Exprs
  import opened DeBruijn

  const MAX_BINDING_DEPTH: nat := 256

  datatype BindingError =
    | DepthExceeded(limit: nat)
    | NonAlphaRenamingRequired(operator: string)
    | UnsupportedOperatorVariableReplacement(operator: string)

  // ---- specification

  /** The `i`-th part is the variable of a derivative, which does not count as a free occurrence. */
  predicate DerivativeVariable(r: Reading, i: nat) {
    r.head == TFunction("Derivative") && |r.parts| == 2 && r.parts[1].Sym? && i == 1
  }

  /** Symbols free in an expression. */
  function FreeOf(e: Expr): (fs: set<Symbol>)
    decreases Size(e)
  {
    if e.Sym? then {e.symbol}
    else
      var r := Read(e);
      set i, s | 0 <= i < |r.parts| && !DerivativeVariable(r, i) && s in FreeOf(r.parts[i]) && s !in r.Over(i) :: s
  }

  /** The contribution of the first `k` parts. */
  ghost function FreeBelow(r: Reading, k: nat): set<Symbol>
    requires k <= |r.parts|
  {
    set i, s | 0 <= i < k && !DerivativeVariable(r, i) && s in FreeOf(r.parts[i]) && s !in r.Over(i) :: s
  }

  lemma FreeBelowAll(e: Expr)
    requires !e.Sym?
    ensures FreeBelow(Read(e), 0) == {} && FreeBelow(Read(e), |Read(e).parts|) == FreeOf(e)
  {
  }

  lemma FreeBelowStep(r: Reading, k: nat)
    requires k < |r.parts| && |r.names| <= 1
    ensures FreeBelow(r, k + 1) ==
            if DerivativeVariable(r, k) then FreeBelow(r, k)
            else if r.Over(k) == [] then FreeBelow(r, k) + FreeOf(r.parts[k])
            else FreeBelow(r, k) + (FreeOf(r.parts[k]) - {r.names[0]})
  {
  }

  /** The same reading of a De Bruijn term: the variable of a derivative node does not count. */
  predicate TermDerivativeVariable(h: Head, ps: seq<Term>, i: nat) {
    h == TFunction("Derivative") && |ps| == 2 && !ps[1].Node? && i == 1
  }

  predicate FreeInTerm(t: Term, s: Symbol) {
    match t
    case Free(u) => u == s
    case Bound(_) => false
    case Node(h, ps) => exists i | 0 <= i < |ps| :: !TermDerivativeVariable(h, ps, i) && FreeInTerm(ps[i], s)
  }

  /** Every derivative differentiates with respect to a symbol that is free in its body. */
  predicate DerivativesBite(e: Expr)
    decreases Size(e)
  {
    e.Sym? ||
    var r := Read(e);
    && (forall i | 0 <= i < |r.parts| :: DerivativesBite(r.parts[i]))
    && (|r.parts| == 2 && DerivativeVariable(r, 1) ==> r.parts[1].symbol in FreeOf(r.parts[0]))
  }

  /** Every symbol written in an expression, declarations included. */
  function AllOf(e: Expr): set<Symbol>
    decreases e, 1
  {
    if e.Sym? then {e.symbol} else AllBelow(e, |Children(e)|)
  }

  function AllBelow(e: Expr, k: nat): set<Symbol>
    requires k <= |Children(e)|
    decreases e, 0, k
  {
    if k == 0 then {} else AllBelow(e, k - 1) + AllOf(Children(e)[k - 1])
  }

  /** The tree as written is at most `n` levels deep. */
  predicate RawWithin(e: Expr, n: int) {
    0 <= n && forall i | 0 <= i < |Children(e)| :: RawWithin(Children(e)[i], n - 1)
  }

  /** The tree as read, one level for each parameter of a signature, is at most `n` levels deep. */
  predicate ReadWithin(e: Expr, n: int)
    decreases Size(e)
  {
    0 <= n && (e.Sym? || forall i | 0 <= i < |Read(e).parts| :: ReadWithin(Read(e).parts[i], n - 1))
  }

  /** Free names of the De Bruijn form are the free symbols outside the scope. */
  lemma {:induction false} FreeInConvert(e: Expr, scope: seq<Symbol>, s: Symbol)
    ensures FreeInTerm(Convert(e, scope), s) <==> s in FreeOf(e) && s !in scope
    decreases Size(e)
  {
    if !e.Sym? {
      var r := Read(e);
      var t := Convert(e, scope);
      forall i | 0 <= i < |r.parts|
        ensures FreeInTerm(t.parts[i], s) <==> s in FreeOf(r.parts[i]) && s !in scope && s !in r.Over(i)
        ensures TermDerivativeVariable(t.head, t.parts, i) <==> DerivativeVariable(r, i)
      {
        FreeInConvert(r.parts[i], scope + r.Over(i), s);
      }
    }
  }

  /** With biting derivatives, the names that occur in the De Bruijn form are exactly the free symbols. */
  lemma {:induction false} OccursInConvert(e: Expr, scope: seq<Symbol>, s: Symbol)
    requires DerivativesBite(e)
    ensures Occurs(Convert(e, scope), s) <==> s in FreeOf(e) && s !in scope
    decreases Size(e)
  {
    if !e.Sym? {
      var r := Read(e);
      var t := Convert(e, scope);
      forall i | 0 <= i < |r.parts|
        ensures Occurs(t.parts[i], s) <==> s in FreeOf(r.parts[i]) && s !in scope && s !in r.Over(i)
      {
        OccursInConvert(r.parts[i], scope + r.Over(i), s);
      }
    }
  }
}
