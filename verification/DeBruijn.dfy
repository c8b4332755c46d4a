/**
  De Bruijn terms, the conversion of expressions into them, and two operations on them:
  closing a term over outer scope names, and replacing a free name by a closed term.
 */
module DeBruijn {
  import opened Wrappers
  import opened Exprs
  import opened Binders

  /** What stands at an inner node or a literal; the last two open a scope over their first part. */
  datatype Head =
    | TInteger(value: int)
    | TRational(ratio: Ratio)
    | TConst(constant: Constant)
    | TAdd
    | TMul
    | TPow
    | TFunction(name: string)
    | Binder(name: string)
    | BinderWithArguments(name: string)
  {
    /** How many binders the head opens over its `i`-th part. */
    function Scopes(i: nat): nat {
      if (Binder? || BinderWithArguments?) && i == 0 then 1 else 0
    }
  }

  /** Names are kept for free symbols; index 0 is the innermost enclosing binder. */
  datatype Term =
    | Free(symbol: Symbol)
    | Bound(index: nat)
    | Node(head: Head, parts: seq<Term>)

  /** Distance from the end of `scope` of the last occurrence of `s`. */
  function Position(scope: seq<Symbol>, s: Symbol): (p: Option<nat>)
    ensures p.Some? <==> s in scope
    ensures p.Some? ==> p.value < |scope| && scope[|scope| - 1 - p.value] == s
  {
    if scope == [] then None
    else if scope[|scope| - 1] == s then Some(0)
    else
      match Position(scope[..|scope| - 1], s)
      case None => None
      case Some(k) => Some(k + 1)
  }

  function Lookup(scope: seq<Symbol>, s: Symbol): Term {
    match Position(scope, s)
    case Some(k) => Bound(k)
    case None => Free(s)
  }

  /**
    One level of an expression as the conversion reads it: a head, the parts below it, and the
    name the head opens over its first part, if it opens one. A multi-parameter signature is
    read one parameter at a time; an operator variable is an ordinary second part.
   */
  datatype Reading = Reading(head: Head, parts: seq<Expr>, names: seq<Symbol>) {
    /** The names opened over the `i`-th part. */
    function Over(i: nat): seq<Symbol> {
      if head.Scopes(i) == 1 then names else []
    }
  }

  function Read(e: Expr): (r: Reading)
    requires !e.Sym?
    ensures forall i | 0 <= i < |r.parts| :: Size(r.parts[i]) < Size(e)
    ensures |r.names| == if r.head.Binder? || r.head.BinderWithArguments? then 1 else 0
  {
    match TryFromExpr(e)
    case Some(Lambda(v, body)) => Reading(Binder("Lambda"), [body], [v])
    case Some(Integral(v, body, Some((lower, upper)))) =>
      Reading(BinderWithArguments("Integral"), [body, lower, upper], [v])
    case Some(Integral(v, body, None)) => Reading(TFunction("Integral"), [body, Sym(v)], [])
    case Some(Derivative(v, body)) => Reading(TFunction("Derivative"), [body, Sym(v)], [])
    case None =>
      match e
      case Integer(n) => Reading(TInteger(n), [], [])
      case Rational(q) => Reading(TRational(q), [], [])
      case Const(c) => Reading(TConst(c), [], [])
      case Add(ts) => Reading(TAdd, Children(e), [])
      case Mul(ts) => Reading(TMul, Children(e), [])
      case Pow(b, x) => Reading(TPow, Children(e), [])
      case Function(name, args) => Reading(TFunction(name), Children(e), [])
  }

  /** The De Bruijn form of an expression standing under the binders of `scope`, outermost first. */
  function Convert(e: Expr, scope: seq<Symbol>): Term
    decreases Size(e)
  {
    if e.Sym? then Lookup(scope, e.symbol)
    else
      var r := Read(e);
      Node(r.head, seq(|r.parts|, i requires 0 <= i < |r.parts| => Convert(r.parts[i], scope + r.Over(i))))
  }

  /** Turns the free names of `scope` into indices, `scope` standing outside `k` binders. */
  function Close(t: Term, scope: seq<Symbol>, k: nat): Term {
    match t
    case Free(s) => (match Position(scope, s) case Some(i) => Bound(k + i) case None => t)
    case Bound(_) => t
    case Node(h, ps) => Node(h, seq(|ps|, i requires 0 <= i < |ps| => Close(ps[i], scope, k + h.Scopes(i))))
  }

  /** Replaces every free occurrence of the name `x` by `r`. */
  function Subst(t: Term, x: Symbol, r: Term): Term {
    match t
    case Free(s) => if s == x then r else t
    case Bound(_) => t
    case Node(h, ps) => Node(h, seq(|ps|, i requires 0 <= i < |ps| => Subst(ps[i], x, r)))
  }

  /** `s` occurs free in `t`. */
  predicate Occurs(t: Term, s: Symbol) {
    match t
    case Free(u) => u == s
    case Bound(_) => false
    case Node(_, ps) => exists i | 0 <= i < |ps| :: Occurs(ps[i], s)
  }

  /** Every index points at a binder of `t` or at one of `k` enclosing ones. */
  predicate LocallyClosed(t: Term, k: nat) {
    match t
    case Free(_) => true
    case Bound(i) => i < k
    case Node(h, ps) => forall i | 0 <= i < |ps| :: LocallyClosed(ps[i], k + h.Scopes(i))
  }

  lemma PositionInnermost(scope: seq<Symbol>, v: Symbol, s: Symbol)
    ensures Position(scope + [v], s) == if v == s then Some(0) else Later(Position(scope, s), 1)
  {
    assert (scope + [v])[..|scope|] == scope;
  }

  function Later(p: Option<nat>, k: nat): Option<nat> {
    match p case Some(i) => Some(i + k) case None => None
  }

  lemma ConcatSnoc(outer: seq<Symbol>, inner: seq<Symbol>)
    requires inner != []
    ensures inner == inner[..|inner| - 1] + [inner[|inner| - 1]]
    ensures outer + inner == (outer + inner[..|inner| - 1]) + [inner[|inner| - 1]]
  {
  }

  /** The inner scope is looked through first. */
  lemma {:induction false} PositionOfConcat(outer: seq<Symbol>, inner: seq<Symbol>, s: Symbol)
    ensures Position(outer + inner, s) == if Position(inner, s).Some? then Position(inner, s) else Later(Position(outer, s), |inner|)
  {
    if inner == [] {
      assert outer + inner == outer;
    } else {
      hide Position;
      var front, last := inner[..|inner| - 1], inner[|inner| - 1];
      PositionOfConcat(outer, front, s);
      ConcatSnoc(outer, inner);
      PositionInnermost(front, last, s);
      PositionInnermost(outer + front, last, s);
    }
  }

  /** Converting under an outer scope is converting without it and then closing over it. */
  lemma {:induction false} ConvertUnderOuterScope(e: Expr, outer: seq<Symbol>, inner: seq<Symbol>)
    ensures Convert(e, outer + inner) == Close(Convert(e, inner), outer, |inner|)
    decreases Size(e)
  {
    hide Read;
    if e.Sym? {
      PositionOfConcat(outer, inner, e.symbol);
    } else {
      var r := Read(e);
      var t, u := Convert(e, outer + inner), Close(Convert(e, inner), outer, |inner|);
      assert t.Node? && u.Node? && t.head == r.head == u.head && |t.parts| == |r.parts| == |u.parts|;
      forall i | 0 <= i < |r.parts| ensures t.parts[i] == u.parts[i]
      {
        assert (outer + inner) + r.Over(i) == outer + (inner + r.Over(i));
        ConvertUnderOuterScope(r.parts[i], outer, inner + r.Over(i));
      }
      assert t.parts == u.parts;
    }
  }

  /** A converted expression is well scoped. */
  lemma {:induction false} ConvertIsLocallyClosed(e: Expr, scope: seq<Symbol>)
    ensures LocallyClosed(Convert(e, scope), |scope|)
    decreases Size(e)
  {
    hide Read;
    if !e.Sym? {
      var r := Read(e);
      forall i | 0 <= i < |r.parts|
        ensures LocallyClosed(Convert(r.parts[i], scope + r.Over(i)), |scope| + r.head.Scopes(i))
      {
        ConvertIsLocallyClosed(r.parts[i], scope + r.Over(i));
      }
    }
  }

  // ---- laws of Close and Subst

  lemma {:induction false} SubstAbsent(t: Term, x: Symbol, r: Term)
    requires !Occurs(t, x)
    ensures Subst(t, x, r) == t
  {
    if t.Node? {
      forall i | 0 <= i < |t.parts| ensures Subst(t.parts[i], x, r) == t.parts[i] {
        SubstAbsent(t.parts[i], x, r);
      }
    }
  }

  lemma {:induction false} CloseAbsent(t: Term, v: Symbol, k: nat)
    requires !Occurs(t, v)
    ensures Close(t, [v], k) == t
  {
    if t.Node? {
      forall i | 0 <= i < |t.parts| ensures Close(t.parts[i], [v], k + t.head.Scopes(i)) == t.parts[i] {
        CloseAbsent(t.parts[i], v, k + t.head.Scopes(i));
      }
    }
  }

  /** Closing over `v` commutes with a replacement that neither targets nor mentions `v`. */
  lemma {:induction false} CloseSubst(t: Term, v: Symbol, k: nat, x: Symbol, r: Term)
    requires v != x && !Occurs(r, v)
    ensures Close(Subst(t, x, r), [v], k) == Subst(Close(t, [v], k), x, r)
  {
    if t == Free(x) {
      CloseAbsent(r, v, k);
    } else if t.Node? {
      forall i | 0 <= i < |t.parts|
        ensures var j := k + t.head.Scopes(i); Close(Subst(t.parts[i], x, r), [v], j) == Subst(Close(t.parts[i], [v], j), x, r)
      {
        CloseSubst(t.parts[i], v, k + t.head.Scopes(i), x, r);
      }
    }
  }

  /** Renaming a name to an absent one before closing over it changes nothing. */
  lemma {:induction false} CloseRenamed(t: Term, v: Symbol, w: Symbol, k: nat)
    requires !Occurs(t, w)
    ensures Close(Subst(t, v, Free(w)), [w], k) == Close(t, [v], k)
  {
    if t.Node? {
      forall i | 0 <= i < |t.parts|
        ensures var j := k + t.head.Scopes(i); Close(Subst(t.parts[i], v, Free(w)), [w], j) == Close(t.parts[i], [v], j)
      {
        CloseRenamed(t.parts[i], v, w, k + t.head.Scopes(i));
      }
    }
  }

  /** The substitution lemma on closed replacements. */
  lemma {:induction false} SubstSubst(t: Term, x: Symbol, r: Term, y: Symbol, s: Term)
    requires x != y && !Occurs(s, x)
    ensures Subst(Subst(t, x, r), y, s) == Subst(Subst(t, y, s), x, Subst(r, y, s))
  {
    if t == Free(y) {
      SubstAbsent(s, x, Subst(r, y, s));
    } else if t.Node? {
      forall i | 0 <= i < |t.parts|
        ensures Subst(Subst(t.parts[i], x, r), y, s) == Subst(Subst(t.parts[i], y, s), x, Subst(r, y, s))
      {
        SubstSubst(t.parts[i], x, r, y, s);
      }
    }
  }

  lemma {:induction false} OccursInSubst(t: Term, x: Symbol, r: Term, s: Symbol)
    ensures Occurs(Subst(t, x, r), s) <==> (s != x && Occurs(t, s)) || (Occurs(t, x) && Occurs(r, s))
  {
    if t.Node? {
      var u := Subst(t, x, r);
      forall i | 0 <= i < |t.parts|
        ensures Occurs(u.parts[i], s) <==> (s != x && Occurs(t.parts[i], s)) || (Occurs(t.parts[i], x) && Occurs(r, s))
      {
        OccursInSubst(t.parts[i], x, r, s);
      }
    }
  }

  lemma {:induction false} OccursInClose(t: Term, scope: seq<Symbol>, k: nat, s: Symbol)
    ensures Occurs(Close(t, scope, k), s) <==> s !in scope && Occurs(t, s)
  {
    if t.Node? {
      var u := Close(t, scope, k);
      forall i | 0 <= i < |t.parts| ensures Occurs(u.parts[i], s) <==> s !in scope && Occurs(t.parts[i], s) {
        OccursInClose(t.parts[i], scope, k + t.head.Scopes(i), s);
      }
    }
  }
}
