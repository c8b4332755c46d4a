/** The two substitutions of the system compared: that of claims, which refuses under binders, and the capture-avoiding one. */
module ClaimSubstitution {
  import opened Wrappers
  import opened Exprs
  import opened Binders
  import opened DeBruijn
  import opened Symbols
  import BoundedSubstitution
  import Substitution
  import CaptureAvoidance

  /** Every free name replaced at once. */
  function Mapped(t: Term, f: Symbol -> Term): Term {
    match t
    case Free(s) => f(s)
    case Bound(_) => t
    case Node(h, ps) => Node(h, seq(|ps|, i requires 0 <= i < |ps| => Mapped(ps[i], f)))
  }

  function Forms(bindings: map<Symbol, Expr>): Symbol -> Term {
    s => if s in bindings then Convert(bindings[s], []) else Free(s)
  }

  lemma {:induction false} MappedAbsent(t: Term, bindings: map<Symbol, Expr>)
    requires forall s :: s in bindings ==> !Occurs(t, s)
    ensures Mapped(t, Forms(bindings)) == t
  {
    if t.Free? {
      assert t.symbol in bindings ==> Occurs(t, t.symbol);
    } else if t.Node? {
      forall i | 0 <= i < |t.parts| ensures Mapped(t.parts[i], Forms(bindings)) == t.parts[i] {
        MappedAbsent(t.parts[i], bindings);
      }
    }
  }

  /** Mapping one name is replacing it. */
  lemma {:induction false} MappedOne(t: Term, x: Symbol, r: Expr)
    ensures Mapped(t, Forms(map[x := r])) == Subst(t, x, Convert(r, []))
  {
    if t.Node? {
      forall i | 0 <= i < |t.parts| ensures Mapped(t.parts[i], Forms(map[x := r])) == Subst(t.parts[i], x, Convert(r, [])) {
        MappedOne(t.parts[i], x, r);
      }
    }
  }

  /** Every operator that binds is one at which claims are refused. */
  lemma BindersAreKnown(e: Expr)
    requires TryFromExpr(e).Some?
    ensures e.Function? && BoundedSubstitution.IsBinder(e.name)
  {
  }

  /** What is no binder is converted part by part. */
  lemma PlainNode(e: Expr, cs: seq<Expr>)
    requires e.Add? || e.Mul? || e.Pow? || (e.Function? && !BoundedSubstitution.IsBinder(e.name))
    requires |cs| == |Children(e)|
    ensures Read(e).parts == Children(e) && Read(Substitution.WithChildren(e, cs)) == Read(e).(parts := cs)
    ensures !Read(e).head.Binder? && !Read(e).head.BinderWithArguments?
    ensures !(Read(e).head == TFunction("Derivative"))
  {
  }

  /** An operator that binds is refused when a bound name is free in it, and stays as it is when none is; any other function is refused or answered by its arguments. */
  lemma FunctionsAre(name: string, args: seq<Expr>, bindings: map<Symbol, Expr>, m: BoundedSubstitution.Measures)
    ensures var e := Function(name, args); var r := BoundedSubstitution.Substitute(e, bindings, m);
      if name == "Lambda" || name == "Sum" || name == "Product" || name == "Integral" || name == "Subs" || name == "Derivative" || name == "diff"
      then r == if m.free(e) * bindings.Keys != {} then Err(BoundedSubstitution.UnsupportedSubstitution) else Ok(e)
      else
        && (r.Err? <==> exists i :: 0 <= i < |args| && BoundedSubstitution.Substitute(args[i], bindings, m).Err?)
        && (r.Ok? ==> r.value.Function? && r.value.name == name && |r.value.args| == |args|)
  {
  }

  /**
    Where derivatives differentiate by free symbols, the claim substitution answers with the form of
    the source in which every bound name is replaced by the form of its binding, all at once and
    with nothing captured.
   */
  lemma {:induction false} ClaimSubstitutionIsSimultaneous(e: Expr, bindings: map<Symbol, Expr>, m: BoundedSubstitution.Measures)
    requires (forall d :: m.free(d) == FreeOf(d)) && DerivativesBite(e) && BoundedSubstitution.Substitute(e, bindings, m).Ok?
    ensures Convert(BoundedSubstitution.Substitute(e, bindings, m).value, []) == Mapped(Convert(e, []), Forms(bindings))
    decreases e
  {
    if e.Function? && BoundedSubstitution.IsBinder(e.name) {
      forall s | s in bindings ensures !Occurs(Convert(e, []), s) {
        OccursInConvert(e, [], s);
        assert s in FreeOf(e) ==> s in m.free(e) * bindings.Keys;
      }
      MappedAbsent(Convert(e, []), bindings);
    } else if e.Add? || e.Mul? || e.Pow? || e.Function? {
      var cs := PartsOfAnswer(e, bindings, m);
      PlainNode(e, cs);
      hide BoundedSubstitution.Substitute, FreeOf, Read;
      forall i | 0 <= i < |cs| ensures Convert(cs[i], []) == Mapped(Convert(Children(e)[i], []), Forms(bindings)) {
        assert Read(e).parts[i] == Children(e)[i];
        ClaimSubstitutionIsSimultaneous(Children(e)[i], bindings, m);
      }
      PlainConvert(e);
      PlainConvert(Substitution.WithChildren(e, cs));
    }
  }

  lemma PlainConvert(e: Expr)
    requires !e.Sym? && Read(e).parts == Children(e) && !Read(e).head.Binder? && !Read(e).head.BinderWithArguments?
    ensures Convert(e, []).Node? && Convert(e, []).head == Read(e).head && |Convert(e, []).parts| == |Children(e)|
    ensures forall i :: 0 <= i < |Children(e)| ==> Convert(e, []).parts[i] == Convert(Children(e)[i], [])
  {
    hide Read;
    forall i | 0 <= i < |Children(e)| ensures Convert(e, []).parts[i] == Convert(Children(e)[i], []) {
      assert [] + Read(e).Over(i) == [];
    }
  }

  /** With one binding, it and the capture-avoiding substitution answer alike but for bound names, where both answer. */
  lemma SubstitutionsAgree(e: Expr, x: Symbol, r: Expr, m: BoundedSubstitution.Measures, claimed: Expr, avoided: Expr)
    requires (forall d :: m.free(d) == FreeOf(d)) && DerivativesBite(e) && DerivativesBite(r)
    requires BoundedSubstitution.Substitute(e, map[x := r], m) == Ok(claimed) && Substitution.CaptureAvoidingSubs(e, x, r) == Ok(avoided)
    ensures Convert(claimed, []) == Convert(avoided, [])
  {
    hide BoundedSubstitution.Substitute, Substitution.CaptureAvoidingSubs, FreeOf;
    ClaimSubstitutionIsSimultaneous(e, map[x := r], m);
    MappedOne(Convert(e, []), x, r);
    CaptureAvoidance.SubstitutionCommutes(e, x, r, avoided);
  }

  lemma PartsOfAnswer(e: Expr, bindings: map<Symbol, Expr>, m: BoundedSubstitution.Measures) returns (cs: seq<Expr>)
    requires (e.Add? || e.Mul? || e.Pow? || (e.Function? && !BoundedSubstitution.IsBinder(e.name))) && BoundedSubstitution.Substitute(e, bindings, m).Ok?
    ensures |cs| == |Children(e)| && BoundedSubstitution.Substitute(e, bindings, m) == Ok(Substitution.WithChildren(e, cs))
    ensures forall i :: 0 <= i < |cs| ==> BoundedSubstitution.Substitute(Children(e)[i], bindings, m) == Ok(cs[i])
  {
    cs := if e.Pow? then [BoundedSubstitution.Substitute(e.base, bindings, m).value, BoundedSubstitution.Substitute(e.exponent, bindings, m).value]
          else BoundedSubstitution.SubstituteAll(Children(e), bindings, m).value;
  }
}
