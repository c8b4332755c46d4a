/** What every form of expression means, form by form: its De Bruijn form under any scope and its free symbols. */
module BinderForms {
  import opened Wrappers
  import opened Exprs
  import opened Binders
  import opened DeBruijn
  import opened Symbols
  import opened SubstitutionLaws
  import opened SubstitutionFree

  // ---- signatures

  function Declarations(ps: seq<Symbol>): (es: seq<Expr>)
    ensures |es| == |ps| && forall i :: 0 <= i < |ps| ==> es[i] == Sym(ps[i])
  {
    seq(|ps|, i requires 0 <= i < |ps| => Sym(ps[i]))
  }

  ghost predicate Different(ps: seq<Symbol>) {
    forall i, j :: 0 <= i < j < |ps| ==> ps[i] != ps[j]
  }

  /** The parameters before the body, all in one list. */
  function Flat(ps: seq<Symbol>, body: Expr): Expr {
    Function("Lambda", Declarations(ps) + [body])
  }

  /** The parameters in a Tuple. */
  function Tupled(ps: seq<Symbol>, body: Expr): Expr {
    Function("Lambda", [Function("Tuple", Declarations(ps)), body])
  }

  /** One Lambda for each parameter, the first outermost. */
  function Nested(ps: seq<Symbol>, body: Expr): Expr {
    if ps == [] then body else Function("Lambda", [Sym(ps[0]), Nested(ps[1..], body)])
  }

  function Abstracted(n: nat, t: Term): Term {
    if n == 0 then t else Node(Binder("Lambda"), [Abstracted(n - 1, t)])
  }

  /** An expression that abstracts `ps` from `body`, the first outermost. */
  ghost predicate Abstracts(e: Expr, ps: seq<Symbol>, body: Expr) {
    && (forall scope :: Convert(e, scope) == Abstracted(|ps|, Convert(body, scope + ps)))
    && FreeOf(e) == FreeOf(body) - (set p | p in ps)
  }

  /** One parameter, read from whatever signature declares it first. */
  lemma AbstractsOneMore(e: Expr, v: Symbol, inner: Expr, ps: seq<Symbol>, body: Expr)
    requires TryFromExpr(e) == Some(Lambda(v, inner)) && ps != [] && ps[0] == v && Abstracts(inner, ps[1..], body)
    ensures Abstracts(e, ps, body)
  {
    hide TryFromExpr, FreeOf, Convert, Different;
    ScopedFreeIs(e, Lambda(v, inner));
    assert ps == [v] + ps[1..];
    forall scope ensures Convert(e, scope) == Abstracted(|ps|, Convert(body, scope + ps)) {
      LambdaForm(e, v, inner, scope);
      assert (scope + [v]) + ps[1..] == scope + ps;
      assert Convert(inner, scope + [v]) == Abstracted(|ps| - 1, Convert(body, scope + ps));
    }
    assert (set p | p in ps) == {v} + (set p | p in ps[1..]);
  }

  lemma LambdaForm(e: Expr, v: Symbol, inner: Expr, scope: seq<Symbol>)
    requires TryFromExpr(e) == Some(Lambda(v, inner))
    ensures Convert(e, scope) == Node(Binder("Lambda"), [Convert(inner, scope + [v])])
  {
    var r := Read(e);
    assert r.names == [v] && r.parts == [inner] && r.head == Binder("Lambda") && r.Over(0) == [v];
    ConvertOne(e, scope);
    hide TryFromExpr, Read;
  }

  lemma ConvertOne(e: Expr, scope: seq<Symbol>)
    requires !e.Sym? && |Read(e).parts| == 1
    ensures Convert(e, scope) == Node(Read(e).head, [Convert(Read(e).parts[0], scope + Read(e).Over(0))])
  {
    hide Read;
    var t := Convert(e, scope);
    assert t.parts == [Convert(Read(e).parts[0], scope + Read(e).Over(0))];
  }

  lemma AbstractsNone(body: Expr)
    ensures Abstracts(body, [], body)
  {
    forall scope: seq<Symbol> ensures scope + [] == scope { }
  }

  lemma {:induction false} NestedAbstracts(ps: seq<Symbol>, body: Expr)
    ensures Abstracts(Nested(ps, body), ps, body)
  {
    hide Abstracts;
    if ps == [] {
      AbstractsNone(body);
    } else {
      NestedAbstracts(ps[1..], body);
      assert TryFromExpr(Nested(ps, body)) == Some(Lambda(ps[0], Nested(ps[1..], body)));
      AbstractsOneMore(Nested(ps, body), ps[0], Nested(ps[1..], body), ps, body);
    }
  }

  lemma {:induction false} FlatAbstracts(ps: seq<Symbol>, body: Expr)
    requires ps != [] && Different(ps)
    ensures Abstracts(Flat(ps, body), ps, body)
  {
    hide Abstracts;
    var args := Declarations(ps) + [body];
    assert args[..|args| - 1] == Declarations(ps);
    assert args[1..] == Declarations(ps[1..]) + [body];
    if |ps| == 1 {
      AbstractsNone(body);
      assert args == [Sym(ps[0]), body];
      assert TryFromExpr(Flat(ps, body)) == Some(Lambda(ps[0], body));
      AbstractsOneMore(Flat(ps, body), ps[0], body, ps, body);
    } else {
      FlatAbstracts(ps[1..], body);
      assert DistinctSymbolParameters(Declarations(ps));
      assert TryFromExpr(Flat(ps, body)) == Some(Lambda(ps[0], Flat(ps[1..], body)));
      AbstractsOneMore(Flat(ps, body), ps[0], Flat(ps[1..], body), ps, body);
    }
  }

  lemma {:induction false} TupledAbstracts(ps: seq<Symbol>, body: Expr)
    requires ps != [] && Different(ps)
    ensures Abstracts(Tupled(ps, body), ps, body)
  {
    hide Abstracts;
    var ds := Declarations(ps);
    assert ds[1..] == Declarations(ps[1..]);
    var inner := if |ps| == 1 then body else if |ps| == 2 then Flat(ps[1..], body) else Tupled(ps[1..], body);
    if |ps| == 1 {
      AbstractsNone(body);
    } else if |ps| == 2 {
      FlatAbstracts(ps[1..], body);
      assert Declarations(ps[1..]) + [body] == [ds[1], body];
    } else {
      TupledAbstracts(ps[1..], body);
    }
    assert DistinctSymbolParameters(ds);
    assert TryFromExpr(Tupled(ps, body)) == Some(Lambda(ps[0], inner));
    AbstractsOneMore(Tupled(ps, body), ps[0], inner, ps, body);
  }

  /** A list of parameters, or a Tuple of them, before one body. */
  ghost predicate Signature(args: seq<Expr>) {
    exists ps: seq<Symbol>, body: Expr :: ps != [] && Different(ps)
      && (args == Declarations(ps) + [body] || args == [Function("Tuple", Declarations(ps)), body])
  }

  lemma SignatureIff(args: seq<Expr>)
    ensures TryFromExpr(Function("Lambda", args)).Some? <==> Signature(args)
  {
    if TryParseLambda(args).Some? { ReadIsSignature(args); }
    if Signature(args) { SignatureIsRead(args); }
  }

  lemma SignatureIsRead(args: seq<Expr>)
    requires Signature(args)
    ensures TryParseLambda(args).Some?
  {
    var ps: seq<Symbol>, body: Expr :| ps != [] && Different(ps) && (args == Declarations(ps) + [body] || args == [Function("Tuple", Declarations(ps)), body]);
    var ds := Declarations(ps);
    assert DistinctSymbolParameters(ds);
    if args == ds + [body] {
      assert args[..|args| - 1] == ds;
      hide DistinctSymbolParameters;
      assert |args| == 2 ==> args[0].Sym?;
    }
  }

  lemma NamesOf(ds: seq<Expr>) returns (ps: seq<Symbol>)
    requires DistinctSymbolParameters(ds)
    ensures Declarations(ps) == ds && Different(ps)
  {
    ps := seq(|ds|, i requires 0 <= i < |ds| => ds[i].symbol);
    forall i | 0 <= i < |ds| ensures Declarations(ps)[i] == ds[i] { assert ds[i].Sym?; }
    forall i, j | 0 <= i < j < |ps| ensures ps[i] != ps[j] { assert ds[i] != ds[j] && ds[i].Sym? && ds[j].Sym?; }
  }

  lemma ReadIsSignature(args: seq<Expr>)
    requires TryParseLambda(args).Some?
    ensures Signature(args)
  {
    assert |args| >= 2;
    var body := args[|args| - 1];
    var tuple := |args| == 2 && !args[0].Sym?;
    var ds := if tuple then args[0].args else args[..|args| - 1];
    assert ds != [] && DistinctSymbolParameters(ds) && (tuple ==> args[0] == Function("Tuple", ds));
    hide TryParseLambda;
    var ps := NamesOf(ds);
    if tuple {
      assert args == [Function("Tuple", Declarations(ps)), body];
    } else {
      assert args == Declarations(ps) + [body];
    }
  }

  // ---- everything else

  function Converted(es: seq<Expr>, scope: seq<Symbol>): seq<Term> {
    seq(|es|, i requires 0 <= i < |es| => Convert(es[i], scope))
  }

  ghost function FreeInSome(es: seq<Expr>): set<Symbol> {
    set i, u | 0 <= i < |es| && u in FreeOf(es[i]) :: u
  }

  /** A node that binds nothing: its parts one by one. */
  ghost predicate Plainly(e: Expr, head: Head) {
    && (forall scope :: Convert(e, scope) == Node(head, Converted(Children(e), scope)))
    && FreeOf(e) == FreeInSome(Children(e))
  }

  lemma OpaqueIsPlain(e: Expr)
    requires !e.Sym? && TryFromExpr(e).None?
    ensures Plainly(e, Read(e).head)
  {
    var r := Read(e);
    assert r.parts == Children(e) && r.names == [] && forall i | 0 <= i < |r.parts| :: r.Over(i) == [];
    hide TryFromExpr, Read, FreeOf, Children;
    forall scope: seq<Symbol> ensures Convert(e, scope) == Node(r.head, Converted(Children(e), scope)) {
      assert scope + [] == scope;
      var t := Convert(e, scope);
      assert t.parts == Converted(Children(e), scope);
    }
    forall u ensures u in FreeOf(e) <==> u in FreeInSome(Children(e)) { OpaqueFree(e, u); }
  }

  lemma LiteralForms(n: int, q: Ratio, c: Constant, s: Symbol)
    ensures Plainly(Integer(n), TInteger(n)) && Plainly(Rational(q), TRational(q)) && Plainly(Const(c), TConst(c))
    ensures FreeOf(Sym(s)) == {s} && forall scope :: Convert(Sym(s), scope) == Lookup(scope, s)
  {
    OpaqueIsPlain(Integer(n));
    OpaqueIsPlain(Rational(q));
    OpaqueIsPlain(Const(c));
  }

  lemma ArithmeticForms(es: seq<Expr>, b: Expr, x: Expr)
    ensures Plainly(Add(es), TAdd) && Plainly(Mul(es), TMul) && Plainly(Pow(b, x), TPow)
  {
    OpaqueIsPlain(Add(es));
    OpaqueIsPlain(Mul(es));
    OpaqueIsPlain(Pow(b, x));
  }

  /** The argument lists that make a function bind or read a variable; all others are plain arguments. */
  ghost predicate Binding(name: string, args: seq<Expr>) {
    || (name == "Lambda" && Signature(args))
    || (name == "Integral" && (|args| == 2 || |args| == 4) && args[1].Sym?)
    || (name == "Derivative" && |args| == 2 && args[1].Sym?)
  }

  lemma PlainFunctions(name: string, args: seq<Expr>)
    requires !Binding(name, args)
    ensures Plainly(Function(name, args), TFunction(name))
  {
    if name == "Lambda" { SignatureIff(args); }
    OpaqueIsPlain(Function(name, args));
  }

  /** The variable of a definite integral is bound in the integrand and in neither limit. */
  lemma DefiniteIntegralForm(body: Expr, v: Symbol, lower: Expr, upper: Expr, scope: seq<Symbol>)
    ensures var e := Function("Integral", [body, Sym(v), lower, upper]);
      && Convert(e, scope) == Node(BinderWithArguments("Integral"), [Convert(body, scope + [v]), Convert(lower, scope), Convert(upper, scope)])
      && FreeOf(e) == (FreeOf(body) - {v}) + FreeOf(lower) + FreeOf(upper)
  {
    var e := Function("Integral", [body, Sym(v), lower, upper]);
    ScopedFreeIs(e, Integral(v, body, Some((lower, upper))));
    var r := Read(e);
    assert r == Reading(BinderWithArguments("Integral"), [body, lower, upper], [v]);
    hide Read, TryFromExpr;
    assert scope + r.Over(0) == scope + [v] && scope + r.Over(1) == scope == scope + r.Over(2);
    var t := Convert(e, scope);
    assert t.parts == [Convert(body, scope + [v]), Convert(lower, scope), Convert(upper, scope)];
  }

  /** An indefinite integral and a derivative keep their variable; the derivative's is not reported free. */
  lemma OperatorForms(body: Expr, v: Symbol, scope: seq<Symbol>)
    ensures var i, d := Function("Integral", [body, Sym(v)]), Function("Derivative", [body, Sym(v)]);
      && Convert(i, scope) == Node(TFunction("Integral"), [Convert(body, scope), Lookup(scope, v)]) && FreeOf(i) == FreeOf(body) + {v}
      && Convert(d, scope) == Node(TFunction("Derivative"), [Convert(body, scope), Lookup(scope, v)]) && FreeOf(d) == FreeOf(body)
  {
    var i, d := Function("Integral", [body, Sym(v)]), Function("Derivative", [body, Sym(v)]);
    assert TryFromExpr(i) == Some(Integral(v, body, None)) && TryFromExpr(d) == Some(Derivative(v, body));
    hide Convert, FreeOf, TryFromExpr, Lookup;
    OperatorFreeIs(i, Integral(v, body, None));
    OperatorFreeIs(d, Derivative(v, body));
    OneOperator(i, "Integral", body, v, scope);
    OneOperator(d, "Derivative", body, v, scope);
  }

  lemma OneOperator(e: Expr, name: string, body: Expr, v: Symbol, scope: seq<Symbol>)
    requires e == Function(name, [body, Sym(v)]) && name in {"Integral", "Derivative"}
    ensures Convert(e, scope) == Node(TFunction(name), [Convert(body, scope), Lookup(scope, v)])
  {
    var r := Read(e);
    assert r == Reading(TFunction(name), [body, Sym(v)], []);
    hide Read, TryFromExpr;
    assert scope + r.Over(0) == scope == scope + r.Over(1) && Convert(Sym(v), scope) == Lookup(scope, v);
    var t := Convert(e, scope);
    assert t.parts == [Convert(body, scope), Lookup(scope, v)];
  }

  /** The two spellings of one function of several parameters are one, and are alpha-equivalent under any other names. */
  lemma SpellingsAgree(ps: seq<Symbol>, body: Expr, scope: seq<Symbol>)
    requires ps != [] && Different(ps)
    ensures Convert(Flat(ps, body), scope) == Convert(Tupled(ps, body), scope) == Convert(Nested(ps, body), scope)
  {
    FlatAbstracts(ps, body);
    TupledAbstracts(ps, body);
    NestedAbstracts(ps, body);
  }
}
