/** Claim records, the refusals of a session, and what a record must say about itself. */
module ClaimRecords {
  import opened Wrappers
  import opened Exprs
  import opened ClaimPages
  import opened BoundedSubstitution
  import opened Derivations
  import opened DerivationLimits
  import opened ProofKernel
  import opened Workspaces

  const MAX_SOURCE_BYTES: nat := 4 * 1024
  const MAX_CLAIM_BINDINGS: nat := 128

  datatype SessionError =
    | SourceTooLarge
    | ParseFailed
    | InvalidName
    | BudgetExhausted
    | CandidateNotAccepted
    | UnknownDerivation
    | PageOutOfRange(page: nat, total: nat)
    | PageSizeTooLarge
    | UniverseMismatch
    | ReplayDigestMismatch
    | ClaimMismatch
    | InvalidPages
    | LimitExceeded
    | BinderSubstitution
    | Workspace(error: WorkspaceError)

  type Answered<T> = Result<T, SessionError>

  datatype Status = Candidate | Accepted

  datatype ClaimRecord = ClaimRecord(
    source: string,
    statement: Claim,
    bindings: seq<(Symbol, Expr)>,
    status: Status,
    derivation: Option<Digest>,
    context: Digest)

  type ClaimPage = Page<ClaimRecord, Step>

  /**
    What the session is given: the parser, the free symbols of an expression and their order, the
    encoded-size limits, what the proof rules and merges are given in one fixed context, and the digest.
   */
  datatype Outside = Outside(
    trim: string -> string,
    parse: string -> Option<Expr>,
    free: Expr -> set<Symbol>,
    before: (Symbol, Symbol) -> bool,
    recordFits: ClaimRecord -> bool,
    pageFits: ClaimPage -> bool,
    pagesFit: seq<ClaimPage> -> bool,
    merges: MergeRules,
    digest: Derivation -> Digest)
  {
    function rules(): Rules {
      merges.rules
    }

    predicate GoodName(name: string) {
      name != [] && bytes(name) <= 256
    }

    function bytes(s: string): nat {
      rules().gauges.bytes(s)
    }

    function claimUnits(c: Claim): Option<nat> {
      Units(WeighClaim(rules().gauges, c))
    }

    function stepsUnits(steps: seq<Step>): Option<nat> {
      StepsUnits(rules().gauges, steps)
    }

    function derivationUnits(d: Derivation): Option<nat> {
      stepsUnits(d.steps)
    }

    function measures(): Measures {
      Measures(free, e => Units(WeighExpr(rules().gauges, e)))
    }

    /** What the independent verifier makes of a derivation. */
    ghost function verify(d: Derivation): Option<Claim> {
      Verified(rules(), d)
    }
  }

  ghost predicate TotalOrder(before: (Symbol, Symbol) -> bool) {
    && (forall a, b :: before(a, b) ==> !before(b, a))
    && (forall a, b :: a == b || before(a, b) || before(b, a))
    && (forall a, b, c :: before(a, b) && before(b, c) ==> before(a, c))
  }

  /** What substitution is told of sizes is right. */
  lemma MeasuresBoundSize(o: Outside)
    ensures UnitsBoundSize(o.measures())
  {
    forall e: Expr ensures o.measures().units(e).Some? ==> Size(e) <= BoundedSubstitution.UNIT * o.measures().units(e).value {
      UnitsBoundNodes(o.rules().gauges, e);
    }
  }

  // ---- the two sides of a source

  function EqualsAt(source: string): (p: Option<nat>)
    ensures p.None? <==> '=' !in source
    ensures p.Some? ==> p.value < |source| && source[p.value] == '=' && '=' !in source[..p.value]
  {
    if source == [] then None
    else if source[0] == '=' then Some(0)
    else
      var rest := EqualsAt(source[1..]);
      assert source == [source[0]] + source[1..];
      if rest.None? then None
      else
        assert source[..rest.value + 1] == [source[0]] + source[1..][..rest.value];
        Some(rest.value + 1)
  }

  /** Both sides of an equation; an expression alone is claimed equal to itself. */
  function Sides(o: Outside, source: string): Answered<(Expr, Expr)> {
    match EqualsAt(source)
    case None => (
      match o.parse(source)
      case None => Err(ParseFailed)
      case Some(lhs) => Ok((lhs, lhs)))
    case Some(p) =>
      if '=' in source[p + 1..] then Err(ParseFailed)
      else
        match o.parse(o.trim(source[..p]))
        case None => Err(ParseFailed)
        case Some(lhs) =>
          match o.parse(o.trim(source[p + 1..]))
          case None => Err(ParseFailed)
          case Some(rhs) => Ok((lhs, rhs))
  }

  function SymbolsOf(o: Outside, sides: (Expr, Expr)): set<Symbol> {
    o.free(sides.0) + o.free(sides.1)
  }

  function AsMap(bindings: seq<(Symbol, Expr)>): (m: map<Symbol, Expr>)
    ensures forall s :: s in m <==> exists i :: 0 <= i < |bindings| && bindings[i].0 == s
  {
    if bindings == [] then map[]
    else
      var (s, e) := bindings[|bindings| - 1];
      assert bindings == bindings[..|bindings| - 1] + [(s, e)];
      AsMap(bindings[..|bindings| - 1])[s := e]
  }

  // ---- what a record must say

  /** The limits on a record, but for its encoded size. */
  ghost predicate Preflight(o: Outside, r: ClaimRecord) {
    && o.bytes(r.source) <= MAX_SOURCE_BYTES
    && |r.bindings| <= MAX_CLAIM_BINDINGS
    && o.claimUnits(r.statement).Some?
    && (forall i :: 0 <= i < |r.bindings| ==> o.measures().units(r.bindings[i].1).Some?)
  }

  /** Only symbols of the source are bound, each once, in order. */
  ghost predicate Canonical(o: Outside, symbols: set<Symbol>, bindings: seq<(Symbol, Expr)>) {
    && (forall i :: 0 <= i < |bindings| ==> bindings[i].0 in symbols)
    && (forall i :: 0 <= i < |bindings| - 1 ==> o.before(bindings[i].0, bindings[i + 1].0))
  }

  ghost function Substituted(o: Outside, sides: (Expr, Expr), bindings: seq<(Symbol, Expr)>): Result<(Expr, Expr), Refusal> {
    Answer(sides.0, sides.1, AsMap(bindings), o.measures())
  }

  /** The statement is what the source says under the frozen bindings. */
  ghost predicate Means(o: Outside, r: ClaimRecord) {
    && Preflight(o, r)
    && var sides := Sides(o, r.source);
      && sides.Ok? && Canonical(o, SymbolsOf(o, sides.value), r.bindings)
      && Substituted(o, sides.value, r.bindings).Ok?
      && var (lhs, rhs) := Substituted(o, sides.value, r.bindings).value;
        r.statement == Equality(lhs, rhs)
  }

  ghost predicate Describes(o: Outside, r: ClaimRecord) {
    Means(o, r) && o.recordFits(r)
  }

  /** The only reasons to find that a record within its limits does not describe its statement. */
  ghost predicate Misdescribes(o: Outside, r: ClaimRecord) {
    var sides := Sides(o, r.source);
    && sides.Ok?
    && (!Canonical(o, SymbolsOf(o, sides.value), r.bindings)
        || (Substituted(o, sides.value, r.bindings).Ok?
            && var (lhs, rhs) := Substituted(o, sides.value, r.bindings).value;
              r.statement != Equality(lhs, rhs)))
  }

  function Refused(r: Refusal): SessionError {
    match r
    case ExportLimit => LimitExceeded
    case UnsupportedSubstitution => BinderSubstitution
  }

  method PreflightRecord(o: Outside, r: ClaimRecord) returns (a: Answered<()>)
    ensures a.Ok? <==> Preflight(o, r) && o.recordFits(r)
    ensures a.Ok? ==> o.bytes(r.source) <= MAX_SOURCE_BYTES
    ensures a.Err? ==> a.error == if o.bytes(r.source) > MAX_SOURCE_BYTES then SourceTooLarge else LimitExceeded
  {
    hide StepsUnits, Verified, Units, WeighClaim, WeighExpr, WeighSteps;
    if o.bytes(r.source) > MAX_SOURCE_BYTES { return Err(SourceTooLarge); }
    if |r.bindings| > MAX_CLAIM_BINDINGS || o.claimUnits(r.statement).None? { return Err(LimitExceeded); }
    for i := 0 to |r.bindings|
      invariant forall j :: 0 <= j < i ==> o.measures().units(r.bindings[j].1).Some?
    {
      if o.measures().units(r.bindings[i].1).None? { return Err(LimitExceeded); }
    }
    a := if o.recordFits(r) then Ok(()) else Err(LimitExceeded);
  }

  method CheckOrder(o: Outside, symbols: set<Symbol>, bindings: seq<(Symbol, Expr)>) returns (ok: bool)
    requires TotalOrder(o.before)
    ensures ok <==> Canonical(o, symbols, bindings)
  {
    var previous: Option<Symbol> := None;
    for i := 0 to |bindings|
      invariant previous == if i == 0 then None else Some(bindings[i - 1].0)
      invariant Canonical(o, symbols, bindings[..i])
    {
      var symbol := bindings[i].0;
      if symbol !in symbols || (previous.Some? && !o.before(previous.value, symbol)) { return false; }
      previous := Some(symbol);
    }
    assert bindings[..|bindings|] == bindings;
    return true;
  }

  /** The check made of every record, constructed here or handed in. */
  method CheckedStatement(o: Outside, r: ClaimRecord) returns (a: Answered<Claim>)
    requires TotalOrder(o.before)
    ensures a.Ok? <==> Describes(o, r)
    ensures a.Ok? ==> a.value == r.statement
    ensures a.Err? ==> a.error in {SourceTooLarge, ParseFailed, LimitExceeded, BinderSubstitution, ClaimMismatch}
    ensures a == Err(ClaimMismatch) ==> Misdescribes(o, r)
    ensures a == Err(SourceTooLarge) <==> o.bytes(r.source) > MAX_SOURCE_BYTES
    ensures a == Err(ParseFailed) <==> Preflight(o, r) && o.recordFits(r) && Sides(o, r.source).Err?
    ensures a == Err(BinderSubstitution) ==> Sides(o, r.source).Ok? && Substituted(o, Sides(o, r.source).value, r.bindings) == Err(UnsupportedSubstitution)
  {
    hide TotalOrder, Sides, Substituted, Canonical, Preflight;
    var preflight := PreflightRecord(o, r);
    if preflight.Err? { return Err(preflight.error); }
    var sides := Sides(o, r.source);
    if sides.Err? { SidesRefuse(o, r.source); return Err(sides.error); }
    var ordered := CheckOrder(o, SymbolsOf(o, sides.value), r.bindings);
    if !ordered { return Err(ClaimMismatch); }
    var answer := SubstituteSides(o, sides.value, r.bindings);
    if answer.Err? { return Err(Refused(answer.error)); }
    var expected := Equality(answer.value.0, answer.value.1);
    if o.claimUnits(expected).None? { ExpectedIsMeasured(o, r, expected); return Err(LimitExceeded); }
    if expected != r.statement { return Err(ClaimMismatch); }
    a := Ok(r.statement);
  }

  lemma SidesRefuse(o: Outside, source: string)
    ensures Sides(o, source).Err? ==> Sides(o, source).error == ParseFailed
  {
  }

  lemma ExpectedIsMeasured(o: Outside, r: ClaimRecord, expected: Claim)
    requires Preflight(o, r) && o.claimUnits(expected).None?
    ensures r.statement != expected
  {
  }

  method SubstituteSides(o: Outside, sides: (Expr, Expr), bindings: seq<(Symbol, Expr)>) returns (a: Result<(Expr, Expr), Refusal>)
    ensures a == Substituted(o, sides, bindings)
  {
    a := SubstituteBounded(sides.0, sides.1, AsMap(bindings), o.measures());
  }

  /** What a record means does not depend on its status, its derivation or its context. */
  lemma MeaningIsOwn(o: Outside, r: ClaimRecord, r': ClaimRecord)
    requires Means(o, r) && r' == r.(status := r'.status, derivation := r'.derivation, context := r'.context)
    ensures Means(o, r')
  {
  }
}
