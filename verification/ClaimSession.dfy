/** The session: candidates, their independent verification, export, and replay. */
module ClaimSession {
  import opened Wrappers
  import opened Sequences
  import opened Exprs
  import opened ClaimPages
  import opened ClaimRecords
  import opened Derivations
  import opened DerivationLimits
  import opened ProofKernel
  import opened Workspaces
  import ClaimMeaning

  // ---- the state, as values

  /** Some stored derivation has the record's digest and is verified to conclude the record's statement. */
  ghost predicate Backed(o: Outside, derivations: seq<Derivation>, r: ClaimRecord) {
    exists i :: 0 <= i < |derivations| && Supports(o, derivations[i], r)
  }

  ghost predicate Supports(o: Outside, d: Derivation, r: ClaimRecord) {
    r.derivation == Some(o.digest(d)) && o.verify(d) == Some(r.statement)
  }

  ghost predicate Sound(o: Outside, context: Digest, derivations: seq<Derivation>, r: ClaimRecord) {
    && r.context == context && Means(o, r)
    && match r.status
       case Candidate => r.derivation.None?
       case Accepted => Backed(o, derivations, r)
  }

  ghost predicate Replayable(o: Outside, stepBudget: nat, d: Derivation) {
    1 <= |d.steps| <= stepBudget && o.derivationUnits(d).Some? && o.verify(d).Some?
  }

  /** Every record is of this context, every accepted one is backed, and the stores stay within the budget. */
  ghost predicate Consistent(o: Outside, context: Digest, stepBudget: nat, claims: seq<ClaimRecord>, derivations: seq<Derivation>) {
    && (forall i :: 0 <= i < |claims| ==> Sound(o, context, derivations, claims[i]))
    && (forall i :: 0 <= i < |derivations| ==> Replayable(o, stepBudget, derivations[i]))
    && |derivations| <= stepBudget && |claims| <= stepBudget + |derivations|
  }

  lemma BackedStays(o: Outside, derivations: seq<Derivation>, d: Derivation, r: ClaimRecord)
    requires Backed(o, derivations, r)
    ensures Backed(o, derivations + [d], r)
  {
    hide Supports;
    var i :| 0 <= i < |derivations| && Supports(o, derivations[i], r);
    assert (derivations + [d])[i] == derivations[i];
  }

  function IndexOf(claims: seq<ClaimRecord>, claim: ClaimRecord): (p: Option<nat>)
    ensures p.None? <==> claim !in claims
    ensures p.Some? ==> p.value < |claims| && claims[p.value] == claim
  {
    if claims == [] then None
    else if claims[0] == claim then Some(0)
    else
      var rest := IndexOf(claims[1..], claim);
      assert claims == [claims[0]] + claims[1..];
      if rest.None? then None else Some(rest.value + 1)
  }

  /** The accepted record takes the place of its candidate, or comes last. */
  function Replaced(claims: seq<ClaimRecord>, claim: ClaimRecord, accepted: ClaimRecord): seq<ClaimRecord> {
    match IndexOf(claims, claim)
    case Some(i) => claims[i := accepted]
    case None => claims + [accepted]
  }

  function Acceptance(o: Outside, claim: ClaimRecord, d: Derivation): ClaimRecord {
    claim.(status := Accepted, derivation := Some(o.digest(d)))
  }

  /** Accepting a claim keeps the state consistent and no accepted record is lost. */
  lemma AcceptingIsConsistent(o: Outside, context: Digest, stepBudget: nat, claims: seq<ClaimRecord>, derivations: seq<Derivation>, claim: ClaimRecord, d: Derivation)
    requires Consistent(o, context, stepBudget, claims, derivations) && |derivations| < stepBudget
    requires claim.context == context && claim.status == Candidate && Means(o, claim)
    requires Replayable(o, stepBudget, d) && o.verify(d) == Some(claim.statement)
    ensures Consistent(o, context, stepBudget, Replaced(claims, claim, Acceptance(o, claim, d)), derivations + [d])
    ensures KeepsAccepted(claims, Replaced(claims, claim, Acceptance(o, claim, d)))
    ensures Acceptance(o, claim, d) in Replaced(claims, claim, Acceptance(o, claim, d))
  {
    hide StepsUnits, Verified, Replayable, Means, Backed, Sound;
    var accepted := Acceptance(o, claim, d);
    var claims', derivations' := Replaced(claims, claim, accepted), derivations + [d];
    AcceptedIsSound(o, context, derivations, claim, d);
    forall i | 0 <= i < |claims| ensures Sound(o, context, derivations', claims[i]) { SoundStays(o, context, derivations, d, claims[i]); }
    forall i | 0 <= i < |claims'| ensures Sound(o, context, derivations', claims'[i]) {
      if claims'[i] != accepted { assert claims'[i] == claims[i]; }
    }
    AcceptedIsIn(claims, claim, accepted);
  }

  lemma AcceptedIsSound(o: Outside, context: Digest, derivations: seq<Derivation>, claim: ClaimRecord, d: Derivation)
    requires claim.context == context && Means(o, claim) && o.verify(d) == Some(claim.statement)
    ensures Sound(o, context, derivations + [d], Acceptance(o, claim, d))
  {
    var accepted := Acceptance(o, claim, d);
    MeaningIsOwn(o, claim, accepted);
    hide Means, Verified, StepsUnits;
    assert (derivations + [d])[|derivations|] == d && Supports(o, d, accepted);
  }

  lemma SoundStays(o: Outside, context: Digest, derivations: seq<Derivation>, d: Derivation, r: ClaimRecord)
    requires Sound(o, context, derivations, r)
    ensures Sound(o, context, derivations + [d], r)
  {
    hide Means, Backed;
    if r.status == Accepted { BackedStays(o, derivations, d, r); }
  }

  ghost predicate KeepsAccepted(claims: seq<ClaimRecord>, claims': seq<ClaimRecord>) {
    forall c :: c in claims && c.status == Accepted ==> c in claims'
  }

  lemma AcceptedIsIn(claims: seq<ClaimRecord>, claim: ClaimRecord, accepted: ClaimRecord)
    requires claim.status == Candidate
    ensures accepted in Replaced(claims, claim, accepted) && KeepsAccepted(claims, Replaced(claims, claim, accepted))
  {
    var claims' := Replaced(claims, claim, accepted);
    var p := IndexOf(claims, claim);
    assert claims'[if p.Some? then p.value else |claims|] == accepted;
    forall c | c in claims && c.status == Accepted ensures c in claims' {
      var i :| 0 <= i < |claims| && claims[i] == c;
      assert claims'[i] == c;
    }
  }

  /** The first stored derivation with a digest. */
  function Find(o: Outside, derivations: seq<Derivation>, digest: Digest): (d: Option<Derivation>)
    ensures d.Some? ==> d.value in derivations && o.digest(d.value) == digest
    ensures d.None? ==> forall e :: e in derivations ==> o.digest(e) != digest
  {
    if derivations == [] then None
    else if o.digest(derivations[0]) == digest then Some(derivations[0])
    else Find(o, derivations[1..], digest)
  }

  /** A held accepted claim is found, and without digest collisions what is found proves it. */
  lemma AcceptedIsFound(o: Outside, context: Digest, stepBudget: nat, claims: seq<ClaimRecord>, derivations: seq<Derivation>, claim: ClaimRecord)
    requires Consistent(o, context, stepBudget, claims, derivations) && claim in claims && claim.status == Accepted
    ensures claim.derivation.Some? && Find(o, derivations, claim.derivation.value).Some?
    ensures var d := Find(o, derivations, claim.derivation.value).value;
      && Replayable(o, stepBudget, d)
      && (Collisionless(o, derivations) ==> Supports(o, d, claim))
  {
    var i :| 0 <= i < |claims| && claims[i] == claim;
    assert Sound(o, context, derivations, claim);
    var j :| 0 <= j < |derivations| && Supports(o, derivations[j], claim);
    assert derivations[j] in derivations;
    var d := Find(o, derivations, claim.derivation.value).value;
    var k :| 0 <= k < |derivations| && derivations[k] == d;
    assert Replayable(o, stepBudget, derivations[k]);
    hide Consistent, Sound, Replayable, Find;
    if Collisionless(o, derivations) { assert d == derivations[j]; }
  }

  ghost predicate Collisionless(o: Outside, derivations: seq<Derivation>) {
    forall d, e :: d in derivations && e in derivations && o.digest(d) == o.digest(e) ==> d == e
  }

  // ---- export and replay, as values

  function Exported(o: Outside, claims: seq<ClaimRecord>, derivations: seq<Derivation>, claim: ClaimRecord, page: nat, pageSize: nat): Answered<ClaimPage> {
    if pageSize > MAX_EXPORT_PAGE_SIZE || pageSize == 0 then Err(PageSizeTooLarge)
    else if claim.status != Accepted then Err(CandidateNotAccepted)
    else if claim !in claims then Err(ClaimMismatch)
    else if claim.derivation.None? then Err(UnknownDerivation)
    else
      match Find(o, derivations, claim.derivation.value)
      case None => Err(UnknownDerivation)
      case Some(d) =>
        var total := TotalPages(|d.steps|, pageSize);
        if page >= total then Err(PageOutOfRange(page, total))
        else
          TotalIsNoMore(|d.steps|, pageSize);
          var exported := PageAt(claim, d.root, d.steps, pageSize, page);
          if o.pageFits(exported) then Ok(exported) else Err(LimitExceeded)
  }

  lemma TotalIsNoMore(n: nat, size: nat)
    requires size > 0
    ensures TotalPages(n, size) <= if n == 0 then 1 else DivCeil(n, size)
  {
    var m := if n == 0 then 1 else DivCeil(n, size);
    assert m % U32 <= m;
  }

  /** What replay accepts, if its meter lets it: well-shaped pages whose joined derivation is verified afresh. */
  ghost predicate Replays(o: Outside, context: Digest, stepBudget: nat, pages: seq<ClaimPage>) {
    && WellShaped(pages) && |Concat(pages)| <= stepBudget
    && var claim := pages[0].claim;
      && claim.context == context && claim.status == Accepted && Describes(o, claim) && claim.derivation.Some?
      && (forall i :: 0 <= i < |pages| ==> o.stepsUnits(pages[i].steps).Some?) && o.pagesFit(pages)
      && var d := Derivation(Concat(pages), pages[0].root);
        && o.derivationUnits(d).Some? && o.verify(d) == Some(claim.statement) && o.digest(d) == claim.derivation.value
  }

  /** The limits that export and replay put on the pages of a derivation. */
  ghost predicate PagesWithinLimits(o: Outside, claim: ClaimRecord, d: Derivation, pageSize: nat)
    requires pageSize > 0
  {
    var pages := Pages(claim, d.root, d.steps, pageSize);
    && |d.steps| < U32 && o.recordFits(claim) && o.pagesFit(pages)
    && forall i :: 0 <= i < |pages| ==> o.pageFits(pages[i])
  }

  /**
    The round trip: every page of a held accepted claim is exported, and the pages replay, here or
    in any session of the same context with as large a budget.
   */
  lemma ExportReplays(o: Outside, context: Digest, stepBudget: nat, claims: seq<ClaimRecord>, derivations: seq<Derivation>, claim: ClaimRecord, pageSize: nat, otherBudget: nat)
    requires Consistent(o, context, stepBudget, claims, derivations) && Collisionless(o, derivations)
    requires claim in claims && claim.status == Accepted && 1 <= pageSize <= MAX_EXPORT_PAGE_SIZE
    requires stepBudget <= otherBudget
    requires forall d :: d in derivations && o.digest(d) == claim.derivation.value ==> PagesWithinLimits(o, claim, d, pageSize)
    ensures Find(o, derivations, claim.derivation.value).Some?
    ensures var d := Find(o, derivations, claim.derivation.value).value;
      var pages := Pages(claim, d.root, d.steps, pageSize);
      && |pages| == TotalPages(|d.steps|, pageSize)
      && (forall k :: 0 <= k < |pages| ==> Exported(o, claims, derivations, claim, k, pageSize) == Ok(pages[k]))
      && Exported(o, claims, derivations, claim, |pages|, pageSize) == Err(PageOutOfRange(|pages|, |pages|))
      && Replays(o, context, otherBudget, pages)
  {
    hide StepsUnits, Verified, Consistent, Find, Describes, Means, WellShaped, TotalPages, DivCeil, PageAt, Concat, Pages;
    AcceptedIsFound(o, context, stepBudget, claims, derivations, claim);
    ConsistentContext(o, context, stepBudget, claims, derivations, claim);
    var d := Find(o, derivations, claim.derivation.value).value;
    var pages := Pages(claim, d.root, d.steps, pageSize);
    ExportIsReplayable(claim, d.root, d.steps, pageSize);
    assert PagesWithinLimits(o, claim, d, pageSize);
    assert Derivation(Concat(pages), pages[0].root) == d;
    DescribesOf(o, claim);
    forall k | 0 <= k < |pages| ensures Exported(o, claims, derivations, claim, k, pageSize) == Ok(pages[k]) && o.stepsUnits(pages[k].steps).Some? {
      var a, b := PageIsPart(claim, d.root, d.steps, pageSize, k);
      PartIsLight(o.rules().gauges, d.steps, a, b);
    }
  }

  lemma DescribesOf(o: Outside, r: ClaimRecord)
    requires Means(o, r) && o.recordFits(r)
    ensures Describes(o, r)
  {
  }

  lemma ConsistentContext(o: Outside, context: Digest, stepBudget: nat, claims: seq<ClaimRecord>, derivations: seq<Derivation>, claim: ClaimRecord)
    requires Consistent(o, context, stepBudget, claims, derivations) && claim in claims
    ensures claim.context == context && Means(o, claim)
  {
    var i :| 0 <= i < |claims| && claims[i] == claim;
    assert Sound(o, context, derivations, claims[i]);
  }

  // ---- the workspaces of a session

  /** A source that is short enough and parses. */
  predicate Readable(o: Outside, source: string) {
    o.bytes(source) <= MAX_SOURCE_BYTES && o.parse(source).Some?
  }

  ghost predicate AllOrdinary(o: MergeRules, stored: map<string, Workspace>) {
    forall b :: b in stored ==> Ordinary(o, stored[b])
  }

  lemma MergesWell(o: MergeRules, stored: map<string, Workspace>, active: string, source: string)
    requires active in stored && source in stored && AllOrdinary(o, stored) && Apart(o.nameDigest)
    ensures Admits(o, active, stored[active], source, stored[source]) ==> NamesAgree(o, stored[active].bindings, stored[source].bindings)
    ensures AllOrdinary(o, stored[active := Merged(stored[active], stored[source])])
    ensures forall d :: d in stored[source].derivations ==> Verified(o.rules, d).Some?
  {
    hide Verified;
    if Mergeable(stored[active].bindings, stored[source].bindings) { PlainNamesAgree(o, stored[active], stored[source]); }
    MergedIsOrdinary(o, stored[active], stored[source]);
  }

  lemma KeepingIsOrdinary(o: MergeRules, stored: map<string, Workspace>, active: string, d: Derivation)
    requires active in stored && AllOrdinary(o, stored) && Verified(o.rules, d).Some?
    ensures AllOrdinary(o, stored[active := stored[active].(derivations := stored[active].derivations + [d])])
  {
    hide Verified;
  }

  lemma BindingIsOrdinary(o: MergeRules, stored: map<string, Workspace>, active: string, bindings: Bindings)
    requires active in stored && AllOrdinary(o, stored) && forall s :: s in bindings ==> s.identity.None?
    ensures AllOrdinary(o, stored[active := stored[active].(bindings := bindings)])
  {
    hide Verified;
  }

  // ---- the object

  class Session {
    const outside: Outside
    const context: Digest
    const stepBudget: nat
    const workspaces: Branches
    const kernel: Kernel
    const meter: Meter
    var claims: seq<ClaimRecord>
    var derivations: seq<Derivation>

    ghost predicate Valid()
      reads this, workspaces, kernel
    {
      && TotalOrder(outside.before) && Consistent(outside, context, stepBudget, claims, derivations)
      && kernel.Valid() && kernel.rules == outside.rules()
      && workspaces.Valid() && workspaces.rules == outside.merges && AllOrdinary(outside.merges, workspaces.stored)
      && Apart(outside.merges.nameDigest)
    }

    constructor (outside: Outside, context: Digest, stepBudget: nat, refuses: nat -> bool)
      requires TotalOrder(outside.before) && Apart(outside.merges.nameDigest)
      ensures Valid() && claims == [] && derivations == [] && kernel.steps == [] && workspaces.current == Workspace.Workspace(map[], [])
      ensures this.outside == outside && this.context == context && this.stepBudget == stepBudget && meter.refuses == refuses
      ensures fresh(workspaces) && fresh(kernel) && fresh(meter)
    {
      this.outside, this.context, this.stepBudget := outside, context, stepBudget;
      workspaces := new Branches(outside.merges);
      kernel := new Kernel(outside.rules());
      meter := new Meter(refuses);
      claims, derivations := [], [];
    }

    /** Binds a name in the active workspace; records already made are not touched. */
    method Construct(name: string, source: string) returns (r: Answered<Expr>)
      requires Valid()
      modifies workspaces
      ensures Valid() && workspaces.active == old(workspaces.active)
      ensures r.Ok? <==> name != [] && outside.bytes(name) <= 256 && outside.bytes(source) <= 4096 && outside.parse(source).Some?
      ensures r.Ok? ==> outside.parse(source) == Some(r.value) && workspaces.current == old(workspaces.current).(bindings := old(workspaces.current).bindings[Plain(name) := r.value])
      ensures r.Err? ==> workspaces.current == old(workspaces.current)
      ensures workspaces.stored == old(workspaces.stored)[workspaces.active := workspaces.current]
    {
      hide Consistent, TotalOrder, kernel.Valid;
      if !outside.GoodName(name) { return Err(InvalidName); }
      if outside.bytes(source) > MAX_SOURCE_BYTES { return Err(SourceTooLarge); }
      var parsed := outside.parse(source);
      if parsed.None? { return Err(ParseFailed); }
      BindingIsOrdinary(outside.merges, workspaces.stored, workspaces.active, workspaces.current.bindings[Plain(name) := parsed.value]);
      workspaces.Bind(Plain(name), parsed.value);
      r := Ok(parsed.value);
    }

    /** What is demanded of a request that only computes: it changes nothing. */
    method Admit(source: string, variable: Option<string>) returns (r: Answered<Expr>)
      ensures r.Ok? <==> Readable(outside, source) && (variable.Some? ==> outside.GoodName(variable.value))
      ensures r.Ok? ==> outside.parse(source) == Some(r.value)
    {
      if variable.Some? && !outside.GoodName(variable.value) { return Err(InvalidName); }
      if outside.bytes(source) > MAX_SOURCE_BYTES { return Err(SourceTooLarge); }
      var parsed := outside.parse(source);
      r := if parsed.Some? then Ok(parsed.value) else Err(ParseFailed);
    }

    method Fork(name: string) returns (r: Answered<string>)
      requires Valid()
      modifies workspaces
      ensures Valid() && workspaces.current == old(workspaces.current)
      ensures r.Ok? <==> outside.GoodName(name) && name !in old(workspaces.stored)
      ensures r.Ok? ==> r.value == name && workspaces.active == name && workspaces.stored == old(workspaces.stored)[name := workspaces.current]
      ensures r.Err? ==> workspaces.active == old(workspaces.active) && workspaces.stored == old(workspaces.stored)
    {
      hide Consistent, TotalOrder, kernel.Valid;
      if !outside.GoodName(name) { return Err(InvalidName); }
      var a := workspaces.Fork(name);
      r := if a.Ok? then Ok(a.value) else Err(SessionError.Workspace(a.error));
    }

    method Checkout(name: string) returns (r: Answered<string>)
      requires Valid()
      modifies workspaces
      ensures Valid() && workspaces.stored == old(workspaces.stored)
      ensures r.Ok? <==> name in workspaces.stored
      ensures if r.Ok? then r.value == workspaces.active == name else workspaces.active == old(workspaces.active)
    {
      hide Consistent, TotalOrder, kernel.Valid;
      var a := workspaces.Checkout(name);
      r := if a.Ok? then Ok(a.value) else Err(SessionError.Workspace(a.error));
    }

    /** Every name and source is checked, and every source parsed, before the workspace is touched. */
    method ApplyPatch(updates: seq<(string, string)>, removals: seq<string>) returns (r: Answered<nat>)
      requires Valid()
      modifies workspaces
      ensures Valid() && workspaces.active == old(workspaces.active)
      ensures r.Ok? <==>
        && (forall i :: 0 <= i < |updates| ==> outside.GoodName(updates[i].0) && Readable(outside, updates[i].1))
        && (forall i :: 0 <= i < |removals| ==> outside.GoodName(removals[i]) && removals[i] !in Names(updates))
        && |Patched(old(workspaces.current).bindings, Parsed(outside, updates), Named(removals))| <= MAX_WORKSPACE_BINDINGS
      ensures r.Ok? ==> workspaces.current == old(workspaces.current).(bindings := Patched(old(workspaces.current).bindings, Parsed(outside, updates), Named(removals))) && r.value == |workspaces.current.bindings|
      ensures r.Err? ==> workspaces.current == old(workspaces.current)
      ensures workspaces.stored == old(workspaces.stored)[workspaces.active := workspaces.current]
    {
      hide Consistent, TotalOrder, kernel.Valid, Patched;
      var parsed := map[];
      for i := 0 to |updates|
        invariant parsed == Parsed(outside, updates[..i])
        invariant forall j :: 0 <= j < i ==> outside.GoodName(updates[j].0) && Readable(outside, updates[j].1)
      {
        var (name, source) := updates[i];
        assert updates[..i + 1][..i] == updates[..i];
        if !outside.GoodName(name) { return Err(InvalidName); }
        if outside.bytes(source) > MAX_SOURCE_BYTES { return Err(SourceTooLarge); }
        var e := outside.parse(source);
        if e.None? { return Err(ParseFailed); }
        parsed := parsed[Plain(name) := e.value];
      }
      assert updates[..|updates|] == updates;
      var removed := {};
      for i := 0 to |removals|
        invariant removed == Named(removals[..i])
        invariant forall j :: 0 <= j < i ==> outside.GoodName(removals[j])
      {
        if !outside.GoodName(removals[i]) { return Err(InvalidName); }
        assert removals[..i + 1] == removals[..i] + [removals[i]];
        removed := removed + {Plain(removals[i])};
      }
      assert removals[..|removals|] == removals;
      PatchedIsPlain(workspaces.current.bindings, outside, updates, removed);
      ParsedKeys(outside, updates);
      NamedApart(parsed, updates, removals);
      BindingIsOrdinary(outside.merges, workspaces.stored, workspaces.active, Patched(workspaces.current.bindings, parsed, removed));
      var a := workspaces.ApplyPatch(parsed, removed);
      r := if a.Ok? then Ok(a.value) else Err(SessionError.Workspace(a.error));
    }

    /**
      In a session no merge fails for its certificate or for a derivation: every name is plain, and
      every derivation verified. A malformed term is found before anything changes.
     */
    method Merge(source: string) returns (r: Answered<()>)
      requires Valid()
      modifies workspaces
      ensures Valid() && workspaces.active == old(workspaces.active)
      ensures r.Ok? <==>
        (source in old(workspaces.stored) && source != workspaces.active
         && Admits(outside.merges, workspaces.active, old(workspaces.current), source, old(workspaces.stored)[source]))
      ensures r.Ok? ==> workspaces.current == Merged(old(workspaces.current), old(workspaces.stored)[source])
      ensures r.Err? ==> workspaces.current == old(workspaces.current) && r.error != SessionError.Workspace(DerivationVerificationFailed)
      ensures r == Err(SessionError.Workspace(StructuralInvariantFailure)) ==>
        (source in old(workspaces.stored)
         && outside.merges.receiptFault(workspaces.active, old(workspaces.current), source, old(workspaces.stored)[source]) == Some(Malformed))
      ensures workspaces.stored == old(workspaces.stored)[workspaces.active := workspaces.current]
    {
      hide Consistent, TotalOrder, kernel.Valid, Ordinary, NamesAgree, Admits, Merged, Verified;
      ghost var before, stored := workspaces.current, workspaces.stored;
      if source in stored { MergesWell(outside.merges, stored, workspaces.active, source); }
      var a := workspaces.Merge(source);
      r := if a.Ok? then Ok(()) else Err(SessionError.Workspace(a.error));
    }

    /**
      A candidate freezes the bindings it was made under; it never fails to describe itself. There is
      at most one of a source, and with a willing meter and room for it, it is made if there is one.
     */
    method ConstructClaim(source: string) returns (r: Answered<ClaimRecord>)
      requires Valid()
      modifies this`claims, meter
      ensures Valid()
      ensures r.Err? ==> claims == old(claims) && r.error in {SourceTooLarge, ParseFailed, LimitExceeded, BinderSubstitution, BudgetExhausted}
      ensures r.Ok? ==> claims == old(claims) + [r.value] && CandidateOf(outside, context, workspaces.current.bindings, source, r.value)
      ensures Willing(meter.refuses) ==>
        (r.Ok? <==> |old(claims)| < stepBudget && exists c :: CandidateOf(outside, context, workspaces.current.bindings, source, c))
    {
      hide StepsUnits, Verified, Units, WeighClaim, WeighExpr, WeighSteps;
      if outside.bytes(source) > MAX_SOURCE_BYTES { return Err(SourceTooLarge); }
      hide Consistent, Describes, TotalOrder, Sides, Substituted, Canonical, Misdescribes;
      ghost var o, workspace := outside, workspaces.current.bindings;
      var sides := Sides(outside, source);
      if sides.Err? {
        SidesRefuse(outside, source);
        NoCandidate(o, context, workspace, source);
        return Err(sides.error);
      }
      var bindings := Frozen(outside, SymbolsOf(outside, sides.value), workspaces.current.bindings);
      CandidateIsUnique(o, context, workspace, source, sides.value, bindings);
      if |bindings| > MAX_CLAIM_BINDINGS { return Err(LimitExceeded); }
      var answer := SubstituteSides(outside, sides.value, bindings);
      if answer.Err? { return Err(Refused(answer.error)); }
      if |claims| >= stepBudget { return Err(BudgetExhausted); }
      var charged := meter.Charge();
      if !charged { return Err(BudgetExhausted); }
      var record := ClaimRecord(source, Equality(answer.value.0, answer.value.1), bindings, Candidate, None, context);
      var checked := CheckedStatement(outside, record);
      if checked.Err? {
        FreshIsDescribed(outside, record, sides.value, answer.value);
        return Err(checked.error);
      }
      CandidateIsConsistent(outside, context, stepBudget, claims, derivations, record);
      assert CandidateOf(o, context, workspace, source, record);
      claims := claims + [record];
      r := Ok(record);
    }

    /** Room, units and the protected lease for one independent verification. */
    method ChargeVerification(d: Derivation) returns (r: Answered<()>)
      modifies meter
      ensures r.Ok? ==> 1 <= |d.steps| <= stepBudget && outside.derivationUnits(d).Some?
      ensures Willing(meter.refuses) && 1 <= |d.steps| <= stepBudget && outside.derivationUnits(d).Some? ==> r.Ok?
    {
      if d.steps == [] || |d.steps| > stepBudget { return Err(BudgetExhausted); }
      if outside.derivationUnits(d).None? { return Err(LimitExceeded); }
      var charged := meter.Charge();
      r := if charged then Ok(()) else Err(BudgetExhausted);
    }

    /**
      The kernel's script: an equation of equals by reflexivity and symmetry, any other by polynomial
      normal forms and symmetry twice. Its export is that proof alone, whatever was proved before.
     */
    method Prove(lhs: Expr, rhs: Expr) returns (r: Answered<Derivation>)
      requires kernel.Valid()
      modifies kernel, meter
      ensures kernel.Valid()
      ensures r.Ok? ==> Provable(kernel.rules, lhs, rhs) && r.value == ProofOf(lhs, rhs)
      ensures Willing(meter.refuses) ==> (r.Ok? <==> Reachable(kernel.rules, old(kernel.steps), lhs, rhs))
      ensures Willing(meter.refuses) && lhs != rhs && !kernel.rules.sameNormalForm(lhs, rhs) ==> r == Err(CandidateNotAccepted)
      ensures r.Err? ==> r.error == BudgetExhausted || (r.error == CandidateNotAccepted && lhs != rhs)
    {
      hide AllCheck, Begun, Grown, ProofFrom, Provable, Reachable, Slice, ProofOf;
      ghost var before, k := kernel.steps, kernel.rules;
      RulesOfProof(|before|, lhs, rhs);
      BegunIsReachable(k, before, lhs, rhs);
      StartOfProof(k, before, lhs, rhs);
      var root: nat;
      if lhs == rhs {
        var step := kernel.Continue(before, lhs, rhs, 0, Rule(Reflexivity(lhs), []), meter);
        if step.Err? { return Err(BudgetExhausted); }
        var turned := kernel.Continue(before, lhs, rhs, 1, Rule(Symmetry, [step.value]), meter);
        if turned.Err? { return Err(BudgetExhausted); }
        root := turned.value;
      } else {
        var step := kernel.Continue(before, lhs, rhs, 0, Rule(PolynomialNormalForm(lhs, rhs), []), meter);
        if step.Err? { return Err(if step.error == Budget then BudgetExhausted else CandidateNotAccepted); }
        var turned := kernel.Continue(before, lhs, rhs, 1, Rule(Symmetry, [step.value]), meter);
        if turned.Err? { return Err(BudgetExhausted); }
        var back := kernel.Continue(before, lhs, rhs, 2, Rule(Symmetry, [turned.value]), meter);
        if back.Err? { return Err(BudgetExhausted); }
        root := back.value;
      }
      EndOfProof(k, before, lhs, rhs);
      var exported := kernel.ExportDerivation(root);
      r := if exported.Ok? then Ok(exported.value) else Err(UnknownDerivation);
    }

    /**
      A candidate is accepted only with a derivation that the independent verifier, not the kernel,
      finds to conclude its frozen statement; with a willing meter, exactly the statements that are
      equal or have one normal form are, within the limits. Any refusal leaves claims and derivations
      as they were, and no accepted record is ever lost. The workspaces are not looked at; the active
      one keeps the derivation.
     */
    method VerifyClaim(claim: ClaimRecord) returns (r: Answered<ClaimRecord>)
      requires Valid()
      modifies this`claims, this`derivations, kernel, meter, workspaces
      ensures Valid() && KeepsAccepted(old(claims), claims)
      ensures r.Err? ==> claims == old(claims) && derivations == old(derivations) && workspaces.stored == old(workspaces.stored)
      ensures workspaces.active == old(workspaces.active) && workspaces.current.bindings == old(workspaces.current).bindings
      ensures workspaces.stored == old(workspaces.stored)[workspaces.active := workspaces.current]
      ensures claim.context != context ==> r == Err(UniverseMismatch)
      ensures r.Ok? ==> claim.context == context && claim.status == Candidate && claim.derivation.None? && Describes(outside, claim)
      ensures r.Ok? ==> claim.statement.Equality? && derivations == old(derivations) + [ProofOf(claim.statement.lhs, claim.statement.rhs)]
      ensures r.Ok? ==> var d := ProofOf(claim.statement.lhs, claim.statement.rhs);
        && r.value == Acceptance(outside, claim, d) && outside.verify(d) == Some(claim.statement)
        && claims == Replaced(old(claims), claim, r.value) && r.value in claims && d in workspaces.current.derivations
      ensures Willing(meter.refuses) ==> (r.Ok? <==> Acceptable(outside, context, stepBudget, old(derivations), old(kernel.steps), claim))
    {
      hide StepsUnits, Verified, Units, WeighClaim, WeighExpr, WeighSteps;
      if claim.context != context { return Err(UniverseMismatch); }
      if claim.status != Candidate || claim.derivation.Some? { return Err(CandidateNotAccepted); }
      hide Consistent, Describes, TotalOrder, Replaced, KeepsAccepted, ProofOf, Verified;
      NothingLost(claims);
      var checked := CheckedStatement(outside, claim);
      if checked.Err? { return Err(checked.error); }
      if !checked.value.Equality? { return Err(ClaimMismatch); }
      if |derivations| >= stepBudget { return Err(BudgetExhausted); }
      var proved := Prove(checked.value.lhs, checked.value.rhs);
      if proved.Err? { return Err(proved.error); }
      var derivation := proved.value;
      var charged := ChargeVerification(derivation);
      if charged.Err? { return Err(charged.error); }
      var conclusion := Verify(outside.rules(), derivation);
      var accepted := Acceptance(outside, claim, derivation);
      r := if conclusion.None? then Err(CandidateNotAccepted) else if conclusion.value != claim.statement then Err(ClaimMismatch) else Ok(accepted);
      ProofVerifies(outside.rules(), checked.value.lhs, checked.value.rhs);
      MeansOf(outside, claim);
      if r.Ok? { Accept(claim, derivation); }
    }

    /** A verified claim takes the place of its candidate; its derivation is held, and kept in the active workspace. */
    method Accept(claim: ClaimRecord, derivation: Derivation)
      requires Valid() && |derivations| < stepBudget
      requires claim.context == context && claim.status == Candidate && Means(outside, claim)
      requires Replayable(outside, stepBudget, derivation) && outside.verify(derivation) == Some(claim.statement)
      modifies this`claims, this`derivations, workspaces
      ensures Valid() && KeepsAccepted(old(claims), claims)
      ensures claims == Replaced(old(claims), claim, Acceptance(outside, claim, derivation)) && derivations == old(derivations) + [derivation]
      ensures Acceptance(outside, claim, derivation) in claims && derivation in workspaces.current.derivations
      ensures workspaces.active == old(workspaces.active) && workspaces.current.bindings == old(workspaces.current).bindings
      ensures workspaces.stored == old(workspaces.stored)[workspaces.active := workspaces.current]
    {
      hide StepsUnits, Verified, Consistent, TotalOrder, Replaced, KeepsAccepted, Replayable, Means, AllCheck;
      AcceptingIsConsistent(outside, context, stepBudget, claims, derivations, claim, derivation);
      KeepingIsOrdinary(outside.merges, workspaces.stored, workspaces.active, derivation);
      workspaces.Keep(derivation);
      derivations := derivations + [derivation];
      claims := Replaced(claims, claim, Acceptance(outside, claim, derivation));
    }

    /** A held accepted claim always has its derivation: only the page, its size and its encoding can be refused. */
    method ExportClaim(claim: ClaimRecord, page: nat, pageSize: nat) returns (r: Answered<ClaimPage>)
      requires Valid()
      ensures r == Exported(outside, claims, derivations, claim, page, pageSize)
      ensures r != Err(UnknownDerivation)
      ensures claim in claims && claim.status == Accepted && 1 <= pageSize <= MAX_EXPORT_PAGE_SIZE && r.Err?
        ==> r.error == LimitExceeded || r.error.PageOutOfRange?
    {
      hide StepsUnits, Verified, Find, Consistent, Exported, Replayable;
      r := Exported(outside, claims, derivations, claim, page, pageSize);
      if claim in claims && claim.status == Accepted {
        AcceptedIsFound(outside, context, stepBudget, claims, derivations, claim);
      }
      ExportRefuses(outside, claims, derivations, claim, page, pageSize);
    }

    /** The pages are checked and verified afresh; nothing held is consulted and nothing is imported. */
    method ReplayPages(pages: seq<ClaimPage>) returns (r: Answered<Digest>)
      requires Valid()
      modifies meter
      ensures Valid()
      ensures r.Ok? ==> Replays(outside, context, stepBudget, pages) && Some(r.value) == pages[0].claim.derivation
      ensures Willing(meter.refuses) ==> (r.Ok? <==> Replays(outside, context, stepBudget, pages))
    {
      hide StepsUnits, Verified, Units, WeighClaim, WeighExpr, WeighSteps;
      hide Consistent, Describes, TotalOrder, Concat, GoodPage, Willing;
      if pages == [] { return Err(InvalidPages); }
      var first := pages[0];
      if Replays(outside, context, stepBudget, pages) { ReplaysNeeds(outside, context, stepBudget, pages); }
      if |pages| > stepBudget || first.total != |pages| || first.schema != CLAIM_EXPORT_SCHEMA { return Err(InvalidPages); }
      if first.claim.context != context { return Err(UniverseMismatch); }
      if first.claim.status != Accepted { return Err(CandidateNotAccepted); }
      var checked := CheckedStatement(outside, first.claim);
      if checked.Err? { return Err(checked.error); }
      if first.claim.derivation.None? { return Err(UnknownDerivation); }
      var shape := CheckPages(outside, stepBudget, pages);
      if shape.Err? { return Err(shape.error); }
      if !outside.pagesFit(pages) { return Err(LimitExceeded); }
      var derivation := Derivation(Concat(pages), first.root);
      var charged := ChargeVerification(derivation);
      if charged.Err? { return Err(charged.error); }
      var conclusion := Verify(outside.rules(), derivation);
      if conclusion.None? { return Err(ReplayDigestMismatch); }
      if conclusion.value != first.claim.statement { return Err(ClaimMismatch); }
      if outside.digest(derivation) != first.claim.derivation.value { return Err(ReplayDigestMismatch); }
      r := Ok(first.claim.derivation.value);
    }
  }

  /** What export refuses, when accepted claims have their derivations. */
  lemma ExportRefuses(o: Outside, claims: seq<ClaimRecord>, derivations: seq<Derivation>, claim: ClaimRecord, page: nat, pageSize: nat)
    requires claim in claims && claim.status == Accepted ==> claim.derivation.Some? && Find(o, derivations, claim.derivation.value).Some?
    ensures var r := Exported(o, claims, derivations, claim, page, pageSize);
      && r != Err(UnknownDerivation)
      && (claim in claims && claim.status == Accepted && 1 <= pageSize <= MAX_EXPORT_PAGE_SIZE && r.Err? ==> r.error == LimitExceeded || r.error.PageOutOfRange?)
  {
    hide Find, PageAt;
  }

  /** What replay refuses before it looks inside the pages. */
  lemma ReplaysNeeds(o: Outside, context: Digest, stepBudget: nat, pages: seq<ClaimPage>)
    requires Replays(o, context, stepBudget, pages)
    ensures 1 <= |pages| <= |Concat(pages)| && pages[0].total == |pages| && pages[0].schema == CLAIM_EXPORT_SCHEMA
    ensures PagesInOrder(o, stepBudget, pages)
  {
    hide StepsUnits, Verified;
    assert GoodPage(pages, 0);
    EveryPageHasASteps(pages, |pages|);
    assert pages[..|pages|] == pages;
  }

  /** Page by page: shape, units, and the number of steps so far. */
  ghost predicate PagesInOrder(o: Outside, stepBudget: nat, pages: seq<ClaimPage>) {
    && (forall i :: 0 <= i < |pages| ==> GoodPage(pages, i) && Describable(o, pages[i].claim) && o.stepsUnits(pages[i].steps).Some?)
    && |Concat(pages)| <= stepBudget
  }

  ghost predicate Describable(o: Outside, r: ClaimRecord) {
    Preflight(o, r) && o.recordFits(r)
  }

  lemma {:induction false} EveryPageHasASteps(pages: seq<ClaimPage>, k: nat)
    requires WellShaped(pages) && k <= |pages|
    ensures |Concat(pages[..k])| >= k
  {
    if k > 0 {
      EveryPageHasASteps(pages, k - 1);
      assert GoodPage(pages, k - 1) && pages[..k][..k - 1] == pages[..k - 1];
    }
  }

  method CheckPages(o: Outside, stepBudget: nat, pages: seq<ClaimPage>) returns (r: Answered<()>)
    requires pages != []
    ensures r.Ok? <==> PagesInOrder(o, stepBudget, pages)
  {
    hide StepsUnits, Verified, Units, WeighClaim, WeighExpr, WeighSteps;
    var count := 0;
    hide GoodPage, Describable;
    for i := 0 to |pages|
      invariant forall j :: 0 <= j < i ==> GoodPage(pages, j) && Describable(o, pages[j].claim) && o.stepsUnits(pages[j].steps).Some?
      invariant count == |Concat(pages[..i])| <= stepBudget
    {
      var fits := PreflightPage(o, pages[i].claim);
      if fits.Err? { return Err(fits.error); }
      if !GoodPage(pages, i) { return Err(InvalidPages); }
      assert pages[..i + 1][..i] == pages[..i];
      JoinedPrefix(pages, i + 1, |pages|);
      assert pages[..|pages|] == pages;
      count := count + |pages[i].steps|;
      if count > stepBudget { return Err(BudgetExhausted); }
      if o.stepsUnits(pages[i].steps).None? { return Err(LimitExceeded); }
    }
    assert pages[..|pages|] == pages;
    r := Ok(());
  }

  method PreflightPage(o: Outside, claim: ClaimRecord) returns (r: Answered<()>)
    ensures r.Ok? <==> Describable(o, claim)
  {
    r := PreflightRecord(o, claim);
  }

  /** The updates of a patch, the later of two for one name counting. */
  function Parsed(o: Outside, updates: seq<(string, string)>): Bindings {
    if updates == [] then map[]
    else
      var (name, source) := updates[|updates| - 1];
      var rest := Parsed(o, updates[..|updates| - 1]);
      if o.parse(source).Some? then rest[Plain(name) := o.parse(source).value] else rest
  }

  lemma {:induction false} PatchedIsPlain(a: Bindings, o: Outside, updates: seq<(string, string)>, removals: set<Symbol>)
    requires forall s :: s in a ==> s.identity.None?
    ensures forall s :: s in Patched(a, Parsed(o, updates), removals) ==> s.identity.None?
  {
    if updates != [] { PatchedIsPlain(a, o, updates[..|updates| - 1], removals); }
  }

  function Named(names: seq<string>): set<Symbol> {
    set n | n in names :: Plain(n)
  }

  function Names(updates: seq<(string, string)>): set<string> {
    set i | 0 <= i < |updates| :: updates[i].0
  }

  lemma {:induction false} ParsedKeys(o: Outside, updates: seq<(string, string)>)
    requires forall i :: 0 <= i < |updates| ==> o.parse(updates[i].1).Some?
    ensures forall s :: s in Parsed(o, updates) <==> s.identity.None? && s.name in Names(updates)
  {
    if updates != [] {
      var rest := updates[..|updates| - 1];
      ParsedKeys(o, rest);
      assert Names(updates) == Names(rest) + {updates[|updates| - 1].0};
    }
  }

  lemma NamedApart(parsed: Bindings, updates: seq<(string, string)>, removals: seq<string>)
    requires forall s :: s in parsed <==> s.identity.None? && s.name in Names(updates)
    ensures parsed.Keys !! Named(removals) <==> forall i :: 0 <= i < |removals| ==> removals[i] !in Names(updates)
  {
    if parsed.Keys !! Named(removals) {
      forall i | 0 <= i < |removals| ensures removals[i] !in Names(updates) {
        assert Plain(removals[i]) in Named(removals);
      }
    }
  }

  /** What acceptance asks besides a willing meter. */
  ghost predicate Acceptable(o: Outside, context: Digest, stepBudget: nat, derivations: seq<Derivation>, steps: seq<Step>, claim: ClaimRecord) {
    && claim.context == context && claim.status == Candidate && claim.derivation.None? && Describes(o, claim)
    && |derivations| < stepBudget && claim.statement.Equality?
    && var d := ProofOf(claim.statement.lhs, claim.statement.rhs);
      && Reachable(o.rules(), steps, claim.statement.lhs, claim.statement.rhs)
      && |d.steps| <= stepBudget && o.derivationUnits(d).Some?
  }

  lemma NothingLost(claims: seq<ClaimRecord>)
    ensures KeepsAccepted(claims, claims)
  {
  }

  /** A candidate for a source: it describes itself, and binds what the workspace binds of the source's free symbols. */
  ghost predicate CandidateOf(o: Outside, context: Digest, workspace: Bindings, source: string, r: ClaimRecord) {
    && r.source == source && r.status == Candidate && r.derivation.None? && r.context == context && Describes(o, r)
    && (forall b :: b in r.bindings ==> b.0 in workspace && workspace[b.0] == b.1)
    && Sides(o, source).Ok? && FreezesAll(SymbolsOf(o, Sides(o, source).value), workspace, r.bindings)
  }

  lemma NoCandidate(o: Outside, context: Digest, workspace: Bindings, source: string)
    requires Sides(o, source).Err?
    ensures forall c :: !CandidateOf(o, context, workspace, source, c)
  {
  }

  lemma CandidateIsUnique(o: Outside, context: Digest, workspace: Bindings, source: string, sides: (Expr, Expr), bindings: seq<(Symbol, Expr)>)
    requires TotalOrder(o.before) && Sides(o, source) == Ok(sides) && Canonical(o, SymbolsOf(o, sides), bindings)
    requires FreezesAll(SymbolsOf(o, sides), workspace, bindings) && forall b :: b in bindings ==> b.0 in workspace && workspace[b.0] == b.1
    ensures forall c :: CandidateOf(o, context, workspace, source, c) ==> IsCandidate(o, context, source, sides, bindings, c)
  {
    hide CandidateOf, IsCandidate, Canonical, FreezesAll, TotalOrder, Sides;
    forall c | CandidateOf(o, context, workspace, source, c) ensures IsCandidate(o, context, source, sides, bindings, c) {
      CandidateIs(o, context, workspace, source, sides, bindings, c);
    }
  }

  ghost predicate IsCandidate(o: Outside, context: Digest, source: string, sides: (Expr, Expr), bindings: seq<(Symbol, Expr)>, c: ClaimRecord) {
    && |bindings| <= MAX_CLAIM_BINDINGS && Substituted(o, sides, bindings).Ok?
    && c == ClaimRecord(source, Equality(Substituted(o, sides, bindings).value.0, Substituted(o, sides, bindings).value.1), bindings, Candidate, None, context)
    && Describes(o, c)
  }

  lemma CandidateIs(o: Outside, context: Digest, workspace: Bindings, source: string, sides: (Expr, Expr), bindings: seq<(Symbol, Expr)>, c: ClaimRecord)
    requires TotalOrder(o.before) && Sides(o, source) == Ok(sides) && Canonical(o, SymbolsOf(o, sides), bindings)
    requires FreezesAll(SymbolsOf(o, sides), workspace, bindings) && forall b :: b in bindings ==> b.0 in workspace && workspace[b.0] == b.1
    requires CandidateOf(o, context, workspace, source, c)
    ensures IsCandidate(o, context, source, sides, bindings, c)
  {
    hide Sides, Substituted, TotalOrder, Canonical, Binds, StepsUnits, Units, WeighClaim, WeighExpr;
    SameBindings(o, SymbolsOf(o, sides), workspace, c.bindings, bindings);
  }

  /** The symbols that are bound, their values and their order leave no choice. */
  lemma {:induction false} SameBindings(o: Outside, symbols: set<Symbol>, workspace: Bindings, a: seq<(Symbol, Expr)>, b: seq<(Symbol, Expr)>)
    requires TotalOrder(o.before) && Canonical(o, symbols, a) && Canonical(o, symbols, b)
    requires forall x :: x in a + b ==> x.0 in workspace && workspace[x.0] == x.1
    requires forall s :: Binds(a, s) <==> Binds(b, s)
    ensures a == b
  {
    if a == [] || b == [] {
      assert a != [] ==> Binds(a, a[0].0);
      assert b != [] ==> Binds(b, b[0].0);
    } else {
      var m, n := |a| - 1, |b| - 1;
      LastIsBound(o, symbols, a, b);
      LastIsBound(o, symbols, b, a);
      assert a[m] in a + b && b[n] in a + b;
      forall s ensures Binds(a[..m], s) <==> Binds(b[..n], s) {
        FrontBinds(o, symbols, a, s);
        FrontBinds(o, symbols, b, s);
      }
      hide Binds;
      SameBindings(o, symbols, workspace, a[..m], b[..n]);
      assert a == a[..m] + [a[m]] && b == b[..n] + [b[n]];
    }
  }

  lemma LastIsBound(o: Outside, symbols: set<Symbol>, a: seq<(Symbol, Expr)>, b: seq<(Symbol, Expr)>)
    requires TotalOrder(o.before) && Canonical(o, symbols, b) && a != [] && b != [] && Binds(b, a[|a| - 1].0)
    ensures a[|a| - 1].0 == b[|b| - 1].0 || o.before(a[|a| - 1].0, b[|b| - 1].0)
  {
    var i :| 0 <= i < |b| && b[i].0 == a[|a| - 1].0;
    if i < |b| - 1 { ClaimMeaning.OrderedAreDistinct(o, symbols, b, i, |b| - 1); }
  }

  lemma FrontBinds(o: Outside, symbols: set<Symbol>, a: seq<(Symbol, Expr)>, s: Symbol)
    requires TotalOrder(o.before) && Canonical(o, symbols, a) && a != []
    ensures Binds(a[..|a| - 1], s) <==> Binds(a, s) && s != a[|a| - 1].0
  {
    if Binds(a[..|a| - 1], s) {
      var i :| 0 <= i < |a| - 1 && a[..|a| - 1][i].0 == s;
      assert a[i].0 == s;
      ClaimMeaning.OrderedAreDistinct(o, symbols, a, i, |a| - 1);
    }
    if Binds(a, s) && s != a[|a| - 1].0 {
      var i :| 0 <= i < |a| && a[i].0 == s;
      assert a[..|a| - 1][i].0 == s;
    }
  }

  lemma MeansOf(o: Outside, r: ClaimRecord)
    requires Describes(o, r)
    ensures Means(o, r)
  {
  }

  lemma FreshIsDescribed(o: Outside, r: ClaimRecord, sides: (Expr, Expr), answer: (Expr, Expr))
    requires Sides(o, r.source) == Ok(sides) && Canonical(o, SymbolsOf(o, sides), r.bindings)
    requires Substituted(o, sides, r.bindings) == Ok(answer) && r.statement == Equality(answer.0, answer.1)
    ensures !Misdescribes(o, r)
  {
    hide Canonical, Substituted, Sides;
  }

  lemma CandidateIsConsistent(o: Outside, context: Digest, stepBudget: nat, claims: seq<ClaimRecord>, derivations: seq<Derivation>, r: ClaimRecord)
    requires Consistent(o, context, stepBudget, claims, derivations) && |claims| < stepBudget
    requires Describes(o, r) && r.context == context && r.status == Candidate && r.derivation.None?
    ensures Consistent(o, context, stepBudget, claims + [r], derivations)
  {
    assert Sound(o, context, derivations, r);
    hide Sound;
  }

  method Least(before: (Symbol, Symbol) -> bool, s: set<Symbol>) returns (m: Symbol)
    requires TotalOrder(before) && s != {}
    ensures m in s && forall t :: t in s ==> t == m || before(m, t)
  {
    m :| m in s;
    var left := s - {m};
    while left != {}
      invariant left < s && m in s && m !in left && forall t :: t in s - left ==> t == m || before(m, t)
      decreases |left|
    {
      var t :| t in left;
      left := left - {t};
      if before(t, m) { m := t; }
    }
  }

  /** The bindings of the symbols a source has free, in order. */
  method Frozen(o: Outside, symbols: set<Symbol>, workspace: map<Symbol, Expr>) returns (bindings: seq<(Symbol, Expr)>)
    requires TotalOrder(o.before)
    ensures Canonical(o, symbols, bindings)
    ensures FreezesAll(symbols, workspace, bindings)
    ensures forall b :: b in bindings ==> b.0 in workspace && workspace[b.0] == b.1
  {
    bindings := [];
    var left := symbols;
    assert Freezing(o, symbols, workspace, left, bindings);
    hide Freezing;
    while left != {}
      invariant Freezing(o, symbols, workspace, left, bindings)
      decreases |left|
    {
      var s := Least(o.before, left);
      FreezeNext(o, symbols, workspace, left, bindings, s);
      left := left - {s};
      if s in workspace { bindings := bindings + [(s, workspace[s])]; }
    }
    AllFrozen(o, symbols, workspace, bindings);
  }

  /** What is bound when the symbols in `left` are still to be looked at. */
  ghost predicate Freezing(o: Outside, symbols: set<Symbol>, workspace: map<Symbol, Expr>, left: set<Symbol>, bindings: seq<(Symbol, Expr)>) {
    && left <= symbols && Canonical(o, symbols, bindings)
    && (forall i, t :: 0 <= i < |bindings| && t in left ==> o.before(bindings[i].0, t))
    && (forall s :: s in symbols - left && s in workspace <==> Binds(bindings, s))
    && (forall b :: b in bindings ==> b.0 in workspace && workspace[b.0] == b.1)
  }

  lemma FreezeNext(o: Outside, symbols: set<Symbol>, workspace: map<Symbol, Expr>, left: set<Symbol>, bindings: seq<(Symbol, Expr)>, s: Symbol)
    requires Freezing(o, symbols, workspace, left, bindings) && s in left && forall t :: t in left ==> t == s || o.before(s, t)
    ensures Freezing(o, symbols, workspace, left - {s}, if s in workspace then bindings + [(s, workspace[s])] else bindings)
  {
    hide Canonical, Binds;
    if s in workspace {
      BindsAppend(bindings, s, workspace[s]);
      CanonicalAppend(o, symbols, bindings, s, workspace[s]);
    }
  }

  lemma AllFrozen(o: Outside, symbols: set<Symbol>, workspace: map<Symbol, Expr>, bindings: seq<(Symbol, Expr)>)
    requires Freezing(o, symbols, workspace, {}, bindings)
    ensures Canonical(o, symbols, bindings) && FreezesAll(symbols, workspace, bindings)
    ensures forall b :: b in bindings ==> b.0 in workspace && workspace[b.0] == b.1
  {
    hide Canonical, Binds;
  }

  /** Exactly the symbols that the workspace binds are bound. */
  ghost predicate FreezesAll(symbols: set<Symbol>, workspace: map<Symbol, Expr>, bindings: seq<(Symbol, Expr)>) {
    forall s :: s in symbols && s in workspace <==> Binds(bindings, s)
  }

  ghost predicate Binds(bindings: seq<(Symbol, Expr)>, s: Symbol) {
    exists i :: 0 <= i < |bindings| && bindings[i].0 == s
  }

  lemma BindsAppend(bindings: seq<(Symbol, Expr)>, s: Symbol, e: Expr)
    ensures forall t :: Binds(bindings + [(s, e)], t) <==> Binds(bindings, t) || t == s
  {
    var longer := bindings + [(s, e)];
    assert longer[|bindings|].0 == s;
    forall t ensures Binds(longer, t) <==> Binds(bindings, t) || t == s {
      if Binds(bindings, t) {
        var i :| 0 <= i < |bindings| && bindings[i].0 == t;
        assert longer[i].0 == t;
      }
    }
  }

  lemma CanonicalAppend(o: Outside, symbols: set<Symbol>, bindings: seq<(Symbol, Expr)>, s: Symbol, e: Expr)
    requires Canonical(o, symbols, bindings) && s in symbols
    requires forall i :: 0 <= i < |bindings| ==> o.before(bindings[i].0, s)
    ensures Canonical(o, symbols, bindings + [(s, e)])
  {
  }
}
