/** Whole conversations with a session. */
module SessionRuns {
  import opened Wrappers
  import opened Exprs
  import opened ClaimRecords
  import opened Derivations
  import opened ProofKernel
  import opened Workspaces
  import opened ClaimSession

  /** `Compute` stands for every request that only computes: differentiation, evaluation, solving and the like. */
  datatype Request =
    | Bind(name: string, source: string)
    | Compute(source: string, variable: Option<string>)
    | Candidate(source: string)
    | Verify(claim: ClaimRecord)
    | Prove(lhs: string, rhs: string)
    | Export(claim: ClaimRecord, page: nat, pageSize: nat)
    | Replay(pages: seq<ClaimPage>)
    | Fork(name: string)
    | Checkout(name: string)
    | ApplyPatch(updates: seq<(string, string)>, removals: seq<string>)
    | Merge(source: string)

  datatype Response =
    | Refusal(error: SessionError)
    | Expression(value: Expr)
    | Record(record: ClaimRecord)
    | OnePage(page: ClaimPage)
    | Replayed(digest: Digest)
    | Branch(name: string)
    | Count(bindings: nat)

  /** What a response promises for as long as the session lives. */
  ghost predicate Lasting(claims: seq<ClaimRecord>, r: Response) {
    match r
    case Record(record) => record.status == Accepted ==> record in claims
    case OnePage(page) => page.claim.status == Accepted && page.claim in claims
    case _ => true
  }

  lemma LastingStays(claims: seq<ClaimRecord>, claims': seq<ClaimRecord>, r: Response)
    requires Lasting(claims, r) && KeepsAccepted(claims, claims')
    ensures Lasting(claims', r)
  {
  }

  ghost predicate AllBacked(o: Outside, context: Digest, claims: seq<ClaimRecord>, derivations: seq<Derivation>) {
    forall c :: c in claims && c.status == Accepted ==> c.context == context && Backed(o, derivations, c)
  }

  /** A branch that is not active stays as it is, and stays inactive, until it is checked out. */
  ghost predicate Isolated(active: string, stored: map<string, Workspace>, active': string, stored': map<string, Workspace>, b: string) {
    b in stored && b != active ==> b in stored' && stored'[b] == stored[b] && b != active'
  }

  // ---- what each request does

  /** All that a request can change of a session, but for the kernel's own record. */
  datatype Snapshot = Snapshot(claims: seq<ClaimRecord>, derivations: seq<Derivation>, active: string, current: Workspace, stored: map<string, Workspace>)

  ghost function Now(session: Session): Snapshot
    reads session, session.workspaces
  {
    Snapshot(session.claims, session.derivations, session.workspaces.active, session.workspaces.current, session.workspaces.stored)
  }

  /** The active workspace is replaced, here and where it is stored. */
  ghost predicate Rebinds(before: Snapshot, after: Snapshot, bindings: Bindings) {
    var current := before.current.(bindings := bindings);
    after == before.(current := current, stored := before.stored[before.active := current])
  }

  /** One request and its response; a refusal changes nothing. */
  ghost predicate Answers(o: Outside, context: Digest, before: Snapshot, request: Request, after: Snapshot, r: Response) {
    && (r.Refusal? && !request.Prove? ==> after == before)
    && match request
       case Bind(name, source) =>
         && (r.Refusal? <==> !o.GoodName(name) || !Readable(o, source))
         && (!r.Refusal? ==> r == Expression(o.parse(source).value) && Rebinds(before, after, before.current.bindings[Plain(name) := o.parse(source).value]))
       case Compute(source, variable) =>
         && (r.Refusal? <==> !Readable(o, source) || (variable.Some? && !o.GoodName(variable.value)))
         && (!r.Refusal? ==> r == Expression(o.parse(source).value) && after == before)
       case Candidate(source) =>
         !r.Refusal? ==> r.Record? && CandidateOf(o, context, before.current.bindings, source, r.record) && after == before.(claims := before.claims + [r.record])
       case Verify(claim) => Verifies(o, context, before, claim, after, r)
       case Prove(lhs, rhs) => Proves(o, context, before, lhs + " = " + rhs, after, r)
       case Export(claim, page, pageSize) =>
         && after == before
         && var p := Exported(o, before.claims, before.derivations, claim, page, pageSize);
           r == if p.Ok? then OnePage(p.value) else Refusal(p.error)
       case Replay(pages) =>
         after == before && (!r.Refusal? ==> r.Replayed? && pages != [] && pages[0].claim.derivation == Some(r.digest))
       case Fork(name) =>
         && (r.Refusal? <==> !o.GoodName(name) || name in before.stored)
         && (!r.Refusal? ==> r == Branch(name) && after == before.(active := name, stored := before.stored[name := before.current]))
       case Checkout(name) =>
         && (r.Refusal? <==> name !in before.stored)
         && (!r.Refusal? ==> r == Branch(name) && name in before.stored && after == before.(active := name, current := before.stored[name]))
       case ApplyPatch(updates, removals) =>
         !r.Refusal? ==> r == Count(|after.current.bindings|) && Rebinds(before, after, Patched(before.current.bindings, Parsed(o, updates), Named(removals)))
       case Merge(source) =>
         && (r.Refusal? <==> !(source in before.stored && source != before.active && Admits(o.merges, before.active, before.current, source, before.stored[source])))
         && (!r.Refusal? ==> r == Count(|after.current.bindings|) && after.current == Merged(before.current, before.stored[source])
                             && after == before.(current := after.current, stored := before.stored[before.active := after.current]))
  }

  /** An accepted claim takes the place of its candidate, and its derivation is kept. */
  ghost predicate Verifies(o: Outside, context: Digest, before: Snapshot, claim: ClaimRecord, after: Snapshot, r: Response) {
    if r.Refusal? then after == before
    else
      && r.Record? && claim.context == context && claim.status.Candidate? && Describes(o, claim) && claim.statement.Equality?
      && var d := ProofOf(claim.statement.lhs, claim.statement.rhs);
        && o.verify(d) == Some(claim.statement) && r.record == Acceptance(o, claim, d)
        && after.claims == Replaced(before.claims, claim, r.record) && after.derivations == before.derivations + [d]
        && after.active == before.active && after.current.bindings == before.current.bindings && d in after.current.derivations
        && after.stored == before.stored[before.active := after.current]
  }

  /** A candidate made and verified at once; a refused one stays a candidate. */
  ghost predicate Proves(o: Outside, context: Digest, before: Snapshot, source: string, after: Snapshot, r: Response) {
    || (r.Refusal? && after == before)
    || exists c :: CandidateOf(o, context, before.current.bindings, source, c) && Verifies(o, context, before.(claims := before.claims + [c]), c, after, r)
  }

  method Handle(session: Session, request: Request) returns (r: Response)
    requires session.Valid()
    modifies session, session.workspaces, session.kernel, session.meter
    ensures session.Valid() && KeepsAccepted(old(session.claims), session.claims)
    ensures Lasting(session.claims, r)
    ensures Answers(session.outside, session.context, old(Now(session)), request, Now(session), r)
    ensures forall b :: request != Checkout(b) ==>
      Isolated(old(session.workspaces.active), old(session.workspaces.stored), session.workspaces.active, session.workspaces.stored, b)
  {
    NothingLost(session.claims);
    hide Answers;
    if request.Bind? || request.Fork? || request.Checkout? || request.ApplyPatch? || request.Merge? {
      r := HandleWorkspace(session, request);
    } else {
      r := HandleClaim(session, request);
    }
  }

  lemma StoredAreActive(session: Session)
    requires session.Valid()
    ensures session.workspaces.active in session.workspaces.stored && session.workspaces.stored[session.workspaces.active] == session.workspaces.current
  {
  }

  /** Claims and derivations are not touched by what changes the workspaces. */
  method HandleWorkspace(session: Session, request: Request) returns (r: Response)
    requires session.Valid() && (request.Bind? || request.Fork? || request.Checkout? || request.ApplyPatch? || request.Merge?)
    modifies session.workspaces
    ensures session.Valid() && Lasting(session.claims, r)
    ensures Answers(session.outside, session.context, old(Now(session)), request, Now(session), r)
    ensures forall b :: request != Checkout(b) ==>
      Isolated(old(session.workspaces.active), old(session.workspaces.stored), session.workspaces.active, session.workspaces.stored, b)
  {
    hide session.Valid, AllCheck, Patched, Mergeable, Parsed, Named, Admits, Merged;
    StoredAreActive(session);
    match request {
      case Bind(name, source) =>
        var a := session.Construct(name, source);
        r := if a.Ok? then Expression(a.value) else Refusal(a.error);
      case Fork(name) =>
        var a := session.Fork(name);
        r := if a.Ok? then Branch(a.value) else Refusal(a.error);
      case Checkout(name) =>
        var a := session.Checkout(name);
        StoredAreActive(session);
        r := if a.Ok? then Branch(a.value) else Refusal(a.error);
      case ApplyPatch(updates, removals) =>
        var a := session.ApplyPatch(updates, removals);
        r := if a.Ok? then Count(a.value) else Refusal(a.error);
      case Merge(source) =>
        var a := session.Merge(source);
        r := if a.Ok? then Count(|session.workspaces.current.bindings|) else Refusal(a.error);
    }
  }

  /** Only the derivations of the active workspace are touched by what makes, verifies, exports or replays claims. */
  method HandleClaim(session: Session, request: Request) returns (r: Response)
    requires session.Valid() && !request.Bind? && !request.Fork? && !request.Checkout? && !request.ApplyPatch? && !request.Merge?
    modifies session, session.workspaces, session.kernel, session.meter
    ensures session.Valid() && KeepsAccepted(old(session.claims), session.claims)
    ensures Lasting(session.claims, r)
    ensures Answers(session.outside, session.context, old(Now(session)), request, Now(session), r)
    ensures session.workspaces.active == old(session.workspaces.active)
    ensures session.workspaces.stored == old(session.workspaces.stored)[session.workspaces.active := session.workspaces.current]
  {
    hide session.Valid, Find, Describes, Acceptable, AllCheck, Replaced, Sides, ProofOf, Verified, Readable;
    StoredAreActive(session);
    match request {
      case Compute(source, variable) =>
        var a := session.Admit(source, variable);
        r := if a.Ok? then Expression(a.value) else Refusal(a.error);
      case Candidate(source) =>
        var a := session.ConstructClaim(source);
        r := if a.Ok? then Record(a.value) else Refusal(a.error);
      case Verify(claim) =>
        var a := session.VerifyClaim(claim);
        r := if a.Ok? then Record(a.value) else Refusal(a.error);
      case Prove(lhs, rhs) =>
        r := HandleProve(session, lhs, rhs);
      case Export(claim, page, pageSize) =>
        var a := session.ExportClaim(claim, page, pageSize);
        r := if a.Ok? then OnePage(a.value) else Refusal(a.error);
      case Replay(pages) =>
        var a := session.ReplayPages(pages);
        r := if a.Ok? then Replayed(a.value) else Refusal(a.error);
    }
  }

  /** A candidate made and verified at once. */
  method HandleProve(session: Session, lhs: string, rhs: string) returns (r: Response)
    requires session.Valid()
    modifies session, session.workspaces, session.kernel, session.meter
    ensures session.Valid() && KeepsAccepted(old(session.claims), session.claims)
    ensures Lasting(session.claims, r)
    ensures Proves(session.outside, session.context, old(Now(session)), lhs + " = " + rhs, Now(session), r)
    ensures session.workspaces.active == old(session.workspaces.active)
    ensures session.workspaces.stored == old(session.workspaces.stored)[session.workspaces.active := session.workspaces.current]
  {
    hide Consistent, Find, Describes, Acceptable, TotalOrder, AllCheck, Replaced, Sides, ProofOf, CandidateOf, Verified;
    var candidate := session.ConstructClaim(lhs + " = " + rhs);
    if candidate.Err? { return Refusal(candidate.error); }
    var a := session.VerifyClaim(candidate.value);
    r := if a.Ok? then Record(a.value) else Refusal(a.error);
  }

  /** The session's states, from first to last: each is what the request before it leaves of the one before. */
  ghost predicate Runs(o: Outside, context: Digest, states: seq<Snapshot>, requests: seq<Request>, responses: seq<Response>) {
    && |states| == |requests| + 1 == |responses| + 1
    && forall i :: 0 <= i < |requests| ==> Answers(o, context, states[i], requests[i], states[i + 1], responses[i])
  }

  lemma RunsOn(o: Outside, context: Digest, states: seq<Snapshot>, requests: seq<Request>, responses: seq<Response>, k: nat, state: Snapshot, r: Response)
    requires k < |requests| && Runs(o, context, states, requests[..k], responses) && Answers(o, context, states[k], requests[k], state, r)
    ensures Runs(o, context, states + [state], requests[..k + 1], responses + [r])
  {
    hide Answers;
  }

  /**
    Any conversation with a session: every request is answered from the state that the one before
    it left. In the end every record ever answered as accepted is still held, every held accepted
    record is backed by a derivation that the independent verifier finds to conclude its statement,
    and so is every claim of which a page was given out. A branch that was inactive and never
    checked out binds what it bound.
   */
  method Converse(session: Session, requests: seq<Request>) returns (responses: seq<Response>, ghost states: seq<Snapshot>)
    requires session.Valid()
    modifies session, session.workspaces, session.kernel, session.meter
    ensures session.Valid() && |responses| == |requests|
    ensures Runs(session.outside, session.context, states, requests, responses) && states[0] == old(Now(session)) && states[|requests|] == Now(session)
    ensures forall i :: 0 <= i < |responses| ==> Lasting(session.claims, responses[i])
    ensures AllBacked(session.outside, session.context, session.claims, session.derivations)
    ensures forall b :: Checkout(b) !in requests ==>
      Isolated(old(session.workspaces.active), old(session.workspaces.stored), session.workspaces.active, session.workspaces.stored, b)
  {
    hide session.Valid, Lasting, KeepsAccepted, AllBacked, Answers;
    responses := [];
    states := [Now(session)];
    for k := 0 to |requests|
      invariant session.Valid() && |responses| == k
      invariant Runs(session.outside, session.context, states, requests[..k], responses) && states[0] == old(Now(session)) && states[k] == Now(session)
      invariant forall i :: 0 <= i < k ==> Lasting(session.claims, responses[i])
      invariant forall b :: Checkout(b) !in requests ==>
        Isolated(old(session.workspaces.active), old(session.workspaces.stored), session.workspaces.active, session.workspaces.stored, b)
    {
      ghost var before := session.claims;
      var r := Handle(session, requests[k]);
      forall i | 0 <= i < k ensures Lasting(session.claims, responses[i]) {
        LastingStays(before, session.claims, responses[i]);
      }
      RunsOn(session.outside, session.context, states, requests, responses, k, Now(session), r);
      responses, states := responses + [r], states + [Now(session)];
    }
    assert requests[..|requests|] == requests;
    AcceptedAreBacked(session);
  }

  lemma AcceptedAreBacked(session: Session)
    requires session.Valid()
    ensures AllBacked(session.outside, session.context, session.claims, session.derivations)
  {
    forall c | c in session.claims && c.status == Accepted
      ensures c.context == session.context && Backed(session.outside, session.derivations, c)
    {
      var i :| 0 <= i < |session.claims| && session.claims[i] == c;
      assert Sound(session.outside, session.context, session.derivations, session.claims[i]);
    }
  }
}
