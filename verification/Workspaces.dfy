/** The named workspaces of a session, one of them active: binding, forking, patching and merging. */
module Workspaces {
  import opened Wrappers
  import opened Sequences
  import opened Exprs
  import opened Derivations
  import opened ProofKernel

  const MAX_WORKSPACE_BINDINGS: nat := 65_536
  const MAX_WORKSPACE_DERIVATIONS: nat := 4_096

  datatype WorkspaceError =
    | BranchExists
    | BranchMissing
    | MergeIntoItself
    | BindingConflict(symbol: Symbol)
    | AmbiguousBindingEdit(symbol: Symbol)
    | DerivationVerificationFailed
    | ResourceLimitExceeded
    | ReceiptSerializationFailed
    | StructuralInvariantFailure

  type Bindings = map<Symbol, Expr>

  datatype Workspace = Workspace(bindings: Bindings, derivations: seq<Derivation>)

  /** Why no receipt can be made of a merge: it is too large, holds a malformed term, or cannot be encoded. */
  datatype ReceiptFault = Oversized | Malformed | Unencodable

  function Reported(f: ReceiptFault): WorkspaceError {
    match f
    case Oversized => ResourceLimitExceeded
    case Malformed => StructuralInvariantFailure
    case Unencodable => ReceiptSerializationFailed
  }

  /** The kernel's rules, the digests of names and of values, and what is wrong with the receipt of a merge, if anything. */
  datatype MergeRules = MergeRules(
    rules: Rules,
    nameDigest: string -> Digest,
    valueDigest: Expr -> Digest,
    receiptFault: (string, Workspace, string, Workspace) -> Option<ReceiptFault>)

  // ---- patches

  /** What is left of `a` outside the removals, and what the updates bind. */
  function Patched(a: Bindings, updates: Bindings, removals: set<Symbol>): Bindings {
    (a - removals) + updates
  }

  /** An update wins over what was bound, a removed name is gone, and any other name is bound as it was. */
  lemma PatchedAt(a: Bindings, updates: Bindings, removals: set<Symbol>, s: Symbol)
    ensures s in Patched(a, updates, removals) <==> s in updates || (s in a && s !in removals)
    ensures s in updates ==> Patched(a, updates, removals)[s] == updates[s]
    ensures s in a && s !in removals && s !in updates ==> Patched(a, updates, removals)[s] == a[s]
  {
  }

  /** A patch is undone by the patch that restores what it replaced or removed and removes what it added. */
  lemma PatchIsUndone(a: Bindings, updates: Bindings, removals: set<Symbol>)
    requires updates.Keys !! removals
    ensures var restored := map s | s in a && (s in updates || s in removals) :: a[s];
      && restored.Keys !! (updates.Keys - a.Keys)
      && Patched(Patched(a, updates, removals), restored, updates.Keys - a.Keys) == a
  {
  }

  lemma PatchedSize(a: Bindings, updates: Bindings, removals: set<Symbol>)
    requires updates.Keys !! removals
    ensures |Patched(a, updates, removals)| == |a| + |updates.Keys - a.Keys| - |removals * a.Keys|
  {
    SizeOfKeys(a);
    SizeOfKeys(Patched(a, updates, removals));
    assert Patched(a, updates, removals).Keys == (a.Keys - removals) + updates.Keys;
    hide Patched;
    SizeOfEdit(a.Keys, updates.Keys, removals);
  }

  lemma SizeOfEdit(a: set<Symbol>, u: set<Symbol>, r: set<Symbol>)
    requires u !! r
    ensures |(a - r) + u| == |a| + |u - a| - |r * a|
  {
    assert (a - r) + u == (a - r) + (u - a);
    assert (a - r) * (u - a) == {};
    assert a == (a - r) + r * a && (a - r) * (r * a) == {};
  }

  lemma SizeOfKeys(m: Bindings)
    ensures |m| == |m.Keys|
  {
  }

  // ---- merges

  /** The two agree wherever both bind a name. */
  ghost predicate Mergeable(a: Bindings, b: Bindings) {
    forall s :: s in a && s in b ==> a[s] == b[s]
  }

  /** The derivations of `incoming` that are not held, each once, in order. */
  function NewOnes(held: seq<Derivation>, incoming: seq<Derivation>): seq<Derivation> {
    if incoming == [] then []
    else
      var before, last := NewOnes(held, incoming[..|incoming| - 1]), incoming[|incoming| - 1];
      if last in held || last in before then before else before + [last]
  }

  lemma {:induction false} NewOnesAreIncoming(held: seq<Derivation>, incoming: seq<Derivation>, d: Derivation)
    ensures d in held || d in NewOnes(held, incoming) <==> d in held || d in incoming
  {
    if incoming != [] {
      NewOnesAreIncoming(held, incoming[..|incoming| - 1], d);
      assert incoming == incoming[..|incoming| - 1] + [incoming[|incoming| - 1]];
    }
  }

  function Merged(a: Workspace, b: Workspace): Workspace {
    Workspace(a.bindings + b.bindings, a.derivations + NewOnes(a.derivations, b.derivations))
  }

  /** A merge binds what either side binds, each as it is bound there, and adds to what is held only what is not, in order and once. */
  lemma MergedHoldsBoth(a: Workspace, b: Workspace, s: Symbol)
    requires Mergeable(a.bindings, b.bindings)
    ensures s in Merged(a, b).bindings <==> s in a.bindings || s in b.bindings
    ensures s in a.bindings ==> Merged(a, b).bindings[s] == a.bindings[s]
    ensures s in b.bindings ==> Merged(a, b).bindings[s] == b.bindings[s]
    ensures a.derivations <= Merged(a, b).derivations
    ensures forall d :: d in Merged(a, b).derivations <==> d in a.derivations || d in b.derivations
  {
    forall d ensures d in Merged(a, b).derivations <==> d in a.derivations || d in b.derivations {
      NewOnesAreIncoming(a.derivations, b.derivations, d);
    }
  }

  lemma {:induction false} NewOnesAreOnce(held: seq<Derivation>, incoming: seq<Derivation>)
    requires Distinct(held)
    ensures Distinct(held + NewOnes(held, incoming))
  {
    if incoming != [] {
      NewOnesAreOnce(held, incoming[..|incoming| - 1]);
      var last := incoming[|incoming| - 1];
      var all := held + NewOnes(held, incoming[..|incoming| - 1]);
      assert last !in held && last !in NewOnes(held, incoming[..|incoming| - 1]) ==> held + NewOnes(held, incoming) == all + [last];
    }
  }

  /** New derivations come in the order in which they are first met. */
  lemma {:induction false} NewOnesInOrder(held: seq<Derivation>, incoming: seq<Derivation>, k: nat)
    requires k <= |incoming|
    ensures NewOnes(held, incoming[..k]) <= NewOnes(held, incoming)
  {
    if k < |incoming| {
      NewOnesInOrder(held, incoming[..|incoming| - 1], k);
      assert incoming[..|incoming| - 1][..k] == incoming[..k];
    } else {
      assert incoming[..k] == incoming;
    }
  }

  /** Merging again what was merged already changes nothing. */
  lemma MergeIsIdempotent(a: Workspace, b: Workspace)
    requires Mergeable(a.bindings, b.bindings)
    ensures Merged(Merged(a, b), b) == Merged(a, b)
  {
    NothingIsNew(Merged(a, b).derivations, b.derivations, a, b);
  }

  lemma {:induction false} NothingIsNew(held: seq<Derivation>, incoming: seq<Derivation>, a: Workspace, b: Workspace)
    requires Mergeable(a.bindings, b.bindings) && held == Merged(a, b).derivations && incoming <= b.derivations
    ensures NewOnes(held, incoming) == []
  {
    if incoming != [] {
      NothingIsNew(held, incoming[..|incoming| - 1], a, b);
      var last := incoming[|incoming| - 1];
      assert b.derivations[|incoming| - 1] == last;
      NewOnesAreIncoming(a.derivations, b.derivations, last);
    }
  }

  /** What a merge asks, but for its certificate. */
  ghost predicate Admits(o: MergeRules, target: string, a: Workspace, source: string, b: Workspace) {
    && |a.bindings| <= MAX_WORKSPACE_BINDINGS && |b.bindings| <= MAX_WORKSPACE_BINDINGS
    && |a.derivations| <= MAX_WORKSPACE_DERIVATIONS && |b.derivations| <= MAX_WORKSPACE_DERIVATIONS
    && Mergeable(a.bindings, b.bindings) && (forall d :: d in b.derivations ==> Verified(o.rules, d).Some?)
    && |Merged(a, b).bindings| <= MAX_WORKSPACE_BINDINGS && |Merged(a, b).derivations| <= MAX_WORKSPACE_DERIVATIONS
    && o.receiptFault(target, a, source, b).None?
  }

  /** Nothing is wrong with a merge but that no receipt can be made of it. */
  ghost predicate OnlyFaulty(o: MergeRules, target: string, a: Workspace, source: string, b: Workspace) {
    Admits(o.(receiptFault := (t, x, s, y) => None), target, a, source, b) && o.receiptFault(target, a, source, b).Some?
  }

  // ---- the certificate of a merge

  datatype WitnessKind = Read | Write | Absence | Predicate

  datatype Witness = Witness(symbol: Digest, kind: WitnessKind, value: Digest)

  function Zero(): Digest {
    Digest(seq(32, i => 0))
  }

  /** What is recorded of one incoming name. */
  function Observed(o: MergeRules, base: Bindings, incoming: Bindings, s: Symbol): (Witness, Witness)
    requires s in incoming
  {
    (if s in base then Witness(o.nameDigest(s.name), Read, o.valueDigest(base[s])) else Witness(o.nameDigest(s.name), Absence, Zero()),
     Witness(o.nameDigest(s.name), Write, o.valueDigest(incoming[s])))
  }

  function ContextWitness(o: MergeRules): Witness {
    Witness(o.nameDigest("<assumption-context>"), Predicate, Zero())
  }

  ghost predicate IsWitness(o: MergeRules, base: Bindings, incoming: Bindings, names: set<Symbol>, w: Witness) {
    exists s :: s in names && s in incoming && (w == Observed(o, base, incoming, s).0 || w == Observed(o, base, incoming, s).1)
  }

  method Witnesses(o: MergeRules, base: Bindings, incoming: Bindings) returns (ws: set<Witness>)
    ensures forall w :: w in ws <==> w == ContextWitness(o) || IsWitness(o, base, incoming, incoming.Keys, w)
  {
    ws := {};
    var left := incoming.Keys;
    while left != {}
      invariant left <= incoming.Keys
      invariant forall w :: w in ws <==> IsWitness(o, base, incoming, incoming.Keys - left, w)
      decreases |left|
    {
      var s :| s in left;
      var (observation, write) := Observed(o, base, incoming, s);
      NextWitness(o, base, incoming, incoming.Keys - left, s);
      assert incoming.Keys - (left - {s}) == (incoming.Keys - left) + {s};
      left := left - {s};
      ws := ws + {observation, write};
    }
    ws := ws + {ContextWitness(o)};
  }

  lemma NextWitness(o: MergeRules, base: Bindings, incoming: Bindings, names: set<Symbol>, s: Symbol)
    requires s in incoming
    ensures forall w :: IsWitness(o, base, incoming, names + {s}, w) <==>
      IsWitness(o, base, incoming, names, w) || w == Observed(o, base, incoming, s).0 || w == Observed(o, base, incoming, s).1
  {
    hide Observed;
  }

  /** The structural rules of the verifier, over a set of witnesses. */
  predicate CertificateVerifies(ws: set<Witness>) {
    && (forall w :: w in ws && w.kind == Absence ==> w.value == Zero())
    && (forall r, a :: r in ws && a in ws && r.symbol == a.symbol ==> !(r.kind == Read && a.kind == Absence))
    && (forall w :: w in ws && w.kind == Write ==> exists r :: r in ws && r.symbol == w.symbol && (r.kind == Read || r.kind == Absence))
    && (forall r, w :: r in ws && w in ws && r.symbol == w.symbol && r.kind == Read && w.kind == Write ==> r.value == w.value)
  }

  /** Names with one digest are bound alike: in the base both or neither, and to values with one digest. */
  ghost predicate NamesAgree(o: MergeRules, base: Bindings, incoming: Bindings) {
    forall s, t :: s in incoming && t in incoming && o.nameDigest(s.name) == o.nameDigest(t.name) ==> AgreeOn(o, base, incoming, s, t)
  }

  ghost predicate AgreeOn(o: MergeRules, base: Bindings, incoming: Bindings, s: Symbol, t: Symbol)
    requires s in incoming && t in incoming
  {
    (s in base <==> t in base) && (s in base ==> o.valueDigest(base[s]) == o.valueDigest(incoming[t]))
  }

  /** A merge certifies itself exactly when names with one digest are bound alike. */
  lemma CertificateVerifiesIff(o: MergeRules, base: Bindings, incoming: Bindings, ws: set<Witness>)
    requires forall w :: w in ws <==> w == ContextWitness(o) || IsWitness(o, base, incoming, incoming.Keys, w)
    ensures CertificateVerifies(ws) <==> NamesAgree(o, base, incoming)
  {
    hide Zero;
    forall s | s in incoming ensures Observed(o, base, incoming, s).0 in ws && Observed(o, base, incoming, s).1 in ws {
      assert IsWitness(o, base, incoming, incoming.Keys, Observed(o, base, incoming, s).0);
      assert IsWitness(o, base, incoming, incoming.Keys, Observed(o, base, incoming, s).1);
    }
    if CertificateVerifies(ws) {
      forall s, t | s in incoming && t in incoming && o.nameDigest(s.name) == o.nameDigest(t.name) ensures AgreeOn(o, base, incoming, s, t) {
        assert Observed(o, base, incoming, s).0 in ws && Observed(o, base, incoming, t).0 in ws && Observed(o, base, incoming, t).1 in ws;
      }
    }
    if NamesAgree(o, base, incoming) {
      WitnessesOfNames(o, base, incoming, ws);
    }
  }

  lemma WitnessesOfNames(o: MergeRules, base: Bindings, incoming: Bindings, ws: set<Witness>)
    requires forall w :: w in ws <==> w == ContextWitness(o) || IsWitness(o, base, incoming, incoming.Keys, w)
    requires NamesAgree(o, base, incoming)
    ensures CertificateVerifies(ws)
  {
    hide Zero;
    forall r, a | r in ws && a in ws && r.symbol == a.symbol && r.kind == Read ensures a.kind != Absence && (a.kind == Write ==> r.value == a.value) {
      var s :| s in incoming && (r == Observed(o, base, incoming, s).0 || r == Observed(o, base, incoming, s).1);
      if a.kind != Predicate {
        var t :| t in incoming && (a == Observed(o, base, incoming, t).0 || a == Observed(o, base, incoming, t).1);
        assert AgreeOn(o, base, incoming, s, t);
      }
    }
    forall w | w in ws && w.kind == Write ensures exists r :: r in ws && r.symbol == w.symbol && (r.kind == Read || r.kind == Absence) {
      var s :| s in incoming && (w == Observed(o, base, incoming, s).0 || w == Observed(o, base, incoming, s).1);
      assert IsWitness(o, base, incoming, incoming.Keys, Observed(o, base, incoming, s).0);
    }
  }

  /** Only plain names are bound, and only verified derivations held. */
  ghost predicate Ordinary(o: MergeRules, w: Workspace) {
    (forall s :: s in w.bindings ==> s.identity.None?) && forall d :: d in w.derivations ==> Verified(o.rules, d).Some?
  }

  /** Different names have different digests. */
  ghost predicate Apart(digest: string -> Digest) {
    forall a, b :: digest(a) == digest(b) ==> a == b
  }

  /** Plain names never fail the certificate. */
  lemma PlainNamesAgree(o: MergeRules, a: Workspace, b: Workspace)
    requires Ordinary(o, a) && Ordinary(o, b) && Apart(o.nameDigest) && Mergeable(a.bindings, b.bindings)
    ensures NamesAgree(o, a.bindings, b.bindings)
  {
    forall s, t | s in b.bindings && t in b.bindings && o.nameDigest(s.name) == o.nameDigest(t.name) ensures AgreeOn(o, a.bindings, b.bindings, s, t) {
      assert s.name == t.name && s == t;
    }
  }

  lemma MergedIsOrdinary(o: MergeRules, a: Workspace, b: Workspace)
    requires Ordinary(o, a) && Ordinary(o, b)
    ensures Ordinary(o, Merged(a, b))
  {
    hide Verified;
    forall d | d in Merged(a, b).derivations ensures Verified(o.rules, d).Some? { NewOnesAreIncoming(a.derivations, b.derivations, d); }
  }

  /** A name in two identities, one of them new, has two witnesses that exclude each other: an admitted merge whose certificate fails. */
  lemma IdentitiesDisagree(o: MergeRules, target: string, source: string, name: string, identity: seq<int>, e: Expr)
    requires var a, b := OneIdentity(name, e), TwoIdentities(name, identity, e); o.receiptFault(target, a, source, b).None?
    ensures var a, b := OneIdentity(name, e), TwoIdentities(name, identity, e);
      Admits(o, target, a, source, b) && !NamesAgree(o, a.bindings, b.bindings)
  {
    var a, b := OneIdentity(name, e), TwoIdentities(name, identity, e);
    var plain, typed := Plain(name), Symbol(name, Some(identity));
    assert !AgreeOn(o, a.bindings, b.bindings, plain, typed);
    hide Verified;
    SizeOfKeys(a.bindings);
    SizeOfKeys(b.bindings);
    SizeOfKeys(Merged(a, b).bindings);
    assert a.bindings.Keys == {plain} && b.bindings.Keys == {plain, typed} == Merged(a, b).bindings.Keys;
  }

  function OneIdentity(name: string, e: Expr): Workspace {
    Workspace(map[Plain(name) := e], [])
  }

  function TwoIdentities(name: string, identity: seq<int>, e: Expr): Workspace {
    Workspace(map[Plain(name) := e, Symbol(name, Some(identity)) := e], [])
  }

  // ---- the object

  class Branches {
    const rules: MergeRules
    var active: string
    var current: Workspace
    var stored: map<string, Workspace>

    ghost predicate Valid()
      reads this
    {
      active in stored && stored[active] == current
    }

    constructor (rules: MergeRules)
      ensures Valid() && current == Workspace(map[], []) && active == "session" && stored == map["session" := current] && this.rules == rules
    {
      this.rules, active, current := rules, "session", Workspace(map[], []);
      stored := map["session" := Workspace(map[], [])];
    }

    method Sync()
      modifies this`stored
      ensures stored == old(stored)[active := current]
    {
      stored := stored[active := current];
    }

    method Bind(symbol: Symbol, e: Expr)
      requires Valid()
      modifies this`current, this`stored
      ensures Valid() && current == old(current).(bindings := old(current).bindings[symbol := e]) && stored == old(stored)[active := current]
    {
      current := current.(bindings := current.bindings[symbol := e]);
      Sync();
    }

    /** A derivation is kept once. */
    method Keep(d: Derivation)
      requires Valid()
      modifies this`current, this`stored
      ensures Valid() && stored == old(stored)[active := current]
      ensures current == old(current).(derivations := if d in old(current).derivations then old(current).derivations else old(current).derivations + [d])
    {
      if d !in current.derivations {
        current := current.(derivations := current.derivations + [d]);
        Sync();
      }
    }

    /** A new branch starts as the active one and becomes active. */
    method Fork(name: string) returns (r: Result<string, WorkspaceError>)
      requires Valid()
      modifies this
      ensures Valid() && current == old(current)
      ensures r.Ok? <==> name !in old(stored)
      ensures r.Ok? ==> r.value == active == name && stored == old(stored)[name := current]
      ensures r.Err? ==> active == old(active) && stored == old(stored)
    {
      Sync();
      if name in stored { return Err(BranchExists); }
      stored := stored[name := current];
      active := name;
      r := Ok(name);
    }

    /** Checking a branch out finds it as it was left, and leaves every branch as it is. */
    method Checkout(name: string) returns (r: Result<string, WorkspaceError>)
      requires Valid()
      modifies this
      ensures Valid() && stored == old(stored)
      ensures r.Ok? <==> name in stored
      ensures r.Ok? ==> r.value == active == name && current == stored[name]
      ensures r.Err? ==> active == old(active) && current == old(current)
    {
      Sync();
      if name !in stored { return Err(BranchMissing); }
      active, current := name, stored[name];
      r := Ok(name);
    }

    /** A patch is applied whole, to the active branch alone, or not at all. */
    method ApplyPatch(updates: Bindings, removals: set<Symbol>) returns (r: Result<nat, WorkspaceError>)
      requires Valid()
      modifies this`current, this`stored
      ensures Valid() && stored == old(stored)[active := current]
      ensures r.Ok? <==> updates.Keys !! removals && |Patched(old(current).bindings, updates, removals)| <= MAX_WORKSPACE_BINDINGS
      ensures r.Ok? ==> current == old(current).(bindings := Patched(old(current).bindings, updates, removals)) && r.value == |current.bindings|
      ensures r.Err? ==> current == old(current)
    {
      if s :| s in removals && s in updates { return Err(AmbiguousBindingEdit(s)); }
      var before := current.bindings;
      PatchedSize(before, updates, removals);
      if |before| + |updates.Keys - before.Keys| - |removals * before.Keys| > MAX_WORKSPACE_BINDINGS { return Err(ResourceLimitExceeded); }
      current := current.(bindings := Patched(before, updates, removals));
      Sync();
      r := Ok(|current.bindings|);
    }

    /** Every incoming derivation is verified again, and the new ones are collected. */
    method Import(incoming: seq<Derivation>) returns (r: Result<seq<Derivation>, WorkspaceError>)
      ensures r.Ok? <==> forall d :: d in incoming ==> Verified(rules.rules, d).Some?
      ensures r.Ok? ==> r.value == NewOnes(current.derivations, incoming)
      ensures r.Err? ==> r.error == DerivationVerificationFailed
    {
      hide Verified;
      var collected := [];
      for i := 0 to |incoming|
        invariant collected == NewOnes(current.derivations, incoming[..i])
        invariant forall d :: d in incoming[..i] ==> Verified(rules.rules, d).Some?
      {
        var d := incoming[i];
        assert incoming[..i + 1][..i] == incoming[..i] && d in incoming;
        var conclusion := Verify(rules.rules, d);
        if conclusion.None? { return Err(DerivationVerificationFailed); }
        if d !in current.derivations && d !in collected { collected := collected + [d]; }
      }
      assert incoming[..|incoming|] == incoming;
      r := Ok(collected);
    }

    /** Another branch whose merge into the active one is admitted. */
    ghost predicate Admitted(source: string, current: Workspace, stored: map<string, Workspace>)
      reads this`active
    {
      source in stored && source != active && Admits(rules, active, current, source, stored[source])
    }

    /**
      Merging another branch: where it is admitted, the active workspace becomes the merged one, and
      only then is the certificate of the merge verified. One that fails leaves the active workspace
      merged and its branch as it was.
     */
    method Merge(source: string) returns (r: Result<(), WorkspaceError>)
      requires Valid()
      modifies this`current, this`stored
      ensures r.Ok? <==> Admitted(source, old(current), old(stored)) && NamesAgree(rules, old(current).bindings, old(stored)[source].bindings)
      ensures r.Ok? ==> current == Merged(old(current), old(stored)[source]) && stored == old(stored)[active := current]
      ensures if Admitted(source, old(current), old(stored)) && r.Err?
              then r == Err(StructuralInvariantFailure) && current == Merged(old(current), old(stored)[source]) && stored == old(stored)
              else r.Ok? || (current == old(current) && stored == old(stored))
      ensures r == Err(DerivationVerificationFailed) ==>
                source in old(stored) && exists d :: d in old(stored)[source].derivations && Verified(rules.rules, d).None?
      ensures r == Err(StructuralInvariantFailure) && !Admitted(source, old(current), old(stored)) ==>
                source in old(stored) && rules.receiptFault(active, old(current), source, old(stored)[source]) == Some(Malformed)
      ensures source in old(stored) && source != active && OnlyFaulty(rules, active, old(current), source, old(stored)[source]) ==>
        (var fault := rules.receiptFault(active, old(current), source, old(stored)[source]).value;
         r == Err(if fault.Malformed? then StructuralInvariantFailure else if fault.Oversized? then ResourceLimitExceeded else ReceiptSerializationFailed))
      ensures !Admitted(source, old(current), old(stored)) || r.Ok? ==> Valid()
    {
      hide Verified, NamesAgree;
      Sync();
      if source == active { return Err(MergeIntoItself); }
      if source !in stored { return Err(BranchMissing); }
      var incoming := stored[source];
      var witnesses := Witnesses(rules, current.bindings, incoming.bindings);
      CertificateVerifiesIff(rules, current.bindings, incoming.bindings, witnesses);
      if |current.bindings| > MAX_WORKSPACE_BINDINGS || |incoming.bindings| > MAX_WORKSPACE_BINDINGS
         || |current.derivations| > MAX_WORKSPACE_DERIVATIONS || |incoming.derivations| > MAX_WORKSPACE_DERIVATIONS {
        return Err(ResourceLimitExceeded);
      }
      if s :| s in incoming.bindings && s in current.bindings && current.bindings[s] != incoming.bindings[s] { return Err(BindingConflict(s)); }
      var imported := Import(incoming.derivations);
      if imported.Err? { return Err(imported.error); }
      var merged := Workspace(current.bindings + incoming.bindings, current.derivations + imported.value);
      if |merged.bindings| > MAX_WORKSPACE_BINDINGS || |merged.derivations| > MAX_WORKSPACE_DERIVATIONS {
        return Err(ResourceLimitExceeded);
      }
      var fault := rules.receiptFault(active, current, source, incoming);
      if fault.Some? { return Err(Reported(fault.value)); }
      current := merged;
      if !CertificateVerifies(witnesses) { return Err(StructuralInvariantFailure); }
      Sync();
      r := Ok(());
    }
  }
}
