# FrankenSymPy: a Dafny model of its binding, domain, quadrature, session and tooling cores

This project models the parts of FrankenSymPy in which a wrong branch would silently produce a
wrong result, and proves what each of them is for. `dafny verify dfyconfig.toml` checks all of it.

- **Names** (`Exprs`, `Binders`, `DeBruijn`, `Symbols`, `BinderForms`, `Traversals`, `Freshening`,
  `Substitution*`, `CaptureAvoidance`, `CaptureExactness`, `AlphaEquivalence`). Expressions with
  Lambda, Integral and Derivative, multi-parameter signatures read one parameter at a time;
  conversion to De Bruijn form with an explicit scope stack; free and declared symbols; fresh names; alpha-equivalence; and
  capture-avoiding substitution, which answers or refuses. The central theorem is that an answer of
  named substitution with freshening is substitution on De Bruijn terms, and `CaptureExactness`
  says, with no hypothesis, for which inputs that is so.
- **Domains and numbers** (`Domains`, `CoercionOrder`, `DomainInference`, `NumberTheory`,
  `Primality`). Coercion between nested domains and exactly when coercions compose, common
  superdomains, structural inference, and the strong probable-prime test on 64-bit words with
  128-bit products, from Fermat's little theorem up.
- **Quadrature** (`Balls`, `Quadrature`, `Integration`, `Bisection`). Exact ball arithmetic with outward
  rounding, the enclosure of one cell, the stack machine that bisects adaptively, and the checker
  that accepts any partition which deserves it. The stack machine is proved to be plain recursive
  bisection with a limit.
- **The session** (`ClaimRecords`, `ClaimMeaning`, `ClaimPages`, `BoundedSubstitution`,
  `ClaimSubstitution`, `ExportPreflight`, `Derivations`, `DerivationLimits`, `DerivationWeights`,
  `ProofKernel`, `KernelCompleteness`, `KernelLimits`, `KernelSoundness`, `Workspaces`, `ClaimSession`,
  `SessionRuns`). Candidates and what they state, the kernel's proofs, exactly which equations have
  one, and what it exports of them, the limits on both, independent verification, paginated export, replay, branches of the workspace and
  their merges, and whole conversations.
- **The line protocol** (`Framing`). Frames read from an arbitrarily chunked byte stream, and the
  loop that answers them.
- **Dependency graphs** (`Graphs`, `Workstreams`, `CycleReport`). Kahn's sort and the
  three-colour depth-first search over the same kind of graph.
- **The ledger** (`Ledger`, `LedgerRules`, `LedgerRecovery`, `LedgerFiles`). Validate, then publish; stopped after
  any write and run again.

Code that changes state step by step is modelled by classes and loops and proved against
specification functions; code made of expressions is modelled by functions. What the repository
calls but does not decide here enters as a parameter: the parser, the rules of the proof kernel that
rest on no other step (context queries, reductions, certificates, the comparison of polynomial
normal forms), the digest (deterministic), the budget meters (a refusal at any charge), interval
evaluation, the JSON forms and their sizes. `Sequences`, `JsonText` and `Wrappers` hold what several
modules share.

## Where code and documentation disagree

The model follows the code.

- `common_domain` is documented as the least common superdomain
  (`crates/fsym-assumptions/src/domain.rs:526`). It is always an upper bound, and on flat domains it
  is least exactly under the condition of `Domains.CommonDomainLeastIff`: it is not when one side is
  a field of fractions that is not comparable with the other side of the same characteristic.
- Free symbols leave out the variable of a `Derivative`, while conversion and substitution use it.
  Where a derivative's variable is not free in its body, substitution can miss it or capture it:
  `CaptureAvoidance.HiddenVariableIsMissed` and `HiddenVariableIsCaptured` are concrete inputs, and
  `HiddenVariableIsRefused` is one that it refuses without need. No free symbol is affected
  (`FreeSymbolLaw`), and when it refuses is known for every input (`AnswersExactly`); the laws of
  `CaptureAvoidance` on De Bruijn forms ask that derivatives differentiate by a symbol free in the
  body (`DerivativesBite`). Exactly when an answer is right is
  `CaptureExactness.FaithfulIffSound`, for every input: where a body is left alone the target must
  not occur in it, where it is entered under a declared name the replacement must not mention that
  name, and where that name is renamed first none of its occurrences may be hidden.
  `CaptureExactness.FaithfulIffClear` says it without following renamings when no free symbol of the
  replacement is written in the source, and `CaptureExactness.FaithfulIffVisible` when the
  replacement mentions none at all.
- A coercion path is documented to be "direct or multi-step"
  (`crates/fsym-assumptions/src/domain.rs:288`), but there are coercions in two steps with none in
  one. `CoercionOrder.CompositionIff` says exactly into which targets coercions compose. They do into
  all flat domains and all nested polynomial rings over a number domain or a finite field; they need
  not into layers over fields of fractions or over the catch-all, or into fractions over a ring of
  integers.
- A derivation is documented as one "that can be independently re-verified"
  (`crates/fsym-proof-kernel/src/kernel.rs:76`), but the kernel asks its limits of each step alone and
  the verifier of all steps together (`kernel.rs:166-188` and `kernel.rs:425`). An export is verified
  if and only if the steps it rests on are within the limits together
  (`ProofKernel.ExportVerifiesIff`). `KernelLimits.ProvedButNotVerified` is an equation that every
  kernel with room proves and no verifier accepts; `KernelLimits.ReflexiveLimits` and
  `KernelLimits.NormalFormLimits` say which proofs of the session are so.
- The warning about an incomplete order (`tools/verify_cross_cutting.py:127-128`) is never due: the
  order always lists every id (`CycleReport.Validate`).
- Publication does not measure what it writes. A record over the size limit, or an index over its
  limits, is published and then stands in the way of every later run.
  `LedgerRecovery.CrashRecovery` states when a stopped run can be completed, exactly, and
  `LedgerRecovery.OverlongRecordBlocksRerun` that an over-long record blocks every later run of a
  batch that holds it. `LedgerRecovery.IndentedRecordBlocksRerun` is one that fits its input line:
  indentation makes a million characters a hundred million.

The exactness of a coercion receipt promises nothing about its target: `Domains.ReceiptIsExactIff`
states when a receipt is exact, and `Domains.ExactReceiptsIntoInexactTargets` gives exact receipts
into inexact targets, from an exact source and from an inexact one.

A merge changes the active workspace before its certificate is verified
(`crates/fsym-runtime/src/workspace.rs:560` and `workspace.rs:592`), so one whose certificate fails is
not undone. It fails exactly when incoming names with one digest are bound unlike each other
(`Workspaces.CertificateVerifiesIff`), as two identities of one name can be
(`Workspaces.IdentitiesDisagree`); the names of a session are plain, and there it never fails
(`ClaimSession.Session.Merge`).

## Model

| member | source | states |
|---|---|---|
| Binders.TryParseLambda | crates/fsym-assumptions/src/bindings.rs:262-343 | Every signature that is read as a Lambda leaves a body smaller, by node count, than the arguments it was read from, so reading one parameter at a time terminates although it rebuilds Tuples |
| Binders.BinderRoundTrip | crates/fsym-assumptions/src/bindings.rs:94-166 | Writing any binder as an expression and reading it back gives the same binder |
| BinderForms.SignatureIff | crates/fsym-assumptions/src/bindings.rs:262-343 | A Lambda is read if and only if its arguments are distinct symbols and a body, or one Tuple of distinct symbols and a body; every other argument list is opaque |
| BinderForms.NestedAbstracts | crates/fsym-assumptions/src/bindings.rs:373-469 | Lambdas of one parameter each abstract their parameters, first outermost, under every scope, and their free symbols are those of the body without them |
| BinderForms.FlatAbstracts | crates/fsym-assumptions/src/bindings.rs:312-335 | A Lambda of several arguments is those Lambdas nested: same De Bruijn form under every scope, same free symbols |
| BinderForms.TupledAbstracts | crates/fsym-assumptions/src/bindings.rs:278-311 | So is a Lambda whose parameters are in a Tuple |
| BinderForms.SpellingsAgree | crates/fsym-assumptions/src/bindings.rs:1568-1592 | The three spellings of one function are alpha-equivalent under every scope |
| BinderForms.PlainFunctions | crates/fsym-assumptions/src/bindings.rs:126-166 | A function whose arguments make it no binder is converted argument by argument, and has the free symbols of its arguments |
| BinderForms.DefiniteIntegralForm | crates/fsym-assumptions/src/bindings.rs:420-436 | The variable of a definite integral is bound in the integrand and in neither limit, for the form and for the free symbols |
| BinderForms.OperatorForms | crates/fsym-assumptions/src/bindings.rs:437-458 | An indefinite integral and a derivative keep their variable; that of the derivative is not reported free |
| DeBruijn.ConvertUnderOuterScope | crates/fsym-assumptions/src/bindings.rs:373-469 | Converting under a longer scope is converting under the inner scope and then closing the term over the outer names |
| DeBruijn.ConvertIsLocallyClosed | crates/fsym-assumptions/src/bindings.rs:373-469 | No index of a converted expression points outside its scope |
| DeBruijn.SubstSubst | crates/fsym-assumptions/src/bindings.rs:224-260 | Two substitutions on De Bruijn terms commute when the first variable is not in the second replacement |
| Symbols.FreeInConvert | crates/fsym-assumptions/src/bindings.rs:518-593 | The free symbols are exactly the free names of the De Bruijn form outside the scope, derivative variables not counted |
| Symbols.OccursInConvert | crates/fsym-assumptions/src/bindings.rs:450-457 | When derivatives differentiate by free symbols, every name left in the De Bruijn form is a free symbol, and the reverse |
| Traversals.Preflight | crates/fsym-assumptions/src/bindings.rs:345-365 | The depth check passes exactly the trees at most 256 levels deep |
| Traversals.ScopedConverter.Walk | crates/fsym-assumptions/src/bindings.rs:373-469 | The pushing and popping traversal computes the conversion, refuses exactly beyond the depth limit, and restores its scope also when it refuses |
| Traversals.FreeSymbolCollector.Visit | crates/fsym-assumptions/src/bindings.rs:518-593 | The set-growing traversal adds exactly the symbols free outside the current scope, and a shadowing binder does not unbind the outer one |
| Traversals.SymbolCollector.Visit | crates/fsym-assumptions/src/bindings.rs:490-516 | The traversal adds exactly the symbols written in the tree |
| Traversals.FreeSymbols | crates/fsym-assumptions/src/bindings.rs:472-478 | The public entry answers the whole set within both depth limits and otherwise refuses with the depth error |
| Traversals.AllSymbols | crates/fsym-assumptions/src/bindings.rs:480-488 | The entry answers every symbol written in the tree within the depth limit as written and otherwise refuses with the depth error |
| Traversals.ToDeBruijn | crates/fsym-assumptions/src/bindings.rs:367-371 | The public entry answers the conversion within both depth limits and otherwise refuses with the depth error |
| Freshening.TakenCandidatesBound | crates/fsym-assumptions/src/bindings.rs:601-608 | While all earlier candidates are taken, the index is at most the number of names to avoid: the pigeonhole that ends the search |
| Freshening.FreshSymbol | crates/fsym-assumptions/src/bindings.rs:596-609 | The search ends outside the avoided names, at the first free candidate, with an index no larger than their number |
| Freshening.FreshIsFirst | crates/fsym-assumptions/src/bindings.rs:596-609 | The name itself, or it followed by an underscore and the least number, in decimal, for which no earlier choice was free |
| Substitution.OpaqueStays | crates/fsym-assumptions/src/bindings.rs:865-877 | A function that is no binder is substituted argument by argument and never becomes a binder, whatever replaces its arguments |
| SubstitutionLaws.RenamedUnder | crates/fsym-assumptions/src/bindings.rs:797-820 | Renaming a bound variable to a name not written in the body leaves the De Bruijn form unchanged |
| SubstitutionLaws.SubsAgrees | crates/fsym-assumptions/src/bindings.rs:627-877 | At every depth, an answer of the traversal has the De Bruijn form of the source with the target replaced |
| SubstitutionRefusals.SubsAnswers | crates/fsym-assumptions/src/bindings.rs:627-877 | Within the depth as read and with no other hypothesis, the traversal refuses exactly when some operator variable is stuck, names renamed on the way taken into account, and never for depth |
| SubstitutionRefusals.RenamedStuck | crates/fsym-assumptions/src/bindings.rs:797-820 | After a name is replaced by a new one, exactly that is stuck which was stuck while the name was pending, hidden occurrences left as they are |
| SubstitutionRefusals.StuckIffRefuses | crates/fsym-assumptions/src/bindings.rs:640-757 | When derivatives differentiate by free symbols, what is stuck is what the De Bruijn form under any scope refuses |
| SubstitutionRefusals.ReadBoundsRaw | crates/fsym-assumptions/src/bindings.rs:262-365 | A tree is at most one level deeper as written than as read, so reading within a limit nearly passes the check of the tree as written |
| CaptureAvoidance.SubstitutionCommutes | crates/fsym-assumptions/src/bindings.rs:617-877 | Capture-avoiding substitution commutes with De Bruijn conversion |
| SubstitutionFree.SubsFree | crates/fsym-assumptions/src/bindings.rs:627-877 | At every depth and with no hypothesis, the reported free symbols of an answer are those of the source with the target exchanged for those of the replacement, through every renaming |
| CaptureAvoidance.FreeSymbolLaw | crates/fsym-assumptions/src/bindings.rs:617-877 | For every source and replacement, hidden derivative variables included: the free symbols of an answer are those of the source without the target, and those of the replacement exactly when the target was free |
| CaptureAvoidance.AnswersExactly | crates/fsym-assumptions/src/bindings.rs:617-625 | Within both of the depth checks the public entry answers if and only if no operator variable is stuck, and never refuses for depth |
| CaptureAvoidance.AnswersByTerm | crates/fsym-assumptions/src/bindings.rs:617-625 | When derivatives differentiate by free symbols, whether it answers is decided by the De Bruijn form of the source |
| CaptureAvoidance.AlphaCongruence | crates/fsym-assumptions/src/bindings.rs:612-625 | Alpha-equivalent sources and replacements give alpha-equivalent answers |
| CaptureAvoidance.AlphaAnswersTogether | crates/fsym-assumptions/src/bindings.rs:612-877 | Alpha-equivalent sources whose derivatives differentiate by free symbols, with alpha-equivalent replacements, are answered or refused together within the depth limits; the answers are alpha-equivalent when the replacements are such too |
| CaptureAvoidance.SubstitutionLemma | crates/fsym-assumptions/src/bindings.rs:617-877 | e[x:=r][y:=s] and e[y:=s][x:=r[y:=s]] are alpha-equivalent when x differs from y and is not free in s |
| CaptureAvoidance.HiddenVariableIsMissed | crates/fsym-assumptions/src/bindings.rs:579-581 | A concrete input whose derivative variable substitution under a Lambda does not reach |
| CaptureAvoidance.HiddenVariableIsCaptured | crates/fsym-assumptions/src/bindings.rs:579-581 | A concrete replacement whose derivative variable is captured |
| CaptureAvoidance.HiddenVariableIsRefused | crates/fsym-assumptions/src/bindings.rs:664-690 | A concrete source that is refused for a bound derivative variable which a renaming missed |
| CaptureExactness.FaithfulIffSound | crates/fsym-assumptions/src/bindings.rs:617-877 | For every source, target and replacement that are answered: the answer has the De Bruijn form of the source with the target replaced if and only if every branch taken was sound, which hidden, captured and missed occurrences decide |
| CaptureExactness.FaithfulIffClear | crates/fsym-assumptions/src/bindings.rs:617-877 | When no free symbol of the replacement is written in the source, that holds if and only if every tested target is visible and no binder above a target declares a name the replacement mentions |
| CaptureExactness.SubsKeeps | crates/fsym-assumptions/src/bindings.rs:627-877 | Whatever is renamed on the way, every free occurrence of a name other than the target stays where it was |
| CaptureExactness.MissedForGood | crates/fsym-assumptions/src/bindings.rs:797-820 | An occurrence that a renaming missed is not made good by the replacement that follows it |
| CaptureExactness.FaithfulIffVisible | crates/fsym-assumptions/src/bindings.rs:664-820 | With no hypothesis on derivatives and a replacement of new names, an answer is faithful if and only if no tested node hides an occurrence of the target |
| SubstitutionExactness.SubsPartial | crates/fsym-assumptions/src/bindings.rs:627-877 | With a replacement of new names, an answer differs from the full replacement only where the target remains, and it remains exactly when a tested node hides it |
| AlphaEquivalence.RelatedIffSameTerm | crates/fsym-assumptions/src/bindings.rs:373-469 | Under any pair of scopes, De Bruijn forms are equal exactly when the expressions are related by the named two-environment renaming relation |
| AlphaEquivalence.AlphaEquivalent | crates/fsym-assumptions/src/bindings.rs:612-614 | The decision is the named relation, passes on depth errors of either side, and a positive answer means equal free symbols |
| NumberTheory.Euclid | crates/fsym-assumptions/src/domain.rs:603-641 | A prime that divides a product divides a factor |
| NumberTheory.Fermat | crates/fsym-assumptions/src/domain.rs:603-641 | Fermat's little theorem, by permuting the multiples of the base |
| NumberTheory.RootsOfOne | crates/fsym-assumptions/src/domain.rs:624-637 | Modulo a prime only plus and minus one square to one |
| Primality.ModPow | crates/fsym-assumptions/src/domain.rs:643-654 | Square-and-multiply computes base^exp mod m, and no step leaves its 64-bit or 128-bit word |
| Primality.PassesRound | crates/fsym-assumptions/src/domain.rs:624-637 | One round of the loop decides whether the squaring sequence of the base starts at one or meets minus one in time |
| Primality.PrimesAreAccepted | crates/fsym-assumptions/src/domain.rs:603-641 | No prime of any size fails a round |
| Primality.DivisorExposes | crates/fsym-assumptions/src/domain.rs:619-637 | A base that divides the number always exposes it |
| Primality.SmallAcceptedIsPrime | crates/fsym-assumptions/src/domain.rs:603-641 | Below 41 squared only primes are accepted |
| Primality.IsPrimeU64 | crates/fsym-assumptions/src/domain.rs:603-641 | For every u64 the test never rejects a prime, decides the strong test for the twelve bases, and is exact below 1681 |
| Domains.TryFiniteField | crates/fsym-assumptions/src/domain.rs:232-238 | Every prime characteristic makes a finite field, and below 1681 nothing else does |
| Domains.CommonDomainIsUpperBound | crates/fsym-assumptions/src/domain.rs:527-572 | However nested the two domains, there is a common domain and both coerce into it |
| Domains.MergeGenerators | crates/fsym-assumptions/src/domain.rs:527-572 | The merge loop keeps the first list and adds each missing generator of the second once |
| Domains.FlatCoercion | crates/fsym-assumptions/src/domain.rs:289-437 | Between flat domains the ordered arms decide the tower order and inclusion of generators, with the rationals inside integer fractions |
| CoercionOrder.CompositionIff | crates/fsym-assumptions/src/domain.rs:288-437 | For every target, however nested: coercions into it compose, from anywhere and through anything, if and only if each layer of it sits on a domain that can carry it, keeps the generators of the fractions below, and no fractions stand over a ring of integers |
| CoercionOrder.CoercionsCompose | crates/fsym-assumptions/src/domain.rs:288-437 | Into a target of that shape, two coercions make one |
| CoercionOrder.SomethingBreaks | crates/fsym-assumptions/src/domain.rs:288-437 | For any other target, two domains are found between which the composition fails |
| CoercionOrder.NestedRingsAreTransitive | crates/fsym-assumptions/src/domain.rs:321-345 | Coercion is transitive into polynomial rings nested to any depth over a number domain or a finite field |
| CoercionOrder.FlatCoercionIsTransitive | crates/fsym-assumptions/src/domain.rs:289-437 | Coercion is transitive into flat domains, through whatever it goes |
| CoercionOrder.FractionsOfRings | crates/fsym-assumptions/src/domain.rs:370-437 | Coercions compose into the fractions over nested polynomial rings exactly when the innermost ring is not over the integers |
| CoercionOrder.LayersOverFractions | crates/fsym-assumptions/src/domain.rs:321-437 | Coercions compose into a ring or fractions over flat fractions exactly when no generator is dropped |
| CoercionOrder.RationalsAreLostOverIntegerRings | crates/fsym-assumptions/src/domain.rs:404-424 | The rationals enter integer fractions, and those the fractions over an integer ring, but the rationals do not enter the latter |
| CoercionOrder.CatchAllRingsAreLeftBehind | crates/fsym-assumptions/src/domain.rs:311-345 | Everything enters the catch-all, which enters its own rings, but a ring in another generator does not |
| Domains.NestedCoercionIsNotTransitive | crates/fsym-assumptions/src/domain.rs:321-345 | For any two generators, a ring enters its fractions and those a ring over them, but the first ring does not enter the last |
| Domains.KindIff | crates/fsym-assumptions/src/domain.rs:289-437 | Each kind of receipt is decided exactly by the shapes of the two domains, in whatever order the arms are tried |
| Domains.ReceiptIsExactIff | crates/fsym-assumptions/src/domain.rs:289-437 | A receipt is exact if and only if something is promoted to the catch-all, or a ring enters its own fractions, or the source is exact and the target is exact or a new layer |
| Domains.FoundationDecides | crates/fsym-assumptions/src/domain.rs:240-281 | Exactness and characteristic of a nested domain are those of what is under all its layers |
| Domains.ExactReceiptOfInexactTargetIff | crates/fsym-assumptions/src/domain.rs:346-437 | Into an inexact target a receipt is exact if and only if a ring enters its own fractions or an exact source a new layer |
| Domains.ExactReceiptsIntoInexactTargets | crates/fsym-assumptions/src/domain.rs:346-437 | Exact receipts into inexact targets from integers and from polynomials over the reals |
| Domains.CommonDomainLeastIff | crates/fsym-assumptions/src/domain.rs:526-572 | On flat domains the common domain is least exactly when the two are comparable, or neither is a fraction field, or their characteristics differ |
| DomainInference.InferDomain | crates/fsym-assumptions/src/domain.rs:443-523 | The fold over terms computes the structural inference |
| DomainInference.LeafDomains | crates/fsym-assumptions/src/domain.rs:443-456 | The imaginary unit and the undirected infinity are complex, every other constant real, and a symbol a polynomial over the integers |
| DomainInference.InferenceIsSound | crates/fsym-assumptions/src/domain.rs:443-523 | An arithmetic expression without variables, real constants and real powers included, has its value in the inferred ZZ, QQ or RR whenever it has one |
| DomainInference.NaturalPowerStays | crates/fsym-assumptions/src/domain.rs:478-501 | A power with a literal natural exponent has the domain of its base, number domain or polynomial ring |
| DomainInference.IntegerPowerIsInLeastField | crates/fsym-assumptions/src/domain.rs:478-517 | With an integer exponent that may be negative, the power is inferred in the least field into which the domain of its base coerces |
| DomainInference.NumberPowers | crates/fsym-assumptions/src/domain.rs:503-514 | With any other number as exponent it is real exactly when base and exponent are and the base is known not to be negative, and complex otherwise |
| DomainInference.OtherPowers | crates/fsym-assumptions/src/domain.rs:468-519 | Zero raised to what is not known to be positive, and every power not named above, is inferred in the catch-all |
| DomainInference.KnownSigns | crates/fsym-assumptions/src/domain.rs:82-125 | The sign is known of every number literal, the real constants and both infinities, and of nothing else; an exponent counts as an integer exactly when it is a literal that is one |
| DomainInference.PolynomialsInferRings | crates/fsym-assumptions/src/domain.rs:443-523 | A polynomial is inferred in the ring over its literals with exactly its variables |
| DomainInference.SubstitutionStaysInCommonDomain | crates/fsym-assumptions/src/bindings.rs:1386-1418 | The domain of a substituted polynomial coerces into the common domain of source and replacement |
| Balls.Intersect | crates/fsym-core/src/ball.rs:257-272 | The intersection contains exactly the common points, and is absent exactly when there are none |
| Balls.MulContains | crates/fsym-core/src/ball.rs:216-228 | A product of balls contains every product of their points |
| Balls.MulIsTight | crates/fsym-core/src/ball.rs:216-228 | The product ball cannot be smaller: some product of points lies on its edge |
| Balls.FloorQuotientIsFloor | crates/fsym-core/src/root_certificate/quadrature.rs:344-351 | The corrected truncating division is the floor of the quotient, negative numerators included |
| Balls.RoundOutwardContains | crates/fsym-core/src/root_certificate/quadrature.rs:319-341 | Outward rounding loses no point and widens by at most two grid steps |
| Balls.CellBoundContains | crates/fsym-core/src/root_certificate/quadrature.rs:238-288 | If calculus is right about a cell, the range, first-order and second-order bounds agree and their intersection contains the integral |
| Balls.QuadraticIsExact | crates/fsym-calculus/src/quadrature.rs:70-75 | With exact curvature and midpoint, a quadratic is integrated in one cell with radius zero |
| Quadrature.Goal.BisectTiles | crates/fsym-calculus/src/quadrature.rs:117-148 | The ends that bisection accepts increase strictly from start to end, and every cell between them was accepted |
| Quadrature.Goal.BisectIsDyadic | crates/fsym-calculus/src/quadrature.rs:136-147 | Every accepted cell has the length of the whole divided by a power of two, at most the 64th |
| Quadrature.LocalTolerancesCompose | crates/fsym-core/src/root_certificate/quadrature.rs:290-317 | Cells that keep to their share of the tolerance have a sum that keeps to the whole of it |
| Quadrature.SumEncloses | crates/fsym-core/src/root_certificate/quadrature.rs:417-427 | The sum over any covering partition contains the value of every additive integral the evaluation describes |
| Quadrature.LinesAreDescribed | crates/fsym-core/src/root_certificate/quadrature.rs:236-288 | Interval evaluation of any straight line is right about its integral, so what soundness asks of the evaluation can be met |
| Quadrature.InconsistencyRefutes | crates/fsym-core/src/root_certificate/quadrature.rs:281-286 | A cell over which evaluation succeeds and is right is never refused as inconsistent |
| Integration.Workspace.EncloseCell | crates/fsym-core/src/root_certificate/quadrature.rs:238-288 | Under the meter and the evaluation count, a cell costs at most two evaluations and otherwise has its own outcome |
| Integration.TryCell | crates/fsym-calculus/src/quadrature.rs:118-133 | One turn decides as the cell itself does, with domain overestimation kept aside for the error |
| Bisection.OverestimationIsHalved | crates/fsym-calculus/src/quadrature.rs:58-68 | When evaluation over a cell fails with a domain error, a division by zero or a square root of a negative number, bisection gives what the two halves give, and the error only at the depth limit |
| Bisection.OtherFailuresEnd | crates/fsym-calculus/src/quadrature.rs:113-131 | Every other failure over a cell ends bisection with that failure |
| Bisection.DisagreementEnds | crates/fsym-core/src/root_certificate/quadrature.rs:238-317 | Bounds of one cell that share no point end it as inconsistent |
| Bisection.AcceptedIffWithinShare | crates/fsym-calculus/src/quadrature.rs:113-148 | Otherwise a cell is accepted exactly when its enclosure, which keeps every point the three bounds share, is no wider than the tolerance's share by length; if not it is halved |
| Bisection.OverestimatedIsCertified | crates/fsym-calculus/src/quadrature.rs:58-68 | For each of the three failures, an integrand whose whole interval fails that way and whose request is certified in two cells |
| Integration.Partition | crates/fsym-calculus/src/quadrature.rs:113-148 | The stack machine answers exactly what recursive bisection makes of the interval within the limit, in at most twice the limit less one turns, and never exhausts the evaluation count |
| Integration.Generate | crates/fsym-calculus/src/quadrature.rs:80-153 | It proposes exactly the admitted requests with sound end points whose bisection fits the limit |
| Integration.ProposalIsAPartition | crates/fsym-calculus/src/quadrature.rs:100-148 | A proposal runs strictly upward from the lesser to the greater limit, within the requested number of cells |
| Integration.ProposalsAreAcceptable | crates/fsym-calculus/src/quadrature.rs:70-75 | The checker's demands hold of every proposal |
| Integration.VerifyEnclosure | crates/fsym-core/src/root_certificate/quadrature.rs:377-453 | The checker accepts exactly the partitions that cover the interval with enclosures of total width within tolerance, whoever proposed them |
| Integration.ReceiptIsSound | crates/fsym-core/src/root_certificate/quadrature.rs:373-453 | Any receipt is no wider than the tolerance and contains the signed integral |
| Integration.ReversalNegates | crates/fsym-core/src/root_certificate/quadrature.rs:405-440 | Exchanging the limits negates the enclosure and needs no other partition |
| Integration.CertifiedIntegral | crates/fsym-calculus/src/quadrature.rs:78-165 | A request is certified exactly when bisection succeeds within the limit: the checker turns no proposal away |
| ClaimPages.ExportIsReplayable | src/session.rs:778-795 | Pages cut at any legal size pass the shape checks of replay and join to the derivation |
| ClaimPages.ReplayableIsAnExport | src/session.rs:851-882 | Any pages that pass the checks are the export of their own concatenation at the first page's size, so chunking is unique |
| BoundedSubstitution.RefusesExactlyUnderBinders | src/session.rs:209-250 | Substitution refuses exactly when a binding operator has a bound symbol free |
| BoundedSubstitution.SubstitutionIsSimultaneous | src/session.rs:209-250 | The result means, in every environment, what the source means with all bindings' values in place at once |
| BoundedSubstitution.SubstituteBounded | src/session.rs:187-252 | The limits are settled before anything is substituted, in whatever order the bindings are met |
| BoundedSubstitution.AnswerIsBounded | src/session.rs:187-208 | The two results together have at most 262144 nodes |
| ClaimSubstitution.ClaimSubstitutionIsSimultaneous | src/session.rs:211-252 | Where derivatives differentiate by free symbols, the answer has the De Bruijn form of the source with the form of every binding in place of its name, all at once: nothing is captured, and the operators refused include every binder |
| ClaimSubstitution.SubstitutionsAgree | src/session.rs:211-252 | With one binding, claim substitution and capture-avoiding substitution answer alike up to bound names where both answer |
| ClaimSubstitution.FunctionsAre | src/session.rs:227-248 | The seven named operators are refused exactly when a bound name is free in them and otherwise stay as they are; any other function is refused exactly when an argument is |
| ClaimRecords.MeasuresBoundSize | src/session.rs:187-208 | What substitution is told of sizes by the verification units is right, so that its answers are bounded |
| ExportPreflight.Passes | src/session.rs:304-330 | The walk passes exactly the values of at most 32768 nodes nested at most 64 deep that encode small enough, with a stack never larger than that |
| ClaimRecords.CheckedStatement | src/session.rs:254-279 | A record passes exactly when its statement is its source under its canonical bindings within every limit |
| ClaimMeaning.EquationMeans | src/session.rs:153-166 | A record of source `l=r`, neither side with an equals sign, passes exactly when both trimmed sides parse, the limits hold, the bindings are canonical and meet no binder, and its statement has the left side under the bindings on the left and the right side on the right |
| ClaimMeaning.ExpressionMeans | src/session.rs:162-165 | A source without an equals sign is parsed as it stands and stated equal to itself |
| ClaimMeaning.SeveralEqualsAreRefused | src/session.rs:155-157 | A source with two equals signs passes with no statement |
| ClaimMeaning.StatementHasItsSource | src/session.rs:254-279 | In every reading of the symbols each side of a statement that passes has the value of its own side of the source under the bindings |
| ClaimSession.Frozen | src/session.rs:607-617 | A candidate binds exactly the symbols its source has free and the workspace binds, each once and in order |
| ClaimSession.AcceptingIsConsistent | src/session.rs:708-733 | Accepting a verified claim keeps every accepted record backed and loses none |
| ClaimSession.AcceptedIsFound | src/session.rs:766-777 | A held accepted claim always has its derivation, and without digest collisions the one found proves it |
| ClaimSession.ExportReplays | src/session.rs:752-894 | Every page of a held accepted claim is exported, none beyond the last, and the pages replay in any session of the context with as large a budget |
| ClaimSession.Session.ConstructClaim | src/session.rs:598-648 | A candidate describes its own statement and freezes its bindings; with a willing meter and room it is made exactly when the source has a candidate, which is then the only one; construction never fails as a mismatch, and a refusal leaves the claims alone |
| ClaimSession.SameBindings | src/session.rs:607-617 | The symbols bound, their values and their order leave one choice of bindings |
| ClaimSession.Session.ApplyPatch | src/session.rs:533-570 | A patch is applied exactly when every name and source in it is good, no name is both updated and removed, and the result is not too large; otherwise nothing changes |
| DerivationLimits.DerivationPreflight.VisitExpr | crates/fsym-proof-kernel/src/kernel.rs:573-638 | The walk with its stack passes exactly the expressions at most 256 levels deep whose weight keeps every counter within its limit, and adds that weight |
| DerivationLimits.DerivationUnits | crates/fsym-proof-kernel/src/kernel.rs:472-487 | Counting all steps in one preflight passes exactly when their weights keep to the limits together, and answers the work units |
| DerivationLimits.PartIsLight | crates/fsym-proof-kernel/src/kernel.rs:472-487 | Any run of the steps of a derivation within the limits is within them, so its pages are |
| DerivationLimits.UnitsBoundNodes | crates/fsym-proof-kernel/src/kernel.rs:498-503 | The units of an expression bound its number of nodes |
| DerivationWeights.MeasuredIff | crates/fsym-proof-kernel/src/kernel.rs:498-638 | An expression has verification units exactly when it is at most 256 levels deep and its nodes, bytes, limbs and work, each summed over all nodes, keep to their limits; the units are the work in 64s, rounded up |
| DerivationWeights.StepWeightCounts | crates/fsym-proof-kernel/src/kernel.rs:472-487 | A step counts one, the expressions and texts its rule holds, each step it cites, and both sides of its claim |
| ProofKernel.Verify | crates/fsym-proof-kernel/src/kernel.rs:418-464 | The verifier concludes the root exactly when the derivation as a whole is within the limits and every step carries its own number and the conclusion of its rule from earlier steps |
| ProofKernel.VerifiedIsSound | crates/fsym-proof-kernel/src/kernel.rs:1063-1302 | A verified equation holds in every equivalence and congruence that replacement of variables preserves and that is right about the rules resting on no step |
| KernelCompleteness.ProofsAreVerified | crates/fsym-proof-kernel/src/kernel.rs:1063-1302 | The derivation built from any proof tree of the rules concludes exactly the left side of the tree equal to its right side, and is verified if and only if it is within the limits |
| KernelCompleteness.CheckedIffProved | crates/fsym-proof-kernel/src/kernel.rs:418-464 | An equation is concluded by some derivation whose steps all check if and only if it is the two sides of a proof tree |
| KernelSoundness.ReplacedAlike | crates/fsym-assumptions/src/bindings.rs:617-877 | With no hypothesis, replacements that differ in bound names only give answers that differ in bound names only |
| KernelSoundness.AlphaIsRespected | crates/fsym-proof-kernel/src/kernel.rs:1063-1302 | Equality up to bound names is respected by every rule of the kernel when the rules resting on no step respect it |
| KernelSoundness.VerifiedIsAlpha | crates/fsym-proof-kernel/src/kernel.rs:418-464 | Then the two sides of whatever is verified differ in bound names only |
| ProofKernel.Kernel.AddStep | crates/fsym-proof-kernel/src/kernel.rs:148-200 | A step is recorded with the conclusion of its rule or not at all, and with a willing meter exactly when it checks and fits |
| ProofKernel.Kernel.ExportDerivation | crates/fsym-proof-kernel/src/kernel.rs:348-416 | The export holds the steps that its root rests on, found by a stack, renumbered in order; only an unknown root is refused |
| ProofKernel.ExportVerifiesIff | crates/fsym-proof-kernel/src/kernel.rs:348-464 | An export is verified, and concludes the exported step, if and only if the steps that step rests on are within the limits together, whatever else the kernel holds |
| KernelLimits.ReflexiveLimits | src/session.rs:672-684 | An expression is proved equal to itself exactly when three copies of it are within the limits, and that proof verified exactly when five are |
| KernelLimits.NormalFormLimits | src/session.rs:685-706 | Two sides with one normal form are proved equal exactly when two pairs of them are within the limits, and that proof verified exactly when four are |
| KernelLimits.ProvedButNotVerified | crates/fsym-proof-kernel/src/kernel.rs:149-188 | A sum that every kernel with room for two steps proves equal to itself, and whose export every verifier refuses |
| ProofKernel.ExportIsMinimal | crates/fsym-proof-kernel/src/kernel.rs:348-416 | Every exported step is one that the conclusion rests on |
| ProofKernel.ProofExport | src/session.rs:672-706 | The export of the session's proof of an equation is that proof alone, whatever was proved before |
| ClaimSession.Session.Prove | src/session.rs:671-706 | The kernel's script: with a willing meter it succeeds exactly on equal sides and on equal normal forms within the limits, other equations are not accepted, and the export is never refused |
| ClaimSession.Session.VerifyClaim | src/session.rs:657-733 | A claim is accepted only with a derivation independently verified to conclude its statement, the one its statement determines; with a willing meter exactly the provable candidates of this context within the limits are; refusals change neither claims nor derivations |
| ClaimSession.Session.ExportClaim | src/session.rs:752-795 | Export of a held accepted claim refuses only for page range and size, and never reports an unknown derivation |
| ClaimSession.CheckPages | src/session.rs:855-882 | The page loop passes exactly the pages in order, within the step budget and measurable |
| ClaimSession.Session.ReplayPages | src/session.rs:829-894 | Replay accepts exactly well-shaped pages whose joined derivation is verified afresh to the claimed statement and digest, and imports nothing |
| Workspaces.Branches.Checkout | src/session.rs:522-531 | A branch is found as it was left, and no branch is changed |
| Workspaces.Branches.ApplyPatch | crates/fsym-runtime/src/workspace.rs:283-333 | A patch is applied whole to the active branch, or not at all, exactly when it names no symbol twice and the result is not too large |
| Workspaces.PatchedAt | crates/fsym-runtime/src/workspace.rs:324-331 | An update wins over what was bound, a removed name is gone, every other name is bound as it was |
| Workspaces.PatchIsUndone | crates/fsym-runtime/src/workspace.rs:283-333 | A patch is undone by the patch that restores what it replaced or removed and removes what it added |
| Workspaces.Branches.Merge | crates/fsym-runtime/src/workspace.rs:340-594 | A merge is admitted exactly when the branches agree, every incoming derivation verifies again, the limits hold and a receipt can be made; it then binds what either binds and keeps each derivation once. A malformed term is reported before anything changes, and only a failing certificate leaves the active workspace changed and unsaved |
| Workspaces.MergedHoldsBoth | crates/fsym-runtime/src/workspace.rs:340-594 | A merge binds what either side binds, as it is bound there, and holds the derivations of both with those of the target first |
| Workspaces.MergeIsIdempotent | crates/fsym-runtime/src/workspace.rs:340-594 | Merging the same branch again changes nothing |
| Workspaces.CertificateVerifiesIff | crates/fsym-proof-kernel/src/merge.rs:192-309 | The witnesses of a merge pass the verifier exactly when incoming names with one digest are in the base together and bound to values with one digest |
| Workspaces.IdentitiesDisagree | crates/fsym-proof-kernel/src/merge.rs:117-122 | Two identities of one name, one of them new, are an admitted merge whose certificate fails |
| ClaimSession.Session.Merge | src/session.rs:572-593 | In a session a merge succeeds exactly when it is admitted, never fails for its certificate or for a derivation, and otherwise changes nothing |
| SessionRuns.Converse | src/session.rs:896-1075 | In any conversation, branches, patches and merges included, each request is answered from the state the one before it left and does to it what its kind promises; in the end every record ever answered as accepted is still held, every held accepted record is backed, and a branch never checked out binds what it bound |
| Framing.FramesOfEncode | src/bin/frankensympy.rs:16-41 | Lines written one per row, with either line ending, are read back as they were or refused as too long |
| Framing.UnsendableIsChanged | src/bin/frankensympy.rs:31-36 | A line with a newline inside, or with a final carriage return before a bare newline, is not read back as it was |
| Framing.ReadFrame | src/bin/frankensympy.rs:16-41 | Whatever the chunks, one call yields the next line or its being too long, consumes exactly that line, and never buffers more than the limit and a line ending |
| Framing.Serve | src/bin/frankensympy.rs:43-94 | The loop's responses and exit code depend on the bytes sent and not on the chunks they come in |
| Framing.OneResponseEach | src/bin/frankensympy.rs:51-80 | With a peer that reads on, every frame is answered once and in order, and exactly the over-long ones are refused |
| Framing.AnswersRestOnTheWholePast | src/bin/frankensympy.rs:51-80 | Each response is what the session answers that frame after handling all earlier frames that were not over-long, in order |
| Framing.ResponsesStop | src/bin/frankensympy.rs:62-86 | There are as many responses as frames, but for the first that is not text and for a peer that stops reading |
| Framing.OversizedLeavesNoTrace | src/bin/frankensympy.rs:54-61 | Leaving out the over-long frames changes no other answer |
| Framing.FailsOnlyOnBadText | src/bin/frankensympy.rs:62-70 | The program fails exactly when it reaches a frame that is not text |
| Graphs.Graph.OrderedIsClear | tools/validate_planning.py:314-332 | Nothing in a topological order is on a cycle or downstream of one |
| Workstreams.CountDependencies | tools/validate_planning.py:314-320 | Each count is the number of known dependencies listed, and each node is listed under a dependency as often as it lists it |
| Workstreams.StuckLeadsToCycle | tools/validate_planning.py:322-329 | A node whose known dependencies never come up leads to a cycle |
| Workstreams.Completeness | tools/validate_planning.py:322-332 | When the queue is empty, the ordered nodes are exactly those on no cycle and downstream of none, and exactly those with nothing left to count |
| Workstreams.TopologicalSort | tools/validate_planning.py:314-332 | The order has no repeats and puts dependencies first; it is complete exactly when the graph is acyclic; the nodes named are exactly those on or downstream of a cycle |
| CycleReport.CycleReporter.Visit | tools/verify_cross_cutting.py:104-119 | Visiting keeps every finished node, stack and report, finishes the node unless it is on the stack, and reports only genuine cycles |
| CycleReport.Validate | tools/verify_cross_cutting.py:100-122 | The order is always a permutation of the ids; every reported path is a cycle; each listed dependency that does not come before its dependant is reported once for each time it is listed, and no other; a cycle is reported exactly when there is one, and otherwise dependencies come first |
| LedgerFiles.IndexValidatedRecords | tools/conformance-lab/minimize.py:351-362 | A batch passes exactly when every record is valid and no id repeats |
| LedgerFiles.LedgerDirectory.PublishFile | tools/conformance-lab/minimize.py:325-334 | A file is written only where there is none, and an existing one must say the same |
| LedgerFiles.LedgerDirectory.LoadIndex | tools/conformance-lab/minimize.py:394-443 | The index loads exactly when every entry agrees with a valid record, none repeats, and the limits hold |
| LedgerFiles.LedgerDirectory.Persist | tools/conformance-lab/minimize.py:446-496 | Publication writes nothing before everything is validated, then the missing records, then the missing lines, and may be stopped after any number of writes |
| LedgerRules.AdmittedIff | tools/conformance-lab/minimize.py:446-473 | A batch is admitted exactly when its records are valid and of different ids, the directory and the index are sound, and every record on disk under one of its ids is the same in all but the remarks |
| LedgerRules.CollisionIsRejected | tools/conformance-lab/minimize.py:337-392 | A record that differs in anything but the remarks from the one on disk is a collision: the whole batch is rejected and nothing is written |
| LedgerRules.RemarksMayDiffer | tools/conformance-lab/minimize.py:337-348 | Remarks are no part of a record's identity |
| LedgerRules.LoadableIff | tools/conformance-lab/minimize.py:394-443 | The index is read back exactly when it is no link, keeps to its limits, and each line that is not blank tells the truth about a different small record |
| LedgerRules.LinesAddUp | tools/conformance-lab/minimize.py:400-405 | The size of an index is that of its lines with their endings, and its entries are its lines that are not blank, in order |
| LedgerRules.PublishedWhole | tools/conformance-lab/minimize.py:475-496 | A publication not stopped leaves every record of the batch on disk as encoded, every earlier file as it was, and one new line for each record not indexed |
| LedgerRules.BatchOrderIsKept | tools/conformance-lab/minimize.py:452-496 | Records and lines are written in the order of the batch |
| LedgerRecovery.OutsideMore | tools/conformance-lab/minimize.py:452-486 | What one run has written is exactly what the next no longer selects |
| LedgerRecovery.StoppedIsTruthful | tools/conformance-lab/minimize.py:475-496 | Wherever a run is stopped, every index entry agrees with its record and none is listed twice |
| LedgerRecovery.RunsAgainIff | tools/conformance-lab/minimize.py:446-473 | A stopped run is admitted again exactly when what it left is within the limits of what is read back |
| LedgerRecovery.RunTwice | tools/conformance-lab/minimize.py:446-496 | Two stopped runs are one run stopped after as many writes, or the second is rejected and writes nothing |
| LedgerRecovery.CrashRecovery | tools/conformance-lab/minimize.py:446-496 | Stopped anywhere and rerun, the records and the index are those of an uninterrupted run if and only if what was left can be read back |
| LedgerRecovery.OverlongRecordBlocksRerun | tools/conformance-lab/minimize.py:446-479 | Under every codec, once a record over the size limit is written, every later run of a batch that holds it is rejected and changes nothing |
| LedgerRecovery.IndentedRecordBlocksRerun | tools/conformance-lab/minimize.py:475-479 | A record whose observation fits a quarter of the line it is read from is such a record once it is written with indentation |

## Left out

- The parser, the budget internals, the kernel's leaf rules with their weights, and the limit on what a rule may construct: they enter as parameters, and the session's theorems hold for every choice of them. The several charges of one kernel step are two, one before and one after its check.
- State roots, commitments and the size of a merge receipt: a commitment is recomputed from the same inputs, and what is wrong with a receipt, if anything, enters as a function of both branches and their names; of several faults of a merge, which is reported first is not modelled. The digest of names is taken to be free of collisions where a session is made. Engines behind requests that only compute (differentiation, solving, factoring and the like) are left out; the requests change nothing.
- Acceptance by the twelve bases implying primality above 1680: it rests on a published computation and not on the code.
- Calculus: that interval evaluation describes an integral is a hypothesis (`Balls.CellFacts`), as is the additivity of the integral; evaluation of the integrand over a ball is a parameter.
- Heights of rationals in quadrature: they are part of when a meter stops the work, as are the validation of the source expression and the bare checkpoints of the two meters before and after the phases.
- BindingError texts and the rendered messages of the Python tools: only whether and where an error is raised is modelled, and for the ledger not which exception.
- CaptureAvoidance.SubstitutionCommutes: asks that derivatives differentiate by a symbol free in their body, in source and replacement, because without that it is false (see above); `AlphaCongruence`, `AlphaAnswersTogether` and `SubstitutionLemma` build on it and ask the same. `CaptureExactness` has the condition without it.
- `BinderNode.free_symbols` and `is_alpha_equivalent`: thin copies of the functions modelled here.
- The nested-Tuple Lambda form: it stays opaque in the code and in the model.
- `truth.rs` and `predicate.rs`: finite tables.
- JSON encoding, hashing, UTF-8 decoding and I/O errors: an encoding is a function with a size, a digest is a function (injective only where a theorem says so), a frame is text or is not, and a response is delivered or the peer is gone.
- Torn writes, dangling links and concurrent writers in the ledger: a record file or an index line is written whole or not at all.
- Integers of the graph tools and node counts are unbounded, and Python's recursion limit is not modelled.
