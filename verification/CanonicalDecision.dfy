/** The canonicalization boundary: proposals, gates, the frozen decision (CAD),
    its semantic hash and its version identity. */
module CanonicalDecision {
  import opened OrderedDict
  import opened Text
  import StableSort

  const SCHEMA_VERSION := "canonical_action_decision.v1"
  const GOALS := ["obtain_missing_service_information"]
  const ACTION_TYPES := ["ask_for_missing_data"]
  const TARGETS := ["customer", "operator", "supplier", "internal", "none"]
  const CHANNELS := ["mail", "phone", "internal", "none"]
  const ASK_CHANNELS := ["mail"]

  type Id = string

  datatype RevisionStatus = Current | Superseded

  /** What the semantic hash covers; the canonical JSON text renders exactly this record. */
  datatype Payload = Payload(
    schemaVersion: string, caseId: string, situationVersion: string, goal: string, actionType: string,
    target: string, channel: string, required: seq<string>)

  datatype Cad = Cad(
    decisionId: Id, revision: int, versionId: Id, caseId: string, situationVersion: string,
    goal: string, actionType: string, target: string, channel: string, required: seq<string>,
    confidence: int, riskClass: string, signature: Payload, proposalId: string,
    status: RevisionStatus, supersedes: Id, supersededBy: Id)

  datatype Proposal = Proposal(
    proposalId: string, goal: string, actionType: string, target: string, channel: string,
    required: seq<string>, confidence: int, riskClass: string)

  datatype GapRow = GapRow(lbl: string, fieldName: string, factKey: string)

  datatype ConflictRow = ConflictRow(factKey: string, key: string, markedUnusable: bool, trustState: string)

  /** The state a proposal is checked against; absent inputs are empty lists. */
  datatype CaseState = CaseState(
    missing: seq<string>, missingCritical: seq<string>, required: seq<string>,
    gaps: seq<GapRow>, conflicts: seq<ConflictRow>, intakeMissing: seq<string>)

  datatype Reason =
    | ProposalIncomplete | GoalNotInContract | ActionTypeNotInContract | TargetNotInContract | ChannelNotInContract
    | ChannelIllegalForActionType | RequiredInformationEmpty | RequiredInformationNotInState
    | MissingInformationUnavailable | ConflictedFactAsCertainty

  function ReasonCode(r: Reason): string {
    match r
    case ProposalIncomplete => "proposal_incomplete"
    case GoalNotInContract => "goal_not_in_contract"
    case ActionTypeNotInContract => "action_type_not_in_contract"
    case TargetNotInContract => "target_not_in_contract"
    case ChannelNotInContract => "channel_not_in_contract"
    case ChannelIllegalForActionType => "channel_illegal_for_action_type"
    case RequiredInformationEmpty => "required_information_empty"
    case RequiredInformationNotInState => "required_information_not_in_state"
    case MissingInformationUnavailable => "missing_information_unavailable"
    case ConflictedFactAsCertainty => "conflicted_fact_as_certainty"
  }

  function ReasonCodes(rs: seq<Reason>): seq<string> {
    seq(|rs|, i requires 0 <= i < |rs| => ReasonCode(rs[i]))
  }

  /** `",".join(codes)` */
  function Joined(codes: seq<string>): string {
    if codes == [] then "" else if |codes| == 1 then codes[0] else codes[0] + "," + Joined(codes[1..])
  }

  datatype Outcome = Frozen(cad: Cad) | Failure(proposalId: string, reasons: seq<Reason>)

  datatype BusinessResult = BusinessResult(action: string, missing: seq<string>, confidence: int, urgency: string)

  // ---- version identity ------------------------------------------------------

  function AtLeastOne(n: int): nat { if n < 1 then 1 else n }

  function VersionIdOf(decisionId: Id, revision: int): Id {
    Trim(decisionId) + ":r" + Decimal(AtLeastOne(revision))
  }

  /** A version id names one decision and one revision, across all lineages. */
  lemma VersionIdInjective(d: Id, r: int, e: Id, s: int)
    requires VersionIdOf(d, r) == VersionIdOf(e, s)
    ensures Trim(d) == Trim(e) && AtLeastOne(r) == AtLeastOne(s)
  {
    var x, y := Decimal(AtLeastOne(r)), Decimal(AtLeastOne(s));
    assert VersionIdOf(d, r) == (Trim(d) + ":") + ['r'] + x;
    assert VersionIdOf(e, s) == (Trim(e) + ":") + ['r'] + y;
    DigitSuffixUnique(Trim(d) + ":", x, Trim(e) + ":", y, 'r');
    assert Trim(d) == (Trim(d) + ":")[..|Trim(d)|] && Trim(e) == (Trim(e) + ":")[..|Trim(e)|];
    DecimalInjective(AtLeastOne(r), AtLeastOne(s));
  }

  // ---- semantic hash ---------------------------------------------------------

  function CanonicalPayload(schema: string, caseId: string, situationVersion: string, goal: string, actionType: string,
                            target: string, channel: string, required: seq<string>): Payload {
    Payload(schema, Trim(caseId), Trim(situationVersion), Trim(goal), Trim(actionType), Trim(target), Trim(channel),
            StableSort.SortStrings(NonBlank(required)))
  }

  ghost predicate CollisionFree(digest: Payload -> string) {
    forall p, q :: digest(p) == digest(q) ==> p == q
  }

  /** With a collision-free digest, two decisions hash alike exactly when the seven
      scalar fields agree and the required items agree up to order, blanks and padding. */
  lemma SemanticHashIsCanonical(digest: Payload -> string,
                                a: (string, string, string, string, string, string, string), aReq: seq<string>,
                                b: (string, string, string, string, string, string, string), bReq: seq<string>)
    requires CollisionFree(digest)
    ensures digest(CanonicalPayload(a.0, a.1, a.2, a.3, a.4, a.5, a.6, aReq))
         == digest(CanonicalPayload(b.0, b.1, b.2, b.3, b.4, b.5, b.6, bReq))
       <==> && a.0 == b.0 && Trim(a.1) == Trim(b.1) && Trim(a.2) == Trim(b.2) && Trim(a.3) == Trim(b.3)
            && Trim(a.4) == Trim(b.4) && Trim(a.5) == Trim(b.5) && Trim(a.6) == Trim(b.6)
            && multiset(NonBlank(aReq)) == multiset(NonBlank(bReq))
  {
    StableSort.SortStringsCanonical(NonBlank(aReq), NonBlank(bReq));
  }

  // ---- proposals ---------------------------------------------------------------

  function Clamp01(x: int): int { if x < 0 then 0 else if x > 10000 then 10000 else x }

  function RiskClassOf(urgency: string, fold: string -> string): string {
    var u := fold(Trim(urgency));
    if u in ["high", "critical"] then "high" else if u == "medium" then "medium" else "low"
  }

  /** Only `collect_data` becomes a proposal; `freshId` stands for the generated id. */
  function ProposalOf(br: BusinessResult, freshId: string, fold: string -> string): Option<Proposal> {
    if Trim(br.action) != "collect_data" then None
    else Some(Proposal(freshId, GOALS[0], ACTION_TYPES[0], "customer", "mail", NonBlank(br.missing),
                       Clamp01(br.confidence), RiskClassOf(br.urgency, fold)))
  }

  // ---- state surface -------------------------------------------------------------

  function OrElse(a: string, b: string): string { if Trim(a) == "" then b else Trim(a) }

  function GapLabels(rows: seq<GapRow>): seq<string> {
    if rows == [] then []
    else
      var l := OrElse(rows[0].lbl, OrElse(rows[0].fieldName, Trim(rows[0].factKey)));
      (if l == "" then [] else [l]) + GapLabels(rows[1..])
  }

  /** Everything the state reports missing, in order, before de-duplication. */
  function Surface(st: CaseState): seq<string> {
    NonBlank(st.missing) + NonBlank(st.missingCritical) + NonBlank(st.required) + GapLabels(st.gaps) + NonBlank(st.intakeMissing)
  }

  /** `_dedupe`: drop blanks and items already seen up to case folding. */
  function Dedupe(xs: seq<string>, fold: string -> string, seen: set<string>): seq<string> {
    if xs == [] then []
    else
      var t := Trim(xs[0]);
      if t != "" && fold(t) !in seen then [t] + Dedupe(xs[1..], fold, seen + {fold(t)})
      else Dedupe(xs[1..], fold, seen)
  }

  function Folded(xs: seq<string>, fold: string -> string): set<string> {
    set x | x in xs :: fold(x)
  }

  predicate AllClean(xs: seq<string>) {
    forall x | x in xs :: x != "" && Trim(x) == x
  }

  /** De-duplication loses no item up to case folding and invents none. */
  lemma {:induction false} DedupeKeepsFolded(xs: seq<string>, fold: string -> string, seen: set<string>)
    requires AllClean(xs)
    ensures Folded(Dedupe(xs, fold, seen), fold) == Folded(xs, fold) - seen
  {
    if xs != [] {
      var t := xs[0];
      var rest := xs[1..];
      assert xs == [t] + rest && t in xs;
      assert forall x | x in rest :: x in xs;
      assert Folded(xs, fold) == {fold(t)} + Folded(rest, fold);
      if fold(t) !in seen {
        var d := Dedupe(rest, fold, seen + {fold(t)});
        DedupeKeepsFolded(rest, fold, seen + {fold(t)});
        assert Folded([t] + d, fold) == {fold(t)} + Folded(d, fold);
      } else {
        DedupeKeepsFolded(rest, fold, seen);
      }
    }
  }

  lemma {:induction false} NonBlankClean(xs: seq<string>)
    ensures AllClean(NonBlank(xs))
  {
    if xs != [] { NonBlankClean(xs[1..]); TrimIdempotent(xs[0]); }
  }

  lemma {:induction false} GapLabelsClean(rows: seq<GapRow>)
    ensures AllClean(GapLabels(rows))
  {
    if rows != [] {
      GapLabelsClean(rows[1..]);
      TrimIdempotent(rows[0].lbl);
      TrimIdempotent(rows[0].fieldName);
      TrimIdempotent(rows[0].factKey);
    }
  }

  lemma SurfaceClean(st: CaseState)
    ensures AllClean(Surface(st))
  {
    NonBlankClean(st.missing);
    NonBlankClean(st.missingCritical);
    NonBlankClean(st.required);
    GapLabelsClean(st.gaps);
    NonBlankClean(st.intakeMissing);
  }

  function StateMissing(st: CaseState, fold: string -> string): seq<string> {
    Dedupe(Surface(st), fold, {})
  }

  /** Keys whose live value is conflicted and so may not be taken as certain. */
  function ConflictedKeys(rows: seq<ConflictRow>, fold: string -> string): set<string> {
    set r | r in rows && OrElse(r.factKey, Trim(r.key)) != "" && (r.markedUnusable || Trim(r.trustState) == "conflicted")
      :: fold(OrElse(r.factKey, Trim(r.key)))
  }

  // ---- canonicalize ----------------------------------------------------------------

  function When(b: bool, r: Reason): seq<Reason> { if b then [r] else [] }

  function ContractReasons(p: Proposal): seq<Reason> {
    var action, channel := Trim(p.actionType), Trim(p.channel);
    When(Trim(p.goal) !in GOALS, GoalNotInContract)
    + When(action !in ACTION_TYPES, ActionTypeNotInContract)
    + When(Trim(p.target) !in TARGETS, TargetNotInContract)
    + When(channel !in CHANNELS, ChannelNotInContract)
    + When(action == ACTION_TYPES[0] && channel !in ASK_CHANNELS, ChannelIllegalForActionType)
    + When(NonBlank(p.required) == [], RequiredInformationEmpty)
  }

  function StateReasons(p: Proposal, st: CaseState, fold: string -> string): seq<Reason> {
    var known := StateMissing(st, fold);
    var req := NonBlank(p.required);
    (if known == [] then [MissingInformationUnavailable]
     else When(exists x | x in req :: fold(x) !in Folded(known, fold), RequiredInformationNotInState))
    + When(exists x | x in req :: fold(x) in ConflictedKeys(st.conflicts, fold), ConflictedFactAsCertainty)
  }

  function Canonicalize(proposal: Option<Proposal>, st: CaseState, fold: string -> string, caseId: string,
                        situationVersion: string, decisionId: Id, freshId: Id, revision: int): Outcome {
    if proposal.None? then Failure("", [ProposalIncomplete])
    else
      var p := proposal.value;
      var contract := ContractReasons(p);
      var reasons := if contract != [] then contract else StateReasons(p, st, fold);
      if reasons != [] then Failure(Trim(p.proposalId), reasons)
      else
        var d := if Trim(decisionId) == "" then freshId else Trim(decisionId);
        var rev := AtLeastOne(revision);
        Frozen(Cad(d, rev, VersionIdOf(d, rev), Trim(caseId), Trim(situationVersion),
                   Trim(p.goal), Trim(p.actionType), Trim(p.target), Trim(p.channel), NonBlank(p.required),
                   Clamp01(p.confidence), OrElse(p.riskClass, "low"),
                   CanonicalPayload(SCHEMA_VERSION, caseId, situationVersion, p.goal, p.actionType, p.target, p.channel, p.required),
                   Trim(p.proposalId), Current, "", ""))
  }

  // ---- the gates, stated on the raw state -------------------------------------------------

  /** A gap is known by the first of its three names that is not blank. */
  predicate GapNamed(g: GapRow, y: string) {
    && y != ""
    && (|| Trim(g.lbl) == y
        || (Trim(g.lbl) == "" && Trim(g.fieldName) == y)
        || (Trim(g.lbl) == "" && Trim(g.fieldName) == "" && Trim(g.factKey) == y))
  }

  ghost predicate Lists(xs: seq<string>, y: string) { y != "" && exists x :: x in xs && Trim(x) == y }

  /** One of the five places that report missing information names `y`. */
  ghost predicate ReportsMissing(st: CaseState, y: string) {
    || Lists(st.missing, y) || Lists(st.missingCritical, y) || Lists(st.required, y) || Lists(st.intakeMissing, y)
    || exists g :: g in st.gaps && GapNamed(g, y)
  }

  ghost predicate Supported(x: string, st: CaseState, fold: string -> string) {
    exists y :: ReportsMissing(st, y) && fold(y) == fold(x)
  }

  /** The row is about `k` and its value is conflicted. */
  predicate Conflicts(r: ConflictRow, k: string) {
    && k != "" && (Trim(r.factKey) == k || (Trim(r.factKey) == "" && Trim(r.key) == k))
    && (r.markedUnusable || Trim(r.trustState) == "conflicted")
  }

  ghost predicate Blocked(x: string, st: CaseState, fold: string -> string) {
    exists r, k :: r in st.conflicts && Conflicts(r, k) && fold(k) == fold(x)
  }

  /** What a proposal must meet: the contract, and every required item reported missing and not
      conflicted. */
  ghost predicate GatesPass(p: Proposal, st: CaseState, fold: string -> string) {
    && Trim(p.goal) == "obtain_missing_service_information" && Trim(p.actionType) == "ask_for_missing_data"
    && Trim(p.target) in ["customer", "operator", "supplier", "internal", "none"] && Trim(p.channel) == "mail"
    && NonBlank(p.required) != []
    && (forall x | x in NonBlank(p.required) :: Supported(x, st, fold) && !Blocked(x, st, fold))
  }

  lemma {:induction false} GapLabelsMember(rows: seq<GapRow>, y: string)
    ensures y in GapLabels(rows) <==> exists g :: g in rows && GapNamed(g, y)
  {
    hide Trim;
    if rows != [] {
      GapLabelsMember(rows[1..], y);
      assert rows == [rows[0]] + rows[1..];
      GapLabelOf(rows[0], y);
    }
  }

  lemma GapLabelOf(g: GapRow, y: string)
    ensures GapNamed(g, y) <==> y != "" && y == OrElse(g.lbl, OrElse(g.fieldName, Trim(g.factKey)))
  {
    hide Trim;
  }

  lemma SurfaceIs(st: CaseState, y: string)
    ensures y in Surface(st) <==> ReportsMissing(st, y)
  {
    hide Trim, NonBlank, GapLabels;
    NonBlankMember(st.missing, y);
    NonBlankMember(st.missingCritical, y);
    NonBlankMember(st.required, y);
    GapLabelsMember(st.gaps, y);
    NonBlankMember(st.intakeMissing, y);
  }

  lemma SupportedIffFolded(x: string, st: CaseState, fold: string -> string)
    ensures fold(x) in Folded(StateMissing(st, fold), fold) <==> Supported(x, st, fold)
  {
    hide Surface, Dedupe, ReportsMissing;
    SurfaceClean(st);
    DedupeKeepsFolded(Surface(st), fold, {});
    forall y ensures y in Surface(st) <==> ReportsMissing(st, y) { SurfaceIs(st, y); }
  }

  lemma BlockedIffFolded(x: string, st: CaseState, fold: string -> string)
    ensures fold(x) in ConflictedKeys(st.conflicts, fold) <==> Blocked(x, st, fold)
  {
    hide Trim;
    if fold(x) in ConflictedKeys(st.conflicts, fold) {
      var r :| r in st.conflicts && OrElse(r.factKey, Trim(r.key)) != "" && (r.markedUnusable || Trim(r.trustState) == "conflicted")
               && fold(OrElse(r.factKey, Trim(r.key))) == fold(x);
      assert Conflicts(r, OrElse(r.factKey, Trim(r.key)));
    }
    if Blocked(x, st, fold) {
      var r, k :| r in st.conflicts && Conflicts(r, k) && fold(k) == fold(x);
      assert k == OrElse(r.factKey, Trim(r.key));
    }
  }

  /** Nothing is reported missing. */
  ghost predicate NothingMissing(st: CaseState) { forall y :: !ReportsMissing(st, y) }

  lemma KnownEmptyIff(st: CaseState, fold: string -> string)
    ensures StateMissing(st, fold) == [] <==> NothingMissing(st)
  {
    hide Surface, Dedupe, ReportsMissing;
    var known := StateMissing(st, fold);
    if known == [] {
      forall y ensures !ReportsMissing(st, y) {
        SupportedIffFolded(y, st, fold);
        assert fold(y) !in Folded(known, fold);
        assert ReportsMissing(st, y) ==> Supported(y, st, fold);
      }
    } else {
      assert known[0] in known && fold(known[0]) in Folded(known, fold);
      SupportedIffFolded(known[0], st, fold);
    }
  }

  /** The contract gate `r` is not met by `p`. */
  predicate ContractBroken(p: Proposal, r: Reason) {
    match r
    case GoalNotInContract => Trim(p.goal) != "obtain_missing_service_information"
    case ActionTypeNotInContract => Trim(p.actionType) != "ask_for_missing_data"
    case TargetNotInContract => Trim(p.target) !in ["customer", "operator", "supplier", "internal", "none"]
    case ChannelNotInContract => Trim(p.channel) !in ["mail", "phone", "internal", "none"]
    case ChannelIllegalForActionType => Trim(p.actionType) == "ask_for_missing_data" && Trim(p.channel) != "mail"
    case RequiredInformationEmpty => NonBlank(p.required) == []
    case _ => false
  }

  predicate IsStateReason(r: Reason) {
    r == RequiredInformationNotInState || r == MissingInformationUnavailable || r == ConflictedFactAsCertainty
  }

  lemma WhenMember(b: bool, x: Reason, r: Reason)
    ensures r in When(b, x) <==> b && r == x
  {
  }

  lemma ContractReasonsExact(p: Proposal, r: Reason)
    ensures r in ContractReasons(p) <==> ContractBroken(p, r)
  {
    hide Trim, NonBlank, When;
    var action, channel := Trim(p.actionType), Trim(p.channel);
    WhenMember(Trim(p.goal) !in GOALS, GoalNotInContract, r);
    WhenMember(action !in ACTION_TYPES, ActionTypeNotInContract, r);
    WhenMember(Trim(p.target) !in TARGETS, TargetNotInContract, r);
    WhenMember(channel !in CHANNELS, ChannelNotInContract, r);
    WhenMember(action == ACTION_TYPES[0] && channel !in ASK_CHANNELS, ChannelIllegalForActionType, r);
    WhenMember(NonBlank(p.required) == [], RequiredInformationEmpty, r);
  }

  lemma StateReasonsOnly(p: Proposal, st: CaseState, fold: string -> string, r: Reason)
    requires r in StateReasons(p, st, fold)
    ensures IsStateReason(r)
  {
    hide Trim, NonBlank, StateMissing, ConflictedKeys, Folded;
  }

  /** Which gates a failure names: each contract gate exactly when it is not met, and state gates only
      when the contract is met. */
  lemma ReasonsExact(p: Proposal, st: CaseState, fold: string -> string, caseId: string, sv: string,
                     decisionId: Id, freshId: Id, revision: int, r: Reason)
    ensures var o := Canonicalize(Some(p), st, fold, caseId, sv, decisionId, freshId, revision);
            var rs := if o.Failure? then o.reasons else [];
            && (o.Frozen? <==> rs == []) && (o.Failure? ==> o.proposalId == Trim(p.proposalId))
            && (!IsStateReason(r) ==> (r in rs <==> ContractBroken(p, r)))
            && (IsStateReason(r) && r in rs ==> forall q :: !ContractBroken(p, q))
  {
    hide Trim, NonBlank, StateReasons, ContractReasons, ContractBroken, VersionIdOf, CanonicalPayload;
    forall q ensures q in ContractReasons(p) <==> ContractBroken(p, q) { ContractReasonsExact(p, q); }
    if r in StateReasons(p, st, fold) { StateReasonsOnly(p, st, fold, r); }
    if IsStateReason(r) { NotContract(p, r); }
  }

  lemma NotContract(p: Proposal, r: Reason)
    requires IsStateReason(r)
    ensures !ContractBroken(p, r)
  {
  }

  lemma StateReasonsExact(p: Proposal, st: CaseState, fold: string -> string, caseId: string, sv: string,
                          decisionId: Id, freshId: Id, revision: int)
    requires ContractReasons(p) == []
    ensures var o := Canonicalize(Some(p), st, fold, caseId, sv, decisionId, freshId, revision);
            var rs := if o.Failure? then o.reasons else [];
            && (MissingInformationUnavailable in rs <==> NothingMissing(st))
            && (RequiredInformationNotInState in rs <==> !NothingMissing(st) && exists x :: x in NonBlank(p.required) && !Supported(x, st, fold))
            && (ConflictedFactAsCertainty in rs <==> exists x :: x in NonBlank(p.required) && Blocked(x, st, fold))
  {
    hide Trim, NonBlank, StateMissing, ConflictedKeys, VersionIdOf, CanonicalPayload, ContractReasons, NothingMissing, Supported, Blocked, Folded;
    KnownEmptyIff(st, fold);
    forall x ensures (fold(x) in Folded(StateMissing(st, fold), fold) <==> Supported(x, st, fold))
                     && (fold(x) in ConflictedKeys(st.conflicts, fold) <==> Blocked(x, st, fold)) {
      SupportedIffFolded(x, st, fold);
      BlockedIffFolded(x, st, fold);
    }
  }

  lemma StateReasonsEmptyIff(p: Proposal, st: CaseState, fold: string -> string)
    requires NonBlank(p.required) != []
    ensures StateReasons(p, st, fold) == [] <==> forall x | x in NonBlank(p.required) :: Supported(x, st, fold) && !Blocked(x, st, fold)
  {
    hide Trim, NonBlank, StateMissing, ConflictedKeys, Supported, Blocked;
    var known, req := StateMissing(st, fold), NonBlank(p.required);
    forall x | x in req ensures (fold(x) in Folded(known, fold) <==> Supported(x, st, fold))
                                && (fold(x) in ConflictedKeys(st.conflicts, fold) <==> Blocked(x, st, fold)) {
      SupportedIffFolded(x, st, fold);
      BlockedIffFolded(x, st, fold);
    }
    if known == [] {
      assert req[0] in req && fold(req[0]) !in Folded(known, fold);
    }
  }

  /** A proposal freezes exactly when every gate passes. */
  lemma FreezesIffGatesPass(p: Proposal, st: CaseState, fold: string -> string, caseId: string, sv: string,
                            decisionId: Id, freshId: Id, revision: int)
    ensures Canonicalize(Some(p), st, fold, caseId, sv, decisionId, freshId, revision).Frozen? <==> GatesPass(p, st, fold)
  {
    hide Trim, NonBlank, StateReasons, Supported, Blocked, VersionIdOf, CanonicalPayload;
    if ContractReasons(p) == [] {
      StateReasonsEmptyIff(p, st, fold);
    }
  }

  /** The frozen decision carries the proposal and nothing else: its contract fields, its required items
      in order, confidence, risk and origin; and its signature is the payload of the proposal itself. */
  lemma FrozenCarriesProposal(p: Proposal, st: CaseState, fold: string -> string, caseId: string, sv: string,
                              decisionId: Id, freshId: Id, revision: int)
    ensures var o := Canonicalize(Some(p), st, fold, caseId, sv, decisionId, freshId, revision);
            o.Frozen? ==>
              && o.cad.goal == Trim(p.goal) && o.cad.actionType == Trim(p.actionType)
              && o.cad.target == Trim(p.target) && o.cad.channel == Trim(p.channel)
              && o.cad.required == NonBlank(p.required)
              && (0 <= p.confidence <= 10000 ==> o.cad.confidence == p.confidence) && 0 <= o.cad.confidence <= 10000
              && o.cad.riskClass == (if Trim(p.riskClass) == "" then "low" else Trim(p.riskClass))
              && o.cad.proposalId == Trim(p.proposalId)
              && o.cad.signature == CanonicalPayload("canonical_action_decision.v1", caseId, sv, p.goal, p.actionType, p.target, p.channel, p.required)
  {
    hide Trim, NonBlank, StateReasons, ContractReasons, VersionIdOf, CanonicalPayload;
  }

  /** What business reasoning turns into: only `collect_data`, and then a mail to the customer for what
      is missing. */
  lemma ProposalAsksCustomer(br: BusinessResult, freshId: string, fold: string -> string)
    ensures ProposalOf(br, freshId, fold).Some? <==> Trim(br.action) == "collect_data"
    ensures ProposalOf(br, freshId, fold).Some? ==>
              var p := ProposalOf(br, freshId, fold).value;
              var u := fold(Trim(br.urgency));
              && p.goal == "obtain_missing_service_information" && p.actionType == "ask_for_missing_data"
              && p.target == "customer" && p.channel == "mail" && p.required == NonBlank(br.missing) && p.proposalId == freshId
              && (p.riskClass == "high" <==> u == "high" || u == "critical") && (p.riskClass == "medium" <==> u == "medium")
              && p.riskClass in ["low", "medium", "high"]
              && (0 <= br.confidence <= 10000 ==> p.confidence == br.confidence) && 0 <= p.confidence <= 10000
  {
    hide Trim, NonBlank;
  }

  /** Contract codes by name. */
  lemma ContractCodes()
    ensures ReasonCodes([ProposalIncomplete, GoalNotInContract, ActionTypeNotInContract, TargetNotInContract, ChannelNotInContract])
         == ["proposal_incomplete", "goal_not_in_contract", "action_type_not_in_contract", "target_not_in_contract", "channel_not_in_contract"]
    ensures ReasonCodes([ChannelIllegalForActionType, RequiredInformationEmpty])
         == ["channel_illegal_for_action_type", "required_information_empty"]
    ensures ReasonCodes([MissingInformationUnavailable, RequiredInformationNotInState, ConflictedFactAsCertainty])
         == ["missing_information_unavailable", "required_information_not_in_state", "conflicted_fact_as_certainty"]
  {
  }

  lemma {:induction false} JoinedConcat(a: seq<string>, b: seq<string>)
    requires a != [] && b != []
    ensures Joined(a + b) == Joined(a) + "," + Joined(b)
  {
    if |a| == 1 {
      assert (a + b)[1..] == b;
    } else {
      assert (a + b)[1..] == a[1..] + b;
      JoinedConcat(a[1..], b);
      var x, y, z := a[0], Joined(a[1..]), Joined(b);
      assert x + "," + (y + "," + z) == (x + "," + y) + "," + z;
    }
  }

  /** Example of the documented form. */
  lemma VersionIdForm()
    ensures VersionIdOf("dec_abc", 2) == "dec_abc:r2"
  {
    TrimTrims("dec_abc");
    assert Decimal(2) == [Digit(2)] == "2";
  }

  /** What the ledger needs of a new revision: the shape `canonicalize` gives it. */
  predicate Fresh(c: Cad) {
    && c.decisionId != "" && Trim(c.decisionId) == c.decisionId
    && c.revision >= 1 && c.versionId == VersionIdOf(c.decisionId, c.revision)
    && c.status == Current && c.supersedes == "" && c.supersededBy == ""
  }

  lemma CanonicalizeShape(proposal: Option<Proposal>, st: CaseState, fold: string -> string, caseId: string, sv: string,
                          decisionId: Id, freshId: Id, revision: int)
    requires freshId != "" && Trim(freshId) == freshId
    ensures var o := Canonicalize(proposal, st, fold, caseId, sv, decisionId, freshId, revision);
            o.Frozen? ==>
              && Fresh(o.cad) && o.cad.revision == AtLeastOne(revision)
              && o.cad.caseId == Trim(caseId) && o.cad.situationVersion == Trim(sv)
              && (Trim(decisionId) != "" ==> o.cad.decisionId == Trim(decisionId))
              && o.cad.signature == CanonicalPayload(SCHEMA_VERSION, o.cad.caseId, o.cad.situationVersion, o.cad.goal,
                                                     o.cad.actionType, o.cad.target, o.cad.channel, o.cad.required)
  {
    hide Trim, NonBlank, StateReasons, ContractReasons, VersionIdOf;
    TrimIdempotent(decisionId);
    if proposal.Some? {
      var p := proposal.value;
      TrimIdempotent(caseId); TrimIdempotent(sv); TrimIdempotent(p.goal); TrimIdempotent(p.actionType);
      TrimIdempotent(p.target); TrimIdempotent(p.channel);
      NonBlankIdempotent(p.required);
    }
  }

  lemma {:induction false} NonBlankIdempotent(xs: seq<string>)
    ensures NonBlank(NonBlank(xs)) == NonBlank(xs)
  {
    if xs != [] {
      NonBlankIdempotent(xs[1..]);
      TrimIdempotent(xs[0]);
      if Trim(xs[0]) != "" {
        var r := [Trim(xs[0])] + NonBlank(xs[1..]);
        assert r[1..] == NonBlank(xs[1..]);
      }
    }
  }
}
