/** The in-memory decision ledger: a projection over durable state that writes
    through before it changes itself, and the re-evaluation that drives it. */
module DecisionLedger {
  import opened OrderedDict
  import opened CanonicalDecision
  import opened DecisionStore
  import opened Text
  import StableSort

  datatype AuditEntry =
    | AcceptedEntry(decisionId: Id, requestId: Id, oldVersionId: Id, newVersionId: Id, reasonCode: string)
    | RejectedEntry(decisionId: Id, requestId: Id, reasonCode: string, rejectReason: string)
    | StaleEntry(decisionId: Id, requestId: Id, expected: int, actual: int)

  datatype Projection = Projection(lineages: map<Id, seq<Cad>>, requests: seq<Request>, audit: seq<AuditEntry>)

  /** A ledger and, when `backed`, the store it writes through to. */
  datatype System = System(mem: Projection, store: Durable, backed: bool)

  // ---- reading ---------------------------------------------------------------

  function Lineage(p: Projection, d: Id): seq<Cad> {
    if d in p.lineages then p.lineages[d] else []
  }

  /** The latest entry marked current. */
  function CurrentOf(l: seq<Cad>): (r: Option<Cad>)
    ensures r.Some? ==> r.value in l && r.value.status == Current
  {
    if l == [] then None
    else if l[|l| - 1].status == Current then Some(l[|l| - 1])
    else CurrentOf(l[..|l| - 1])
  }

  function CurrentRevision(p: Projection, d: Id): int {
    var c := CurrentOf(Lineage(p, d));
    if c.None? then 0 else c.value.revision
  }

  predicate IsCurrent(p: Projection, c: Cad) {
    && c.decisionId != "" && c.versionId != ""
    && CurrentOf(Lineage(p, c.decisionId)).Some? && CurrentOf(Lineage(p, c.decisionId)).value.versionId == c.versionId
  }

  // ---- register ----------------------------------------------------------------

  datatype Registration = Appended(mem: Projection) | AlreadyCurrent(cad: Cad) | Refused(code: string)

  function RegisterMem(p: Projection, c: Cad): Registration {
    if c.decisionId == "" || c.versionId == "" then Refused("invalid_cad_identity")
    else
      var cur := CurrentOf(Lineage(p, c.decisionId));
      if cur.Some? && cur.value.versionId == c.versionId then AlreadyCurrent(cur.value)
      else if cur.Some? then Refused("one_current_revision_violation")
      else Appended(p.(lineages := p.lineages[c.decisionId := Lineage(p, c.decisionId) + [c]]))
  }

  // ---- requests ------------------------------------------------------------------

  predicate Duplicates(existing: Request, r: Request) {
    || existing.requestId == r.requestId
    || (existing.decisionId == r.decisionId && existing.currentRevision == r.currentRevision
        && existing.reasonCode == r.reasonCode && existing.status == Pending)
  }

  /** The first logged request that `r` duplicates. */
  ghost predicate FirstDuplicate(rs: seq<Request>, found: Request, r: Request) {
    exists i | 0 <= i < |rs| :: rs[i] == found && Duplicates(found, r) && forall j | 0 <= j < i :: !Duplicates(rs[j], r)
  }

  datatype RecordStatus = RecordedPending | StaleRevisionRequest | DuplicateRevisionRequest

  function RecordStatusOf(p: Projection, r: Request): RecordStatus {
    if exists e | e in p.requests :: Duplicates(e, r) then DuplicateRevisionRequest
    else if r.currentRevision != CurrentRevision(p, r.decisionId) then StaleRevisionRequest
    else RecordedPending
  }

  /** The row that is stored and logged for a request that is not a duplicate. */
  function Recorded(p: Projection, r: Request): Request {
    if RecordStatusOf(p, r) == StaleRevisionRequest then r.(status := Rejected, rejectReason := "STALE_REVISION_REQUEST") else r
  }

  function RecordMem(p: Projection, r: Request): Projection {
    match RecordStatusOf(p, r)
    case DuplicateRevisionRequest => p
    case StaleRevisionRequest =>
      p.(requests := p.requests + [Recorded(p, r)],
         audit := p.audit + [StaleEntry(r.decisionId, r.requestId, CurrentRevision(p, r.decisionId), r.currentRevision)])
    case RecordedPending => p.(requests := p.requests + [r])
  }

  function ReplaceRequest(rs: seq<Request>, r: Request): seq<Request> {
    seq(|rs|, i requires 0 <= i < |rs| => if rs[i].requestId == r.requestId then r else rs[i])
  }

  // ---- accept and reject -----------------------------------------------------------

  function ReplaceVersion(l: seq<Cad>, v: Id, c: Cad): seq<Cad> {
    seq(|l|, i requires 0 <= i < |l| => if l[i].versionId == v then c else l[i])
  }

  function AcceptRefusal(p: Projection, o: Cad, n: Cad): string {
    if n.decisionId != o.decisionId then "revision_decision_id_mismatch"
    else if n.revision != o.revision + 1 then "revision_not_monotonic"
    else if !IsCurrent(p, o) then "stale_revision_request"
    else ""
  }

  /** The projection after an accept that nothing refused. */
  function AcceptMem(p: Projection, o: Cad, n: Cad, r: Request): Projection {
    var d := o.decisionId;
    Projection(
      p.lineages[d := ReplaceVersion(Lineage(p, d), o.versionId, SupersededBy(o, n.versionId)) + [Succeeding(n, o.versionId)]],
      ReplaceRequest(p.requests, r.(status := Accepted)),
      p.audit + [AcceptedEntry(d, r.requestId, o.versionId, n.versionId, r.reasonCode)])
  }

  function RejectedRequest(r: Request, reason: string): Request {
    r.(status := Rejected, rejectReason := if Trim(reason) == "" then "REVISION_NOT_JUSTIFIED" else Trim(reason))
  }

  function RejectMem(p: Projection, r: Request, reason: string): Projection {
    var rejected := RejectedRequest(r, reason);
    p.(requests := ReplaceRequest(p.requests, rejected),
       audit := p.audit + [RejectedEntry(r.decisionId, r.requestId, r.reasonCode, rejected.rejectReason)])
  }

  // ---- whole calls: durable write first, then the projection ---------------------------

  datatype Step = Register(cad: Cad) | Record(request: Request) | Accept(old_: Cad, new_: Cad, request: Request)
                | Reject(request: Request, reason: string)

  function Exec(s: System, step: Step): System {
    match step
    case Register(c) =>
      var r := RegisterMem(s.mem, c);
      if r.Appended? then s.(mem := r.mem, store := if s.backed then AppendRevision(s.store, c) else s.store) else s
    case Record(r) =>
      if RecordStatusOf(s.mem, r) == DuplicateRevisionRequest then s
      else s.(mem := RecordMem(s.mem, r), store := if s.backed then AppendRequest(s.store, Recorded(s.mem, r)) else s.store)
    case Accept(o, n, r) =>
      if AcceptRefusal(s.mem, o, n) != "" then s
      else if !s.backed then s.(mem := AcceptMem(s.mem, o, n, r))
      else
        var t := AcceptTransition(s.store, o, n, r);
        if t.Err? then s else s.(mem := AcceptMem(s.mem, o, n, r), store := t.value)
    case Reject(r, reason) =>
      s.(mem := RejectMem(s.mem, r, reason),
         store := if s.backed then AppendRequest(s.store, RejectedRequest(r, reason)) else s.store)
  }

  // ---- rebuild ----------------------------------------------------------------------

  function CountCurrent(l: seq<Cad>): nat {
    if l == [] then 0 else (if l[0].status == Current then 1 else 0) + CountCurrent(l[1..])
  }

  /** The revision that supersedes version `v` (the last one, as in a dictionary). */
  function SuccessorVersion(l: seq<Cad>, v: Id): Id {
    if l == [] then ""
    else if l[|l| - 1].supersedes == v && v != "" then l[|l| - 1].versionId
    else SuccessorVersion(l[..|l| - 1], v)
  }

  function RebuiltEntry(d: Id, l: seq<Cad>, r: Request): seq<AuditEntry> {
    match r.status
    case Accepted => [AcceptedEntry(d, r.requestId, r.currentVersionId, SuccessorVersion(l, r.currentVersionId), r.reasonCode)]
    case Rejected => [RejectedEntry(d, r.requestId, r.reasonCode, r.rejectReason)]
    case _ => []
  }

  function RebuiltAudit(d: Id, l: seq<Cad>, rs: seq<Request>): seq<AuditEntry> {
    if rs == [] then [] else RebuiltAudit(d, l, rs[..|rs| - 1]) + RebuiltEntry(d, l, rs[|rs| - 1])
  }

  /** `rebuild` sorts again what it fetched. */
  function OrderedRevisions(s: Durable, d: Id): seq<Cad> {
    StableSort.SortBy(FetchRevisions(s, d), (c: Cad) => c.revision)
  }

  function OrderedRequests(s: Durable, d: Id): seq<Request> {
    StableSort.SortBy(FetchRequests(s, d), (r: Request) => r.requestedAt)
  }

  /** Rebuild over the listed decisions, failing closed on any lineage without exactly one current row. */
  function RebuildFrom(s: Durable, ids: seq<Id>): Result<Projection> {
    if ids == [] then Ok(Projection(map[], [], []))
    else
      var d := ids[|ids| - 1];
      var before := RebuildFrom(s, ids[..|ids| - 1]);
      var l := OrderedRevisions(s, d);
      var rs := OrderedRequests(s, d);
      if before.Err? then before
      else if l != [] && CountCurrent(l) != 1 then Err("rebuild_one_current_violation")
      else Ok(Projection(before.value.lineages[d := l], before.value.requests + rs, before.value.audit + RebuiltAudit(d, l, rs)))
  }

  // ---- the object ---------------------------------------------------------------------

  class DecisionRevisionLedger {
    var lineages: map<Id, seq<Cad>>
    var requests: seq<Request>
    var audit: seq<AuditEntry>
    const store: RevisionStore?

    ghost function Footprint(): set<object> {
      if store == null then {this} else {this, store}
    }

    function Mem(): Projection reads this { Projection(lineages, requests, audit) }

    ghost function State(): System
      reads Footprint()
    {
      System(Mem(), if store == null then Durable([], []) else store.State(), store != null)
    }

    constructor (store: RevisionStore?)
      ensures this.store == store
      ensures Mem() == Projection(map[], [], [])
    {
      this.store := store;
      lineages, requests, audit := map[], [], [];
    }

    method CurrentLocked(d: Id) returns (r: Option<Cad>)
      ensures r == CurrentOf(Lineage(Mem(), d))
    {
      var l := if d in lineages then lineages[d] else [];
      var i := |l|;
      assert l[..i] == l;
      while i > 0
        invariant 0 <= i <= |l|
        invariant CurrentOf(l) == CurrentOf(l[..i])
      {
        i := i - 1;
        if l[i].status == Current { return Some(l[i]); }
        assert l[..i + 1][..i] == l[..i];
      }
      return None;
    }

    method RegisterCad(cad: Cad) returns (r: Result<Cad>)
      modifies Footprint()
      ensures State() == Exec(old(State()), Register(cad))
      ensures r == (match RegisterMem(old(Mem()), cad)
                    case Appended(_) => Ok(cad)
                    case AlreadyCurrent(c) => Ok(c)
                    case Refused(code) => Err(code))
    {
      if cad.decisionId == "" || cad.versionId == "" { return Err("invalid_cad_identity"); }
      var current := CurrentLocked(cad.decisionId);
      if current.Some? && current.value.versionId == cad.versionId { return Ok(current.value); }
      if current.Some? { return Err("one_current_revision_violation"); }
      if store != null { store.AppendDecisionRevision(cad); }
      var lineage := if cad.decisionId in lineages then lineages[cad.decisionId] else [];
      lineages := lineages[cad.decisionId := lineage + [cad]];
      return Ok(cad);
    }

    method CheckCurrent(cad: Cad) returns (b: bool)
      ensures b == IsCurrent(Mem(), cad)
    {
      if cad.decisionId == "" || cad.versionId == "" { return false; }
      var current := CurrentLocked(cad.decisionId);
      return current.Some? && current.value.versionId == cad.versionId;
    }

    method RecordRequest(request: Request) returns (logged: Request, status: RecordStatus)
      modifies Footprint()
      ensures State() == Exec(old(State()), Record(request))
      ensures status == RecordStatusOf(old(Mem()), request)
      ensures if status.DuplicateRevisionRequest? then FirstDuplicate(old(requests), logged, request)
              else logged == Recorded(old(Mem()), request)
    {
      var current := CurrentLocked(request.decisionId);
      var expected := if current.Some? then current.value.revision else 0;
      var i := 0;
      while i < |requests|
        invariant 0 <= i <= |requests|
        invariant forall j | 0 <= j < i :: !Duplicates(requests[j], request)
      {
        if Duplicates(requests[i], request) {
          return requests[i], DuplicateRevisionRequest;
        }
        i := i + 1;
      }
      if request.currentRevision != expected {
        var stale := request.(status := Rejected, rejectReason := "STALE_REVISION_REQUEST");
        if store != null { store.AppendDecisionRevisionRequest(stale); }
        requests := requests + [stale];
        audit := audit + [StaleEntry(request.decisionId, request.requestId, expected, request.currentRevision)];
        return stale, StaleRevisionRequest;
      }
      if store != null { store.AppendDecisionRevisionRequest(request); }
      requests := requests + [request];
      return request, RecordedPending;
    }

    /** Replace the logged rows that carry this request's id. */
    method UpdateRequest(request: Request)
      modifies this`requests
      ensures requests == ReplaceRequest(old(requests), request)
    {
      var i := 0;
      while i < |requests|
        invariant 0 <= i <= |requests| == |old(requests)|
        invariant requests[..i] == ReplaceRequest(old(requests), request)[..i]
        invariant requests[i..] == old(requests)[i..]
      {
        assert requests[i] == requests[i..][0] == old(requests)[i];
        if requests[i].requestId == request.requestId { requests := requests[i := request]; }
        i := i + 1;
      }
    }

    /** Replace the entries of a lineage that carry version `v`. */
    method ReplaceRevision(l: seq<Cad>, v: Id, c: Cad) returns (lineage: seq<Cad>)
      ensures lineage == ReplaceVersion(l, v, c)
    {
      lineage := l;
      var i := 0;
      while i < |lineage|
        invariant 0 <= i <= |lineage| == |l|
        invariant lineage[..i] == ReplaceVersion(l, v, c)[..i]
        invariant lineage[i..] == l[i..]
      {
        assert lineage[i] == lineage[i..][0] == l[i];
        if lineage[i].versionId == v { lineage := lineage[i := c]; }
        i := i + 1;
      }
    }

    method AcceptRevision(oldCad: Cad, newCad: Cad, request: Request) returns (r: Result<Cad>)
      modifies Footprint()
      ensures State() == Exec(old(State()), Accept(oldCad, newCad, request))
      ensures AcceptRefusal(old(Mem()), oldCad, newCad) != "" ==> r == Err(AcceptRefusal(old(Mem()), oldCad, newCad))
      ensures r.Ok? ==> AcceptRefusal(old(Mem()), oldCad, newCad) == ""
      ensures r.Ok? ==> r.value == Succeeding(newCad, oldCad.versionId) && Mem() == AcceptMem(old(Mem()), oldCad, newCad, request)
      ensures r.Err? ==> State() == old(State())
      ensures AcceptRefusal(old(Mem()), oldCad, newCad) == "" ==>
                if store != null && AcceptTransition(old(State()).store, oldCad, newCad, request).Err?
                then r == Err(AcceptTransition(old(State()).store, oldCad, newCad, request).code) else r.Ok?
    {
      var d := oldCad.decisionId;
      if newCad.decisionId != d { return Err("revision_decision_id_mismatch"); }
      if newCad.revision != oldCad.revision + 1 { return Err("revision_not_monotonic"); }
      var current := CheckCurrent(oldCad);
      if !current { return Err("stale_revision_request"); }
      if store != null {
        var durable := store.AcceptDecisionRevisionTransition(oldCad, newCad, request);
        if durable.Err? { return Err(durable.code); }
      }
      var lineage := ReplaceRevision(lineages[d], oldCad.versionId, SupersededBy(oldCad, newCad.versionId));
      lineages := lineages[d := lineage + [Succeeding(newCad, oldCad.versionId)]];
      UpdateRequest(request.(status := Accepted));
      audit := audit + [AcceptedEntry(d, request.requestId, oldCad.versionId, newCad.versionId, request.reasonCode)];
      assert Mem() == AcceptMem(old(Mem()), oldCad, newCad, request);
      return Ok(Succeeding(newCad, oldCad.versionId));
    }

    method RejectRequest(request: Request, reason: string)
      modifies Footprint()
      ensures State() == Exec(old(State()), Reject(request, reason))
      ensures lineages == old(lineages)
    {
      var rejected := RejectedRequest(request, reason);
      if store != null { store.AppendDecisionRevisionRequest(rejected); }
      UpdateRequest(rejected);
      audit := audit + [RejectedEntry(request.decisionId, request.requestId, request.reasonCode, rejected.rejectReason)];
    }

    /** Restore the projection from the store, or fail without choosing a decision. */
    method Rebuild() returns (r: Result<()>)
      modifies this
      ensures store == null ==> Mem() == old(Mem()) && r.Ok?
      ensures store != null ==> exists ids :: RebuiltOver(ids, store.State(), r.Ok?, Mem())
      ensures r.Err? ==> r.code == "rebuild_one_current_violation"
    {
      hide RowsOf, RequestsOf, CountCurrent, RebuiltAudit, OrderedRevisions, OrderedRequests;
      if store == null { return Ok(()); }
      lineages, requests, audit := map[], [], [];
      var ids := store.ListDecisionLineageIds();
      var i := 0;
      while i < |ids|
        invariant 0 <= i <= |ids|
        invariant Ok(Mem()) == RebuildFrom(store.State(), ids[..i])
      {
        var d := ids[i];
        assert ids[..i + 1][..i] == ids[..i];
        var l := OrderedRevisions(store.State(), d);
        if l != [] && CountCurrent(l) != 1 {
          RebuildErrSticks(store.State(), ids, i + 1);
          assert StoppedAt(ids, store.State(), i, Mem());
          assert RebuiltOver(ids, store.State(), false, Mem());
          return Err("rebuild_one_current_violation");
        }
        var rs := OrderedRequests(store.State(), d);
        lineages := lineages[d := l];
        requests := requests + rs;
        audit := audit + RebuiltAudit(d, l, rs);
        i := i + 1;
      }
      assert ids[..i] == ids;
      r := Ok(());
      assert RebuiltOver(ids, store.State(), r.Ok?, Mem());
    }
  }

  /** The sorted listing of the lineages rebuilds to this verdict: on success to this projection, on
      failure with the lineages before the first bad one already in it. */
  ghost predicate RebuiltOver(ids: seq<Id>, s: Durable, ok: bool, p: Projection) {
    && ListsLineages(ids, s) && StableSort.Ascending(ids)
    && (ok <==> RebuildFrom(s, ids).Ok?)
    && (ok ==> RebuildFrom(s, ids) == Ok(p))
    && (!ok ==> exists i :: StoppedAt(ids, s, i, p))
  }

  ghost predicate StoppedAt(ids: seq<Id>, s: Durable, i: int, p: Projection) {
    0 <= i < |ids| && RebuildFrom(s, ids[..i]) == Ok(p) && RebuildFrom(s, ids[..i + 1]).Err?
  }

  lemma {:induction false} RebuildErrSticks(s: Durable, ids: seq<Id>, i: int)
    requires 0 <= i <= |ids| && RebuildFrom(s, ids[..i]).Err?
    ensures RebuildFrom(s, ids).Err?
    decreases |ids|
  {
    if i == |ids| {
      assert ids[..i] == ids;
    } else {
      assert ids[..|ids| - 1][..i] == ids[..i];
      RebuildErrSticks(s, ids[..|ids| - 1], i);
    }
  }

  // ---- re-evaluation --------------------------------------------------------------------

  datatype Evaluation = AcceptedRevision(newCad: Cad) | RejectedRevision(codes: seq<string>) | Raised(code: string)

  /** Everything an evaluation demands before it asks the ledger to accept. */
  ghost predicate Justified(p: Projection, request: Request, current: Cad, br: BusinessResult, st: CaseState,
                            fold: string -> string, freshId: Id) {
    && request.status == Pending && current.decisionId == request.decisionId && IsCurrent(p, current)
    && ProposalOf(br, freshId, fold).Some? && GatesPass(ProposalOf(br, freshId, fold).value, st, fold)
  }

  /** What an evaluation puts before the ledger. */
  function Evaluated(request: Request, current: Cad, br: BusinessResult, st: CaseState, fold: string -> string, freshId: Id): Outcome {
    Canonicalize(ProposalOf(br, freshId, fold), st, fold, current.caseId, current.situationVersion, request.decisionId,
                 freshId, current.revision + 1)
  }

  /** The code an accept raises with, or none. */
  function AcceptCode(s: System, o: Cad, n: Cad, r: Request): string {
    if AcceptRefusal(s.mem, o, n) != "" then AcceptRefusal(s.mem, o, n)
    else if s.backed && AcceptTransition(s.store, o, n, r).Err? then AcceptTransition(s.store, o, n, r).code
    else ""
  }

  /** A justified evaluation is refused by the ledger itself only for a decision whose id is padded or
      whose revision is negative, which no ledger hands out. */
  lemma EvaluationRefusedIff(p: Projection, request: Request, current: Cad, br: BusinessResult, st: CaseState,
                             fold: string -> string, freshId: Id)
    requires freshId != "" && Trim(freshId) == freshId && Justified(p, request, current, br, st, fold, freshId)
    ensures var o := Evaluated(request, current, br, st, fold, freshId);
            o.Frozen? && (AcceptRefusal(p, current, o.cad) != "" <==> Trim(current.decisionId) != current.decisionId || current.revision < 0)
  {
    hide Canonicalize, GatesPass, ProposalOf, Trim, CanonicalPayload, VersionIdOf;
    var proposal := ProposalOf(br, freshId, fold);
    CanonicalizeShape(proposal, st, fold, current.caseId, current.situationVersion, request.decisionId, freshId, current.revision + 1);
    FreezesIffGatesPass(proposal.value, st, fold, current.caseId, current.situationVersion, request.decisionId, freshId, current.revision + 1);
    if Trim(request.decisionId) == "" {
      BlankDecision(proposal, st, fold, current.caseId, current.situationVersion, request.decisionId, freshId, current.revision + 1);
    }
  }

  lemma BlankDecision(proposal: Option<Proposal>, st: CaseState, fold: string -> string, caseId: string, sv: string,
                      decisionId: Id, freshId: Id, revision: int)
    requires freshId != "" && Trim(freshId) == freshId && Trim(decisionId) == ""
    ensures var o := Canonicalize(proposal, st, fold, caseId, sv, decisionId, freshId, revision);
            o.Frozen? ==> o.cad.decisionId == freshId != decisionId
  {
  }

  /** What an accepted evaluation says: a mail to the customer for what business reasoning found missing. */
  lemma EvaluatedContent(br: BusinessResult, st: CaseState, fold: string -> string, caseId: string, sv: string,
                         decisionId: Id, freshId: Id, revision: int)
    requires freshId != "" && Trim(freshId) == freshId
    ensures var o := Canonicalize(ProposalOf(br, freshId, fold), st, fold, caseId, sv, decisionId, freshId, revision);
            o.Frozen? ==>
              && Trim(br.action) == "collect_data" && o.cad.required == NonBlank(br.missing) && o.cad.required != []
              && o.cad.goal == "obtain_missing_service_information" && o.cad.actionType == "ask_for_missing_data"
              && o.cad.target == "customer" && o.cad.channel == "mail" && o.cad.proposalId == freshId
              && o.cad.signature == CanonicalPayload(SCHEMA_VERSION, caseId, sv, o.cad.goal, o.cad.actionType, o.cad.target, o.cad.channel, br.missing)
  {
    hide Canonicalize, ProposalOf, Trim, NonBlank, CanonicalPayload;
    var proposal := ProposalOf(br, freshId, fold);
    ProposalAsksCustomer(br, freshId, fold);
    if proposal.Some? {
      FrozenCarriesProposal(proposal.value, st, fold, caseId, sv, decisionId, freshId, revision);
      FreezesIffGatesPass(proposal.value, st, fold, caseId, sv, decisionId, freshId, revision);
      LiteralsTrimmed();
      NonBlankIdempotent(br.missing);
      SamePayload(SCHEMA_VERSION, caseId, sv, proposal.value, br.missing);
    } else {
      NoProposalFails(st, fold, caseId, sv, decisionId, freshId, revision);
    }
  }

  lemma NoProposalFails(st: CaseState, fold: string -> string, caseId: string, sv: string, decisionId: Id, freshId: Id, revision: int)
    ensures Canonicalize(None, st, fold, caseId, sv, decisionId, freshId, revision) == Failure("", [ProposalIncomplete])
  {
  }

  lemma SamePayload(schema: string, caseId: string, sv: string, p: Proposal, missing: seq<string>)
    requires p.required == NonBlank(missing)
    ensures CanonicalPayload(schema, caseId, sv, p.goal, p.actionType, p.target, p.channel, p.required)
         == CanonicalPayload(schema, caseId, sv, p.goal, p.actionType, p.target, p.channel, missing)
  {
    hide Trim, NonBlank;
    NonBlankIdempotent(missing);
  }

  lemma LiteralsTrimmed()
    ensures Trim("obtain_missing_service_information") == "obtain_missing_service_information"
    ensures Trim("ask_for_missing_data") == "ask_for_missing_data" && Trim("customer") == "customer" && Trim("mail") == "mail"
  {
    hide Trim;
    TrimTrims("obtain_missing_service_information");
    TrimTrims("ask_for_missing_data");
    TrimTrims("customer");
    TrimTrims("mail");
  }

  /** The only path on which a new revision is created. It is rejected exactly when it is not
      justified, and a rejection leaves every lineage as it was; an acceptance extends one lineage
      by a gated successor of `current`. */
  method EvaluateDecisionRevision(ledger: DecisionRevisionLedger, request: Request, current: Cad, br: BusinessResult,
                                  st: CaseState, fold: string -> string, freshId: Id)
    returns (e: Evaluation)
    requires freshId != "" && Trim(freshId) == freshId
    modifies ledger.Footprint()
    ensures e.RejectedRevision? <==> !Justified(old(ledger.Mem()), request, current, br, st, fold, freshId)
    ensures e.Raised? <==>
              Justified(old(ledger.Mem()), request, current, br, st, fold, freshId)
              && var o := Evaluated(request, current, br, st, fold, freshId);
                 o.Frozen? && AcceptCode(old(ledger.State()), current, o.cad, request) != ""
    ensures e.Raised? ==>
              && ledger.State() == old(ledger.State())
              && e.code == AcceptCode(old(ledger.State()), current, Evaluated(request, current, br, st, fold, freshId).cad, request)
    ensures e.RejectedRevision? ==> ledger.lineages == old(ledger.lineages)
    ensures e.RejectedRevision? ==>
              if request.status == Pending && current.decisionId == request.decisionId && old(IsCurrent(ledger.Mem(), current))
              then
                var o := Evaluated(request, current, br, st, fold, freshId);
                var codes := if o.Failure? then ReasonCodes(o.reasons) else [];
                var (reason, extra) := if ProposalOf(br, freshId, fold).None? then ("NO_BOUNDED_CANONICAL_DECISION", ["NO_BOUNDED_CANONICAL_DECISION"])
                                       else ("CANONICALIZATION_FAILED:" + Joined(codes), codes);
                && ledger.State() == Exec(old(ledger.State()), Reject(request, reason))
                && e.codes == ["DECISION_REVISION_REJECTED"] + extra
              else
                && ledger.State() == old(ledger.State())
                && e.codes == [if request.status != Pending then "DECISION_REVISION_REJECTED" else "STALE_REVISION_REQUEST"]
    ensures e.AcceptedRevision? ==>
              && e.newCad.revision == current.revision + 1 && e.newCad.decisionId == current.decisionId
              && e.newCad.caseId == Trim(current.caseId) && e.newCad.situationVersion == Trim(current.situationVersion)
              && e.newCad.status == Current && e.newCad.supersedes == current.versionId
              && Trim(br.action) == "collect_data" && e.newCad.required == NonBlank(br.missing) && e.newCad.required != []
              && e.newCad.goal == "obtain_missing_service_information" && e.newCad.actionType == "ask_for_missing_data"
              && e.newCad.target == "customer" && e.newCad.channel == "mail" && e.newCad.proposalId == freshId
              && e.newCad.signature == CanonicalPayload(SCHEMA_VERSION, current.caseId, current.situationVersion, e.newCad.goal,
                                                        e.newCad.actionType, e.newCad.target, e.newCad.channel, br.missing)
              && ledger.State() == Exec(old(ledger.State()), Accept(current, e.newCad.(supersedes := ""), request))
              && Fresh(e.newCad.(supersedes := ""))
  {
    hide Canonicalize, GatesPass, Exec, ProposalOf, Trim, IsCurrent, AcceptMem, CanonicalPayload, VersionIdOf, Joined, ReasonCodes;
    if request.status != Pending { return RejectedRevision(["DECISION_REVISION_REJECTED"]); }
    var isCurrent := ledger.CheckCurrent(current);
    if current.decisionId != request.decisionId || !isCurrent { return RejectedRevision(["STALE_REVISION_REQUEST"]); }
    var proposal := ProposalOf(br, freshId, fold);
    if proposal.None? {
      ledger.RejectRequest(request, "NO_BOUNDED_CANONICAL_DECISION");
      return RejectedRevision(["DECISION_REVISION_REJECTED", "NO_BOUNDED_CANONICAL_DECISION"]);
    }
    var outcome := Canonicalize(proposal, st, fold, current.caseId, current.situationVersion, request.decisionId, freshId, current.revision + 1);
    CanonicalizeShape(proposal, st, fold, current.caseId, current.situationVersion, request.decisionId, freshId, current.revision + 1);
    FreezesIffGatesPass(proposal.value, st, fold, current.caseId, current.situationVersion, request.decisionId, freshId, current.revision + 1);
    if outcome.Failure? {
      var codes := ReasonCodes(outcome.reasons);
      ledger.RejectRequest(request, "CANONICALIZATION_FAILED:" + Joined(codes));
      return RejectedRevision(["DECISION_REVISION_REJECTED"] + codes);
    }
    var accepted := ledger.AcceptRevision(current, outcome.cad, request);
    if accepted.Err? { return Raised(accepted.code); }
    assert accepted.value.(supersedes := "") == outcome.cad;
    EvaluatedContent(br, st, fold, current.caseId, current.situationVersion, request.decisionId, freshId, current.revision + 1);
    return AcceptedRevision(accepted.value);
  }
}
