/** The durable side of decision revisions: rows keyed by version id, requests keyed
    by request id, and one atomic accept transition. */
module DecisionStore {
  import opened OrderedDict
  import opened CanonicalDecision
  import opened Text
  import StableSort

  datatype Result<+T> = Ok(value: T) | Err(code: string)

  datatype RequestStatus = Pending | Accepted | Rejected | Displaced

  datatype Request = Request(
    requestId: Id, decisionId: Id, currentRevision: int, currentVersionId: Id, reasonCode: string,
    requestedAt: int, status: RequestStatus, rejectReason: string)

  datatype Durable = Durable(revisions: Dict<Id, Cad>, requests: Dict<Id, Request>)

  // ---- transitions -----------------------------------------------------------

  function AppendRevision(s: Durable, row: Cad): Durable {
    if row.versionId == "" || HasKey(s.revisions, row.versionId) then s
    else s.(revisions := Put(s.revisions, row.versionId, row))
  }

  function AppendRequest(s: Durable, row: Request): Durable {
    if row.requestId == "" then s
    else
      match Get(s.requests, row.requestId)
      case None => s.(requests := Put(s.requests, row.requestId, row))
      case Some(was) =>
        var reason := if row.rejectReason != "" then row.rejectReason else was.rejectReason;
        s.(requests := Put(s.requests, row.requestId, was.(status := row.status, rejectReason := reason)))
  }

  function SupersededBy(c: Cad, next: Id): Cad { c.(status := Superseded, supersededBy := next) }

  function Succeeding(c: Cad, previous: Id): Cad { c.(status := Current, supersedes := previous) }

  /** Old row superseded, new row current, request accepted: all of it or none. */
  function AcceptTransition(s: Durable, old_: Cad, new_: Cad, request: Request): Result<Durable> {
    if old_.decisionId == "" || old_.versionId == "" || new_.versionId == "" || request.requestId == "" then Err("ValueError")
    else
      var row := Get(s.revisions, old_.versionId);
      if row.None? || row.value.status != Current then Err("decision_revision_conflict")
      else if HasKey(s.revisions, new_.versionId) then Err("decision_revision_conflict")
      else
        var superseded := Put(s.revisions, old_.versionId, SupersededBy(row.value, new_.versionId));
        var both := Put(superseded, new_.versionId, Succeeding(new_, old_.versionId));
        var stored := Get(s.requests, request.requestId);
        var accepted := if stored.Some? then stored.value.(status := Accepted) else request.(status := Accepted, rejectReason := "");
        Ok(Durable(both, Put(s.requests, request.requestId, accepted)))
  }

  // ---- queries ---------------------------------------------------------------

  /** Rows of one decision in insertion order. */
  function RowsOf(rows: Dict<Id, Cad>, d: Id): seq<Cad> {
    if rows == [] then []
    else
      var n := |rows| - 1;
      RowsOf(rows[..n], d) + (if rows[n].1.decisionId == d then [rows[n].1] else [])
  }

  function RequestsOf(rows: Dict<Id, Request>, d: Id): seq<Request> {
    if rows == [] then []
    else
      var n := |rows| - 1;
      RequestsOf(rows[..n], d) + (if rows[n].1.decisionId == d then [rows[n].1] else [])
  }

  function FetchRevisions(s: Durable, d: Id): seq<Cad> {
    StableSort.SortBy(RowsOf(s.revisions, d), (c: Cad) => c.revision)
  }

  function FetchRequests(s: Durable, d: Id): seq<Request> {
    StableSort.SortBy(RequestsOf(s.requests, d), (r: Request) => r.requestedAt)
  }

  /** A duplicate-free listing of the decisions that have rows. The in-memory store
      sorts it and the SQL store does not, so nothing may depend on its order. */
  ghost predicate ListsLineages(ids: seq<Id>, s: Durable) {
    && (forall i, j | 0 <= i < j < |ids| :: ids[i] != ids[j])
    && (forall d :: d in ids <==> d != "" && RowsOf(s.revisions, d) != [])
  }

  class RevisionStore {
    var revisions: Dict<Id, Cad>
    var requests: Dict<Id, Request>

    function State(): Durable reads this { Durable(revisions, requests) }

    constructor ()
      ensures State() == Durable([], [])
    {
      revisions, requests := [], [];
    }

    method AppendDecisionRevision(row: Cad)
      modifies this
      ensures State() == AppendRevision(old(State()), row)
    {
      if row.versionId == "" { return; }
      if HasKey(revisions, row.versionId) { return; }
      revisions := Put(revisions, row.versionId, row);
    }

    method AppendDecisionRevisionRequest(row: Request)
      modifies this
      ensures State() == AppendRequest(old(State()), row)
    {
      if row.requestId == "" { return; }
      var existing := Get(requests, row.requestId);
      if existing.Some? {
        var kept := existing.value.(status := row.status);
        if row.rejectReason != "" { kept := kept.(rejectReason := row.rejectReason); }
        requests := Put(requests, row.requestId, kept);
      } else {
        requests := Put(requests, row.requestId, row);
      }
    }

    /** On an error the stored state is untouched. */
    method AcceptDecisionRevisionTransition(oldCad: Cad, newCad: Cad, request: Request) returns (r: Result<()>)
      modifies this
      ensures var spec := AcceptTransition(old(State()), oldCad, newCad, request);
              && (spec.Ok? <==> r.Ok?)
              && State() == (if spec.Ok? then spec.value else old(State()))
              && (spec.Err? ==> r == Err(spec.code))
    {
      if oldCad.decisionId == "" || oldCad.versionId == "" || newCad.versionId == "" || request.requestId == "" {
        return Err("ValueError");
      }
      var row := Get(revisions, oldCad.versionId);
      if row.None? || row.value.status != Current {
        return Err("decision_revision_conflict");
      }
      if HasKey(revisions, newCad.versionId) {
        return Err("decision_revision_conflict");
      }
      revisions := Put(revisions, oldCad.versionId, SupersededBy(row.value, newCad.versionId));
      revisions := Put(revisions, newCad.versionId, Succeeding(newCad, oldCad.versionId));
      var stored := Get(requests, request.requestId);
      if stored.Some? {
        requests := Put(requests, request.requestId, stored.value.(status := Accepted));
      } else {
        requests := Put(requests, request.requestId, request.(status := Accepted, rejectReason := ""));
      }
      return Ok(());
    }

    method ListDecisionLineageIds() returns (ids: seq<Id>)
      ensures ListsLineages(ids, State()) && StableSort.Ascending(ids)
    {
      hide RowsOf;
      ids := [];
      NoRowsYet(revisions);
      var i := 0;
      while i < |revisions|
        invariant 0 <= i <= |revisions|
        invariant forall i, j | 0 <= i < j < |ids| :: ids[i] != ids[j]
        invariant forall d :: d in ids <==> d != "" && RowsOf(revisions[..i], d) != []
      {
        var d := revisions[i].1.decisionId;
        RowsGrow(revisions, i);
        if d != "" && d !in ids { ids := ids + [d]; }
        i := i + 1;
      }
      assert revisions[..i] == revisions;
      SortedListing(ids, State());
      ids := StableSort.SortStrings(ids);
    }
  }

  lemma NoRowsYet(rows: Dict<Id, Cad>)
    ensures forall d :: RowsOf(rows[..0], d) == []
  {
  }

  lemma RowsGrow(rows: Dict<Id, Cad>, i: int)
    requires 0 <= i < |rows|
    ensures forall d :: RowsOf(rows[..i + 1], d) != [] <==> RowsOf(rows[..i], d) != [] || d == rows[i].1.decisionId
  {
    assert rows[..i + 1][..i] == rows[..i];
  }

  /** Sorting a listing gives a listing. */
  lemma SortedListing(ids: seq<Id>, s: Durable)
    requires ListsLineages(ids, s)
    ensures ListsLineages(StableSort.SortStrings(ids), s) && StableSort.Ascending(StableSort.SortStrings(ids))
  {
    hide RowsOf, StableSort.Ascending;
    var sorted := StableSort.SortStrings(ids);
    StableSort.SortStringsSorts(ids);
    var self := (d: Id) => d;
    assert StableSort.DistinctBy(ids, self);
    StableSort.PermutationKeepsDistinct(ids, sorted, self);
    forall i, j | 0 <= i < j < |sorted| ensures sorted[i] != sorted[j] { assert self(sorted[i]) != self(sorted[j]); }
    forall d ensures d in sorted <==> d in ids {
      assert d in sorted <==> d in multiset(sorted);
      assert d in ids <==> d in multiset(ids);
    }
  }

  // ---- no fork, for every schedule of durable writes -----------------------------

  datatype DurableOp = AppendRow(cad: Cad) | AppendReq(request: Request) | AcceptRow(old_: Cad, new_: Cad, request: Request)

  function ApplyOp(s: Durable, op: DurableOp): Durable {
    match op
    case AppendRow(c) => AppendRevision(s, c)
    case AppendReq(r) => AppendRequest(s, r)
    case AcceptRow(o, n, r) =>
      var t := AcceptTransition(s, o, n, r);
      if t.Ok? then t.value else s
  }

  function ApplyOps(s: Durable, ops: seq<DurableOp>): Durable
    decreases |ops|
  {
    if ops == [] then s else ApplyOps(ApplyOp(s, ops[0]), ops[1..])
  }

  predicate AcceptsFrom(s: Durable, op: DurableOp, v: Id) {
    op.AcceptRow? && op.old_.versionId == v && AcceptTransition(s, op.old_, op.new_, op.request).Ok?
  }

  /** How many accept calls that hold version `v` as current succeed along a schedule. */
  function Successes(s: Durable, ops: seq<DurableOp>, v: Id): nat
    decreases |ops|
  {
    if ops == [] then 0
    else (if AcceptsFrom(s, ops[0], v) then 1 else 0) + Successes(ApplyOp(s, ops[0]), ops[1..], v)
  }

  predicate Spent(s: Durable, v: Id) {
    Distinct(s.revisions) && Get(s.revisions, v).Some? && Get(s.revisions, v).value.status == Superseded
  }

  lemma OpKeepsDistinct(s: Durable, op: DurableOp)
    requires Distinct(s.revisions)
    ensures Distinct(ApplyOp(s, op).revisions)
  {
    match op
    case AppendRow(c) => PutShape(s.revisions, c.versionId, c);
    case AppendReq(_) =>
    case AcceptRow(o, n, r) =>
      if AcceptTransition(s, o, n, r).Ok? {
        var row := SupersededBy(Get(s.revisions, o.versionId).value, n.versionId);
        PutShape(s.revisions, o.versionId, row);
        PutShape(Put(s.revisions, o.versionId, row), n.versionId, Succeeding(n, o.versionId));
      }
  }

  /** A superseded version is never current again, whatever is written. */
  lemma OpKeepsSpent(s: Durable, op: DurableOp, v: Id)
    requires Spent(s, v)
    ensures Spent(ApplyOp(s, op), v)
  {
    OpKeepsDistinct(s, op);
    match op
    case AppendRow(c) => GetPut(s.revisions, c.versionId, c, v);
    case AppendReq(_) =>
    case AcceptRow(o, n, r) =>
      if AcceptTransition(s, o, n, r).Ok? { AcceptReads(s, o, n, r, v); }
  }

  lemma AcceptReads(s: Durable, o: Cad, n: Cad, r: Request, v: Id)
    requires Distinct(s.revisions) && AcceptTransition(s, o, n, r).Ok?
    ensures var t := AcceptTransition(s, o, n, r).value;
            Get(t.revisions, v) == if v == n.versionId then Some(Succeeding(n, o.versionId))
                                   else if v == o.versionId then Some(SupersededBy(Get(s.revisions, v).value, n.versionId))
                                   else Get(s.revisions, v)
  {
    var row := SupersededBy(Get(s.revisions, o.versionId).value, n.versionId);
    var mid := Put(s.revisions, o.versionId, row);
    PutShape(s.revisions, o.versionId, row);
    GetPut(s.revisions, o.versionId, row, v);
    GetPut(mid, n.versionId, Succeeding(n, o.versionId), v);
  }

  lemma {:induction false} SpentNeverAccepts(s: Durable, ops: seq<DurableOp>, v: Id)
    requires Spent(s, v)
    ensures Successes(s, ops, v) == 0
    decreases |ops|
  {
    if ops != [] {
      OpKeepsSpent(s, ops[0], v);
      SpentNeverAccepts(ApplyOp(s, ops[0]), ops[1..], v);
    }
  }

  /** No fork: along every schedule of writes by any number of processes, with no
      assumption on what they write, at most one accept from a given version succeeds. */
  lemma {:induction false} AtMostOneSuccessor(s: Durable, ops: seq<DurableOp>, v: Id)
    requires Distinct(s.revisions)
    ensures Successes(s, ops, v) <= 1
    decreases |ops|
  {
    if ops != [] {
      var op := ops[0];
      OpKeepsDistinct(s, op);
      if AcceptsFrom(s, op, v) {
        AcceptReads(s, op.old_, op.new_, op.request, v);
        SpentNeverAccepts(ApplyOp(s, op), ops[1..], v);
      } else {
        AtMostOneSuccessor(ApplyOp(s, op), ops[1..], v);
      }
    }
  }

  // ---- well-formed lineages ------------------------------------------------------

  /** One chain: consecutive revisions, exactly the last one current, and links
      through neighbours only. */
  ghost predicate Chain(l: seq<Cad>, d: Id) {
    && |l| > 0 && l[0].revision >= 1 && d != "" && Trim(d) == d
    && (forall i | 0 <= i < |l| ::
          && l[i].decisionId == d && l[i].revision == l[0].revision + i
          && l[i].versionId == VersionIdOf(d, l[i].revision)
          && (l[i].status == Current <==> i == |l| - 1))
    && l[0].supersedes == "" && l[|l| - 1].supersededBy == ""
    && (forall i, j | 0 <= i < |l| && j == i + 1 < |l| ::
          l[j].supersedes == l[i].versionId && l[i].supersededBy == l[j].versionId)
  }

  ghost predicate Keyed(rows: Dict<Id, Cad>) {
    Distinct(rows) && forall i | 0 <= i < |rows| :: rows[i].0 == rows[i].1.versionId
  }

  ghost predicate Chained(rows: Dict<Id, Cad>, d: Id) {
    RowsOf(rows, d) != [] ==> Chain(RowsOf(rows, d), d)
  }

  /** Every stored lineage is one chain. */
  ghost predicate StoreInv(s: Durable) {
    Keyed(s.revisions) && forall d :: Chained(s.revisions, d)
  }

  lemma {:induction false} RowsOfMember(rows: Dict<Id, Cad>, d: Id, c: Cad)
    ensures c in RowsOf(rows, d) <==> c.decisionId == d && exists i | 0 <= i < |rows| :: rows[i].1 == c
  {
    if rows != [] {
      var n := |rows| - 1;
      RowsOfMember(rows[..n], d, c);
      assert forall i | 0 <= i < n :: rows[..n][i] == rows[i];
    }
  }

  lemma RowsOfAppend(rows: Dict<Id, Cad>, e: (Id, Cad), d: Id)
    ensures RowsOf(rows + [e], d) == RowsOf(rows, d) + (if e.1.decisionId == d then [e.1] else [])
  {
    assert (rows + [e])[..|rows|] == rows;
  }

  /** Rewriting one row in place rewrites one element of its lineage. */
  lemma {:induction false} RowsOfUpdate(rows: Dict<Id, Cad>, i: int, c: Cad, d: Id) returns (p: int)
    requires 0 <= i < |rows| && c.decisionId == rows[i].1.decisionId
    ensures d != c.decisionId ==> RowsOf(rows[i := (rows[i].0, c)], d) == RowsOf(rows, d)
    ensures d == c.decisionId ==>
              && 0 <= p < |RowsOf(rows, d)| && RowsOf(rows, d)[p] == rows[i].1
              && RowsOf(rows[i := (rows[i].0, c)], d) == RowsOf(rows, d)[p := c]
  {
    var n := |rows| - 1;
    var rows' := rows[i := (rows[i].0, c)];
    if i == n {
      p := |RowsOf(rows[..n], d)|;
      assert rows'[..n] == rows[..n];
    } else {
      assert rows'[..n] == rows[..n][i := (rows[i].0, c)];
      p := RowsOfUpdate(rows[..n], i, c, d);
    }
  }

  /** Two chain entries with one version id are one entry. */
  lemma ChainVersionsDistinct(l: seq<Cad>, d: Id, i: int, j: int)
    requires Chain(l, d) && 0 <= i < |l| && 0 <= j < |l| && l[i].versionId == l[j].versionId
    ensures i == j
  {
    VersionIdInjective(d, l[i].revision, d, l[j].revision);
  }

  lemma ChainSorted(l: seq<Cad>, d: Id)
    requires Chain(l, d)
    ensures StableSort.SortBy(l, (c: Cad) => c.revision) == l
  {
    StableSort.SortByIdentity(l, (c: Cad) => c.revision);
  }

  /** A new revision offered for `old_`, in the shape the canonical boundary produces. */
  ghost predicate Successor(old_: Cad, new_: Cad) {
    && old_.revision >= 1 && old_.decisionId != "" && Trim(old_.decisionId) == old_.decisionId
    && old_.versionId == VersionIdOf(old_.decisionId, old_.revision)
    && new_.decisionId == old_.decisionId && new_.revision == old_.revision + 1
    && new_.versionId == VersionIdOf(new_.decisionId, new_.revision) && new_.supersededBy == ""
  }

  /** The lineage after `n` succeeds its last entry. */
  function ExtendedBy(l: seq<Cad>, n: Cad): seq<Cad> {
    if l == [] then [n]
    else l[|l| - 1 := SupersededBy(l[|l| - 1], n.versionId)] + [Succeeding(n, l[|l| - 1].versionId)]
  }

  lemma ChainExtends(l: seq<Cad>, d: Id, n: Cad)
    requires Chain(l, d) && n.decisionId == d && n.revision == l[|l| - 1].revision + 1
    requires n.versionId == VersionIdOf(d, n.revision) && n.supersededBy == ""
    ensures Chain(ExtendedBy(l, n), d)
  {
    var k := |l| - 1;
    var l' := ExtendedBy(l, n);
    forall i, j | 0 <= i < |l'| && j == i + 1 < |l'|
      ensures l'[j].supersedes == l'[i].versionId && l'[i].supersededBy == l'[j].versionId
    {
      if i < k { assert l[j].supersedes == l[i].versionId && l[i].supersededBy == l[j].versionId; }
    }
  }

  /** A current row is the last of its chain, and its version id fixes decision and revision. */
  lemma CurrentIsLast(l: seq<Cad>, d: Id, q: int, e: Id, r: int)
    requires Chain(l, d) && 0 <= q < |l| && l[q].status == Current
    requires r >= 1 && Trim(e) == e && l[q].versionId == VersionIdOf(e, r)
    ensures q == |l| - 1 && d == e && l[q].revision == r
  {
    VersionIdInjective(d, l[q].revision, e, r);
  }

  /** The row a present version id stands for sits in its decision's chain. */
  lemma KeyedRow(s: Durable, v: Id) returns (row: Cad)
    requires StoreInv(s) && HasKey(s.revisions, v)
    ensures row == s.revisions[Find(s.revisions, v)].1
    ensures row.versionId == v && row in RowsOf(s.revisions, row.decisionId)
    ensures Chain(RowsOf(s.revisions, row.decisionId), row.decisionId)
  {
    hide Chain;
    row := s.revisions[Find(s.revisions, v)].1;
    RowsOfMember(s.revisions, row.decisionId, row);
    assert Chained(s.revisions, row.decisionId);
  }

  /** Where a successful accept finds its old row. */
  lemma AcceptTarget(s: Durable, o: Cad, n: Cad, r: Request)
    requires StoreInv(s) && Successor(o, n) && AcceptTransition(s, o, n, r).Ok?
    ensures var l := RowsOf(s.revisions, o.decisionId);
            && Chain(l, o.decisionId) && l[|l| - 1].revision == o.revision
            && l[|l| - 1] == s.revisions[Find(s.revisions, o.versionId)].1
            && l[|l| - 1].versionId == o.versionId
  {
    var row := KeyedRow(s, o.versionId);
    var l := RowsOf(s.revisions, row.decisionId);
    var q :| 0 <= q < |l| && l[q] == row;
    CurrentIsLast(l, row.decisionId, q, o.decisionId, o.revision);
  }

  /** What a successful accept does to every lineage, given where its old row sits. */
  lemma AcceptExtendsAt(s: Durable, o: Cad, n: Cad, r: Request, d: Id)
    requires AcceptTransition(s, o, n, r).Ok? && n.decisionId == o.decisionId
    requires var l := RowsOf(s.revisions, o.decisionId);
             Chain(l, o.decisionId) && l[|l| - 1] == s.revisions[Find(s.revisions, o.versionId)].1 && l[|l| - 1].versionId == o.versionId
    ensures var t := AcceptTransition(s, o, n, r).value;
            RowsOf(t.revisions, d) == if d == o.decisionId then ExtendedBy(RowsOf(s.revisions, d), n) else RowsOf(s.revisions, d)
  {
    hide Chain, AcceptTransition, RowsOf, Find;
    var l := RowsOf(s.revisions, o.decisionId);
    ChainLast(l, o.decisionId);
    AcceptWrites(s, o, n, r);
    var i := Find(s.revisions, o.versionId);
    var c := SupersededBy(l[|l| - 1], n.versionId);
    UpdatedAt(s.revisions, i, c, l, d);
    RowsOfAppend(s.revisions[i := (o.versionId, c)], (n.versionId, Succeeding(n, o.versionId)), d);
  }

  /** The two rows a successful accept writes. */
  lemma AcceptWrites(s: Durable, o: Cad, n: Cad, r: Request)
    requires AcceptTransition(s, o, n, r).Ok?
    ensures var i := Find(s.revisions, o.versionId);
            && 0 <= i < |s.revisions| && s.revisions[i].0 == o.versionId
            && AcceptTransition(s, o, n, r).value.revisions
               == s.revisions[i := (o.versionId, SupersededBy(s.revisions[i].1, n.versionId))] + [(n.versionId, Succeeding(n, o.versionId))]
  {
  }

  /** The same for a canonical successor. */
  lemma AcceptExtends(s: Durable, o: Cad, n: Cad, r: Request, d: Id)
    requires StoreInv(s) && Successor(o, n) && AcceptTransition(s, o, n, r).Ok?
    ensures var t := AcceptTransition(s, o, n, r).value;
            RowsOf(t.revisions, d) == if d == o.decisionId then ExtendedBy(RowsOf(s.revisions, d), n) else RowsOf(s.revisions, d)
  {
    hide Chain, StoreInv, AcceptTransition, RowsOf, ExtendedBy;
    AcceptTarget(s, o, n, r);
    AcceptExtendsAt(s, o, n, r, d);
  }

  lemma ChainLast(l: seq<Cad>, d: Id)
    requires Chain(l, d)
    ensures l != [] && l[|l| - 1].decisionId == d
    ensures forall q | 0 <= q < |l| && l[q] == l[|l| - 1] :: q == |l| - 1
  {
  }

  lemma UpdatedAt(rows: Dict<Id, Cad>, i: int, c: Cad, l: seq<Cad>, d: Id)
    requires 0 <= i < |rows| && c.decisionId == rows[i].1.decisionId
    requires l == RowsOf(rows, c.decisionId) && l != [] && rows[i].1 == l[|l| - 1]
    requires forall q | 0 <= q < |l| && l[q] == l[|l| - 1] :: q == |l| - 1
    ensures RowsOf(rows[i := (rows[i].0, c)], d) == if d == c.decisionId then l[|l| - 1 := c] else RowsOf(rows, d)
  {
    var p := RowsOfUpdate(rows, i, c, d);
  }

  lemma AcceptKeepsStoreInv(s: Durable, o: Cad, n: Cad, r: Request)
    requires StoreInv(s) && Successor(o, n) && AcceptTransition(s, o, n, r).Ok?
    ensures StoreInv(AcceptTransition(s, o, n, r).value)
  {
    hide Chain;
    var t := AcceptTransition(s, o, n, r).value;
    OpKeepsDistinct(s, AcceptRow(o, n, r));
    AcceptTarget(s, o, n, r);
    ChainExtends(RowsOf(s.revisions, o.decisionId), o.decisionId, n);
    forall d ensures Chained(t.revisions, d) {
      AcceptExtends(s, o, n, r, d);
      assert Chained(s.revisions, d);
    }
  }

  lemma SingleChain(c: Cad)
    requires Fresh(c)
    ensures Chain([c], c.decisionId)
  {
  }

  /** Registering a decision that has no rows starts a chain. */
  lemma AppendStartsChain(s: Durable, c: Cad)
    requires StoreInv(s) && Fresh(c) && RowsOf(s.revisions, c.decisionId) == []
    ensures AppendRevision(s, c).revisions == s.revisions + [(c.versionId, c)]
    ensures forall d :: RowsOf(AppendRevision(s, c).revisions, d) == if d == c.decisionId then [c] else RowsOf(s.revisions, d)
    ensures StoreInv(AppendRevision(s, c))
  {
    hide Chain;
    var t := AppendRevision(s, c);
    if HasKey(s.revisions, c.versionId) {
      var row := KeyedRow(s, c.versionId);
      ChainMember(RowsOf(s.revisions, row.decisionId), row.decisionId, row);
      VersionIdInjective(row.decisionId, row.revision, c.decisionId, c.revision);
      assert false;
    }
    PutShape(s.revisions, c.versionId, c);
    SingleChain(c);
    forall d ensures RowsOf(t.revisions, d) == (if d == c.decisionId then [c] else RowsOf(s.revisions, d)) && Chained(t.revisions, d) {
      RowsOfAppend(s.revisions, (c.versionId, c), d);
      assert Chained(s.revisions, d);
    }
  }

  lemma ChainMember(l: seq<Cad>, d: Id, c: Cad)
    requires Chain(l, d) && c in l
    ensures Trim(d) == d && c.decisionId == d && c.versionId == VersionIdOf(d, c.revision) && c.revision >= 1
  {
  }

  /** Writing a first revision keeps every lineage one chain exactly when it is not a second
      beginning: the version is stored already, or the decision has no rows. */
  lemma AppendKeepsStoreInvIff(s: Durable, c: Cad)
    requires StoreInv(s) && Fresh(c)
    ensures StoreInv(AppendRevision(s, c)) <==> HasKey(s.revisions, c.versionId) || RowsOf(s.revisions, c.decisionId) == []
  {
    hide Chain;
    var l := RowsOf(s.revisions, c.decisionId);
    if l == [] {
      AppendStartsChain(s, c);
    } else if !HasKey(s.revisions, c.versionId) {
      PutShape(s.revisions, c.versionId, c);
      RowsOfAppend(s.revisions, (c.versionId, c), c.decisionId);
      assert Chained(s.revisions, c.decisionId);
      TwoCurrent(l, c, c.decisionId);
      assert !Chained(AppendRevision(s, c).revisions, c.decisionId);
    }
  }

  lemma TwoCurrent(l: seq<Cad>, c: Cad, d: Id)
    requires Chain(l, d) && c.status == Current
    ensures !Chain(l + [c], d)
  {
    assert (l + [c])[|l| - 1].status == Current;
  }

  // ---- many processes, possibly stale, over one store ------------------------------

  /** Every stored lineage of `d` begins at revision `first(d)`. */
  ghost predicate StartsAt(s: Durable, first: Id -> int) {
    forall d :: RowsOf(s.revisions, d) != [] ==> RowsOf(s.revisions, d)[0].revision == first(d)
  }

  /** What any process may ask of the store: register a decision at the revision all processes start
      it from, log a request, or accept a canonical successor of whatever it believes to be current. */
  ghost predicate Canonical(op: DurableOp, first: Id -> int) {
    match op
    case AppendRow(c) => Fresh(c) && c.revision == first(c.decisionId)
    case AppendReq(_) => true
    case AcceptRow(o, n, _) => Successor(o, n)
  }

  lemma AppendKeepsChains(s: Durable, c: Cad, first: Id -> int)
    requires StoreInv(s) && StartsAt(s, first) && Fresh(c) && c.revision == first(c.decisionId)
    ensures StoreInv(ApplyOp(s, AppendRow(c))) && StartsAt(ApplyOp(s, AppendRow(c)), first)
  {
    hide Chain;
    var l := RowsOf(s.revisions, c.decisionId);
    if l == [] {
      AppendStartsChain(s, c);
    } else {
      RowsOfMember(s.revisions, c.decisionId, l[0]);
      assert Chained(s.revisions, c.decisionId);
      ChainMember(l, c.decisionId, l[0]);
      assert l[0].versionId == c.versionId;
    }
  }

  lemma AcceptKeepsChains(s: Durable, o: Cad, n: Cad, r: Request, first: Id -> int)
    requires StoreInv(s) && StartsAt(s, first) && Successor(o, n)
    ensures StoreInv(ApplyOp(s, AcceptRow(o, n, r))) && StartsAt(ApplyOp(s, AcceptRow(o, n, r)), first)
  {
    hide Chain, StoreInv;
    if AcceptTransition(s, o, n, r).Ok? {
      AcceptKeepsStoreInv(s, o, n, r);
      AcceptTarget(s, o, n, r);
      var t := ApplyOp(s, AcceptRow(o, n, r));
      forall d | RowsOf(t.revisions, d) != [] ensures RowsOf(t.revisions, d)[0].revision == first(d) {
        AcceptExtends(s, o, n, r, d);
      }
    }
  }

  lemma CanonicalOpKeepsChains(s: Durable, op: DurableOp, first: Id -> int)
    requires StoreInv(s) && StartsAt(s, first) && Canonical(op, first)
    ensures StoreInv(ApplyOp(s, op)) && StartsAt(ApplyOp(s, op), first)
  {
    match op
    case AppendRow(c) => AppendKeepsChains(s, c, first);
    case AppendReq(_) =>
    case AcceptRow(o, n, r) => AcceptKeepsChains(s, o, n, r, first);
  }

  /** Whatever stale views the processes act on, as long as they start each decision from one revision,
      every stored lineage stays one chain with exactly one current revision. */
  lemma {:induction false} EveryScheduleKeepsChains(s: Durable, ops: seq<DurableOp>, first: Id -> int)
    requires StoreInv(s) && StartsAt(s, first) && forall i | 0 <= i < |ops| :: Canonical(ops[i], first)
    ensures StoreInv(ApplyOps(s, ops)) && StartsAt(ApplyOps(s, ops), first)
    decreases |ops|
  {
    hide StoreInv, StartsAt;
    if ops != [] {
      CanonicalOpKeepsChains(s, ops[0], first);
      EveryScheduleKeepsChains(ApplyOp(s, ops[0]), ops[1..], first);
    }
  }
}
