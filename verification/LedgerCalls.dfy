/** What each ledger call does, on the whole state and in terms of the entries themselves: which
    revision is in force, which request is already logged, what is appended and what is replaced. */
module LedgerCalls {
  import opened OrderedDict
  import opened CanonicalDecision
  import opened DecisionStore
  import opened DecisionLedger
  import opened LedgerRuns
  import opened Text
  import StableSort

  // ---- the revision in force ------------------------------------------------------------

  /** Entry `i` is the last one marked current. */
  predicate LastCurrentAt(l: seq<Cad>, i: int) {
    0 <= i < |l| && l[i].status == Current && forall j | i < j < |l| :: l[j].status != Current
  }

  predicate NoneCurrent(l: seq<Cad>) { forall j | 0 <= j < |l| :: l[j].status != Current }

  /** Revision `v` is in force: that of the last current entry, or 0 if there is none. */
  ghost predicate InForce(l: seq<Cad>, v: int) {
    (NoneCurrent(l) && v == 0) || exists i :: LastCurrentAt(l, i) && l[i].revision == v
  }

  lemma {:induction false} CurrentOfPosition(l: seq<Cad>) returns (i: int)
    ensures CurrentOf(l).None? ==> NoneCurrent(l)
    ensures CurrentOf(l).Some? ==> LastCurrentAt(l, i) && CurrentOf(l) == Some(l[i])
  {
    i := |l| - 1;
    if l != [] && l[i].status != Current { i := CurrentOfPosition(l[..i]); }
  }

  lemma CurrentOfIsLast(l: seq<Cad>)
    ensures CurrentOf(l).None? <==> NoneCurrent(l)
    ensures forall i | LastCurrentAt(l, i) :: CurrentOf(l) == Some(l[i])
    ensures CurrentOf(l).Some? ==> exists i :: LastCurrentAt(l, i)
  {
    hide CurrentOf;
    var k := CurrentOfPosition(l);
    forall i | LastCurrentAt(l, i) ensures CurrentOf(l) == Some(l[i]) {
      assert CurrentOf(l).Some? ==> i == k;
    }
  }

  lemma InForceIs(p: Projection, d: Id, v: int)
    ensures InForce(Lineage(p, d), v) <==> CurrentRevision(p, d) == v
  {
    var l := Lineage(p, d);
    CurrentOfIsLast(l);
    if !NoneCurrent(l) {
      var i :| LastCurrentAt(l, i);
      assert CurrentOf(l) == Some(l[i]);
    }
  }

  // ---- record ----------------------------------------------------------------------------

  /** The log holds the id, or the same question pending. */
  ghost predicate AlreadyLogged(rs: seq<Request>, r: Request) {
    exists e :: e in rs && (|| e.requestId == r.requestId
                            || (e.status == Pending && e.decisionId == r.decisionId
                                && e.currentRevision == r.currentRevision && e.reasonCode == r.reasonCode))
  }

  lemma AlreadyLoggedIs(p: Projection, r: Request)
    ensures AlreadyLogged(p.requests, r) <==> RecordStatusOf(p, r) == DuplicateRevisionRequest
  {
    if AlreadyLogged(p.requests, r) {
      var e :| e in p.requests && (e.requestId == r.requestId
               || (e.status == Pending && e.decisionId == r.decisionId && e.currentRevision == r.currentRevision && e.reasonCode == r.reasonCode));
      assert Duplicates(e, r);
    }
  }

  /** Recording changes nothing for a request already logged; logs one that names the revision in force
      as it is; and logs any other as rejected, with one audit entry of what was expected and what came.
      The durable row is the logged one. */
  lemma RecordExact(s: System, r: Request, expected: int)
    requires InForce(Lineage(s.mem, r.decisionId), expected)
    ensures var t := Exec(s, Record(r));
            if AlreadyLogged(s.mem.requests, r) then t == s
            else
              var row := if r.currentRevision == expected then r else r.(status := Rejected, rejectReason := "STALE_REVISION_REQUEST");
              && t.mem.lineages == s.mem.lineages && t.mem.requests == s.mem.requests + [row] && t.backed == s.backed
              && t.mem.audit == (if r.currentRevision == expected then s.mem.audit
                                 else s.mem.audit + [StaleEntry(r.decisionId, r.requestId, expected, r.currentRevision)])
              && t.store == (if s.backed then AppendRequest(s.store, row) else s.store)
  {
    hide CurrentOf, AppendRequest;
    InForceIs(s.mem, r.decisionId, expected);
    AlreadyLoggedIs(s.mem, r);
  }

  /** Request `q` was recorded by step `i` of the run, when the revision it names was in force. */
  ghost predicate RecordedInForce(s: System, steps: seq<Step>, i: int, q: Request) {
    && 0 <= i < |steps| && steps[i] == Record(q)
    && var p := ExecAll(s, steps[..i]).mem; InForce(Lineage(p, q.decisionId), q.currentRevision) && !AlreadyLogged(p.requests, q)
  }

  lemma PendingKept(s: System, step: Step, q: Request)
    requires q in Exec(s, step).mem.requests && q.status == Pending
    ensures q in s.mem.requests || (step == Record(q) && !AlreadyLogged(s.mem.requests, q) && InForce(Lineage(s.mem, q.decisionId), q.currentRevision))
  {
    hide CurrentOf, AppendRequest, AppendRevision, AcceptTransition, AlreadyLogged, InForce;
    match step
    case Register(_) =>
    case Record(r) =>
      InForceIs(s.mem, r.decisionId, CurrentRevision(s.mem, r.decisionId));
      RecordExact(s, r, CurrentRevision(s.mem, r.decisionId));
    case Accept(o, n, r) =>
      var i :| 0 <= i < |Exec(s, step).mem.requests| && Exec(s, step).mem.requests[i] == q;
    case Reject(r, reason) =>
      var i :| 0 <= i < |Exec(s, step).mem.requests| && Exec(s, step).mem.requests[i] == q;
  }

  /** Over every run from an empty log: a pending request in the log was recorded as it is, at a moment
      when the revision it names was in force. */
  lemma {:induction false} PendingWasInForce(s: System, steps: seq<Step>, q: Request) returns (i: int)
    requires s.mem.requests == [] && q in ExecAll(s, steps).mem.requests && q.status == Pending
    ensures RecordedInForce(s, steps, i, q)
  {
    hide Exec, InForce, AlreadyLogged;
    var n := |steps| - 1;
    PendingKept(ExecAll(s, steps[..n]), steps[n], q);
    if q in ExecAll(s, steps[..n]).mem.requests {
      i := PendingWasInForce(s, steps[..n], q);
      assert steps[..n][..i] == steps[..i];
    } else {
      i := n;
    }
  }

  // ---- register ---------------------------------------------------------------------------

  /** Registering appends a decision with an identity to a lineage without a current entry, in ledger and
      store, and does nothing otherwise. */
  lemma RegisterExact(s: System, c: Cad)
    ensures var t := Exec(s, Register(c)); var l := Lineage(s.mem, c.decisionId);
            if c.decisionId != "" && c.versionId != "" && NoneCurrent(l)
            then t == s.(mem := s.mem.(lineages := s.mem.lineages[c.decisionId := l + [c]]), store := if s.backed then AppendRevision(s.store, c) else s.store)
            else t == s
  {
    hide CurrentOf, AppendRevision;
    CurrentOfIsLast(Lineage(s.mem, c.decisionId));
  }

  /** What the caller is told: the current entry again if it is the same version, an error otherwise. */
  lemma RegisterAnswers(p: Projection, c: Cad, i: int)
    requires c.decisionId != "" && c.versionId != "" && LastCurrentAt(Lineage(p, c.decisionId), i)
    ensures var cur := Lineage(p, c.decisionId)[i];
            RegisterMem(p, c) == if cur.versionId == c.versionId then AlreadyCurrent(cur) else Refused("one_current_revision_violation")
  {
    hide CurrentOf;
    CurrentOfIsLast(Lineage(p, c.decisionId));
  }

  // ---- accept and reject -------------------------------------------------------------------

  /** Version `v` is in force. */
  ghost predicate VersionInForce(l: seq<Cad>, v: Id) { exists i :: LastCurrentAt(l, i) && l[i].versionId == v }

  /** Why an accept is refused, in order. */
  lemma AcceptRefusalExact(p: Projection, o: Cad, n: Cad)
    ensures AcceptRefusal(p, o, n) ==
            if n.decisionId != o.decisionId then "revision_decision_id_mismatch"
            else if n.revision - o.revision != 1 then "revision_not_monotonic"
            else if o.decisionId == "" || o.versionId == "" || !VersionInForce(Lineage(p, o.decisionId), o.versionId) then "stale_revision_request"
            else ""
  {
    hide CurrentOf;
    var l := Lineage(p, o.decisionId);
    CurrentOfIsLast(l);
    if !NoneCurrent(l) {
      var i :| LastCurrentAt(l, i);
      assert CurrentOf(l) == Some(l[i]);
    }
  }

  /** The log after a request was settled: every row with its id is the settled one, the rest stay. */
  predicate SettledIn(before: seq<Request>, after: seq<Request>, q: Request) {
    |after| == |before| && forall i | 0 <= i < |before| :: after[i] == if before[i].requestId == q.requestId then q else before[i]
  }

  /** An accept that goes through settles its request, adds one entry to the trail, and touches one lineage. */
  lemma AcceptExact(s: System, o: Cad, n: Cad, r: Request)
    requires AcceptRefusal(s.mem, o, n) == "" && (s.backed ==> AcceptTransition(s.store, o, n, r).Ok?)
    ensures var t := Exec(s, Accept(o, n, r));
            && SettledIn(s.mem.requests, t.mem.requests, r.(status := Accepted))
            && t.mem.audit == s.mem.audit + [AcceptedEntry(o.decisionId, r.requestId, o.versionId, n.versionId, r.reasonCode)]
            && (forall d | d != o.decisionId :: Lineage(t.mem, d) == Lineage(s.mem, d))
            && |Lineage(t.mem, o.decisionId)| == |Lineage(s.mem, o.decisionId)| + 1
            && (s.backed ==> Ok(t.store) == AcceptTransition(s.store, o, n, r)) && (!s.backed ==> t.store == s.store)
  {
    hide AcceptTransition, AcceptRefusal;
  }

  /** A reject settles its request with the given reason or the default, adds one entry, and leaves lineages alone. */
  lemma RejectExact(s: System, r: Request, reason: string)
    ensures var t := Exec(s, Reject(r, reason));
            var why := if Trim(reason) == "" then "REVISION_NOT_JUSTIFIED" else Trim(reason);
            var q := r.(status := Rejected, rejectReason := why);
            && t.mem.lineages == s.mem.lineages && SettledIn(s.mem.requests, t.mem.requests, q)
            && t.mem.audit == s.mem.audit + [RejectedEntry(r.decisionId, r.requestId, r.reasonCode, why)]
            && t.store == (if s.backed then AppendRequest(s.store, q) else s.store)
  {
    hide AppendRequest, Trim;
  }

  // ---- the durable transition ----------------------------------------------------------------

  /** The store takes an accept exactly when all ids are there, the old row is stored as current and the
      new version is not stored. */
  lemma TransitionOkIff(s: Durable, o: Cad, n: Cad, r: Request)
    requires Distinct(s.revisions)
    ensures AcceptTransition(s, o, n, r).Ok? <==>
            && o.decisionId != "" && o.versionId != "" && n.versionId != "" && r.requestId != ""
            && (exists i :: 0 <= i < |s.revisions| && s.revisions[i].0 == o.versionId && s.revisions[i].1.status == Current)
            && (forall i | 0 <= i < |s.revisions| :: s.revisions[i].0 != n.versionId)
  {
    hide Find;
    if i :| 0 <= i < |s.revisions| && s.revisions[i].0 == o.versionId { GetUnique(s.revisions, i); }
  }

  /** Rows are fetched in order: revisions by number, requests by the time they were made. */
  lemma FetchedInOrder(s: Durable, d: Id)
    ensures var l := FetchRevisions(s, d);
            multiset(l) == multiset(RowsOf(s.revisions, d)) && forall i, j | 0 <= i < j < |l| :: l[i].revision <= l[j].revision
    ensures var rs := FetchRequests(s, d);
            multiset(rs) == multiset(RequestsOf(s.requests, d)) && forall i, j | 0 <= i < j < |rs| :: rs[i].requestedAt <= rs[j].requestedAt
  {
    hide RowsOf, RequestsOf, StableSort.SortBy;
    var byRevision, byTime := (c: Cad) => c.revision, (r: Request) => r.requestedAt;
    StableSort.SortBySorts(RowsOf(s.revisions, d), byRevision);
    StableSort.SortBySorts(RequestsOf(s.requests, d), byTime);
    var l, rs := FetchRevisions(s, d), FetchRequests(s, d);
    forall i, j | 0 <= i < j < |l| ensures l[i].revision <= l[j].revision { assert byRevision(l[i]) <= byRevision(l[j]); }
    forall i, j | 0 <= i < j < |rs| ensures rs[i].requestedAt <= rs[j].requestedAt { assert byTime(rs[i]) <= byTime(rs[j]); }
  }

  /** A stored revision is never overwritten, and one without a version is never stored. */
  lemma AppendRevisionExact(s: Durable, c: Cad)
    ensures AppendRevision(s, c).requests == s.requests
    ensures AppendRevision(s, c).revisions ==
            if c.versionId == "" || c.versionId in Keys(s.revisions) then s.revisions else s.revisions + [(c.versionId, c)]
  {
    hide Find;
    if HasKey(s.revisions, c.versionId) {
      var i :| 0 <= i < |s.revisions| && s.revisions[i].0 == c.versionId;
      assert Keys(s.revisions)[i] == c.versionId;
    }
    if c.versionId in Keys(s.revisions) {
      var i :| 0 <= i < |s.revisions| && Keys(s.revisions)[i] == c.versionId;
      assert s.revisions[i].0 == c.versionId;
    }
  }
}
