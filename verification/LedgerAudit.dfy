/** The acceptance trail across restarts: what `rebuild` reconstructs from the stored requests and
    supersession links, and exactly which calls keep that equal to what the live ledger logged. */
module LedgerAudit {
  import opened OrderedDict
  import opened CanonicalDecision
  import opened DecisionStore
  import opened DecisionLedger
  import opened LedgerRuns
  import opened LedgerLineages
  import opened LedgerRequests
  import StableSort

  function AcceptedIn(audit: seq<AuditEntry>): set<AuditEntry> {
    set e | e in audit && e.AcceptedEntry?
  }

  /** No acceptance is logged twice. */
  ghost predicate LoggedOnce(audit: seq<AuditEntry>) {
    forall x: AuditEntry :: x.AcceptedEntry? ==> multiset(audit)[x] <= 1
  }

  /** The same acceptances, each as often. */
  ghost predicate SameAcceptances(a: seq<AuditEntry>, b: seq<AuditEntry>) {
    forall x: AuditEntry :: x.AcceptedEntry? ==> multiset(a)[x] == multiset(b)[x]
  }

  lemma LoggedGrows(audit: seq<AuditEntry>, e: AuditEntry)
    requires LoggedOnce(audit) && (e.AcceptedEntry? ==> e !in AcceptedIn(audit))
    ensures LoggedOnce(audit + [e])
  {
    forall x: AuditEntry | x.AcceptedEntry? ensures multiset(audit + [e])[x] <= 1 {
      assert multiset(audit + [e])[x] == multiset(audit)[x] + multiset{e}[x];
      if x == e { assert e !in audit && e !in multiset(audit); }
    }
  }

  lemma LoggedConcat(a: seq<AuditEntry>, b: seq<AuditEntry>)
    requires LoggedOnce(a) && LoggedOnce(b) && forall x | x in AcceptedIn(a) :: x !in AcceptedIn(b)
    ensures LoggedOnce(a + b)
  {
    forall x: AuditEntry | x.AcceptedEntry? ensures multiset(a + b)[x] <= 1 {
      assert multiset(a + b)[x] == multiset(a)[x] + multiset(b)[x];
      assert x in multiset(a) ==> x in AcceptedIn(a);
      assert x in multiset(b) ==> x in AcceptedIn(b);
    }
  }

  lemma OnceEachIsSame(a: seq<AuditEntry>, b: seq<AuditEntry>)
    requires LoggedOnce(a) && LoggedOnce(b) && AcceptedIn(a) == AcceptedIn(b)
    ensures SameAcceptances(a, b)
  {
    forall x: AuditEntry | x.AcceptedEntry? ensures multiset(a)[x] == multiset(b)[x] {
      assert x in multiset(a) <==> x in AcceptedIn(a);
      assert x in multiset(b) <==> x in AcceptedIn(b);
    }
  }

  /** The entry that the stored state supports for an accepted request. */
  function EntryOf(s: Durable, r: Request): AuditEntry {
    AcceptedEntry(r.decisionId, r.requestId, r.currentVersionId,
                  SuccessorVersion(RowsOf(s.revisions, r.decisionId), r.currentVersionId), r.reasonCode)
  }

  function StoredAccepts(s: Durable): set<AuditEntry> {
    set e | e in s.requests && e.1.status == Accepted :: EntryOf(s, e.1)
  }

  /** Version `v` is in the lineage of `d` and has been superseded. */
  ghost predicate Inner(s: Durable, d: Id, v: Id) {
    var l := RowsOf(s.revisions, d);
    exists i | 0 <= i < |l| - 1 :: l[i].versionId == v
  }

  ghost predicate AuditInv(s: System) {
    && AcceptedIn(s.mem.audit) == StoredAccepts(s.store) && LoggedOnce(s.mem.audit)
    && (forall e | e in s.store.requests && e.1.status == Accepted :: Inner(s.store, e.1.decisionId, e.1.currentVersionId))
  }

  // ---- successors in a chain ------------------------------------------------------------

  /** In a chain the successor found through the links is the next entry. */
  lemma {:induction false} SuccessorIsNext(l: seq<Cad>, d: Id, i: int, k: int)
    requires Chain(l, d) && 0 <= i < |l| - 1 && i + 2 <= k <= |l|
    ensures SuccessorVersion(l[..k], l[i].versionId) == l[i + 1].versionId
  {
    var m := l[..k];
    var j := k - 2;
    assert m[k - 1].supersedes == l[j].versionId;
    assert l[i].versionId == VersionIdOf(d, l[i].revision) && l[i].versionId != "";
    if j != i {
      if l[j].versionId == l[i].versionId { ChainVersionsDistinct(l, d, i, j); }
      assert m[..k - 1] == l[..k - 1];
      SuccessorIsNext(l, d, i, k - 1);
    }
  }

  /** Extending a chain does not change the successor of an inner version. */
  lemma SuccessorKept(s: Durable, t: Durable, d: Id, v: Id, n: Cad)
    requires Chain(RowsOf(s.revisions, d), d) && Inner(s, d, v)
    requires RowsOf(t.revisions, d) == ExtendedBy(RowsOf(s.revisions, d), n) && Chain(RowsOf(t.revisions, d), d)
    ensures Inner(t, d, v) && SuccessorVersion(RowsOf(t.revisions, d), v) == SuccessorVersion(RowsOf(s.revisions, d), v)
  {
    var l, m := RowsOf(s.revisions, d), RowsOf(t.revisions, d);
    var i :| 0 <= i < |l| - 1 && l[i].versionId == v;
    assert l[..|l|] == l && m[..|m|] == m;
    SuccessorIsNext(l, d, i, |l|);
    assert m[i].versionId == v && m[i + 1].versionId == l[i + 1].versionId;
    SuccessorIsNext(m, d, i, |m|);
  }

  lemma SuccessorOfLast(s: Durable, t: Durable, d: Id, n: Cad)
    requires Chain(RowsOf(s.revisions, d), d)
    requires RowsOf(t.revisions, d) == ExtendedBy(RowsOf(s.revisions, d), n) && Chain(RowsOf(t.revisions, d), d)
    ensures var l := RowsOf(s.revisions, d); var v := l[|l| - 1].versionId;
            Inner(t, d, v) && SuccessorVersion(RowsOf(t.revisions, d), v) == n.versionId
  {
    var l, m := RowsOf(s.revisions, d), RowsOf(t.revisions, d);
    assert m[..|m|] == m;
    assert m[|l| - 1].versionId == l[|l| - 1].versionId && m[|l|].versionId == n.versionId;
    SuccessorIsNext(m, d, |l| - 1, |m|);
  }

  lemma ExtendedKeepsEntries(s: Durable, t: Durable, o: Cad, n: Cad, r: Request)
    requires StoreInv(s) && Successor(o, n) && AcceptTransition(s, o, n, r) == Ok(t)
    ensures forall d, v :: Inner(s, d, v) ==>
              Inner(t, d, v) && SuccessorVersion(RowsOf(t.revisions, d), v) == SuccessorVersion(RowsOf(s.revisions, d), v)
    ensures Inner(t, o.decisionId, o.versionId) && SuccessorVersion(RowsOf(t.revisions, o.decisionId), o.versionId) == n.versionId
  {
    hide Chain, AcceptTransition, Inner;
    AcceptTarget(s, o, n, r);
    AcceptKeepsStoreInv(s, o, n, r);
    AcceptExtends(s, o, n, r, o.decisionId);
    assert Chained(t.revisions, o.decisionId);
    SuccessorOfLast(s, t, o.decisionId, n);
    forall d, v | Inner(s, d, v)
      ensures Inner(t, d, v) && SuccessorVersion(RowsOf(t.revisions, d), v) == SuccessorVersion(RowsOf(s.revisions, d), v)
    {
      AcceptExtends(s, o, n, r, d);
      if d == o.decisionId { SuccessorKept(s, t, d, v, n); } else { InnerFrame(s, t, d, v); }
    }
  }

  lemma InnerFrame(s: Durable, t: Durable, d: Id, v: Id)
    requires RowsOf(s.revisions, d) == RowsOf(t.revisions, d)
    ensures Inner(s, d, v) <==> Inner(t, d, v)
  {
  }

  /** The last version of a chain has no successor yet. */
  lemma LastNotInner(s: Durable, d: Id)
    requires Chain(RowsOf(s.revisions, d), d)
    ensures var l := RowsOf(s.revisions, d); !Inner(s, d, l[|l| - 1].versionId)
  {
    var l := RowsOf(s.revisions, d);
    if i :| 0 <= i < |l| - 1 && l[i].versionId == l[|l| - 1].versionId { ChainVersionsDistinct(l, d, i, |l| - 1); }
  }

  lemma AcceptedGrows(audit: seq<AuditEntry>, e: AuditEntry)
    ensures AcceptedIn(audit + [e]) == if e.AcceptedEntry? then AcceptedIn(audit) + {e} else AcceptedIn(audit)
  {
    assert forall x :: x in audit + [e] <==> x in audit || x == e;
  }

  // ---- accept ----------------------------------------------------------------------------

  /** The stored request names the decision and the version being replaced, and gives the reason logged. */
  predicate Names(q: Request, o: Cad, r: Request) {
    q.decisionId == o.decisionId && q.currentVersionId == o.versionId && q.reasonCode == r.reasonCode
  }

  function LoggedAccept(o: Cad, n: Cad, r: Request): AuditEntry {
    AcceptedEntry(o.decisionId, r.requestId, o.versionId, n.versionId, r.reasonCode)
  }

  /** Nothing stored supports an entry about the version that is current. */
  lemma AcceptNotStored(s: System, o: Cad, n: Cad, r: Request)
    requires LineageInv(s) && AuditInv(s) && AcceptRefusal(s.mem, o, n) == ""
    ensures LoggedAccept(o, n, r) !in StoredAccepts(s.store)
    ensures forall e | e in s.store.requests && e.1.status == Accepted :: !(e.1.decisionId == o.decisionId && e.1.currentVersionId == o.versionId)
  {
    hide Chain, StoreInv, LineagesAgree, Inner, LoggedOnce, RowsOf, Find;
    SeesLast(s, o, n);
    LastNotInner(s.store, o.decisionId);
  }

  /** What the store supports after a request row was written: the entries of the other accepted rows,
      and that of the new row if it is accepted. */
  lemma StoredAfterWrite(s: Durable, t: Durable, k: Id, v: Request, x: AuditEntry)
    requires Wrote(s, t, k, v)
    requires forall e | e in s.requests && e.1.status == Accepted :: EntryOf(t, e.1) == EntryOf(s, e.1)
    ensures x in StoredAccepts(t) <==> (v.status == Accepted && x == EntryOf(t, v)) || SupportedBeside(s, k, x)
  {
    hide EntryOf;
    if x in StoredAccepts(t) {
      var e :| e in t.requests && e.1.status == Accepted && x == EntryOf(t, e.1);
    }
    if SupportedBeside(s, k, x) {
      var e :| e in s.requests && e.0 != k && e.1.status == Accepted && x == EntryOf(s, e.1);
      assert e in t.requests;
    }
    if v.status == Accepted && x == EntryOf(t, v) { assert (k, v) in t.requests; }
  }

  /** Entry `x` is supported by an accepted row other than the one under `k`. */
  ghost predicate SupportedBeside(s: Durable, k: Id, x: AuditEntry) {
    exists e :: e in s.requests && e.0 != k && e.1.status == Accepted && x == EntryOf(s, e.1)
  }

  /** Entries carry the id of their row. */
  lemma SupportedById(s: Durable, k: Id, x: AuditEntry)
    requires RequestsKeyed(s)
    ensures x in StoredAccepts(s) && x.requestId != k ==> SupportedBeside(s, k, x)
    ensures SupportedBeside(s, k, x) ==> x in StoredAccepts(s) && x.requestId != k
  {
    if x in StoredAccepts(s) && x.requestId != k {
      var e :| e in s.requests && e.1.status == Accepted && x == EntryOf(s, e.1);
      assert e.0 == e.1.requestId;
    }
    if SupportedBeside(s, k, x) {
      var e :| e in s.requests && e.0 != k && e.1.status == Accepted && x == EntryOf(s, e.1);
      assert e.0 == e.1.requestId;
    }
  }

  lemma StoredUnderId(s: Durable, k: Id, x: AuditEntry)
    requires RequestsKeyed(s) && x in StoredAccepts(s) && x.requestId == k
    ensures Get(s.requests, k).Some? && Get(s.requests, k).value.status == Accepted && x == EntryOf(s, Get(s.requests, k).value)
  {
    var e :| e in s.requests && e.1.status == Accepted && x == EntryOf(s, e.1);
    DictHas(s.requests, e.0, e.1);
  }

  lemma AcceptFrame(s: System, o: Cad, n: Cad, r: Request)
    requires LineageInv(s) && AuditInv(s) && Fresh(n) && GoesThrough(s, o, n, r) && HandedBack(s.mem, o)
    ensures var t := AcceptTransition(s.store, o, n, r).value;
            && (forall e | e in s.store.requests && e.1.status == Accepted ::
                  EntryOf(t, e.1) == EntryOf(s.store, e.1) && Inner(t, e.1.decisionId, e.1.currentVersionId))
            && Inner(t, o.decisionId, o.versionId)
            && SuccessorVersion(RowsOf(t.revisions, o.decisionId), o.versionId) == n.versionId
  {
    hide StoreInv, LineagesAgree, Inner, LoggedOnce, AcceptTransition, Fresh, Successor, HandedBack, SuccessorVersion, RowsOf;
    HandedBackSucceeds(s, o, n);
    ExtendedKeepsEntries(s.store, AcceptTransition(s.store, o, n, r).value, o, n, r);
  }

  /** The exact condition for an accept, whatever request it brings: trail and store stay in step
      exactly when the stored request names the decision and version that are replaced. */
  lemma AcceptKeepsAuditIff(s: System, o: Cad, n: Cad, r: Request)
    requires LineageInv(s) && RequestsKeyed(s.store) && AuditInv(s) && Fresh(n) && GoesThrough(s, o, n, r) && HandedBack(s.mem, o)
    ensures AuditInv(Exec(s, Accept(o, n, r))) <==> Names(AcceptedRow(s.store, r), o, r)
  {
    hide StoreInv, LineagesAgree, Inner, LoggedOnce, AcceptTransition, Fresh, HandedBack, Wrote, RequestsKeyed, Get, StoredAccepts, AcceptedIn, SuccessorVersion;
    var t, q := AcceptTransition(s.store, o, n, r).value, AcceptedRow(s.store, r);
    var entry := LoggedAccept(o, n, r);
    var s' := Exec(s, Accept(o, n, r));
    AcceptWritesRequest(s.store, o, n, r);
    AcceptFrame(s, o, n, r);
    AcceptNotStored(s, o, n, r);
    AcceptedGrows(s.mem.audit, entry);
    LoggedGrows(s.mem.audit, entry);
    assert q.status == Accepted && q.requestId == r.requestId;
    assert EntryOf(t, q) == entry <==> Names(q, o, r);
    StoredAfterWrite(s.store, t, r.requestId, q, entry);
    SupportedById(s.store, r.requestId, entry);
    if Names(q, o, r) {
      assert Get(s.store.requests, r.requestId).Some? ==> Get(s.store.requests, r.requestId).value.status != Accepted by {
        NotAcceptedYet(s.store, o, r);
      }
      forall x ensures x in StoredAccepts(t) <==> x in StoredAccepts(s.store) || x == entry {
        StoredAfterWrite(s.store, t, r.requestId, q, x);
        SupportedById(s.store, r.requestId, x);
        if x in StoredAccepts(s.store) && x.requestId == r.requestId { StoredUnderId(s.store, r.requestId, x); }
      }
      assert StoredAccepts(t) == StoredAccepts(s.store) + {entry};
      InnerAfterWrite(s.store, t, r.requestId, q);
    }
  }

  lemma NotAcceptedYet(s: Durable, o: Cad, r: Request)
    requires RequestsKeyed(s) && Names(AcceptedRow(s, r), o, r)
    requires forall e | e in s.requests && e.1.status == Accepted :: !(e.1.decisionId == o.decisionId && e.1.currentVersionId == o.versionId)
    ensures Get(s.requests, r.requestId).Some? ==> Get(s.requests, r.requestId).value.status != Accepted
  {
    hide Get;
    StoredUnder(s, r.requestId);
  }

  lemma InnerAfterWrite(s: Durable, t: Durable, k: Id, v: Request)
    requires Wrote(s, t, k, v) && (v.status == Accepted ==> Inner(t, v.decisionId, v.currentVersionId))
    requires forall e | e in s.requests && e.1.status == Accepted :: Inner(t, e.1.decisionId, e.1.currentVersionId)
    ensures forall e | e in t.requests && e.1.status == Accepted :: Inner(t, e.1.decisionId, e.1.currentVersionId)
  {
    hide Inner;
  }

  // ---- record and reject -------------------------------------------------------------------

  predicate StoredAccepted(s: Durable, k: Id) { Get(s.requests, k).Some? && Get(s.requests, k).value.status == Accepted }

  /** A request write keeps trail and store in step exactly when it does not change whether the
      row under its id is accepted. */
  lemma WriteKeepsAuditIff(s: System, row: Request, p: Projection)
    requires RequestsKeyed(s.store) && AuditInv(s) && row.requestId != ""
    requires AcceptedIn(p.audit) == AcceptedIn(s.mem.audit) && LoggedOnce(p.audit)
    ensures AuditInv(s.(mem := p, store := AppendRequest(s.store, row))) <==> (StoredAccepted(s.store, row.requestId) <==> row.status == Accepted)
  {
    hide Inner, LoggedOnce, Wrote, RequestsKeyed, Get, StoredAccepts, AcceptedIn, SuccessorVersion, AppendRequest, RowsOf;
    var t, k, v := AppendRequest(s.store, row), row.requestId, Upserted(s.store, row);
    AppendRequestWrites(s.store, row);
    SameRevisionsEntries(s.store, t);
    StoredUnder(s.store, k);
    var entry := if StoredAccepted(s.store, k) then EntryOf(s.store, Get(s.store.requests, k).value) else EntryOf(t, v);
    assert v.status == row.status && entry.requestId == k;
    forall x ensures x in StoredAccepts(t) <==> (v.status == Accepted && x == EntryOf(t, v)) || (x in StoredAccepts(s.store) && x.requestId != k) {
      StoredAfterWrite(s.store, t, k, v, x);
      SupportedById(s.store, k, x);
    }
    assert entry in StoredAccepts(s.store) <==> StoredAccepted(s.store, k) by { EntryUnderId(s.store, k, entry); }
    forall x | x in StoredAccepts(s.store) && x.requestId == k ensures StoredAccepted(s.store, k) && x == entry { StoredUnderId(s.store, k, x); }
    if StoredAccepted(s.store, k) <==> row.status == Accepted {
      assert StoredAccepts(t) == StoredAccepts(s.store);
      InnerAfterWrite(s.store, t, k, v);
    } else {
      assert entry in StoredAccepts(t) <==> entry !in StoredAccepts(s.store);
    }
  }

  lemma EntryUnderId(s: Durable, k: Id, x: AuditEntry)
    requires RequestsKeyed(s) && x.requestId == k
    requires StoredAccepted(s, k) ==> x == EntryOf(s, Get(s.requests, k).value)
    ensures x in StoredAccepts(s) <==> StoredAccepted(s, k)
  {
    hide Get, EntryOf;
    StoredUnder(s, k);
    if x in StoredAccepts(s) { StoredUnderId(s, k, x); }
    if StoredAccepted(s, k) { assert (k, Get(s.requests, k).value) in s.requests; }
  }

  lemma SameRevisionsEntries(s: Durable, t: Durable)
    requires s.revisions == t.revisions
    ensures forall r :: EntryOf(s, r) == EntryOf(t, r)
    ensures forall d, v :: Inner(s, d, v) <==> Inner(t, d, v)
  {
    hide RowsOf, SuccessorVersion;
  }

  // ---- every call -----------------------------------------------------------------------------

  /** The calls that keep trail and store in step. */
  predicate KeepsTrail(s: System, step: Step) {
    match step
    case Register(_) => true
    case Record(r) =>
      RecordStatusOf(s.mem, r) == DuplicateRevisionRequest || r.requestId == ""
      || (StoredAccepted(s.store, r.requestId) <==> Recorded(s.mem, r).status == Accepted)
    case Accept(o, n, r) => GoesThrough(s, o, n, r) ==> Names(AcceptedRow(s.store, r), o, r)
    case Reject(r, _) => r.requestId == "" || !StoredAccepted(s.store, r.requestId)
  }

  lemma RegisterKeepsAudit(s: System, c: Cad)
    requires LineageInv(s) && AuditInv(s) && Fresh(c)
    ensures AuditInv(Exec(s, Register(c)))
  {
    hide StoreInv, LineagesAgree, LoggedOnce, EntryOf;
    if RegisterMem(s.mem, c).Appended? {
      NothingRegistered(s, c.decisionId);
      AppendStartsChain(s.store, c);
      RegisterFrame(s.store, AppendRevision(s.store, c), c);
    }
  }

  lemma RegisterFrame(s: Durable, t: Durable, c: Cad)
    requires s.requests == t.requests && RowsOf(s.revisions, c.decisionId) == []
    requires forall d :: RowsOf(t.revisions, d) == if d == c.decisionId then [c] else RowsOf(s.revisions, d)
    requires forall e | e in s.requests && e.1.status == Accepted :: Inner(s, e.1.decisionId, e.1.currentVersionId)
    ensures StoredAccepts(s) == StoredAccepts(t)
    ensures forall e | e in t.requests && e.1.status == Accepted :: Inner(t, e.1.decisionId, e.1.currentVersionId)
  {
    hide RowsOf, SuccessorVersion;
    forall e | e in s.requests && e.1.status == Accepted ensures EntryOf(s, e.1) == EntryOf(t, e.1) && Inner(t, e.1.decisionId, e.1.currentVersionId) {
      assert e.1.decisionId != c.decisionId;
    }
  }

  /** The exact condition, for every call of every caller that hands decisions back: the accepted
      entries of the live trail stay those the store supports, each once. */
  lemma StepKeepsAuditIff(s: System, step: Step)
    requires LineageInv(s) && RequestsKeyed(s.store) && AuditInv(s) && HandsBack(s.mem, step)
    ensures AuditInv(Exec(s, step)) <==> KeepsTrail(s, step)
  {
    hide StoreInv, LineagesAgree, RequestsKeyed, AuditInv, HandedBack, Fresh, AcceptTransition, AcceptMem, RegisterMem, AppendRequest, Names, CurrentOf;
    match step
    case Register(c) => RegisterKeepsAudit(s, c);
    case Record(r) => RecordKeepsAuditIff(s, r);
    case Accept(o, n, r) => if GoesThrough(s, o, n, r) { AcceptKeepsAuditIff(s, o, n, r); }
    case Reject(r, reason) => RejectKeepsAuditIff(s, r, reason);
  }

  lemma RecordKeepsAuditIff(s: System, r: Request)
    requires s.backed && RequestsKeyed(s.store) && AuditInv(s)
    ensures AuditInv(Exec(s, Record(r))) <==> KeepsTrail(s, Record(r))
  {
    hide RequestsKeyed, LoggedOnce, StoredAccepts, AcceptedIn, Inner, Get, Put, CurrentOf;
    if RecordStatusOf(s.mem, r) != DuplicateRevisionRequest {
      var q, p := Recorded(s.mem, r), RecordMem(s.mem, r);
      var stale := StaleEntry(r.decisionId, r.requestId, CurrentRevision(s.mem, r.decisionId), r.currentRevision);
      AcceptedGrows(s.mem.audit, stale);
      LoggedGrows(s.mem.audit, stale);
      if q.requestId != "" { WriteKeepsAuditIff(s, q, p); }
    }
  }

  lemma RejectKeepsAuditIff(s: System, r: Request, reason: string)
    requires s.backed && RequestsKeyed(s.store) && AuditInv(s)
    ensures AuditInv(Exec(s, Reject(r, reason))) <==> KeepsTrail(s, Reject(r, reason))
  {
    hide RequestsKeyed, LoggedOnce, StoredAccepts, AcceptedIn, Inner, Get, Put;
    var q := RejectedRequest(r, reason);
    var rejection := RejectedEntry(r.decisionId, r.requestId, r.reasonCode, q.rejectReason);
    AcceptedGrows(s.mem.audit, rejection);
    LoggedGrows(s.mem.audit, rejection);
    if q.requestId != "" { WriteKeepsAuditIff(s, q, RejectMem(s.mem, r, reason)); }
  }

  // ---- what a restart reconstructs -----------------------------------------------------

  ghost predicate FromLog(x: AuditEntry, s: Durable, rs: seq<Request>) {
    exists r :: r in rs && r.status == Accepted && x == EntryOf(s, r)
  }

  lemma {:induction false} RebuiltAuditAccepts(s: Durable, d: Id, rs: seq<Request>, x: AuditEntry)
    requires forall r | r in rs :: r.decisionId == d
    ensures x in AcceptedIn(RebuiltAudit(d, RowsOf(s.revisions, d), rs)) <==> FromLog(x, s, rs)
  {
    if rs != [] {
      var n := |rs| - 1;
      RebuiltAuditAccepts(s, d, rs[..n], x);
      assert rs == rs[..n] + [rs[n]];
      assert FromLog(x, s, rs) <==> FromLog(x, s, rs[..n]) || (rs[n].status == Accepted && x == EntryOf(s, rs[n]));
      assert rs[n] in rs;
    }
  }

  /** Entry `x` is what the store supports for an accepted request of a listed decision. */
  ghost predicate FromStore(x: AuditEntry, s: Durable, ids: seq<Id>) {
    exists e :: e in s.requests && e.1.status == Accepted && e.1.decisionId in ids && x == EntryOf(s, e.1)
  }

  lemma FromStoreSplits(x: AuditEntry, s: Durable, ids: seq<Id>, d: Id, rs: seq<Request>)
    requires RequestsKeyed(s) && forall r :: r in rs <==> r.decisionId == d && (r.requestId, r) in s.requests
    ensures FromStore(x, s, ids + [d]) <==> FromStore(x, s, ids) || FromLog(x, s, rs)
  {
    if FromStore(x, s, ids + [d]) {
      var e :| e in s.requests && e.1.status == Accepted && e.1.decisionId in ids + [d] && x == EntryOf(s, e.1);
      assert e == (e.1.requestId, e.1);
      assert e.1.decisionId == d ==> e.1 in rs;
    }
    if FromLog(x, s, rs) {
      var r :| r in rs && r.status == Accepted && x == EntryOf(s, r);
      assert (r.requestId, r) in s.requests;
    }
  }

  lemma {:induction false} RebuildAccepts(s: Durable, ids: seq<Id>, x: AuditEntry)
    requires StoreInv(s) && RequestsKeyed(s) && forall i, j | 0 <= i < j < |ids| :: ids[i] != ids[j]
    ensures RebuildFrom(s, ids).Ok?
    ensures x in AcceptedIn(RebuildFrom(s, ids).value.audit) <==> FromStore(x, s, ids)
  {
    hide StoreInv, RequestsKeyed, FetchRevisions, FetchRequests, FromStore, FromLog, RebuiltAudit;
    RebuildHoldsLineages(s, ids);
    if ids == [] {
      assert !FromStore(x, s, ids) by { FromNothing(x, s); }
    } else {
      var n := |ids| - 1;
      var d := ids[n];
      RebuildAccepts(s, ids[..n], x);
      assert ids == ids[..n] + [d];
      LineageRebuilds(s, d);
      RequestsRebuild(s, d);
      var rs := OrderedRequests(s, d);
      RebuiltAuditAccepts(s, d, rs, x);
      FromStoreSplits(x, s, ids[..n], d, rs);
      assert RebuildFrom(s, ids).value.audit == RebuildFrom(s, ids[..n]).value.audit + RebuiltAudit(d, RowsOf(s.revisions, d), rs);
    }
  }

  ghost predicate Listed(rs: seq<Request>, id: Id) { exists r :: r in rs && r.requestId == id }

  /** Rebuilt entries name their lineage and a request of it. */
  lemma {:induction false} RebuiltAuditNames(d: Id, l: seq<Cad>, rs: seq<Request>, x: AuditEntry)
    requires x in RebuiltAudit(d, l, rs)
    ensures x.decisionId == d && Listed(rs, x.requestId)
  {
    hide SuccessorVersion;
    var n := |rs| - 1;
    assert rs == rs[..n] + [rs[n]];
    if x in RebuiltAudit(d, l, rs[..n]) {
      RebuiltAuditNames(d, l, rs[..n], x);
      var r :| r in rs[..n] && r.requestId == x.requestId;
      assert r in rs;
    } else {
      assert rs[n] in rs && rs[n].requestId == x.requestId;
    }
  }

  /** Rebuilding one lineage logs each acceptance once. */
  lemma {:induction false} RebuiltAuditOnce(d: Id, l: seq<Cad>, rs: seq<Request>)
    requires forall i, j | 0 <= i < j < |rs| :: rs[i].requestId != rs[j].requestId
    ensures LoggedOnce(RebuiltAudit(d, l, rs))
  {
    hide LoggedOnce, SuccessorVersion;
    if rs == [] {
      assert LoggedOnce([]) by { NothingLogged(); }
    } else {
      var n := |rs| - 1;
      RebuiltAuditOnce(d, l, rs[..n]);
      var before, e := RebuiltAudit(d, l, rs[..n]), RebuiltEntry(d, l, rs[n]);
      if e == [] {
        assert before + e == before;
      } else {
        assert e == [e[0]] && e[0].requestId == rs[n].requestId;
        LastNotListed(rs);
        if e[0] in before { RebuiltAuditNames(d, l, rs[..n], e[0]); }
        LoggedGrows(before, e[0]);
      }
    }
  }

  lemma LastNotListed(rs: seq<Request>)
    requires rs != [] && forall i, j | 0 <= i < j < |rs| :: rs[i].requestId != rs[j].requestId
    ensures !Listed(rs[..|rs| - 1], rs[|rs| - 1].requestId)
  {
  }

  lemma NothingLogged()
    ensures LoggedOnce([])
  {
  }

  /** A rebuild logs each acceptance once. */
  lemma {:induction false} RebuildLogsOnce(s: Durable, ids: seq<Id>)
    requires StoreInv(s) && RequestsKeyed(s) && forall i, j | 0 <= i < j < |ids| :: ids[i] != ids[j]
    ensures RebuildFrom(s, ids).Ok? && LoggedOnce(RebuildFrom(s, ids).value.audit)
    ensures forall x | x in RebuildFrom(s, ids).value.audit :: x.decisionId in ids
  {
    hide StoreInv, OrderedRequests, OrderedRevisions, RebuiltAudit, LoggedOnce;
    RebuildHoldsLineages(s, ids);
    if ids == [] {
      assert LoggedOnce([]) by { NothingLogged(); }
    } else {
      var n := |ids| - 1;
      var d := ids[n];
      RebuildLogsOnce(s, ids[..n]);
      assert ids == ids[..n] + [d];
      RequestsRebuild(s, d);
      var rs := OrderedRequests(s, d);
      StoredIdsDiffer(rs, s);
      RebuiltAuditOnce(d, OrderedRevisions(s, d), rs);
      var audit := RebuiltAudit(d, OrderedRevisions(s, d), rs);
      forall x | x in audit ensures x.decisionId == d { RebuiltAuditNames(d, OrderedRevisions(s, d), rs, x); }
      LoggedConcat(RebuildFrom(s, ids[..n]).value.audit, audit);
    }
  }

  lemma FromNothing(x: AuditEntry, s: Durable)
    ensures !FromStore(x, s, [])
  {
  }

  // ---- rejections and order ------------------------------------------------------------------------

  function RejectionOf(r: Request): AuditEntry { RejectedEntry(r.decisionId, r.requestId, r.reasonCode, r.rejectReason) }

  ghost predicate RejectedInLog(x: AuditEntry, rs: seq<Request>) {
    exists r :: r in rs && r.status == Rejected && x == RejectionOf(r)
  }

  ghost predicate RejectedInStore(x: AuditEntry, s: Durable, ids: seq<Id>) {
    exists e :: e in s.requests && e.1.status == Rejected && e.1.decisionId in ids && x == RejectionOf(e.1)
  }

  lemma {:induction false} RebuiltAuditRejects(d: Id, l: seq<Cad>, rs: seq<Request>, x: AuditEntry)
    requires (forall r | r in rs :: r.decisionId == d) && !x.AcceptedEntry?
    ensures x in RebuiltAudit(d, l, rs) <==> RejectedInLog(x, rs)
  {
    hide SuccessorVersion;
    if rs != [] {
      var n := |rs| - 1;
      RebuiltAuditRejects(d, l, rs[..n], x);
      assert rs == rs[..n] + [rs[n]] && rs[n] in rs;
      assert RejectedInLog(x, rs) <==> RejectedInLog(x, rs[..n]) || (rs[n].status == Rejected && x == RejectionOf(rs[n]));
    }
  }

  lemma RejectedSplits(x: AuditEntry, s: Durable, ids: seq<Id>, d: Id, rs: seq<Request>)
    requires RequestsKeyed(s) && forall r :: r in rs <==> r.decisionId == d && (r.requestId, r) in s.requests
    ensures RejectedInStore(x, s, ids + [d]) <==> RejectedInStore(x, s, ids) || RejectedInLog(x, rs)
  {
    if RejectedInStore(x, s, ids + [d]) {
      var e :| e in s.requests && e.1.status == Rejected && e.1.decisionId in ids + [d] && x == RejectionOf(e.1);
      assert e == (e.1.requestId, e.1);
      assert e.1.decisionId == d ==> e.1 in rs;
    }
    if RejectedInLog(x, rs) {
      var r :| r in rs && r.status == Rejected && x == RejectionOf(r);
      assert (r.requestId, r) in s.requests;
    }
  }

  /** A rebuild has a rejection exactly for every stored rejected request of a listed decision, with its
      reasons, and no entry of any other kind. */
  lemma {:induction false} RebuildRejects(s: Durable, ids: seq<Id>, x: AuditEntry)
    requires StoreInv(s) && RequestsKeyed(s) && (forall i, j | 0 <= i < j < |ids| :: ids[i] != ids[j]) && !x.AcceptedEntry?
    ensures RebuildFrom(s, ids).Ok? && (x in RebuildFrom(s, ids).value.audit <==> RejectedInStore(x, s, ids))
  {
    hide StoreInv, RequestsKeyed, OrderedRevisions, OrderedRequests, RejectedInStore, RejectedInLog, RebuiltAudit;
    RebuildHoldsLineages(s, ids);
    if ids == [] {
      assert !RejectedInStore(x, s, ids) by { NoneRejected(x, s); }
    } else {
      var n := |ids| - 1;
      var d := ids[n];
      RebuildRejects(s, ids[..n], x);
      assert ids == ids[..n] + [d];
      RequestsRebuild(s, d);
      var rs := OrderedRequests(s, d);
      RebuiltAuditRejects(d, OrderedRevisions(s, d), rs, x);
      RejectedSplits(x, s, ids[..n], d, rs);
    }
  }

  lemma NoneRejected(x: AuditEntry, s: Durable)
    ensures !RejectedInStore(x, s, [])
  {
  }

  predicate InTimeOrder(rs: seq<Request>) {
    forall i, j | 0 <= i < j < |rs| && rs[i].decisionId == rs[j].decisionId :: rs[i].requestedAt <= rs[j].requestedAt
  }

  lemma OrderedInTime(s: Durable, d: Id)
    ensures InTimeOrder(OrderedRequests(s, d))
  {
    var key := (r: Request) => r.requestedAt;
    StableSort.SortBySorts(FetchRequests(s, d), key);
    var rs := OrderedRequests(s, d);
    forall i, j | 0 <= i < j < |rs| ensures rs[i].requestedAt <= rs[j].requestedAt { assert key(rs[i]) <= key(rs[j]); }
  }

  /** A rebuilt log has the requests of each decision in the order they were made. */
  lemma {:induction false} RebuiltLogInOrder(s: Durable, ids: seq<Id>)
    requires StoreInv(s) && RequestsKeyed(s) && forall i, j | 0 <= i < j < |ids| :: ids[i] != ids[j]
    ensures RebuildFrom(s, ids).Ok? && InTimeOrder(RebuildFrom(s, ids).value.requests)
  {
    hide StoreInv, RequestsKeyed, OrderedRevisions, OrderedRequests, RebuiltAudit, Once, RowsOf;
    RebuildHoldsLineages(s, ids);
    RebuildLoads(s, ids);
    if ids != [] {
      var n := |ids| - 1;
      RebuiltLogInOrder(s, ids[..n]);
      RebuildLoads(s, ids[..n]);
      RequestsRebuild(s, ids[n]);
      OrderedInTime(s, ids[n]);
      InOrderConcat(RebuildFrom(s, ids[..n]).value.requests, OrderedRequests(s, ids[n]), ids[n]);
    }
  }

  lemma InOrderConcat(a: seq<Request>, b: seq<Request>, d: Id)
    requires InTimeOrder(a) && InTimeOrder(b) && (forall r | r in a :: r.decisionId != d) && (forall r | r in b :: r.decisionId == d)
    ensures InTimeOrder(a + b)
  {
    assert forall i | 0 <= i < |a| :: a[i] in a;
    assert forall i | 0 <= i < |b| :: b[i] in b;
  }

  function SettledIds(rs: seq<Request>): seq<Id> {
    if rs == [] then []
    else if rs[|rs| - 1].status == Accepted || rs[|rs| - 1].status == Rejected then SettledIds(rs[..|rs| - 1]) + [rs[|rs| - 1].requestId]
    else SettledIds(rs[..|rs| - 1])
  }

  function EntryIds(audit: seq<AuditEntry>): seq<Id> { seq(|audit|, i requires 0 <= i < |audit| => audit[i].requestId) }

  /** The rebuilt trail of a lineage has one entry per settled request, in the order of the requests. */
  lemma {:induction false} RebuiltTrailInOrder(d: Id, l: seq<Cad>, rs: seq<Request>)
    ensures EntryIds(RebuiltAudit(d, l, rs)) == SettledIds(rs)
  {
    hide SuccessorVersion;
    if rs != [] { RebuiltTrailInOrder(d, l, rs[..|rs| - 1]); }
  }

  /** A restart has the accepted entries that the store supports, each once. */
  lemma RebuildSupports(s: Durable, ids: seq<Id>)
    requires StoreInv(s) && RequestsKeyed(s) && ListsLineages(ids, s)
    requires forall e | e in s.requests && e.1.status == Accepted :: Inner(s, e.1.decisionId, e.1.currentVersionId)
    ensures RebuildFrom(s, ids).Ok? && AcceptedIn(RebuildFrom(s, ids).value.audit) == StoredAccepts(s)
    ensures LoggedOnce(RebuildFrom(s, ids).value.audit)
  {
    hide EntryOf, StoreInv, RequestsKeyed, LoggedOnce, RebuildFrom, RowsOf;
    RebuildLogsOnce(s, ids);
    NoBlankLineage(s);
    var a := AcceptedIn(RebuildFrom(s, ids).value.audit);
    forall x ensures x in a <==> x in StoredAccepts(s) {
      RebuildAccepts(s, ids, x);
      if x in StoredAccepts(s) { var e :| e in s.requests && e.1.status == Accepted && x == EntryOf(s, e.1); }
    }
  }

  lemma RebuildKeepsAudit(s: System, ids: seq<Id>)
    requires LineageInv(s) && RequestsKeyed(s.store) && AuditInv(s) && ListsLineages(ids, s.store)
    ensures RebuildFrom(s.store, ids).Ok? && AuditInv(System(RebuildFrom(s.store, ids).value, s.store, true))
    ensures SameAcceptances(RebuildFrom(s.store, ids).value.audit, s.mem.audit)
  {
    hide StoreInv, LineagesAgree, RequestsKeyed, LoggedOnce, StoredAccepts, AcceptedIn, Inner, RebuildFrom, SameAcceptances, ListsLineages;
    RebuildSupports(s.store, ids);
    OnceEachIsSame(RebuildFrom(s.store, ids).value.audit, s.mem.audit);
  }

  // ---- runs -------------------------------------------------------------------------------------

  predicate TrailEvent(s: System, e: Event) {
    match e
    case Call(step) => KeepsTrail(s, step)
    case DieInside(step, _) => KeepsTrail(s, step)
    case DieBetween(_) => true
  }

  ghost predicate AllTrailEvents(s: System, es: seq<Event>) {
    es == [] || (AllTrailEvents(s, es[..|es| - 1]) && TrailEvent(HappenAll(s, es[..|es| - 1]), es[|es| - 1]))
  }

  lemma EventKeepsAudit(s: System, e: Event)
    requires LineageInv(s) && RequestsKeyed(s.store) && AuditInv(s) && Allowed(s, e) && TrailEvent(s, e)
    ensures RequestsKeyed(Happens(s, e).store) && AuditInv(Happens(s, e))
  {
    hide StoreInv, LineagesAgree, RequestsKeyed, AuditInv, Exec, HandsBack, KeepsTrail, ListsLineages, RebuildFrom, SameAcceptances;
    if !e.DieBetween? {
      StepKeepsAuditIff(s, e.step);
      StepKeepsKeyed(s, e.step);
      CarefulStepKeepsLineages(s, e.step);
    }
    match e
    case Call(_) =>
    case DieInside(step, ids) => RebuildKeepsAudit(Exec(s, step), ids);
    case DieBetween(ids) => RebuildKeepsAudit(s, ids);
  }

  lemma BootAudit()
    ensures AuditInv(BOOT) && RequestsKeyed(BOOT.store)
  {
  }

  lemma {:induction false} EveryRunKeepsAudit(es: seq<Event>)
    requires AllAllowed(BOOT, es) && AllTrailEvents(BOOT, es)
    ensures AuditInv(HappenAll(BOOT, es)) && RequestsKeyed(HappenAll(BOOT, es).store)
  {
    hide LineageInv, Allowed, AuditInv, RequestsKeyed, TrailEvent, Happens;
    if es == [] {
      BootAudit();
    } else {
      EveryRunKeepsAudit(es[..|es| - 1]);
      EveryRunKeepsLineages(es[..|es| - 1]);
      EventKeepsAudit(HappenAll(BOOT, es[..|es| - 1]), es[|es| - 1]);
    }
  }

  /** After any run of such calls, with any number of restarts behind it, each acceptance is in the live
      trail once, and another restart reconstructs exactly those, each once. */
  lemma AcceptanceTrailSurvivesRestart(es: seq<Event>, ids: seq<Id>)
    requires AllAllowed(BOOT, es) && AllTrailEvents(BOOT, es) && ListsLineages(ids, HappenAll(BOOT, es).store)
    ensures RebuildFrom(HappenAll(BOOT, es).store, ids).Ok? && LoggedOnce(HappenAll(BOOT, es).mem.audit)
    ensures SameAcceptances(RebuildFrom(HappenAll(BOOT, es).store, ids).value.audit, HappenAll(BOOT, es).mem.audit)
  {
    hide HappenAll, AllAllowed, AllTrailEvents, RequestsKeyed, LineageInv, RebuildFrom, SameAcceptances, LoggedOnce;
    EveryRunKeepsLineages(es);
    EveryRunKeepsAudit(es);
    RebuildKeepsAudit(HappenAll(BOOT, es), ids);
  }
}
