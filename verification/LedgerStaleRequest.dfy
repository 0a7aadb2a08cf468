/** Two requests for one revision, both accepted: the first accept moves the lineage on, and the
    second goes through against the new revision although its request names the old one. The live
    trail and the one a restart rebuilds then disagree. */
module LedgerStaleRequest {
  import opened OrderedDict
  import opened CanonicalDecision
  import opened DecisionStore
  import opened DecisionLedger
  import opened LedgerRuns
  import opened LedgerLineages
  import opened LedgerRequests
  import opened LedgerAudit

  /** Three successive revisions and two different requests about the first. */
  datatype Scene = Scene(c1: Cad, c2: Cad, c3: Cad, a: Request, b: Request)

  predicate AsksAbout(r: Request, c: Cad) {
    && r.requestId != "" && r.decisionId == c.decisionId && r.currentRevision == c.revision && r.currentVersionId == c.versionId
    && r.status == Pending && r.rejectReason == ""
  }

  predicate Valid(x: Scene) {
    && Fresh(x.c1) && Fresh(x.c2) && Fresh(x.c3)
    && x.c1.decisionId == x.c2.decisionId == x.c3.decisionId
    && x.c2.revision == x.c1.revision + 1 && x.c3.revision == x.c2.revision + 1
    && AsksAbout(x.a, x.c1) && AsksAbout(x.b, x.c1)
    && x.a.requestId != x.b.requestId && x.a.reasonCode != x.b.reasonCode
  }

  function Registered(x: Scene): System { Exec(BOOT, Register(x.c1)) }
  function OneAsked(x: Scene): System { Exec(Registered(x), Record(x.a)) }
  function BothAsked(x: Scene): System { Exec(OneAsked(x), Record(x.b)) }
  function FirstAccepted(x: Scene): System { Exec(BothAsked(x), Accept(x.c1, x.c2, x.b)) }

  /** The second revision as the ledger hands it out. */
  function Second(x: Scene): Cad { Succeeding(x.c2, x.c1.versionId) }

  function BothAccepted(x: Scene): System { Exec(FirstAccepted(x), Accept(Second(x), x.c3, x.a)) }

  // ---- up to the two requests ---------------------------------------------------------------

  lemma AfterRegister(x: Scene)
    requires Valid(x)
    ensures var s := Registered(x);
            && s.mem == Projection(map[x.c1.decisionId := [x.c1]], [], []) && s.store == Durable([(x.c1.versionId, x.c1)], []) && s.backed
            && CurrentOf(Lineage(s.mem, x.c1.decisionId)) == Some(x.c1)
  {
    assert [x.c1][|[x.c1]| - 1] == x.c1;
    assert [] + [x.c1] == [x.c1];
  }

  /** What the system looks like while requests for the first revision come in. */
  predicate Asked(s: System, x: Scene, rs: seq<Request>) {
    && s.backed && s.mem == Projection(map[x.c1.decisionId := [x.c1]], rs, [])
    && s.store.revisions == [(x.c1.versionId, x.c1)] && AllNew(s.store.requests, rs)
  }

  predicate AllNew(rows: Dict<Id, Request>, rs: seq<Request>) {
    |rows| == |rs| && forall i | 0 <= i < |rs| :: rows[i] == (rs[i].requestId, rs[i])
  }

  lemma AskOne(s: System, x: Scene, rs: seq<Request>, r: Request)
    requires Valid(x) && Asked(s, x, rs) && AsksAbout(r, x.c1)
    requires forall i | 0 <= i < |rs| :: rs[i].requestId != r.requestId && rs[i].reasonCode != r.reasonCode
    ensures Asked(Exec(s, Record(r)), x, rs + [r])
  {
    hide VersionIdOf;
    assert CurrentOf([x.c1]) == Some(x.c1);
    assert forall e | e in s.mem.requests :: !Duplicates(e, r);
    assert RecordStatusOf(s.mem, r) == RecordedPending;
    assert !HasKey(s.store.requests, r.requestId);
  }

  lemma TwoAsked(x: Scene)
    requires Valid(x)
    ensures Asked(BothAsked(x), x, [x.a, x.b])
  {
    AfterRegister(x);
    assert Asked(Registered(x), x, []);
    AskOne(Registered(x), x, [], x.a);
    assert [] + [x.a] == [x.a] && [x.a] + [x.b] == [x.a, x.b];
    AskOne(OneAsked(x), x, [x.a], x.b);
  }

  lemma AskedInvariants(s: System, x: Scene)
    requires Valid(x) && Asked(s, x, [x.a, x.b])
    ensures LineageInv(s) && RequestsKeyed(s.store) && AuditInv(s)
    ensures Get(s.store.requests, x.a.requestId) == Some(x.a) && Get(s.store.requests, x.b.requestId) == Some(x.b)
    ensures Lineage(s.mem, x.c1.decisionId) == [x.c1] && CurrentOf([x.c1]) == Some(x.c1)
  {
    var rows := s.store.requests;
    assert rows[0] == (x.a.requestId, x.a) && rows[1] == (x.b.requestId, x.b);
    assert rows == [(x.a.requestId, x.a), (x.b.requestId, x.b)];
    GetUnique(rows, 0);
    GetUnique(rows, 1);
    OneRow(s.store, x);
    assert LoggedOnce([]) by { LedgerAudit.NothingLogged(); }
    assert StoredAccepts(s.store) == {} && AcceptedIn(s.mem.audit) == {};
  }

  lemma OneRow(s: Durable, x: Scene)
    requires Valid(x) && s.revisions == [(x.c1.versionId, x.c1)]
    ensures StoreInv(s) && forall d :: RowsOf(s.revisions, d) == if d == x.c1.decisionId then [x.c1] else []
  {
    var none := Durable([], s.requests);
    assert StoreInv(none);
    AppendStartsChain(none, x.c1);
    assert AppendRevision(none, x.c1) == s;
  }

  // ---- the two accepts -------------------------------------------------------------------------

  lemma FirstGoesThrough(x: Scene)
    requires Valid(x)
    ensures GoesThrough(BothAsked(x), x.c1, x.c2, x.b) && HandedBack(BothAsked(x).mem, x.c1)
  {
    hide StoreInv, LineagesAgree, RequestsKeyed, AuditInv, Fresh, Get, BothAsked, AcceptTransition;
    var s := BothAsked(x);
    TwoAsked(x);
    AskedInvariants(s, x);
    FreshIds(x.c1);
    assert AcceptRefusal(s.mem, x.c1, x.c2) == "";
    AcceptNeverConflicts(s, x.c1, x.c2, x.b);
  }

  lemma FirstAccept(x: Scene)
    requires Valid(x)
    ensures var s := FirstAccepted(x);
            && LineageInv(s) && RequestsKeyed(s.store) && AuditInv(s) && s.mem.audit == [LoggedAccept(x.c1, x.c2, x.b)]
            && Get(s.store.requests, x.a.requestId) == Some(x.a)
            && Lineage(s.mem, x.c1.decisionId) == [SupersededBy(x.c1, x.c2.versionId), Second(x)]
  {
    hide StoreInv, LineagesAgree, RequestsKeyed, AuditInv, Fresh, Get, BothAsked, AcceptTransition, AcceptRefusal, HandedBack, Wrote, Lineage, RowsOf;
    var s := BothAsked(x);
    TwoAsked(x);
    AskedInvariants(s, x);
    FirstGoesThrough(x);
    AcceptKeepsLineagesIff(s, x.c1, x.c2, x.b);
    AcceptWritesRequest(s.store, x.c1, x.c2, x.b);
    AcceptKeepsAuditIff(s, x.c1, x.c2, x.b);
    AcceptBothSides(s, x.c1, x.c2, x.b, x.c1.decisionId);
    OtherRow(s.store, FirstAccepted(x).store, x.b.requestId, AcceptedRow(s.store, x.b), x.a);
    assert [] + [LoggedAccept(x.c1, x.c2, x.b)] == [LoggedAccept(x.c1, x.c2, x.b)];
  }

  lemma FreshIds(c: Cad)
    requires Fresh(c)
    ensures c.decisionId != "" && c.versionId != ""
  {
  }

  lemma OtherRow(s: Durable, t: Durable, k: Id, v: Request, r: Request)
    requires RequestsKeyed(s) && Wrote(s, t, k, v) && Get(s.requests, r.requestId) == Some(r) && r.requestId != k
    ensures Get(t.requests, r.requestId) == Some(r)
  {
    StoredUnder(s, r.requestId);
    DictHas(t.requests, r.requestId, r);
  }

  /** The second accept goes through: nothing compares the request with the revision it is applied to. */
  lemma SecondGoesThrough(x: Scene)
    requires Valid(x)
    ensures var s := FirstAccepted(x); GoesThrough(s, Second(x), x.c3, x.a) && HandedBack(s.mem, Second(x))
  {
    hide Chain, StoreInv, LineagesAgree, RequestsKeyed, AuditInv, Fresh, Get, FirstAccepted;
    var s := FirstAccepted(x);
    FirstAccept(x);
    var l := Lineage(s.mem, x.c1.decisionId);
    assert x.c2.decisionId != "" && x.c2.versionId != "" by { FreshIds(x.c2); }
    assert l[|l| - 1] == Second(x) && CurrentOf(l) == Some(Second(x));
    assert AcceptRefusal(s.mem, Second(x), x.c3) == "";
    AcceptNeverConflicts(s, Second(x), x.c3, x.a);
  }

  lemma VersionsDiffer(x: Scene)
    requires Valid(x)
    ensures x.c1.versionId != x.c2.versionId
  {
    if x.c1.versionId == x.c2.versionId {
      VersionIdInjective(x.c1.decisionId, x.c1.revision, x.c2.decisionId, x.c2.revision);
    }
  }

  lemma ThreeRevisions(x: Scene)
    requires Valid(x)
    ensures var l := RowsOf(BothAccepted(x).store.revisions, x.c1.decisionId);
            LineageInv(BothAccepted(x)) && SuccessorVersion(l, x.c1.versionId) == x.c2.versionId
  {
    hide StoreInv, LineagesAgree, RequestsKeyed, AuditInv, Fresh, Get, FirstAccepted, AcceptTransition, AcceptMem, RowsOf;
    var s := FirstAccepted(x);
    FirstAccept(x);
    SecondGoesThrough(x);
    AcceptKeepsLineagesIff(s, Second(x), x.c3, x.a);
    AcceptBothSides(s, Second(x), x.c3, x.a, x.c1.decisionId);
    var t := BothAccepted(x);
    var l := RowsOf(t.store.revisions, x.c1.decisionId);
    assert l[0].versionId == x.c1.versionId && l[1].versionId == x.c2.versionId && |l| == 3;
    assert Chain(l, x.c1.decisionId) by { StoredChain(t, x.c1.decisionId); }
    SuccessorIsNext(l, x.c1.decisionId, 0, 3);
    assert l[..3] == l;
  }

  lemma StoredChain(s: System, d: Id)
    requires LineageInv(s) && RowsOf(s.store.revisions, d) != []
    ensures Chain(RowsOf(s.store.revisions, d), d)
  {
    assert Chained(s.store.revisions, d);
  }

  /** The trails split: the live one says that request `a` replaced the second revision by the third;
      the stored state, and so a restart, says that it replaced the first by the second, and has
      nothing for the third. */
  lemma StaleRequestSplitsTrail(x: Scene)
    requires Valid(x)
    ensures var s := BothAccepted(x); var d := x.c1.decisionId;
            var live := AcceptedEntry(d, x.a.requestId, x.c2.versionId, x.c3.versionId, x.a.reasonCode);
            var rebuilt := AcceptedEntry(d, x.a.requestId, x.c1.versionId, x.c2.versionId, x.a.reasonCode);
            && LineageInv(s) && !AuditInv(s)
            && live in AcceptedIn(s.mem.audit) && live !in StoredAccepts(s.store)
            && rebuilt in StoredAccepts(s.store) && rebuilt !in AcceptedIn(s.mem.audit)
  {
    hide StoreInv, LineagesAgree, RequestsKeyed, Fresh, Get, FirstAccepted, AcceptTransition, SuccessorVersion, RowsOf, Inner, LoggedOnce, Wrote;
    var s, o := FirstAccepted(x), Second(x);
    FirstAccept(x);
    SecondGoesThrough(x);
    VersionsDiffer(x);
    ThreeRevisions(x);
    AcceptKeepsAuditIff(s, o, x.c3, x.a);
    AcceptNotStored(s, o, x.c3, x.a);
    AcceptWritesRequest(s.store, o, x.c3, x.a);
    AcceptFrame(s, o, x.c3, x.a);
    var t := BothAccepted(x).store;
    var q := AcceptedRow(s.store, x.a);
    assert q == x.a.(status := Accepted);
    var live := LoggedAccept(o, x.c3, x.a);
    StoredAfterWrite(s.store, t, x.a.requestId, q, live);
    SupportedById(s.store, x.a.requestId, live);
    StoredAfterWrite(s.store, t, x.a.requestId, q, EntryOf(t, q));
    AcceptedGrows(s.mem.audit, live);
  }
}
