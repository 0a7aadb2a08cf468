/** The request log of a ledger with a store, across crashes: no request id and no pending
    question twice, and, when requests are handed back too, full agreement with the store. */
module LedgerRequests {
  import opened OrderedDict
  import opened CanonicalDecision
  import opened DecisionStore
  import opened DecisionLedger
  import opened LedgerRuns
  import opened LedgerLineages
  import StableSort

  // ---- stored requests, whoever writes them ----------------------------------------------------

  /** Requests are stored under their own non-blank id, each id once. */
  ghost predicate RequestsKeyed(s: Durable) {
    Distinct(s.requests) && forall e | e in s.requests :: e.0 == e.1.requestId && e.0 != ""
  }

  lemma DictHas(rows: Dict<Id, Request>, k: Id, r: Request)
    requires Distinct(rows) && (k, r) in rows
    ensures HasKey(rows, k) && Get(rows, k) == Some(r)
  {
    var i :| 0 <= i < |rows| && rows[i] == (k, r);
    GetUnique(rows, i);
  }

  /** Storing a row under its id: what is in the dictionary afterwards. */
  lemma PutMembers(rows: Dict<Id, Request>, k: Id, r: Request, e: (Id, Request))
    requires Distinct(rows)
    ensures Distinct(Put(rows, k, r))
    ensures e in Put(rows, k, r) <==> e == (k, r) || (e in rows && e.0 != k)
  {
    PutShape(rows, k, r);
    var p := Put(rows, k, r);
    if HasKey(rows, k) {
      var w :| 0 <= w < |rows| && rows[w].0 == k;
      assert p[w] == (k, r);
      if e in rows && e.0 != k {
        var i :| 0 <= i < |rows| && rows[i] == e;
        assert p[i] == e;
      }
      if e in p {
        var i :| 0 <= i < |p| && p[i] == e;
        assert rows[i].0 != k ==> rows[i] == e;
      }
    }
  }

  /** The row a request write leaves under its id. */
  function Upserted(s: Durable, row: Request): Request {
    match Get(s.requests, row.requestId)
    case None => row
    case Some(was) => was.(status := row.status, rejectReason := if row.rejectReason != "" then row.rejectReason else was.rejectReason)
  }

  /** The row an accept leaves under the id of its request. */
  function AcceptedRow(s: Durable, r: Request): Request {
    match Get(s.requests, r.requestId)
    case None => r.(status := Accepted, rejectReason := "")
    case Some(was) => was.(status := Accepted)
  }

  /** `t` is `s` with row `v` stored under `k`. */
  ghost predicate Wrote(s: Durable, t: Durable, k: Id, v: Request) {
    Distinct(t.requests) && forall e :: e in t.requests <==> e == (k, v) || (e in s.requests && e.0 != k)
  }

  lemma PutWrote(s: Durable, k: Id, v: Request, t: Durable)
    requires Distinct(s.requests) && t.requests == Put(s.requests, k, v)
    ensures Wrote(s, t, k, v)
  {
    hide Put;
    forall e ensures Distinct(t.requests) && (e in t.requests <==> e == (k, v) || (e in s.requests && e.0 != k)) {
      PutMembers(s.requests, k, v, e);
    }
  }

  lemma AppendRequestWrites(s: Durable, row: Request)
    requires RequestsKeyed(s) && row.requestId != ""
    ensures Wrote(s, AppendRequest(s, row), row.requestId, Upserted(s, row)) && RequestsKeyed(AppendRequest(s, row))
    ensures AppendRequest(s, row).revisions == s.revisions && Upserted(s, row).requestId == row.requestId
  {
    hide Put, Get;
    PutWrote(s, row.requestId, Upserted(s, row), AppendRequest(s, row));
    StoredUnder(s, row.requestId);
  }

  lemma StoredUnder(s: Durable, k: Id)
    requires RequestsKeyed(s)
    ensures Get(s.requests, k).Some? ==> Get(s.requests, k).value.requestId == k && (k, Get(s.requests, k).value) in s.requests
  {
  }

  lemma AcceptWritesRequest(s: Durable, o: Cad, n: Cad, r: Request)
    requires RequestsKeyed(s) && AcceptTransition(s, o, n, r).Ok?
    ensures var t := AcceptTransition(s, o, n, r).value;
            Wrote(s, t, r.requestId, AcceptedRow(s, r)) && RequestsKeyed(t)
    ensures r.requestId != "" && AcceptedRow(s, r).requestId == r.requestId
  {
    hide Put, Get;
    PutWrote(s, r.requestId, AcceptedRow(s, r), AcceptTransition(s, o, n, r).value);
    StoredUnder(s, r.requestId);
  }

  /** No call of any caller breaks that. */
  lemma StepKeepsKeyed(s: System, step: Step)
    requires s.backed && RequestsKeyed(s.store)
    ensures RequestsKeyed(Exec(s, step).store)
  {
    hide RequestsKeyed, RecordStatusOf, AcceptRefusal, AcceptMem;
    match step
    case Register(c) => assert RequestsKeyed(Exec(s, step).store) by { SameRequestsKeyed(s.store, Exec(s, step).store); }
    case Record(r) =>
      var q := Recorded(s.mem, r);
      if q.requestId != "" { AppendRequestWrites(s.store, q); }
    case Accept(o, n, r) => if GoesThrough(s, o, n, r) { AcceptWritesRequest(s.store, o, n, r); }
    case Reject(r, reason) =>
      if r.requestId != "" { AppendRequestWrites(s.store, RejectedRequest(r, reason)); }
  }

  lemma SameRequestsKeyed(s: Durable, t: Durable)
    requires s.requests == t.requests
    ensures RequestsKeyed(s) <==> RequestsKeyed(t)
  {
  }

  // ---- what a restart loads ---------------------------------------------------------------------

  ghost predicate Once<T(!new)>(xs: seq<T>) { forall x :: multiset(xs)[x] <= 1 }

  lemma OnceIndices<T(!new)>(xs: seq<T>, i: int, j: int)
    requires Once(xs) && 0 <= i < j < |xs|
    ensures xs[i] != xs[j]
  {
    assert xs == xs[..j] + xs[j..];
    assert multiset(xs) == multiset(xs[..j]) + multiset(xs[j..]);
    assert xs[i] == xs[..j][i] && xs[j] == xs[j..][0];
    assert xs[i] in multiset(xs[..j]) && xs[j] in multiset(xs[j..]);
    assert multiset(xs)[xs[i]] <= 1;
  }

  lemma OnceConcat<T(!new)>(xs: seq<T>, ys: seq<T>)
    requires Once(xs) && Once(ys) && forall x | x in xs :: x !in ys
    ensures Once(xs + ys)
  {
    forall x ensures multiset(xs + ys)[x] <= 1 {
      assert multiset(xs + ys)[x] == multiset(xs)[x] + multiset(ys)[x];
      if x in multiset(xs) { assert x in xs; assert x !in multiset(ys); }
    }
  }

  lemma {:induction false} RequestsOfMember(rows: Dict<Id, Request>, d: Id, r: Request)
    requires forall e | e in rows :: e.0 == e.1.requestId
    ensures r in RequestsOf(rows, d) <==> r.decisionId == d && (r.requestId, r) in rows
  {
    if rows != [] {
      var n := |rows| - 1;
      assert rows == rows[..n] + [rows[n]] && rows[n] in rows;
      RequestsOfMember(rows[..n], d, r);
    }
  }

  lemma {:induction false} RequestsOfOnce(rows: Dict<Id, Request>, d: Id)
    requires Distinct(rows) && forall e | e in rows :: e.0 == e.1.requestId
    ensures Once(RequestsOf(rows, d))
    ensures forall r :: r in RequestsOf(rows, d) <==> r.decisionId == d && (r.requestId, r) in rows
  {
    forall r ensures r in RequestsOf(rows, d) <==> r.decisionId == d && (r.requestId, r) in rows { RequestsOfMember(rows, d, r); }
    if rows != [] {
      var n := |rows| - 1;
      var last := rows[n];
      assert forall i | 0 <= i < n :: rows[..n][i] == rows[i];
      RequestsOfOnce(rows[..n], d);
      assert last in rows && last !in rows[..n];
      assert last.1 !in RequestsOf(rows[..n], d);
      assert last.1 !in multiset(RequestsOf(rows[..n], d));
    }
  }

  lemma RequestsRebuild(s: Durable, d: Id)
    requires RequestsKeyed(s)
    ensures var rs := OrderedRequests(s, d);
            && Once(rs) && forall r :: r in rs <==> r.decisionId == d && (r.requestId, r) in s.requests
  {
    var key := (r: Request) => r.requestedAt;
    RequestsOfOnce(s.requests, d);
    StableSort.SortBySorts(RequestsOf(s.requests, d), key);
    StableSort.SortBySorts(FetchRequests(s, d), key);
    forall r ensures r in StableSort.SortBy(FetchRequests(s, d), key) <==> r in RequestsOf(s.requests, d) {
      StableSort.SortByMembers(FetchRequests(s, d), key, r);
      StableSort.SortByMembers(RequestsOf(s.requests, d), key, r);
    }
  }

  /** Stored requests listed once have different ids. */
  lemma StoredIdsDiffer(rs: seq<Request>, s: Durable)
    requires Distinct(s.requests) && Once(rs) && forall r | r in rs :: (r.requestId, r) in s.requests
    ensures forall i, j | 0 <= i < j < |rs| :: rs[i].requestId != rs[j].requestId
  {
    hide Once;
    forall i, j | 0 <= i < j < |rs| ensures rs[i].requestId != rs[j].requestId {
      OnceIndices(rs, i, j);
      var a, b := rs[i], rs[j];
      assert a in rs && b in rs;
      DictHas(s.requests, a.requestId, a);
      DictHas(s.requests, b.requestId, b);
    }
  }

  /** A restart loads the stored requests of the listed decisions, each once. */
  ghost predicate Loaded(rs: seq<Request>, s: Durable, ids: seq<Id>) {
    Once(rs) && forall r :: r in rs <==> r.decisionId in ids && (r.requestId, r) in s.requests
  }

  lemma LoadMore(rs: seq<Request>, s: Durable, ids: seq<Id>, d: Id, more: seq<Request>)
    requires Loaded(rs, s, ids) && d !in ids && Once(more)
    requires forall r :: r in more <==> r.decisionId == d && (r.requestId, r) in s.requests
    ensures Loaded(rs + more, s, ids + [d])
  {
    hide Once;
    OnceConcat(rs, more);
  }

  lemma NothingLoaded(s: Durable)
    ensures Loaded([], s, [])
  {
  }

  lemma {:induction false} RebuildLoads(s: Durable, ids: seq<Id>)
    requires StoreInv(s) && RequestsKeyed(s) && forall i, j | 0 <= i < j < |ids| :: ids[i] != ids[j]
    ensures RebuildFrom(s, ids).Ok? && Loaded(RebuildFrom(s, ids).value.requests, s, ids)
  {
    hide StoreInv, RequestsKeyed, Loaded, OrderedRevisions, OrderedRequests, RebuiltAudit;
    RebuildHoldsLineages(s, ids);
    if ids == [] {
      assert Loaded([], s, []) by { NothingLoaded(s); }
    } else {
      var n := |ids| - 1;
      var d := ids[n];
      RebuildLoads(s, ids[..n]);
      assert ids == ids[..n] + [d] && d !in ids[..n];
      RequestsRebuild(s, d);
      LoadMore(RebuildFrom(s, ids[..n]).value.requests, s, ids[..n], d, OrderedRequests(s, d));
    }
  }

  // ---- the log across crashes -----------------------------------------------------------------------

  /** The same question: decision, revision and reason. */
  predicate SameAsk(a: Request, b: Request) {
    a.decisionId == b.decisionId && a.currentRevision == b.currentRevision && a.reasonCode == b.reasonCode
  }

  /** The log knows of the stored pending request `r`. */
  ghost predicate Known(rs: seq<Request>, r: Request) {
    exists q :: q in rs && q.requestId == r.requestId && q.status == Pending && SameAsk(q, r)
  }

  /** The log is unique, knows every stored pending request, and each of those has a lineage. */
  ghost predicate LogInv(s: System) {
    && UniqueLog(s.mem.requests) && RequestsKeyed(s.store)
    && (forall e | e in s.store.requests && e.1.status == Pending :: Known(s.mem.requests, e.1))
    && (forall e | e in s.store.requests && e.1.status == Pending :: RowsOf(s.store.revisions, e.1.decisionId) != [])
  }

  /** A record keeps the log invariant: the row it leaves pending has a lineage and asks what was asked. */
  ghost predicate KeepsLog(s: System, step: Step) {
    step.Record? && RecordStatusOf(s.mem, step.request) != DuplicateRevisionRequest && step.request.requestId != "" ==>
      var q := Recorded(s.mem, step.request);
      q.status == Pending ==> SameAsk(q, Upserted(s.store, q)) && RowsOf(s.store.revisions, q.decisionId) != []
  }

  /** New requests name a revision and have new ids; accepts and rejects may bring any request. */
  ghost predicate NewRequests(s: System, step: Step) {
    step.Record? ==>
      && step.request.currentRevision >= 1
      && (HasKey(s.store.requests, step.request.requestId) ==> exists e :: e in s.mem.requests && e.requestId == step.request.requestId)
  }

  /** Lineages only grow. */
  ghost predicate Grown(s: Durable, t: Durable) {
    forall d :: RowsOf(s.revisions, d) != [] ==> RowsOf(t.revisions, d) != []
  }

  lemma StepGrows(s: System, step: Step)
    requires LineageInv(s)
    ensures Grown(s.store, Exec(s, step).store)
  {
    hide StoreInv, LineagesAgree, RowsOf, AcceptTransition, AcceptRefusal, AcceptMem, RecordStatusOf, Put, Get;
    match step
    case Register(c) =>
      forall d | RowsOf(s.store.revisions, d) != [] ensures RowsOf(Exec(s, step).store.revisions, d) != [] { RegisterGrows(s.store, c, d); }
    case Record(_) =>
    case Accept(o, n, r) =>
      if GoesThrough(s, o, n, r) {
        forall d | RowsOf(s.store.revisions, d) != [] ensures RowsOf(Exec(s, step).store.revisions, d) != [] {
          AcceptBothSides(s, o, n, r, d);
          assert Lineage(s.mem, d) == RowsOf(s.store.revisions, d) by { AgreeAt(s, d); }
        }
      }
    case Reject(_, _) =>
  }

  lemma AgreeAt(s: System, d: Id)
    requires LineageInv(s)
    ensures Lineage(s.mem, d) == RowsOf(s.store.revisions, d)
  {
  }

  lemma RegisterGrows(s: Durable, c: Cad, d: Id)
    requires StoreInv(s) && RowsOf(s.revisions, d) != []
    ensures RowsOf(AppendRevision(s, c).revisions, d) != []
  {
    if !HasKey(s.revisions, c.versionId) { RowsOfAppend(s.revisions, (c.versionId, c), d); }
  }

  /** Writing a settled row under `k` and replacing `k` in the log keeps the log invariant. */
  lemma SettleKeepsLog(s: System, t: System, k: Id, v: Request, q: Request)
    requires LogInv(s) && UniqueLog(t.mem.requests) && RequestsKeyed(t.store) && Grown(s.store, t.store)
    requires Wrote(s.store, t.store, k, v) && v.status != Pending && q.requestId == k
    requires t.mem.requests == ReplaceRequest(s.mem.requests, q)
    ensures LogInv(t)
  {
    hide RowsOf, RequestsKeyed, UniqueLog, Grown;
    forall e | e in t.store.requests && e.1.status == Pending
      ensures Known(t.mem.requests, e.1) && RowsOf(t.store.revisions, e.1.decisionId) != []
    {
      assert e in s.store.requests && e.0 != k;
      assert e.0 == e.1.requestId by { KeyIsId(s.store, e); }
      KeptKnown(s.mem.requests, q, e.1);
      assert RowsOf(t.store.revisions, e.1.decisionId) != [] by { GrownAt(s.store, t.store, e.1.decisionId); }
    }
  }

  lemma KeyIsId(s: Durable, e: (Id, Request))
    requires RequestsKeyed(s) && e in s.requests
    ensures e.0 == e.1.requestId != ""
  {
  }

  lemma GrownAt(s: Durable, t: Durable, d: Id)
    requires Grown(s, t) && RowsOf(s.revisions, d) != []
    ensures RowsOf(t.revisions, d) != []
  {
  }

  lemma KeptKnown(rs: seq<Request>, q: Request, r: Request)
    requires Known(rs, r) && r.requestId != q.requestId
    ensures Known(ReplaceRequest(rs, q), r)
  {
    var w :| w in rs && w.requestId == r.requestId && w.status == Pending && SameAsk(w, r);
    var i :| 0 <= i < |rs| && rs[i] == w;
    assert ReplaceRequest(rs, q)[i] == w;
  }

  /** Replacing a blank id in the log touches no stored request. */
  lemma BlankKeepsLog(s: System, t: System, q: Request)
    requires LogInv(s) && t.store == s.store && q.requestId == "" && t.mem.requests == ReplaceRequest(s.mem.requests, q)
    requires UniqueLog(t.mem.requests)
    ensures LogInv(t)
  {
    hide RowsOf, RequestsKeyed, UniqueLog;
    forall e | e in t.store.requests && e.1.status == Pending ensures Known(t.mem.requests, e.1) {
      KeyIsId(s.store, e);
      KeptKnown(s.mem.requests, q, e.1);
    }
  }

  lemma RecordKeepsLogIff(s: System, r: Request)
    requires s.backed && LogInv(s) && RecordStatusOf(s.mem, r) != DuplicateRevisionRequest && UniqueLog(Exec(s, Record(r)).mem.requests)
    ensures LogInv(Exec(s, Record(r))) <==> KeepsLog(s, Record(r))
  {
    hide RowsOf, UniqueLog, Put, Get, RequestsKeyed, AppendRequest, Upserted, CurrentOf;
    var q := Recorded(s.mem, r);
    var t := Exec(s, Record(r));
    assert t.mem.requests == s.mem.requests + [q] && q.requestId == r.requestId;
    assert forall w | w in s.mem.requests :: w.requestId != q.requestId;
    forall e | e in s.store.requests && e.1.status == Pending ensures Known(t.mem.requests, e.1) {
      var w :| w in s.mem.requests && w.requestId == e.1.requestId && w.status == Pending && SameAsk(w, e.1);
      assert w in t.mem.requests;
    }
    if q.requestId == "" {
      assert t.store == s.store by { BlankWritesNothing(s.store, q); }
    } else {
      var v := Upserted(s.store, q);
      AppendRequestWrites(s.store, q);
      assert v.status == q.status by { UpsertedStatus(s.store, q); }
      assert (q.requestId, v) in t.store.requests && q in t.mem.requests;
      assert q.status == Pending ==> (Known(t.mem.requests, v) <==> SameAsk(q, v));
    }
  }

  lemma BlankWritesNothing(s: Durable, row: Request)
    requires row.requestId == ""
    ensures AppendRequest(s, row) == s
  {
  }

  lemma UpsertedStatus(s: Durable, row: Request)
    ensures Upserted(s, row).status == row.status
  {
    hide Get;
  }

  lemma NewRequestsKeepLog(s: System, step: Step)
    requires LineageInv(s) && NewRequests(s, step)
    ensures KeepsLog(s, step)
  {
    hide StoreInv, LineagesAgree, RowsOf, Get;
    if step.Record? && RecordStatusOf(s.mem, step.request) != DuplicateRevisionRequest {
      NotStored(s, step.request);
      if Recorded(s.mem, step.request).status == Pending { PendingHasLineage(s, step.request); }
    }
  }

  lemma NotStored(s: System, r: Request)
    requires NewRequests(s, Record(r)) && RecordStatusOf(s.mem, r) != DuplicateRevisionRequest
    ensures Get(s.store.requests, r.requestId).None?
  {
    assert forall e | e in s.mem.requests :: !Duplicates(e, r);
  }

  lemma PendingHasLineage(s: System, r: Request)
    requires LineageInv(s) && r.currentRevision >= 1 && Recorded(s.mem, r).status == Pending
    requires RecordStatusOf(s.mem, r) != DuplicateRevisionRequest
    ensures RowsOf(s.store.revisions, r.decisionId) != []
  {
    AgreeAt(s, r.decisionId);
  }

  /** The exact condition: only a record can break the log invariant, whatever accepts and rejects bring. */
  lemma StepKeepsLogIff(s: System, step: Step)
    requires LineageInv(s) && LogInv(s)
    ensures LogInv(Exec(s, step)) <==> KeepsLog(s, step)
  {
    hide StoreInv, LineagesAgree, UniqueLog, RequestsKeyed, RecordStatusOf, AcceptRefusal, ReplaceRequest, Wrote, Grown, Known, RowsOf, RegisterMem;
    StepKeepsUniqueLog(s, step);
    StepGrows(s, step);
    var t := Exec(s, step);
    match step
    case Register(c) => RegisterKeepsLog(s, c);
    case Record(r) => if RecordStatusOf(s.mem, r) != DuplicateRevisionRequest { RecordKeepsLogIff(s, r); }
    case Accept(o, n, r) =>
      if GoesThrough(s, o, n, r) {
        AcceptWritesRequest(s.store, o, n, r);
        SettleKeepsLog(s, t, r.requestId, AcceptedRow(s.store, r), r.(status := Accepted));
      }
    case Reject(r, reason) =>
      var q := RejectedRequest(r, reason);
      if r.requestId == "" {
        BlankKeepsLog(s, t, q);
      } else {
        AppendRequestWrites(s.store, q);
        SettleKeepsLog(s, t, r.requestId, Upserted(s.store, q), q);
      }
  }

  lemma RegisterKeepsLog(s: System, c: Cad)
    requires LogInv(s) && Grown(s.store, Exec(s, Register(c)).store)
    ensures LogInv(Exec(s, Register(c)))
  {
    hide UniqueLog, RequestsKeyed, RowsOf, Known;
    var t := Exec(s, Register(c));
    SameRequestsKeyed(s.store, t.store);
    forall e | e in t.store.requests && e.1.status == Pending ensures RowsOf(t.store.revisions, e.1.decisionId) != [] {
      GrownAt(s.store, t.store, e.1.decisionId);
    }
  }

  /** Stored pending requests ask different things. */
  lemma PendingDiffer(s: System, e: (Id, Request), f: (Id, Request))
    requires LogInv(s) && e in s.store.requests && f in s.store.requests && e.0 != f.0
    ensures !Clash(e.1, f.1)
  {
    hide RowsOf;
    if e.1.status == Pending && f.1.status == Pending {
      var a :| a in s.mem.requests && a.requestId == e.1.requestId && a.status == Pending && SameAsk(a, e.1);
      var b :| b in s.mem.requests && b.requestId == f.1.requestId && b.status == Pending && SameAsk(b, f.1);
      var i :| 0 <= i < |s.mem.requests| && s.mem.requests[i] == a;
      var j :| 0 <= j < |s.mem.requests| && s.mem.requests[j] == b;
      assert a.requestId != b.requestId;
      if i < j { assert !Clash(a, b); } else { assert !Clash(b, a); }
    }
  }

  /** A restart keeps the log invariant. */
  lemma RestartKeepsLog(s: System, ids: seq<Id>)
    requires LineageInv(s) && LogInv(s) && ListsLineages(ids, s.store)
    ensures LogInv(Restarted(s.store, ids, s.mem))
  {
    hide RowsOf, StoreInv, RebuildFrom, LineagesAgree, RequestsKeyed, Once;
    RebuildLoads(s.store, ids);
    var rs := RebuildFrom(s.store, ids).value.requests;
    NoBlankLineage(s.store);
    StoredIdsDiffer(rs, s.store) by { DistinctRequests(s.store); }
    forall i, j | 0 <= i < j < |rs| ensures !Clash(rs[i], rs[j]) {
      assert rs[i] in rs && rs[j] in rs;
      PendingDiffer(s, (rs[i].requestId, rs[i]), (rs[j].requestId, rs[j]));
    }
    forall e | e in s.store.requests && e.1.status == Pending ensures Known(rs, e.1) {
      KeyIsId(s.store, e);
      assert e == (e.1.requestId, e.1) && e.1 in rs;
      assert SameAsk(e.1, e.1);
    }
  }

  lemma DistinctRequests(s: Durable)
    requires RequestsKeyed(s)
    ensures Distinct(s.requests)
  {
  }

  ghost predicate LogEvent(s: System, e: Event) {
    match e
    case Call(step) => KeepsLog(s, step)
    case DieInside(step, _) => KeepsLog(s, step)
    case DieBetween(_) => true
  }

  ghost predicate AllLogEvents(s: System, es: seq<Event>) {
    es == [] || (AllLogEvents(s, es[..|es| - 1]) && LogEvent(HappenAll(s, es[..|es| - 1]), es[|es| - 1]))
  }

  lemma EventKeepsLog(s: System, e: Event)
    requires LineageInv(s) && LogInv(s) && Allowed(s, e) && LogEvent(s, e)
    ensures LogInv(Happens(s, e))
  {
    hide LineageInv, LogInv, Exec, HandsBack, KeepsLog, ListsLineages;
    match e
    case Call(step) => StepKeepsLogIff(s, step);
    case DieInside(step, ids) =>
      StepKeepsLogIff(s, step);
      CarefulStepKeepsLineages(s, step);
      RestartKeepsLog(Exec(s, step), ids);
      RestartFallback(Exec(s, step), ids, s.mem);
    case DieBetween(ids) => RestartKeepsLog(s, ids);
  }

  lemma RestartFallback(s: System, ids: seq<Id>, p: Projection)
    requires LineageInv(s)
    ensures Restarted(s.store, ids, p) == Restarted(s.store, ids, s.mem)
  {
    hide StoreInv, RebuildFrom, LineagesAgree;
    RebuildHoldsLineages(s.store, ids);
  }

  lemma BootLog()
    ensures LogInv(BOOT)
  {
  }

  lemma {:induction false} EveryRunKeepsLog(es: seq<Event>)
    requires AllAllowed(BOOT, es) && AllLogEvents(BOOT, es)
    ensures LogInv(HappenAll(BOOT, es))
  {
    hide LogInv, LineageInv, Allowed, LogEvent, Happens;
    if es == [] {
      BootLog();
    } else {
      EveryRunKeepsLog(es[..|es| - 1]);
      EveryRunKeepsLineages(es[..|es| - 1]);
      EventKeepsLog(HappenAll(BOOT, es[..|es| - 1]), es[|es| - 1]);
    }
  }

  /** The reader's form, across any number of crashes: chains, and a log in which no id and no pending
      question is there twice. */
  lemma ReachableLedgersAreWellFormed(es: seq<Event>, d: Id)
    requires AllAllowed(BOOT, es) && AllLogEvents(BOOT, es)
    ensures var p := HappenAll(BOOT, es).mem;
            && (Lineage(p, d) == [] || Chain(Lineage(p, d), d))
            && UniqueLog(p.requests)
  {
    hide Chain, HappenAll, AllAllowed, AllLogEvents;
    ReachableLineagesAreChains(es, d);
    EveryRunKeepsLog(es);
  }

  // ---- requests handed back too: full agreement ------------------------------------------------------

  /** One that names no lineage was rejected, and pending ones do not clash. */
  ghost predicate RequestInv(s: Durable) {
    && RequestsKeyed(s)
    && (forall e | e in s.requests :: RowsOf(s.revisions, e.1.decisionId) == [] ==> e.1.status == Rejected)
    && (forall e, f | e in s.requests && f in s.requests && e.0 != f.0 :: !Clash(e.1, f.1))
  }

  /** The log holds stored requests, each once, and every stored one that is not settled as rejected. */
  ghost predicate RequestsAgree(rs: seq<Request>, s: Durable) {
    && (forall i, j | 0 <= i < j < |rs| :: rs[i].requestId != rs[j].requestId)
    && (forall r | r in rs :: (r.requestId, r) in s.requests)
    && (forall e | e in s.requests && e.1.status != Rejected :: e.1 in rs)
  }

  ghost predicate AgreementInv(s: System) { LineageInv(s) && RequestInv(s.store) && RequestsAgree(s.mem.requests, s.store) }

  /** Requests are handed back as the ledger returned them, and new ones have new ids. */
  ghost predicate Disciplined(s: System, step: Step) {
    && HandsBack(s.mem, step)
    && match step
       case Register(_) => true
       case Record(r) =>
         && r.requestId != "" && r.currentRevision >= 1 && r.status == Pending && r.rejectReason == ""
         && (HasKey(s.store.requests, r.requestId) ==> exists e | e in s.mem.requests :: e.requestId == r.requestId)
       case Accept(_, _, r) => r in s.mem.requests && r.status == Pending
       case Reject(r, _) => r in s.mem.requests && r.status == Pending
  }

  ghost predicate Settles(r: Request, r': Request) {
    r.status == Pending && r'.status != Pending && r' == r.(status := r'.status, rejectReason := r'.rejectReason)
  }

  /** The rows `t` holds once `r'` is stored in place of `r`. */
  ghost predicate Swapped(s: Dict<Id, Request>, t: Dict<Id, Request>, r: Request, r': Request) {
    Distinct(t) && forall e :: e in t <==> e == (r.requestId, r') || (e in s && e.0 != r.requestId)
  }

  lemma SwappedInv(s: Durable, t: Durable, r: Request, r': Request)
    requires RequestInv(s) && (r.requestId, r) in s.requests && Settles(r, r')
    requires t.revisions == s.revisions && Swapped(s.requests, t.requests, r, r')
    ensures RequestInv(t)
  {
  }

  lemma SwappedAgree(rs: seq<Request>, s: Durable, t: Durable, r: Request, r': Request)
    requires RequestInv(s) && RequestsAgree(rs, s) && r in rs && Settles(r, r') && Swapped(s.requests, t.requests, r, r')
    ensures RequestsAgree(ReplaceRequest(rs, r'), t)
  {
    var rs' := ReplaceRequest(rs, r');
    forall q | q in rs' ensures (q.requestId, q) in t.requests {
      var i :| 0 <= i < |rs'| && rs'[i] == q;
      assert rs[i] in rs;
    }
    forall e | e in t.requests && e.1.status != Rejected ensures e.1 in rs' {
      var i :| 0 <= i < |rs| && rs[i] == if e.0 == r.requestId then r else e.1;
      assert rs'[i] == e.1;
    }
  }

  /** Settling a pending request keeps log and store in step. */
  lemma SettleKeepsRequests(rs: seq<Request>, s: Durable, r: Request, r': Request)
    requires RequestInv(s) && RequestsAgree(rs, s) && r in rs && Settles(r, r')
    ensures var t := s.(requests := Put(s.requests, r.requestId, r'));
            RequestInv(t) && RequestsAgree(ReplaceRequest(rs, r'), t)
  {
    var t := s.(requests := Put(s.requests, r.requestId, r'));
    assert Swapped(s.requests, t.requests, r, r') by {
      hide Put;
      forall e ensures Distinct(t.requests) && (e in t.requests <==> e == (r.requestId, r') || (e in s.requests && e.0 != r.requestId)) {
        PutMembers(s.requests, r.requestId, r', e);
      }
    }
    assert (r.requestId, r) in s.requests;
    hide *;
    SwappedInv(s, t, r, r');
    SwappedAgree(rs, s, t, r, r');
  }

  /** Logging a new request keeps log and store in step. */
  lemma AddKeepsRequests(rs: seq<Request>, s: Durable, q: Request)
    requires RequestInv(s) && RequestsAgree(rs, s) && q.requestId != ""
    requires forall e | e in s.requests :: e.0 != q.requestId && !Clash(e.1, q)
    requires RowsOf(s.revisions, q.decisionId) == [] ==> q.status == Rejected
    ensures var t := s.(requests := s.requests + [(q.requestId, q)]); RequestInv(t) && RequestsAgree(rs + [q], t)
  {
    var t := s.(requests := s.requests + [(q.requestId, q)]);
    forall i | 0 <= i < |rs| ensures rs[i].requestId != q.requestId {
      assert rs[i] in rs && (rs[i].requestId, rs[i]) in s.requests;
    }
    forall i | 0 <= i < |s.requests| ensures s.requests[i].0 != q.requestId { assert s.requests[i] in s.requests; }
  }

  lemma RecordKeepsAgreement(s: System, r: Request)
    requires AgreementInv(s) && Disciplined(s, Record(r)) && RecordStatusOf(s.mem, r) != DuplicateRevisionRequest
    ensures var t := AppendRequest(s.store, Recorded(s.mem, r)); RequestInv(t) && RequestsAgree(RecordMem(s.mem, r).requests, t)
  {
    hide StoreInv;
    var q := Recorded(s.mem, r);
    var rs := s.mem.requests;
    assert forall e | e in rs :: !Duplicates(e, r);
    forall e | e in s.store.requests ensures e.0 != q.requestId && !Clash(e.1, q) {
      if e.0 == q.requestId { DictHas(s.store.requests, e.0, e.1); }
      if e.1.status == Pending { assert e.1 in rs; }
    }
    AgreeAt(s, q.decisionId);
    AddKeepsRequests(rs, s.store, q);
    var rows := s.store.requests;
    forall i | 0 <= i < |rows| ensures rows[i].0 != q.requestId { assert rows[i] in rows; }
  }

  lemma InLogHasId(s: System, r: Request)
    requires RequestInv(s.store) && RequestsAgree(s.mem.requests, s.store) && r in s.mem.requests
    ensures r.requestId != "" && Get(s.store.requests, r.requestId) == Some(r)
  {
    DictHas(s.store.requests, r.requestId, r);
  }

  /** Requests only depend on which lineages exist. */
  lemma GrownLineages(rs: seq<Request>, s: Durable, t: Durable)
    requires RequestInv(s) && s.requests == t.requests
    requires forall d :: RowsOf(t.revisions, d) == [] ==> RowsOf(s.revisions, d) == []
    ensures RequestInv(t) && (RequestsAgree(rs, s) <==> RequestsAgree(rs, t))
  {
    hide RowsOf, Clash;
  }

  lemma AcceptKeepsAgreement(s: System, o: Cad, n: Cad, r: Request)
    requires AgreementInv(s) && r in s.mem.requests && r.status == Pending && GoesThrough(s, o, n, r)
    ensures var t := AcceptTransition(s.store, o, n, r).value;
            RequestInv(t) && RequestsAgree(AcceptMem(s.mem, o, n, r).requests, t)
  {
    hide StoreInv, LineagesAgree, RequestInv, RequestsAgree, RowsOf, ReplaceRequest, Put, AcceptRefusal;
    var t := AcceptTransition(s.store, o, n, r).value;
    InLogHasId(s, r);
    var r' := r.(status := Accepted);
    SettleKeepsRequests(s.mem.requests, s.store, r, r');
    var u := s.store.(requests := Put(s.store.requests, r.requestId, r'));
    assert t.requests == u.requests;
    StepGrows(s, Accept(o, n, r));
    GrownLineages(ReplaceRequest(s.mem.requests, r'), u, t);
  }

  /** With requests handed back as well, every call keeps the log and the stored requests in agreement. */
  lemma StepKeepsAgreement(s: System, step: Step)
    requires AgreementInv(s) && Disciplined(s, step)
    ensures AgreementInv(Exec(s, step))
  {
    hide StoreInv, LineagesAgree, RequestInv, RequestsAgree, HandsBack, RecordStatusOf, CurrentOf, AcceptRefusal, Put, Get, RowsOf;
    CarefulStepKeepsLineages(s, step);
    match step
    case Register(c) =>
      StepGrows(s, step);
      GrownLineages(s.mem.requests, s.store, Exec(s, step).store);
    case Record(r) => if RecordStatusOf(s.mem, r) != DuplicateRevisionRequest { RecordKeepsAgreement(s, r); }
    case Accept(o, n, r) => if GoesThrough(s, o, n, r) { AcceptKeepsAgreement(s, o, n, r); }
    case Reject(r, reason) =>
      InLogHasId(s, r);
      SettleKeepsRequests(s.mem.requests, s.store, r, RejectedRequest(r, reason));
  }

  /** And so does a restart. */
  lemma RestartKeepsAgreement(s: Durable, ids: seq<Id>)
    requires StoreInv(s) && RequestInv(s) && ListsLineages(ids, s)
    ensures RebuildFrom(s, ids).Ok? && AgreementInv(System(RebuildFrom(s, ids).value, s, true))
  {
    hide StoreInv, RebuildFrom, LineagesAgree, RowsOf, Once;
    RebuildAgrees(s, ids);
    RebuildLoads(s, ids);
    NoBlankLineage(s);
    var p := RebuildFrom(s, ids).value;
    StoredIdsDiffer(p.requests, s);
    forall e | e in s.requests && e.1.status != Rejected ensures e.1 in p.requests {
      assert e == (e.1.requestId, e.1);
    }
  }

  ghost predicate DisciplinedEvent(s: System, e: Event) {
    match e
    case Call(step) => Disciplined(s, step)
    case DieInside(step, ids) => Disciplined(s, step) && ListsLineages(ids, Exec(s, step).store)
    case DieBetween(ids) => ListsLineages(ids, s.store)
  }

  ghost predicate AllDisciplined(s: System, es: seq<Event>) {
    es == [] || (AllDisciplined(s, es[..|es| - 1]) && DisciplinedEvent(HappenAll(s, es[..|es| - 1]), es[|es| - 1]))
  }

  lemma EventKeepsAgreement(s: System, e: Event)
    requires AgreementInv(s) && DisciplinedEvent(s, e)
    ensures AgreementInv(Happens(s, e))
  {
    hide StoreInv, LineagesAgree, RequestInv, RequestsAgree, Exec, Disciplined, ListsLineages, RebuildFrom;
    match e
    case Call(step) => StepKeepsAgreement(s, step);
    case DieInside(step, ids) =>
      StepKeepsAgreement(s, step);
      RestartKeepsAgreement(Exec(s, step).store, ids);
    case DieBetween(ids) => RestartKeepsAgreement(s.store, ids);
  }

  lemma BootAgrees()
    ensures AgreementInv(BOOT)
  {
  }

  /** Over every such run, with crashes anywhere. */
  lemma {:induction false} EveryRunKeepsAgreement(es: seq<Event>)
    requires AllDisciplined(BOOT, es)
    ensures AgreementInv(HappenAll(BOOT, es))
  {
    hide AgreementInv, DisciplinedEvent, Happens;
    if es == [] {
      BootAgrees();
    } else {
      EveryRunKeepsAgreement(es[..|es| - 1]);
      EventKeepsAgreement(HappenAll(BOOT, es[..|es| - 1]), es[|es| - 1]);
    }
  }
}
