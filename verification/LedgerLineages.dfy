/** The lineages of a ledger with a store, over every run with crashes: what a caller must hand
    back, exactly, for the ledger to agree with its store and every lineage to stay one chain.
    Nothing here depends on requests. */
module LedgerLineages {
  import opened OrderedDict
  import opened CanonicalDecision
  import opened DecisionStore
  import opened DecisionLedger
  import opened LedgerRuns

  ghost predicate LineagesAgree(p: Projection, s: Durable) {
    && (forall d :: Lineage(p, d) == RowsOf(s.revisions, d))
    && (forall d | d in p.lineages :: p.lineages[d] != [])
  }

  /** The run invariant: stored lineages are chains, and the projection holds the same ones. */
  ghost predicate LineageInv(s: System) { s.backed && StoreInv(s.store) && LineagesAgree(s.mem, s.store) }

  /** The decision handed in equals the current one in every field that an accept does not overwrite. */
  predicate HandedBack(p: Projection, o: Cad) {
    var cur := CurrentOf(Lineage(p, o.decisionId));
    cur.Some? && SupersededBy(o, "") == SupersededBy(cur.value, "")
  }

  predicate GoesThrough(s: System, o: Cad, n: Cad, r: Request) {
    AcceptRefusal(s.mem, o, n) == "" && AcceptTransition(s.store, o, n, r).Ok?
  }

  // ---- accept ------------------------------------------------------------------------

  /** An accept that the ledger does not refuse finds its old row at the end of a stored chain. */
  lemma SeesLast(s: System, o: Cad, n: Cad)
    requires LineageInv(s) && AcceptRefusal(s.mem, o, n) == ""
    ensures var l := RowsOf(s.store.revisions, o.decisionId);
            && Lineage(s.mem, o.decisionId) == l && Chain(l, o.decisionId) && CurrentOf(l) == Some(l[|l| - 1])
            && l[|l| - 1].versionId == o.versionId && n.decisionId == o.decisionId
            && Find(s.store.revisions, o.versionId) >= 0
            && s.store.revisions[Find(s.store.revisions, o.versionId)].1 == l[|l| - 1]
  {
    hide Chain;
    var l := Lineage(s.mem, o.decisionId);
    var rows := s.store.revisions;
    assert l == RowsOf(rows, o.decisionId) && Chained(rows, o.decisionId);
    ChainHasCurrent(l, o.decisionId);
    StoredAt(rows, o.decisionId, l[|l| - 1]);
  }

  lemma StoredAt(rows: Dict<Id, Cad>, d: Id, c: Cad)
    requires Keyed(rows) && c in RowsOf(rows, d)
    ensures Find(rows, c.versionId) >= 0 && rows[Find(rows, c.versionId)].1 == c
  {
    hide RowsOf;
    RowsOfMember(rows, d, c);
    var i :| 0 <= i < |rows| && rows[i].1 == c;
    assert rows[i].0 == c.versionId;
  }

  /** The lineages of the projection after an accept. */
  lemma AcceptedLineage(p: Projection, o: Cad, n: Cad, r: Request, d: Id)
    requires var l := Lineage(p, o.decisionId); Chain(l, o.decisionId) && l[|l| - 1].versionId == o.versionId
    ensures Lineage(AcceptMem(p, o, n, r), d) ==
            if d == o.decisionId then Lineage(p, d)[|Lineage(p, d)| - 1 := SupersededBy(o, n.versionId)] + [Succeeding(n, o.versionId)]
            else Lineage(p, d)
  {
    hide Chain, ReplaceRequest;
    ReplacedShape(Lineage(p, o.decisionId), o.decisionId, SupersededBy(o, n.versionId));
  }

  lemma AcceptKeepsPresence(p: Projection, o: Cad, n: Cad, r: Request)
    requires forall d | d in p.lineages :: p.lineages[d] != []
    ensures forall d | d in AcceptMem(p, o, n, r).lineages :: AcceptMem(p, o, n, r).lineages[d] != []
  {
    hide ReplaceRequest, ReplaceVersion, Lineage;
  }

  /** What an accept that goes through leaves in the ledger and in the store, lineage by lineage. */
  lemma AcceptBothSides(s: System, o: Cad, n: Cad, r: Request, d: Id)
    requires LineageInv(s) && GoesThrough(s, o, n, r)
    ensures var l := Lineage(s.mem, o.decisionId); var s' := Exec(s, Accept(o, n, r));
            && l != [] && CurrentOf(l) == Some(l[|l| - 1])
            && RowsOf(s'.store.revisions, d) == (if d == o.decisionId then ExtendedBy(l, n) else Lineage(s.mem, d))
            && Lineage(s'.mem, d) == (if d == o.decisionId then l[|l| - 1 := SupersededBy(o, n.versionId)] + [Succeeding(n, o.versionId)] else Lineage(s.mem, d))
            && l[|l| - 1].versionId == o.versionId
  {
    hide Chain, StoreInv, AcceptTransition, AcceptMem, RowsOf, Lineage, ExtendedBy, AcceptRefusal;
    SeesLast(s, o, n);
    AcceptExtendsAt(s.store, o, n, r, d);
    AcceptedLineage(s.mem, o, n, r, d);
    assert Lineage(s.mem, d) == RowsOf(s.store.revisions, d);
  }

  /** An accept that goes through leaves ledger and store in agreement exactly when the decision
      handed in equals the current one in every field that the accept does not overwrite, whatever
      the new decision and the request are. */
  lemma AgreementNeedsHandBack(s: System, o: Cad, n: Cad, r: Request)
    requires LineageInv(s) && GoesThrough(s, o, n, r)
    ensures LineagesAgree(Exec(s, Accept(o, n, r)).mem, Exec(s, Accept(o, n, r)).store) <==> HandedBack(s.mem, o)
  {
    hide StoreInv, AcceptTransition, AcceptMem, RowsOf, Lineage, AcceptRefusal;
    var d := o.decisionId;
    var s' := Exec(s, Accept(o, n, r));
    var l := Lineage(s.mem, d);
    AcceptBothSides(s, o, n, r, d);
    var live, kept := Lineage(s'.mem, d), RowsOf(s'.store.revisions, d);
    var k := |l| - 1;
    assert live[k] == SupersededBy(o, n.versionId) && kept[k] == SupersededBy(l[k], n.versionId);
    assert live == kept <==> live[k] == kept[k];
    forall e | e != d ensures Lineage(s'.mem, e) == RowsOf(s'.store.revisions, e) { AcceptBothSides(s, o, n, r, e); }
    AcceptKeepsPresence(s.mem, o, n, r);
  }

  /** Handing back the current decision makes a canonical offer its successor. */
  lemma HandedBackSucceeds(s: System, o: Cad, n: Cad)
    requires LineageInv(s) && Fresh(n) && AcceptRefusal(s.mem, o, n) == "" && HandedBack(s.mem, o)
    ensures Successor(o, n)
  {
    SeesLast(s, o, n);
    var l := Lineage(s.mem, o.decisionId);
    ChainMember(l, o.decisionId, l[|l| - 1]);
  }

  /** Such an accept is refused by the store only for want of a request id. */
  lemma AcceptNeverConflicts(s: System, o: Cad, n: Cad, r: Request)
    requires LineageInv(s) && Fresh(n) && AcceptRefusal(s.mem, o, n) == "" && HandedBack(s.mem, o)
    ensures AcceptTransition(s.store, o, n, r).Ok? <==> r.requestId != ""
  {
    hide Chain, StoreInv, RowsOf, LineagesAgree, Find;
    SeesLast(s, o, n);
    HandedBackSucceeds(s, o, n);
    NextVersionAbsent(s.store, o.decisionId, n.revision);
  }

  lemma ChainBound(l: seq<Cad>, d: Id, c: Cad)
    requires Chain(l, d) && c in l
    ensures c.revision <= l[|l| - 1].revision
  {
  }

  /** The version after the last one of a chain is not stored yet. */
  lemma NextVersionAbsent(s: Durable, d: Id, revision: int)
    requires StoreInv(s) && Chain(RowsOf(s.revisions, d), d)
    requires revision == RowsOf(s.revisions, d)[|RowsOf(s.revisions, d)| - 1].revision + 1 >= 1
    ensures !HasKey(s.revisions, VersionIdOf(d, revision))
  {
    if HasKey(s.revisions, VersionIdOf(d, revision)) {
      var row := KeyedRow(s, VersionIdOf(d, revision));
      var m := RowsOf(s.revisions, row.decisionId);
      ChainMember(m, row.decisionId, row);
      ChainBound(m, row.decisionId, row);
      VersionIdInjective(row.decisionId, row.revision, d, revision);
    }
  }

  lemma AcceptKeepsLineagesIff(s: System, o: Cad, n: Cad, r: Request)
    requires LineageInv(s) && Fresh(n) && GoesThrough(s, o, n, r)
    ensures LineageInv(Exec(s, Accept(o, n, r))) <==> HandedBack(s.mem, o)
  {
    hide StoreInv, AcceptTransition, AcceptMem, LineagesAgree, HandedBack, AcceptRefusal, Fresh, Successor;
    AgreementNeedsHandBack(s, o, n, r);
    if HandedBack(s.mem, o) {
      HandedBackSucceeds(s, o, n);
      AcceptKeepsStoreInv(s.store, o, n, r);
    }
  }

  // ---- register ------------------------------------------------------------------------

  /** A lineage without a current entry is empty. */
  lemma NothingRegistered(s: System, d: Id)
    requires LineageInv(s) && CurrentOf(Lineage(s.mem, d)).None?
    ensures RowsOf(s.store.revisions, d) == [] && Lineage(s.mem, d) == []
  {
    hide Chain;
    var l := Lineage(s.mem, d);
    assert l == RowsOf(s.store.revisions, d);
    if l != [] { assert Chained(s.store.revisions, d); ChainHasCurrent(l, d); }
  }

  lemma RegisterKeepsAgreement(s: System, c: Cad, t: Durable)
    requires LineagesAgree(s.mem, s.store) && Lineage(s.mem, c.decisionId) == []
    requires forall d :: RowsOf(t.revisions, d) == if d == c.decisionId then [c] else RowsOf(s.store.revisions, d)
    ensures LineagesAgree(s.mem.(lineages := s.mem.lineages[c.decisionId := [c]]), t)
  {
    hide RowsOf;
  }

  lemma RegisterKeepsLineages(s: System, c: Cad)
    requires LineageInv(s) && Fresh(c)
    ensures LineageInv(Exec(s, Register(c)))
  {
    hide StoreInv, RowsOf, LineagesAgree, Fresh;
    if RegisterMem(s.mem, c).Appended? {
      NothingRegistered(s, c.decisionId);
      AppendStartsChain(s.store, c);
      assert Lineage(s.mem, c.decisionId) + [c] == [c];
      RegisterKeepsAgreement(s, c, AppendRevision(s.store, c));
    }
  }

  // ---- every call -------------------------------------------------------------------------

  lemma SameRevisionsAgree(p: Projection, q: Projection, s: Durable, t: Durable)
    requires p.lineages == q.lineages && s.revisions == t.revisions
    ensures LineagesAgree(p, s) <==> LineagesAgree(q, t)
    ensures StoreInv(s) <==> StoreInv(t)
  {
    hide RowsOf, Chained, Keyed;
    assert forall d :: Lineage(p, d) == Lineage(q, d);
  }

  /** A call with canonical decisions keeps the invariant exactly when it is not an accept that goes
      through for a decision that was not handed back. Requests may be anything: unrecorded, settled
      long ago, or naming another decision. */
  lemma StepKeepsLineagesIff(s: System, step: Step)
    requires LineageInv(s) && OffersCanonical(step)
    ensures LineageInv(Exec(s, step)) <==>
            !(step.Accept? && GoesThrough(s, step.old_, step.new_, step.request) && !HandedBack(s.mem, step.old_))
  {
    hide StoreInv, LineagesAgree, HandedBack, AcceptRefusal, AcceptTransition, AcceptMem, Fresh, RecordStatusOf;
    match step
    case Register(c) => RegisterKeepsLineages(s, c);
    case Record(_) => SameRevisionsAgree(s.mem, Exec(s, step).mem, s.store, Exec(s, step).store);
    case Accept(o, n, r) => if GoesThrough(s, o, n, r) { AcceptKeepsLineagesIff(s, o, n, r); }
    case Reject(_, _) => SameRevisionsAgree(s.mem, Exec(s, step).mem, s.store, Exec(s, step).store);
  }

  /** What a caller must do about decisions: offer canonical ones and hand back the current one. */
  predicate HandsBack(p: Projection, step: Step) {
    OffersCanonical(step) && (step.Accept? && IsCurrent(p, step.old_) ==> HandedBack(p, step.old_))
  }

  lemma CarefulStepKeepsLineages(s: System, step: Step)
    requires LineageInv(s) && HandsBack(s.mem, step)
    ensures LineageInv(Exec(s, step))
  {
    hide LineageInv, HandedBack, OffersCanonical, AcceptTransition, Exec;
    StepKeepsLineagesIff(s, step);
  }

  // ---- restart ------------------------------------------------------------------------------

  lemma LineageRebuilds(s: Durable, d: Id)
    requires StoreInv(s)
    ensures var l := OrderedRevisions(s, d);
            l == RowsOf(s.revisions, d) && (l == [] || CountCurrent(l) == 1)
  {
    hide Chain;
    var l := RowsOf(s.revisions, d);
    assert Chained(s.revisions, d);
    if l != [] { ChainSorted(l, d); ChainHasCurrent(l, d); }
  }

  ghost predicate HoldsLineages(p: Projection, s: Durable, ids: seq<Id>) {
    && (forall d :: d in p.lineages <==> d in ids)
    && (forall d | d in ids :: p.lineages[d] == RowsOf(s.revisions, d))
  }

  lemma {:induction false} RebuildHoldsLineages(s: Durable, ids: seq<Id>)
    requires StoreInv(s)
    ensures RebuildFrom(s, ids).Ok? && HoldsLineages(RebuildFrom(s, ids).value, s, ids)
  {
    hide StoreInv, OrderedRevisions, OrderedRequests, RebuiltAudit, RowsOf;
    if ids != [] {
      var n := |ids| - 1;
      RebuildHoldsLineages(s, ids[..n]);
      assert ids == ids[..n] + [ids[n]];
      LineageRebuilds(s, ids[n]);
    }
  }

  lemma NoBlankLineage(s: Durable)
    requires StoreInv(s)
    ensures RowsOf(s.revisions, "") == []
  {
    assert Chained(s.revisions, "");
  }

  /** A restart on a store of chains succeeds and yields exactly the stored lineages, whatever
      requests the store holds. */
  lemma RebuildAgrees(s: Durable, ids: seq<Id>)
    requires StoreInv(s) && ListsLineages(ids, s)
    ensures RebuildFrom(s, ids).Ok? && LineageInv(System(RebuildFrom(s, ids).value, s, true))
  {
    hide StoreInv, RebuildFrom, RowsOf;
    RebuildHoldsLineages(s, ids);
    NoBlankLineage(s);
    var p := RebuildFrom(s, ids).value;
    forall d ensures Lineage(p, d) == RowsOf(s.revisions, d) { }
  }

  // ---- runs with crashes ----------------------------------------------------------------------

  /** What happens to a running system: a call completes; the process dies after the durable
      write of a call and before its in-memory update; or it dies between calls. After a death
      the ledger is rebuilt from some listing of the lineages. */
  datatype Event = Call(step: Step) | DieInside(step: Step, ids: seq<Id>) | DieBetween(ids: seq<Id>)

  function Restarted(s: Durable, ids: seq<Id>, fallback: Projection): System {
    var r := RebuildFrom(s, ids);
    System(if r.Ok? then r.value else fallback, s, true)
  }

  function Happens(s: System, e: Event): System {
    match e
    case Call(step) => Exec(s, step)
    case DieInside(step, ids) => Restarted(Exec(s, step).store, ids, s.mem)
    case DieBetween(ids) => Restarted(s.store, ids, s.mem)
  }

  /** Callers hand decisions back; requests are unconstrained. */
  ghost predicate Allowed(s: System, e: Event) {
    match e
    case Call(step) => HandsBack(s.mem, step)
    case DieInside(step, ids) => HandsBack(s.mem, step) && ListsLineages(ids, Exec(s, step).store)
    case DieBetween(ids) => ListsLineages(ids, s.store)
  }

  ghost predicate SameLineages(p: Projection, q: Projection) { forall d :: Lineage(p, d) == Lineage(q, d) }

  lemma AgreeingLineages(p: Projection, q: Projection, s: Durable)
    requires LineagesAgree(p, s) && LineagesAgree(q, s)
    ensures SameLineages(p, q)
  {
    forall d ensures Lineage(p, d) == Lineage(q, d) {
      assert Lineage(p, d) == RowsOf(s.revisions, d);
      assert Lineage(q, d) == RowsOf(s.revisions, d);
    }
  }

  /** One event keeps the run invariant, and a death loses nothing but possibly the call in
      flight: the rebuilt lineages are those before or those after it. */
  lemma EventKeepsLineages(s: System, e: Event)
    requires LineageInv(s) && Allowed(s, e)
    ensures LineageInv(Happens(s, e))
    ensures e.DieBetween? ==> RebuildFrom(s.store, e.ids).Ok? && SameLineages(Happens(s, e).mem, s.mem)
    ensures e.DieInside? ==> RebuildFrom(Exec(s, e.step).store, e.ids).Ok? && SameLineages(Happens(s, e).mem, Exec(s, e.step).mem)
  {
    hide StoreInv, LineagesAgree, Exec, RebuildFrom, HandsBack, SameLineages;
    match e
    case Call(step) => CarefulStepKeepsLineages(s, step);
    case DieInside(step, ids) =>
      CarefulStepKeepsLineages(s, step);
      RebuildAgrees(Exec(s, step).store, ids);
      AgreeingLineages(Happens(s, e).mem, Exec(s, step).mem, Exec(s, step).store);
    case DieBetween(ids) =>
      RebuildAgrees(s.store, ids);
      AgreeingLineages(Happens(s, e).mem, s.mem, s.store);
  }

  function HappenAll(s: System, es: seq<Event>): System {
    if es == [] then s else Happens(HappenAll(s, es[..|es| - 1]), es[|es| - 1])
  }

  ghost predicate AllAllowed(s: System, es: seq<Event>) {
    es == [] || (AllAllowed(s, es[..|es| - 1]) && Allowed(HappenAll(s, es[..|es| - 1]), es[|es| - 1]))
  }

  const BOOT := System(Projection(map[], [], []), Durable([], []), true)

  lemma BootLineages()
    ensures LineageInv(BOOT)
  {
  }

  /** Over every run with calls and deaths in any order, from an empty store. */
  lemma {:induction false} EveryRunKeepsLineages(es: seq<Event>)
    requires AllAllowed(BOOT, es)
    ensures LineageInv(HappenAll(BOOT, es))
  {
    hide LineageInv, Allowed, Happens;
    if es == [] {
      BootLineages();
    } else {
      EveryRunKeepsLineages(es[..|es| - 1]);
      EventKeepsLineages(HappenAll(BOOT, es[..|es| - 1]), es[|es| - 1]);
    }
  }

  /** The reader's form: every lineage of every reachable ledger is one chain with consecutive
      revisions, its last entry the only current one, and links through neighbours. */
  lemma ReachableLineagesAreChains(es: seq<Event>, d: Id)
    requires AllAllowed(BOOT, es)
    ensures var p := HappenAll(BOOT, es).mem; Lineage(p, d) == [] || Chain(Lineage(p, d), d)
  {
    hide Chain, HappenAll, AllAllowed;
    EveryRunKeepsLineages(es);
    var s := HappenAll(BOOT, es);
    assert Lineage(s.mem, d) == RowsOf(s.store.revisions, d) && Chained(s.store.revisions, d);
  }
}
