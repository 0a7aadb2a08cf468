/** The ledger without a store, which is the default one of the process: its lineages over
    every run, and what a caller must hand back for that. */
module LedgerInMemory {
  import opened OrderedDict
  import opened CanonicalDecision
  import opened DecisionStore
  import opened DecisionLedger
  import opened LedgerRuns

  /** Every lineage is one chain. */
  ghost predicate AllChains(p: Projection) {
    forall d | d in p.lineages :: Chain(p.lineages[d], d)
  }

  /** The decision handed in has the revision and the back link of the current one; every other
      field may differ. */
  predicate LinksAgree(p: Projection, o: Cad) {
    var cur := CurrentOf(Lineage(p, o.decisionId));
    cur.Some? && o.revision == cur.value.revision && o.supersedes == cur.value.supersedes
  }

  /** The lineage after an accept of `o` in place of the last entry. */
  function Replaced(l: seq<Cad>, o: Cad, n: Cad): seq<Cad>
    requires l != []
  {
    l[|l| - 1 := SupersededBy(o, n.versionId)] + [Succeeding(n, o.versionId)]
  }

  lemma AcceptReplacesLast(l: seq<Cad>, d: Id, o: Cad, n: Cad)
    requires Chain(l, d) && l[|l| - 1].versionId == o.versionId
    ensures ReplaceVersion(l, o.versionId, SupersededBy(o, n.versionId)) + [Succeeding(n, o.versionId)] == Replaced(l, o, n)
  {
    hide Chain;
    ReplacedShape(l, d, SupersededBy(o, n.versionId));
  }

  lemma ReplacedChains(l: seq<Cad>, d: Id, o: Cad, n: Cad)
    requires Chain(l, d) && o.decisionId == d && o.versionId == l[|l| - 1].versionId
    requires Fresh(n) && n.decisionId == d && n.revision == o.revision + 1
    requires o.revision == l[|l| - 1].revision && o.supersedes == l[|l| - 1].supersedes
    ensures Chain(Replaced(l, o, n), d)
  {
    var l' := Replaced(l, o, n);
    var k := |l| - 1;
    forall i, j | 0 <= i < |l'| && j == i + 1 < |l'|
      ensures l'[j].supersedes == l'[i].versionId && l'[i].supersededBy == l'[j].versionId
    {
      if i < k { assert l[j].supersedes == l[i].versionId && l[i].supersededBy == l[j].versionId; }
    }
  }

  lemma ReplacedNeedsLinks(l: seq<Cad>, d: Id, o: Cad, n: Cad)
    requires Chain(l, d) && o.versionId == l[|l| - 1].versionId && n.revision == o.revision + 1 && Chain(Replaced(l, o, n), d)
    ensures o.revision == l[|l| - 1].revision && o.supersedes == l[|l| - 1].supersedes
  {
    var l' := Replaced(l, o, n);
    var k := |l| - 1;
    assert l'[k] == SupersededBy(o, n.versionId) && l'[k].revision == l'[0].revision + k;
    assert l'[k + 1].revision == l'[0].revision + k + 1;
    if k > 0 {
      assert l'[0] == l[0] && l[k].revision == l[0].revision + k;
      assert l'[k].supersedes == l'[k - 1].versionId && l[k].supersedes == l[k - 1].versionId && l'[k - 1].versionId == l[k - 1].versionId;
    } else {
      VersionIdInjective(d, l[0].revision, d, l'[0].revision);
    }
  }

  /** An accept that is not refused sees the last entry of a chain. */
  lemma AcceptedSeesLast(p: Projection, o: Cad, n: Cad)
    requires AllChains(p) && AcceptRefusal(p, o, n) == ""
    ensures var l := Lineage(p, o.decisionId);
            && o.decisionId in p.lineages && Chain(l, o.decisionId)
            && CurrentOf(l) == Some(l[|l| - 1]) && l[|l| - 1].versionId == o.versionId
  {
    hide Chain;
    ChainHasCurrent(Lineage(p, o.decisionId), o.decisionId);
  }

  lemma AcceptKeepsChainsIff(p: Projection, o: Cad, n: Cad, r: Request)
    requires AllChains(p) && Fresh(n) && AcceptRefusal(p, o, n) == ""
    ensures AllChains(AcceptMem(p, o, n, r)) <==> LinksAgree(p, o)
  {
    hide Chain, Fresh;
    AcceptedSeesLast(p, o, n);
    var d := o.decisionId;
    var l := Lineage(p, d);
    AcceptReplacesLast(l, d, o, n);
    var q := AcceptMem(p, o, n, r);
    assert q.lineages[d] == Replaced(l, o, n);
    if LinksAgree(p, o) {
      ReplacedChains(l, d, o, n);
    } else if Chain(Replaced(l, o, n), d) {
      ReplacedNeedsLinks(l, d, o, n);
    }
  }

  lemma RegisterKeepsChains(p: Projection, c: Cad)
    requires AllChains(p) && Fresh(c) && RegisterMem(p, c).Appended?
    ensures AllChains(RegisterMem(p, c).mem)
  {
    hide Chain;
    var l := Lineage(p, c.decisionId);
    if c.decisionId in p.lineages { ChainHasCurrent(l, c.decisionId); }
    assert l + [c] == [c];
    SingleChain(c);
  }

  /** A call with canonical arguments keeps every lineage one chain exactly when it is not an
      accept that goes through with another revision or back link than the current decision's. */
  lemma StepKeepsChainsIff(s: System, step: Step)
    requires !s.backed && AllChains(s.mem) && OffersCanonical(step)
    ensures AllChains(Exec(s, step).mem) <==>
            !(step.Accept? && AcceptRefusal(s.mem, step.old_, step.new_) == "" && !LinksAgree(s.mem, step.old_))
  {
    hide Chain, Fresh, LinksAgree, AcceptRefusal;
    match step
    case Register(c) => if RegisterMem(s.mem, c).Appended? { RegisterKeepsChains(s.mem, c); }
    case Record(_) =>
    case Accept(o, n, r) => if AcceptRefusal(s.mem, o, n) == "" { AcceptKeepsChainsIff(s.mem, o, n, r); }
    case Reject(_, _) =>
  }

  // ---- every run ----------------------------------------------------------------------------

  /** Canonical arguments, and the current decision handed back as far as its links go. */
  predicate Careful(p: Projection, step: Step) {
    OffersCanonical(step) && (step.Accept? && IsCurrent(p, step.old_) ==> LinksAgree(p, step.old_))
  }

  ghost predicate AllCareful(s: System, steps: seq<Step>) {
    steps == [] || (AllCareful(s, steps[..|steps| - 1]) && Careful(ExecAll(s, steps[..|steps| - 1]).mem, steps[|steps| - 1]))
  }

  const FRESH_LEDGER := System(Projection(map[], [], []), Durable([], []), false)

  lemma {:induction false} EveryRunKeepsChains(s: System, steps: seq<Step>)
    requires !s.backed && AllChains(s.mem) && AllCareful(s, steps)
    ensures !ExecAll(s, steps).backed && AllChains(ExecAll(s, steps).mem)
  {
    hide AllChains, LinksAgree, OffersCanonical;
    if steps != [] {
      EveryRunKeepsChains(s, steps[..|steps| - 1]);
      StepKeepsChainsIff(ExecAll(s, steps[..|steps| - 1]), steps[|steps| - 1]);
    }
  }

  /** The reader's form: in every reachable ledger of a process without a store each lineage is one
      chain and the request log is unique. */
  lemma ReachableInMemoryLedgersAreWellFormed(steps: seq<Step>, d: Id)
    requires AllCareful(FRESH_LEDGER, steps)
    ensures var p := ExecAll(FRESH_LEDGER, steps).mem;
            && (Lineage(p, d) == [] || Chain(Lineage(p, d), d))
            && UniqueLog(p.requests)
  {
    hide Chain, ExecAll;
    EveryRunKeepsChains(FRESH_LEDGER, steps);
    EveryRunHasUniqueLog(FRESH_LEDGER, steps);
  }

  // ---- no fork -------------------------------------------------------------------------------

  predicate AcceptsVersion(p: Projection, step: Step, v: Id) {
    step.Accept? && step.old_.versionId == v && AcceptRefusal(p, step.old_, step.new_) == ""
  }

  /** How many accepts that hold version `v` as current go through along a run. */
  function AcceptedFrom(s: System, steps: seq<Step>, v: Id): nat {
    if steps == [] then 0
    else
      var n := |steps| - 1;
      AcceptedFrom(s, steps[..n], v) + if AcceptsVersion(ExecAll(s, steps[..n]).mem, steps[n], v) then 1 else 0
  }

  predicate Inside(l: seq<Cad>, v: Id) { exists i | 0 <= i < |l| - 1 :: l[i].versionId == v }

  /** Version `v` has been succeeded in the lineage of `d`. */
  predicate Succeeded(p: Projection, d: Id, v: Id) { Inside(Lineage(p, d), v) }

  lemma ReplacedKeepsInside(l: seq<Cad>, o: Cad, n: Cad, v: Id)
    requires l != [] && (Inside(l, v) || o.versionId == v)
    ensures Inside(Replaced(l, o, n), v)
  {
    var l' := Replaced(l, o, n);
    if Inside(l, v) {
      var i :| 0 <= i < |l| - 1 && l[i].versionId == v;
      assert l'[i].versionId == v;
    } else {
      assert l'[|l| - 1].versionId == v;
    }
  }

  /** A succeeded version is nowhere current. */
  lemma SucceededNotCurrent(p: Projection, d: Id, o: Cad, n: Cad)
    requires AllChains(p) && Succeeded(p, d, o.versionId)
    ensures AcceptRefusal(p, o, n) != ""
  {
    if AcceptRefusal(p, o, n) == "" {
      AcceptedSeesLast(p, o, n);
      var l, m := Lineage(p, d), Lineage(p, o.decisionId);
      var i :| 0 <= i < |l| - 1 && l[i].versionId == o.versionId;
      VersionIdInjective(d, l[i].revision, o.decisionId, m[|m| - 1].revision);
    }
  }

  lemma AcceptSucceeds(p: Projection, o: Cad, n: Cad, r: Request, d: Id, v: Id)
    requires AllChains(p) && AcceptRefusal(p, o, n) == ""
    requires Succeeded(p, d, v) || (d == o.decisionId && v == o.versionId)
    ensures Succeeded(AcceptMem(p, o, n, r), d, v)
  {
    hide Chain, Inside;
    AcceptedSeesLast(p, o, n);
    var l := Lineage(p, o.decisionId);
    AcceptReplacesLast(l, o.decisionId, o, n);
    if d == o.decisionId { ReplacedKeepsInside(l, o, n, v); } else { assert Lineage(AcceptMem(p, o, n, r), d) == Lineage(p, d); }
  }

  lemma AcceptSucceedsHere(s: System, step: Step, v: Id)
    requires !s.backed && AllChains(s.mem) && AcceptsVersion(s.mem, step, v)
    ensures Succeeded(Exec(s, step).mem, step.old_.decisionId, v)
  {
    hide AllChains, Succeeded, AcceptRefusal;
    AcceptSucceeds(s.mem, step.old_, step.new_, step.request, step.old_.decisionId, v);
  }

  lemma RegisterKeepsSucceeded(p: Projection, c: Cad, d: Id, v: Id)
    requires AllChains(p) && Succeeded(p, d, v) && RegisterMem(p, c).Appended?
    ensures Succeeded(RegisterMem(p, c).mem, d, v)
  {
    hide Chain, Inside;
    if c.decisionId == d && d in p.lineages { ChainHasCurrent(Lineage(p, d), d); }
    assert d !in p.lineages ==> !Inside(Lineage(p, d), v) by { NothingInside(v); }
    assert c.decisionId != d ==> Lineage(RegisterMem(p, c).mem, d) == Lineage(p, d);
  }

  lemma NothingInside(v: Id)
    ensures !Inside([], v)
  {
  }

  lemma StepKeepsSucceeded(s: System, step: Step, d: Id, v: Id)
    requires !s.backed && AllChains(s.mem) && Succeeded(s.mem, d, v)
    ensures Succeeded(Exec(s, step).mem, d, v)
  {
    hide AllChains, Inside, AcceptRefusal, RecordStatusOf;
    match step
    case Register(c) => if RegisterMem(s.mem, c).Appended? { RegisterKeepsSucceeded(s.mem, c, d, v); }
    case Record(_) => assert Lineage(Exec(s, step).mem, d) == Lineage(s.mem, d);
    case Accept(o, n, r) => if AcceptRefusal(s.mem, o, n) == "" { AcceptSucceeds(s.mem, o, n, r, d, v); }
    case Reject(_, _) => assert Lineage(Exec(s, step).mem, d) == Lineage(s.mem, d);
  }

  /** No fork: along every careful run at most one accept from a given version goes through, and
      once one has, the version is succeeded for good. */
  lemma {:induction false} AtMostOneSuccessorInMemory(s: System, steps: seq<Step>, v: Id)
    requires !s.backed && AllChains(s.mem) && AllCareful(s, steps)
    ensures AcceptedFrom(s, steps, v) <= 1
    ensures AcceptedFrom(s, steps, v) == 1 ==> exists d :: Succeeded(ExecAll(s, steps).mem, d, v)
  {
    hide AllChains, Succeeded, Careful, AcceptRefusal, Exec;
    if steps != [] {
      var n := |steps| - 1;
      var before, step := ExecAll(s, steps[..n]), steps[n];
      AtMostOneSuccessorInMemory(s, steps[..n], v);
      EveryRunKeepsChains(s, steps[..n]);
      if d :| Succeeded(before.mem, d, v) {
        StepKeepsSucceeded(before, step, d, v);
        assert Succeeded(ExecAll(s, steps).mem, d, v);
        if step.Accept? && step.old_.versionId == v { SucceededNotCurrent(before.mem, d, step.old_, step.new_); }
      } else if AcceptsVersion(before.mem, step, v) {
        AcceptSucceedsHere(before, step, v);
        assert Succeeded(ExecAll(s, steps).mem, step.old_.decisionId, v);
      }
    }
  }
}
