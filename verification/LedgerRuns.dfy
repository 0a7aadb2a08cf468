/** What every run of the decision ledger keeps whoever calls it: one current revision per
    lineage, a request log without duplicates, and a rebuild that fails closed. */
module LedgerRuns {
  import opened OrderedDict
  import opened CanonicalDecision
  import opened DecisionStore
  import opened DecisionLedger
  import StableSort

  function ExecAll(s: System, steps: seq<Step>): System {
    if steps == [] then s else Exec(ExecAll(s, steps[..|steps| - 1]), steps[|steps| - 1])
  }

  // ---- exactly one current revision, for arbitrary callers --------------------------

  predicate OneCurrent(l: seq<Cad>) {
    forall i | 0 <= i < |l| :: l[i].status == Current <==> i == |l| - 1
  }

  predicate AllOneCurrent(p: Projection) {
    forall d | d in p.lineages :: p.lineages[d] != [] && OneCurrent(p.lineages[d])
  }

  lemma CurrentOfOneCurrent(l: seq<Cad>)
    requires OneCurrent(l)
    ensures CurrentOf(l) == if l == [] then None else Some(l[|l| - 1])
  {
  }

  /** A step keeps "the last entry and only the last is current" exactly when it does not
      append a registered decision that is itself marked superseded. Accept, reject and
      record keep it for any arguments at all. */
  lemma StepKeepsOneCurrent(s: System, step: Step)
    requires AllOneCurrent(s.mem)
    ensures AllOneCurrent(Exec(s, step).mem) <==>
            !(step.Register? && RegisterMem(s.mem, step.cad).Appended? && step.cad.status != Current)
  {
    match step
    case Register(c) =>
      CurrentOfOneCurrent(Lineage(s.mem, c.decisionId));
      if RegisterMem(s.mem, c).Appended? {
        var l := Exec(s, step).mem.lineages[c.decisionId];
        assert l == [c] && l[0] == c;
      }
    case Record(_) =>
    case Reject(_, _) =>
    case Accept(o, n, r) =>
      if Exec(s, step).mem != s.mem {
        var l := Lineage(s.mem, o.decisionId);
        CurrentOfOneCurrent(l);
        var l' := Exec(s, step).mem.lineages[o.decisionId];
        assert l'[..|l|] == ReplaceVersion(l, o.versionId, SupersededBy(o, n.versionId));
        forall i | 0 <= i < |l'| ensures l'[i].status == Current <==> i == |l'| - 1 {
          if i < |l| { assert l'[i] == l'[..|l|][i]; }
        }
      }
  }

  predicate RegistersCurrent(step: Step) { step.Register? ==> step.cad.status == Current }

  /** Over every run by arbitrary callers that register only current decisions. */
  lemma {:induction false} EveryRunHasOneCurrent(s: System, steps: seq<Step>)
    requires AllOneCurrent(s.mem) && forall i | 0 <= i < |steps| :: RegistersCurrent(steps[i])
    ensures AllOneCurrent(ExecAll(s, steps).mem)
  {
    if steps != [] {
      EveryRunHasOneCurrent(s, steps[..|steps| - 1]);
      StepKeepsOneCurrent(ExecAll(s, steps[..|steps| - 1]), steps[|steps| - 1]);
    }
  }

  // ---- request log uniqueness, for arbitrary callers ----------------------------------

  predicate Clash(a: Request, b: Request) {
    && a.status == Pending && b.status == Pending
    && a.decisionId == b.decisionId && a.currentRevision == b.currentRevision && a.reasonCode == b.reasonCode
  }

  /** Request ids are distinct and no two pending requests ask the same thing. */
  predicate UniqueLog(rs: seq<Request>) {
    forall i, j | 0 <= i < j < |rs| :: rs[i].requestId != rs[j].requestId && !Clash(rs[i], rs[j])
  }

  lemma StepKeepsUniqueLog(s: System, step: Step)
    requires UniqueLog(s.mem.requests)
    ensures UniqueLog(Exec(s, step).mem.requests)
  {
    if step.Record? {
      var rs := s.mem.requests;
      forall i | 0 <= i < |rs| && RecordStatusOf(s.mem, step.request) != DuplicateRevisionRequest
        ensures rs[i].requestId != step.request.requestId && !Clash(rs[i], Recorded(s.mem, step.request))
      {
        assert rs[i] in rs && !Duplicates(rs[i], step.request);
      }
    }
  }

  lemma {:induction false} EveryRunHasUniqueLog(s: System, steps: seq<Step>)
    requires UniqueLog(s.mem.requests)
    ensures UniqueLog(ExecAll(s, steps).mem.requests)
  {
    if steps != [] {
      EveryRunHasUniqueLog(s, steps[..|steps| - 1]);
      StepKeepsUniqueLog(ExecAll(s, steps[..|steps| - 1]), steps[|steps| - 1]);
    }
  }

  // ---- rebuild fails closed, on an arbitrary store --------------------------------------

  lemma {:induction false} CountCurrentInsert(c: Cad, l: seq<Cad>, key: Cad -> int)
    ensures CountCurrent(StableSort.InsertBy(c, l, key)) == CountCurrent([c] + l)
  {
    if l == [] || key(c) <= key(l[0]) {
    } else {
      CountCurrentInsert(c, l[1..], key);
      var r := StableSort.InsertBy(c, l[1..], key);
      assert ([l[0]] + r)[1..] == r && ([c] + l)[1..] == l && ([c] + l[1..])[1..] == l[1..];
    }
  }

  lemma {:induction false} CountCurrentSort(l: seq<Cad>, key: Cad -> int)
    ensures CountCurrent(StableSort.SortBy(l, key)) == CountCurrent(l)
  {
    if l != [] {
      CountCurrentSort(l[1..], key);
      var r := StableSort.SortBy(l[1..], key);
      CountCurrentInsert(l[0], r, key);
      assert ([l[0]] + r)[1..] == r;
    }
  }

  /** One entry and no other is marked current. */
  ghost predicate ExactlyOneCurrent(l: seq<Cad>) { exists i :: OnlyCurrent(l, i) }

  lemma {:induction false} CountZero(l: seq<Cad>)
    ensures CountCurrent(l) == 0 <==> forall i | 0 <= i < |l| :: l[i].status != Current
  {
    if l != [] {
      CountZero(l[1..]);
      assert forall i | 0 < i < |l| :: l[i] == l[1..][i - 1];
    }
  }

  /** Entry `i` is the only current one. */
  predicate OnlyCurrent(l: seq<Cad>, i: int) {
    0 <= i < |l| && forall j | 0 <= j < |l| :: l[j].status == Current <==> j == i
  }

  lemma {:induction false} CountedOne(l: seq<Cad>) returns (i: int)
    requires CountCurrent(l) == 1
    ensures OnlyCurrent(l, i)
  {
    if l[0].status == Current {
      i := 0;
      CountZero(l[1..]);
    } else {
      i := CountedOne(l[1..]);
      i := i + 1;
    }
    assert forall j | 0 < j < |l| :: l[j] == l[1..][j - 1];
  }

  lemma {:induction false} CountOnly(l: seq<Cad>, i: int)
    requires OnlyCurrent(l, i)
    ensures CountCurrent(l) == 1
  {
    assert forall j | 0 < j < |l| :: l[j] == l[1..][j - 1];
    if i == 0 { CountZero(l[1..]); } else { CountOnly(l[1..], i - 1); }
  }

  lemma CountOneIff(l: seq<Cad>)
    ensures CountCurrent(l) == 1 <==> ExactlyOneCurrent(l)
  {
    hide CountCurrent;
    if CountCurrent(l) == 1 { var i := CountedOne(l); }
    if i :| OnlyCurrent(l, i) { CountOnly(l, i); }
  }

  ghost predicate Violates(s: Durable, d: Id) {
    RowsOf(s.revisions, d) != [] && !ExactlyOneCurrent(RowsOf(s.revisions, d))
  }

  lemma RebuildChecks(s: Durable, d: Id)
    ensures var l := OrderedRevisions(s, d);
            (l != [] && CountCurrent(l) != 1) <==> Violates(s, d)
  {
    var key := (c: Cad) => c.revision;
    var rows := RowsOf(s.revisions, d);
    StableSort.SortBySorts(rows, key);
    StableSort.SortBySorts(FetchRevisions(s, d), key);
    CountCurrentSort(rows, key);
    CountCurrentSort(FetchRevisions(s, d), key);
    CountOneIff(rows);
  }

  lemma {:induction false} RebuildErrIff(s: Durable, ids: seq<Id>)
    ensures RebuildFrom(s, ids).Err? <==> exists d :: d in ids && Violates(s, d)
  {
    if ids != [] {
      var n := |ids| - 1;
      RebuildErrIff(s, ids[..n]);
      RebuildChecks(s, ids[n]);
      assert ids == ids[..n] + [ids[n]];
    }
  }

  /** Rebuild raises exactly when some stored lineage does not have exactly one current
      row, whichever order the lineages are listed in. */
  lemma RebuildRaisesIff(s: Durable, ids: seq<Id>)
    requires ListsLineages(ids, s)
    ensures RebuildFrom(s, ids).Err? <==> exists d :: d != "" && Violates(s, d)
  {
    RebuildErrIff(s, ids);
    if RebuildFrom(s, ids).Err? {
      var d :| d in ids && Violates(s, d);
      assert d != "" && Violates(s, d);
    }
    if d :| d != "" && Violates(s, d) { assert d in ids; }
  }

  // ---- chains ------------------------------------------------------------------------------

  lemma ChainHasCurrent(l: seq<Cad>, d: Id)
    requires Chain(l, d)
    ensures CurrentOf(l) == Some(l[|l| - 1]) && CountCurrent(l) == 1
  {
    CurrentOfOneCurrent(l);
    CountOne(l);
  }

  lemma {:induction false} CountOne(l: seq<Cad>)
    requires OneCurrent(l) && l != []
    ensures CountCurrent(l) == 1
  {
    if |l| > 1 {
      assert forall i | 0 <= i < |l[1..]| :: l[1..][i] == l[i + 1];
      CountOne(l[1..]);
    }
  }

  /** Registered and proposed decisions have the shape the canonical boundary gives them. */
  predicate OffersCanonical(step: Step) {
    match step
    case Register(c) => Fresh(c)
    case Accept(_, n, _) => Fresh(n)
    case _ => true
  }

  /** Replacing the version of the last entry of a chain replaces that entry. */
  lemma ReplacedShape(l: seq<Cad>, d: Id, c: Cad)
    requires Chain(l, d)
    ensures ReplaceVersion(l, l[|l| - 1].versionId, c) == l[|l| - 1 := c]
  {
    forall i | 0 <= i < |l| && l[i].versionId == l[|l| - 1].versionId ensures i == |l| - 1 {
      ChainVersionsDistinct(l, d, i, |l| - 1);
    }
  }
}
