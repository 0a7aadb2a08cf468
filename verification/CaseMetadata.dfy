/** One case row carries the send states of all its decision keys and the degradation
    counter of its intelligence stage; both live in `metadata` and change through the
    same atomic mutation. */
module CaseMetadata {
  import opened OrderedDict
  import opened HitlSend

  datatype Degradation = Degradation(degraded: bool, attempts: int, terminal: bool, lastReason: string, lastSignal: string)

  const CLEAN := Degradation(false, 0, false, "", "")

  datatype CaseRow = CaseRow(sends: map<string, SendState>, degradation: Option<Degradation>)

  const NEW_ROW := CaseRow(map[], None)

  type Cases = map<string, CaseRow>

  /** A send mutator maps the stored state to the next one, or raises. */
  datatype Mutation =
    | Send(caseId: string, key: string, mutate: SendState -> Option<SendState>)
    | Record(caseId: string, signalId: string, reason: string, maxAttempts: int)
    | Clear(caseId: string)

  function SendOf(row: CaseRow, key: string): SendState {
    if key in row.sends then row.sends[key] else ABSENT
  }

  function DegradationOf(cases: Cases, caseId: string): Degradation {
    if caseId in cases && cases[caseId].degradation.Some? then cases[caseId].degradation.value else CLEAN
  }

  function Limit(maxAttempts: int): int { if maxAttempts < 1 then 1 else maxAttempts }

  function Prefix(s: string, n: nat): string { if |s| <= n then s else s[..n] }

  function Recorded(d: Degradation, signalId: string, reason: string, maxAttempts: int): Degradation {
    var n := d.attempts + 1;
    Degradation(true, n, d.terminal || n >= Limit(maxAttempts), Prefix(reason, 500), signalId)
  }

  /** The cases after a mutation; a mutation that raises changes nothing. */
  function Apply(cases: Cases, m: Mutation): Cases {
    match m
    case Send(c, k, f) =>
      if c !in cases then cases
      else
        var next := f(SendOf(cases[c], k));
        if next.None? then cases else cases[c := cases[c].(sends := cases[c].sends[k := next.value])]
    case Record(c, sig, reason, max) =>
      if c == "" then cases
      else
        var row := if c in cases then cases[c] else NEW_ROW;
        cases[c := row.(degradation := Some(Recorded(DegradationOf(cases, c), sig, reason, max)))]
    case Clear(c) =>
      if c == "" || c !in cases then cases else cases[c := cases[c].(degradation := None)]
  }

  class CaseStore {
    var cases: Cases

    constructor ()
      ensures cases == map[]
    {
      cases := map[];
    }

    /** `_mutate_hitl_state`: raises on a missing case and when the mutator raises. */
    method MutateSend(caseId: string, key: string, mutate: SendState -> Option<SendState>) returns (r: Option<SendState>)
      modifies this
      ensures cases == Apply(old(cases), Send(caseId, key, mutate))
      ensures r == if caseId in old(cases) then mutate(SendOf(old(cases)[caseId], key)) else None
      ensures r.Some? ==> caseId in cases && SendOf(cases[caseId], key) == r.value
    {
      if caseId !in cases { return None; }
      var row := cases[caseId];
      var next := mutate(SendOf(row, key));
      if next.None? { return None; }
      row := row.(sends := row.sends[key := next.value]);
      cases := cases[caseId := row];
      return next;
    }

    method RecordDegradation(caseId: string, signalId: string, reason: string, maxAttempts: int) returns (d: Degradation)
      modifies this
      ensures cases == Apply(old(cases), Record(caseId, signalId, reason, maxAttempts))
      ensures caseId != "" ==> d == DegradationOf(cases, caseId)
      ensures caseId == "" ==> d == CLEAN
    {
      if caseId == "" { return CLEAN; }
      var row := if caseId in cases then cases[caseId] else NEW_ROW;
      d := if row.degradation.Some? then row.degradation.value else CLEAN;
      var attempts := d.attempts + 1;
      d := d.(degraded := true, attempts := attempts);
      if attempts >= Limit(maxAttempts) { d := d.(terminal := true); }
      d := d.(lastReason := Prefix(reason, 500), lastSignal := signalId);
      cases := cases[caseId := row.(degradation := Some(d))];
    }

    method ClearDegradation(caseId: string)
      modifies this
      ensures cases == Apply(old(cases), Clear(caseId))
    {
      if caseId == "" || caseId !in cases { return; }
      if cases[caseId].degradation.Some? {
        cases := cases[caseId := cases[caseId].(degradation := None)];
      }
    }
  }

  // ---- frames ------------------------------------------------------------------------

  /** Sends under different keys of one case commute, whatever their mutators do. */
  lemma DifferentKeysCommute(cases: Cases, c: string, k: string, f: SendState -> Option<SendState>,
                             j: string, g: SendState -> Option<SendState>)
    requires k != j
    ensures Apply(Apply(cases, Send(c, k, f)), Send(c, j, g)) == Apply(Apply(cases, Send(c, j, g)), Send(c, k, f))
  {
    if c in cases {
      var row := cases[c];
      var x, y := f(SendOf(row, k)), g(SendOf(row, j));
      if x.Some? && y.Some? {
        assert row.sends[k := x.value][j := y.value] == row.sends[j := y.value][k := x.value];
      }
      var a, b := Apply(cases, Send(c, k, f)), Apply(cases, Send(c, j, g));
      assert SendOf(a[c], j) == SendOf(row, j) && SendOf(b[c], k) == SendOf(row, k);
      assert Apply(a, Send(c, j, g))[c] == Apply(b, Send(c, k, f))[c];
    }
  }

  function RowOf(cases: Cases, c: string): Option<CaseRow> { if c in cases then Some(cases[c]) else None }

  /** A mutation touches only its own case, and what it does there depends only on that row. */
  lemma MutationIsLocal(cases: Cases, cases': Cases, m: Mutation, c: string)
    ensures c != m.caseId ==> RowOf(Apply(cases, m), c) == RowOf(cases, c)
    ensures RowOf(cases, m.caseId) == RowOf(cases', m.caseId) ==> RowOf(Apply(cases, m), m.caseId) == RowOf(Apply(cases', m), m.caseId)
  {
  }

  /** Mutations of different cases commute. */
  lemma DifferentCasesCommute(cases: Cases, m: Mutation, n: Mutation)
    requires m.caseId != n.caseId
    ensures Apply(Apply(cases, m), n) == Apply(Apply(cases, n), m)
  {
    hide Apply;
    var a, b := Apply(cases, m), Apply(cases, n);
    var x, y := Apply(a, n), Apply(b, m);
    forall c ensures RowOf(x, c) == RowOf(y, c) {
      MutationIsLocal(cases, b, m, c);
      MutationIsLocal(cases, a, n, c);
      MutationIsLocal(a, cases, n, c);
      MutationIsLocal(b, cases, m, c);
      MutationIsLocal(cases, cases, m, n.caseId);
      MutationIsLocal(cases, cases, n, m.caseId);
    }
    assert forall c :: (c in x <==> RowOf(x, c).Some?) && (c in y <==> RowOf(y, c).Some?);
    assert forall c | c in x :: RowOf(x, c) == Some(x[c]) && RowOf(y, c) == Some(y[c]);
    assert x == y;
  }

  /** Clearing the counter commutes with every send mutation of the same case. */
  lemma SendCommutesWithClear(cases: Cases, c: string, k: string, f: SendState -> Option<SendState>)
    ensures Apply(Apply(cases, Send(c, k, f)), Clear(c)) == Apply(Apply(cases, Clear(c)), Send(c, k, f))
  {
    if c in cases {
      var a, b := Apply(cases, Send(c, k, f)), Apply(cases, Clear(c));
      assert SendOf(b[c], k) == SendOf(cases[c], k);
      assert Apply(a, Clear(c))[c] == Apply(b, Send(c, k, f))[c];
    }
  }

  /** Recording creates a missing row and a send mutation does not, so the two commute exactly
      when the row exists or the send would do nothing on a new row. */
  lemma SendCommutesWithRecordIff(cases: Cases, c: string, k: string, f: SendState -> Option<SendState>,
                                  sig: string, reason: string, max: int)
    requires c != ""
    ensures Apply(Apply(cases, Send(c, k, f)), Record(c, sig, reason, max)) == Apply(Apply(cases, Record(c, sig, reason, max)), Send(c, k, f))
       <==> c in cases || f(ABSENT).None?
  {
    var a, b := Apply(cases, Send(c, k, f)), Apply(cases, Record(c, sig, reason, max));
    var x, y := Apply(a, Record(c, sig, reason, max)), Apply(b, Send(c, k, f));
    if c in cases {
      assert SendOf(b[c], k) == SendOf(cases[c], k);
      assert x[c] == y[c];
    } else {
      assert SendOf(b[c], k) == ABSENT;
      if f(ABSENT).Some? { assert k !in x[c].sends && k in y[c].sends; }
    }
  }

  // ---- the counter over whole runs ---------------------------------------------------------

  function ApplyAll(cases: Cases, ms: seq<Mutation>): Cases {
    if ms == [] then cases else Apply(ApplyAll(cases, ms[..|ms| - 1]), ms[|ms| - 1])
  }

  /** Failures recorded for `c` since its counter was last cleared. */
  function RecordsSinceClear(ms: seq<Mutation>, c: string): nat {
    if ms == [] then 0
    else
      var m := ms[|ms| - 1];
      if m.caseId != c || m.Send? then RecordsSinceClear(ms[..|ms| - 1], c)
      else if m.Clear? then 0
      else 1 + RecordsSinceClear(ms[..|ms| - 1], c)
  }

  /** With a fixed limit the stored counter is the number of failures since the last clear, and the
      case is terminal exactly when that number reaches the limit, whatever else is mutated. */
  lemma {:induction false} CounterCountsRecords(cases: Cases, ms: seq<Mutation>, c: string, max: int)
    requires c != "" && DegradationOf(cases, c) == CLEAN
    requires forall i | 0 <= i < |ms| && ms[i].Record? && ms[i].caseId == c :: ms[i].maxAttempts == max
    ensures DegradationOf(ApplyAll(cases, ms), c).attempts == RecordsSinceClear(ms, c)
    ensures DegradationOf(ApplyAll(cases, ms), c).terminal <==> RecordsSinceClear(ms, c) >= Limit(max)
    ensures DegradationOf(ApplyAll(cases, ms), c).degraded <==> RecordsSinceClear(ms, c) > 0
  {
    if ms != [] { CounterCountsRecords(cases, ms[..|ms| - 1], c, max); }
  }

  /** The last failure recorded for `c` since its counter was last cleared. */
  function LastRecord(ms: seq<Mutation>, c: string): Option<Mutation> {
    if ms == [] then None
    else
      var m := ms[|ms| - 1];
      if m.caseId != c || m.Send? then LastRecord(ms[..|ms| - 1], c) else if m.Clear? then None else Some(m)
  }

  /** Some failure since the last clear reached the limit it came with. */
  predicate ReachedLimit(ms: seq<Mutation>, c: string) {
    ms != [] &&
    (var m := ms[|ms| - 1];
     if m.caseId != c || m.Send? then ReachedLimit(ms[..|ms| - 1], c)
     else if m.Clear? then false
     else ReachedLimit(ms[..|ms| - 1], c) || RecordsSinceClear(ms, c) >= (if m.maxAttempts < 1 then 1 else m.maxAttempts))
  }

  /** The whole counter after any mutations, with any limits: it counts, stays terminal once a limit was
      reached, and keeps the last signal and the first 500 characters of the last reason. */
  lemma {:induction false} CounterIs(cases: Cases, ms: seq<Mutation>, c: string)
    requires c != "" && DegradationOf(cases, c) == CLEAN
    ensures var d := DegradationOf(ApplyAll(cases, ms), c); var last := LastRecord(ms, c);
            && d.attempts == RecordsSinceClear(ms, c) && (d.degraded <==> last.Some?) && (d.terminal <==> ReachedLimit(ms, c))
            && (last.Some? ==> last.value.Record? && d.lastSignal == last.value.signalId
                               && d.lastReason == if |last.value.reason| <= 500 then last.value.reason else last.value.reason[..500])
            && (last.None? ==> d == CLEAN)
  {
    if ms != [] { CounterIs(cases, ms[..|ms| - 1], c); }
  }

  /** Without a case id nothing is recorded or cleared. */
  lemma BlankCaseIgnored(cases: Cases, sig: string, reason: string, max: int)
    ensures Apply(cases, Record("", sig, reason, max)) == cases && Apply(cases, Clear("")) == cases
  {
  }
}
