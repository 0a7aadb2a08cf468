/** The sequential ingress batch: per message up to `maxAttempts` child runs, an
    append-only index of attempts, failed-item records, and the resume checkpoint. */
module BatchRunner {
  import opened OrderedDict

  /** One child run: whether a rate limit was detected, and the status of its parsed summary. */
  datatype Outcome = Outcome(rateLimited: bool, summary: Option<string>)

  datatype IndexRow = IndexRow(messageId: string, attempt: int, rateLimited: bool, isFinal: bool, status: string)

  datatype FailedRecord = FailedRecord(messageId: string, status: string, terminalAttempt: int)

  /** What the child process does when message number `i` is tried for the `a`-th time. */
  type Child = (nat, nat) -> Outcome

  predicate Succeeded(status: string) { status == "completed" || status == "completed_with_errors" }

  function FinalStatus(o: Outcome, attempt: int, maxAttempts: int): string {
    if o.rateLimited && attempt >= maxAttempts then "rate_limit_exhausted"
    else if o.summary.Some? then (if o.summary.value == "" then "completed" else o.summary.value)
    else "failed"
  }

  predicate OkSummary(o: Outcome) { o.summary.Some? && Succeeded(o.summary.value) }

  // ---- the closed form of the log --------------------------------------------------------

  /** The first attempt from `a` on that is not rate limited, or the last one allowed. */
  function TerminalFrom(child: Child, i: nat, maxAttempts: nat, a: nat): (k: nat)
    requires a <= maxAttempts
    ensures a <= k <= maxAttempts
    decreases maxAttempts - a
  {
    if a == maxAttempts || !child(i, a).rateLimited then a else TerminalFrom(child, i, maxAttempts, a + 1)
  }

  function Terminal(child: Child, i: nat, maxAttempts: nat): nat
    requires maxAttempts >= 1
  {
    TerminalFrom(child, i, maxAttempts, 1)
  }

  function RetryRow(mid: string, a: int): IndexRow { IndexRow(mid, a, true, false, "retry") }

  function Retries(mid: string, n: nat): seq<IndexRow> { seq(n, j => RetryRow(mid, j + 1)) }

  function FinalRow(mid: string, o: Outcome, a: int, maxAttempts: int): IndexRow {
    IndexRow(mid, a, o.rateLimited, true, FinalStatus(o, a, maxAttempts))
  }

  /** Retries 1..k-1 and the final row k. */
  function RowsFor(mid: string, child: Child, i: nat, maxAttempts: nat): seq<IndexRow>
    requires maxAttempts >= 1
  {
    var k := Terminal(child, i, maxAttempts);
    Retries(mid, k - 1) + [FinalRow(mid, child(i, k), k, maxAttempts)]
  }

  function AllRows(ids: seq<string>, child: Child, maxAttempts: nat): seq<IndexRow>
    requires maxAttempts >= 1
  {
    if ids == [] then []
    else AllRows(ids[..|ids| - 1], child, maxAttempts) + RowsFor(ids[|ids| - 1], child, |ids| - 1, maxAttempts)
  }

  function CountRateLimited(rows: seq<IndexRow>): nat {
    if rows == [] then 0 else CountRateLimited(rows[..|rows| - 1]) + if rows[|rows| - 1].rateLimited then 1 else 0
  }

  function Without(rs: seq<FailedRecord>, mid: string): seq<FailedRecord> {
    if rs == [] then []
    else if rs[|rs| - 1].messageId == mid then Without(rs[..|rs| - 1], mid)
    else Without(rs[..|rs| - 1], mid) + [rs[|rs| - 1]]
  }

  function Settle(rs: seq<FailedRecord>, mid: string, o: Outcome, a: int, maxAttempts: int): seq<FailedRecord> {
    if OkSummary(o) then Without(rs, mid) else Without(rs, mid) + [FailedRecord(mid, FinalStatus(o, a, maxAttempts), a)]
  }

  function TerminalOutcome(child: Child, i: nat, maxAttempts: nat): Outcome
    requires maxAttempts >= 1
  {
    child(i, Terminal(child, i, maxAttempts))
  }

  function AllFailed(failed: seq<FailedRecord>, ids: seq<string>, child: Child, maxAttempts: nat): seq<FailedRecord>
    requires maxAttempts >= 1
  {
    if ids == [] then failed
    else
      var i := |ids| - 1;
      Settle(AllFailed(failed, ids[..i], child, maxAttempts), ids[i], TerminalOutcome(child, i, maxAttempts),
             Terminal(child, i, maxAttempts), maxAttempts)
  }

  // ---- the loop ------------------------------------------------------------------------------

  function MaxAttempts(maxRetries: int): nat { if maxRetries + 1 < 1 then 1 else maxRetries + 1 }

  method RunBatch(ids: seq<string>, maxRetries: int, child: Child, failed0: seq<FailedRecord>, index0: seq<IndexRow>)
    returns (index: seq<IndexRow>, failed: seq<FailedRecord>, rateLimits: nat)
    ensures index == index0 + AllRows(ids, child, MaxAttempts(maxRetries))
    ensures failed == AllFailed(failed0, ids, child, MaxAttempts(maxRetries))
    ensures rateLimits == CountRateLimited(AllRows(ids, child, MaxAttempts(maxRetries)))
  {
    hide RowsFor, CountRateLimited, Without, FinalStatus, OkSummary, Terminal;
    var maxAttempts := MaxAttempts(maxRetries);
    NothingLogged(ids, child, maxAttempts, failed0);
    index, failed, rateLimits := index0, failed0, 0;
    var i := 0;
    while i < |ids|
      invariant 0 <= i <= |ids|
      invariant index == index0 + AllRows(ids[..i], child, maxAttempts)
      invariant failed == AllFailed(failed0, ids[..i], child, maxAttempts)
      invariant rateLimits == CountRateLimited(AllRows(ids[..i], child, maxAttempts))
    {
      BatchStep(ids, i, child, maxAttempts, failed0);
      var rows, a, detected := RunMessage(ids[i], i, maxAttempts, child);
      CountSplits(AllRows(ids[..i], child, maxAttempts), rows);
      assert index0 + (AllRows(ids[..i], child, maxAttempts) + rows) == (index0 + AllRows(ids[..i], child, maxAttempts)) + rows;
      index := index + rows;
      rateLimits := rateLimits + detected;
      var o := child(i, a);
      failed := Without(failed, ids[i]);
      if !OkSummary(o) {
        failed := failed + [FailedRecord(ids[i], FinalStatus(o, a, maxAttempts), a)];
      }
      i := i + 1;
    }
    assert ids[..i] == ids;
  }

  lemma NothingLogged(ids: seq<string>, child: Child, maxAttempts: nat, failed: seq<FailedRecord>)
    requires maxAttempts >= 1
    ensures AllRows(ids[..0], child, maxAttempts) == [] && AllFailed(failed, ids[..0], child, maxAttempts) == failed
    ensures CountRateLimited([]) == 0
  {
  }

  lemma BatchStep(ids: seq<string>, i: int, child: Child, maxAttempts: nat, failed: seq<FailedRecord>)
    requires maxAttempts >= 1 && 0 <= i < |ids|
    ensures AllRows(ids[..i + 1], child, maxAttempts) == AllRows(ids[..i], child, maxAttempts) + RowsFor(ids[i], child, i, maxAttempts)
    ensures AllFailed(failed, ids[..i + 1], child, maxAttempts)
         == Settle(AllFailed(failed, ids[..i], child, maxAttempts), ids[i], child(i, Terminal(child, i, maxAttempts)),
                   Terminal(child, i, maxAttempts), maxAttempts)
  {
    assert ids[..i + 1][..i] == ids[..i];
  }

  /** The attempt loop for one message: `continue` after a rate limit while attempts remain. Rate
      limits are counted where they are detected, apart from the log. */
  method RunMessage(mid: string, i: nat, maxAttempts: nat, child: Child)
    returns (rows: seq<IndexRow>, attempt: nat, detected: nat)
    requires maxAttempts >= 1
    ensures rows == RowsFor(mid, child, i, maxAttempts)
    ensures attempt == Terminal(child, i, maxAttempts)
    ensures detected == CountRateLimited(rows)
  {
    hide Retries, CountRateLimited, FinalStatus;
    rows, attempt, detected := [], 0, 0;
    assert rows == Retries(mid, 0) && CountRateLimited(rows) == 0 by { NoRetries(mid); }
    var terminal := false;
    while !terminal && attempt < maxAttempts
      invariant 0 <= attempt <= maxAttempts
      invariant !terminal ==> attempt < maxAttempts && TerminalFrom(child, i, maxAttempts, 1) == TerminalFrom(child, i, maxAttempts, attempt + 1)
      invariant !terminal ==> rows == Retries(mid, attempt)
      invariant terminal ==> attempt == Terminal(child, i, maxAttempts) && rows == RowsFor(mid, child, i, maxAttempts)
      invariant detected == CountRateLimited(rows)
      decreases maxAttempts - attempt, !terminal
    {
      attempt := attempt + 1;
      var o := child(i, attempt);
      if o.rateLimited { detected := detected + 1; }
      if o.rateLimited && attempt < maxAttempts {
        RetriesGrow(mid, attempt - 1);
        CountLast(rows, RetryRow(mid, attempt));
        rows := rows + [RetryRow(mid, attempt)];
        continue;
      }
      terminal := true;
      CountLast(rows, FinalRow(mid, o, attempt, maxAttempts));
      rows := rows + [FinalRow(mid, o, attempt, maxAttempts)];
    }
  }

  lemma NoRetries(mid: string)
    ensures Retries(mid, 0) == [] && CountRateLimited([]) == 0
  {
  }

  lemma RetriesGrow(mid: string, n: nat)
    ensures Retries(mid, n + 1) == Retries(mid, n) + [RetryRow(mid, n + 1)]
  {
  }

  lemma CountLast(rows: seq<IndexRow>, r: IndexRow)
    ensures CountRateLimited(rows + [r]) == CountRateLimited(rows) + if r.rateLimited then 1 else 0
  {
    assert (rows + [r])[..|rows|] == rows;
  }

  lemma {:induction false} CountSplits(a: seq<IndexRow>, b: seq<IndexRow>)
    ensures CountRateLimited(a + b) == CountRateLimited(a) + CountRateLimited(b)
  {
    if b == [] {
      assert a + b == a;
    } else {
      assert (a + b)[..|a + b| - 1] == a + b[..|b| - 1];
      CountSplits(a, b[..|b| - 1]);
    }
  }

  // ---- the shape of the log ----------------------------------------------------------------------

  lemma {:induction false} TerminalFromIs(child: Child, i: nat, maxAttempts: nat, a: nat)
    requires a <= maxAttempts
    ensures var k := TerminalFrom(child, i, maxAttempts, a);
            && a <= k <= maxAttempts && (forall j | a <= j < k :: child(i, j).rateLimited)
            && (k == maxAttempts || !child(i, k).rateLimited)
    decreases maxAttempts - a
  {
    if a != maxAttempts && child(i, a).rateLimited { TerminalFromIs(child, i, maxAttempts, a + 1); }
  }

  /** For every pattern of rate limits a message gets k rows with attempts 1..k, k within the limit;
      the first k-1 are retries after a real rate limit, and the last and only the last is final. It
      stops at the first attempt that is not rate limited, or exhausted. */
  lemma MessageLogShape(mid: string, child: Child, i: nat, maxAttempts: nat)
    requires maxAttempts >= 1
    ensures var rows := RowsFor(mid, child, i, maxAttempts); var k := |rows|;
            && 1 <= k <= maxAttempts
            && (forall j | 0 <= j < k :: rows[j].messageId == mid && rows[j].attempt == j + 1
                                         && rows[j].rateLimited == child(i, j + 1).rateLimited)
            && (forall j | 0 <= j < k :: rows[j].isFinal <==> j == k - 1)
            && (forall j | 0 <= j < k - 1 :: rows[j].rateLimited && rows[j].status == "retry")
            && (rows[k - 1].rateLimited ==> k == maxAttempts && rows[k - 1].status == "rate_limit_exhausted")
  {
    TerminalFromIs(child, i, maxAttempts, 1);
    var k := Terminal(child, i, maxAttempts);
    assert forall j | 1 <= j < k :: child(i, j).rateLimited;
    var rows := RowsFor(mid, child, i, maxAttempts);
    forall j | 0 <= j < k ensures rows[j].rateLimited == child(i, j + 1).rateLimited {
      if j < k - 1 { assert child(i, j + 1).rateLimited; }
    }
  }

  // ---- failed records ---------------------------------------------------------------------------------

  function CountFor(rs: seq<FailedRecord>, m: string): nat {
    if rs == [] then 0 else CountFor(rs[..|rs| - 1], m) + if rs[|rs| - 1].messageId == m then 1 else 0
  }

  lemma {:induction false} WithoutCounts(rs: seq<FailedRecord>, mid: string, m: string)
    ensures CountFor(Without(rs, mid), m) == if m == mid then 0 else CountFor(rs, m)
  {
    if rs != [] {
      WithoutCounts(rs[..|rs| - 1], mid, m);
      var w := Without(rs[..|rs| - 1], mid);
      assert (w + [rs[|rs| - 1]])[..|w|] == w;
    }
  }

  /** The last position at which message `m` is processed, or -1. */
  function LastPos(ids: seq<string>, m: string): (i: int)
    ensures -1 <= i < |ids| && (i >= 0 ==> ids[i] == m) && (i < 0 <==> m !in ids)
  {
    if ids == [] then -1 else if ids[|ids| - 1] == m then |ids| - 1 else LastPos(ids[..|ids| - 1], m)
  }

  /** A processed message has one failed record if its terminal summary was not ok and none
      otherwise, whatever was recorded before; other messages keep theirs. */
  lemma {:induction false} FailedRecordsExact(failed: seq<FailedRecord>, ids: seq<string>, child: Child, maxAttempts: nat, m: string)
    requires maxAttempts >= 1
    ensures var p := LastPos(ids, m);
            CountFor(AllFailed(failed, ids, child, maxAttempts), m) ==
              if p < 0 then CountFor(failed, m) else if OkSummary(TerminalOutcome(child, p, maxAttempts)) then 0 else 1
  {
    if ids != [] {
      var i := |ids| - 1;
      FailedRecordsExact(failed, ids[..i], child, maxAttempts, m);
      var before := AllFailed(failed, ids[..i], child, maxAttempts);
      WithoutCounts(before, ids[i], m);
      var w := Without(before, ids[i]);
      var rec := FailedRecord(ids[i], FinalStatus(TerminalOutcome(child, i, maxAttempts), Terminal(child, i, maxAttempts), maxAttempts),
                              Terminal(child, i, maxAttempts));
      assert (w + [rec])[..|w|] == w;
    }
  }

  // ---- the resume checkpoint -------------------------------------------------------------------------

  /** The status of the last final row of message `m`. */
  function LastFinal(rows: seq<IndexRow>, m: string): Option<string> {
    if rows == [] then None
    else if rows[|rows| - 1].messageId == m && rows[|rows| - 1].isFinal then Some(rows[|rows| - 1].status)
    else LastFinal(rows[..|rows| - 1], m)
  }

  /** What `--resume` skips. */
  predicate Completed(rows: seq<IndexRow>, m: string) { LastFinal(rows, m).Some? && Succeeded(LastFinal(rows, m).value) }

  lemma {:induction false} LastFinalSplits(a: seq<IndexRow>, b: seq<IndexRow>, m: string)
    ensures LastFinal(a + b, m) == if LastFinal(b, m).Some? then LastFinal(b, m) else LastFinal(a, m)
  {
    if b == [] {
      assert a + b == a;
    } else {
      assert (a + b)[..|a + b| - 1] == a + b[..|b| - 1];
      LastFinalSplits(a, b[..|b| - 1], m);
    }
  }

  lemma {:induction false} RetriesNotFinal(mid: string, n: nat, m: string)
    ensures LastFinal(Retries(mid, n), m) == None
  {
    if n > 0 {
      var rows := Retries(mid, n);
      assert rows[..n - 1] == Retries(mid, n - 1);
      RetriesNotFinal(mid, n - 1, m);
    }
  }

  lemma LastFinalOfMessage(mid: string, child: Child, i: nat, maxAttempts: nat, m: string)
    requires maxAttempts >= 1
    ensures var k := Terminal(child, i, maxAttempts);
            LastFinal(RowsFor(mid, child, i, maxAttempts), m) == if m == mid then Some(FinalStatus(child(i, k), k, maxAttempts)) else None
  {
    var k := Terminal(child, i, maxAttempts);
    RetriesNotFinal(mid, k - 1, m);
    var rows := RowsFor(mid, child, i, maxAttempts);
    assert rows[..|rows| - 1] == Retries(mid, k - 1);
  }

  /** After a run, a resume skips a processed message exactly when its terminal status was a success,
      and what an earlier run left decides for the others. */
  lemma {:induction false} ResumeSkipsExactlySuccesses(index0: seq<IndexRow>, ids: seq<string>, child: Child, maxAttempts: nat, m: string)
    requires maxAttempts >= 1
    ensures var p := LastPos(ids, m);
            Completed(index0 + AllRows(ids, child, maxAttempts), m) <==>
              if p < 0 then Completed(index0, m)
              else Succeeded(FinalStatus(TerminalOutcome(child, p, maxAttempts), Terminal(child, p, maxAttempts), maxAttempts))
  {
    if ids == [] {
      assert index0 + AllRows(ids, child, maxAttempts) == index0;
    } else {
      var i := |ids| - 1;
      ResumeSkipsExactlySuccesses(index0, ids[..i], child, maxAttempts, m);
      var before, rows := AllRows(ids[..i], child, maxAttempts), RowsFor(ids[i], child, i, maxAttempts);
      assert index0 + (before + rows) == (index0 + before) + rows;
      LastFinalSplits(index0 + before, rows, m);
      LastFinalOfMessage(ids[i], child, i, maxAttempts, m);
    }
  }

  /** After a run, the index and the failed records can disagree about a processed message: it is both
      skipped on resume and listed as failed exactly when its terminal summary carries no status and
      the attempt was not rate limited; it is neither skipped nor listed exactly when an exhausted rate
      limit came with an ok summary. */
  lemma CheckpointVersusFailedRecord(index0: seq<IndexRow>, failed0: seq<FailedRecord>, ids: seq<string>, child: Child,
                                     maxAttempts: nat, m: string)
    requires maxAttempts >= 1 && m in ids
    ensures var o := TerminalOutcome(child, LastPos(ids, m), maxAttempts);
            var skipped := Completed(index0 + AllRows(ids, child, maxAttempts), m);
            var listed := CountFor(AllFailed(failed0, ids, child, maxAttempts), m) > 0;
            && (skipped && listed <==> o.summary == Some("") && !o.rateLimited)
            && (!skipped && !listed <==> OkSummary(o) && o.rateLimited)
  {
    hide AllRows, AllFailed, Completed, CountFor;
    ResumeSkipsExactlySuccesses(index0, ids, child, maxAttempts, m);
    FailedRecordsExact(failed0, ids, child, maxAttempts, m);
    TerminalFromIs(child, LastPos(ids, m), maxAttempts, 1);
  }

  // ---- in the words of the artifacts -----------------------------------------------------------------

  /** After a run, resume skips a processed message exactly when its terminal attempt was not rate limited
      and its summary says `completed` or `completed_with_errors`, or says nothing. */
  lemma ResumeByStatus(index0: seq<IndexRow>, ids: seq<string>, child: Child, maxAttempts: nat, m: string)
    requires maxAttempts >= 1 && m in ids
    ensures var o := TerminalOutcome(child, LastPos(ids, m), maxAttempts);
            Completed(index0 + AllRows(ids, child, maxAttempts), m) <==>
              !o.rateLimited && o.summary in {Some("completed"), Some("completed_with_errors"), Some("")}
  {
    hide AllRows, Completed;
    ResumeSkipsExactlySuccesses(index0, ids, child, maxAttempts, m);
    TerminalFromIs(child, LastPos(ids, m), maxAttempts, 1);
  }

  /** The failed record of a message names its terminal attempt and what became of it. */
  function FailureOf(m: string, o: Outcome, attempt: int): FailedRecord {
    FailedRecord(m, if o.rateLimited then "rate_limit_exhausted"
                    else if o.summary.None? then "failed" else if o.summary.value == "" then "completed" else o.summary.value, attempt)
  }

  lemma {:induction false} WithoutMember(rs: seq<FailedRecord>, mid: string, r: FailedRecord)
    ensures r in Without(rs, mid) <==> r in rs && r.messageId != mid
  {
    if rs != [] {
      WithoutMember(rs[..|rs| - 1], mid, r);
      assert rs == rs[..|rs| - 1] + [rs[|rs| - 1]];
    }
  }

  /** The failed records after a run, record by record: of a processed message the one of its last terminal
      attempt, unless its summary says `completed` or `completed_with_errors`; of others what was there. */
  lemma {:induction false} FailedRecordsAre(failed: seq<FailedRecord>, ids: seq<string>, child: Child, maxAttempts: nat, r: FailedRecord)
    requires maxAttempts >= 1
    ensures var p := LastPos(ids, r.messageId);
            r in AllFailed(failed, ids, child, maxAttempts) <==>
              if p < 0 then r in failed
              else var o := TerminalOutcome(child, p, maxAttempts);
                   o.summary !in {Some("completed"), Some("completed_with_errors")} && r == FailureOf(r.messageId, o, Terminal(child, p, maxAttempts))
  {
    hide Without, Terminal;
    if ids != [] {
      var i := |ids| - 1;
      FailedRecordsAre(failed, ids[..i], child, maxAttempts, r);
      var before := AllFailed(failed, ids[..i], child, maxAttempts);
      WithoutMember(before, ids[i], r);
      LimitedIsLast(child, i, maxAttempts);
    }
  }

  lemma LimitedIsLast(child: Child, i: nat, maxAttempts: nat)
    requires maxAttempts >= 1
    ensures TerminalOutcome(child, i, maxAttempts).rateLimited ==> Terminal(child, i, maxAttempts) == maxAttempts
    ensures 1 <= Terminal(child, i, maxAttempts) <= maxAttempts
  {
    TerminalFromIs(child, i, maxAttempts, 1);
  }

  /** A message that is rate limited every time is tried once more than the retries asked for, and at
      least once. */
  lemma EveryRetryIsUsed(mid: string, child: Child, i: nat, maxRetries: int)
    requires forall a :: child(i, a).rateLimited
    ensures |RowsFor(mid, child, i, MaxAttempts(maxRetries))| == if maxRetries < 0 then 1 else maxRetries + 1
  {
    TerminalFromIs(child, i, MaxAttempts(maxRetries), 1);
  }

  /** And one that is never rate limited is tried once. */
  lemma NoRetryWithoutLimit(mid: string, child: Child, i: nat, maxRetries: int)
    requires !child(i, 1).rateLimited
    ensures |RowsFor(mid, child, i, MaxAttempts(maxRetries))| == 1
  {
    TerminalFromIs(child, i, MaxAttempts(maxRetries), 1);
  }
}
