/** The append-only fact history with supersession, against a plain map from
    (case, scope, key) to the latest value; and the conflicts read off it. */
module FactSupersession {
  import opened Text

  datatype FactStatus = Active | Superseded | Other(name: string)

  datatype FactRow = FactRow(factId: string, caseId: string, scope: string, key: string, value: string,
                             status: FactStatus, supersededBy: string)

  datatype Stats = Stats(inserted: nat, superseded: nat, agreeing: nat)

  type FactKey = (string, string, string)

  /** The key a stored row is found under. */
  function KeyOf(item: FactRow): FactKey {
    (item.caseId, if item.scope == "" then "case" else item.scope, item.key)
  }

  /** The key an incoming row is written under: trimmed, with a default scope. */
  function IncomingKey(r: FactRow): FactKey {
    (Trim(r.caseId), if Trim(r.scope) == "" then "case" else Trim(r.scope), Trim(r.key))
  }

  /** Rows without a case or a key are skipped. */
  predicate Keyed(r: FactRow) { Trim(r.caseId) != "" && Trim(r.key) != "" }

  /** Once stored, the row is found under the key it was written under. */
  predicate Stable(r: FactRow) { KeyOf(r) == IncomingKey(r) }

  predicate Hits(item: FactRow, r: FactRow) { KeyOf(item) == IncomingKey(r) && item.status == Active }

  predicate SameValue(item: FactRow, r: FactRow) { Trim(item.value) == Trim(r.value) }

  // ---- one row ---------------------------------------------------------------------

  function Touched(item: FactRow, r: FactRow): FactRow {
    if Hits(item, r) && !SameValue(item, r) then item.(status := Superseded, supersededBy := r.factId) else item
  }

  function TouchAll(rows: seq<FactRow>, r: FactRow): seq<FactRow> {
    seq(|rows|, i requires 0 <= i < |rows| => Touched(rows[i], r))
  }

  function CountHits(rows: seq<FactRow>, r: FactRow, same: bool): nat {
    if rows == [] then 0
    else CountHits(rows[..|rows| - 1], r, same)
         + (if Hits(rows[|rows| - 1], r) && SameValue(rows[|rows| - 1], r) == same then 1 else 0)
  }

  function Insert(rows: seq<FactRow>, r: FactRow): seq<FactRow> {
    if !Keyed(r) then rows
    else TouchAll(rows, r) + if CountHits(rows, r, true) > 0 then [] else [r]
  }

  function InsertStats(rows: seq<FactRow>, r: FactRow): Stats {
    if !Keyed(r) then Stats(0, 0, 0)
    else
      var same := CountHits(rows, r, true);
      Stats(if same > 0 then 0 else 1, CountHits(rows, r, false), same)
  }

  function Plus(a: Stats, b: Stats): Stats {
    Stats(a.inserted + b.inserted, a.superseded + b.superseded, a.agreeing + b.agreeing)
  }

  // ---- batches -----------------------------------------------------------------------

  function InsertAll(rows: seq<FactRow>, batch: seq<FactRow>): seq<FactRow> {
    if batch == [] then rows else Insert(InsertAll(rows, batch[..|batch| - 1]), batch[|batch| - 1])
  }

  function AllStats(rows: seq<FactRow>, batch: seq<FactRow>): Stats {
    if batch == [] then Stats(0, 0, 0)
    else Plus(AllStats(rows, batch[..|batch| - 1]), InsertStats(InsertAll(rows, batch[..|batch| - 1]), batch[|batch| - 1]))
  }

  /** One pass over the stored rows for one incoming row. */
  method SupersedePass(rows: seq<FactRow>, r: FactRow) returns (updated: seq<FactRow>, same: nat, superseded: nat)
    ensures updated == TouchAll(rows, r)
    ensures same == CountHits(rows, r, true) && superseded == CountHits(rows, r, false)
  {
    hide Trim, KeyOf, IncomingKey;
    updated, same, superseded := [], 0, 0;
    var i := 0;
    while i < |rows|
      invariant 0 <= i <= |rows|
      invariant updated == TouchAll(rows, r)[..i]
      invariant same == CountHits(rows[..i], r, true) && superseded == CountHits(rows[..i], r, false)
    {
      var item := rows[i];
      assert rows[..i + 1][..i] == rows[..i];
      if KeyOf(item) == IncomingKey(r) && item.status == Active {
        if Trim(item.value) == Trim(r.value) {
          same := same + 1;
          updated := updated + [item];
        } else {
          updated := updated + [item.(status := Superseded, supersededBy := r.factId)];
          superseded := superseded + 1;
        }
      } else {
        updated := updated + [item];
      }
      i := i + 1;
    }
    assert rows[..i] == rows && updated == TouchAll(rows, r);
  }

  /** The in-memory fact list. */
  class FactStore {
    var factRows: seq<FactRow>

    constructor ()
      ensures factRows == []
    {
      factRows := [];
    }

    method AppendFactsWithSupersession(batch: seq<FactRow>) returns (stats: Stats)
      modifies this
      ensures factRows == InsertAll(old(factRows), batch)
      ensures stats == AllStats(old(factRows), batch)
    {
      hide InsertAll, AllStats, Insert, InsertStats;
      stats := Stats(0, 0, 0);
      BatchStart(factRows, batch);
      var n := 0;
      while n < |batch|
        invariant 0 <= n <= |batch|
        invariant factRows == InsertAll(old(factRows), batch[..n])
        invariant stats == AllStats(old(factRows), batch[..n])
      {
        BatchStep(old(factRows), batch, n);
        var row := AppendOne(batch[n]);
        stats := Plus(stats, row);
        n := n + 1;
      }
      assert batch[..n] == batch;
    }

    method AppendOne(r: FactRow) returns (stats: Stats)
      modifies this
      ensures factRows == Insert(old(factRows), r)
      ensures stats == InsertStats(old(factRows), r)
    {
      hide CountHits, TouchAll, Trim;
      stats := Stats(0, 0, 0);
      if Keyed(r) {
        var updated, same, superseded := SupersedePass(factRows, r);
        factRows := updated;
        stats := stats.(superseded := superseded, agreeing := same);
        if same == 0 {
          factRows := factRows + [r];
          stats := stats.(inserted := 1);
        }
      }
    }
  }

  lemma BatchStart(rows: seq<FactRow>, batch: seq<FactRow>)
    ensures InsertAll(rows, batch[..0]) == rows && AllStats(rows, batch[..0]) == Stats(0, 0, 0)
  {
  }

  lemma BatchStep(rows: seq<FactRow>, batch: seq<FactRow>, n: int)
    requires 0 <= n < |batch|
    ensures InsertAll(rows, batch[..n + 1]) == Insert(InsertAll(rows, batch[..n]), batch[n])
    ensures AllStats(rows, batch[..n + 1]) == Plus(AllStats(rows, batch[..n]), InsertStats(InsertAll(rows, batch[..n]), batch[n]))
  {
    assert batch[..n + 1][..n] == batch[..n];
  }

  // ---- history is append-only, for arbitrary rows ---------------------------------------

  function CountSuperseded(rows: seq<FactRow>): nat {
    if rows == [] then 0
    else CountSuperseded(rows[..|rows| - 1]) + (if rows[|rows| - 1].status == Superseded then 1 else 0)
  }

  /** No row is removed or reordered and no value changes; at most a status goes from active to superseded. */
  ghost predicate Kept(before: seq<FactRow>, after: seq<FactRow>) {
    && |before| <= |after|
    && forall i | 0 <= i < |before| ::
         after[i] == before[i]
         || (before[i].status == Active && after[i].status == Superseded
             && after[i] == before[i].(status := Superseded, supersededBy := after[i].supersededBy))
  }

  lemma {:induction false} TouchCounts(rows: seq<FactRow>, r: FactRow)
    ensures CountSuperseded(TouchAll(rows, r)) == CountSuperseded(rows) + CountHits(rows, r, false)
  {
    if rows != [] {
      var n := |rows| - 1;
      TouchCounts(rows[..n], r);
      assert TouchAll(rows, r)[..n] == TouchAll(rows[..n], r);
    }
  }

  lemma CountSupersededAppend(rows: seq<FactRow>, r: FactRow)
    ensures CountSuperseded(rows + [r]) == CountSuperseded(rows) + if r.status == Superseded then 1 else 0
  {
    assert (rows + [r])[..|rows|] == rows;
  }

  lemma InsertKeeps(rows: seq<FactRow>, r: FactRow)
    ensures Kept(rows, Insert(rows, r))
    ensures |Insert(rows, r)| == |rows| + InsertStats(rows, r).inserted
    ensures r.status != Superseded ==> CountSuperseded(Insert(rows, r)) == CountSuperseded(rows) + InsertStats(rows, r).superseded
  {
    hide Trim, KeyOf, IncomingKey, CountHits, CountSuperseded;
    TouchCounts(rows, r);
    CountSupersededAppend(TouchAll(rows, r), r);
    assert TouchAll(rows, r) + [] == TouchAll(rows, r);
  }

  lemma KeptTransitive(a: seq<FactRow>, b: seq<FactRow>, c: seq<FactRow>)
    requires Kept(a, b) && Kept(b, c)
    ensures Kept(a, c)
  {
  }

  /** For rows of any key and status the history is append-only and grows by `inserted`; unless rows
      arrive superseded already, superseded rows grow by `superseded`. */
  lemma {:induction false} BatchIsAppendOnly(rows: seq<FactRow>, batch: seq<FactRow>)
    ensures Kept(rows, InsertAll(rows, batch))
    ensures |InsertAll(rows, batch)| == |rows| + AllStats(rows, batch).inserted
    ensures (forall i | 0 <= i < |batch| :: batch[i].status != Superseded) ==>
              CountSuperseded(InsertAll(rows, batch)) == CountSuperseded(rows) + AllStats(rows, batch).superseded
  {
    hide Insert, InsertStats, CountSuperseded;
    if batch != [] {
      var n := |batch| - 1;
      BatchIsAppendOnly(rows, batch[..n]);
      var mid := InsertAll(rows, batch[..n]);
      InsertKeeps(mid, batch[n]);
      KeptTransitive(rows, mid, Insert(mid, batch[n]));
    }
  }

  /** A row superseded by a batch carries the id of a row of that batch, written under its key with
      another value. */
  ghost predicate SupersededByOne(was: FactRow, now: FactRow, batch: seq<FactRow>) {
    && was.status == Active && now == was.(status := Superseded, supersededBy := now.supersededBy)
    && exists r :: r in batch && r.factId == now.supersededBy && Keyed(r) && IncomingKey(r) == KeyOf(was) && !SameValue(was, r)
  }

  lemma InsertTouches(rows: seq<FactRow>, r: FactRow, i: int)
    requires 0 <= i < |rows|
    ensures |rows| <= |Insert(rows, r)|
    ensures var now := Insert(rows, r)[i];
            if Keyed(r) && rows[i].status == Active && KeyOf(rows[i]) == IncomingKey(r) && !SameValue(rows[i], r)
            then now == rows[i].(status := Superseded, supersededBy := r.factId) else now == rows[i]
  {
    hide Trim, KeyOf, IncomingKey, CountHits, Keyed;
    if Keyed(r) { assert Insert(rows, r)[i] == TouchAll(rows, r)[i] == Touched(rows[i], r); }
  }

  /** Every row of the history is as it was, or was superseded by a row of the batch. */
  lemma {:induction false} SupersessionsHaveCause(rows: seq<FactRow>, batch: seq<FactRow>, i: int)
    requires 0 <= i < |rows|
    ensures |rows| <= |InsertAll(rows, batch)|
    ensures var now := InsertAll(rows, batch)[i]; now == rows[i] || SupersededByOne(rows[i], now, batch)
  {
    hide Trim, Keyed, Insert;
    if batch != [] {
      var n := |batch| - 1;
      assert batch == batch[..n] + [batch[n]];
      SupersessionsHaveCause(rows, batch[..n], i);
      var mid := InsertAll(rows, batch[..n]);
      InsertTouches(mid, batch[n], i);
      if mid[i] != rows[i] {
        var r :| r in batch[..n] && r.factId == mid[i].supersededBy && Keyed(r) && IncomingKey(r) == KeyOf(rows[i]) && !SameValue(rows[i], r);
        assert r in batch;
      } else {
        assert batch[n] in batch;
      }
    }
  }

  function CountKeyed(batch: seq<FactRow>): nat {
    if batch == [] then 0 else CountKeyed(batch[..|batch| - 1]) + if Keyed(batch[|batch| - 1]) then 1 else 0
  }

  lemma {:induction false} AgreeingAtMostOne(rows: seq<FactRow>, r: FactRow)
    requires OneActive(rows)
    ensures CountHits(rows, r, true) <= 1
  {
    hide Trim, KeyOf, IncomingKey;
    if rows != [] {
      var n := |rows| - 1;
      assert forall i | 0 <= i < n :: rows[..n][i] == rows[i];
      AgreeingAtMostOne(rows[..n], r);
      HitsExist(rows[..n], r, true);
    }
  }

  // ---- refinement of a map --------------------------------------------------------------

  function Write(m: map<FactKey, string>, r: FactRow): map<FactKey, string> {
    if Keyed(r) then m[IncomingKey(r) := Trim(r.value)] else m
  }

  function WriteAll(m: map<FactKey, string>, batch: seq<FactRow>): map<FactKey, string> {
    if batch == [] then m else Write(WriteAll(m, batch[..|batch| - 1]), batch[|batch| - 1])
  }

  /** At most one active row per key. */
  ghost predicate OneActive(rows: seq<FactRow>) {
    forall i, j | 0 <= i < j < |rows| && rows[i].status == Active && rows[j].status == Active :: KeyOf(rows[i]) != KeyOf(rows[j])
  }

  /** The active rows are the map: one per key, holding the latest value. */
  ghost predicate Represents(rows: seq<FactRow>, m: map<FactKey, string>) {
    && OneActive(rows)
    && (forall i | 0 <= i < |rows| && rows[i].status == Active :: KeyOf(rows[i]) in m && m[KeyOf(rows[i])] == Trim(rows[i].value))
    && (forall k | k in m :: exists i | 0 <= i < |rows| :: rows[i].status == Active && KeyOf(rows[i]) == k)
  }

  lemma {:induction false} HitsExist(rows: seq<FactRow>, r: FactRow, same: bool)
    ensures CountHits(rows, r, same) > 0 <==> exists i | 0 <= i < |rows| :: Hits(rows[i], r) && SameValue(rows[i], r) == same
  {
    if rows != [] {
      HitsExist(rows[..|rows| - 1], r, same);
      assert forall i | 0 <= i < |rows| - 1 :: rows[..|rows| - 1][i] == rows[i];
    }
  }

  /** What an insertion leaves active: everything under other keys, and one row for its own. */
  lemma InsertActive(rows: seq<FactRow>, r: FactRow)
    requires OneActive(rows) && Stable(r) && r.status == Active && Keyed(r)
    ensures var after := Insert(rows, r); var k := IncomingKey(r);
            && |after| >= |rows|
            && (forall i | 0 <= i < |rows| && KeyOf(rows[i]) != k :: after[i] == rows[i])
            && (forall i | 0 <= i < |rows| :: KeyOf(after[i]) == KeyOf(rows[i]))
            && (forall i | |rows| <= i < |after| :: after[i] == r && KeyOf(r) == k)
            && (forall i | 0 <= i < |after| && after[i].status == Active :: i < |rows| ==> rows[i].status == Active)
            && (forall i | 0 <= i < |after| && after[i].status == Active && KeyOf(after[i]) == k :: SameValue(after[i], r))
            && OneActive(after)
  {
    hide Trim;
    HitsExist(rows, r, true);
    var t := TouchAll(rows, r);
    var k := IncomingKey(r);
    var after := Insert(rows, r);
    assert forall i | 0 <= i < |t| :: after[i] == t[i] == Touched(rows[i], r);
    if CountHits(rows, r, true) == 0 {
      assert forall i | 0 <= i < |t| && t[i].status == Active :: KeyOf(t[i]) != k;
    }
  }

  lemma InsertHasActive(rows: seq<FactRow>, r: FactRow) returns (w: int)
    requires OneActive(rows) && Stable(r) && r.status == Active && Keyed(r)
    ensures 0 <= w < |Insert(rows, r)| && Insert(rows, r)[w].status == Active && KeyOf(Insert(rows, r)[w]) == IncomingKey(r)
  {
    hide Trim;
    HitsExist(rows, r, true);
    if CountHits(rows, r, true) > 0 {
      w :| 0 <= w < |rows| && Hits(rows[w], r) && SameValue(rows[w], r);
      assert Insert(rows, r)[w] == TouchAll(rows, r)[w] == Touched(rows[w], r);
    } else {
      w := |rows|;
    }
  }

  lemma RefineStep(rows: seq<FactRow>, after: seq<FactRow>, m: map<FactKey, string>, k: FactKey, v: string, w: int)
    requires Represents(rows, m) && OneActive(after) && |after| >= |rows|
    requires forall i | 0 <= i < |rows| && KeyOf(rows[i]) != k :: after[i] == rows[i]
    requires forall i | 0 <= i < |rows| :: KeyOf(after[i]) == KeyOf(rows[i])
    requires forall i | |rows| <= i < |after| :: KeyOf(after[i]) == k
    requires forall i | 0 <= i < |after| && after[i].status == Active && KeyOf(after[i]) == k :: Trim(after[i].value) == v
    requires 0 <= w < |after| && after[w].status == Active && KeyOf(after[w]) == k
    ensures Represents(after, m[k := v])
  {
    hide Trim, KeyOf;
    var m' := m[k := v];
    forall q | q in m' ensures exists i | 0 <= i < |after| :: after[i].status == Active && KeyOf(after[i]) == q {
      if q != k {
        var i :| 0 <= i < |rows| && rows[i].status == Active && KeyOf(rows[i]) == q;
        assert after[i] == rows[i];
      }
    }
  }

  lemma InsertRefines(rows: seq<FactRow>, m: map<FactKey, string>, r: FactRow)
    requires Represents(rows, m) && Stable(r) && r.status == Active
    ensures Represents(Insert(rows, r), Write(m, r))
  {
    if Keyed(r) {
      hide Trim, Insert, KeyOf, IncomingKey, OneActive;
      InsertActive(rows, r);
      var w := InsertHasActive(rows, r);
      RefineStep(rows, Insert(rows, r), m, IncomingKey(r), Trim(r.value), w);
    }
  }

  lemma HitIsTheOne(rows: seq<FactRow>, m: map<FactKey, string>, r: FactRow)
    requires Represents(rows, m) && Keyed(r)
    ensures IncomingKey(r) in m && m[IncomingKey(r)] == Trim(r.value) ==> forall i | 0 <= i < |rows| && Hits(rows[i], r) :: SameValue(rows[i], r)
    ensures (IncomingKey(r) in m && m[IncomingKey(r)] == Trim(r.value)) <==> CountHits(rows, r, true) > 0
  {
    hide Trim, KeyOf, IncomingKey, CountHits, OneActive;
    HitsExist(rows, r, true);
  }

  /** A write that agrees with the latest value, up to white space, leaves the history as it is; any
      other adds one row. */
  lemma AgreeingWriteChangesNothing(rows: seq<FactRow>, m: map<FactKey, string>, r: FactRow)
    requires Represents(rows, m) && Keyed(r)
    ensures if IncomingKey(r) in m && m[IncomingKey(r)] == Trim(r.value) then Insert(rows, r) == rows else |Insert(rows, r)| == |rows| + 1
  {
    hide Trim, KeyOf, IncomingKey, CountHits, OneActive, Keyed;
    HitIsTheOne(rows, m, r);
    if IncomingKey(r) in m && m[IncomingKey(r)] == Trim(r.value) {
      assert TouchAll(rows, r) == rows;
      assert TouchAll(rows, r) + [] == rows;
    }
  }

  /** A stored row without a scope is a case row: a later value written under scope `case` supersedes it. */
  lemma NoScopeIsCase(a: FactRow, b: FactRow)
    requires a.scope == "" && b.scope == "case" && a.status == Active && Keyed(b) && !SameValue(a, b)
    requires a.caseId == Trim(b.caseId) && a.key == Trim(b.key)
    ensures Insert([a], b) == [a.(status := Superseded, supersededBy := b.factId), b]
  {
    hide Trim, CountHits, Keyed;
    assert Trim("case") == "case" by { KindKeyTrimmed(); }
    assert CountHits([a], b, true) == 0 by { HitsExist([a], b, true); }
    assert TouchAll([a], b) == [Touched(a, b)];
  }

  /** After any sequence of writes the active rows are exactly the latest values. */
  lemma {:induction false} HistoryRefinesMap(rows: seq<FactRow>, m: map<FactKey, string>, batch: seq<FactRow>)
    requires Represents(rows, m) && forall i | 0 <= i < |batch| :: Stable(batch[i]) && batch[i].status == Active
    ensures Represents(InsertAll(rows, batch), WriteAll(m, batch))
  {
    if batch != [] {
      HistoryRefinesMap(rows, m, batch[..|batch| - 1]);
      InsertRefines(InsertAll(rows, batch[..|batch| - 1]), WriteAll(m, batch[..|batch| - 1]), batch[|batch| - 1]);
    }
  }

  /** A row under `r`'s key already holds its value. */
  ghost predicate Agreed(rows: seq<FactRow>, r: FactRow) {
    exists i | 0 <= i < |rows| :: Hits(rows[i], r) && SameValue(rows[i], r)
  }

  /** An active row is already found where `r` would be. */
  ghost predicate Taken(rows: seq<FactRow>, r: FactRow) {
    exists i | 0 <= i < |rows| :: rows[i].status == Active && KeyOf(rows[i]) == KeyOf(r)
  }

  lemma UnstableInsert(rows: seq<FactRow>, r: FactRow)
    requires OneActive(rows) && r.status == Active && Keyed(r) && !Stable(r)
    ensures OneActive(Insert(rows, r)) <==> Agreed(rows, r) || !Taken(rows, r)
  {
    hide Trim, IncomingKey, CountHits;
    HitsExist(rows, r, true);
    var t, after := TouchAll(rows, r), Insert(rows, r);
    assert forall i | 0 <= i < |t| :: after[i] == t[i] == Touched(rows[i], r);
    if !Agreed(rows, r) {
      assert after[|rows|] == r;
      if Taken(rows, r) {
        var i :| 0 <= i < |rows| && rows[i].status == Active && KeyOf(rows[i]) == KeyOf(r);
        assert after[i] == rows[i];
      }
    }
  }

  /** Why stability matters, for any store and any row: an insertion leaves at most one active row per
      key exactly when the row is found under the key it was written under, or nothing is appended, or
      the place it is found under is free. */
  lemma InsertKeepsOneActiveIff(rows: seq<FactRow>, r: FactRow)
    requires OneActive(rows) && r.status == Active
    ensures OneActive(Insert(rows, r)) <==> !Keyed(r) || Stable(r) || Agreed(rows, r) || !Taken(rows, r)
  {
    hide Trim, KeyOf, IncomingKey, CountHits, OneActive, Taken, Agreed;
    if Keyed(r) {
      if Stable(r) { InsertActive(rows, r); } else { UnstableInsert(rows, r); }
    }
  }

  /** Hence a row is safe to write into every store exactly when it is stable. */
  lemma SafeIffStable(r: FactRow)
    requires r.status == Active && Keyed(r)
    ensures (forall rows | OneActive(rows) :: OneActive(Insert(rows, r))) <==> Stable(r)
  {
    hide Trim, Insert;
    if Stable(r) {
      forall rows | OneActive(rows) ensures OneActive(Insert(rows, r)) { InsertActive(rows, r); }
    } else {
      assert OneActive([r]) && [r][0] == r;
      InsertKeepsOneActiveIff([r], r);
    }
  }

  lemma OneRowAccounts(rows: seq<FactRow>, r: FactRow)
    requires OneActive(rows)
    ensures InsertStats(rows, r).inserted + InsertStats(rows, r).agreeing == if Keyed(r) then 1 else 0
  {
    hide OneActive, CountHits, Keyed;
    AgreeingAtMostOne(rows, r);
  }

  /** The statistics account for every keyed row: each was inserted or agreed with the one active row. */
  lemma {:induction false} StatsAccount(rows: seq<FactRow>, batch: seq<FactRow>)
    requires OneActive(rows) && forall i | 0 <= i < |batch| :: Stable(batch[i]) && batch[i].status == Active
    ensures OneActive(InsertAll(rows, batch))
    ensures AllStats(rows, batch).inserted + AllStats(rows, batch).agreeing == CountKeyed(batch)
  {
    hide OneActive, Insert, InsertStats, Stable, Keyed, Agreed, Taken;
    if batch != [] {
      var n := |batch| - 1;
      StatsAccount(rows, batch[..n]);
      OneRowAccounts(InsertAll(rows, batch[..n]), batch[n]);
      InsertKeepsOneActiveIff(InsertAll(rows, batch[..n]), batch[n]);
    }
  }

  // ---- signals ------------------------------------------------------------------------------

  const LATEST_KIND := "latest_signal_kind"

  /** A canonical signal as far as facts go: its resolved case, raw observation id and payload rows. */
  datatype Signal = Signal(signalId: string, kind: string, caseId: string, rawObservationId: string, rows: seq<FactRow>)

  function KindRow(s: Signal): FactRow { FactRow(s.signalId, s.caseId, "case", LATEST_KIND, s.kind, Active, "") }

  function RowsOfSignal(s: Signal): seq<FactRow> {
    if Trim(s.rawObservationId) == "" then s.rows else s.rows + [KindRow(s)]
  }

  function RowsOfSignals(ss: seq<Signal>): seq<FactRow> {
    if ss == [] then [] else RowsOfSignals(ss[..|ss| - 1]) + RowsOfSignal(ss[|ss| - 1])
  }

  predicate Observed(s: Signal) { Trim(s.rawObservationId) != "" }

  /** The signal has a resolved case, and a payload row written under some case's `latest_signal_kind` is
      for that case and comes with a raw observation id. Other payload rows may be anything. */
  predicate WellFormed(s: Signal) {
    && Trim(s.caseId) == s.caseId
    && forall i | 0 <= i < |s.rows| ::
         IncomingKey(s.rows[i]) == KindKey(IncomingKey(s.rows[i]).0) ==> IncomingKey(s.rows[i]).0 == s.caseId && Observed(s)
  }

  /** The kind of the last signal of case `c` that carries a raw observation id, if there is one. */
  function LastKind(ss: seq<Signal>, c: string): (bool, string) {
    if ss == [] then (false, "")
    else if ss[|ss| - 1].caseId == c && Observed(ss[|ss| - 1]) then (true, ss[|ss| - 1].kind)
    else LastKind(ss[..|ss| - 1], c)
  }

  function KindKey(c: string): FactKey { (c, "case", LATEST_KIND) }

  lemma KindKeyTrimmed()
    ensures Trim("case") == "case" && Trim(LATEST_KIND) == LATEST_KIND && Trim(LATEST_KIND) != "" && Trim("") == ""
  {
    TrimTrims("case");
    TrimTrims(LATEST_KIND);
  }

  lemma KindRowKey(s: Signal)
    requires Trim(s.caseId) == s.caseId != ""
    ensures IncomingKey(KindRow(s)) == KindKey(s.caseId) && Keyed(KindRow(s)) && Stable(KindRow(s))
  {
    KindKeyTrimmed();
  }

  /** A row found under a case's kind was written under it. */
  lemma FoundIsWritten(r: FactRow, c: string)
    requires Trim(c) == c && KeyOf(r) == KindKey(c)
    ensures IncomingKey(r) == KindKey(c)
  {
    KindKeyTrimmed();
  }

  /** Row `i` is live under `k`. */
  predicate LiveAt(rows: seq<FactRow>, k: FactKey, i: int) {
    0 <= i < |rows| && rows[i].status == Active && KeyOf(rows[i]) == k
  }

  ghost predicate AtMostOneLive(rows: seq<FactRow>, k: FactKey) {
    forall i, j | LiveAt(rows, k, i) && LiveAt(rows, k, j) :: i == j
  }

  /** The one live row under `k`, if there is to be one, holds `v`. */
  ghost predicate Tells(rows: seq<FactRow>, k: FactKey, some: bool, v: string) {
    && AtMostOneLive(rows, k)
    && ((exists i :: LiveAt(rows, k, i)) <==> some)
    && (forall i | LiveAt(rows, k, i) :: Trim(rows[i].value) == v)
  }

  /** What an insertion does to the live rows of key `k`: nothing if it is written elsewhere, else rows
      of another value go, and the row itself comes if none of its value was there. */
  lemma InsertLive(rows: seq<FactRow>, r: FactRow, k: FactKey, i: int)
    requires KeyOf(r) == k ==> IncomingKey(r) == k
    ensures var after := Insert(rows, r);
            && |rows| <= |after| <= |rows| + 1
            && (i < |rows| ==> (LiveAt(after, k, i) <==> LiveAt(rows, k, i) && !(Keyed(r) && IncomingKey(r) == k && !SameValue(rows[i], r))))
            && (LiveAt(after, k, i) && i < |rows| ==> after[i] == rows[i])
            && (LiveAt(after, k, i) && i >= |rows| ==>
                  i == |rows| && after[i] == r && Keyed(r) && IncomingKey(r) == k && forall j | LiveAt(rows, k, j) :: !SameValue(rows[j], r))
            && (Keyed(r) && IncomingKey(r) == k == KeyOf(r) && r.status == Active && (forall j | LiveAt(rows, k, j) :: !SameValue(rows[j], r)) ==>
                  LiveAt(after, k, |rows|))
  {
    hide Trim, IncomingKey, Keyed, CountHits;
    if Keyed(r) {
      HitsExist(rows, r, true);
      var t := TouchAll(rows, r);
      if 0 <= i < |rows| { assert Insert(rows, r)[i] == t[i] == Touched(rows[i], r); }
    }
  }

  lemma InsertTells(rows: seq<FactRow>, r: FactRow, k: FactKey, some: bool, v: string)
    requires (KeyOf(r) == k ==> IncomingKey(r) == k) && AtMostOneLive(rows, k)
    ensures AtMostOneLive(Insert(rows, r), k)
    ensures Tells(rows, k, some, v) && IncomingKey(r) != k ==> Tells(Insert(rows, r), k, some, v)
    ensures Keyed(r) && IncomingKey(r) == k == KeyOf(r) && r.status == Active ==> Tells(Insert(rows, r), k, true, Trim(r.value))
  {
    hide Trim, KeyOf, IncomingKey, Keyed, Insert;
    var after := Insert(rows, r);
    forall i, j | LiveAt(after, k, i) && LiveAt(after, k, j) ensures i == j {
      InsertLive(rows, r, k, i);
      InsertLive(rows, r, k, j);
    }
    if Tells(rows, k, some, v) && IncomingKey(r) != k {
      forall i ensures LiveAt(after, k, i) <==> LiveAt(rows, k, i) { InsertLive(rows, r, k, i); }
      forall i | LiveAt(after, k, i) ensures Trim(after[i].value) == v { InsertLive(rows, r, k, i); }
    }
    if Keyed(r) && IncomingKey(r) == k == KeyOf(r) && r.status == Active {
      forall i | LiveAt(after, k, i) ensures Trim(after[i].value) == Trim(r.value) { InsertLive(rows, r, k, i); }
      if j :| LiveAt(rows, k, j) && SameValue(rows[j], r) {
        InsertLive(rows, r, k, j);
        assert LiveAt(after, k, j);
      } else {
        InsertLive(rows, r, k, |rows|);
        assert LiveAt(after, k, |rows|);
      }
    }
  }

  lemma {:induction false} BatchTells(rows: seq<FactRow>, batch: seq<FactRow>, c: string, some: bool, v: string)
    requires Trim(c) == c && AtMostOneLive(rows, KindKey(c))
    ensures AtMostOneLive(InsertAll(rows, batch), KindKey(c))
    ensures Tells(rows, KindKey(c), some, v) && (forall i | 0 <= i < |batch| :: IncomingKey(batch[i]) != KindKey(c)) ==>
              Tells(InsertAll(rows, batch), KindKey(c), some, v)
  {
    hide Trim, KeyOf, IncomingKey, Insert, AtMostOneLive, Tells, KindKey;
    if batch != [] {
      var n := |batch| - 1;
      BatchTells(rows, batch[..n], c, some, v);
      if KeyOf(batch[n]) == KindKey(c) { FoundIsWritten(batch[n], c); }
      InsertTells(InsertAll(rows, batch[..n]), batch[n], KindKey(c), some, v);
    }
  }

  lemma {:induction false} InsertAllConcat(rows: seq<FactRow>, a: seq<FactRow>, b: seq<FactRow>)
    ensures InsertAll(rows, a + b) == InsertAll(InsertAll(rows, a), b)
  {
    hide Insert;
    if b == [] {
      assert a + b == a;
    } else {
      assert (a + b)[..|a + b| - 1] == a + b[..|b| - 1];
      InsertAllConcat(rows, a, b[..|b| - 1]);
    }
  }

  /** One signal: its own case learns its kind, every other case keeps what it had. */
  lemma SignalTells(rows: seq<FactRow>, s: Signal, c: string, some: bool, v: string)
    requires WellFormed(s) && Trim(c) == c != "" && Tells(rows, KindKey(c), some, v)
    ensures var after := InsertAll(rows, RowsOfSignal(s));
            var own := s.caseId == c && Observed(s);
            Tells(after, KindKey(c), if own then true else some, if own then Trim(s.kind) else v)
  {
    hide Trim, KeyOf, IncomingKey, Insert, Tells, Keyed, InsertAll;
    var mid := InsertAll(rows, s.rows);
    TellsAtMostOne(rows, KindKey(c), some, v);
    BatchTells(rows, s.rows, c, some, v);
    InsertAllSnoc(rows, s.rows, KindRow(s));
    if !Observed(s) {
      NoKind(s, c);
    } else if s.caseId == c {
      KindRowKey(s);
      InsertTells(mid, KindRow(s), KindKey(c), some, v);
    } else {
      OtherKind(s, c);
      if KeyOf(KindRow(s)) == KindKey(c) { FoundIsWritten(KindRow(s), c); }
      InsertTells(mid, KindRow(s), KindKey(c), some, v);
    }
  }

  lemma InsertAllSnoc(rows: seq<FactRow>, batch: seq<FactRow>, r: FactRow)
    ensures InsertAll(rows, batch + [r]) == Insert(InsertAll(rows, batch), r)
  {
    assert (batch + [r])[..|batch|] == batch;
  }

  lemma TellsAtMostOne(rows: seq<FactRow>, k: FactKey, some: bool, v: string)
    requires Tells(rows, k, some, v)
    ensures AtMostOneLive(rows, k)
  {
  }

  lemma NoKind(s: Signal, c: string)
    requires WellFormed(s) && !Observed(s)
    ensures forall i | 0 <= i < |s.rows| :: IncomingKey(s.rows[i]) != KindKey(c)
  {
    hide Trim, Observed;
  }

  lemma OtherKind(s: Signal, c: string)
    requires WellFormed(s) && s.caseId != c
    ensures IncomingKey(KindRow(s)) != KindKey(c) && forall i | 0 <= i < |s.rows| :: IncomingKey(s.rows[i]) != KindKey(c)
  {
    hide Trim;
  }

  lemma {:induction false} KindFollowsLastSignal(ss: seq<Signal>, c: string)
    requires Trim(c) == c != "" && forall i | 0 <= i < |ss| :: WellFormed(ss[i])
    ensures var (some, kind) := LastKind(ss, c); Tells(InsertAll([], RowsOfSignals(ss)), KindKey(c), some, Trim(kind))
  {
    hide Trim, WellFormed, RowsOfSignal, KindKey, Tells, Observed;
    if ss == [] {
      assert Tells([], KindKey(c), false, Trim("")) by { NothingTold(KindKey(c), Trim("")); }
    } else {
      var n := |ss| - 1;
      KindFollowsLastSignal(ss[..n], c);
      InsertAllConcat([], RowsOfSignals(ss[..n]), RowsOfSignal(ss[n]));
      var (some, kind) := LastKind(ss[..n], c);
      SignalTells(InsertAll([], RowsOfSignals(ss[..n])), ss[n], c, some, Trim(kind));
    }
  }

  lemma NothingTold(k: FactKey, v: string)
    ensures Tells([], k, false, v)
  {
  }

  /** And a case without one has none. */
  lemma NoKindWithoutObservation(ss: seq<Signal>, c: string, i: int)
    requires Trim(c) == c != "" && (forall i | 0 <= i < |ss| :: WellFormed(ss[i])) && !LastKind(ss, c).0
    ensures !LiveAt(InsertAll([], RowsOfSignals(ss)), KindKey(c), i)
  {
    hide Trim, RowsOfSignals, InsertAll, WellFormed, LiveAt, LastKind;
    KindFollowsLastSignal(ss, c);
  }

  /** Each case with a signal that carries a raw observation id has exactly one live
      `latest_signal_kind`, and it is the kind of the last such signal. */
  lemma OneLatestKind(ss: seq<Signal>, c: string) returns (w: int)
    requires Trim(c) == c != "" && forall i | 0 <= i < |ss| :: WellFormed(ss[i])
    requires LastKind(ss, c).0
    ensures var rows := InsertAll([], RowsOfSignals(ss));
            && 0 <= w < |rows| && rows[w].status == Active && KeyOf(rows[w]) == KindKey(c)
            && Trim(rows[w].value) == Trim(LastKind(ss, c).1)
            && forall i | 0 <= i < |rows| && rows[i].status == Active && KeyOf(rows[i]) == KindKey(c) :: i == w
  {
    hide Trim, RowsOfSignals, InsertAll, WellFormed;
    KindFollowsLastSignal(ss, c);
    var rows := InsertAll([], RowsOfSignals(ss));
    w :| LiveAt(rows, KindKey(c), w);
    forall i | 0 <= i < |rows| && rows[i].status == Active && KeyOf(rows[i]) == KindKey(c) ensures i == w {
      assert LiveAt(rows, KindKey(c), i);
    }
  }

  // ---- conflicts ------------------------------------------------------------------------------

  predicate AllowedScope(s: string) { s == "case" || s == "customer" || s == "location" || s == "asset" }

  /** A row takes part in conflict detection. */
  predicate Counts(f: FactRow) {
    f.status != Superseded && AllowedScope(Trim(f.scope)) && Trim(f.key) != "" && Trim(f.value) != ""
  }

  function ValuesFor(facts: seq<FactRow>, k: string): set<string> {
    set f | f in facts && Counts(f) && Trim(f.key) == k :: Trim(f.value)
  }

  /** Keys with more than one live value, and those values. */
  method FactConflicts(facts: seq<FactRow>) returns (conflicts: map<string, set<string>>)
    ensures forall k :: k in conflicts <==> |ValuesFor(facts, k)| > 1
    ensures forall k | k in conflicts :: conflicts[k] == ValuesFor(facts, k)
  {
    hide Trim, AllowedScope;
    var grouped: map<string, set<string>> := map[];
    var i := 0;
    while i < |facts|
      invariant 0 <= i <= |facts|
      invariant forall k :: k in grouped <==> ValuesFor(facts[..i], k) != {}
      invariant forall k | k in grouped :: grouped[k] == ValuesFor(facts[..i], k)
    {
      var f := facts[i];
      ValuesForExtends(facts[..i], f);
      assert facts[..i + 1] == facts[..i] + [f];
      if Counts(f) {
        var k := Trim(f.key);
        grouped := grouped[k := (if k in grouped then grouped[k] else {}) + {Trim(f.value)}];
      }
      i := i + 1;
    }
    assert facts[..i] == facts;
    conflicts := map k | k in grouped && |grouped[k]| > 1 :: grouped[k];
  }

  lemma ValuesForExtends(facts: seq<FactRow>, f: FactRow)
    ensures forall k :: ValuesFor(facts + [f], k) == ValuesFor(facts, k) + if Counts(f) && Trim(f.key) == k then {Trim(f.value)} else {}
  {
    assert forall g :: g in facts + [f] <==> g in facts || g == f;
  }

  /** The live rows of one case. */
  function ActiveFacts(rows: seq<FactRow>, c: string): seq<FactRow> {
    if rows == [] then []
    else
      var n := |rows| - 1;
      ActiveFacts(rows[..n], c) + if rows[n].caseId == c && rows[n].status != Superseded then [rows[n]] else []
  }

  lemma {:induction false} ActiveFactsMember(rows: seq<FactRow>, c: string, f: FactRow)
    ensures f in ActiveFacts(rows, c) <==> f in rows && f.caseId == c && f.status != Superseded
  {
    if rows != [] {
      ActiveFactsMember(rows[..|rows| - 1], c, f);
      assert rows == rows[..|rows| - 1] + [rows[|rows| - 1]];
    }
  }

  /** A row that can take part in a conflict: not superseded, in one of four scopes, with key and value. */
  predicate Contends(f: FactRow) {
    f.status != Superseded && Trim(f.scope) in ["case", "customer", "location", "asset"] && Trim(f.key) != "" && Trim(f.value) != ""
  }

  lemma ContendsIs(f: FactRow)
    ensures Contends(f) <==> Counts(f)
  {
    hide Trim;
  }

  /** Two live rows of case `c` disagree about `k` from different allowed scopes. */
  ghost predicate ScopesDisagree(rows: seq<FactRow>, c: string, k: string) {
    exists i, j | 0 <= i < |rows| && 0 <= j < |rows| ::
      && Contends(rows[i]) && Contends(rows[j]) && rows[i].caseId == c && rows[j].caseId == c
      && rows[i].key == k && rows[j].key == k && rows[i].scope != rows[j].scope && Trim(rows[i].value) != Trim(rows[j].value)
  }

  /** Rows a supersession store holds when it is fed stable active rows. */
  ghost predicate Supersessive(rows: seq<FactRow>) {
    OneActive(rows) && forall i | 0 <= i < |rows| :: Stable(rows[i]) && !rows[i].status.Other?
  }

  lemma StableTrims(f: FactRow)
    requires Stable(f) && Counts(f)
    ensures Trim(f.key) == f.key && Trim(f.scope) == f.scope && f.scope != "" && KeyOf(f) == (f.caseId, f.scope, f.key)
  {
    KindKeyTrimmed();
  }

  lemma TwoValues(s: set<string>, a: string, b: string)
    requires a in s && b in s && a != b
    ensures |s| > 1
  {
    assert {a, b} <= s;
    assert |s| == |{a, b}| + |s - {a, b}|;
  }

  lemma Witnesses(s: set<string>) returns (a: string, b: string)
    requires |s| > 1
    ensures a in s && b in s && a != b
  {
    a :| a in s;
    assert |s - {a}| == |s| - 1;
    b :| b in s - {a};
  }

  lemma LiveKeysDiffer(rows: seq<FactRow>, i: int, j: int)
    requires Supersessive(rows) && 0 <= i < |rows| && 0 <= j < |rows| && i != j && Counts(rows[i]) && Counts(rows[j])
    ensures KeyOf(rows[i]) != KeyOf(rows[j])
  {
    hide Trim, KeyOf;
  }

  /** A conflict is reported exactly when two live rows in different scopes disagree: within a scope,
      supersession has already decided. */
  lemma ConflictsComeFromScopes(rows: seq<FactRow>, c: string, k: string)
    requires Supersessive(rows)
    ensures |ValuesFor(ActiveFacts(rows, c), k)| > 1 <==> ScopesDisagree(rows, c, k)
  {
    hide Trim, ActiveFacts, KeyOf, AllowedScope, Contends;
    var vs := ValuesFor(ActiveFacts(rows, c), k);
    if |vs| > 1 {
      var a, b := Witnesses(vs);
      var f :| f in ActiveFacts(rows, c) && Counts(f) && Trim(f.key) == k && Trim(f.value) == a;
      var g :| g in ActiveFacts(rows, c) && Counts(g) && Trim(g.key) == k && Trim(g.value) == b;
      ActiveFactsMember(rows, c, f);
      ActiveFactsMember(rows, c, g);
      var i :| 0 <= i < |rows| && rows[i] == f;
      var j :| 0 <= j < |rows| && rows[j] == g;
      StableTrims(f);
      StableTrims(g);
      LiveKeysDiffer(rows, i, j);
      ContendsIs(f);
      ContendsIs(g);
      assert Contends(rows[i]) && Contends(rows[j]);
    }
    if ScopesDisagree(rows, c, k) {
      var i, j :| 0 <= i < |rows| && 0 <= j < |rows|
        && Contends(rows[i]) && Contends(rows[j]) && rows[i].caseId == c && rows[j].caseId == c
        && rows[i].key == k && rows[j].key == k && rows[i].scope != rows[j].scope && Trim(rows[i].value) != Trim(rows[j].value);
      ContendsIs(rows[i]);
      ContendsIs(rows[j]);
      ActiveFactsMember(rows, c, rows[i]);
      ActiveFactsMember(rows, c, rows[j]);
      StableTrims(rows[i]);
      StableTrims(rows[j]);
      TwoValues(vs, Trim(rows[i].value), Trim(rows[j].value));
    }
  }

  lemma InsertSupersessive(rows: seq<FactRow>, r: FactRow)
    requires Supersessive(rows) && Stable(r) && r.status == Active
    ensures Supersessive(Insert(rows, r))
  {
    hide Trim;
    if Keyed(r) {
      InsertActive(rows, r);
      forall i | 0 <= i < |Insert(rows, r)| ensures Stable(Insert(rows, r)[i]) && !Insert(rows, r)[i].status.Other? {
        if i < |rows| { assert Insert(rows, r)[i] == TouchAll(rows, r)[i] == Touched(rows[i], r); }
      }
    }
  }

  /** Every history fed with stable active rows is of that kind. */
  lemma {:induction false} HistoriesAreSupersessive(batch: seq<FactRow>)
    requires forall i | 0 <= i < |batch| :: Stable(batch[i]) && batch[i].status == Active
    ensures Supersessive(InsertAll([], batch))
  {
    hide Supersessive, Insert;
    if batch == [] {
      assert Supersessive([]) by { EmptySupersessive(); }
    } else {
      HistoriesAreSupersessive(batch[..|batch| - 1]);
      InsertSupersessive(InsertAll([], batch[..|batch| - 1]), batch[|batch| - 1]);
    }
  }

  lemma EmptySupersessive()
    ensures Supersessive([])
  {
  }
}
