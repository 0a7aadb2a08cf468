/** Snapshot version numbers and their signal provenance when a case is rebuilt from
    its journal, including the point at which the fetch limit pins both. */
module SnapshotVersions {
  import StableSort

  /** A stored snapshot row: its version, the signal it came from, and the
      `signal_ids` its evidence pointers list. */
  datatype Snapshot = Snapshot(version: int, signalId: string, signalIds: seq<string>)

  /** The journal and the latest-row fetch both stop here. */
  const JOURNAL_LIMIT: nat := 10000

  function Take<T>(xs: seq<T>, n: nat): seq<T> { if |xs| <= n then xs else xs[..n] }

  function NonEmpty(ids: seq<string>): seq<string> {
    if ids == [] then []
    else NonEmpty(ids[..|ids| - 1]) + if ids[|ids| - 1] == "" then [] else [ids[|ids| - 1]]
  }

  function SignalIdsOf(rows: seq<Snapshot>): seq<string> {
    seq(|rows|, i requires 0 <= i < |rows| => rows[i].signalId)
  }

  // ---- the store and the manager ---------------------------------------------------

  function ByVersion(rows: seq<Snapshot>): seq<Snapshot> { StableSort.SortBy(rows, (s: Snapshot) => s.version) }

  /** Oldest first, cut off at `limit`. */
  function Fetch(rows: seq<Snapshot>, limit: nat): seq<Snapshot> { Take(ByVersion(rows), limit) }

  function Append(rows: seq<Snapshot>, s: Snapshot): seq<Snapshot> { ByVersion(rows + [s]) }

  /** The row `apply_signal` appends, given the fetched earlier ones. */
  function NextSnapshot(prior: seq<Snapshot>, signalId: string): Snapshot {
    Snapshot(if prior == [] then 1 else prior[|prior| - 1].version + 1, signalId, NonEmpty(SignalIdsOf(prior) + [signalId]))
  }

  function ApplySignal(rows: seq<Snapshot>, signalId: string, max: nat): seq<Snapshot> {
    Append(rows, NextSnapshot(Fetch(rows, max), signalId))
  }

  function ApplyAll(ids: seq<string>, max: nat): seq<Snapshot> {
    if ids == [] then [] else ApplySignal(ApplyAll(ids[..|ids| - 1], max), ids[|ids| - 1], max)
  }

  class SnapshotManager {
    var versions: seq<Snapshot>
    const maxVersions: nat

    constructor (maxVersions: nat)
      ensures versions == [] && this.maxVersions == maxVersions
    {
      this.maxVersions := maxVersions;
      versions := [];
    }

    method Apply(signalId: string) returns (s: Snapshot)
      modifies this
      ensures versions == ApplySignal(old(versions), signalId, maxVersions)
      ensures s == NextSnapshot(Fetch(old(versions), maxVersions), signalId)
    {
      var prior := Fetch(versions, maxVersions);
      var version := 1;
      if prior != [] { version := prior[|prior| - 1].version + 1; }
      s := Snapshot(version, signalId, NonEmpty(SignalIdsOf(prior) + [signalId]));
      versions := Append(versions, s);
    }
  }

  /** `rebuild_from_signal_journal`: replays the fetched signals into a fresh store and returns the
      latest snapshot it can fetch; no signals, no snapshot. */
  method RebuildFromSignalJournal(ids: seq<string>, maxVersions: nat) returns (found: bool, latest: Snapshot)
    ensures found <==> ids != []
    ensures found ==> latest == Expected(ids, Min(|ids|, JOURNAL_LIMIT) - 1, maxVersions)
  {
    found, latest := false, Snapshot(0, "", []);
    if ids == [] { return; }
    var manager := new SnapshotManager(maxVersions);
    var n := 0;
    while n < |ids|
      invariant 0 <= n <= |ids| && manager.maxVersions == maxVersions
      invariant manager.versions == ApplyAll(ids[..n], maxVersions)
    {
      assert ids[..n + 1][..n] == ids[..n];
      var s := manager.Apply(ids[n]);
      n := n + 1;
    }
    assert ids[..n] == ids;
    Prefixed(ids, maxVersions);
    var rows := Fetch(manager.versions, JOURNAL_LIMIT);
    found, latest := true, rows[|rows| - 1];
  }

  // ---- the closed form -----------------------------------------------------------------

  function Min(a: int, b: int): int { if a <= b then a else b }

  /** The snapshot of signal `i` (from zero): numbered i+1 until the limit pins it at max+1, listing
      every earlier signal until the limit cuts the list at the first `max`. */
  function Expected(ids: seq<string>, i: int, max: nat): Snapshot
    requires 0 <= i < |ids|
  {
    Snapshot(Min(i, max) + 1, ids[i], NonEmpty(ids[..Min(i, max)] + [ids[i]]))
  }

  function AllExpected(ids: seq<string>, max: nat): seq<Snapshot> {
    seq(|ids|, i requires 0 <= i < |ids| => Expected(ids, i, max))
  }

  lemma ExpectedPrefix(ids: seq<string>, n: int, max: nat)
    requires 0 <= n <= |ids|
    ensures AllExpected(ids, max)[..n] == AllExpected(ids[..n], max)
  {
    forall i | 0 <= i < n ensures AllExpected(ids, max)[i] == AllExpected(ids[..n], max)[i] {
      assert ids[..n][..Min(i, max)] == ids[..Min(i, max)];
    }
  }

  lemma ExpectedSorted(ids: seq<string>, max: nat)
    ensures ByVersion(AllExpected(ids, max)) == AllExpected(ids, max)
  {
    StableSort.SortByIdentity(AllExpected(ids, max), (s: Snapshot) => s.version);
  }

  /** What the manager fetches after `n` signals, and what it makes of it. */
  lemma NextIsExpected(ids: seq<string>, max: nat)
    requires ids != []
    ensures var n := |ids| - 1;
            NextSnapshot(Take(AllExpected(ids[..n], max), max), ids[n]) == Expected(ids, n, max)
  {
    hide NonEmpty;
    var n := |ids| - 1;
    var prior := Take(AllExpected(ids[..n], max), max);
    assert |prior| == Min(n, max);
    assert SignalIdsOf(prior) == ids[..Min(n, max)];
  }

  lemma ExpectedSnoc(ids: seq<string>, max: nat)
    requires ids != []
    ensures AllExpected(ids, max) == AllExpected(ids[..|ids| - 1], max) + [Expected(ids, |ids| - 1, max)]
  {
    hide Expected;
    ExpectedPrefix(ids, |ids| - 1, max);
    var e := AllExpected(ids, max);
    assert e == e[..|ids| - 1] + [e[|ids| - 1]];
  }

  /** For every journal and every limit, the stored rows are the closed form. */
  lemma {:induction false} VersionsAre(ids: seq<string>, max: nat)
    ensures ApplyAll(ids, max) == AllExpected(ids, max)
  {
    hide AllExpected, Expected, NextSnapshot, ByVersion;
    if ids == [] {
      assert AllExpected(ids, max) == [] by { NoneExpected(max); }
    } else {
      var n := |ids| - 1;
      VersionsAre(ids[..n], max);
      ExpectedSorted(ids[..n], max);
      ExpectedSorted(ids, max);
      ExpectedSnoc(ids, max);
      NextIsExpected(ids, max);
    }
  }

  lemma NoneExpected(max: nat)
    ensures AllExpected([], max) == []
  {
  }

  lemma Prefixed(ids: seq<string>, max: nat)
    ensures |ApplyAll(ids, max)| == |ids|
    ensures Fetch(ApplyAll(ids, max), JOURNAL_LIMIT) == Take(AllExpected(ids, max), JOURNAL_LIMIT)
  {
    VersionsAre(ids, max);
    ExpectedSorted(ids, max);
  }

  /** On any stored rows that fit the limit, in any order, the new number is one more than the greatest. */
  lemma NumberFollowsNewest(rows: seq<Snapshot>, id: string, max: nat)
    requires rows != [] && |rows| <= max
    ensures var next := NextSnapshot(Fetch(rows, max), id);
            && next.signalId == id && (forall r | r in rows :: r.version < next.version) && exists r :: r in rows && r.version + 1 == next.version
  {
    hide StableSort.SortBy, NonEmpty;
    var key := (s: Snapshot) => s.version;
    StableSort.SortBySorts(rows, key);
    var sorted := ByVersion(rows);
    var last := sorted[|sorted| - 1];
    forall r | r in rows ensures r.version <= last.version {
      StableSort.SortByMembers(rows, key, r);
      var i :| 0 <= i < |sorted| && sorted[i] == r;
      assert i < |sorted| - 1 ==> key(sorted[i]) <= key(last);
    }
    StableSort.SortByMembers(rows, key, last);
  }

  lemma {:induction false} NonEmptyMembers(ids: seq<string>, x: string)
    ensures multiset(NonEmpty(ids))[x] == if x == "" then 0 else multiset(ids)[x]
  {
    if ids != [] {
      var n := |ids| - 1;
      NonEmptyMembers(ids[..n], x);
      assert ids == ids[..n] + [ids[n]];
    }
  }

  /** For any journal: evidence pointers list no blank id, and otherwise each earlier signal within the
      limit, and the signal itself, as often as it came. */
  lemma PointersExact(ids: seq<string>, n: int, max: nat, x: string)
    requires 0 <= n < |ids|
    ensures |ApplyAll(ids, max)| == |ids|
    ensures multiset(ApplyAll(ids, max)[n].signalIds)[x] == if x == "" then 0 else multiset(ids[..Min(n, max)] + [ids[n]])[x]
  {
    hide ApplyAll, NonEmpty;
    VersionsAre(ids, max);
    NonEmptyMembers(ids[..Min(n, max)] + [ids[n]], x);
  }

  lemma {:induction false} NonEmptyIdentity(ids: seq<string>)
    requires forall i | 0 <= i < |ids| :: ids[i] != ""
    ensures NonEmpty(ids) == ids
  {
    if ids != [] { NonEmptyIdentity(ids[..|ids| - 1]); }
  }

  lemma ExpectedIds(ids: seq<string>, n: int, max: nat)
    requires 1 <= n <= |ids| && forall i | 0 <= i < |ids| :: ids[i] != ""
    ensures Expected(ids, n - 1, max).signalIds == ids[..Min(n - 1, max)] + [ids[n - 1]]
  {
    NonEmptyIdentity(ids[..Min(n - 1, max)] + [ids[n - 1]]);
  }

  /** The tight bound: the n-th snapshot is numbered n and lists all n signals exactly while
      n <= max + 1; from there on the number stays at max + 1 and earlier signals drop out. */
  lemma NumberedAndCompleteIff(ids: seq<string>, n: int, max: nat)
    requires 1 <= n <= |ids| && forall i | 0 <= i < |ids| :: ids[i] != ""
    ensures |ApplyAll(ids, max)| == |ids|
    ensures var s := ApplyAll(ids, max)[n - 1];
            && s.signalId == ids[n - 1]
            && (s.version == n <==> n <= max + 1)
            && (s.signalIds == ids[..n] <==> n <= max + 1)
            && (n > max ==> s.version == max + 1 && |s.signalIds| == max + 1)
  {
    hide ApplyAll, NonEmpty;
    VersionsAre(ids, max);
    ExpectedIds(ids, n, max);
    assert ids[..n - 1] + [ids[n - 1]] == ids[..n];
  }
}
