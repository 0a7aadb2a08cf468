/** Conflict rows of the context pack: generated rows are merged into existing ones, then
    one row per predicate and value set is kept, the one with the richest evidence. */
module ConflictDedupe {
  import opened OrderedDict
  import opened Text
  import StableSort

  datatype Row = Row(factKey: string, predicateName: string, values: seq<string>, refs: seq<string>, body: string)

  /** Sorted value tuples are compared as multisets; sorting is a canonical form for those. */
  type Key = (string, multiset<string>)

  function Pred(r: Row): string { if r.factKey != "" then r.factKey else r.predicateName }

  /** The key the merge compares: as spelled. */
  function SpelledKey(r: Row): Key { (Pred(r), multiset(r.values)) }

  /** The non-blank values, normalised for comparison. */
  function NormValues(vs: seq<string>, norm: string -> string): seq<string> {
    if vs == [] then []
    else
      var n := |vs| - 1;
      if Trim(vs[n]) == "" then NormValues(vs[..n], norm) else NormValues(vs[..n], norm) + [norm(vs[n])]
  }

  /** The key the de-duplication groups by. */
  function KeyOf(r: Row, norm: string -> string): Key { (Trim(Pred(r)), multiset(NormValues(r.values, norm))) }

  /** Rows with neither a predicate nor a value are not grouped. */
  predicate Loose(r: Row, norm: string -> string) { KeyOf(r, norm) == ("", multiset{}) }

  // ---- merge --------------------------------------------------------------------------

  function FindSpelled(rows: seq<Row>, k: Key): (i: int)
    ensures -1 <= i < |rows|
    ensures i >= 0 ==> SpelledKey(rows[i]) == k
  {
    if rows == [] then -1
    else if SpelledKey(rows[0]) == k then 0
    else var i := FindSpelled(rows[1..], k); if i < 0 then -1 else i + 1
  }

  function MergeOne(merged: seq<Row>, r: Row): seq<Row> {
    if Pred(r) == "" then merged + [r]
    else
      var i := FindSpelled(merged, SpelledKey(r));
      if i < 0 then merged + [r] else if |r.refs| > |merged[i].refs| then merged[i := r] else merged
  }

  function MergeRows(existing: seq<Row>, generated: seq<Row>): seq<Row> {
    if generated == [] then existing
    else MergeOne(MergeRows(existing, generated[..|generated| - 1]), generated[|generated| - 1])
  }

  method MergeConflictsDeterministic(existing: seq<Row>, generated: seq<Row>) returns (merged: seq<Row>)
    ensures merged == MergeRows(existing, generated)
  {
    merged := existing;
    var n := 0;
    while n < |generated|
      invariant 0 <= n <= |generated|
      invariant merged == MergeRows(existing, generated[..n])
    {
      var r := generated[n];
      assert generated[..n + 1][..n] == generated[..n];
      n := n + 1;
      if Pred(r) == "" {
        merged := merged + [r];
        continue;
      }
      var dup := FindSpelled(merged, SpelledKey(r));
      if dup >= 0 {
        if |r.refs| > |merged[dup].refs| { merged := merged[dup := r]; }
        continue;
      }
      merged := merged + [r];
    }
    assert generated[..n] == generated;
  }

  // ---- de-duplicate ---------------------------------------------------------------------

  function Buckets(rows: seq<Row>, norm: string -> string): Dict<Key, seq<Row>> {
    if rows == [] then []
    else
      var r := rows[|rows| - 1];
      var d := Buckets(rows[..|rows| - 1], norm);
      if Loose(r, norm) then d
      else
        var k := KeyOf(r, norm);
        var g := Get(d, k);
        Put(d, k, (if g.Some? then g.value else []) + [r])
  }

  function LooseRows(rows: seq<Row>, norm: string -> string): seq<Row> {
    if rows == [] then []
    else if Loose(rows[|rows| - 1], norm) then LooseRows(rows[..|rows| - 1], norm) + [rows[|rows| - 1]]
    else LooseRows(rows[..|rows| - 1], norm)
  }

  const RICHEST_FIRST := (r: Row) => 0 - |r.refs|

  /** The row with most references, the earliest of those. */
  function Best(group: seq<Row>): Row
    requires group != []
  {
    StableSort.SortBySorts(group, RICHEST_FIRST);
    StableSort.SortBy(group, RICHEST_FIRST)[0]
  }

  predicate NoEmptyGroup(d: Dict<Key, seq<Row>>) { forall i | 0 <= i < |d| :: d[i].1 != [] }

  function BestOfEach(d: Dict<Key, seq<Row>>): seq<Row>
    requires NoEmptyGroup(d)
  {
    seq(|d|, i requires 0 <= i < |d| => Best(d[i].1))
  }

  function Dedupe(rows: seq<Row>, norm: string -> string): seq<Row> {
    BucketsShape(rows, norm);
    BestOfEach(Buckets(rows, norm)) + LooseRows(rows, norm)
  }

  method GroupRows(rows: seq<Row>, norm: string -> string) returns (buckets: Dict<Key, seq<Row>>, loose: seq<Row>)
    ensures buckets == Buckets(rows, norm) && loose == LooseRows(rows, norm)
  {
    hide KeyOf, Get, Put;
    buckets, loose := [], [];
    var i := 0;
    while i < |rows|
      invariant 0 <= i <= |rows|
      invariant buckets == Buckets(rows[..i], norm) && loose == LooseRows(rows[..i], norm)
    {
      var r := rows[i];
      assert rows[..i + 1][..i] == rows[..i];
      if Loose(r, norm) {
        loose := loose + [r];
      } else {
        var k := KeyOf(r, norm);
        var g := Get(buckets, k);
        buckets := Put(buckets, k, (if g.Some? then g.value else []) + [r]);
      }
      i := i + 1;
    }
    assert rows[..i] == rows;
  }

  method DedupeConflictsPreferEvidence(rows: seq<Row>, norm: string -> string) returns (out: seq<Row>)
    ensures out == Dedupe(rows, norm)
  {
    hide Buckets, LooseRows, KeyOf, Best;
    var buckets, loose := GroupRows(rows, norm);
    BucketsShape(rows, norm);
    out := [];
    var i := 0;
    while i < |buckets|
      invariant 0 <= i <= |buckets|
      invariant out == BestOfEach(buckets)[..i]
    {
      out := out + [Best(buckets[i].1)];
      i := i + 1;
    }
    out := out + loose;
  }

  // ---- groups ------------------------------------------------------------------------------

  ghost predicate GroupsRows(d: Dict<Key, seq<Row>>, rows: seq<Row>, norm: string -> string) {
    && Distinct(d) && NoEmptyGroup(d)
    && (forall i | 0 <= i < |d| :: d[i].0 != ("", multiset{}))
    && (forall i, r | 0 <= i < |d| && r in d[i].1 :: r in rows && KeyOf(r, norm) == d[i].0)
  }

  ghost predicate Grouped(d: Dict<Key, seq<Row>>, r: Row, norm: string -> string) {
    exists i | 0 <= i < |d| :: d[i].0 == KeyOf(r, norm) && r in d[i].1
  }

  lemma NothingGrouped(norm: string -> string)
    ensures GroupsRows([], [], norm)
  {
  }

  lemma GroupsMore(d: Dict<Key, seq<Row>>, rows: seq<Row>, r: Row, norm: string -> string)
    requires GroupsRows(d, rows, norm)
    ensures GroupsRows(d, rows + [r], norm)
  {
    hide KeyOf;
  }

  /** Buckets hold only rows of their key, and nothing is grouped that was not given. */
  lemma {:induction false} BucketsShape(rows: seq<Row>, norm: string -> string)
    ensures GroupsRows(Buckets(rows, norm), rows, norm)
  {
    hide KeyOf, Get, Put, GroupsRows, Loose;
    if rows == [] {
      assert GroupsRows([], [], norm) by { NothingGrouped(norm); }
    } else {
      var n := |rows| - 1;
      BucketsShape(rows[..n], norm);
      assert rows == rows[..n] + [rows[n]];
      var d := Buckets(rows[..n], norm);
      if Loose(rows[n], norm) { GroupsMore(d, rows[..n], rows[n], norm); } else { PutGroup(d, rows[..n], rows[n], norm); }
    }
  }

  lemma PutGroup(d: Dict<Key, seq<Row>>, rows: seq<Row>, r: Row, norm: string -> string)
    requires GroupsRows(d, rows, norm) && !Loose(r, norm)
    ensures var g := Get(d, KeyOf(r, norm));
            GroupsRows(Put(d, KeyOf(r, norm), (if g.Some? then g.value else []) + [r]), rows + [r], norm)
  {
    hide KeyOf, Find, Put;
    var k := KeyOf(r, norm);
    var g := Get(d, k);
    var group := (if g.Some? then g.value else []) + [r];
    PutShape(d, k, group);
    if g.Some? {
      var w :| 0 <= w < |d| && d[w] == (k, g.value);
    }
  }

  /** Every keyed row is in its bucket. */
  lemma {:induction false} KeyedRowsGrouped(rows: seq<Row>, norm: string -> string, r: Row)
    requires r in rows && !Loose(r, norm)
    ensures Grouped(Buckets(rows, norm), r, norm)
  {
    hide KeyOf;
    var n := |rows| - 1;
    assert rows == rows[..n] + [rows[n]];
    BucketsShape(rows[..n], norm);
    var d := Buckets(rows[..n], norm);
    if r in rows[..n] {
      KeyedRowsGrouped(rows[..n], norm, r);
      if !Loose(rows[n], norm) { PutKeepsGrouped(d, rows[n], r, norm); }
    } else {
      PutGroups(d, r, norm);
    }
  }

  lemma PutKeepsGrouped(d: Dict<Key, seq<Row>>, x: Row, r: Row, norm: string -> string)
    requires Distinct(d) && Grouped(d, r, norm)
    ensures var g := Get(d, KeyOf(x, norm)); Grouped(Put(d, KeyOf(x, norm), (if g.Some? then g.value else []) + [x]), r, norm)
  {
    hide KeyOf;
    var k := KeyOf(x, norm);
    var g := Get(d, k);
    var group := (if g.Some? then g.value else []) + [x];
    var i :| 0 <= i < |d| && d[i].0 == KeyOf(r, norm) && r in d[i].1;
    PutShape(d, k, group);
    GetUnique(d, i);
    assert Put(d, k, group)[i].0 == KeyOf(r, norm);
  }

  lemma PutGroups(d: Dict<Key, seq<Row>>, r: Row, norm: string -> string)
    requires Distinct(d)
    ensures var g := Get(d, KeyOf(r, norm)); Grouped(Put(d, KeyOf(r, norm), (if g.Some? then g.value else []) + [r]), r, norm)
  {
    hide KeyOf;
    var k := KeyOf(r, norm);
    var g := Get(d, k);
    var group := (if g.Some? then g.value else []) + [r];
    PutShape(d, k, group);
    var p := Put(d, k, group);
    if g.Some? {
      var w :| 0 <= w < |d| && d[w] == (k, g.value);
      assert p[w] == (k, group);
    } else {
      assert p[|d|] == (k, group);
    }
  }

  lemma BestIsRichest(group: seq<Row>)
    requires group != []
    ensures Best(group) in group && forall r | r in group :: |r.refs| <= |Best(group).refs|
  {
    StableSort.SortBySorts(group, RICHEST_FIRST);
    var s := StableSort.SortBy(group, RICHEST_FIRST);
    StableSort.SortByMembers(group, RICHEST_FIRST, s[0]);
    forall r | r in group ensures |r.refs| <= |s[0].refs| {
      StableSort.SortByMembers(group, RICHEST_FIRST, r);
      var i :| 0 <= i < |s| && s[i] == r;
      assert RICHEST_FIRST(s[0]) <= RICHEST_FIRST(s[i]) || i == 0;
    }
  }

  lemma {:induction false} LooseRowsMember(rows: seq<Row>, norm: string -> string, r: Row)
    ensures r in LooseRows(rows, norm) <==> r in rows && Loose(r, norm)
  {
    hide KeyOf;
    if rows != [] {
      LooseRowsMember(rows[..|rows| - 1], norm, r);
      assert rows == rows[..|rows| - 1] + [rows[|rows| - 1]];
    }
  }

  // ---- what de-duplication guarantees ----------------------------------------------------------

  /** `m` stands for `r`: same normalised key, at least as much evidence. */
  ghost predicate StandsFor(m: Row, r: Row, norm: string -> string) {
    KeyOf(m, norm) == KeyOf(r, norm) && |m.refs| >= |r.refs|
  }

  lemma DedupeFrom(rows: seq<Row>, norm: string -> string, i: int)
    requires 0 <= i < |Buckets(rows, norm)|
    ensures |Dedupe(rows, norm)| >= |Buckets(rows, norm)|
    ensures var m := Dedupe(rows, norm)[i];
            && m in rows && KeyOf(m, norm) == Buckets(rows, norm)[i].0 && !Loose(m, norm)
            && (forall r | r in Buckets(rows, norm)[i].1 :: |r.refs| <= |m.refs|)
  {
    hide KeyOf;
    BucketsShape(rows, norm);
    BestIsRichest(Buckets(rows, norm)[i].1);
  }

  /** Nothing is invented. */
  lemma DedupeInventsNothing(rows: seq<Row>, norm: string -> string, m: Row)
    requires m in Dedupe(rows, norm)
    ensures m in rows
  {
    hide KeyOf, Buckets;
    BucketsShape(rows, norm);
    var out, b := Dedupe(rows, norm), Buckets(rows, norm);
    var i :| 0 <= i < |out| && out[i] == m;
    if i < |b| { DedupeFrom(rows, norm, i); } else { assert m == LooseRows(rows, norm)[i - |b|]; LooseRowsMember(rows, norm, m); }
  }

  /** Every keyed row is represented. */
  lemma DedupeLosesNothing(rows: seq<Row>, norm: string -> string, r: Row) returns (m: Row)
    requires r in rows && !Loose(r, norm)
    ensures m in Dedupe(rows, norm) && StandsFor(m, r, norm)
  {
    hide KeyOf;
    KeyedRowsGrouped(rows, norm, r);
    var b := Buckets(rows, norm);
    var i :| 0 <= i < |b| && b[i].0 == KeyOf(r, norm) && r in b[i].1;
    DedupeFrom(rows, norm, i);
    m := Dedupe(rows, norm)[i];
  }

  /** Every key appears at most once in the result. */
  lemma DedupeKeysOnce(rows: seq<Row>, norm: string -> string, i: int, j: int)
    requires 0 <= i < j < |Dedupe(rows, norm)| && !Loose(Dedupe(rows, norm)[i], norm)
    ensures KeyOf(Dedupe(rows, norm)[i], norm) != KeyOf(Dedupe(rows, norm)[j], norm)
  {
    hide KeyOf;
    BucketsShape(rows, norm);
    var out, b, l := Dedupe(rows, norm), Buckets(rows, norm), LooseRows(rows, norm);
    if i < |b| {
      DedupeFrom(rows, norm, i);
      if j < |b| { DedupeFrom(rows, norm, j); } else { assert out[j] == l[j - |b|]; LooseRowsMember(rows, norm, out[j]); }
    } else {
      assert out[i] == l[i - |b|];
      LooseRowsMember(rows, norm, out[i]);
    }
  }

  /** The docstring's promise: one keyed row per predicate. */
  ghost predicate OnePerPredicate(rows: seq<Row>, norm: string -> string) {
    forall i, j | 0 <= i < j < |rows| && !Loose(rows[i], norm) && !Loose(rows[j], norm) :: KeyOf(rows[i], norm).0 != KeyOf(rows[j], norm).0
  }

  /** Keyed rows of one predicate have one set of values. */
  ghost predicate PredicatesAgree(rows: seq<Row>, norm: string -> string) {
    forall r, t | r in rows && t in rows && !Loose(r, norm) && !Loose(t, norm) && KeyOf(r, norm).0 == KeyOf(t, norm).0 :: KeyOf(r, norm) == KeyOf(t, norm)
  }

  /** The promise is kept exactly when no two rows of a predicate differ in their values. */
  lemma OneRowPerPredicateIff(rows: seq<Row>, norm: string -> string)
    ensures OnePerPredicate(Dedupe(rows, norm), norm) <==> PredicatesAgree(rows, norm)
  {
    hide KeyOf, Dedupe, Loose;
    var out := Dedupe(rows, norm);
    if PredicatesAgree(rows, norm) {
      forall i, j | 0 <= i < j < |out| && !Loose(out[i], norm) && !Loose(out[j], norm) ensures KeyOf(out[i], norm).0 != KeyOf(out[j], norm).0 {
        DedupeInventsNothing(rows, norm, out[i]);
        DedupeInventsNothing(rows, norm, out[j]);
        DedupeKeysOnce(rows, norm, i, j);
      }
    }
    if OnePerPredicate(out, norm) {
      forall r, t | r in rows && t in rows && !Loose(r, norm) && !Loose(t, norm) && KeyOf(r, norm).0 == KeyOf(t, norm).0
        ensures KeyOf(r, norm) == KeyOf(t, norm)
      {
        var m := DedupeLosesNothing(rows, norm, r);
        var q := DedupeLosesNothing(rows, norm, t);
        LooseByKey(m, r, norm);
        LooseByKey(q, t, norm);
        var i :| 0 <= i < |out| && out[i] == m;
        var j :| 0 <= j < |out| && out[j] == q;
        assert i == j;
      }
    }
  }

  lemma LooseByKey(a: Row, b: Row, norm: string -> string)
    requires KeyOf(a, norm) == KeyOf(b, norm)
    ensures Loose(a, norm) <==> Loose(b, norm)
  {
  }

  /** It fails on any two rows of one predicate with different values: both stay. */
  lemma TwoValueSetsTwoRows(r: Row, t: Row, norm: string -> string)
    requires !Loose(r, norm) && !Loose(t, norm) && KeyOf(r, norm).0 == KeyOf(t, norm).0 && KeyOf(r, norm) != KeyOf(t, norm)
    ensures !OnePerPredicate(Dedupe([r, t], norm), norm)
  {
    hide KeyOf, Dedupe, Loose;
    OneRowPerPredicateIff([r, t], norm);
    assert r in [r, t] && t in [r, t];
  }

  /** A list with distinct keyed rows first and loose rows last is its own de-duplication. */
  lemma {:induction false} BucketsOfDistinct(rows: seq<Row>, norm: string -> string)
    requires forall i | 0 <= i < |rows| :: !Loose(rows[i], norm)
    requires forall i, j | 0 <= i < j < |rows| :: KeyOf(rows[i], norm) != KeyOf(rows[j], norm)
    ensures |Buckets(rows, norm)| == |rows|
    ensures forall i | 0 <= i < |rows| :: Buckets(rows, norm)[i] == (KeyOf(rows[i], norm), [rows[i]])
    ensures LooseRows(rows, norm) == []
  {
    hide KeyOf;
    if rows != [] {
      var n := |rows| - 1;
      BucketsOfDistinct(rows[..n], norm);
      var d := Buckets(rows[..n], norm);
      BucketsShape(rows[..n], norm);
      var k := KeyOf(rows[n], norm);
      assert !HasKey(d, k);
      PutShape(d, k, [rows[n]]);
      assert [] + [rows[n]] == [rows[n]];
      assert Buckets(rows, norm) == d + [(k, [rows[n]])];
    }
  }

  lemma {:induction false} LooseTail(front: seq<Row>, tail: seq<Row>, norm: string -> string)
    requires forall i | 0 <= i < |tail| :: Loose(tail[i], norm)
    ensures Buckets(front + tail, norm) == Buckets(front, norm)
    ensures LooseRows(front + tail, norm) == LooseRows(front, norm) + tail
  {
    hide KeyOf;
    var all := front + tail;
    if tail == [] {
      assert all == front;
    } else {
      var n := |tail| - 1;
      assert all[..|all| - 1] == front + tail[..n] && all[|all| - 1] == tail[n];
      LooseTail(front, tail[..n], norm);
      assert LooseRows(front, norm) + tail == (LooseRows(front, norm) + tail[..n]) + [tail[n]];
    }
  }

  /** De-duplicating twice is de-duplicating once. */
  lemma DedupeIdempotent(rows: seq<Row>, norm: string -> string)
    ensures Dedupe(Dedupe(rows, norm), norm) == Dedupe(rows, norm)
  {
    hide KeyOf;
    BucketsShape(rows, norm);
    var out, l := Dedupe(rows, norm), LooseRows(rows, norm);
    var n := |Buckets(rows, norm)|;
    var front := out[..n];
    assert out == front + l;
    forall i | 0 <= i < n ensures !Loose(front[i], norm) { DedupeFrom(rows, norm, i); }
    forall i, j | 0 <= i < j < n ensures KeyOf(front[i], norm) != KeyOf(front[j], norm) {
      DedupeFrom(rows, norm, i);
      DedupeKeysOnce(rows, norm, i, j);
    }
    forall i | 0 <= i < |l| ensures Loose(l[i], norm) { LooseRowsMember(rows, norm, l[i]); }
    BucketsOfDistinct(front, norm);
    LooseTail(front, l, norm);
    BucketsShape(out, norm);
    BestOfSingletons(Buckets(out, norm), front);
    assert [] + l == l;
  }

  lemma BestOfSingletons(d: Dict<Key, seq<Row>>, rows: seq<Row>)
    requires |d| == |rows| && forall i | 0 <= i < |d| :: d[i].1 == [rows[i]]
    ensures NoEmptyGroup(d) && BestOfEach(d) == rows
  {
    forall i | 0 <= i < |d| ensures Best(d[i].1) == rows[i] { BestIsRichest(d[i].1); }
  }

  // ---- merge, then de-duplicate ------------------------------------------------------------------

  lemma {:induction false} NormValuesSplit(a: seq<string>, b: seq<string>, norm: string -> string)
    ensures NormValues(a + b, norm) == NormValues(a, norm) + NormValues(b, norm)
  {
    hide Trim;
    if b == [] {
      assert a + b == a;
    } else {
      assert (a + b)[..|a + b| - 1] == a + b[..|b| - 1];
      NormValuesSplit(a, b[..|b| - 1], norm);
    }
  }

  /** Taking one value out takes its normalised form out. */
  lemma NormRemove(b: seq<string>, i: int, norm: string -> string)
    requires 0 <= i < |b|
    ensures multiset(NormValues(b, norm)) == multiset(NormValues(b[..i] + b[i + 1..], norm)) + multiset(NormValues([b[i]], norm))
  {
    hide NormValues;
    assert b == b[..i] + ([b[i]] + b[i + 1..]);
    NormValuesSplit(b[..i], [b[i]] + b[i + 1..], norm);
    NormValuesSplit([b[i]], b[i + 1..], norm);
    NormValuesSplit(b[..i], b[i + 1..], norm);
  }

  lemma RemoveAt(b: seq<string>, i: int)
    requires 0 <= i < |b|
    ensures multiset(b[..i] + b[i + 1..]) == multiset(b) - multiset{b[i]}
  {
    assert b == b[..i] + [b[i]] + b[i + 1..];
  }

  /** Reordering the values does not change the normalised multiset. */
  lemma {:induction false} NormValuesOrderless(a: seq<string>, b: seq<string>, norm: string -> string)
    requires multiset(a) == multiset(b)
    ensures multiset(NormValues(a, norm)) == multiset(NormValues(b, norm))
  {
    hide NormValues;
    if a == [] {
      assert b == [] by { assert |multiset(b)| == 0; }
    } else {
      var n := |a| - 1;
      assert a[n] in multiset(b) && a[n] in b;
      var i :| 0 <= i < |b| && b[i] == a[n];
      RemoveAt(a, n);
      RemoveAt(b, i);
      assert a[n + 1..] == [] && a[..n] + [] == a[..n];
      NormRemove(a, n, norm);
      NormRemove(b, i, norm);
      NormValuesOrderless(a[..n], b[..i] + b[i + 1..], norm);
    }
  }

  /** Rows the merge identifies, the de-duplication identifies too. */
  lemma SameSpellingSameKey(a: Row, b: Row, norm: string -> string)
    requires SpelledKey(a) == SpelledKey(b)
    ensures KeyOf(a, norm) == KeyOf(b, norm)
  {
    NormValuesOrderless(a.values, b.values, norm);
  }

  ghost predicate Represented(rows: seq<Row>, r: Row, norm: string -> string) {
    exists m :: m in rows && StandsFor(m, r, norm)
  }

  lemma MergeOneKeeps(merged: seq<Row>, x: Row, r: Row, norm: string -> string)
    ensures Represented(merged, r, norm) ==> Represented(MergeOne(merged, x), r, norm)
    ensures Represented(MergeOne(merged, x), x, norm)
    ensures forall m | m in MergeOne(merged, x) :: m in merged || m == x
  {
    hide KeyOf;
    var after := MergeOne(merged, x);
    if Represented(merged, r, norm) {
      var m :| m in merged && StandsFor(m, r, norm);
      var i := FindSpelled(merged, SpelledKey(x));
      var j :| 0 <= j < |merged| && merged[j] == m;
      if Pred(x) != "" && j == i && |x.refs| > |m.refs| {
        SameSpellingSameKey(m, x, norm);
        assert after[i] == x && x in after && StandsFor(x, r, norm);
      } else {
        assert after[j] == m;
      }
    }
    var i := FindSpelled(merged, SpelledKey(x));
    if Pred(x) == "" || i < 0 {
      assert after[|merged|] == x && x in after && StandsFor(x, x, norm);
    } else {
      SameSpellingSameKey(merged[i], x, norm);
      assert after[i] in after && StandsFor(after[i], x, norm);
    }
  }

  /** The merge keeps a representative of every existing and every generated row, and invents none. */
  lemma {:induction false} MergeLosesNothing(existing: seq<Row>, generated: seq<Row>, r: Row, norm: string -> string)
    ensures r in existing || r in generated ==> Represented(MergeRows(existing, generated), r, norm)
    ensures forall m | m in MergeRows(existing, generated) :: m in existing || m in generated
  {
    hide StandsFor;
    if generated == [] {
      if r in existing { assert StandsFor(r, r, norm) by { StandsForItself(r, norm); } }
    } else {
      var n := |generated| - 1;
      assert generated == generated[..n] + [generated[n]];
      MergeLosesNothing(existing, generated[..n], r, norm);
      MergeOneKeeps(MergeRows(existing, generated[..n]), generated[n], r, norm);
    }
  }

  lemma StandsForItself(r: Row, norm: string -> string)
    ensures StandsFor(r, r, norm)
  {
  }

  /** Merge then de-duplicate: every predicate and value set among existing and generated rows is in
      the result, by a given row with at least the evidence of each contributor. */
  lemma MergeThenDedupe(existing: seq<Row>, generated: seq<Row>, norm: string -> string, r: Row) returns (m: Row)
    requires (r in existing || r in generated) && !Loose(r, norm)
    ensures m in Dedupe(MergeRows(existing, generated), norm) && StandsFor(m, r, norm)
    ensures m in existing || m in generated
  {
    hide KeyOf, Dedupe;
    MergeLosesNothing(existing, generated, r, norm);
    var rows := MergeRows(existing, generated);
    var w :| w in rows && StandsFor(w, r, norm);
    m := DedupeLosesNothing(rows, norm, w);
    DedupeInventsNothing(rows, norm, m);
  }

  // ---- where rows stand ----------------------------------------------------------------------------

  /** The first row with a spelled key is found. */
  lemma {:induction false} FindSpelledIs(rows: seq<Row>, k: Key)
    ensures FindSpelled(rows, k) < 0 ==> forall i | 0 <= i < |rows| :: SpelledKey(rows[i]) != k
    ensures FindSpelled(rows, k) >= 0 ==> forall i | 0 <= i < FindSpelled(rows, k) :: SpelledKey(rows[i]) != k
  {
    hide SpelledKey;
    if rows != [] && SpelledKey(rows[0]) != k {
      FindSpelledIs(rows[1..], k);
      assert forall i | 0 < i < |rows| :: rows[i] == rows[1..][i - 1];
    }
  }

  /** Existing rows keep their place and their spelled key, and give way only to a generated row with
      strictly more references. */
  lemma {:induction false} MergeKeepsPlaces(existing: seq<Row>, generated: seq<Row>, i: int)
    requires 0 <= i < |existing|
    ensures |existing| <= |MergeRows(existing, generated)|
    ensures var m := MergeRows(existing, generated)[i];
            && SpelledKey(m) == SpelledKey(existing[i])
            && (m == existing[i] || (m in generated && |m.refs| > |existing[i].refs|))
  {
    hide SpelledKey;
    if generated != [] {
      var n := |generated| - 1;
      assert generated == generated[..n] + [generated[n]];
      MergeKeepsPlaces(existing, generated[..n], i);
    }
  }

  /** No spelled key with a predicate is there twice. */
  predicate SpelledOnce(rows: seq<Row>) {
    forall i, j | 0 <= i < j < |rows| && Pred(rows[i]) != "" :: SpelledKey(rows[i]) != SpelledKey(rows[j])
  }

  lemma MergeOneSpelledOnce(rows: seq<Row>, r: Row)
    requires SpelledOnce(rows)
    ensures SpelledOnce(MergeOne(rows, r))
  {
    FindSpelledIs(rows, SpelledKey(r));
    var after, k := MergeOne(rows, r), FindSpelled(rows, SpelledKey(r));
    if Pred(r) != "" && k >= 0 {
      assert forall i | 0 <= i < |rows| :: SpelledKey(after[i]) == SpelledKey(rows[i]);
    } else {
      assert after == rows + [r];
      if Pred(r) == "" { assert forall i | 0 <= i < |rows| && Pred(rows[i]) != "" :: SpelledKey(rows[i]) != SpelledKey(r); }
    }
  }

  /** A generated row whose predicate and values are there already is not added again. */
  lemma {:induction false} MergeAddsOnce(existing: seq<Row>, generated: seq<Row>)
    requires SpelledOnce(existing)
    ensures SpelledOnce(MergeRows(existing, generated))
  {
    hide MergeOne, SpelledOnce;
    if generated != [] {
      MergeAddsOnce(existing, generated[..|generated| - 1]);
      MergeOneSpelledOnce(MergeRows(existing, generated[..|generated| - 1]), generated[|generated| - 1]);
    }
  }

  /** Of a group the earliest row with most references is kept. */
  lemma BestIsEarliest(group: seq<Row>) returns (i: int)
    requires group != []
    ensures 0 <= i < |group| && Best(group) == group[i]
    ensures forall j | 0 <= j < |group| :: |group[j].refs| <= |group[i].refs|
    ensures forall j | 0 <= j < i :: |group[j].refs| < |group[i].refs|
  {
    hide StableSort.SortBy;
    i := StableSort.SortByHead(group, RICHEST_FIRST);
    forall j | 0 <= j < |group| ensures |group[j].refs| <= |group[i].refs| && (j < i ==> |group[j].refs| < |group[i].refs|) {
      assert RICHEST_FIRST(group[i]) <= RICHEST_FIRST(group[j]);
      assert j < i ==> RICHEST_FIRST(group[i]) < RICHEST_FIRST(group[j]);
    }
  }

  /** The keys of the keyed rows, in order. */
  function RowKeys(rows: seq<Row>, norm: string -> string): seq<Key> {
    if rows == [] then []
    else
      var before := RowKeys(rows[..|rows| - 1], norm);
      if Loose(rows[|rows| - 1], norm) then before else before + [KeyOf(rows[|rows| - 1], norm)]
  }

  /** Groups stand in the order in which their keys first came. */
  lemma {:induction false} GroupsInOrder(rows: seq<Row>, norm: string -> string)
    ensures Keys(Buckets(rows, norm)) == Firsts(RowKeys(rows, norm))
  {
    hide KeyOf, Put, Get, Loose;
    if rows != [] {
      var n := |rows| - 1;
      GroupsInOrder(rows[..n], norm);
      BucketsShape(rows[..n], norm);
      var d, k := Buckets(rows[..n], norm), KeyOf(rows[n], norm);
      var g := Get(d, k);
      KeysPut(d, k, (if g.Some? then g.value else []) + [rows[n]]);
      FirstsSnoc(RowKeys(rows[..n], norm), k);
    }
  }

  /** The result: one row per group in that order, then the loose rows, none lost or repeated. */
  lemma DedupeShape(rows: seq<Row>, norm: string -> string, i: int)
    ensures var ks := Firsts(RowKeys(rows, norm)); var out := Dedupe(rows, norm);
            && |out| == |ks| + |LooseRows(rows, norm)| && out[|ks|..] == LooseRows(rows, norm)
            && (0 <= i < |ks| ==> KeyOf(out[i], norm) == ks[i])
  {
    hide KeyOf, Buckets, Best, LooseRows, Firsts, RowKeys;
    BucketsShape(rows, norm);
    GroupsInOrder(rows, norm);
    var d := Buckets(rows, norm);
    assert |Keys(d)| == |d|;
    if 0 <= i < |d| { DedupeFrom(rows, norm, i); assert Keys(d)[i] == d[i].0; }
  }

  lemma {:induction false} LooseRowsExact(rows: seq<Row>, norm: string -> string, r: Row)
    ensures multiset(LooseRows(rows, norm))[r] == if Loose(r, norm) then multiset(rows)[r] else 0
  {
    hide KeyOf, Loose;
    if rows != [] {
      var n := |rows| - 1;
      LooseRowsExact(rows[..n], norm, r);
      assert rows == rows[..n] + [rows[n]];
    }
  }

  // ---- what a key ignores ---------------------------------------------------------------------------

  /** Blank values do not count, others count normalised, and the predicate is the fact key or, without
      one, the predicate name, trimmed. */
  lemma KeyIs(r: Row, v: string, norm: string -> string)
    ensures KeyOf(r, norm).0 == Trim(if r.factKey == "" then r.predicateName else r.factKey)
    ensures KeyOf(r.(values := []), norm).1 == multiset{}
    ensures KeyOf(r.(values := r.values + [v]), norm).1 == if Trim(v) == "" then KeyOf(r, norm).1 else KeyOf(r, norm).1 + multiset{norm(v)}
    ensures Loose(r, norm) <==> KeyOf(r, norm).0 == "" && KeyOf(r, norm).1 == multiset{}
  {
    hide Trim;
    assert (r.values + [v])[..|r.values|] == r.values;
  }

  // ---- which row of a group ----------------------------------------------------------------------------

  /** The rows with key `k`, in order. */
  function RowsWith(rows: seq<Row>, k: Key, norm: string -> string): seq<Row> {
    if rows == [] then []
    else if KeyOf(rows[|rows| - 1], norm) == k then RowsWith(rows[..|rows| - 1], k, norm) + [rows[|rows| - 1]]
    else RowsWith(rows[..|rows| - 1], k, norm)
  }

  lemma {:induction false} GroupIs(rows: seq<Row>, norm: string -> string, k: Key)
    requires k != ("", multiset{})
    ensures Get(Buckets(rows, norm), k) == if RowsWith(rows, k, norm) == [] then None else Some(RowsWith(rows, k, norm))
  {
    hide KeyOf, Put, Get, Find;
    if rows == [] {
      assert Get(Buckets([], norm), k) == None by { NoGroups(k, norm); }
    } else {
      var n := |rows| - 1;
      GroupIs(rows[..n], norm, k);
      BucketsShape(rows[..n], norm);
      var d, q := Buckets(rows[..n], norm), KeyOf(rows[n], norm);
      var g := Get(d, q);
      GetPut(d, q, (if g.Some? then g.value else []) + [rows[n]], k);
    }
  }

  lemma NoGroups(k: Key, norm: string -> string)
    ensures Get(Buckets([], norm), k) == None
  {
  }

  /** The row kept for a key is the earliest of those with most references, among all rows given. */
  lemma KeptIsEarliestRichest(rows: seq<Row>, norm: string -> string, i: int) returns (j: int)
    requires 0 <= i < |Firsts(RowKeys(rows, norm))|
    ensures |Dedupe(rows, norm)| > i
    ensures var group := RowsWith(rows, Firsts(RowKeys(rows, norm))[i], norm);
            && 0 <= j < |group| && Dedupe(rows, norm)[i] == group[j]
            && (forall k | 0 <= k < |group| :: |group[k].refs| <= |group[j].refs|) && (forall k | 0 <= k < j :: |group[k].refs| < |group[j].refs|)
  {
    hide KeyOf, Buckets, Best, LooseRows, Firsts, RowKeys, RowsWith, Get;
    BucketsShape(rows, norm);
    GroupsInOrder(rows, norm);
    var d := Buckets(rows, norm);
    assert Keys(d)[i] == d[i].0;
    GetUnique(d, i);
    GroupIs(rows, norm, d[i].0);
    j := BestIsEarliest(d[i].1);
  }
}
