/** Merging the data of two cases: facts by key with the newer value winning, documents
    and history without repeats, and the sense in which a second merge is absorbed. */
module CaseMerge {
  import opened OrderedDict
  import opened Text
  import opened StableSort

  /** `body` stands for the fields that merging copies without reading. */
  datatype Fact = Fact(key: string, value: string, observedAt: int, body: string)

  datatype Document = Document(documentId: string, body: string)

  datatype HistoryEvent = HistoryEvent(timestamp: int, body: string)

  datatype CaseData = CaseData(facts: seq<Fact>, documents: seq<Document>, history: seq<HistoryEvent>)

  type FactDict = Dict<string, Fact>

  // ---- facts -------------------------------------------------------------------------

  predicate Disagree(old_: Fact, new_: Fact) { old_.value != "" && new_.value != "" && old_.value != new_.value }

  predicate Replaces(old_: Fact, new_: Fact) { Disagree(old_, new_) && new_.observedAt >= old_.observedAt }

  /** First case: a later fact of the same key overwrites. */
  function Load(facts: seq<Fact>): FactDict {
    if facts == [] then []
    else
      var f := facts[|facts| - 1];
      var d := Load(facts[..|facts| - 1]);
      if Trim(f.key) == "" then d else Put(d, Trim(f.key), f)
  }

  function Absorb(d: FactDict, f: Fact): FactDict {
    var k := Trim(f.key);
    if k == "" then d
    else
      var e := Get(d, k);
      if e.None? || Replaces(e.value, f) then Put(d, k, f) else d
  }

  /** Second case: new keys are added, and a disagreeing value wins when it is not older. */
  function AbsorbAll(d: FactDict, facts: seq<Fact>): FactDict {
    if facts == [] then d else Absorb(AbsorbAll(d, facts[..|facts| - 1]), facts[|facts| - 1])
  }

  /** What a conflict message reports. */
  datatype Conflict = Conflict(key: string, oldValue: string, newValue: string)

  function Conflicts(d: FactDict, facts: seq<Fact>): seq<Conflict> {
    if facts == [] then []
    else
      var f := facts[|facts| - 1];
      var before := Conflicts(d, facts[..|facts| - 1]);
      var e := Get(AbsorbAll(d, facts[..|facts| - 1]), Trim(f.key));
      if Trim(f.key) != "" && e.Some? && Disagree(e.value, f) then before + [Conflict(Trim(f.key), e.value.value, f.value)] else before
  }

  const NEWEST_FIRST := (f: Fact) => 0 - f.observedAt

  function MergeFacts(a: seq<Fact>, b: seq<Fact>): seq<Fact> {
    SortBy(Values(AbsorbAll(Load(a), b)), NEWEST_FIRST)
  }

  // ---- keep the first of each key -----------------------------------------------------

  /** The first kept element of every key, in order. */
  function FirstBy<T(==), K(==)>(xs: seq<T>, key: T -> K, keep: T -> bool): seq<T> {
    if xs == [] then []
    else
      var x := xs[|xs| - 1];
      var before := FirstBy(xs[..|xs| - 1], key, keep);
      if keep(x) && forall y | y in before :: key(y) != key(x) then before + [x] else before
  }

  const DOCUMENT_KEY := (d: Document) => Trim(d.documentId)
  const HAS_ID := (d: Document) => Trim(d.documentId) != ""
  const EVENT_KEY := (e: HistoryEvent) => e
  const ANY_EVENT := (e: HistoryEvent) => true
  const OLDEST_FIRST := (e: HistoryEvent) => e.timestamp

  function MergeDocuments(a: seq<Document>, b: seq<Document>): seq<Document> { FirstBy(a + b, DOCUMENT_KEY, HAS_ID) }

  function MergeHistory(a: seq<HistoryEvent>, b: seq<HistoryEvent>): seq<HistoryEvent> {
    SortBy(FirstBy(a + b, EVENT_KEY, ANY_EVENT), OLDEST_FIRST)
  }

  function Merge(a: CaseData, b: CaseData): CaseData {
    CaseData(MergeFacts(a.facts, b.facts), MergeDocuments(a.documents, b.documents), MergeHistory(a.history, b.history))
  }

  method MergeData(a: CaseData, b: CaseData) returns (merged: CaseData, conflicts: seq<Conflict>)
    ensures merged == Merge(a, b)
    ensures conflicts == Conflicts(Load(a.facts), b.facts)
  {
    hide Trim, Put, Get;
    var facts: FactDict := [];
    var i := 0;
    while i < |a.facts|
      invariant 0 <= i <= |a.facts|
      invariant facts == Load(a.facts[..i])
    {
      assert a.facts[..i + 1][..i] == a.facts[..i];
      var key := Trim(a.facts[i].key);
      if key != "" { facts := Put(facts, key, a.facts[i]); }
      i := i + 1;
    }
    assert a.facts[..i] == a.facts;
    conflicts := [];
    i := 0;
    while i < |b.facts|
      invariant 0 <= i <= |b.facts|
      invariant facts == AbsorbAll(Load(a.facts), b.facts[..i])
      invariant conflicts == Conflicts(Load(a.facts), b.facts[..i])
    {
      assert b.facts[..i + 1][..i] == b.facts[..i];
      var f := b.facts[i];
      var key := Trim(f.key);
      if key != "" {
        var existing := Get(facts, key);
        if existing.Some? {
          if Disagree(existing.value, f) {
            conflicts := conflicts + [Conflict(key, existing.value.value, f.value)];
            if f.observedAt >= existing.value.observedAt { facts := Put(facts, key, f); }
          }
        } else {
          facts := Put(facts, key, f);
        }
      }
      i := i + 1;
    }
    assert b.facts[..i] == b.facts;
    var documents := KeepFirst(a.documents + b.documents, DOCUMENT_KEY, HAS_ID);
    var history := KeepFirst(a.history + b.history, EVENT_KEY, ANY_EVENT);
    merged := CaseData(SortBy(Values(facts), NEWEST_FIRST), documents, SortBy(history, OLDEST_FIRST));
  }

  /** The "seen" loop shared by documents and history. */
  method KeepFirst<T(==), K(==)>(xs: seq<T>, key: T -> K, keep: T -> bool) returns (kept: seq<T>)
    ensures kept == FirstBy(xs, key, keep)
  {
    kept := [];
    var seen: set<K> := {};
    var i := 0;
    while i < |xs|
      invariant 0 <= i <= |xs|
      invariant kept == FirstBy(xs[..i], key, keep)
      invariant seen == set y | y in kept :: key(y)
    {
      assert xs[..i + 1][..i] == xs[..i];
      if keep(xs[i]) && key(xs[i]) !in seen {
        seen := seen + {key(xs[i])};
        kept := kept + [xs[i]];
      }
      i := i + 1;
    }
    assert xs[..i] == xs;
  }

  // ---- survivors ------------------------------------------------------------------------

  /** Entries sit under their own trimmed key. */
  predicate SelfKeyed(d: FactDict) {
    Distinct(d) && forall i | 0 <= i < |d| :: d[i].0 == Trim(d[i].1.key) && d[i].0 != ""
  }

  lemma PutSelfKeyed(d: FactDict, f: Fact)
    requires SelfKeyed(d) && Trim(f.key) != ""
    ensures SelfKeyed(Put(d, Trim(f.key), f))
  {
    PutShape(d, Trim(f.key), f);
  }

  lemma {:induction false} LoadSelfKeyed(facts: seq<Fact>)
    ensures SelfKeyed(Load(facts))
  {
    hide Trim;
    if facts != [] {
      LoadSelfKeyed(facts[..|facts| - 1]);
      if Trim(facts[|facts| - 1].key) != "" { PutSelfKeyed(Load(facts[..|facts| - 1]), facts[|facts| - 1]); }
    }
  }

  lemma {:induction false} AbsorbSelfKeyed(d: FactDict, facts: seq<Fact>)
    requires SelfKeyed(d)
    ensures SelfKeyed(AbsorbAll(d, facts))
  {
    hide Trim;
    if facts != [] {
      AbsorbSelfKeyed(d, facts[..|facts| - 1]);
      if Trim(facts[|facts| - 1].key) != "" { PutSelfKeyed(AbsorbAll(d, facts[..|facts| - 1]), facts[|facts| - 1]); }
    }
  }

  /** The last fact with key `k`, which is how a dictionary built in a loop ends up. */
  function LastWith(facts: seq<Fact>, k: string): Option<Fact> {
    if facts == [] then None
    else if Trim(facts[|facts| - 1].key) == k then Some(facts[|facts| - 1])
    else LastWith(facts[..|facts| - 1], k)
  }

  predicate DistinctKeys(facts: seq<Fact>) {
    forall i, j | 0 <= i < j < |facts| && Trim(facts[i].key) != "" :: Trim(facts[i].key) != Trim(facts[j].key)
  }

  /** The facts under key `k`, in order. */
  function Under(facts: seq<Fact>, k: string): seq<Fact> {
    if facts == [] then []
    else if Trim(facts[|facts| - 1].key) == k then Under(facts[..|facts| - 1], k) + [facts[|facts| - 1]]
    else Under(facts[..|facts| - 1], k)
  }

  /** The fact left under one key after `fs` were absorbed into `s`. */
  function Fold(s: Option<Fact>, fs: seq<Fact>): Option<Fact> {
    if fs == [] then s
    else
      var before := Fold(s, fs[..|fs| - 1]);
      if before.None? || Replaces(before.value, fs[|fs| - 1]) then Some(fs[|fs| - 1]) else before
  }

  /** The survivor rule for one fact on either side. */
  function Survivor(a: Option<Fact>, b: Option<Fact>): Option<Fact> {
    if b.None? then a else if a.None? || Replaces(a.value, b.value) then b else a
  }

  lemma FoldSnoc(s: Option<Fact>, fs: seq<Fact>, f: Fact)
    ensures var before := Fold(s, fs);
            Fold(s, fs + [f]) == if before.None? || Replaces(before.value, f) then Some(f) else before
  {
    assert (fs + [f])[..|fs|] == fs;
  }

  lemma {:induction false} LoadGets(facts: seq<Fact>, k: string)
    requires k != ""
    ensures Get(Load(facts), k) == LastWith(facts, k)
  {
    hide Trim, Put, Get;
    if facts == [] {
      assert Get<string, Fact>([], k) == None by { GetEmpty(k); }
    } else {
      var n := |facts| - 1;
      LoadGets(facts[..n], k);
      LoadSelfKeyed(facts[..n]);
      if Trim(facts[n].key) != "" { GetPut(Load(facts[..n]), Trim(facts[n].key), facts[n], k); }
    }
  }

  lemma GetEmpty(k: string)
    ensures Get<string, Fact>([], k) == None
  {
  }

  lemma {:induction false} LastWithNone(facts: seq<Fact>, k: string)
    requires forall i | 0 <= i < |facts| :: Trim(facts[i].key) != k
    ensures LastWith(facts, k) == None
  {
    if facts != [] { LastWithNone(facts[..|facts| - 1], k); }
  }

  /** Who survives under each key. */
  lemma {:induction false} AbsorbGets(d: FactDict, b: seq<Fact>, k: string)
    requires SelfKeyed(d) && k != ""
    ensures Get(AbsorbAll(d, b), k) == Fold(Get(d, k), Under(b, k))
  {
    hide Trim, Put, Get, SelfKeyed, Replaces;
    if b != [] {
      var n := |b| - 1;
      var before := AbsorbAll(d, b[..n]);
      AbsorbGets(d, b[..n], k);
      AbsorbSelfKeyed(d, b[..n]);
      SelfKeyedDistinct(before);
      if Trim(b[n].key) != "" { GetPut(before, Trim(b[n].key), b[n], k); }
      if Trim(b[n].key) == k { FoldSnoc(Get(d, k), Under(b[..n], k), b[n]); }
    }
  }

  lemma SelfKeyedDistinct(d: FactDict)
    requires SelfKeyed(d)
    ensures Distinct(d)
  {
  }

  /** Distinct keys: at most one fact of the second case is under `k`. */
  lemma {:induction false} UnderDistinct(b: seq<Fact>, k: string)
    requires DistinctKeys(b) && k != ""
    ensures Under(b, k) == if LastWith(b, k).Some? then [LastWith(b, k).value] else []
  {
    hide Trim;
    if b != [] {
      UnderDistinct(b[..|b| - 1], k);
      if Trim(b[|b| - 1].key) == k { LastWithNone(b[..|b| - 1], k); }
    }
  }

  lemma FoldOne(s: Option<Fact>, f: Fact)
    ensures Fold(s, []) == s && Fold(s, [f]) == Survivor(s, Some(f))
  {
    assert [f][..0] == [];
  }

  /** Each non-blank key of either case survives exactly once, newest first, and what survives is the
      first case's fact with the second's absorbed in order. When the second case has one fact per
      key, it replaces the first's exactly when both values are non-empty, differ, and it is not older. */
  lemma FactsSurvive(a: seq<Fact>, b: seq<Fact>, f: Fact)
    ensures f in MergeFacts(a, b) <==> Trim(f.key) != "" && Fold(LastWith(a, Trim(f.key)), Under(b, Trim(f.key))) == Some(f)
    ensures DistinctKeys(b) ==>
              (f in MergeFacts(a, b) <==> Trim(f.key) != "" && Survivor(LastWith(a, Trim(f.key)), LastWith(b, Trim(f.key))) == Some(f))
    ensures DistinctBy(MergeFacts(a, b), (g: Fact) => Trim(g.key))
    ensures SortedBy(MergeFacts(a, b), NEWEST_FIRST)
    ensures forall i, j | 0 <= i < j < |MergeFacts(a, b)| :: MergeFacts(a, b)[i].observedAt >= MergeFacts(a, b)[j].observedAt
  {
    hide Trim, Put, Get, Fold, Under, Load, AbsorbAll, SelfKeyed;
    var d := AbsorbAll(Load(a), b);
    LoadSelfKeyed(a);
    AbsorbSelfKeyed(Load(a), b);
    var k := Trim(f.key);
    SortByMembers(Values(d), NEWEST_FIRST, f);
    if k != "" {
      AbsorbGets(Load(a), b, k);
      LoadGets(a, k);
      if DistinctKeys(b) {
        UnderDistinct(b, k);
        FoldOne(LastWith(a, k), if LastWith(b, k).Some? then LastWith(b, k).value else f);
      }
    }
    ValueIffGet(d, f);
    SortBySorts(Values(d), NEWEST_FIRST);
    ValuesDistinct(d);
    PermutationKeepsDistinct(Values(d), MergeFacts(a, b), (g: Fact) => Trim(g.key));
    var m := MergeFacts(a, b);
    forall i, j | 0 <= i < j < |m| ensures m[i].observedAt >= m[j].observedAt { assert NEWEST_FIRST(m[i]) <= NEWEST_FIRST(m[j]); }
  }

  lemma ValueIffGet(d: FactDict, f: Fact)
    requires SelfKeyed(d)
    ensures f in Values(d) <==> Trim(f.key) != "" && Get(d, Trim(f.key)) == Some(f)
  {
    hide Trim;
    if f in Values(d) {
      var i :| 0 <= i < |d| && Values(d)[i] == f;
      GetUnique(d, i);
    }
    if Trim(f.key) != "" && Get(d, Trim(f.key)) == Some(f) {
      var i :| 0 <= i < |d| && d[i] == (Trim(f.key), f);
      assert Values(d)[i] == f;
    }
  }

  lemma ValuesDistinct(d: FactDict)
    requires SelfKeyed(d)
    ensures DistinctBy(Values(d), (g: Fact) => Trim(g.key))
  {
    hide Trim;
  }

  /** Fact `i` of the second case meets a different non-empty value under its key. */
  ghost predicate Meets(a: seq<Fact>, b: seq<Fact>, i: int, c: Conflict) {
    && 0 <= i < |b| && Trim(b[i].key) == c.key != "" && b[i].value == c.newValue
    && var held := Fold(LastWith(a, c.key), Under(b[..i], c.key));
       held.Some? && held.value.value == c.oldValue && Disagree(held.value, b[i])
  }

  /** A conflict is reported exactly for those meetings, with both values. */
  lemma {:induction false} ConflictsExact(a: seq<Fact>, b: seq<Fact>, c: Conflict)
    ensures c in Conflicts(Load(a), b) <==> exists i :: Meets(a, b, i, c)
  {
    hide Meets, Get, Load, AbsorbAll, Disagree, Trim;
    if b == [] {
      assert forall i :: !Meets(a, b, i, c) by { NoMeeting(a, c); }
    } else {
      var n := |b| - 1;
      ConflictsExact(a, b[..n], c);
      MeetsPrefix(a, b, c);
      MeetsLast(a, b, c);
      if i :| Meets(a, b[..n], i, c) { assert Meets(a, b, i, c); }
    }
  }

  lemma NoMeeting(a: seq<Fact>, c: Conflict)
    ensures forall i :: !Meets(a, [], i, c)
  {
  }

  lemma MeetsPrefix(a: seq<Fact>, b: seq<Fact>, c: Conflict)
    requires b != []
    ensures forall i | i != |b| - 1 :: Meets(a, b, i, c) <==> Meets(a, b[..|b| - 1], i, c)
    ensures !Meets(a, b[..|b| - 1], |b| - 1, c)
  {
    hide Trim, Fold, Under, LastWith, Disagree;
    var n := |b| - 1;
    forall i | i != n ensures Meets(a, b, i, c) <==> Meets(a, b[..n], i, c) {
      if 0 <= i < n { assert b[..n][..i] == b[..i]; }
    }
  }

  /** The last fact adds its own conflict, if it meets one. */
  lemma MeetsLast(a: seq<Fact>, b: seq<Fact>, c: Conflict)
    requires b != []
    ensures c in Conflicts(Load(a), b) <==> c in Conflicts(Load(a), b[..|b| - 1]) || Meets(a, b, |b| - 1, c)
  {
    hide Trim, Get, Fold, Under, Load, AbsorbAll, LastWith, Disagree;
    var n := |b| - 1;
    var k := Trim(b[n].key);
    if k != "" {
      LoadSelfKeyed(a);
      AbsorbGets(Load(a), b[..n], k);
      LoadGets(a, k);
    }
  }

  /** With one fact per key on the second side: both cases hold the key with different non-empty values. */
  lemma ConflictsOfDistinct(a: seq<Fact>, b: seq<Fact>, c: Conflict)
    requires DistinctKeys(b) && c.key != ""
    ensures c in Conflicts(Load(a), b) <==>
            && LastWith(a, c.key).Some? && LastWith(b, c.key).Some?
            && LastWith(a, c.key).value.value == c.oldValue && LastWith(b, c.key).value.value == c.newValue
            && Disagree(LastWith(a, c.key).value, LastWith(b, c.key).value)
  {
    hide Trim, Load, Conflicts, Disagree;
    ConflictsExact(a, b, c);
    if i :| Meets(a, b, i, c) {
      OnlyAt(b, i, c.key);
      FoldOne(LastWith(a, c.key), b[i]);
    }
    if LastWith(b, c.key).Some? {
      var i := LastWithPosition(b, c.key);
      OnlyAt(b, i, c.key);
      FoldOne(LastWith(a, c.key), b[i]);
      assert Meets(a, b, i, c) <==> LastWith(a, c.key).Some? && LastWith(a, c.key).value.value == c.oldValue && b[i].value == c.newValue
                                    && Disagree(LastWith(a, c.key).value, b[i]);
    }
  }

  lemma {:induction false} LastWithPosition(b: seq<Fact>, k: string) returns (i: int)
    requires LastWith(b, k).Some?
    ensures 0 <= i < |b| && b[i] == LastWith(b, k).value && Trim(b[i].key) == k
  {
    hide Trim;
    if Trim(b[|b| - 1].key) == k { i := |b| - 1; } else { i := LastWithPosition(b[..|b| - 1], k); }
  }

  lemma OnlyAt(b: seq<Fact>, i: int, k: string)
    requires DistinctKeys(b) && 0 <= i < |b| && Trim(b[i].key) == k && k != ""
    ensures LastWith(b, k) == Some(b[i]) && Under(b[..i], k) == []
  {
    hide Trim;
    LastWithAt(b, i);
    LastWithNone(b[..i], k);
    UnderDistinct(b[..i], k);
  }

  // ---- absorption --------------------------------------------------------------------------

  lemma PrefixDistinct<T, K>(xs: seq<T>, n: int, key: T -> K)
    requires DistinctBy(xs, key) && 0 <= n <= |xs|
    ensures DistinctBy(xs[..n], key)
    ensures n < |xs| ==> forall i | 0 <= i < n :: key(xs[i]) != key(xs[n])
  {
  }

  lemma PutFresh(d: FactDict, f: Fact)
    requires SelfKeyed(d) && forall g | g in Values(d) :: Trim(g.key) != Trim(f.key)
    ensures Values(Put(d, Trim(f.key), f)) == Values(d) + [f]
  {
    hide Trim;
    forall i | 0 <= i < |d| ensures d[i].0 != Trim(f.key) {
      assert Values(d)[i] in Values(d);
    }
    PutShape(d, Trim(f.key), f);
  }

  lemma {:induction false} LoadDistinct(facts: seq<Fact>)
    requires DistinctBy(facts, (g: Fact) => Trim(g.key)) && forall i | 0 <= i < |facts| :: Trim(facts[i].key) != ""
    ensures Values(Load(facts)) == facts
  {
    hide Trim, Put, Get, SelfKeyed;
    if facts != [] {
      var n := |facts| - 1;
      PrefixDistinct(facts, n, (g: Fact) => Trim(g.key));
      LoadDistinct(facts[..n]);
      LoadSelfKeyed(facts[..n]);
      PutFresh(Load(facts[..n]), facts[n]);
      assert facts == facts[..n] + [facts[n]];
    }
  }

  lemma {:induction false} LastWithAt(b: seq<Fact>, i: int)
    requires DistinctKeys(b) && 0 <= i < |b| && Trim(b[i].key) != ""
    ensures LastWith(b, Trim(b[i].key)) == Some(b[i])
  {
    hide Trim;
    if i < |b| - 1 { LastWithAt(b[..|b| - 1], i); }
  }

  lemma {:induction false} FirstByDistinct<T, K>(xs: seq<T>, key: T -> K, keep: T -> bool)
    ensures DistinctBy(FirstBy(xs, key, keep), key)
    ensures forall y | y in FirstBy(xs, key, keep) :: keep(y) && y in xs
  {
    if xs != [] {
      var n := |xs| - 1;
      FirstByDistinct(xs[..n], key, keep);
      var before := FirstBy(xs[..n], key, keep);
      assert forall i | 0 <= i < |before| :: before[i] in before;
      assert xs == xs[..n] + [xs[n]];
    }
  }

  lemma {:induction false} FirstByCovers<T, K>(xs: seq<T>, key: T -> K, keep: T -> bool, x: T) returns (y: T)
    requires x in xs && keep(x)
    ensures y in FirstBy(xs, key, keep) && key(y) == key(x)
  {
    var n := |xs| - 1;
    assert xs == xs[..n] + [xs[n]];
    var before := FirstBy(xs[..n], key, keep);
    if x in xs[..n] {
      y := FirstByCovers(xs[..n], key, keep, x);
    } else if w :| w in before && key(w) == key(x) {
      y := w;
    } else {
      y := x;
    }
  }

  /** Distinct kept elements followed by elements whose keys are already there. */
  lemma {:induction false} FirstByFixed<T, K>(zs: seq<T>, more: seq<T>, key: T -> K, keep: T -> bool)
    requires DistinctBy(zs, key) && forall z | z in zs :: keep(z)
    requires forall x | x in more && keep(x) :: exists z :: z in zs && key(z) == key(x)
    ensures FirstBy(zs + more, key, keep) == zs
  {
    if more != [] {
      var n := |more| - 1;
      assert more == more[..n] + [more[n]];
      FirstByFixed(zs, more[..n], key, keep);
      assert (zs + more)[..|zs + more| - 1] == zs + more[..n];
    } else if zs != [] {
      var n := |zs| - 1;
      assert zs == zs[..n] + [zs[n]];
      PrefixDistinct(zs, n, key);
      FirstByFixed(zs[..n], [], key, keep);
      assert zs[..n] + [] == zs[..n] && zs + more == zs;
    }
  }

  lemma DocumentsAbsorb(a: seq<Document>, b: seq<Document>)
    ensures MergeDocuments(MergeDocuments(a, b), b) == MergeDocuments(a, b)
  {
    hide FirstBy;
    FirstByDistinct(a + b, DOCUMENT_KEY, HAS_ID);
    var m := MergeDocuments(a, b);
    forall x | x in b && HAS_ID(x) ensures exists z :: z in m && DOCUMENT_KEY(z) == DOCUMENT_KEY(x) {
      var z := FirstByCovers(a + b, DOCUMENT_KEY, HAS_ID, x);
    }
    FirstByFixed(m, b, DOCUMENT_KEY, HAS_ID);
  }

  /** History is timestamp-sorted and holds exactly the events of both cases, each once. */
  lemma HistoryIsUnion(a: seq<HistoryEvent>, b: seq<HistoryEvent>)
    ensures SortedBy(MergeHistory(a, b), OLDEST_FIRST) && DistinctBy(MergeHistory(a, b), EVENT_KEY)
    ensures forall e :: e in MergeHistory(a, b) <==> e in a || e in b
    ensures forall i, j | 0 <= i < j < |MergeHistory(a, b)| ::
              MergeHistory(a, b)[i].timestamp <= MergeHistory(a, b)[j].timestamp && MergeHistory(a, b)[i] != MergeHistory(a, b)[j]
  {
    hide FirstBy;
    var h := MergeHistory(a, b);
    var u := FirstBy(a + b, EVENT_KEY, ANY_EVENT);
    FirstByDistinct(a + b, EVENT_KEY, ANY_EVENT);
    SortBySorts(u, OLDEST_FIRST);
    PermutationKeepsDistinct(u, MergeHistory(a, b), EVENT_KEY);
    forall i, j | 0 <= i < j < |h| ensures h[i].timestamp <= h[j].timestamp && h[i] != h[j] {
      assert OLDEST_FIRST(h[i]) <= OLDEST_FIRST(h[j]) && EVENT_KEY(h[i]) != EVENT_KEY(h[j]);
    }
    forall e ensures e in MergeHistory(a, b) <==> e in a || e in b {
      SortByMembers(u, OLDEST_FIRST, e);
      if e in a + b { var y := FirstByCovers(a + b, EVENT_KEY, ANY_EVENT, e); }
    }
  }

  lemma HistoryAbsorbs(a: seq<HistoryEvent>, b: seq<HistoryEvent>)
    ensures MergeHistory(MergeHistory(a, b), b) == MergeHistory(a, b)
  {
    hide FirstBy;
    var m := MergeHistory(a, b);
    HistoryIsUnion(a, b);
    forall x | x in b && ANY_EVENT(x) ensures exists z :: z in m && EVENT_KEY(z) == EVENT_KEY(x) {
      assert x in m;
    }
    FirstByFixed(m, b, EVENT_KEY, ANY_EVENT);
    SortByIdentity(m, OLDEST_FIRST);
  }

  // ---- documents: the union, first come first kept ----------------------------------------------

  /** Position `i` holds the first kept element of its key. */
  ghost predicate FirstKeptAt<T, K>(xs: seq<T>, key: T -> K, keep: T -> bool, i: int) {
    0 <= i < |xs| && keep(xs[i]) && forall j | 0 <= j < i && keep(xs[j]) :: key(xs[j]) != key(xs[i])
  }

  lemma FirstKeptPrefix<T, K>(xs: seq<T>, n: int, key: T -> K, keep: T -> bool, i: int)
    requires 0 <= n <= |xs| && FirstKeptAt(xs[..n], key, keep, i)
    ensures FirstKeptAt(xs, key, keep, i) && xs[i] == xs[..n][i]
  {
    assert forall j | 0 <= j < n :: xs[..n][j] == xs[j];
  }

  lemma LastIsFirstKept<T, K>(xs: seq<T>, key: T -> K, keep: T -> bool)
    requires xs != [] && keep(xs[|xs| - 1])
    requires forall y | y in FirstBy(xs[..|xs| - 1], key, keep) :: key(y) != key(xs[|xs| - 1])
    ensures FirstKeptAt(xs, key, keep, |xs| - 1)
  {
    hide FirstBy;
    var n := |xs| - 1;
    forall j | 0 <= j < n && keep(xs[j]) ensures key(xs[j]) != key(xs[n]) {
      assert xs[..n][j] == xs[j] && xs[j] in xs[..n];
      var y := FirstByCovers(xs[..n], key, keep, xs[j]);
    }
  }

  /** What the "seen" loop keeps, where, and why: the first kept element of each key, in order. */
  lemma {:induction false} FirstByInOrder<T, K>(xs: seq<T>, key: T -> K, keep: T -> bool) returns (at: seq<int>)
    ensures |at| == |FirstBy(xs, key, keep)|
    ensures forall i | 0 <= i < |at| :: FirstKeptAt(xs, key, keep, at[i]) && FirstBy(xs, key, keep)[i] == xs[at[i]]
    ensures forall i, j | 0 <= i < j < |at| :: at[i] < at[j]
  {
    at := [];
    if xs != [] {
      hide FirstKeptAt;
      var n := |xs| - 1;
      var before := FirstBy(xs[..n], key, keep);
      at := FirstByInOrder(xs[..n], key, keep);
      forall i | 0 <= i < |at| ensures 0 <= at[i] < n && FirstKeptAt(xs, key, keep, at[i]) && before[i] == xs[at[i]] {
        KeptInRange(xs[..n], key, keep, at[i]);
        FirstKeptPrefix(xs, n, key, keep, at[i]);
      }
      if keep(xs[n]) && forall y | y in before :: key(y) != key(xs[n]) {
        LastIsFirstKept(xs, key, keep);
        at := at + [n];
      }
    }
  }

  lemma KeptInRange<T, K>(xs: seq<T>, key: T -> K, keep: T -> bool, i: int)
    requires FirstKeptAt(xs, key, keep, i)
    ensures 0 <= i < |xs|
  {
  }

  ghost predicate HasDocument(ds: seq<Document>, id: string) { exists d :: d in ds && Trim(d.documentId) == id }

  /** Merged documents: every non-blank id of either case once, each the first document with that id in the
      first case followed by the second, in the order of those. */
  lemma DocumentsAreUnion(a: seq<Document>, b: seq<Document>) returns (at: seq<int>)
    ensures var m := MergeDocuments(a, b); var all := a + b;
            && |at| == |m| && (forall i, j | 0 <= i < j < |at| :: at[i] < at[j])
            && (forall i | 0 <= i < |m| :: 0 <= at[i] < |all| && m[i] == all[at[i]] && Trim(m[i].documentId) != "")
            && (forall i, j | 0 <= i < |m| && 0 <= j < at[i] :: Trim(all[j].documentId) != Trim(m[i].documentId))
    ensures forall id :: HasDocument(MergeDocuments(a, b), id) <==> id != "" && (HasDocument(a, id) || HasDocument(b, id))
  {
    hide Trim, FirstBy;
    var m, all := MergeDocuments(a, b), a + b;
    at := FirstByInOrder(all, DOCUMENT_KEY, HAS_ID);
    assert forall i | 0 <= i < |m| :: FirstKeptAt(all, DOCUMENT_KEY, HAS_ID, at[i]);
    forall i | 0 <= i < |m| ensures Trim(m[i].documentId) != "" { assert HAS_ID(all[at[i]]); }
    forall i, j | 0 <= i < |m| && 0 <= j < at[i] ensures Trim(all[j].documentId) != Trim(m[i].documentId) {
      assert HAS_ID(all[j]) ==> DOCUMENT_KEY(all[j]) != DOCUMENT_KEY(all[at[i]]);
    }
    forall id ensures HasDocument(m, id) <==> id != "" && (HasDocument(a, id) || HasDocument(b, id)) {
      if HasDocument(m, id) {
        var d :| d in m && Trim(d.documentId) == id;
        var i :| 0 <= i < |m| && m[i] == d;
        assert all[at[i]] in all;
      }
      if id != "" && (HasDocument(a, id) || HasDocument(b, id)) {
        var d :| d in all && Trim(d.documentId) == id;
        assert HAS_ID(d);
        var y := FirstByCovers(all, DOCUMENT_KEY, HAS_ID, d);
        assert DOCUMENT_KEY(y) == DOCUMENT_KEY(d);
      }
    }
  }

  // ---- ties keep the order of arrival ---------------------------------------------------------------

  /** Events with one timestamp stay in the order in which they first came. */
  lemma HistoryTies(a: seq<HistoryEvent>, b: seq<HistoryEvent>, i: int, j: int)
    requires var h := MergeHistory(a, b); 0 <= i < j < |h| && h[i].timestamp == h[j].timestamp
    ensures var h := MergeHistory(a, b); Position(a + b, h[i]) < Position(a + b, h[j])
  {
    hide FirstBy, SortBy, Position;
    var all := a + b;
    var u, h := FirstBy(all, EVENT_KEY, ANY_EVENT), MergeHistory(a, b);
    var at := FirstByInOrder(all, EVENT_KEY, ANY_EVENT);
    FirstByDistinct(all, EVENT_KEY, ANY_EVENT);
    assert forall p, q | 0 <= p < q < |u| :: u[p] != u[q] by {
      forall p, q | 0 <= p < q < |u| ensures u[p] != u[q] { assert EVENT_KEY(u[p]) != EVENT_KEY(u[q]); }
    }
    SortByKeepsOrder(u, OLDEST_FIRST);
    assert OLDEST_FIRST(h[i]) == OLDEST_FIRST(h[j]);
    SortByMembers(u, OLDEST_FIRST, h[i]);
    SortByMembers(u, OLDEST_FIRST, h[j]);
    assert h[i] in h && h[j] in h;
    var p, q := Position(u, h[i]), Position(u, h[j]);
    PositionOf(u, h[i]);
    PositionOf(u, h[j]);
    HistoryIsUnion(a, b);
    assert EVENT_KEY(h[i]) != EVENT_KEY(h[j]);
    assert p < q;
    assert FirstKeptAt(all, EVENT_KEY, ANY_EVENT, at[p]) && FirstKeptAt(all, EVENT_KEY, ANY_EVENT, at[q]);
    FirstPosition(all, at[p]) by { assert forall k | 0 <= k < at[p] :: ANY_EVENT(all[k]) && EVENT_KEY(all[k]) != EVENT_KEY(all[at[p]]); }
    FirstPosition(all, at[q]) by { assert forall k | 0 <= k < at[q] :: ANY_EVENT(all[k]) && EVENT_KEY(all[k]) != EVENT_KEY(all[at[q]]); }
  }

  lemma PositionOf<T>(xs: seq<T>, x: T)
    requires x in xs
    ensures Position(xs, x) < |xs|
  {
    hide Position;
  }

  lemma FirstPosition<T>(xs: seq<T>, i: int)
    requires 0 <= i < |xs| && forall k | 0 <= k < i :: xs[k] != xs[i]
    ensures Position(xs, xs[i]) == i
  {
    hide Position;
  }

  /** The non-blank keys of the facts, in order. */
  function FactKeys(facts: seq<Fact>): seq<string> {
    if facts == [] then []
    else
      var before := FactKeys(facts[..|facts| - 1]);
      if Trim(facts[|facts| - 1].key) == "" then before else before + [Trim(facts[|facts| - 1].key)]
  }

  lemma {:induction false} FactKeysConcat(a: seq<Fact>, b: seq<Fact>)
    ensures FactKeys(a + b) == FactKeys(a) + FactKeys(b)
  {
    hide Trim;
    if b == [] {
      assert a + b == a;
    } else {
      assert (a + b)[..|a + b| - 1] == a + b[..|b| - 1];
      FactKeysConcat(a, b[..|b| - 1]);
    }
  }

  lemma {:induction false} LoadKeys(facts: seq<Fact>)
    ensures Keys(Load(facts)) == Firsts(FactKeys(facts))
  {
    hide Trim, Put, SelfKeyed;
    if facts != [] {
      var n := |facts| - 1;
      LoadKeys(facts[..n]);
      LoadSelfKeyed(facts[..n]);
      SelfKeyedDistinct(Load(facts[..n]));
      KeysPut(Load(facts[..n]), Trim(facts[n].key), facts[n]);
      FirstsSnoc(FactKeys(facts[..n]), Trim(facts[n].key));
    }
  }

  lemma {:induction false} FirstsMembers<K>(ks: seq<K>, k: K)
    ensures k in Firsts(ks) <==> k in ks
  {
    if ks != [] {
      FirstsMembers(ks[..|ks| - 1], k);
      assert ks == ks[..|ks| - 1] + [ks[|ks| - 1]];
    }
  }

  lemma AbsorbKeysStep(d: FactDict, f: Fact, ks: seq<string>)
    requires SelfKeyed(d) && Keys(d) == Firsts(ks)
    ensures Keys(Absorb(d, f)) == if Trim(f.key) == "" then Firsts(ks) else Firsts(ks + [Trim(f.key)])
  {
    hide Trim, Put, Get;
    var k := Trim(f.key);
    SelfKeyedDistinct(d);
    KeysPut(d, k, f);
    FirstsSnoc(ks, k);
    if Get(d, k).Some? {
      var i :| 0 <= i < |d| && d[i].0 == k;
      assert Keys(d)[i] == k;
    }
  }

  lemma {:induction false} AbsorbKeys(d: FactDict, ks: seq<string>, b: seq<Fact>)
    requires SelfKeyed(d) && Keys(d) == Firsts(ks)
    ensures Keys(AbsorbAll(d, b)) == Firsts(ks + FactKeys(b))
  {
    hide Trim, Absorb, SelfKeyed, Firsts;
    if b == [] {
      assert ks + [] == ks;
    } else {
      var n := |b| - 1;
      AbsorbKeys(d, ks, b[..n]);
      AbsorbSelfKeyed(d, b[..n]);
      AbsorbKeysStep(AbsorbAll(d, b[..n]), b[n], ks + FactKeys(b[..n]));
      assert ks + (FactKeys(b[..n]) + [Trim(b[n].key)]) == (ks + FactKeys(b[..n])) + [Trim(b[n].key)];
    }
  }

  /** Before sorting, merged facts stand in the order in which their keys first came, first case first. */
  lemma MergedKeysInOrder(a: seq<Fact>, b: seq<Fact>)
    ensures Keys(AbsorbAll(Load(a), b)) == Firsts(FactKeys(a + b))
  {
    hide Load, AbsorbAll, FactKeys, SelfKeyed, Firsts;
    LoadKeys(a);
    LoadSelfKeyed(a);
    AbsorbKeys(Load(a), FactKeys(a), b);
    FactKeysConcat(a, b);
  }

  lemma {:induction false} FirstsPosition<K>(ks: seq<K>, p: int, q: int)
    requires 0 <= p < q < |Firsts(ks)|
    ensures Position(ks, Firsts(ks)[p]) < Position(ks, Firsts(ks)[q])
  {
    hide Position;
    var n := |ks| - 1;
    var before := Firsts(ks[..n]);
    assert ks == ks[..n] + [ks[n]];
    FirstsMembers(ks[..n], Firsts(ks)[p]);
    FirstsMembers(ks[..n], Firsts(ks)[q]);
    if q < |before| {
      FirstsPosition(ks[..n], p, q);
      PositionPrefix(ks, n, before[p]);
      PositionPrefix(ks, n, before[q]);
    } else {
      assert before[p] in before;
      PositionPrefix(ks, n, before[p]);
    }
  }

  lemma PositionPrefix<K>(ks: seq<K>, n: int, k: K)
    requires 0 <= n <= |ks| && k in ks[..n]
    ensures Position(ks, k) == Position(ks[..n], k) < n
  {
    hide Position;
    PositionOf(ks[..n], k);
    var i := Position(ks[..n], k);
    assert ks[i] == k;
    assert forall j | 0 <= j < i :: ks[j] == ks[..n][j] != k;
  }

  /** Facts observed at one time stay in the order in which their keys first came. */
  lemma FactTies(a: seq<Fact>, b: seq<Fact>, i: int, j: int)
    requires var m := MergeFacts(a, b); 0 <= i < j < |m| && m[i].observedAt == m[j].observedAt
    ensures var m := MergeFacts(a, b); Position(FactKeys(a + b), Trim(m[i].key)) < Position(FactKeys(a + b), Trim(m[j].key))
  {
    hide Trim, Load, AbsorbAll, FactKeys, Firsts, SortBy, Position, Get;
    var d := AbsorbAll(Load(a), b);
    var vs, m := Values(d), MergeFacts(a, b);
    LoadSelfKeyed(a);
    AbsorbSelfKeyed(Load(a), b);
    MergedKeysInOrder(a, b);
    ValuesDistinct(d);
    var key := (g: Fact) => Trim(g.key);
    assert forall p, q | 0 <= p < q < |vs| :: vs[p] != vs[q] by {
      forall p, q | 0 <= p < q < |vs| ensures vs[p] != vs[q] { assert key(vs[p]) != key(vs[q]); }
    }
    SortByKeepsOrder(vs, NEWEST_FIRST);
    assert NEWEST_FIRST(m[i]) == NEWEST_FIRST(m[j]);
    SortByMembers(vs, NEWEST_FIRST, m[i]);
    SortByMembers(vs, NEWEST_FIRST, m[j]);
    assert m[i] in m && m[j] in m;
    PositionOf(vs, m[i]);
    PositionOf(vs, m[j]);
    var p, q := Position(vs, m[i]), Position(vs, m[j]);
    FactsSurvive(a, b, m[i]);
    assert key(m[i]) != key(m[j]);
    assert Keys(d)[p] == Trim(m[i].key) && Keys(d)[q] == Trim(m[j].key);
    FirstsPosition(FactKeys(a + b), p, q);
  }
}
