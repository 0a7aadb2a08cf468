/** Merging the second case again: when it changes nothing, exactly, and the time order of
    the second case's facts under which it never does. */
module MergeAgain {
  import opened OrderedDict
  import opened Text
  import opened StableSort
  import opened CaseMerge

  // ---- one key -----------------------------------------------------------------------

  /** Facts that disagree come in time order. */
  predicate Ordered(fs: seq<Fact>) {
    fs == [] || (Ordered(fs[..|fs| - 1]) && NotOlder(fs[..|fs| - 1], fs[|fs| - 1]))
  }

  predicate NotOlder(fs: seq<Fact>, f: Fact) {
    forall g | g in fs && Disagree(g, f) :: g.observedAt <= f.observedAt
  }

  /** Absorbing never goes back in time, keeps values non-empty, and leaves what was there or a fact absorbed. */
  lemma {:induction false} FoldFrom(s: Option<Fact>, fs: seq<Fact>)
    ensures Fold(s, fs) == s || (Fold(s, fs).Some? && Fold(s, fs).value in fs)
    ensures s.Some? ==> Fold(s, fs).Some? && Fold(s, fs).value.observedAt >= s.value.observedAt
    ensures s.Some? && s.value.value != "" ==> Fold(s, fs).value.value != ""
    ensures s.Some? && s.value.value == "" ==> Fold(s, fs) == s
  {
    if fs != [] {
      FoldFrom(s, fs[..|fs| - 1]);
      assert fs == fs[..|fs| - 1] + [fs[|fs| - 1]];
    }
  }

  /** Starting over from a later fact `f`, either `f` stands or the same value is held as before. */
  lemma {:induction false} Tracks(s: Option<Fact>, fs: seq<Fact>, f: Fact)
    requires Ordered(fs) && NotOlder(fs, f) && f.value != ""
    requires Fold(s, fs).Some? ==> Fold(s, fs).value.observedAt <= f.observedAt && Fold(s, fs).value.value != ""
    ensures Fold(Some(f), fs) == Some(f) || (Fold(s, fs).Some? && Fold(Some(f), fs).value.value == Fold(s, fs).value.value)
  {
    if fs != [] {
      var n := |fs| - 1;
      var p := fs[n];
      assert fs == fs[..n] + [p];
      var y, z := Fold(s, fs[..n]), Fold(Some(f), fs[..n]);
      FoldFrom(y, [p]);
      FoldLast(s, fs);
      Tracks(s, fs[..n], f);
      FoldFrom(Some(f), fs[..n]);
    }
  }

  lemma FoldLast(s: Option<Fact>, fs: seq<Fact>)
    requires fs != []
    ensures Fold(s, fs) == Fold(Fold(s, fs[..|fs| - 1]), [fs[|fs| - 1]])
  {
    FoldSnoc(Fold(s, fs[..|fs| - 1]), [], fs[|fs| - 1]);
    assert [] + [fs[|fs| - 1]] == [fs[|fs| - 1]];
    assert Fold(Fold(s, fs[..|fs| - 1]), []) == Fold(s, fs[..|fs| - 1]);
  }

  /** In time order a second pass changes nothing, from any start. */
  lemma {:induction false} FoldTwice(s: Option<Fact>, fs: seq<Fact>)
    requires Ordered(fs)
    ensures Fold(Fold(s, fs), fs) == Fold(s, fs)
  {
    if fs != [] {
      var n := |fs| - 1;
      var f := fs[n];
      var x := Fold(s, fs[..n]);
      FoldTwice(s, fs[..n]);
      FoldFrom(s, fs[..n]);
      if x.Some? && Replaces(x.value, f) {
        Tracks(s, fs[..n], f);
        FoldFrom(Some(f), fs[..n]);
      } else if x.None? {
        assert fs[..n] == [] by { FoldFromNone(s, fs[..n]); }
      }
    }
  }

  lemma FoldFromNone(s: Option<Fact>, fs: seq<Fact>)
    requires Fold(s, fs).None?
    ensures fs == []
  {
  }

  // ---- the exact condition for one key --------------------------------------------------

  /** The last value among the facts at least as new as `x`, or its own. */
  function LastValue(x: Fact, fs: seq<Fact>): string {
    if fs == [] then x.value
    else if fs[|fs| - 1].value != "" && fs[|fs| - 1].observedAt >= x.observedAt then fs[|fs| - 1].value
    else LastValue(x, fs[..|fs| - 1])
  }

  /** Each fact newer than `x` repeats the value before it, among the facts at least as new as `x`. */
  predicate Steady(x: Fact, fs: seq<Fact>) {
    fs == [] ||
    (var f := fs[|fs| - 1]; var before := fs[..|fs| - 1];
     Steady(x, before) && (f.value == "" || f.observedAt <= x.observedAt || f.value == LastValue(x, before)))
  }

  predicate StandsStill(x: Fact, fs: seq<Fact>) { x.value == "" || Steady(x, fs) }

  lemma {:induction false} SteadyWalk(x: Fact, fs: seq<Fact>)
    requires x.value != ""
    ensures Fold(Some(x), fs).Some?
    ensures Steady(x, fs) ==> Fold(Some(x), fs).value.observedAt == x.observedAt && Fold(Some(x), fs).value.value == LastValue(x, fs)
    ensures !Steady(x, fs) ==> Fold(Some(x), fs).value.observedAt > x.observedAt
  {
    FoldFrom(Some(x), fs);
    if fs != [] {
      SteadyWalk(x, fs[..|fs| - 1]);
      FoldFrom(Some(x), fs[..|fs| - 1]);
    }
  }

  /** After a pass, nothing at least as new as the survivor has the last word against it. */
  lemma {:induction false} SurvivorHasLastWord(s: Option<Fact>, fs: seq<Fact>)
    requires Fold(s, fs).Some? && Fold(s, fs).value.value != ""
    ensures LastValue(Fold(s, fs).value, fs) == Fold(s, fs).value.value
  {
    if fs != [] {
      var n := |fs| - 1;
      FoldFrom(s, fs[..n]);
      if Fold(s, fs[..n]).Some? && Fold(s, fs[..n]).value.value != "" { SurvivorHasLastWord(s, fs[..n]); }
    }
  }

  predicate SameReading(f: Fact, g: Fact) { f.value == g.value && f.observedAt == g.observedAt }

  /** A second pass keeps the survivor's value and time exactly when it stands still; otherwise it
      ends with a newer fact. */
  lemma SecondPassIff(s: Option<Fact>, fs: seq<Fact>)
    requires Fold(s, fs).Some?
    ensures var x := Fold(s, fs).value; var y := Fold(Some(x), fs);
            && y.Some? && (StandsStill(x, fs) <==> SameReading(y.value, x))
            && (!StandsStill(x, fs) ==> y.value.observedAt > x.observedAt)
  {
    var x := Fold(s, fs).value;
    FoldFrom(Some(x), fs);
    if x.value != "" {
      SteadyWalk(x, fs);
      SurvivorHasLastWord(s, fs);
    }
  }

  // ---- the whole list -----------------------------------------------------------------------

  lemma {:induction false} UnderMember(facts: seq<Fact>, k: string, f: Fact)
    ensures f in Under(facts, k) <==> f in facts && Trim(f.key) == k
  {
    hide Trim;
    if facts != [] {
      UnderMember(facts[..|facts| - 1], k, f);
      assert facts == facts[..|facts| - 1] + [facts[|facts| - 1]];
    }
  }

  /** The fact that a second merge leaves in place of `x`. */
  function AgainOne(x: Fact, b: seq<Fact>): Fact {
    var y := Fold(Some(x), Under(b, Trim(x.key)));
    if y.Some? then y.value else x
  }

  function Again(m: seq<Fact>, b: seq<Fact>): seq<Fact> {
    seq(|m|, i requires 0 <= i < |m| => AgainOne(m[i], b))
  }

  lemma AgainKeepsKey(x: Fact, b: seq<Fact>)
    ensures Trim(AgainOne(x, b).key) == Trim(x.key)
    ensures Fold(Some(x), Under(b, Trim(x.key))) == Some(AgainOne(x, b))
  {
    hide Trim;
    var k := Trim(x.key);
    FoldFrom(Some(x), Under(b, k));
    UnderMember(b, k, AgainOne(x, b));
  }

  /** Absorbing facts whose keys are all there keeps every key in its place. */
  lemma {:induction false} AbsorbInPlace(d: FactDict, b: seq<Fact>)
    requires SelfKeyed(d) && forall f | f in b && Trim(f.key) != "" :: HasKey(d, Trim(f.key))
    ensures |AbsorbAll(d, b)| == |d| && forall i | 0 <= i < |d| :: AbsorbAll(d, b)[i].0 == d[i].0
  {
    hide Trim, Put, SelfKeyed;
    if b != [] {
      var n := |b| - 1;
      assert b == b[..n] + [b[n]];
      AbsorbInPlace(d, b[..n]);
      AbsorbSelfKeyed(d, b[..n]);
      var before := AbsorbAll(d, b[..n]);
      SelfKeyedDistinct(before);
      if Trim(b[n].key) != "" {
        var w :| 0 <= w < |d| && d[w].0 == Trim(b[n].key);
        assert before[w].0 == d[w].0;
        PutShape(before, Trim(b[n].key), b[n]);
      }
    }
  }

  lemma AbsorbAgain(m: seq<Fact>, b: seq<Fact>)
    requires DistinctBy(m, (g: Fact) => Trim(g.key)) && forall i | 0 <= i < |m| :: Trim(m[i].key) != ""
    requires forall f | f in b && Trim(f.key) != "" :: exists i | 0 <= i < |m| :: Trim(m[i].key) == Trim(f.key)
    ensures Values(AbsorbAll(Load(m), b)) == Again(m, b)
  {
    hide Trim, AbsorbAll, Load, Fold, Under;
    var d := Load(m);
    LoadDistinct(m);
    LoadSelfKeyed(m);
    AbsorbSelfKeyed(d, b);
    KeysThere(d, m, b);
    AbsorbInPlace(d, b);
    var d' := AbsorbAll(d, b);
    forall i | 0 <= i < |m| ensures d'[i].1 == AgainOne(m[i], b) {
      assert Values(d)[i] == m[i] == d[i].1;
      GetUnique(d, i);
      GetUnique(d', i);
      AbsorbGets(d, b, d[i].0);
      AgainKeepsKey(m[i], b);
    }
  }

  lemma KeysThere(d: FactDict, m: seq<Fact>, b: seq<Fact>)
    requires SelfKeyed(d) && Values(d) == m
    requires forall f | f in b && Trim(f.key) != "" :: exists i | 0 <= i < |m| :: Trim(m[i].key) == Trim(f.key)
    ensures forall f | f in b && Trim(f.key) != "" :: HasKey(d, Trim(f.key))
  {
    hide Trim;
    forall f | f in b && Trim(f.key) != "" ensures HasKey(d, Trim(f.key)) {
      var i :| 0 <= i < |m| && Trim(m[i].key) == Trim(f.key);
      assert Values(d)[i] == d[i].1 && d[i].0 == Trim(f.key);
    }
  }

  /** Every key of the second case is in the merge. */
  lemma KeysOfSecond(a: seq<Fact>, b: seq<Fact>, f: Fact) returns (x: Fact)
    requires f in b && Trim(f.key) != ""
    ensures x in MergeFacts(a, b) && Trim(x.key) == Trim(f.key)
  {
    hide Trim, MergeFacts, Fold, Under;
    var k := Trim(f.key);
    UnderMember(b, k, f);
    var fs := Under(b, k);
    var s := LastWith(a, k);
    assert Fold(s, fs).Some? by {
      if Fold(s, fs).None? { FoldFromNone(s, fs); }
    }
    x := Fold(s, fs).value;
    FoldFrom(s, fs);
    UnderMember(b, k, x);
    if s.Some? { var i := LastWithPosition(a, k); }
    FactsSurvive(a, b, x);
  }

  /** The second merge as a list: each fact goes through the second case once more, in place. */
  lemma MergedAgain(a: seq<Fact>, b: seq<Fact>)
    ensures var m := MergeFacts(a, b); MergeFacts(m, b) == SortBy(Again(m, b), NEWEST_FIRST)
  {
    hide Trim, AbsorbAll, Load, Fold, Under, SortBy, Again, MergeFacts;
    var m := MergeFacts(a, b);
    forall i | 0 <= i < |m| ensures Trim(m[i].key) != "" { FactsSurvive(a, b, m[i]); assert m[i] in m; }
    FactsSurvive(a, b, Fact("", "", 0, ""));
    forall f | f in b && Trim(f.key) != "" ensures exists i | 0 <= i < |m| :: Trim(m[i].key) == Trim(f.key) {
      var x := KeysOfSecond(a, b, f);
    }
    AbsorbAgain(m, b);
    assert MergeFacts(m, b) == SortBy(Again(m, b), NEWEST_FIRST) by { MergeFactsIs(m, b); }
  }

  lemma MergeFactsIs(a: seq<Fact>, b: seq<Fact>)
    ensures MergeFacts(a, b) == SortBy(Values(AbsorbAll(Load(a), b)), NEWEST_FIRST)
  {
  }

  /** Each merged fact is what its key's facts fold to. */
  lemma MergedFact(a: seq<Fact>, b: seq<Fact>, i: int)
    requires 0 <= i < |MergeFacts(a, b)|
    ensures var x := MergeFacts(a, b)[i]; Trim(x.key) != "" && Fold(LastWith(a, Trim(x.key)), Under(b, Trim(x.key))) == Some(x)
  {
    hide Trim, MergeFacts, Fold, Under;
    var x := MergeFacts(a, b)[i];
    assert x in MergeFacts(a, b);
    FactsSurvive(a, b, x);
  }

  // ---- time order suffices ---------------------------------------------------------------------

  /** Facts of one key that disagree come in time order; facts under different keys, and facts that
      repeat a value or have none, come in any order. */
  predicate TimeOrdered(b: seq<Fact>) {
    forall i, j | 0 <= i < j < |b| && Trim(b[i].key) == Trim(b[j].key) != "" && Disagree(b[i], b[j]) :: b[i].observedAt <= b[j].observedAt
  }

  lemma {:induction false} UnderOrdered(b: seq<Fact>, k: string)
    requires TimeOrdered(b) && k != ""
    ensures Ordered(Under(b, k))
  {
    hide Trim, Disagree;
    if b != [] {
      var n := |b| - 1;
      UnderOrdered(b[..n], k);
      if Trim(b[n].key) == k {
        var fs := Under(b[..n], k);
        forall g | g in fs && Disagree(g, b[n]) ensures g.observedAt <= b[n].observedAt {
          UnderMember(b[..n], k, g);
          var i :| 0 <= i < n && b[i] == g;
        }
        assert (fs + [b[n]])[..|fs|] == fs;
      }
    }
  }

  lemma DistinctIsOrdered(b: seq<Fact>)
    requires DistinctKeys(b)
    ensures TimeOrdered(b)
  {
    hide Trim;
  }

  /** Merging the second case again changes no fact and no order. */
  lemma FactsAbsorb(a: seq<Fact>, b: seq<Fact>)
    requires TimeOrdered(b)
    ensures MergeFacts(MergeFacts(a, b), b) == MergeFacts(a, b)
  {
    hide Trim, MergeFacts, Fold, Under, TimeOrdered, Ordered;
    var m := MergeFacts(a, b);
    forall i | 0 <= i < |m| ensures AgainOne(m[i], b) == m[i] {
      MergedFact(a, b, i);
      var k := Trim(m[i].key);
      UnderOrdered(b, k);
      FoldTwice(LastWith(a, k), Under(b, k));
    }
    FixedIsAbsorbed(a, b);
  }

  lemma FixedIsAbsorbed(a: seq<Fact>, b: seq<Fact>)
    requires var m := MergeFacts(a, b); forall i | 0 <= i < |m| :: AgainOne(m[i], b) == m[i]
    ensures MergeFacts(MergeFacts(a, b), b) == MergeFacts(a, b)
  {
    hide Trim, MergeFacts, AgainOne;
    var m := MergeFacts(a, b);
    MergedAgain(a, b);
    assert Again(m, b) == m;
    FactsSurvive(a, b, Fact("", "", 0, ""));
    SortByIdentity(m, NEWEST_FIRST);
  }

  /** Merging B into merge(A, B) returns the same facts, documents and history. */
  lemma MergeAbsorbs(a: CaseData, b: CaseData)
    requires TimeOrdered(b.facts)
    ensures Merge(Merge(a, b), b) == Merge(a, b)
  {
    FactsAbsorb(a.facts, b.facts);
    DocumentsAbsorb(a.documents, b.documents);
    HistoryAbsorbs(a.history, b.history);
  }

  // ---- the exact condition ------------------------------------------------------------------------

  /** What the merge reads of a fact: key, value and time. */
  function Readings(fs: seq<Fact>): seq<(string, string, int)> {
    seq(|fs|, i requires 0 <= i < |fs| => (Trim(fs[i].key), fs[i].value, fs[i].observedAt))
  }

  /** No merged fact is overtaken by the second case. */
  predicate AllStandStill(m: seq<Fact>, b: seq<Fact>) {
    forall i | 0 <= i < |m| :: StandsStill(m[i], Under(b, Trim(m[i].key)))
  }

  lemma AgainReads(a: seq<Fact>, b: seq<Fact>, i: int)
    requires 0 <= i < |MergeFacts(a, b)|
    ensures var x := MergeFacts(a, b)[i]; var y := AgainOne(x, b);
            && Trim(y.key) == Trim(x.key)
            && (StandsStill(x, Under(b, Trim(x.key))) <==> SameReading(y, x))
            && (!StandsStill(x, Under(b, Trim(x.key))) ==> y.observedAt > x.observedAt)
  {
    hide Trim, MergeFacts, Fold, Under, StandsStill, SameReading;
    var x := MergeFacts(a, b)[i];
    MergedFact(a, b, i);
    AgainKeepsKey(x, b);
    SecondPassIff(LastWith(a, Trim(x.key)), Under(b, Trim(x.key)));
  }

  /** The exact condition, for all cases: a second merge leaves key, value and time of every fact as
      they are exactly when no merged fact is overtaken. */
  lemma RemergeKeepsReadingsIff(a: seq<Fact>, b: seq<Fact>)
    ensures var m := MergeFacts(a, b); Readings(MergeFacts(m, b)) == Readings(m) <==> AllStandStill(m, b)
  {
    hide Trim, MergeFacts, Fold, Under, StandsStill, SortBy, AgainOne;
    var m := MergeFacts(a, b);
    var again := Again(m, b);
    MergedAgain(a, b);
    FactsSurvive(a, b, Fact("", "", 0, ""));
    if AllStandStill(m, b) {
      forall i | 0 <= i < |m| ensures Trim(again[i].key) == Trim(m[i].key) && SameReading(again[i], m[i]) { AgainReads(a, b, i); }
      assert SortedBy(again, NEWEST_FIRST);
      SortByIdentity(again, NEWEST_FIRST);
      assert Readings(again) == Readings(m);
    } else if Readings(MergeFacts(m, b)) == Readings(m) {
      var i :| 0 <= i < |m| && !StandsStill(m[i], Under(b, Trim(m[i].key)));
      AgainReads(a, b, i);
      Overtaken(m, MergeFacts(m, b), i, again[i], again);
    }
  }

  lemma Overtaken(m: seq<Fact>, m': seq<Fact>, i: int, y: Fact, again: seq<Fact>)
    requires DistinctBy(m, (g: Fact) => Trim(g.key)) && 0 <= i < |m| && y in again && m' == SortBy(again, NEWEST_FIRST)
    requires Trim(y.key) == Trim(m[i].key) && y.observedAt > m[i].observedAt
    ensures Readings(m') != Readings(m)
  {
    hide Trim, SortBy;
    SortByMembers(again, NEWEST_FIRST, y);
    var j :| 0 <= j < |m'| && m'[j] == y;
    if |m'| == |m| {
      assert Readings(m')[j] != Readings(m)[j];
    } else {
      assert |Readings(m')| != |Readings(m)|;
    }
  }

  /** Facts of the second case that the merge cannot tell apart are equal. */
  predicate TwinFree(b: seq<Fact>) {
    forall f, g | f in b && g in b && Trim(f.key) == Trim(g.key) && SameReading(f, g) :: f == g
  }

  lemma SameUnlessTwin(a: seq<Fact>, b: seq<Fact>, i: int)
    requires 0 <= i < |MergeFacts(a, b)| && TwinFree(b)
    requires StandsStill(MergeFacts(a, b)[i], Under(b, Trim(MergeFacts(a, b)[i].key)))
    ensures AgainOne(MergeFacts(a, b)[i], b) == MergeFacts(a, b)[i]
  {
    hide Trim, MergeFacts, Fold, Under, StandsStill;
    var x := MergeFacts(a, b)[i];
    var k := Trim(x.key);
    MergedFact(a, b, i);
    AgainReads(a, b, i);
    AgainKeepsKey(x, b);
    var y := AgainOne(x, b);
    FoldFrom(LastWith(a, k), Under(b, k));
    FoldFrom(Some(x), Under(b, k));
    UnderMember(b, k, x);
    UnderMember(b, k, y);
  }

  /** With no such twins the same condition is exact for the facts themselves. */
  lemma RemergeIff(a: seq<Fact>, b: seq<Fact>)
    requires TwinFree(b)
    ensures var m := MergeFacts(a, b); MergeFacts(m, b) == m <==> AllStandStill(m, b)
  {
    hide Trim, MergeFacts, Fold, Under, StandsStill, AgainOne, TwinFree;
    var m := MergeFacts(a, b);
    RemergeKeepsReadingsIff(a, b);
    if AllStandStill(m, b) {
      forall i | 0 <= i < |m| ensures AgainOne(m[i], b) == m[i] { SameUnlessTwin(a, b, i); }
      FixedIsAbsorbed(a, b);
    }
  }

  // ---- two facts under one key ------------------------------------------------------------------------

  ghost predicate AlwaysAbsorbed(b: seq<Fact>) {
    forall a :: MergeFacts(MergeFacts(a, b), b) == MergeFacts(a, b)
  }

  /** An equal value does not refresh the stored time, so a first case that holds the newer fact's
      value lets the older one through, and the second merge takes it back. */
  lemma OutOfOrderNotAbsorbed(f: Fact, g: Fact)
    requires Trim(f.key) == Trim(g.key) != "" && Disagree(f, g) && f.observedAt > g.observedAt
    ensures var a := [f.(observedAt := g.observedAt)]; MergeFacts(MergeFacts(a, [f, g]), [f, g]) != MergeFacts(a, [f, g])
  {
    hide Trim, MergeFacts;
    var e := f.(observedAt := g.observedAt);
    var k := Trim(f.key);
    assert [f, g][..1] == [f] && [f][..0] == [] && [e][..0] == [];
    assert Under([f], k) == [] + [f] == [f] && Under([f, g], k) == [f, g];
    assert LastWith([e], k) == Some(e);
    assert Fold(Some(e), []) == Some(e) && Fold(Some(e), [f]) == Some(e) && Fold(Some(e), [f, g]) == Some(g);
    FactsSurvive([e], [f, g], g);
    var m := MergeFacts([e], [f, g]);
    var i :| 0 <= i < |m| && m[i] == g;
    assert LastValue(g, []) == g.value && !Steady(g, [f]) && !Steady(g, [f, g]);
    RemergeKeepsReadingsIff([e], [f, g]);
  }

  /** For two facts under one key time order is exact: the second case is absorbed by every first
      case exactly when the two agree or come in time order. */
  lemma PairAbsorbedIff(f: Fact, g: Fact)
    requires Trim(f.key) == Trim(g.key) != ""
    ensures AlwaysAbsorbed([f, g]) <==> !Disagree(f, g) || f.observedAt <= g.observedAt
  {
    hide Trim, MergeFacts;
    if !Disagree(f, g) || f.observedAt <= g.observedAt {
      forall a ensures MergeFacts(MergeFacts(a, [f, g]), [f, g]) == MergeFacts(a, [f, g]) { FactsAbsorb(a, [f, g]); }
    } else {
      OutOfOrderNotAbsorbed(f, g);
    }
  }

  // ---- longer lists -------------------------------------------------------------------------------------

  lemma FoldThree(s: Option<Fact>, f: Fact, g: Fact, h: Fact)
    ensures Fold(s, [f, g, h]) == Survivor(Survivor(Survivor(s, Some(f)), Some(g)), Some(h))
  {
    hide Replaces;
    FoldOne(s, f);
    FoldSnoc(s, [f], g);
    FoldSnoc(s, [f, g], h);
    assert [f] + [g] == [f, g] && [f, g] + [h] == [f, g, h];
  }

  lemma UnderThree(f: Fact, g: Fact, h: Fact, k: string)
    requires Trim(f.key) == Trim(g.key) == Trim(h.key)
    ensures Under([f, g, h], k) == if Trim(f.key) == k then [f, g, h] else []
  {
    hide Trim;
    assert [f, g, h][..2] == [f, g] && [f, g][..1] == [f] && [f][..0] == [];
    assert Under([], k) == [] && Under([f], k) == if Trim(f.key) == k then [f] else [];
    assert Under([f, g], k) == if Trim(f.key) == k then [f, g] else [];
  }

  /** For longer lists time order is not necessary: an older fact that repeats the value before it
      never gets through. */
  lemma TimeOrderNotNecessary() returns (b: seq<Fact>)
    ensures !TimeOrdered(b) && AlwaysAbsorbed(b)
  {
    TrimTrims("k");
    var f, g, h := Fact("k", "v", 5, ""), Fact("k", "w", 6, ""), Fact("k", "w", 3, "");
    b := [f, g, h];
    assert Trim(b[0].key) == Trim(b[2].key) != "" && Disagree(b[0], b[2]);
    hide Trim, MergeFacts, Fold, Under;
    forall a ensures MergeFacts(MergeFacts(a, b), b) == MergeFacts(a, b) {
      var m := MergeFacts(a, b);
      forall i | 0 <= i < |m| ensures AgainOne(m[i], b) == m[i] {
        MergedFact(a, b, i);
        var k := Trim(m[i].key);
        UnderThree(f, g, h, k);
        if k == Trim(f.key) {
          FoldThree(LastWith(a, k), f, g, h);
          FoldThree(Some(m[i]), f, g, h);
        } else {
          FoldOne(Some(m[i]), f);
        }
      }
      FixedIsAbsorbed(a, b);
    }
  }

  // ---- every first case, from the second case alone ---------------------------------------------------------

  /** A value that none of the facts has. */
  function OtherValue(fs: seq<Fact>): string { if fs == [] then "x" else OtherValue(fs[..|fs| - 1]) + fs[|fs| - 1].value }

  lemma {:induction false} OtherValueIsOther(fs: seq<Fact>)
    ensures OtherValue(fs) != "" && forall f | f in fs :: |f.value| < |OtherValue(fs)|
  {
    if fs != [] {
      OtherValueIsOther(fs[..|fs| - 1]);
      assert fs == fs[..|fs| - 1] + [fs[|fs| - 1]];
    }
  }

  /** The values a first case can usefully start from: those of the facts, and another one. */
  function StartValues(fs: seq<Fact>): set<string> { (set f | f in fs :: f.value) + {OtherValue(fs)} }

  /** Facts of one key settle: from nothing, and from every such value at the time of every fact, the
      survivor of one pass stands still. A finite check on the facts alone. */
  predicate SettlesFrom(s: Option<Fact>, fs: seq<Fact>) {
    var x := Fold(s, fs);
    x.Some? ==> StandsStill(x.value, fs)
  }

  predicate Settles(k: string, fs: seq<Fact>) {
    && SettlesFrom(None, fs)
    && forall i, v | 0 <= i < |fs| && v in StartValues(fs) :: SettlesFrom(Some(Fact(k, v, fs[i].observedAt, "")), fs)
  }

  predicate AllSettle(b: seq<Fact>) {
    forall f | f in b && Trim(f.key) != "" :: Settles(Trim(f.key), Under(b, Trim(f.key)))
  }

  /** Starts that the same facts replace lead to the same survivor. */
  lemma {:induction false} SameReplacers(e: Fact, e': Fact, fs: seq<Fact>)
    requires forall f | f in fs :: Replaces(e, f) <==> Replaces(e', f)
    ensures (Fold(Some(e), fs) == Some(e) && Fold(Some(e'), fs) == Some(e')) || Fold(Some(e), fs) == Fold(Some(e'), fs)
  {
    hide Replaces;
    if fs != [] {
      assert fs == fs[..|fs| - 1] + [fs[|fs| - 1]];
      SameReplacers(e, e', fs[..|fs| - 1]);
      FoldSnoc(Some(e), fs[..|fs| - 1], fs[|fs| - 1]);
      FoldSnoc(Some(e'), fs[..|fs| - 1], fs[|fs| - 1]);
    }
  }

  /** The earliest time not before `t`, among the facts. */
  lemma {:induction false} EarliestFrom(fs: seq<Fact>, t: int) returns (i: int)
    requires exists f :: f in fs && f.observedAt >= t
    ensures 0 <= i < |fs| && fs[i].observedAt >= t && forall f | f in fs && f.observedAt >= t :: fs[i].observedAt <= f.observedAt
  {
    var n := |fs| - 1;
    assert fs == fs[..n] + [fs[n]];
    if exists f :: f in fs[..n] && f.observedAt >= t {
      i := EarliestFrom(fs[..n], t);
      if t <= fs[n].observedAt < fs[i].observedAt { i := n; }
    } else {
      i := n;
    }
  }

  lemma {:induction false} ReplacedBySome(e: Fact, fs: seq<Fact>)
    requires Fold(Some(e), fs) != Some(e)
    ensures exists f :: f in fs && Replaces(e, f)
  {
    var n := |fs| - 1;
    assert fs == fs[..n] + [fs[n]];
    if Fold(Some(e), fs[..n]) != Some(e) { ReplacedBySome(e, fs[..n]); }
  }

  /** The finite check covers every start. */
  lemma SettlesFromAny(k: string, fs: seq<Fact>, s: Option<Fact>)
    requires Settles(k, fs)
    ensures SettlesFrom(s, fs)
  {
    hide StandsStill;
    if s.Some? {
      var e := s.value;
      if Fold(s, fs) == s {
        SecondPassIff(s, fs);
        assert SameReading(e, e);
      } else {
        ReplacedBySome(e, fs);
        var i := EarliestFrom(fs, e.observedAt);
        OtherValueIsOther(fs);
        var v := if exists f :: f in fs && f.value == e.value then e.value else OtherValue(fs);
        assert v in StartValues(fs);
        var e' := Fact(k, v, fs[i].observedAt, "");
        assert forall f | f in fs :: Replaces(e, f) <==> Replaces(e', f);
        SameReplacers(e, e', fs);
        assert SettlesFrom(Some(e'), fs);
      }
    }
  }

  ghost predicate AlwaysKeepsReadings(b: seq<Fact>) {
    forall a :: Readings(MergeFacts(MergeFacts(a, b), b)) == Readings(MergeFacts(a, b))
  }

  lemma SettledStandStill(a: seq<Fact>, b: seq<Fact>)
    requires AllSettle(b)
    ensures AllStandStill(MergeFacts(a, b), b)
  {
    hide Trim, MergeFacts, Fold, Under, StandsStill, Settles;
    var m := MergeFacts(a, b);
    forall i | 0 <= i < |m| ensures StandsStill(m[i], Under(b, Trim(m[i].key))) {
      MergedFact(a, b, i);
      var k := Trim(m[i].key);
      var fs := Under(b, k);
      if fs == [] {
        assert StandsStill(m[i], []) by { StillAlone(m[i]); }
      } else {
        UnderMember(b, k, fs[0]);
        SettlesFromAny(k, fs, LastWith(a, k));
      }
    }
  }

  lemma StillAlone(x: Fact)
    ensures StandsStill(x, [])
  {
  }

  /** A start that does not settle is a first case that a second merge changes. */
  lemma UnsettledStart(b: seq<Fact>, k: string, s: Option<Fact>)
    requires k != "" && Trim(k) == k && (s.Some? ==> s.value.key == k) && !SettlesFrom(s, Under(b, k))
    ensures var a := if s.Some? then [s.value] else []; Readings(MergeFacts(MergeFacts(a, b), b)) != Readings(MergeFacts(a, b))
  {
    hide Trim, MergeFacts, Fold, Under, StandsStill, Readings;
    var a := if s.Some? then [s.value] else [];
    assert [k][..0] == [];
    assert LastWith(a, k) == s by { StartOf(a, k, s); }
    var x := Fold(s, Under(b, k)).value;
    FoldFrom(s, Under(b, k));
    UnderMember(b, k, x);
    FactsSurvive(a, b, x);
    var m := MergeFacts(a, b);
    var i :| 0 <= i < |m| && m[i] == x;
    RemergeKeepsReadingsIff(a, b);
  }

  lemma StartOf(a: seq<Fact>, k: string, s: Option<Fact>)
    requires Trim(k) == k && (s.Some? ==> s.value.key == k) && a == if s.Some? then [s.value] else []
    ensures LastWith(a, k) == s
  {
    hide Trim;
  }

  /** The exact condition on the second case alone: merging it again keeps every reading, for all first
      cases, exactly when the facts of each key settle. */
  lemma AlwaysKeepsReadingsIff(b: seq<Fact>)
    ensures AlwaysKeepsReadings(b) <==> AllSettle(b)
  {
    hide Trim, MergeFacts, Under, Readings, SettlesFrom;
    if AllSettle(b) {
      forall a ensures Readings(MergeFacts(MergeFacts(a, b), b)) == Readings(MergeFacts(a, b)) {
        SettledStandStill(a, b);
        RemergeKeepsReadingsIff(a, b);
      }
    }
    if AlwaysKeepsReadings(b) {
      forall f | f in b && Trim(f.key) != "" ensures Settles(Trim(f.key), Under(b, Trim(f.key))) {
        var k := Trim(f.key);
        var fs := Under(b, k);
        TrimIdempotent(f.key);
        if !SettlesFrom(None, fs) { UnsettledStart(b, k, None); }
        forall i, v | 0 <= i < |fs| && v in StartValues(fs) ensures SettlesFrom(Some(Fact(k, v, fs[i].observedAt, "")), fs) {
          var s := Some(Fact(k, v, fs[i].observedAt, ""));
          if !SettlesFrom(s, fs) { UnsettledStart(b, k, s); }
        }
      }
    }
  }

  /** Without twins it is exact for the facts themselves. */
  lemma AlwaysAbsorbedIff(b: seq<Fact>)
    requires TwinFree(b)
    ensures AlwaysAbsorbed(b) <==> AllSettle(b)
  {
    hide Trim, MergeFacts, Under, Readings, Settles, TwinFree;
    AlwaysKeepsReadingsIff(b);
    if AllSettle(b) {
      forall a ensures MergeFacts(MergeFacts(a, b), b) == MergeFacts(a, b) {
        SettledStandStill(a, b);
        RemergeIff(a, b);
      }
    }
  }
}
