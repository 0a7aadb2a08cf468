/** The linker rule by rule: what each piece of evidence is worth, which offer of a key is kept, how
    ties are ranked, and when exactly each override applies. */
module CaseLinkerRules {
  import opened OrderedDict
  import opened Text
  import opened CaseLinker
  import StableSort

  // ---- what evidence is worth -------------------------------------------------------------

  predicate Inside(score: int) { 0 < score < 10000 }

  /** A plain offer scores its base. */
  lemma PlainScore(c: Offer, e: Evidence)
    requires c.source !in {ExplicitReference, Thread} && Trim(e.threadId) == "" && !e.reviewRequired && e.caseLinkConfidence == 0
    ensures Score(c, e).score == (if c.base < 0 then 0 else if c.base > 10000 then 10000 else c.base)
    ensures Score(c, e).caseKey == Trim(c.caseKey) && Score(c, e).source == c.source && Score(c, e).reasons == NonBlank(c.reasons)
  {
    hide Trim, NonBlank, CountHard;
    assert NonBlank(c.reasons) + [] == NonBlank(c.reasons);
  }

  /** Within the scale, a review costs 0.05. */
  lemma ReviewCosts(c: Offer, e: Evidence)
    requires Score(c, e.(reviewRequired := false)).score >= 500 && Score(c, e.(reviewRequired := false)).score < 10000
    ensures Score(c, e.(reviewRequired := true)).score == Score(c, e.(reviewRequired := false)).score - 500
  {
    hide Trim, NonBlank, CountHard;
  }

  /** An explicit source is worth 0.08, a thread source 0.02, and any other nothing. */
  lemma SourceBonus(c: Offer, e: Evidence)
    requires 0 < Score(c.(source := NoSource), e).score < 9200
    ensures Score(c, e).score - Score(c.(source := NoSource), e).score
            == if c.source == ExplicitReference then 800 else if c.source == Thread then 200 else 0
  {
    hide Trim, NonBlank, CountHard;
  }

  /** A thread key is worth 0.01 to a message in a thread, and is noted as a reason. */
  lemma ThreadKeyBonus(c: Offer, e: Evidence, t: string)
    requires Trim(t) != "" && Trim("") == "" && 0 < Score(c, e.(threadId := "")).score < 9900
    ensures Score(c, e.(threadId := t)).score - Score(c, e.(threadId := "")).score == if "thread:" <= c.caseKey then 100 else 0
    ensures Score(c, e.(threadId := t)).reasons == Score(c, e.(threadId := "")).reasons + if "thread:" <= c.caseKey then ["thread_key_selected"] else []
  {
    hide Trim, NonBlank, CountHard;
  }

  /** The intake's own confidence is worth a twentieth, at most 0.05. */
  lemma ConfidenceShare(c: Offer, e: Evidence, k: int)
    requires 0 < Score(c, e.(caseLinkConfidence := 0)).score <= 9500 && 0 <= k
    ensures Score(c, e.(caseLinkConfidence := 20 * k)).score - Score(c, e.(caseLinkConfidence := 0)).score == if k <= 500 then k else 500
  {
    hide Trim, NonBlank, CountHard;
  }

  /** Off the grid the share is the nearest step. */
  lemma ShareIsNearest(confidence: int)
    ensures -10 < 20 * TwentiethOf(confidence) - confidence <= 10
  {
  }

  /** Hard evidence is counted reason by reason. */
  lemma HardCount(c: Offer, e: Evidence)
    ensures Score(c, e).hard == CountHard(Score(c, e).reasons)
  {
    hide Trim, NonBlank, CountHard;
  }

  lemma {:induction false} CountHardConcat(a: seq<string>, b: seq<string>)
    ensures CountHard(a + b) == CountHard(a) + CountHard(b)
  {
    hide IsHard;
    if b == [] {
      assert a + b == a;
    } else {
      assert (a + b)[..|a + b| - 1] == a + b[..|b| - 1];
      CountHardConcat(a, b[..|b| - 1]);
    }
  }

  ghost predicate HasPart(s: string, part: string) { exists i :: 0 <= i <= |s| && part <= s[i..] }

  lemma {:induction false} ContainsIs(s: string, part: string)
    ensures Contains(s, part) <==> HasPart(s, part)
  {
    assert s[0..] == s;
    if s == "" {
      if i :| 0 <= i <= |s| && part <= s[i..] { assert s[i..] == s; }
    } else {
      ContainsIs(s[1..], part);
      if i :| 0 <= i <= |s| - 1 && part <= s[1..][i..] { assert s[i + 1..] == s[1..][i..]; }
      if i :| 0 < i <= |s| && part <= s[i..] { assert s[1..][i - 1..] == s[i..]; }
    }
  }

  /** A reason is hard when it mentions an explicit reference or a thread. */
  lemma HardIs(reason: string)
    ensures IsHard(reason) <==> HasPart(reason, "explicit") || HasPart(reason, "thread")
  {
    hide Contains, HasPart;
    ContainsIs(reason, "explicit");
    ContainsIs(reason, "thread");
  }

  predicate SameSubject(m: ContextMessage, e: Evidence) { Trim(e.subject) != "" && Trim(e.subject) == Trim(m.subject) }

  /** A context message is worth 0.35, and 0.35 more in the same thread, 0.15 more under the same subject,
      and 0.05 per shared participant up to three; each with its reason. */
  lemma ContextWorth(m: ContextMessage, e: Evidence)
    ensures var o := ContextOffer(m, e); var shared := |e.participants * m.participants|;
            && o.base - 3500 == (if SameThread(m, e) then 3500 else 0) + (if SameSubject(m, e) then 1500 else 0)
                                + (if shared >= 3 then 1500 else 500 * shared)
            && ("same_message_thread" in o.reasons <==> SameThread(m, e))
            && ("subject_continuity" in o.reasons <==> SameSubject(m, e))
            && ("participant_overlap" in o.reasons <==> shared > 0)
            && ("context_message_reference" in o.reasons <==> !SameThread(m, e) && !SameSubject(m, e) && shared == 0)
            && o.source == ContextCandidate
  {
    hide Trim, ContextKey;
  }

  /** It stands for its first case token, or for its thread, or for nothing. */
  lemma ContextStandsFor(m: ContextMessage, e: Evidence)
    ensures var k := ContextOffer(m, e).caseKey;
            if m.caseTokens != [] then k == Trim(m.caseTokens[0])
            else if Trim(m.threadId) != "" then k == "thread:" + Trim(m.threadId) else k == ""
  {
    hide Trim;
  }

  /** A reference with a digit is brought to the form CASE-..., once; one without is left as it is. */
  lemma ExplicitKeyForm(token: string, upper: string -> string)
    ensures var t := upper(Trim(token)); var k := ExplicitKey(token, upper);
            && (k == t || k == "CASE-" + t)
            && ((exists i :: 0 <= i < |t| && '0' <= t[i] <= '9') ==> "CASE-" <= k)
            && ("CASE-" <= t || (forall i | 0 <= i < |t| :: !('0' <= t[i] <= '9')) ==> k == t)
  {
    hide Trim;
  }

  // ---- which offer is kept -----------------------------------------------------------------

  /** The candidates are the first offers of their keys, in the order of the offers. */
  lemma {:induction false} CollectedInOrder(offers: seq<Offer>) returns (at: seq<int>)
    ensures |at| == |FirstPerKey(offers)|
    ensures forall i | 0 <= i < |at| ::
              && 0 <= at[i] < |offers|
              && FirstPerKey(offers)[i] == offers[at[i]].(caseKey := Trim(offers[at[i]].caseKey))
              && forall j | 0 <= j < at[i] :: Trim(offers[j].caseKey) != Trim(offers[at[i]].caseKey)
    ensures forall i, j | 0 <= i < j < |at| :: at[i] < at[j]
  {
    hide Trim;
    at := [];
    if offers != [] {
      var n := |offers| - 1;
      at := CollectedInOrder(offers[..n]);
      assert forall j | 0 <= j < n :: offers[..n][j] == offers[j];
      var k := Trim(offers[n].caseKey);
      if k != "" && !KeyOffered(offers[..n], k) { at := at + [n]; }
    }
  }

  /** A key offered earlier keeps its earlier offer. */
  lemma EarlierWins(xs: seq<Offer>, ys: seq<Offer>, c: Offer)
    requires c in FirstPerKey(xs + ys) && KeyOffered(xs, c.caseKey)
    ensures c in FirstPerKey(xs)
  {
    hide Trim, KeyOffered, FirstPerKey;
    var all, front := FirstPerKey(xs + ys), FirstPerKey(xs);
    CollectedFirst(xs, ys);
    CollectedKeysClean(xs + ys);
    CollectedKeys(xs, c.caseKey);
    var i :| 0 <= i < |all| && all[i] == c;
    var j :| 0 <= j < |front| && front[j].caseKey == c.caseKey;
    assert all[j] == front[j];
    assert i == j;
  }

  function ContextOffers(e: Evidence): seq<Offer> { seq(|e.context|, i requires 0 <= i < |e.context| => ContextOffer(e.context[i], e)) }

  /** A candidate comes from the first place that offers its key: the references of the message, then its
      snapshot, the intake, the context, and the bundle. */
  lemma CandidatePrecedence(e: Evidence, upper: string -> string, c: Offer)
    requires c in FirstPerKey(Offers(e, upper))
    ensures var refs := Explicit(e, upper); var k := c.caseKey;
            && (KeyOffered(refs, k) ==> c in FirstPerKey(refs))
            && (KeyOffered(refs + e.snapshotOffers, k) ==> c in FirstPerKey(refs + e.snapshotOffers))
            && (KeyOffered(refs + e.snapshotOffers + e.intakeOffers, k) ==> c in FirstPerKey(refs + e.snapshotOffers + e.intakeOffers))
            && (KeyOffered(refs + e.snapshotOffers + e.intakeOffers + ContextOffers(e), k) ==>
                  c in FirstPerKey(refs + e.snapshotOffers + e.intakeOffers + ContextOffers(e)))
  {
    hide Trim, KeyOffered, FirstPerKey, Explicit, ContextOffer;
    var refs, s, i, x, b := Explicit(e, upper), e.snapshotOffers, e.intakeOffers, ContextOffers(e), e.bundleOffers;
    var all := Offers(e, upper);
    assert all == refs + s + i + x + b;
    assert all == refs + (s + i + x + b) && all == (refs + s) + (i + x + b) && all == (refs + s + i) + (x + b);
    if KeyOffered(refs, c.caseKey) { EarlierWins(refs, s + i + x + b, c); }
    if KeyOffered(refs + s, c.caseKey) { EarlierWins(refs + s, i + x + b, c); }
    if KeyOffered(refs + s + i, c.caseKey) { EarlierWins(refs + s + i, x + b, c); }
    if KeyOffered(refs + s + i + x, c.caseKey) { EarlierWins(refs + s + i + x, b, c); }
  }

  // ---- ties ------------------------------------------------------------------------------------

  lemma {:induction false} KeyedOnlyIn(cs: seq<Scored>, c: Scored)
    requires c in KeyedOnly(cs)
    ensures c in cs
  {
    hide Trim;
    var n := |cs| - 1;
    assert cs == cs[..n] + [cs[n]];
    if c in KeyedOnly(cs[..n]) { KeyedOnlyIn(cs[..n], c); }
  }

  lemma SnocSorted(cs: seq<Scored>, c: Scored, place: Scored -> int)
    requires StableSort.SortedBy(cs, place) && forall x | x in cs :: place(x) <= place(c)
    ensures StableSort.SortedBy(cs + [c], place)
  {
  }

  lemma PrefixSorted(cs: seq<Scored>, place: Scored -> int)
    requires StableSort.SortedBy(cs, place) && cs != []
    ensures StableSort.SortedBy(cs[..|cs| - 1], place) && forall x | x in cs[..|cs| - 1] :: place(x) <= place(cs[|cs| - 1])
  {
    var n := |cs| - 1;
    forall x | x in cs[..n] ensures place(x) <= place(cs[n]) {
      var i :| 0 <= i < n && cs[..n][i] == x;
      assert cs[i] == x;
    }
    forall i, j | 0 <= i < j < n ensures place(cs[..n][i]) <= place(cs[..n][j]) { assert cs[..n][i] == cs[i] && cs[..n][j] == cs[j]; }
  }

  lemma {:induction false} KeyedOnlyOrder(cs: seq<Scored>, place: Scored -> int)
    requires StableSort.SortedBy(cs, place)
    ensures StableSort.SortedBy(KeyedOnly(cs), place)
  {
    hide Trim, StableSort.SortedBy;
    if cs == [] {
      assert KeyedOnly(cs) == cs;
    } else {
      var n := |cs| - 1;
      PrefixSorted(cs, place);
      KeyedOnlyOrder(cs[..n], place);
      forall x | x in KeyedOnly(cs[..n]) ensures place(x) <= place(cs[n]) { KeyedOnlyIn(cs[..n], x); }
      SnocSorted(KeyedOnly(cs[..n]), cs[n], place);
    }
  }

  /** Candidates with equal score and equal hard evidence are ranked as they came. */
  lemma RankKeepsArrival(cs: seq<Scored>, i: int, j: int)
    requires DistinctKeys(cs) && 0 <= i < j < |Rank(cs)|
    requires Rank(cs)[i].score == Rank(cs)[j].score && Rank(cs)[i].hard == Rank(cs)[j].hard
    ensures StableSort.Position(cs, Rank(cs)[i]) <= StableSort.Position(cs, Rank(cs)[j])
  {
    hide StableSort.SortBy, Trim, KeyedOnly, StableSort.Position;
    var place := (c: Scored) => StableSort.Position(cs, c);
    forall a, b | 0 <= a < b < |cs| ensures place(cs[a]) <= place(cs[b]) {
      assert StableSort.Position(cs, cs[a]) == a && StableSort.Position(cs, cs[b]) == b;
    }
    KeyedOnlyOrder(cs, place);
    var hard, score := (c: Scored) => 0 - c.hard, (c: Scored) => 0 - c.score;
    var byHard := StableSort.SortBy(KeyedOnly(cs), hard);
    StableSort.SortByStable(KeyedOnly(cs), hard, place);
    var both := (c: Scored) => (0 - c.hard) * (|cs| + 1) + StableSort.Position(cs, c);
    forall a, b | 0 <= a < b < |byHard| ensures both(byHard[a]) <= both(byHard[b]) {
      assert StableSort.InOrder(byHard[a], byHard[b], hard, place);
      CombinedOrder(0 - byHard[a].hard, 0 - byHard[b].hard, place(byHard[a]), place(byHard[b]), |cs|);
    }
    StableSort.SortByStable(byHard, score, both);
    assert StableSort.InOrder(Rank(cs)[i], Rank(cs)[j], score, both);
  }

  lemma {:induction false} Multiples(k: nat, m: nat)
    requires k >= 1
    ensures k * m >= m
  {
    if k > 1 {
      Multiples(k - 1, m);
      assert k * m == (k - 1) * m + m;
    }
  }

  lemma CombinedOrder(a: int, b: int, p: int, q: int, n: nat)
    requires 0 <= p <= n && 0 <= q <= n && (a < b || (a == b && p <= q))
    ensures a * (n + 1) + p <= b * (n + 1) + q
  {
    if a < b {
      Multiples(b - a, n + 1);
      assert b * (n + 1) == a * (n + 1) + (b - a) * (n + 1);
    }
  }

  // ---- the two overrides ------------------------------------------------------------------------

  /** Candidate `i` is the first explicit reference in the ranking. */
  predicate FirstReferenceAt(ranked: seq<Scored>, i: int) {
    0 <= i < |ranked| && ranked[i].source == ExplicitReference && forall j | 0 <= j < i :: ranked[j].source != ExplicitReference
  }

  predicate NoReference(ranked: seq<Scored>) { forall j | 0 <= j < |ranked| :: ranked[j].source != ExplicitReference }

  lemma {:induction false} FirstExplicitIs(ranked: seq<Scored>)
    ensures NoReference(ranked) <==> FirstExplicit(ranked).None?
    ensures forall i | FirstReferenceAt(ranked, i) :: FirstExplicit(ranked) == Some(ranked[i])
  {
    if ranked != [] {
      var t := ranked[1..];
      FirstExplicitIs(t);
      assert forall j | 0 < j < |ranked| :: ranked[j] == t[j - 1];
      if ranked[0].source != ExplicitReference {
        forall i | FirstReferenceAt(ranked, i) ensures FirstExplicit(ranked) == Some(ranked[i]) { assert FirstReferenceAt(t, i - 1); }
        if NoReference(t) { assert NoReference(ranked); }
        if NoReference(ranked) { assert forall j | 0 <= j < |t| :: t[j] == ranked[j + 1]; }
      }
    }
  }

  /** The runner-up displaces `c`: it is within 0.08 and has strictly more hard evidence. */
  predicate Displaced(ranked: seq<Scored>, c: Scored) {
    |ranked| > 1 && c.score - ranked[1].score <= 800 && ranked[1].hard > c.hard
  }

  /** The first rule applies: the best scores at least 0.85 and candidate `i` at most 0.05 less. */
  predicate StrongAndNear(ranked: seq<Scored>, i: int) {
    0 <= i < |ranked| && ranked[0].score >= 8500 && ranked[0].score - ranked[i].score <= 500
  }

  /** With a strong best and an explicit reference near it, the first reference is chosen unless the
      runner-up displaces it; from 0.85 on the message is then linked to it. */
  lemma ReferenceOverrides(ranked: seq<Scored>, i: int)
    requires FirstReferenceAt(ranked, i) && StrongAndNear(ranked, i)
    ensures Displaced(ranked, ranked[i]) ==> Chosen(ranked) == ranked[1]
    ensures !Displaced(ranked, ranked[i]) ==> Chosen(ranked) == ranked[i] && (ranked[i].score >= 8500 ==> VerdictOf(ranked) == Linked)
  {
    hide FirstExplicit;
    FirstExplicitIs(ranked);
  }

  /** Otherwise the best is chosen unless the runner-up displaces it. */
  lemma BestUnlessDisplaced(ranked: seq<Scored>)
    requires ranked != [] && forall i | FirstReferenceAt(ranked, i) :: !StrongAndNear(ranked, i)
    ensures Chosen(ranked) == if Displaced(ranked, ranked[0]) then ranked[1] else ranked[0]
  {
    hide FirstExplicit;
    FirstExplicitIs(ranked);
    if !NoReference(ranked) {
      var i := FirstReference(ranked);
      assert FirstExplicit(ranked) == Some(ranked[i]);
    }
  }

  lemma {:induction false} FirstReference(ranked: seq<Scored>) returns (i: int)
    requires !NoReference(ranked)
    ensures FirstReferenceAt(ranked, i)
  {
    if ranked[0].source == ExplicitReference {
      i := 0;
    } else {
      assert forall j | 0 < j < |ranked| :: ranked[j] == ranked[1..][j - 1];
      i := FirstReference(ranked[1..]);
      i := i + 1;
    }
  }

  /** The verdict on the chosen candidate: competing when the runner-up is firm too and within 0.08, unless
      the chosen one is an explicit reference of at least 0.85; else by its score. */
  lemma VerdictExact(ranked: seq<Scored>)
    requires ranked != []
    ensures var c := Chosen(ranked);
            var competes := |ranked| > 1 && c.score >= 7200 && ranked[1].score >= 7200
                            && -800 <= c.score - ranked[1].score <= 800 && (c.source == ExplicitReference ==> c.score < 8500);
            VerdictOf(ranked) == if competes then CompetingLinks else if c.score >= 7200 then Linked else if c.score >= 4500 then WeakLink else NoLink
  {
    hide Chosen;
  }

  /** A better-scored thread candidate, with more evidence even, does not take the place of the case a
      message names. */
  lemma ReferenceBeatsBetterThread(best: Scored, reference: Scored)
    requires best.source != ExplicitReference && reference.source == ExplicitReference
    requires best.score >= reference.score >= 8500 && best.score - reference.score <= 500
    ensures Chosen([best, reference]) == reference && VerdictOf([best, reference]) == Linked
  {
    hide FirstExplicit, Chosen, VerdictOf;
    var ranked := [best, reference];
    assert FirstReferenceAt(ranked, 1) && StrongAndNear(ranked, 1);
    ReferenceOverrides(ranked, 1);
  }

  /** The reasons told: those of the chosen candidate, with a note when links compete, and never none. */
  lemma ReasonsTold(ranked: seq<Scored>)
    ensures ranked == [] ==> ReasonsOf(ranked) == ["no_case_candidates"]
    ensures ranked != [] && VerdictOf(ranked) == CompetingLinks ==> ReasonsOf(ranked) == Chosen(ranked).reasons + ["multiple_similar_candidates"]
    ensures ranked != [] && VerdictOf(ranked) != CompetingLinks && Chosen(ranked).reasons != [] ==> ReasonsOf(ranked) == Chosen(ranked).reasons
    ensures ranked != [] && VerdictOf(ranked) != CompetingLinks && Chosen(ranked).reasons == [] ==>
              ReasonsOf(ranked) == [match VerdictOf(ranked) case Linked => "linked_selected" case WeakLink => "weak_link_selected" case _ => "no_link_selected"]
  {
    hide Chosen;
    assert "linked" + "_selected" == "linked_selected";
    assert "weak_link" + "_selected" == "weak_link_selected";
    assert "no_link" + "_selected" == "no_link_selected";
  }
}
