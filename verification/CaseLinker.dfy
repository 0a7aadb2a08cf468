/** Deterministic case linking: collect candidates once per key, score them, and pick
    with two override rules. Scores are in ten-thousandths. */
module CaseLinker {
  import opened OrderedDict
  import opened Text
  import StableSort

  datatype LinkSource = ExplicitReference | Thread | SubjectContinuity | EntityMatch | ContextCandidate | NoSource

  datatype Offer = Offer(caseKey: string, source: LinkSource, reasons: seq<string>, base: int)

  datatype ContextMessage = ContextMessage(caseTokens: seq<string>, threadId: string, subject: string, participants: set<string>)

  /** The evidence that linking looks at. Offers that already carry a key arrive with their source
      normalised and their confidence clamped. */
  datatype Evidence = Evidence(
    referenceTokens: seq<string>, snapshotOffers: seq<Offer>, intakeOffers: seq<Offer>,
    context: seq<ContextMessage>, bundleOffers: seq<Offer>,
    threadId: string, subject: string, participants: set<string>,
    reviewRequired: bool, caseLinkConfidence: int)

  datatype Scored = Scored(caseKey: string, score: int, source: LinkSource, reasons: seq<string>, hard: int)

  datatype Verdict = NoLink | WeakLink | Linked | CompetingLinks

  datatype Decision = Decision(selected: string, verdict: Verdict, confidence: int, source: LinkSource, reasons: seq<string>,
                               candidates: seq<Scored>)

  // ---- collect -----------------------------------------------------------------------

  predicate HasDigit(s: string) { exists i | 0 <= i < |s| :: IsDigit(s[i]) }

  predicate StartsWith(s: string, p: string) { p <= s }

  predicate Contains(s: string, sub: string) { sub <= s || (s != "" && Contains(s[1..], sub)) }

  function ExplicitKey(token: string, upper: string -> string): string {
    var t := upper(Trim(token));
    if t != "" && !StartsWith(t, "CASE-") && HasDigit(t) then "CASE-" + t else t
  }

  function ContextKey(m: ContextMessage): string {
    if m.caseTokens != [] then Trim(m.caseTokens[0])
    else if Trim(m.threadId) != "" then "thread:" + Trim(m.threadId) else ""
  }

  function ContextOffer(m: ContextMessage, e: Evidence): Offer {
    var sameThread := Trim(m.threadId) != "" && Trim(m.threadId) == Trim(e.threadId);
    var sameSubject := Trim(e.subject) != "" && Trim(e.subject) == Trim(m.subject);
    var overlap := |e.participants * m.participants|;
    var reasons := (if sameThread then ["same_message_thread"] else []) + (if sameSubject then ["subject_continuity"] else [])
                   + (if overlap > 0 then ["participant_overlap"] else []);
    Offer(ContextKey(m), ContextCandidate, if reasons == [] then ["context_message_reference"] else reasons,
          3500 + (if sameThread then 3500 else 0) + (if sameSubject then 1500 else 0) + (if 500 * overlap < 1500 then 500 * overlap else 1500))
  }

  function Explicit(e: Evidence, upper: string -> string): seq<Offer> {
    seq(|e.referenceTokens|, i requires 0 <= i < |e.referenceTokens| =>
      Offer(ExplicitKey(e.referenceTokens[i], upper), ExplicitReference, ["explicit_case_reference_in_message"], 9400))
  }

  function Offers(e: Evidence, upper: string -> string): seq<Offer> {
    Explicit(e, upper)
    + e.snapshotOffers + e.intakeOffers
    + seq(|e.context|, i requires 0 <= i < |e.context| => ContextOffer(e.context[i], e))
    + e.bundleOffers
  }

  predicate KeyOffered(offers: seq<Offer>, k: string) { exists i | 0 <= i < |offers| :: Trim(offers[i].caseKey) == k }

  /** The first offer of every non-blank key, in order, under its trimmed key. */
  function FirstPerKey(offers: seq<Offer>): seq<Offer> {
    if offers == [] then []
    else
      var n := |offers| - 1;
      var k := Trim(offers[n].caseKey);
      if k == "" || KeyOffered(offers[..n], k) then FirstPerKey(offers[..n])
      else FirstPerKey(offers[..n]) + [offers[n].(caseKey := k)]
  }

  method CollectCaseCandidates(e: Evidence, upper: string -> string) returns (candidates: seq<Offer>)
    ensures candidates == FirstPerKey(Offers(e, upper))
  {
    hide Trim, Offers, KeyOffered;
    var offers := Offers(e, upper);
    NoKeysYet(offers);
    candidates := [];
    var seen: set<string> := {};
    var i := 0;
    while i < |offers|
      invariant 0 <= i <= |offers|
      invariant candidates == FirstPerKey(offers[..i])
      invariant forall k | k != "" :: k in seen <==> KeyOffered(offers[..i], k)
    {
      var key := Trim(offers[i].caseKey);
      assert offers[..i + 1][..i] == offers[..i];
      SeenGrows(offers, i);
      if key != "" && key !in seen {
        seen := seen + {key};
        candidates := candidates + [offers[i].(caseKey := key)];
      }
      i := i + 1;
    }
    assert offers[..i] == offers;
  }

  lemma NoKeysYet(offers: seq<Offer>)
    ensures forall k :: !KeyOffered(offers[..0], k)
  {
  }

  lemma SeenGrows(offers: seq<Offer>, i: int)
    requires 0 <= i < |offers|
    ensures forall k :: KeyOffered(offers[..i + 1], k) <==> KeyOffered(offers[..i], k) || k == Trim(offers[i].caseKey)
  {
    forall k ensures KeyOffered(offers[..i + 1], k) <==> KeyOffered(offers[..i], k) || k == Trim(offers[i].caseKey) {
      if KeyOffered(offers[..i], k) {
        var j :| 0 <= j < i && Trim(offers[..i][j].caseKey) == k;
        assert offers[..i + 1][j] == offers[..i][j];
      }
      if k == Trim(offers[i].caseKey) { assert offers[..i + 1][i] == offers[i]; }
      if KeyOffered(offers[..i + 1], k) && k != Trim(offers[i].caseKey) {
        var j :| 0 <= j < i + 1 && Trim(offers[..i + 1][j].caseKey) == k;
        assert offers[..i][j] == offers[..i + 1][j];
      }
    }
  }

  predicate KeyCollected(cs: seq<Offer>, k: string) { exists i | 0 <= i < |cs| :: cs[i].caseKey == k }

  lemma KeyCollectedSnoc(cs: seq<Offer>, c: Offer, k: string)
    ensures KeyCollected(cs + [c], k) <==> KeyCollected(cs, k) || c.caseKey == k
  {
    var ds := cs + [c];
    if KeyCollected(cs, k) {
      var i :| 0 <= i < |cs| && cs[i].caseKey == k;
      assert ds[i].caseKey == k;
    }
    if c.caseKey == k { assert ds[|cs|].caseKey == k; }
    if KeyCollected(ds, k) {
      var i :| 0 <= i < |ds| && ds[i].caseKey == k;
      assert i < |cs| ==> cs[i].caseKey == k;
    }
  }

  ghost predicate CleanKeys(cs: seq<Offer>) {
    && (forall i, j | 0 <= i < j < |cs| :: cs[i].caseKey != cs[j].caseKey)
    && (forall i | 0 <= i < |cs| :: cs[i].caseKey != "" && Trim(cs[i].caseKey) == cs[i].caseKey)
  }

  /** Collected keys are trimmed, non-blank and pairwise different. */
  lemma {:induction false} CollectedKeysClean(offers: seq<Offer>)
    ensures CleanKeys(FirstPerKey(offers))
  {
    hide KeyOffered, KeyCollected, Trim;
    if offers != [] {
      var n := |offers| - 1;
      CollectedKeysClean(offers[..n]);
      var before := FirstPerKey(offers[..n]);
      var key := Trim(offers[n].caseKey);
      TrimIdempotent(offers[n].caseKey);
      CollectedKeys(offers[..n], key);
      forall i | 0 <= i < |before| ensures before[i].caseKey == key ==> KeyCollected(before, key) {
        CollectedAt(before, i);
      }
    }
  }

  lemma CollectedAt(cs: seq<Offer>, i: int)
    requires 0 <= i < |cs|
    ensures KeyCollected(cs, cs[i].caseKey)
  {
  }

  /** Exactly the non-blank keys on offer are collected. */
  lemma {:induction false} CollectedKeys(offers: seq<Offer>, k: string)
    ensures KeyCollected(FirstPerKey(offers), k) <==> k != "" && KeyOffered(offers, k)
  {
    if offers != [] {
      hide KeyOffered, KeyCollected, Trim;
      var n := |offers| - 1;
      CollectedKeys(offers[..n], k);
      SeenGrows(offers, n);
      assert offers[..n + 1] == offers;
      KeyCollectedSnoc(FirstPerKey(offers[..n]), offers[n].(caseKey := Trim(offers[n].caseKey)), k);
    }
  }

  // ---- score -----------------------------------------------------------------------------

  predicate IsHard(reason: string) { Contains(reason, "explicit") || Contains(reason, "thread") }

  function CountHard(reasons: seq<string>): nat {
    if reasons == [] then 0 else CountHard(reasons[..|reasons| - 1]) + if IsHard(reasons[|reasons| - 1]) then 1 else 0
  }

  function Clamp(x: int): int { if x < 0 then 0 else if x > 10000 then 10000 else x }

  /** Five percent of a confidence, rounded. */
  function TwentiethOf(confidence: int): int { (confidence + 10) / 20 }

  /** What the intake adds to every candidate alike: a review penalty and a share of its own
      confidence, which is capped above and not below. */
  function Adjustment(reviewRequired: bool, confidence: int): int {
    (if TwentiethOf(confidence) < 500 then TwentiethOf(confidence) else 500) - if reviewRequired then 500 else 0
  }

  function Score(c: Offer, e: Evidence): Scored {
    var threadKey := Trim(e.threadId) != "" && StartsWith(c.caseKey, "thread:");
    var reasons := NonBlank(c.reasons) + if threadKey then ["thread_key_selected"] else [];
    var raw := c.base
               + (if c.source == ExplicitReference then 800 else 0) + (if c.source == Thread then 200 else 0)
               + (if threadKey then 100 else 0) + Adjustment(e.reviewRequired, e.caseLinkConfidence);
    Scored(Trim(c.caseKey), Clamp(raw), c.source, reasons, CountHard(reasons))
  }

  function ScoreAll(cs: seq<Offer>, e: Evidence): seq<Scored> {
    seq(|cs|, i requires 0 <= i < |cs| => Score(cs[i], e))
  }

  // ---- pick --------------------------------------------------------------------------------

  function KeyedOnly(cs: seq<Scored>): seq<Scored> {
    if cs == [] then []
    else if Trim(cs[|cs| - 1].caseKey) == "" then KeyedOnly(cs[..|cs| - 1])
    else KeyedOnly(cs[..|cs| - 1]) + [cs[|cs| - 1]]
  }

  /** Best score first, ties by hard evidence, remaining ties in arrival order. */
  function Rank(cs: seq<Scored>): seq<Scored> {
    StableSort.SortBy(StableSort.SortBy(KeyedOnly(cs), (c: Scored) => 0 - c.hard), (c: Scored) => 0 - c.score)
  }

  function FirstExplicit(ranked: seq<Scored>): Option<Scored> {
    if ranked == [] then None
    else if ranked[0].source == ExplicitReference then Some(ranked[0]) else FirstExplicit(ranked[1..])
  }

  function AfterExplicitRule(ranked: seq<Scored>): Scored
    requires ranked != []
  {
    var x := FirstExplicit(ranked);
    if x.Some? && ranked[0].score >= 8500 && ranked[0].score - x.value.score <= 500 then x.value else ranked[0]
  }

  function Chosen(ranked: seq<Scored>): Scored
    requires ranked != []
  {
    var best := AfterExplicitRule(ranked);
    if |ranked| > 1 && best.score - ranked[1].score <= 800 && ranked[1].hard > best.hard then ranked[1] else best
  }

  function Abs(x: int): int { if x < 0 then -x else x }

  predicate Competes(ranked: seq<Scored>)
    requires ranked != []
  {
    var best := Chosen(ranked);
    && |ranked| > 1 && !(best.source == ExplicitReference && best.score >= 8500)
    && Abs(best.score - ranked[1].score) <= 800 && best.score >= 7200 && ranked[1].score >= 7200
  }

  function VerdictOf(ranked: seq<Scored>): Verdict {
    if ranked == [] then NoLink
    else if Competes(ranked) then CompetingLinks
    else if Chosen(ranked).score >= 7200 then Linked
    else if Chosen(ranked).score >= 4500 then WeakLink
    else NoLink
  }

  function ConfidenceOf(ranked: seq<Scored>): int { if ranked == [] then 0 else Chosen(ranked).score }

  function VerdictName(v: Verdict): string {
    match v
    case NoLink => "no_link"
    case WeakLink => "weak_link"
    case Linked => "linked"
    case CompetingLinks => "competing_links"
  }

  function ReasonsOf(ranked: seq<Scored>): seq<string> {
    if ranked == [] then ["no_case_candidates"]
    else if Competes(ranked) then Chosen(ranked).reasons + ["multiple_similar_candidates"]
    else if Chosen(ranked).reasons == [] then [VerdictName(VerdictOf(ranked)) + "_selected"]
    else Chosen(ranked).reasons
  }

  method PickCaseDecision(candidates: seq<Scored>) returns (d: Decision)
    ensures var ranked := Rank(candidates);
            && d.verdict == VerdictOf(ranked) && d.confidence == ConfidenceOf(ranked)
            && d.selected == (if d.verdict == NoLink then "" else Trim(Chosen(ranked).caseKey))
            && d.source == (if d.verdict == NoLink then NoSource else Chosen(ranked).source)
            && d.candidates == (if |ranked| <= 5 then ranked else ranked[..5])
            && d.reasons == ReasonsOf(ranked)
  {
    hide Rank, Trim, FirstExplicit;
    var ranked := Rank(candidates);
    if ranked == [] {
      return Decision("", NoLink, 0, NoSource, ["no_case_candidates"], []);
    }
    var shown := if |ranked| <= 5 then ranked else ranked[..5];
    var best := ranked[0];
    var confidence := best.score;
    var explicit := FirstExplicit(ranked);
    if explicit.Some? && confidence >= 8500 && confidence - explicit.value.score <= 500 {
      best, confidence := explicit.value, explicit.value.score;
    }
    if |ranked| > 1 {
      var second := ranked[1];
      if confidence - second.score <= 800 && second.hard > best.hard {
        best, confidence := second, second.score;
      }
    }
    var hasSecond := |ranked| > 1;
    if best.source == ExplicitReference && confidence >= 8500 { hasSecond := false; }
    if hasSecond && Abs(confidence - ranked[1].score) <= 800 && confidence >= 7200 && ranked[1].score >= 7200 {
      return Decision(Trim(best.caseKey), CompetingLinks, confidence, best.source, best.reasons + ["multiple_similar_candidates"], shown);
    }
    var verdict := if confidence >= 7200 then Linked else if confidence >= 4500 then WeakLink else NoLink;
    var reasons := if best.reasons == [] then [VerdictName(verdict) + "_selected"] else best.reasons;
    if verdict == NoLink { return Decision("", NoLink, confidence, NoSource, reasons, shown); }
    return Decision(Trim(best.caseKey), verdict, confidence, best.source, reasons, shown);
  }

  // ---- what the ranking guarantees -------------------------------------------------------------

  lemma {:induction false} KeyedOnlyMember(cs: seq<Scored>, c: Scored)
    ensures multiset(KeyedOnly(cs))[c] == if Trim(c.caseKey) == "" then 0 else multiset(cs)[c]
  {
    if cs != [] {
      KeyedOnlyMember(cs[..|cs| - 1], c);
      assert cs == cs[..|cs| - 1] + [cs[|cs| - 1]];
    }
  }

  /** The ranking reorders the keyed candidates by score, and equal scores by hard evidence. */
  lemma RankShape(cs: seq<Scored>)
    ensures forall i, j | 0 <= i < j < |Rank(cs)| :: Rank(cs)[i].score >= Rank(cs)[j].score
    ensures forall i, j | 0 <= i < j < |Rank(cs)| :: Rank(cs)[i].score == Rank(cs)[j].score ==> Rank(cs)[i].hard >= Rank(cs)[j].hard
    ensures multiset(Rank(cs)) == multiset(KeyedOnly(cs))
    ensures forall c :: c in Rank(cs) <==> c in cs && Trim(c.caseKey) != ""
  {
    hide StableSort.SortBy, Trim, KeyedOnly;
    var byHard := StableSort.SortBy(KeyedOnly(cs), (c: Scored) => 0 - c.hard);
    StableSort.SortBySorts(KeyedOnly(cs), (c: Scored) => 0 - c.hard);
    StableSort.SortBySorts(byHard, (c: Scored) => 0 - c.score);
    StableSort.SortByStable(byHard, (c: Scored) => 0 - c.score, (c: Scored) => 0 - c.hard);
    forall i, j | 0 <= i < j < |Rank(cs)| && Rank(cs)[i].score == Rank(cs)[j].score ensures Rank(cs)[i].hard >= Rank(cs)[j].hard {
      assert StableSort.InOrder(Rank(cs)[i], Rank(cs)[j], (c: Scored) => 0 - c.score, (c: Scored) => 0 - c.hard);
    }
    forall c ensures c in Rank(cs) <==> c in cs && Trim(c.caseKey) != "" {
      KeyedOnlyMember(cs, c);
      assert c in Rank(cs) <==> c in multiset(Rank(cs));
      assert c in cs <==> c in multiset(cs);
    }
  }

  ghost predicate Descending(ranked: seq<Scored>) {
    forall i, j | 0 <= i < j < |ranked| :: ranked[i].score >= ranked[j].score
  }

  lemma {:induction false} FirstExplicitAt(ranked: seq<Scored>)
    ensures FirstExplicit(ranked).Some? ==> exists i | 0 <= i < |ranked| :: ranked[i] == FirstExplicit(ranked).value
  {
    if ranked != [] && ranked[0].source != ExplicitReference {
      FirstExplicitAt(ranked[1..]);
      if FirstExplicit(ranked[1..]).Some? {
        var i :| 0 <= i < |ranked[1..]| && ranked[1..][i] == FirstExplicit(ranked[1..]).value;
        assert ranked[i + 1] == ranked[1..][i];
      }
    }
  }

  /** Whatever the two rules do, the chosen candidate is a real one that scores within 0.08 of the best. */
  lemma ChosenWithinMargin(ranked: seq<Scored>)
    requires Descending(ranked) && ranked != []
    ensures exists i | 0 <= i < |ranked| :: ranked[i] == Chosen(ranked)
    ensures ranked[0].score - 800 <= Chosen(ranked).score <= ranked[0].score
  {
    FirstExplicitAt(ranked);
    var best := AfterExplicitRule(ranked);
    if best != ranked[0] {
      var i :| 0 <= i < |ranked| && ranked[i] == best;
      assert i > 0 && (i > 1 ==> ranked[1].score >= ranked[i].score);
    }
  }

  /** A best score of 0.53 is never dropped, one below 0.45 always is, and a firm or competing link
      carries at least 0.72. */
  lemma VerdictFollowsBestScore(candidates: seq<Scored>)
    ensures var ranked := Rank(candidates); var v := VerdictOf(ranked);
            && (ranked != [] && ranked[0].score >= 5300 ==> v != NoLink)
            && (ranked == [] || ranked[0].score < 4500 ==> v == NoLink)
            && (v == Linked || v == CompetingLinks ==> ConfidenceOf(ranked) >= 7200)
            && (v == WeakLink <==> ranked != [] && 4500 <= ConfidenceOf(ranked) < 7200)
  {
    hide Rank, Trim;
    RankShape(candidates);
    var ranked := Rank(candidates);
    if ranked != [] { ChosenWithinMargin(ranked); }
  }

  ghost predicate RealRivals(cs: seq<Scored>, x: Scored, y: Scored) {
    && x in cs && y in cs && x.caseKey != y.caseKey && x.score >= 7200 && y.score >= 7200 && Abs(x.score - y.score) <= 800
  }

  ghost predicate DistinctKeys(cs: seq<Scored>) {
    forall i, j | 0 <= i < j < |cs| :: cs[i].caseKey != cs[j].caseKey
  }

  /** Competing links are real even when the chosen candidate is the one it is compared with: then it
      displaced the best candidate, which is within the margin too. */
  lemma CompetingAreRivals(ranked: seq<Scored>) returns (x: Scored, y: Scored)
    requires Descending(ranked) && DistinctKeys(ranked) && ranked != [] && Competes(ranked)
    ensures RealRivals(ranked, x, y)
    ensures x == Chosen(ranked) || y == Chosen(ranked)
  {
    ChosenWithinMargin(ranked);
    var best := Chosen(ranked);
    var i :| 0 <= i < |ranked| && ranked[i] == best;
    if i == 1 {
      x, y := ranked[0], ranked[1];
    } else {
      x, y := ranked[i], ranked[1];
      if i == 0 { assert ranked[0].caseKey != ranked[1].caseKey; } else { assert ranked[1].caseKey != ranked[i].caseKey; }
    }
  }

  lemma {:induction false} KeyedOnlyIdentity(cs: seq<Scored>)
    requires forall i | 0 <= i < |cs| :: Trim(cs[i].caseKey) != ""
    ensures KeyedOnly(cs) == cs
  {
    hide Trim;
    if cs != [] { KeyedOnlyIdentity(cs[..|cs| - 1]); }
  }

  lemma RankedKeysDistinct(cs: seq<Scored>)
    requires DistinctKeys(cs) && forall i | 0 <= i < |cs| :: Trim(cs[i].caseKey) != ""
    ensures DistinctKeys(Rank(cs))
  {
    hide Rank, Trim;
    KeyedOnlyIdentity(cs);
    RankShape(cs);
    var key := (c: Scored) => c.caseKey;
    assert StableSort.DistinctBy(cs, key);
    StableSort.PermutationKeepsDistinct(cs, Rank(cs), key);
    var ranked := Rank(cs);
    forall i, j | 0 <= i < j < |ranked| ensures ranked[i].caseKey != ranked[j].caseKey {
      assert key(ranked[i]) != key(ranked[j]);
    }
  }

  lemma ScoredKeys(cs: seq<Offer>, e: Evidence)
    requires CleanKeys(cs)
    ensures |ScoreAll(cs, e)| == |cs| && DistinctKeys(ScoreAll(cs, e)) && forall i | 0 <= i < |cs| :: ScoreAll(cs, e)[i].caseKey == cs[i].caseKey
    ensures forall i | 0 <= i < |cs| :: Trim(ScoreAll(cs, e)[i].caseKey) != ""
  {
    hide Trim;
  }

  /** End to end: from any evidence, `competing_links` means two collected candidates with different
      case keys, both at 0.72 or more and within 0.08 of each other. */
  lemma CompetingLinksAreReal(e: Evidence, upper: string -> string) returns (x: Scored, y: Scored)
    requires VerdictOf(Rank(ScoreAll(FirstPerKey(Offers(e, upper)), e))) == CompetingLinks
    ensures RealRivals(ScoreAll(FirstPerKey(Offers(e, upper)), e), x, y)
    ensures x == Chosen(Rank(ScoreAll(FirstPerKey(Offers(e, upper)), e))) || y == Chosen(Rank(ScoreAll(FirstPerKey(Offers(e, upper)), e)))
  {
    hide ScoreAll, Offers, FirstPerKey, Trim, Rank, CleanKeys;
    var cs := FirstPerKey(Offers(e, upper));
    CollectedKeysClean(Offers(e, upper));
    ScoredKeys(cs, e);
    var scored := ScoreAll(cs, e);
    RankShape(scored);
    RankedKeysDistinct(scored);
    x, y := CompetingAreRivals(Rank(scored));
  }

  // ---- an explicit reference ---------------------------------------------------------------

  /** Collecting from more offers keeps what was collected first. */
  lemma {:induction false} CollectedFirst(xs: seq<Offer>, ys: seq<Offer>)
    ensures FirstPerKey(xs) <= FirstPerKey(xs + ys)
  {
    hide KeyOffered, Trim;
    if ys == [] {
      assert xs + ys == xs;
    } else {
      var n := |ys| - 1;
      assert (xs + ys)[..|xs + ys| - 1] == xs + ys[..n];
      CollectedFirst(xs, ys[..n]);
    }
  }

  ghost predicate AllExplicit(cs: seq<Offer>) {
    forall i | 0 <= i < |cs| :: cs[i].source == ExplicitReference && cs[i].base == 9400
  }

  lemma {:induction false} CollectedExplicit(xs: seq<Offer>)
    requires AllExplicit(xs)
    ensures AllExplicit(FirstPerKey(xs))
  {
    hide KeyOffered, Trim;
    if xs != [] { CollectedExplicit(xs[..|xs| - 1]); }
  }

  /** The message names a case. */
  ghost predicate NamesCase(e: Evidence, upper: string -> string) {
    exists t :: t in e.referenceTokens && Trim(ExplicitKey(t, upper)) != ""
  }

  /** Then the first candidate is that reference. */
  lemma ReferenceComesFirst(e: Evidence, upper: string -> string)
    requires NamesCase(e, upper)
    ensures var cs := FirstPerKey(Offers(e, upper));
            cs != [] && cs[0].source == ExplicitReference && cs[0].base == 9400
  {
    hide Offers, Explicit, FirstPerKey, NamesCase;
    var named := Explicit(e, upper);
    NamedCollected(e, upper);
    CollectedExplicit(named);
    OffersStart(e, upper);
    var all := Offers(e, upper);
    assert all == all[..|named|] + all[|named|..];
    CollectedFirst(named, all[|named|..]);
  }

  lemma NamedCollected(e: Evidence, upper: string -> string)
    requires NamesCase(e, upper)
    ensures FirstPerKey(Explicit(e, upper)) != [] && AllExplicit(Explicit(e, upper))
  {
    hide Trim, ExplicitKey, FirstPerKey;
    var t :| t in e.referenceTokens && Trim(ExplicitKey(t, upper)) != "";
    var i :| 0 <= i < |e.referenceTokens| && e.referenceTokens[i] == t;
    var named := Explicit(e, upper);
    assert Trim(named[i].caseKey) == Trim(ExplicitKey(t, upper));
    CollectedKeys(named, Trim(ExplicitKey(t, upper)));
  }

  lemma OffersStart(e: Evidence, upper: string -> string)
    ensures |Explicit(e, upper)| <= |Offers(e, upper)| && Offers(e, upper)[..|Explicit(e, upper)|] == Explicit(e, upper)
  {
    hide ExplicitKey, ContextOffer;
  }

  lemma {:induction false} FirstExplicitBest(ranked: seq<Scored>, i: int)
    requires Descending(ranked) && 0 <= i < |ranked| && ranked[i].source == ExplicitReference
    ensures FirstExplicit(ranked).Some? && FirstExplicit(ranked).value.source == ExplicitReference
    ensures FirstExplicit(ranked).value.score >= ranked[i].score
  {
    if ranked[0].source != ExplicitReference {
      assert forall j | 0 <= j < |ranked| - 1 :: ranked[1..][j] == ranked[j + 1];
      FirstExplicitBest(ranked[1..], i - 1);
    }
  }

  /** What an explicit reference scores before clamping, at least. */
  function ReferenceScore(reviewRequired: bool, confidence: int): int { 10200 + Adjustment(reviewRequired, confidence) }

  predicate Firm(v: Verdict) { v == Linked || v == CompetingLinks }

  /** With a strong explicit candidate the verdict turns on who is chosen. */
  lemma StrongReferenceWins(ranked: seq<Scored>, i: int)
    requires Descending(ranked) && 0 <= i < |ranked| && ranked[i].source == ExplicitReference && ranked[0].score <= 10000
    ensures Chosen(ranked).score >= ranked[i].score - 800
    ensures ranked[i].score >= 8000 ==> Firm(VerdictOf(ranked))
    ensures ranked[i].score >= 9500 ==> VerdictOf(ranked) == if Chosen(ranked).source == ExplicitReference then Linked else CompetingLinks
  {
    FirstExplicitBest(ranked, i);
    ChosenWithinMargin(ranked);
  }

  /** A message that names a case: from a reference score of 0.80 on it is linked or competing,
      within 0.08 of that score; from 0.95 on it is linked exactly when an explicit reference is
      chosen, and competing when the runner-up has more hard evidence. A non-negative intake
      confidence always gives 0.97. */
  lemma ExplicitReferenceLinks(e: Evidence, upper: string -> string)
    requires NamesCase(e, upper)
    ensures var ranked := Rank(ScoreAll(FirstPerKey(Offers(e, upper)), e));
            var reference := ReferenceScore(e.reviewRequired, e.caseLinkConfidence);
            && ranked != []
            && (reference >= 8000 ==> Firm(VerdictOf(ranked)) && Chosen(ranked).score >= Clamp(reference) - 800)
            && (reference >= 9500 ==> VerdictOf(ranked) == if Chosen(ranked).source == ExplicitReference then Linked else CompetingLinks)
            && (e.caseLinkConfidence >= 0 ==> reference >= 9700)
  {
    hide Rank, Trim, Chosen, VerdictOf, NamesCase, FirstPerKey, Offers, ScoreAll, CleanKeys, Descending;
    var cs := FirstPerKey(Offers(e, upper));
    ReferenceComesFirst(e, upper);
    CollectedKeysClean(Offers(e, upper));
    ScoredKeys(cs, e);
    var scored := ScoreAll(cs, e);
    ScoresBounded(cs, e);
    RankShape(scored);
    var ranked := Rank(scored);
    assert scored[0] in scored;
    var i :| 0 <= i < |ranked| && ranked[i] == scored[0];
    assert ranked[0] in ranked && ranked[0] in scored;
    DescendingIs(ranked);
    StrongReferenceWins(ranked, i);
  }

  lemma DescendingIs(ranked: seq<Scored>)
    requires forall i, j | 0 <= i < j < |ranked| :: ranked[i].score >= ranked[j].score
    ensures Descending(ranked)
  {
  }

  /** Scores stay in range, and a reference scores at least its reference score. */
  lemma ScoresBounded(cs: seq<Offer>, e: Evidence)
    ensures |ScoreAll(cs, e)| == |cs| && forall c | c in ScoreAll(cs, e) :: 0 <= c.score <= 10000
    ensures cs != [] && cs[0].source == ExplicitReference && cs[0].base == 9400 ==>
              && ScoreAll(cs, e)[0].source == ExplicitReference
              && ScoreAll(cs, e)[0].score >= Clamp(ReferenceScore(e.reviewRequired, e.caseLinkConfidence))
  {
    hide Trim, CountHard, NonBlank, Adjustment;
  }

  // ---- evidence that reaches the limits ----------------------------------------------------------

  lemma CollectPair(x: Offer, y: Offer)
    requires Trim(x.caseKey) == x.caseKey != "" && Trim(y.caseKey) == y.caseKey != "" && x.caseKey != y.caseKey
    ensures FirstPerKey([x]) == [x] && FirstPerKey([x, y]) == [x, y]
  {
    hide Trim;
    assert [x, y][..1] == [x] && [x][..0] == [];
    assert FirstPerKey([]) == [] && FirstPerKey([x]) == [] + [x];
  }

  lemma RankPair(p: Scored, q: Scored)
    requires Trim(p.caseKey) != "" && Trim(q.caseKey) != "" && p.score > q.score
    ensures Rank([p, q]) == [p, q]
  {
    hide Trim, Rank, KeyedOnly;
    var cs := [p, q];
    RankShape(cs);
    KeyedOnlyIdentity(cs);
    var r := Rank(cs);
    assert |r| == |multiset(r)| == |multiset(cs)| == 2;
    assert r[0] in r && r[1] in r && r[0] in cs && r[1] in cs;
    assert multiset(r) == multiset{r[0], r[1]} by { assert r == [r[0], r[1]]; }
    assert multiset(r)[p] == multiset(cs)[p] == 1;
  }

  /** Evidence of two candidates from the snapshot, and nothing from the intake. */
  function SnapshotPair(x: Offer, y: Offer): Evidence { Evidence([], [x, y], [], [], [], "", "", {}, false, 0) }

  lemma SnapshotPairOffers(x: Offer, y: Offer, upper: string -> string)
    ensures Offers(SnapshotPair(x, y), upper) == [x, y]
  {
  }

  lemma ReasonsOfWitness()
    ensures NonBlank(["x"]) == ["x"] && CountHard(["x"]) == 0
    ensures NonBlank(["thread"]) == ["thread"] && CountHard(["thread"]) == 1
    ensures NonBlank(["thread", "thread"]) == ["thread", "thread"] && CountHard(["thread", "thread"]) == 2
  {
    TrimTrims("x");
    TrimTrims("thread");
    assert ["x"][1..] == [] && ["x"][..0] == [] && ["thread"][1..] == [] && ["thread"][..0] == [];
    assert ["thread", "thread"][1..] == ["thread"] && ["thread", "thread"][..1] == ["thread"];
    assert "x"[1..] == "" && !Contains("", "explicit") && !Contains("", "thread");
    assert !IsHard("x");
    assert IsHard("thread");
  }

  /** The margin is tight, from evidence on: a best score of 0.5299 can be dropped, through the
      hard-evidence rule. */
  lemma MarginIsTight(upper: string -> string) returns (e: Evidence)
    ensures var ranked := Rank(ScoreAll(FirstPerKey(Offers(e, upper)), e));
            ranked != [] && ranked[0].score == 5299 && VerdictOf(ranked) == NoLink
  {
    hide Rank, FirstPerKey, Offers, CountHard, NonBlank;
    var x, y := Offer("a", NoSource, ["x"], 5299), Offer("b", NoSource, ["thread"], 4499);
    e := SnapshotPair(x, y);
    TrimTrims("a");
    TrimTrims("b");
    SnapshotPairOffers(x, y, upper);
    CollectPair(x, y);
    ReasonsOfWitness();
    assert Trim("") == "" && ["x"] + [] == ["x"] && ["thread"] + [] == ["thread"];
    var p, q := Scored("a", 5299, NoSource, ["x"], 0), Scored("b", 4499, NoSource, ["thread"], 1);
    assert Score(x, e) == p && Score(y, e) == q;
    assert ScoreAll([x, y], e) == [p, q];
    RankPair(p, q);
    assert [p, q][1..] == [q] && [q][1..] == [];
    assert FirstExplicit([q]) == FirstExplicit([]) == None;
    assert FirstExplicit([p, q]) == None;
  }

  /** One explicit reference, a rival from the snapshot, and the given intake. */
  function Contested(rival: Offer, reviewRequired: bool, confidence: int): Evidence {
    Evidence(["7"], [rival], [], [], [], "", "", {}, reviewRequired, confidence)
  }

  const SAME := (s: string) => s

  lemma ContestedOffers(rival: Offer, reviewRequired: bool, confidence: int)
    ensures Offers(Contested(rival, reviewRequired, confidence), SAME) == [REFERENCE, rival]
    ensures NamesCase(Contested(rival, reviewRequired, confidence), SAME)
    ensures Trim("CASE-7") == "CASE-7"
  {
    TrimTrims("7");
    TrimTrims("CASE-7");
    assert "7"[0] == '7' && HasDigit("7");
    assert ExplicitKey("7", SAME) == "CASE-7";
    assert "7" in ["7"];
  }

  const REFERENCE := Offer("CASE-7", ExplicitReference, ["explicit_case_reference_in_message"], 9400)

  lemma OneReason(m: string)
    requires IsTrimmed(m) && m != ""
    ensures NonBlank([m]) == [m] && CountHard([m]) == if IsHard(m) then 1 else 0
  {
    TrimTrims(m);
    assert [m][1..] == [] && [m][..0] == [];
  }

  /** What the two candidates score, whatever the intake adds. */
  lemma ContestedScores(base: int, reviewRequired: bool, confidence: int)
    ensures var rival := Offer("b", Thread, ["thread", "thread"], base);
            var e := Contested(rival, reviewRequired, confidence);
            && NamesCase(e, SAME)
            && ScoreAll(FirstPerKey(Offers(e, SAME)), e)
               == [Scored("CASE-7", Clamp(ReferenceScore(reviewRequired, confidence)), ExplicitReference, REFERENCE.reasons, 1),
                   Scored("b", Clamp(base + 200 + Adjustment(reviewRequired, confidence)), Thread, ["thread", "thread"], 2)]
  {
    hide FirstPerKey, Offers, CountHard, NonBlank, NamesCase, Adjustment, Score, Trim;
    var rival := Offer("b", Thread, ["thread", "thread"], base);
    var e := Contested(rival, reviewRequired, confidence);
    ContestedOffers(rival, reviewRequired, confidence);
    WitnessKeys();
    CollectPair(REFERENCE, rival);
    assert IsTrimmed(REFERENCE.reasons[0]) && IsHard(REFERENCE.reasons[0]) by { ReferenceReason(); }
    OneReason(REFERENCE.reasons[0]);
    ReasonsOfWitness();
    ScoreWithoutThread(REFERENCE, e);
    ScoreWithoutThread(rival, e);
  }

  lemma ReferenceReason()
    ensures var m := REFERENCE.reasons[0]; IsTrimmed(m) && IsHard(m)
  {
  }

  lemma ScoreWithoutThread(c: Offer, e: Evidence)
    requires e.threadId == ""
    ensures Score(c, e) == Scored(Trim(c.caseKey),
                                  Clamp(c.base + (if c.source == ExplicitReference then 800 else 0) + (if c.source == Thread then 200 else 0)
                                        + Adjustment(e.reviewRequired, e.caseLinkConfidence)),
                                  c.source, NonBlank(c.reasons), CountHard(NonBlank(c.reasons)))
  {
    hide NonBlank, CountHard, Adjustment;
    assert Trim("") == "";
    assert NonBlank(c.reasons) + [] == NonBlank(c.reasons);
  }

  /** The runner-up with more hard evidence is chosen within the margin. */
  lemma RivalChosen(p: Scored, q: Scored)
    requires q.score < p.score <= q.score + 800 && p.score < 8500 && q.hard > p.hard
    ensures Chosen([p, q]) == q && (q.score < 7200 ==> !Firm(VerdictOf([p, q])))
  {
    hide FirstExplicit;
  }

  /** Low scores throughout give no firm link. */
  lemma LowScoresNotFirm(scored: seq<Scored>)
    requires forall c | c in scored :: c.score < 7200
    ensures !Firm(VerdictOf(Rank(scored)))
  {
    hide Rank, Trim;
    RankShape(scored);
    var ranked := Rank(scored);
    if ranked != [] {
      assert ranked[0] in ranked;
      ChosenWithinMargin(ranked);
    }
  }

  /** Below 0.80 a rival with more hard evidence, or the low score itself, makes the link weak. */
  lemma LowReferenceIsWeak(reviewRequired: bool, confidence: int) returns (e: Evidence)
    requires ReferenceScore(reviewRequired, confidence) < 8000
    ensures e.reviewRequired == reviewRequired && e.caseLinkConfidence == confidence && NamesCase(e, SAME)
    ensures !Firm(VerdictOf(Rank(ScoreAll(FirstPerKey(Offers(e, SAME)), e))))
  {
    hide Rank, FirstPerKey, Offers, NamesCase, Adjustment, ScoreAll, VerdictOf, Chosen, Firm, Trim;
    var reference := ReferenceScore(reviewRequired, confidence);
    var base := if reference < 7200 then 0 else 17199 - reference;
    e := Contested(Offer("b", Thread, ["thread", "thread"], base), reviewRequired, confidence);
    ContestedScores(base, reviewRequired, confidence);
    var scored := ScoreAll(FirstPerKey(Offers(e, SAME)), e);
    if reference >= 7200 {
      assert Trim("CASE-7") != "" && Trim("b") != "" by { WitnessKeys(); }
      RankPair(scored[0], scored[1]);
      RivalChosen(scored[0], scored[1]);
    } else {
      LowScoresNotFirm(scored);
    }
  }

  lemma WitnessKeys()
    ensures Trim("CASE-7") == "CASE-7" && Trim("b") == "b"
  {
    TrimTrims("CASE-7");
    TrimTrims("b");
  }

  /** The exact threshold on what the intake says: every message that names a case gets a firm or
      competing link exactly when the reference score is at least 0.80. */
  lemma AlwaysFirmIff(reviewRequired: bool, confidence: int)
    ensures (forall e: Evidence, upper: string -> string |
               e.reviewRequired == reviewRequired && e.caseLinkConfidence == confidence && NamesCase(e, upper) ::
               Firm(VerdictOf(Rank(ScoreAll(FirstPerKey(Offers(e, upper)), e)))))
       <==> ReferenceScore(reviewRequired, confidence) >= 8000
  {
    hide Rank, FirstPerKey, Offers, NamesCase, VerdictOf, ScoreAll, ReferenceScore, Firm;
    if ReferenceScore(reviewRequired, confidence) >= 8000 {
      forall e: Evidence, upper: string -> string |
        e.reviewRequired == reviewRequired && e.caseLinkConfidence == confidence && NamesCase(e, upper)
        ensures Firm(VerdictOf(Rank(ScoreAll(FirstPerKey(Offers(e, upper)), e))))
      {
        ExplicitReferenceLinks(e, upper);
      }
    } else {
      var e := LowReferenceIsWeak(reviewRequired, confidence);
    }
  }

  // ---- context from other threads ------------------------------------------------------------

  predicate SameThread(m: ContextMessage, e: Evidence) { Trim(m.threadId) != "" && Trim(m.threadId) == Trim(e.threadId) }

  /** The only evidence is context messages, none of them from the message's own thread. */
  predicate OtherThreadsOnly(e: Evidence) {
    && e.referenceTokens == [] && e.snapshotOffers == [] && e.intakeOffers == [] && e.bundleOffers == []
    && forall i | 0 <= i < |e.context| :: !SameThread(e.context[i], e)
  }

  /** Subject and participants together are worth 0.30 on top of 0.35. */
  ghost predicate Modest(cs: seq<Offer>) {
    forall i | 0 <= i < |cs| :: cs[i].source == ContextCandidate && cs[i].base <= 6500
  }

  lemma ModestContext(m: ContextMessage, e: Evidence)
    requires !SameThread(m, e)
    ensures ContextOffer(m, e).source == ContextCandidate && ContextOffer(m, e).base <= 6500
  {
    hide Trim, ContextKey;
  }

  lemma ContextOffersOnly(e: Evidence, upper: string -> string)
    requires OtherThreadsOnly(e)
    ensures |Offers(e, upper)| == |e.context| && forall i | 0 <= i < |e.context| :: Offers(e, upper)[i] == ContextOffer(e.context[i], e)
  {
    hide ContextOffer, ExplicitKey, SameThread;
  }

  lemma ModestOffers(e: Evidence, upper: string -> string)
    requires OtherThreadsOnly(e)
    ensures Modest(Offers(e, upper))
  {
    hide Offers, ContextOffer, SameThread;
    ContextOffersOnly(e, upper);
    forall i | 0 <= i < |e.context| ensures Offers(e, upper)[i].source == ContextCandidate && Offers(e, upper)[i].base <= 6500 {
      ModestContext(e.context[i], e);
    }
  }

  lemma {:induction false} ModestCollected(xs: seq<Offer>)
    requires Modest(xs)
    ensures Modest(FirstPerKey(xs))
  {
    hide KeyOffered, Trim;
    if xs != [] { ModestCollected(xs[..|xs| - 1]); }
  }

  lemma ModestScores(cs: seq<Offer>, e: Evidence, c: Scored)
    requires Modest(cs) && c in ScoreAll(cs, e)
    ensures c.score <= 7100
  {
    hide Trim, CountHard, NonBlank;
  }

  /** Context from other threads never makes a firm or competing link, whatever subjects and
      participants it shares and however confident the intake was. */
  lemma OtherThreadsNeverFirm(e: Evidence, upper: string -> string)
    requires OtherThreadsOnly(e)
    ensures var v := VerdictOf(Rank(ScoreAll(FirstPerKey(Offers(e, upper)), e))); v == NoLink || v == WeakLink
  {
    hide Rank, Trim, Offers, FirstPerKey, Modest, OtherThreadsOnly;
    ModestOffers(e, upper);
    ModestCollected(Offers(e, upper));
    var cs := FirstPerKey(Offers(e, upper));
    var scored := ScoreAll(cs, e);
    VerdictFollowsBestScore(scored);
    RankShape(scored);
    var ranked := Rank(scored);
    if ranked != [] {
      ChosenWithinMargin(ranked);
      assert ranked[0] in ranked && ranked[0] in scored;
      ModestScores(cs, e, ranked[0]);
    }
  }
}
