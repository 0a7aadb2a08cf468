/** The sliding-window limiter of the chat endpoint: a pruned list per session, against
    the whole history of admissions. */
module ChatRateLimiter {
  import opened Text

  const WINDOW := 60.0
  const MAX_REQUESTS := 30

  type Store = map<string, seq<real>>

  function SessionKey(param: string): string { Trim(if param == "" then "agent_chat_anon" else param) }

  /** Sessions are told apart by their trimmed id; without one they share the anonymous session. */
  lemma SessionKeyIs(param: string)
    ensures param == "" ==> SessionKey(param) == "agent_chat_anon"
    ensures param != "" ==> SessionKey(param) == Trim(param)
    ensures param != "" && IsTrimmed(param) ==> SessionKey(param) == param
  {
    TrimTrims("agent_chat_anon");
    TrimTrims(param);
  }

  function Stamps(store: Store, s: string): seq<real> { if s in store then store[s] else [] }

  /** The stamps younger than the window. */
  function Prune(ts: seq<real>, now: real): seq<real> {
    if ts == [] then []
    else if ts[|ts| - 1] > now - WINDOW then Prune(ts[..|ts| - 1], now) + [ts[|ts| - 1]]
    else Prune(ts[..|ts| - 1], now)
  }

  predicate Admits(store: Store, s: string, now: real) { |Prune(Stamps(store, s), now)| < MAX_REQUESTS }

  function Hit(store: Store, s: string, now: real): Store {
    var kept := Prune(Stamps(store, s), now);
    store[s := if Admits(store, s, now) then kept + [now] else kept]
  }

  class Limiter {
    var store: Store

    constructor ()
      ensures store == map[]
    {
      store := map[];
    }

    /** False stands for the 429 answer. */
    method RateLimit(sessionParam: string, now: real) returns (admitted: bool)
      modifies this
      ensures admitted == Admits(old(store), SessionKey(sessionParam), now)
      ensures store == Hit(old(store), SessionKey(sessionParam), now)
    {
      var session := SessionKey(sessionParam);
      var windowStart := now - WINDOW;
      var all := Stamps(store, session);
      var kept: seq<real> := [];
      var i := 0;
      while i < |all|
        invariant 0 <= i <= |all|
        invariant kept == Prune(all[..i], now)
      {
        assert all[..i + 1][..i] == all[..i];
        if all[i] > windowStart { kept := kept + [all[i]]; }
        i := i + 1;
      }
      assert all[..i] == all;
      store := store[session := kept];
      if |kept| >= MAX_REQUESTS { return false; }
      store := store[session := kept + [now]];
      return true;
    }
  }

  // ---- whole histories -----------------------------------------------------------------

  datatype Call = Call(session: string, now: real)

  function After(calls: seq<Call>): Store {
    if calls == [] then map[] else Hit(After(calls[..|calls| - 1]), calls[|calls| - 1].session, calls[|calls| - 1].now)
  }

  /** The times at which session `s` was admitted, in order. */
  function Admitted(calls: seq<Call>, s: string): seq<real> {
    if calls == [] then []
    else
      var c := calls[|calls| - 1];
      var before := Admitted(calls[..|calls| - 1], s);
      if c.session == s && Admits(After(calls[..|calls| - 1]), s, c.now) then before + [c.now] else before
  }

  /** How many times fall in the half-open window (lo, hi]. */
  function CountIn(ts: seq<real>, lo: real, hi: real): nat {
    if ts == [] then 0 else CountIn(ts[..|ts| - 1], lo, hi) + if lo < ts[|ts| - 1] <= hi then 1 else 0
  }

  predicate Monotone(calls: seq<Call>) {
    forall i, j | 0 <= i < j < |calls| :: calls[i].now <= calls[j].now
  }

  lemma PruneSnoc(ts: seq<real>, t: real, now: real)
    ensures Prune(ts + [t], now) == if t > now - WINDOW then Prune(ts, now) + [t] else Prune(ts, now)
  {
    assert (ts + [t])[..|ts|] == ts;
  }

  lemma CountSnoc(ts: seq<real>, t: real, lo: real, hi: real)
    ensures CountIn(ts + [t], lo, hi) == CountIn(ts, lo, hi) + if lo < t <= hi then 1 else 0
  {
    assert (ts + [t])[..|ts|] == ts;
  }

  /** Pruning again, later, is pruning once, later. */
  lemma {:induction false} PruneTwice(ts: seq<real>, early: real, late: real)
    requires early <= late
    ensures Prune(Prune(ts, early), late) == Prune(ts, late)
  {
    if ts != [] {
      var n := |ts| - 1;
      PruneTwice(ts[..n], early, late);
      PruneSnoc(Prune(ts[..n], early), ts[n], late);
    }
  }

  /** The last call, taken apart. */
  lemma AfterLast(calls: seq<Call>, s: string)
    requires calls != []
    ensures var n := |calls| - 1; var c := calls[n]; var before := After(calls[..n]);
            && (c.session != s ==> Stamps(After(calls), s) == Stamps(before, s) && Admitted(calls, s) == Admitted(calls[..n], s))
            && (c.session == s ==>
                  && var kept := Prune(Stamps(before, s), c.now);
                  && (Admits(before, s, c.now) <==> |kept| < MAX_REQUESTS)
                  && Stamps(After(calls), s) == (if Admits(before, s, c.now) then kept + [c.now] else kept)
                  && Admitted(calls, s) == if Admits(before, s, c.now) then Admitted(calls[..n], s) + [c.now] else Admitted(calls[..n], s))
  {
    hide Prune;
  }

  /** What the pruned list forgets never matters again: from the last call on, it prunes to
      the same stamps as the full history of admissions. */
  lemma {:induction false} StoreRemembersEnough(calls: seq<Call>, s: string, now: real)
    requires Monotone(calls) && forall i | 0 <= i < |calls| :: calls[i].now <= now
    ensures Prune(Stamps(After(calls), s), now) == Prune(Admitted(calls, s), now)
  {
    if calls == [] {
      NoCalls(s);
    } else {
      hide Prune, After, Admitted, Admits, Stamps;
      var n := |calls| - 1;
      var c := calls[n];
      StoreRemembersEnough(calls[..n], s, now);
      AfterLast(calls, s);
      if c.session == s {
        var stamps := Stamps(After(calls[..n]), s);
        PruneTwice(stamps, c.now, now);
        PruneSnoc(Prune(stamps, c.now), c.now, now);
        PruneSnoc(Admitted(calls[..n], s), c.now, now);
      }
    }
  }

  lemma NoCalls(s: string)
    ensures Stamps(After([]), s) == [] && Admitted([], s) == []
  {
  }

  lemma {:induction false} AdmittedInPast(calls: seq<Call>, s: string, now: real)
    requires forall i | 0 <= i < |calls| :: calls[i].now <= now
    ensures forall i | 0 <= i < |Admitted(calls, s)| :: Admitted(calls, s)[i] <= now
  {
    if calls != [] { AdmittedInPast(calls[..|calls| - 1], s, now); }
  }

  lemma {:induction false} CountWithinPrune(ts: seq<real>, lo: real, hi: real, now: real)
    requires lo >= now - WINDOW
    ensures CountIn(ts, lo, hi) <= |Prune(ts, now)|
  {
    if ts != [] { CountWithinPrune(ts[..|ts| - 1], lo, hi, now); }
  }

  lemma {:induction false} PruneIsCount(ts: seq<real>, now: real)
    requires forall i | 0 <= i < |ts| :: ts[i] <= now
    ensures |Prune(ts, now)| == CountIn(ts, now - WINDOW, now)
  {
    if ts != [] { PruneIsCount(ts[..|ts| - 1], now); }
  }

  /** Over every history with a non-decreasing clock, every session and every window of 60 seconds,
      wherever it starts, at most 30 requests are admitted. */
  lemma {:induction false} WindowBound(calls: seq<Call>, s: string, lo: real)
    requires Monotone(calls)
    ensures CountIn(Admitted(calls, s), lo, lo + WINDOW) <= MAX_REQUESTS
  {
    hide Prune, After, Admitted, Admits, Stamps, CountIn, Monotone;
    if calls == [] {
      NoCalls(s);
      CountEmpty(lo, lo + WINDOW);
    } else {
      var n := |calls| - 1;
      MonotonePrefix(calls);
      WindowBound(calls[..n], s, lo);
      AfterLast(calls, s);
      if calls[n].session == s { AdmissionKeepsBound(calls, s, lo); }
    }
  }

  lemma MonotonePrefix(calls: seq<Call>)
    requires Monotone(calls) && calls != []
    ensures var n := |calls| - 1; Monotone(calls[..n]) && forall i | 0 <= i < n :: calls[i].now <= calls[n].now
  {
  }

  /** An admission finds room in the window it falls in. */
  lemma AdmissionKeepsBound(calls: seq<Call>, s: string, lo: real)
    requires calls != [] && Monotone(calls)
    requires var n := |calls| - 1; calls[n].session == s && CountIn(Admitted(calls[..n], s), lo, lo + WINDOW) <= MAX_REQUESTS
    ensures CountIn(Admitted(calls, s), lo, lo + WINDOW) <= MAX_REQUESTS
  {
    hide Prune, After, Admitted, Admits, Stamps, CountIn, Monotone;
    var n := |calls| - 1;
    var c, ts := calls[n], Admitted(calls[..n], s);
    AfterLast(calls, s);
    MonotonePrefix(calls);
    CountSnoc(ts, c.now, lo, lo + WINDOW);
    StoreRemembersEnough(calls[..n], s, c.now);
    if lo < c.now <= lo + WINDOW { CountWithinPrune(ts, lo, lo + WINDOW, c.now); }
  }

  /** A request is refused exactly when 30 requests of its session were admitted in the
      60 seconds up to it. */
  lemma RefusedIffWindowFull(calls: seq<Call>, s: string, now: real)
    requires Monotone(calls) && forall i | 0 <= i < |calls| :: calls[i].now <= now
    ensures !Admits(After(calls), s, now) <==> CountIn(Admitted(calls, s), now - WINDOW, now) == MAX_REQUESTS
  {
    StoreRemembersEnough(calls, s, now);
    AdmittedInPast(calls, s, now);
    PruneIsCount(Admitted(calls, s), now);
    WindowBound(calls, s, now - WINDOW);
  }

  function Only(calls: seq<Call>, s: string): seq<Call> {
    if calls == [] then []
    else if calls[|calls| - 1].session == s then Only(calls[..|calls| - 1], s) + [calls[|calls| - 1]]
    else Only(calls[..|calls| - 1], s)
  }

  /** Sessions do not affect each other, whatever the clock does. */
  lemma {:induction false} SessionsAreIndependent(calls: seq<Call>, s: string)
    ensures Admitted(calls, s) == Admitted(Only(calls, s), s)
    ensures Stamps(After(calls), s) == Stamps(After(Only(calls, s)), s)
  {
    if calls != [] {
      var n := |calls| - 1;
      SessionsAreIndependent(calls[..n], s);
      var o := Only(calls[..n], s);
      assert (o + [calls[n]])[..|o|] == o;
    }
  }

  // ---- a clock that steps back ----------------------------------------------------------------

  function Copies<T>(x: T, n: nat): seq<T> { if n == 0 then [] else Copies(x, n - 1) + [x] }

  lemma {:induction false} CopiesAre<T>(x: T, n: nat)
    ensures |Copies(x, n)| == n && forall i | 0 <= i < n :: Copies(x, n)[i] == x
  {
    if n > 0 { CopiesAre(x, n - 1); }
  }

  predicate AllYoung(ts: seq<real>, now: real) { forall i | 0 <= i < |ts| :: ts[i] > now - WINDOW }

  lemma {:induction false} PruneYoung(ts: seq<real>, now: real)
    requires AllYoung(ts, now)
    ensures Prune(ts, now) == ts
  {
    if ts != [] { PruneYoung(ts[..|ts| - 1], now); }
  }

  lemma AfterSnoc(calls: seq<Call>, c: Call)
    ensures After(calls + [c]) == Hit(After(calls), c.session, c.now)
    ensures Admitted(calls + [c], c.session) ==
            if Admits(After(calls), c.session, c.now) then Admitted(calls, c.session) + [c.now] else Admitted(calls, c.session)
  {
    assert (calls + [c])[..|calls|] == calls;
  }

  lemma RoomAdmits(calls: seq<Call>, c: Call)
    requires AllYoung(Stamps(After(calls), c.session), c.now) && |Stamps(After(calls), c.session)| < MAX_REQUESTS
    ensures Stamps(After(calls + [c]), c.session) == Stamps(After(calls), c.session) + [c.now]
    ensures Admitted(calls + [c], c.session) == Admitted(calls, c.session) + [c.now]
  {
    hide After, Admitted, Prune;
    AfterSnoc(calls, c);
    PruneYoung(Stamps(After(calls), c.session), c.now);
  }

  lemma SnocAssociates<T>(xs: seq<T>, x: T, n: nat)
    requires n > 0
    ensures xs + Copies(x, n) == (xs + Copies(x, n - 1)) + [x]
  {
  }

  /** A burst that fits is admitted in full. */
  lemma {:induction false} BurstAdmitted(calls: seq<Call>, c: Call, n: nat)
    requires AllYoung(Stamps(After(calls), c.session), c.now) && |Stamps(After(calls), c.session)| + n <= MAX_REQUESTS
    ensures Stamps(After(calls + Copies(c, n)), c.session) == Stamps(After(calls), c.session) + Copies(c.now, n)
    ensures Admitted(calls + Copies(c, n), c.session) == Admitted(calls, c.session) + Copies(c.now, n)
  {
    hide After, Admitted, Stamps;
    var ts, adm := Stamps(After(calls), c.session), Admitted(calls, c.session);
    if n == 0 {
      assert calls + Copies(c, n) == calls && ts + Copies(c.now, n) == ts && adm + Copies(c.now, n) == adm;
    } else {
      BurstAdmitted(calls, c, n - 1);
      CopiesAre(c.now, n - 1);
      SnocAssociates(calls, c, n);
      SnocAssociates(ts, c.now, n);
      SnocAssociates(adm, c.now, n);
      hide Copies;
      RoomAdmits(calls + Copies(c, n - 1), c);
    }
  }

  lemma {:induction false} CountBurst(ts: seq<real>, t: real, n: nat, lo: real, hi: real)
    requires lo < t <= hi
    ensures CountIn(ts + Copies(t, n), lo, hi) == CountIn(ts, lo, hi) + n
  {
    var all := ts + Copies(t, n);
    if n == 0 {
      assert all == ts;
    } else {
      assert all[..|all| - 1] == ts + Copies(t, n - 1);
      CountBurst(ts, t, n - 1, lo, hi);
    }
  }

  /** No call is stamped more than `slack` before an earlier one. */
  predicate StepsBackAtMost(calls: seq<Call>, slack: real) {
    forall i, j | 0 <= i < j < |calls| :: calls[i].now - calls[j].now <= slack
  }

  predicate WithinBound(calls: seq<Call>, s: string, lo: real) {
    CountIn(Admitted(calls, s), lo, lo + WINDOW) <= MAX_REQUESTS
  }

  /** The bound, for every history on such a clock, every session and every window. */
  ghost predicate BoundHolds(slack: real) {
    forall calls, s, lo :: StepsBackAtMost(calls, slack) ==> WithinBound(calls, s, lo)
  }

  /** Fill a window, move on far enough to forget it, and step back by `d`. */
  function BackwardRun(s: string, d: real): seq<Call> {
    Copies(Call(s, 100.0), 30) + [Call(s, 160.0)] + Copies(Call(s, 160.0 - d), 29)
  }

  lemma BackwardRunClock(s: string, d: real)
    requires 0.0 < d <= 30.0
    ensures StepsBackAtMost(BackwardRun(s, d), d)
  {
    CopiesAre(Call(s, 100.0), 30);
    CopiesAre(Call(s, 160.0 - d), 29);
  }

  /** However small the step back, 59 requests of one session are admitted in one window. */
  lemma BackwardRunAdmits(s: string, d: real)
    requires 0.0 < d <= 30.0
    ensures CountIn(Admitted(BackwardRun(s, d), s), 100.0 - d, 100.0 - d + WINDOW) == 59
  {
    hide After, Admitted, Copies, CountIn, Prune;
    var fill, jump, back := Call(s, 100.0), Call(s, 160.0), Call(s, 160.0 - d);
    var none: seq<Call> := [];
    var first := Copies(100.0, 30);
    NoCalls(s);
    CopiesAre(100.0, 30);
    BurstAdmitted(none, fill, 30);
    var a := Copies(fill, 30);
    assert none + a == a && [] + first == first;
    AfterSnoc(a, jump);
    PruneOld(first, 160.0);
    var b := a + [jump];
    assert Stamps(After(b), s) == [160.0] && Admitted(b, s) == first + [160.0];
    BurstAdmitted(b, back, 29);
    var lo := 100.0 - d;
    CountBurst([], 100.0, 30, lo, lo + WINDOW);
    CountEmpty(lo, lo + WINDOW);
    CountSnoc(first, 160.0, lo, lo + WINDOW);
    CountBurst(first + [160.0], 160.0 - d, 29, lo, lo + WINDOW);
  }

  /** The exact condition on the clock: the bound holds for all histories whose clock steps back by
      at most `slack` exactly when it does not step back at all. */
  lemma BoundHoldsIff(slack: real)
    requires slack >= 0.0
    ensures BoundHolds(slack) <==> slack == 0.0
  {
    hide Admitted, CountIn, BackwardRun;
    if slack == 0.0 {
      forall calls, s, lo ensures StepsBackAtMost(calls, slack) ==> WithinBound(calls, s, lo) {
        if StepsBackAtMost(calls, slack) { WindowBound(calls, s, lo); }
      }
    } else {
      var d := if slack <= 30.0 then slack else 30.0;
      BackwardRunClock("", d);
      BackwardRunAdmits("", d);
      assert StepsBackAtMost(BackwardRun("", d), slack) && !WithinBound(BackwardRun("", d), "", 100.0 - d);
    }
  }

  lemma CountEmpty(lo: real, hi: real)
    ensures CountIn([], lo, hi) == 0
  {
  }

  lemma {:induction false} PruneOld(ts: seq<real>, now: real)
    requires forall i | 0 <= i < |ts| :: ts[i] <= now - WINDOW
    ensures Prune(ts, now) == []
  {
    if ts != [] { PruneOld(ts[..|ts| - 1], now); }
  }
}
