/** A whole case row: sends under any number of decision keys, each with its own workers,
    interleaved with degradation records and clears. Every stored change goes through the
    same atomic case mutation; what happens to one key is still exactly its own run. */
module HitlCase {
  import opened OrderedDict
  import opened HitlSend
  import opened CaseMetadata

  /** What the workers of one key hold outside the case row. */
  datatype Local = Local(effects: nat, events: nat, workers: map<WorkerId, Phase>)

  datatype Whole = Whole(cases: Cases, locals: map<string, Local>)

  datatype CaseAction =
    | OnKey(key: string, action: Action)
    | Degrade(signalId: string, reason: string, maxAttempts: int)
    | Recover

  function LocalOf(s: Whole, k: string): Local { if k in s.locals then s.locals[k] else Local(0, 0, map[]) }

  /** The send protocol's state as key `k` of case `c` sees it. */
  function View(s: Whole, c: string, k: string): State {
    var l := LocalOf(s, k);
    State(if c in s.cases then SendOf(s.cases[c], k) else ABSENT, l.effects, l.events, l.workers)
  }

  /** The mutation of the case row that an action performs, if any; the mutator sees only what is stored. */
  function MutationOf(c: string, k: string, v: State, a: Action): Option<Mutation> {
    match a
    case Accept(_, now) => Some(Send(c, k, cur => Some(AcceptState(cur, now))))
    case Call(_, b, now) => if b.claims then Some(Send(c, k, cur => ClaimState(cur, now))) else None
    case Complete(w, now) =>
      var p := PhaseOf(v, w);
      if p.Returning? then Some(Send(c, k, cur => Some(CompleteState(cur, p.b.report, now)))) else None
    case _ => None
  }

  function Do(s: Whole, c: string, act: CaseAction): Whole {
    match act
    case OnKey(k, a) =>
      var v := View(s, c, k);
      var next := Next(v, a);
      var m := MutationOf(c, k, v, a);
      Whole(if m.Some? then Apply(s.cases, m.value) else s.cases, s.locals[k := Local(next.effects, next.events, next.workers)])
    case Degrade(sig, reason, max) => s.(cases := Apply(s.cases, Record(c, sig, reason, max)))
    case Recover => s.(cases := Apply(s.cases, Clear(c)))
  }

  function After(s: Whole, c: string, run: seq<CaseAction>): Whole {
    if run == [] then s else Do(After(s, c, run[..|run| - 1]), c, run[|run| - 1])
  }

  ghost predicate CaseRuns(s: Whole, c: string, policy: iset<Behaviour>, run: seq<CaseAction>) {
    run == [] ||
    (var n := |run| - 1;
     && CaseRuns(s, c, policy, run[..n])
     && (run[n].OnKey? ==> Enabled(View(After(s, c, run[..n]), c, run[n].key), run[n].action, policy)))
  }

  /** The row exists and no send has started. */
  predicate Untouched(s: Whole, c: string) { c != "" && c in s.cases && s.cases[c].sends == map[] && s.locals == map[] }

  // ---- one step --------------------------------------------------------------------------

  /** The mutation stores what the single-key protocol says. */
  lemma MutationStoresNext(cases: Cases, c: string, k: string, v: State, a: Action)
    requires c in cases && v.send == SendOf(cases[c], k)
    ensures var m := MutationOf(c, k, v, a); var after := if m.Some? then Apply(cases, m.value) else cases;
            && c in after && SendOf(after[c], k) == Next(v, a).send
            && after[c].degradation == cases[c].degradation
            && forall j | j != k :: SendOf(after[c], j) == SendOf(cases[c], j)
  {
  }

  /** A step on a key is a protocol step of that key and invisible to the others; degradation is
      invisible to all of them. */
  lemma StepViews(s: Whole, c: string, act: CaseAction, k: string)
    requires c != "" && c in s.cases
    ensures c in Do(s, c, act).cases
    ensures View(Do(s, c, act), c, k) == if act.OnKey? && act.key == k then Next(View(s, c, k), act.action) else View(s, c, k)
    ensures act.OnKey? ==> Do(s, c, act).cases[c].degradation == s.cases[c].degradation
  {
    hide Next, MutationOf;
    if act.OnKey? { MutationStoresNext(s.cases, c, act.key, View(s, c, act.key), act.action); }
  }

  // ---- whole runs --------------------------------------------------------------------------

  /** The part of a run that concerns key `k`. */
  function Only(run: seq<CaseAction>, k: string): seq<Action> {
    if run == [] then []
    else
      var last := run[|run| - 1];
      if last.OnKey? && last.key == k then Only(run[..|run| - 1], k) + [last.action] else Only(run[..|run| - 1], k)
  }

  /** Non-interference: in every run of the whole case, what key `k` goes through is a run of the
      single-key protocol, made of its own actions. */
  lemma {:induction false} KeysDoNotInterfere(s: Whole, c: string, policy: iset<Behaviour>, run: seq<CaseAction>, k: string)
    requires Untouched(s, c) && CaseRuns(s, c, policy, run)
    ensures c in After(s, c, run).cases
    ensures Runs(policy, Only(run, k)) && View(After(s, c, run), c, k) == Final(Only(run, k))
  {
    hide Do, View, Next, Enabled;
    if run == [] {
      assert View(s, c, k) == INITIAL by { UntouchedView(s, c, k); }
    } else {
      var n := |run| - 1;
      KeysDoNotInterfere(s, c, policy, run[..n], k);
      StepViews(After(s, c, run[..n]), c, run[n], k);
      if run[n].OnKey? && run[n].key == k { Extend(policy, Only(run[..n], k), run[n].action); }
    }
  }

  lemma UntouchedView(s: Whole, c: string, k: string)
    requires Untouched(s, c)
    ensures View(s, c, k) == INITIAL
  {
  }

  /** No message of the case leaves twice, under any of its keys. */
  ghost predicate EveryKeyAtMostOnce(s: Whole, c: string, policy: iset<Behaviour>) {
    forall run, k | CaseRuns(s, c, policy, run) :: View(After(s, c, run), c, k).effects <= 1
  }

  function Lift(run: seq<Action>, k: string): seq<CaseAction> {
    seq(|run|, i requires 0 <= i < |run| => OnKey(k, run[i]))
  }

  /** A single-key run is a run of the whole case. */
  lemma {:induction false} LiftRuns(s: Whole, c: string, policy: iset<Behaviour>, run: seq<Action>, k: string)
    requires Untouched(s, c) && Runs(policy, run)
    ensures CaseRuns(s, c, policy, Lift(run, k)) && Only(Lift(run, k), k) == run
  {
    hide Enabled, View, After;
    if run != [] {
      var n := |run| - 1;
      LiftRuns(s, c, policy, run[..n], k);
      KeysDoNotInterfere(s, c, policy, Lift(run[..n], k), k);
      assert Lift(run, k)[..n] == Lift(run[..n], k);
      assert run == run[..n] + [run[n]];
    }
  }

  /** At-most-once for every key of a shared case row, over all interleavings of all keys' workers
      and of degradation records and clears, holds exactly for safe send functions. */
  lemma EveryKeyAtMostOnceIff(s: Whole, c: string, policy: iset<Behaviour>)
    requires Untouched(s, c)
    ensures EveryKeyAtMostOnce(s, c, policy) <==> SafePolicy(policy)
  {
    hide View, After, CaseRuns, Runs, Final;
    AtMostOnceIffSafePolicy(policy);
    if AtMostOnce(policy) {
      forall run, k | CaseRuns(s, c, policy, run) ensures View(After(s, c, run), c, k).effects <= 1 {
        KeysDoNotInterfere(s, c, policy, run, k);
      }
    }
    if EveryKeyAtMostOnce(s, c, policy) {
      forall run | Runs(policy, run) ensures Final(run).effects <= 1 {
        LiftRuns(s, c, policy, run, "");
        KeysDoNotInterfere(s, c, policy, Lift(run, ""), "");
      }
    }
  }

  // ---- the counter does not see sends ----------------------------------------------------------

  function Degradations(run: seq<CaseAction>): seq<CaseAction> {
    if run == [] then []
    else if run[|run| - 1].OnKey? then Degradations(run[..|run| - 1])
    else Degradations(run[..|run| - 1]) + [run[|run| - 1]]
  }

  lemma DegradationStep(s: Whole, t: Whole, c: string, act: CaseAction)
    requires c != "" && c in s.cases && c in t.cases && s.cases[c].degradation == t.cases[c].degradation && !act.OnKey?
    ensures c in Do(s, c, act).cases && c in Do(t, c, act).cases
    ensures Do(s, c, act).cases[c].degradation == Do(t, c, act).cases[c].degradation
  {
  }

  /** The stored counter after a run is the one its records and clears alone would leave. */
  lemma {:induction false} SendsDoNotTouchCounter(s: Whole, c: string, run: seq<CaseAction>)
    requires c != "" && c in s.cases
    ensures c in After(s, c, run).cases && c in After(s, c, Degradations(run)).cases
    ensures After(s, c, run).cases[c].degradation == After(s, c, Degradations(run)).cases[c].degradation
  {
    hide Do;
    if run != [] {
      var n := |run| - 1;
      SendsDoNotTouchCounter(s, c, run[..n]);
      var before, alone := After(s, c, run[..n]), Degradations(run[..n]);
      if run[n].OnKey? {
        StepViews(before, c, run[n], "");
      } else {
        DegradationStep(before, After(s, c, alone), c, run[n]);
        assert (alone + [run[n]])[..|alone|] == alone;
      }
    }
  }
}
