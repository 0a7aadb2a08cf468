/** The operator-approved send: any number of workers share one decision key, and
    every state change is one atomic case mutation. */
module HitlSend {
  import opened OrderedDict

  // ---- the stored send state and its three mutations ---------------------------------

  datatype Status = Empty | AcceptedStatus | Executing | Executed | OutcomeUnknown | FailedBefore | Other(name: string)

  datatype SendState = SendState(status: Status, acceptedAt: Option<int>, startedAt: Option<int>, completedAt: Option<int>)

  const ABSENT := SendState(Empty, None, None, None)

  /** Statuses that an accept leaves alone and a claim refuses. */
  predicate Started(s: Status) { s == Executing || s == Executed || s == OutcomeUnknown }

  /** Statuses that a fresh call replays instead of sending. */
  predicate Settled(s: Status) { s == Executed || s == OutcomeUnknown }

  function AcceptState(cur: SendState, now: int): SendState {
    if Started(cur.status) then cur
    else SendState(AcceptedStatus, if cur.acceptedAt.Some? then cur.acceptedAt else Some(now), None, None)
  }

  function ClaimState(cur: SendState, now: int): Option<SendState> {
    if Started(cur.status) then None else Some(cur.(status := Executing, startedAt := Some(now)))
  }

  /** The completion write: unconditional. */
  function CompleteState(cur: SendState, report: Status, now: int): SendState {
    cur.(status := report, completedAt := Some(now))
  }

  // ---- send functions -----------------------------------------------------------------

  /** One way a send function may behave: whether it calls `on_effect_start` first, whether the
      message leaves, and the decision status it returns. */
  datatype Behaviour = Behaviour(claims: bool, effect: bool, report: Status)

  /** The send function in the repository: every path returns before starting an effect. */
  const SHIPPED: iset<Behaviour> := iset{Behaviour(false, false, FailedBefore)}

  // ---- the protocol ----------------------------------------------------------------------

  datatype Phase =
    | Idle
    | Reading                  // read a state that is not settled
    | Approved                 // wrote its accept
    | InFlight(b: Behaviour)   // past the claim, or past the point where a claim would have been
    | Returning(b: Behaviour)  // effect done or skipped, completion write pending
    | Recording(seen: Status)  // has a result to record: its own, or a settled one it read
    | Waiting                  // its claim was refused; polls the state
    | Finished

  type WorkerId = nat

  datatype State = State(send: SendState, effects: nat, events: nat, workers: map<WorkerId, Phase>)

  const INITIAL := State(ABSENT, 0, 0, map[])

  datatype Action =
    | Read(w: WorkerId)
    | Accept(w: WorkerId, now: int)
    | Call(w: WorkerId, b: Behaviour, now: int)
    | Effect(w: WorkerId)
    | Complete(w: WorkerId, now: int)
    | Persist(w: WorkerId)
    | Poll(w: WorkerId)
    | Die(w: WorkerId)

  function PhaseOf(s: State, w: WorkerId): Phase { if w in s.workers then s.workers[w] else Idle }

  function Set(s: State, w: WorkerId, p: Phase): State { s.(workers := s.workers[w := p]) }

  predicate Enabled(s: State, a: Action, policy: iset<Behaviour>) {
    match a
    case Read(w) => PhaseOf(s, w) == Idle
    case Accept(w, _) => PhaseOf(s, w) == Reading
    case Call(w, b, _) => PhaseOf(s, w) == Approved && b in policy
    case Effect(w) => PhaseOf(s, w).InFlight?
    case Complete(w, _) => PhaseOf(s, w).Returning?
    case Persist(w) => PhaseOf(s, w).Recording?
    case Poll(w) => PhaseOf(s, w) == Waiting
    case Die(_) => true
  }

  function Next(s: State, a: Action): State {
    match a
    case Read(w) => Set(s, w, if Settled(s.send.status) then Recording(s.send.status) else Reading)
    case Accept(w, now) => Set(s.(send := AcceptState(s.send, now)), w, Approved)
    case Call(w, b, now) =>
      if !b.claims then Set(s, w, InFlight(b))
      else
        var c := ClaimState(s.send, now);
        if c.None? then Set(s, w, Waiting) else Set(s.(send := c.value), w, InFlight(b))
    case Effect(w) =>
      var p := PhaseOf(s, w);
      if p.InFlight? then Set(s.(effects := s.effects + if p.b.effect then 1 else 0), w, Returning(p.b)) else s
    case Complete(w, now) =>
      var p := PhaseOf(s, w);
      // the state is written first; the result is recorded from it in a second step
      if p.Returning? then Set(s.(send := CompleteState(s.send, p.b.report, now)), w, Recording(p.b.report)) else s
    case Persist(w) =>
      // the event id is derived from the key, so a second append is ignored
      Set(s.(events := if PhaseOf(s, w) == Recording(Executed) then 1 else s.events), w, Finished)
    case Poll(w) =>
      if Settled(s.send.status) then Set(s, w, Recording(s.send.status)) else Set(s, w, if s.send.status == Executing then Waiting else Finished)
    case Die(w) => Set(s, w, Finished)
  }

  ghost predicate Runs(policy: iset<Behaviour>, run: seq<Action>) {
    run == [] || (Runs(policy, run[..|run| - 1]) && Enabled(Final(run[..|run| - 1]), run[|run| - 1], policy))
  }

  function Final(run: seq<Action>): State {
    if run == [] then INITIAL else Next(Final(run[..|run| - 1]), run[|run| - 1])
  }

  /** In every interleaving of any number of workers the message leaves at most once. */
  ghost predicate AtMostOnce(policy: iset<Behaviour>) {
    forall run | Runs(policy, run) :: Final(run).effects <= 1
  }

  /** The condition on the send function: nothing is ever sent, or every sending path claims first
      and reports a started status, and no unclaimed path reports a status that reopens the key. */
  ghost predicate SafePolicy(policy: iset<Behaviour>) {
    || (forall b | b in policy :: !b.effect)
    || (&& (forall b | b in policy && b.effect :: b.claims && Started(b.report))
        && (forall b | b in policy && !b.claims :: Started(b.report)))
  }

  // ---- safe policies keep the effect unique ---------------------------------------------------

  predicate Claimed(p: Phase) { (p.InFlight? || p.Returning?) && p.b.claims }

  ghost predicate FromPolicy(p: Phase, policy: iset<Behaviour>) { p.InFlight? || p.Returning? ==> p.b in policy }

  ghost predicate Inv(s: State, policy: iset<Behaviour>) {
    && (forall w | w in s.workers :: FromPolicy(s.workers[w], policy))
    && (forall v, w | v in s.workers && w in s.workers && Claimed(s.workers[v]) && Claimed(s.workers[w]) :: v == w)
    && (forall w | w in s.workers && Claimed(s.workers[w]) :: Started(s.send.status))
    && s.effects <= 1
    && (s.effects == 1 ==> Started(s.send.status))
    && (s.effects == 1 ==> forall w | w in s.workers && Claimed(s.workers[w]) :: s.workers[w].Returning? && s.workers[w].b.effect)
  }

  lemma StepKeepsInv(s: State, a: Action, policy: iset<Behaviour>)
    requires SafePolicy(policy) && exists b :: b in policy && b.effect
    requires Inv(s, policy) && Enabled(s, a, policy)
    ensures Inv(Next(s, a), policy)
  {
  }

  /** No sending path at all: the counter never moves. */
  lemma {:induction false} NoEffectPolicy(policy: iset<Behaviour>, run: seq<Action>)
    requires Runs(policy, run) && forall b | b in policy :: !b.effect
    ensures Final(run).effects == 0
    ensures forall w | w in Final(run).workers :: FromPolicy(Final(run).workers[w], policy)
  {
    if run != [] { NoEffectPolicy(policy, run[..|run| - 1]); }
  }

  lemma {:induction false} SafeRunsKeepInv(policy: iset<Behaviour>, run: seq<Action>)
    requires SafePolicy(policy) && exists b :: b in policy && b.effect
    requires Runs(policy, run)
    ensures Inv(Final(run), policy)
  {
    if run != [] {
      SafeRunsKeepInv(policy, run[..|run| - 1]);
      StepKeepsInv(Final(run[..|run| - 1]), run[|run| - 1], policy);
    }
  }

  // ---- unsafe policies have a run that sends twice --------------------------------------------

  lemma Extend(policy: iset<Behaviour>, run: seq<Action>, a: Action)
    requires Runs(policy, run) && Enabled(Final(run), a, policy)
    ensures Runs(policy, run + [a]) && Final(run + [a]) == Next(Final(run), a)
  {
    assert (run + [a])[..|run|] == run;
  }

  /** A new call on a key that has not started is approved. */
  lemma FreshCall(policy: iset<Behaviour>, run: seq<Action>, w: WorkerId) returns (run': seq<Action>)
    requires Runs(policy, run) && PhaseOf(Final(run), w) == Idle && !Started(Final(run).send.status)
    ensures Runs(policy, run') && Final(run').send.status == AcceptedStatus
    ensures Final(run').workers == Final(run).workers[w := Approved]
    ensures Final(run').effects == Final(run).effects
  {
    Extend(policy, run, Read(w));
    var mid := run + [Read(w)];
    Extend(policy, mid, Accept(w, 0));
    run' := mid + [Accept(w, 0)];
  }

  /** Two workers get past their reads and accepts before either sends. */
  lemma BothApproved(policy: iset<Behaviour>) returns (run: seq<Action>)
    ensures Runs(policy, run) && Final(run).effects == 0 && Final(run).send.status == AcceptedStatus
    ensures Final(run).workers == map[0 := Approved, 1 := Approved]
  {
    run := FreshCall(policy, [], 0);
    run := FreshCall(policy, run, 1);
  }

  /** An approved worker runs its send to the end. */
  lemma SendThrough(policy: iset<Behaviour>, run: seq<Action>, w: WorkerId, b: Behaviour) returns (run': seq<Action>)
    requires Runs(policy, run) && PhaseOf(Final(run), w) == Approved && b in policy
    requires b.claims ==> !Started(Final(run).send.status)
    ensures Runs(policy, run')
    ensures Final(run').effects == Final(run).effects + if b.effect then 1 else 0
    ensures Final(run').send.status == b.report
    ensures Final(run').workers == Final(run).workers[w := Finished]
  {
    run' := run;
    Extend(policy, run', Call(w, b, 0)); run' := run' + [Call(w, b, 0)];
    Extend(policy, run', Effect(w)); run' := run' + [Effect(w)];
    Extend(policy, run', Complete(w, 0)); run' := run' + [Complete(w, 0)];
    Extend(policy, run', Persist(w)); run' := run' + [Persist(w)];
  }

  /** The double send. */
  lemma UnsafePolicySendsTwice(policy: iset<Behaviour>) returns (run: seq<Action>)
    requires !SafePolicy(policy)
    ensures Runs(policy, run) && Final(run).effects >= 2
  {
    var e :| e in policy && e.effect;
    run := BothApproved(policy);
    if u :| u in policy && u.effect && !u.claims {
      // neither worker claims, so both send
      run := SendThrough(policy, run, 0, u);
      run := SendThrough(policy, run, 1, u);
    } else if u :| u in policy && u.effect && !Started(u.report) {
      // the first send reports a status that lets the second one claim
      run := SendThrough(policy, run, 0, u);
      run := SendThrough(policy, run, 1, u);
    } else {
      // the second worker gives up without a claim and overwrites the first one's result
      var u :| u in policy && !u.claims && !Started(u.report);
      run := SendThrough(policy, run, 0, e);
      run := SendThrough(policy, run, 1, u);
      run := FreshCall(policy, run, 2);
      run := SendThrough(policy, run, 2, e);
    }
  }

  /** At-most-once holds over all interleavings exactly for safe send functions. */
  lemma AtMostOnceIffSafePolicy(policy: iset<Behaviour>)
    ensures AtMostOnce(policy) <==> SafePolicy(policy)
  {
    if SafePolicy(policy) {
      forall run | Runs(policy, run) ensures Final(run).effects <= 1 {
        if exists b :: b in policy && b.effect {
          SafeRunsKeepInv(policy, run);
        } else {
          NoEffectPolicy(policy, run);
        }
      }
    } else {
      var run := UnsafePolicySendsTwice(policy);
    }
  }

  /** The shipped function sends nothing. Adding a sending path beside its unclaimed early returns,
      claimed and correctly reported as it may be, gives up at-most-once. */
  lemma ShippedIsSafeButFragile(b: Behaviour)
    requires b.effect
    ensures AtMostOnce(SHIPPED)
    ensures !AtMostOnce(SHIPPED + iset{b})
  {
    AtMostOnceIffSafePolicy(SHIPPED);
    AtMostOnceIffSafePolicy(SHIPPED + iset{b});
    assert b in SHIPPED + iset{b} && Behaviour(false, false, FailedBefore) in SHIPPED + iset{b};
  }

  // ---- statuses and events tell the truth -------------------------------------------------------

  /** The stored status and the "executed exactly once" event are the truth about the effect:
      `executed` means sent exactly once, an empty, accepted or failed status means not sent, and
      the event is recorded at most once and only for a message that left. */
  predicate Truthful(s: State) {
    && s.effects <= 1 && s.events <= 1
    && (s.send.status == Executed ==> s.effects == 1)
    && (s.send.status in {Empty, AcceptedStatus, FailedBefore} ==> s.effects == 0)
    && (s.events == 1 ==> s.effects == 1)
  }

  ghost predicate AlwaysTruthful(policy: iset<Behaviour>) {
    forall run | Runs(policy, run) :: Truthful(Final(run))
  }

  /** No path reports `executed` without having sent. */
  ghost predicate NoFalseReport(policy: iset<Behaviour>) {
    forall b | b in policy && b.report == Executed :: b.effect
  }

  ghost predicate TruthInv(s: State, policy: iset<Behaviour>) {
    && Inv(s, policy)
    && (forall w | w in s.workers && s.workers[w].Returning? && s.workers[w].b.effect :: s.effects == 1)
    && (s.send.status == Executed ==> s.effects == 1)
    && (forall w | w in s.workers && s.workers[w] == Recording(Executed) :: s.effects == 1)
    && (!Started(s.send.status) ==> s.effects == 0)
    && (s.events >= 1 ==> s.effects == 1)
    && s.events <= 1
  }

  lemma InitialTruth(policy: iset<Behaviour>)
    ensures TruthInv(INITIAL, policy)
  {
  }

  lemma StepKeepsTruth(s: State, a: Action, policy: iset<Behaviour>)
    requires NoFalseReport(policy) && TruthInv(s, policy) && Enabled(s, a, policy) && Inv(Next(s, a), policy)
    ensures TruthInv(Next(s, a), policy)
  {
  }

  lemma {:induction false} SendingRunsKeepTruth(policy: iset<Behaviour>, run: seq<Action>)
    requires SafePolicy(policy) && NoFalseReport(policy) && Runs(policy, run) && exists b :: b in policy && b.effect
    ensures TruthInv(Final(run), policy)
  {
    hide Inv, Next, Enabled;
    if run == [] {
      assert TruthInv(INITIAL, policy) by { InitialTruth(policy); }
    } else {
      SendingRunsKeepTruth(policy, run[..|run| - 1]);
      StepKeepsInv(Final(run[..|run| - 1]), run[|run| - 1], policy);
      StepKeepsTruth(Final(run[..|run| - 1]), run[|run| - 1], policy);
    }
  }

  /** Nothing sent, and nothing claims otherwise. */
  ghost predicate Silent(s: State) {
    && s.effects == 0 && s.events == 0 && s.send.status != Executed
    && forall w | w in s.workers :: s.workers[w] != Recording(Executed)
  }

  lemma {:induction false} SilentRuns(policy: iset<Behaviour>, run: seq<Action>)
    requires NoFalseReport(policy) && Runs(policy, run) && forall b | b in policy :: !b.effect
    ensures Silent(Final(run))
  {
    NoEffectPolicy(policy, run);
    if run != [] {
      SilentRuns(policy, run[..|run| - 1]);
      NoEffectPolicy(policy, run[..|run| - 1]);
    }
  }

  /** The lie: a path that reports `executed` without sending stores it. */
  lemma FalseReportLies(policy: iset<Behaviour>, b: Behaviour) returns (run: seq<Action>)
    requires b in policy && b.report == Executed && !b.effect
    ensures Runs(policy, run) && !Truthful(Final(run))
  {
    run := FreshCall(policy, [], 0);
    run := SendThrough(policy, run, 0, b);
  }

  /** Status and event tell the truth in every reachable state of every interleaving exactly when
      the send function is safe and reports `executed` only for what it sent. */
  lemma AlwaysTruthfulIff(policy: iset<Behaviour>)
    ensures AlwaysTruthful(policy) <==> SafePolicy(policy) && NoFalseReport(policy)
  {
    hide Runs, Final;
    if !SafePolicy(policy) {
      var run := UnsafePolicySendsTwice(policy);
      assert !Truthful(Final(run));
    } else if b :| b in policy && b.report == Executed && !b.effect {
      var run := FalseReportLies(policy, b);
    } else {
      forall run | Runs(policy, run) ensures Truthful(Final(run)) {
        if exists b :: b in policy && b.effect { SendingRunsKeepTruth(policy, run); } else { SilentRuns(policy, run); }
      }
    }
  }

  /** The shipped function is truthful, early returns and all. */
  lemma ShippedIsTruthful()
    ensures AlwaysTruthful(SHIPPED)
  {
    AlwaysTruthfulIff(SHIPPED);
  }

  // ---- the acceptance time is written once --------------------------------------------------------

  lemma {:induction false} AcceptedAtWrittenOnce(policy: iset<Behaviour>, run: seq<Action>, more: seq<Action>)
    requires Runs(policy, run + more) && Final(run).send.acceptedAt.Some?
    ensures Final(run + more).send.acceptedAt == Final(run).send.acceptedAt
  {
    if more == [] {
      assert run + more == run;
    } else {
      var n := |more| - 1;
      assert (run + more)[..|run| + n] == run + more[..n];
      AcceptedAtWrittenOnce(policy, run, more[..n]);
    }
  }
}
