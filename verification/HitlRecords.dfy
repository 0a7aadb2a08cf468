/** What the send protocol records, whatever the send function does: the executed event, the time
    stamps, and the fate of a key whose send is settled. */
module HitlRecords {
  import opened OrderedDict
  import opened HitlSend

  // ---- the executed event ---------------------------------------------------------------

  /** Action `a` records an executed send. */
  predicate RecordsExecuted(s: State, a: Action) { a.Persist? && PhaseOf(s, a.w) == Recording(Executed) }

  /** Some worker has recorded an executed send. */
  predicate EverRecorded(run: seq<Action>) {
    run != [] && (EverRecorded(run[..|run| - 1]) || RecordsExecuted(Final(run[..|run| - 1]), run[|run| - 1]))
  }

  /** The event is there, once, exactly when some worker has recorded an executed send. */
  lemma {:induction false} EventIff(run: seq<Action>)
    ensures Final(run).events == if EverRecorded(run) then 1 else 0
  {
    if run != [] { EventIff(run[..|run| - 1]); }
  }

  /** Events are never taken back. */
  lemma {:induction false} EventStays(run: seq<Action>, more: seq<Action>)
    ensures Final(run).events <= Final(run + more).events
  {
    if more == [] {
      assert run + more == run;
    } else {
      assert (run + more)[..|run + more| - 1] == run + more[..|more| - 1];
      EventStays(run, more[..|more| - 1]);
      EventIff(run + more[..|more| - 1]);
      EventIff(run + more);
    }
  }

  /** No worker dies with an executed send still to record. */
  predicate NoneLost(run: seq<Action>) {
    run == [] || (NoneLost(run[..|run| - 1])
                  && !(run[|run| - 1].Die? && PhaseOf(Final(run[..|run| - 1]), run[|run| - 1].w) == Recording(Executed)))
  }

  ghost predicate RecordPending(s: State) { exists w :: w in s.workers && s.workers[w] == Recording(Executed) }

  lemma StepRecords(s: State, a: Action, policy: iset<Behaviour>)
    requires Enabled(s, a, policy) && !(a.Die? && PhaseOf(s, a.w) == Recording(Executed))
    requires s.send.status == Executed ==> s.events == 1 || RecordPending(s)
    ensures Next(s, a).send.status == Executed ==> Next(s, a).events == 1 || RecordPending(Next(s, a))
  {
    var t := Next(s, a);
    if a.Complete? && t.send.status == Executed {
      assert t.workers[a.w] == Recording(Executed);
    } else if s.send.status == Executed && s.events != 1 && !RecordsExecuted(s, a) {
      var w :| w in s.workers && s.workers[w] == Recording(Executed);
      assert w in t.workers && t.workers[w] == Recording(Executed);
    }
  }

  /** For every send function: an executed status has its event, or a worker is about to record it,
      unless a worker died in between. */
  lemma {:induction false} ExecutedIsRecorded(policy: iset<Behaviour>, run: seq<Action>)
    requires Runs(policy, run) && NoneLost(run)
    ensures Final(run).send.status == Executed ==> Final(run).events == 1 || RecordPending(Final(run))
  {
    hide Next, Enabled, RecordPending;
    if run != [] {
      ExecutedIsRecorded(policy, run[..|run| - 1]);
      StepRecords(Final(run[..|run| - 1]), run[|run| - 1], policy);
    }
  }

  /** And even then any new call makes up for it: it reads the settled state and records it. */
  lemma NewCallRecords(policy: iset<Behaviour>, run: seq<Action>, w: WorkerId) returns (run': seq<Action>)
    requires Runs(policy, run) && Final(run).send.status == Executed && PhaseOf(Final(run), w) in {Idle, Waiting}
    ensures run <= run' && |run'| == |run| + 2 && Runs(policy, run') && Final(run').events == 1 && Final(run').send == Final(run).send
  {
    var look := if PhaseOf(Final(run), w) == Idle then Read(w) else Poll(w);
    Extend(policy, run, look);
    Extend(policy, run + [look], Persist(w));
    run' := run + [look] + [Persist(w)];
  }

  /** A worker whose claim is refused waits as long as the send is under way, so that it can record the
      result once it is settled; it gives up when the key was reopened. */
  lemma LoserWaits(s: State, a: Action, policy: iset<Behaviour>)
    requires Enabled(s, a, policy)
    ensures a.Call? && a.b.claims && Started(s.send.status) ==> PhaseOf(Next(s, a), a.w) == Waiting
    ensures a.Poll? && s.send.status == Executing ==> PhaseOf(Next(s, a), a.w) == Waiting
    ensures a.Poll? && Settled(s.send.status) ==> PhaseOf(Next(s, a), a.w) == Recording(s.send.status)
    ensures a.Poll? && !Started(s.send.status) ==> PhaseOf(Next(s, a), a.w) == Finished
  {
  }

  // ---- a settled key is left alone -----------------------------------------------------------

  /** No worker is between its read and its completion write. */
  predicate Quiet(s: State) {
    forall w | w in s.workers :: s.workers[w] in {Idle, Waiting, Finished} || s.workers[w].Recording?
  }

  lemma QuietStep(s: State, a: Action, policy: iset<Behaviour>)
    requires Quiet(s) && Settled(s.send.status) && Enabled(s, a, policy)
    ensures Quiet(Next(s, a)) && Next(s, a).send == s.send && Next(s, a).effects == s.effects
  {
  }

  /** For every send function: once a send is settled and nobody is under way, no call ever touches the
      state or sends again, however many come. */
  lemma {:induction false} SettledIsFinal(policy: iset<Behaviour>, run: seq<Action>, more: seq<Action>)
    requires Runs(policy, run + more) && Quiet(Final(run)) && Settled(Final(run).send.status)
    ensures Quiet(Final(run + more)) && Final(run + more).send == Final(run).send && Final(run + more).effects == Final(run).effects
  {
    hide Next, Enabled, Quiet;
    if more == [] {
      assert run + more == run;
    } else {
      var n := |more| - 1;
      assert (run + more)[..|run + more| - 1] == run + more[..n];
      SettledIsFinal(policy, run, more[..n]);
      QuietStep(Final(run + more[..n]), more[n], policy);
    }
  }

  // ---- time stamps ------------------------------------------------------------------------------

  /** The time of the first accept of a run. */
  function FirstAccept(run: seq<Action>): Option<int> {
    if run == [] then None
    else
      var before := FirstAccept(run[..|run| - 1]);
      if before.Some? then before else if run[|run| - 1].Accept? then Some(run[|run| - 1].now) else None
  }

  /** Nobody has accepted yet. */
  predicate Untouched(s: State) {
    s.send == ABSENT && forall w | w in s.workers :: s.workers[w] in {Idle, Reading, Finished}
  }

  lemma AcceptStep(s: State, a: Action, policy: iset<Behaviour>, first: Option<int>)
    requires Enabled(s, a, policy) && (if first.None? then Untouched(s) else s.send.acceptedAt == first)
    ensures var t := Next(s, a);
            if first.Some? then t.send.acceptedAt == first
            else if a.Accept? then t.send.acceptedAt == Some(a.now) else Untouched(t)
  {
  }

  /** In every run the stored acceptance time is that of the first accept, and absent before it. */
  lemma {:induction false} AcceptedAtIsFirst(policy: iset<Behaviour>, run: seq<Action>)
    requires Runs(policy, run)
    ensures Final(run).send.acceptedAt == FirstAccept(run)
    ensures FirstAccept(run).None? ==> Untouched(Final(run))
  {
    hide Next, Enabled, Untouched;
    if run == [] {
      assert Untouched(INITIAL) by { NobodyYet(); }
    } else {
      AcceptedAtIsFirst(policy, run[..|run| - 1]);
      AcceptStep(Final(run[..|run| - 1]), run[|run| - 1], policy, FirstAccept(run[..|run| - 1]));
      assert FirstAccept(run).None? ==> INITIAL.send.acceptedAt == None;
      assert Untouched(Final(run)) ==> Final(run).send.acceptedAt == None by { UntouchedUnaccepted(Final(run)); }
    }
  }

  lemma NobodyYet()
    ensures Untouched(INITIAL)
  {
  }

  lemma UntouchedUnaccepted(s: State)
    ensures Untouched(s) ==> s.send.acceptedAt == None
  {
  }

  /** Every other stamp: a claim that succeeds writes its start and a completion its end, a new accept of
      an unstarted key clears both, and nothing else moves them. */
  lemma StampsExact(s: State, a: Action, policy: iset<Behaviour>)
    requires Enabled(s, a, policy)
    ensures var t := Next(s, a).send;
            var claims := a.Call? && a.b.claims && !Started(s.send.status);
            var reopens := a.Accept? && !Started(s.send.status);
            && t.startedAt == (if claims then Some(a.now) else if reopens then None else s.send.startedAt)
            && t.completedAt == (if a.Complete? then Some(a.now) else if reopens then None else s.send.completedAt)
            && t.status == (if claims then Executing else if reopens then AcceptedStatus
                            else if a.Complete? then s.workers[a.w].b.report else s.send.status)
  {
  }
}
