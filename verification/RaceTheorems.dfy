/**
 What every run of GetSCTs guarantees: the returned SCTs satisfy the policy when no error is
 returned, nothing is submitted twice or overwritten, requests are cancelled exactly when nobody
 awaits them, and the reservation of base-group slots never collects too much.
 */
module RaceTheorems {
  import opened Races
  import opened RaceRuns

  // ---------------------------------------------------------------- hypotheses on a policy

  ghost predicate BaseCovers(p: Policy) {
    BASE_NAME in p && forall g :: g in p ==> p[g].logs <= p[BASE_NAME].logs
  }

  ghost function Others(p: Policy): set<string> {
    p.Keys - {BASE_NAME}
  }

  /** The base group asks for at least as many SCTs as the other groups together. */
  ghost predicate Reserved(p: Policy) {
    BASE_NAME in p && p[BASE_NAME].min >= PositiveSum(Start(p).needs, Others(p))
  }

  /** `scts` holds SCTs of at least `min` distinct logs of every group. */
  ghost predicate Satisfies(p: Policy, scts: map<string, Sct>) {
    forall g :: g in p ==> |scts.Keys * p[g].logs| >= p[g].min
  }

  // ---------------------------------------------------------------- no error means the policy is met

  lemma CompleteMeansSatisfied(c: Config, s: System)
    requires Inv(c, s) && forall g :: g in c.policy ==> Complete(s.st, g)
    ensures Satisfies(c.policy, Kept(s.st.results))
  {
    forall g | g in c.policy ensures |Kept(s.st.results).Keys * c.policy[g].logs| >= c.policy[g].min {
      KeptInKept(c.policy, s.st, g);
    }
  }

  /** The SCTs GetSCTs returns were each given by the log they are assigned to. */
  ghost predicate Genuine(s: System, scts: map<string, Sct>) {
    forall l :: l in scts ==> l in s.answered && s.answered[l] == scts[l]
  }

  ghost predicate OutcomeGood(c: Config, s: System) {
    s.outcome.Some? ==>
      && Genuine(s, s.outcome.value.scts)
      && (s.outcome.value.failed == {} ==> Satisfies(c.policy, s.outcome.value.scts))
  }

  /** Whatever the interleaving: if GetSCTs reports no failed group, every group got its minimum. */
  lemma {:induction false} NoErrorMeansPolicyMet(c: Config, es: seq<Event>)
    requires ValidConfig(c) && Possible(c, es)
    ensures OutcomeGood(c, Run(c, es))
  {
    hide Next, Inv, Enabled, OutcomeGood;
    if es == [] {
      InitialOutcome(c);
    } else {
      var before := es[..|es| - 1];
      NoErrorMeansPolicyMet(c, before);
      StepOutcome(c, Run(c, before), es[|es| - 1]);
    }
  }

  lemma InitialOutcome(c: Config)
    ensures OutcomeGood(c, Initial(c))
  {
  }

  lemma StepOutcome(c: Config, s: System, e: Event)
    requires ValidConfig(c) && Inv(c, s) && Enabled(c, s, e) && OutcomeGood(c, s)
    ensures OutcomeGood(c, Next(c, s, e))
  {
    hide Books, Cancels, Cancellable, ThreadsInv, History, Reports, Shape, Answer, Request, Satisfies, Kept, Genuine,
      AllFinished;
    var s' := Next(c, s, e);
    AnswersStay(c, s, e);
    if e.Return? {
      ReturnOutcome(c, s, s'.outcome.value.failed);
      GenuineStays(s, s', Kept(s.st.results));
    } else if s.outcome.Some? {
      GenuineStays(s, s', s.outcome.value.scts);
    }
  }

  lemma GenuineStays(s: System, s': System, scts: map<string, Sct>)
    requires Genuine(s, scts) && forall l :: l in s.answered ==> l in s'.answered && s'.answered[l] == s.answered[l]
    ensures Genuine(s', scts)
  {
  }

  lemma ReturnOutcome(c: Config, s: System, failed: set<string>)
    requires Inv(c, s) && failed == set g | g in s.complete && !s.complete[g]
    ensures Genuine(s, Kept(s.st.results)) && (failed == {} ==> Satisfies(c.policy, Kept(s.st.results)))
  {
    hide Books, Cancels, Cancellable, ThreadsInv, Reports, Shape, Satisfies;
    KeptIsGenuine(s);
    if failed == {} {
      forall g | g in s.complete ensures s.complete[g] {
        assert g !in failed;
      }
      ReturnWithoutFailure(c, s);
    }
  }

  lemma KeptIsGenuine(s: System)
    requires History(s)
    ensures Genuine(s, Kept(s.st.results))
  {
  }

  lemma ReturnWithoutFailure(c: Config, s: System)
    requires Inv(c, s) && forall g :: g in s.complete ==> s.complete[g]
    ensures Satisfies(c.policy, Kept(s.st.results))
  {
    CompleteMeansSatisfied(c, s);
  }

  lemma AnswersStay(c: Config, s: System, e: Event)
    requires ValidConfig(c) && Inv(c, s) && Enabled(c, s, e)
    ensures forall l :: l in s.answered ==> l in Next(c, s, e).answered && Next(c, s, e).answered[l] == s.answered[l]
    ensures !e.Return? ==> Next(c, s, e).outcome == s.outcome
  {
    hide Books, Cancels, ThreadsInv, History, Reports, Shape, Answer, Request;
    if e.Reply? {
      InFlightFacts(c, s, e.g, e.i);
    }
  }

  // ---------------------------------------------------------------- once only, and for ever

  /** Across all races no log is submitted to twice. */
  lemma SubmittedOnce(c: Config, es: seq<Event>, i: nat, j: nat)
    requires ValidConfig(c) && Possible(c, es) && i < j < |Run(c, es).submitted|
    ensures Run(c, es).submitted[i] != Run(c, es).submitted[j]
  {
    assert Inv(c, Run(c, es));
  }

  /** Kept SCTs are still kept unchanged and needs have only fallen. */
  ghost predicate Later(s: State, s': State) {
    && s'.toGroups == s.toGroups
    && (forall g :: Need(s'.needs, g) <= Need(s.needs, g))
    && (forall l :: l in Kept(s.results) ==> l in Kept(s'.results) && Kept(s'.results)[l] == Kept(s.results)[l])
  }

  lemma RequestLater(s: State, log: string)
    ensures Later(s, Request(s, log).0)
  {
    hide Awaited;
  }

  lemma AnswerLater(p: Policy, s: State, log: string, r: SubmissionResult)
    requires Shape(p, s) && log in s.results && s.results[log] == PENDING
    ensures Later(s, Answer(s, log, r))
  {
    hide Settle, Prune;
    if r.sct.Some? {
      AnswerSettles(p, s, log, r);
      SettledFalls(p, s, log, r, Answer(s, log, r));
    }
  }

  lemma StepLater(c: Config, s: System, e: Event)
    requires ValidConfig(c) && Inv(c, s) && Enabled(c, s, e)
    ensures Later(s.st, Next(c, s, e).st)
  {
    hide Books, Cancels, ThreadsInv, History, Reports, Shape, Answer, Request;
    if e.Reply? {
      InFlightFacts(c, s, e.g, e.i);
      AnswerLater(c.policy, s.st, LogOf(c, e.g, e.i), e.r);
    } else if e.Ask? {
      ThreadFacts(c, s, e.g, e.i);
      RequestLater(s.st, LogOf(c, e.g, e.i));
    }
  }

  /** From any earlier point of a run: kept SCTs are still kept unchanged, needs have only fallen. */
  lemma {:induction false} LaterKeeps(c: Config, es: seq<Event>, k: nat)
    requires ValidConfig(c) && Possible(c, es) && k <= |es|
    ensures Possible(c, es[..k])
    ensures Later(Run(c, es[..k]).st, Run(c, es).st)
    decreases |es|
  {
    hide Next, Inv, Enabled, Kept, Need;
    if k == |es| {
      assert es[..k] == es;
    } else {
      var before := es[..|es| - 1];
      assert before[..k] == es[..k];
      LaterKeeps(c, before, k);
      StepLater(c, Run(c, before), es[|es| - 1]);
    }
  }

  /** A log that no group awaits is never awaited again, so its request is never wanted again. */
  lemma NeverAwaitedAgain(c: Config, es: seq<Event>, k: nat, log: string)
    requires ValidConfig(c) && Possible(c, es) && k <= |es|
    requires Possible(c, es[..k]) && !Awaited(Run(c, es[..k]).st, log)
    ensures !Awaited(Run(c, es).st, log)
  {
    LaterKeeps(c, es, k);
    AwaitedFalls(Run(c, es[..k]).st, Run(c, es).st, log);
  }

  /** A request that was sent has been cancelled exactly when no group awaits its log any more, and until
      then its cancel function is held. */
  lemma CancelledExactlyWhenIdle(c: Config, es: seq<Event>, log: string)
    requires ValidConfig(c) && Possible(c, es)
    ensures var s := Run(c, es);
            log in s.submitted ==>
              && (log in s.st.cancelled <==> !Awaited(s.st, log))
              && (log in s.st.cancels <==> Awaited(s.st, log))
  {
    assert Inv(c, Run(c, es));
  }

  // ---------------------------------------------------------------- the reservation of base-group slots

  ghost predicate Tight(p: Policy, st: State)
    requires BASE_NAME in p && st.needs.Keys == p.Keys
  {
    st.needs[BASE_NAME] == PositiveSum(st.needs, Others(p))
  }

  ghost predicate Reserve(p: Policy, st: State)
    requires BASE_NAME in p && st.needs.Keys == p.Keys
  {
    st.needs[BASE_NAME] >= PositiveSum(st.needs, Others(p))
  }

  /** How the total of the other groups' needs moves when `log` answers. */
  lemma OthersAfterAnswer(p: Policy, s: State, log: string, r: SubmissionResult)
    requires BASE_NAME in p && Shape(p, s) && log in s.results && r.sct.Some?
    ensures var s' := Answer(s, log, r);
            && s'.needs.Keys == p.Keys
            && PositiveSum(s'.needs, Others(p))
               == PositiveSum(s.needs, Others(p)) - |Hungry(s.needs, GroupsHolding(p, log) - {BASE_NAME}, Others(p))|
  {
    var s' := Answer(s, log, r);
    var gs := GroupsOf(s, log);
    GroupsOfShape(p, s, log);
    DecrementedSum(s.needs, gs - {BASE_NAME}, Others(p));
    PositiveSumSame(s'.needs, Decremented(s.needs, gs - {BASE_NAME}), Others(p));
  }

  /** A caller is to submit exactly when it is the first to ask for the log and some group of the log has a
      need. The log counts as asked from then on, and a cancel function is held only for a submission. */
  lemma RequestExactly(p: Policy, s: State, log: string)
    requires Shape(p, s)
    ensures var (s', first) := Races.Request(s, log);
            && (first <==> log !in s.results && exists g :: g in p && log in p[g].logs && s.needs[g] > 0)
            && s' == s.(results := if log in s.results then s.results else s.results[log := PENDING],
                        cancels := if first then s.cancels + {log} else s.cancels)
  {
    GroupsOfShape(p, s, log);
    if log !in s.results {
      var s1 := s.(results := s.results[log := PENDING]);
      assert GroupsOf(s1, log) == GroupsHolding(p, log);
      if g :| g in p && log in p[g].logs && s.needs[g] > 0 {
        assert g in GroupsOf(s1, log) && Need(s1.needs, g) > 0;
      }
    }
  }

  /** An answer is stored exactly when another group wants it or an unreserved base slot is left. */
  lemma AnswerStored(p: Policy, s: State, log: string, r: SubmissionResult)
    requires BASE_NAME in p && Shape(p, s) && log in p[BASE_NAME].logs
    requires log in s.results && s.results[log] == PENDING && r.sct.Some?
    ensures var s' := Answer(s, log, r);
            var wanted := Hungry(s.needs, GroupsHolding(p, log) - {BASE_NAME}, Others(p)) != {};
            && s'.needs.Keys == p.Keys
            && if wanted || s.needs[BASE_NAME] > PositiveSum(s'.needs, Others(p))
               then s'.results == s.results[log := r] && s'.needs[BASE_NAME] == s.needs[BASE_NAME] - 1
               else s'.results == s.results && s'.needs[BASE_NAME] == s.needs[BASE_NAME]
  {
    var gs := GroupsOf(s, log);
    GroupsOfShape(p, s, log);
    var needs := Decremented(s.needs, gs - {BASE_NAME});
    assert needs.Keys - {BASE_NAME} == Others(p);
    PositiveSumSame(Answer(s, log, r).needs, needs, Others(p));
    var hungry := Hungry(s.needs, gs - {BASE_NAME}, Others(p));
    assert hungry != {} <==> exists g :: g in gs - {BASE_NAME} && Need(s.needs, g) > 0 by {
      if exists g :: g in gs - {BASE_NAME} && Need(s.needs, g) > 0 {
        var g :| g in gs - {BASE_NAME} && Need(s.needs, g) > 0;
        assert g in hungry;
      }
    }
  }

  /** An answer of a log outside the base group is stored exactly when some group of the log has a need. */
  lemma AnswerStoredElsewhere(p: Policy, s: State, log: string, r: SubmissionResult)
    requires Shape(p, s) && (BASE_NAME in p ==> log !in p[BASE_NAME].logs)
    requires log in s.results && s.results[log] == PENDING && r.sct.Some?
    ensures var s' := Answer(s, log, r);
            && s'.results == (if exists g :: g in p && log in p[g].logs && s.needs[g] > 0 then s.results[log := r]
                              else s.results)
            && s'.needs == map g | g in p :: s.needs[g] - if log in p[g].logs then 1 else 0
  {
    GroupsOfShape(p, s, log);
    var gs := GroupsOf(s, log);
    assert gs - {BASE_NAME} == gs;
    assert (exists g :: g in gs && Need(s.needs, g) > 0) <==>
        exists g :: g in p && log in p[g].logs && s.needs[g] > 0 by {
      if g :| g in p && log in p[g].logs && s.needs[g] > 0 {
        assert g in gs && Need(s.needs, g) > 0;
      }
    }
  }

  /** When an answer is dumped, the base group's remaining slots are exactly the reserved ones. */
  lemma AnswerReserves(p: Policy, s: State, log: string, r: SubmissionResult)
    requires BASE_NAME in p && Shape(p, s) && Reserve(p, s) && log in p[BASE_NAME].logs
    requires log in s.results && s.results[log] == PENDING && r.sct.Some?
    ensures var s' := Answer(s, log, r);
            && s'.needs.Keys == p.Keys
            && Reserve(p, s')
            && (s'.results == s.results ==> Tight(p, s'))
  {
    hide Answer, GroupByLogs, AllLogs, Hungry, GroupsHolding;
    OthersAfterAnswer(p, s, log, r);
    AnswerStored(p, s, log, r);
  }

  ghost predicate Reserving(c: Config, s: System)
    requires BASE_NAME in c.policy
  {
    s.st.needs.Keys == c.policy.Keys && Reserve(c.policy, s.st)
  }

  /** Only a successful answer changes needs, what is kept, or who has answered. */
  lemma OtherEventsAreNeutral(c: Config, s: System, e: Event)
    requires ValidConfig(c) && Inv(c, s) && Enabled(c, s, e) && !(e.Reply? && e.r.sct.Some?)
    ensures var s' := Next(c, s, e);
            s'.st.needs == s.st.needs && Kept(s'.st.results) == Kept(s.st.results) && s'.answered == s.answered
  {
    hide Books, Cancels, Cancellable, ThreadsInv, History, Reports, Shape, Answer, Request, Kept, AllFinished, Complete;
    if e.Reply? {
      InFlightFacts(c, s, e.g, e.i);
      FailureIsNeutral(s.st, LogOf(c, e.g, e.i), e.r);
    } else if e.Ask? {
      ThreadFacts(c, s, e.g, e.i);
      RequestIsNeutral(s.st, LogOf(c, e.g, e.i));
    }
  }

  lemma RequestIsNeutral(st: State, log: string)
    ensures var st' := Request(st, log).0; st'.needs == st.needs && Kept(st'.results) == Kept(st.results)
  {
    hide Awaited;
  }

  lemma FailureIsNeutral(st: State, log: string, r: SubmissionResult)
    requires log in st.results && st.results[log] == PENDING && r.sct.None?
    ensures var st' := Answer(st, log, r); st'.needs == st.needs && Kept(st'.results) == Kept(st.results)
  {
    hide Settle, Prune;
  }

  lemma StepReserving(c: Config, s: System, e: Event)
    requires ValidConfig(c) && BaseCovers(c.policy) && Inv(c, s) && Enabled(c, s, e) && Reserving(c, s)
    ensures Reserving(c, Next(c, s, e))
  {
    hide Books, Cancels, ThreadsInv, History, Reports, Shape, Answer, Request, Tight, Reserve, Kept;
    if e.Reply? && e.r.sct.Some? {
      InFlightFacts(c, s, e.g, e.i);
      BaseHolds(c, s, e.g, e.i);
      var log := LogOf(c, e.g, e.i);
      AnswerReserves(c.policy, s.st, log, e.r);
    } else {
      OtherEventsAreNeutral(c, s, e);
      SameReserve(c.policy, s.st, Next(c, s, e).st);
    }
  }

  lemma AnsweredKnown(p: Policy, s: System)
    requires Shape(p, s.st) && History(s)
    ensures s.answered.Keys <= AllLogs(p) && Kept(s.st.results).Keys <= s.answered.Keys
  {
  }

  lemma SameReserve(p: Policy, st: State, st': State)
    requires BASE_NAME in p && st.needs.Keys == p.Keys && st'.needs == st.needs
    ensures Reserve(p, st') == Reserve(p, st) && Tight(p, st') == Tight(p, st)
  {
  }

  lemma BaseHolds(c: Config, s: System, g: string, i: nat)
    requires ValidConfig(c) && BaseCovers(c.policy) && ThreadsInv(c, s) && (g, i) in s.pcs
    ensures (g, i) in Threads(c) && LogOf(c, g, i) in c.policy[BASE_NAME].logs
  {
    assert LogOf(c, g, i) in c.policy[g].logs;
  }

  lemma StoredGrows(p: Policy, s: State, log: string, r: SubmissionResult)
    requires Shape(p, s) && log in s.results && s.results[log] == PENDING && r.sct.Some?
    ensures var s' := Answer(s, log, r);
            s'.results == s.results || Kept(s'.results).Keys == Kept(s.results).Keys + {log}
  {
    hide Answer;
    AnswerSettles(p, s, log, r);
    SettledFalls(p, s, log, r, Answer(s, log, r));
  }

  lemma InitialReserving(c: Config)
    requires Reserved(c.policy)
    ensures Reserving(c, Initial(c))
  {
  }

  lemma {:induction false} RunsReserve(c: Config, es: seq<Event>)
    requires ValidConfig(c) && Possible(c, es) && BaseCovers(c.policy) && Reserved(c.policy)
    ensures Reserving(c, Run(c, es))
  {
    hide Next, Inv, Enabled, Reserving;
    if es == [] {
      InitialReserving(c);
    } else {
      var before := es[..|es| - 1];
      RunsReserve(c, before);
      StepReserving(c, Run(c, before), es[|es| - 1]);
    }
  }

  lemma KeptInBase(p: Policy, st: State)
    requires Shape(p, st) && BaseCovers(p)
    ensures |Kept(st.results)| == |KeptIn(p, st, BASE_NAME)|
  {
    KeptInKept(p, st, BASE_NAME);
    var kept := Kept(st.results);
    assert kept.Keys <= AllLogs(p) <= p[BASE_NAME].logs;
    assert kept.Keys * p[BASE_NAME].logs == kept.Keys;
    assert |kept| == |kept.Keys|;
  }

  lemma ReserveBounds(p: Policy, st: State, answered: set<string>)
    requires BaseCovers(p) && Shape(p, st) && Books(p, st, answered) && Reserve(p, st)
    ensures |Kept(st.results)| <= p[BASE_NAME].min
    ensures Complete(st, BASE_NAME) ==> forall g :: g in p ==> Complete(st, g)
  {
    hide Kept, GroupByLogs, AllLogs, KeptIn, AnsweredIn, PositiveSum;
    KeptInBase(p, st);
    PositiveSumZero(st.needs, Others(p));
    if Complete(st, BASE_NAME) {
      forall g | g in p ensures Complete(st, g) {
        assert g != BASE_NAME ==> g in Others(p) && Need(st.needs, g) <= 0;
      }
    }
  }

  /** In every reachable state the base group keeps a slot for each need of the other groups; so no
      more SCTs are kept than the base group asks for, and when it is complete so is every group. */
  lemma NeverOvercollects(c: Config, es: seq<Event>)
    requires ValidConfig(c) && Possible(c, es) && BaseCovers(c.policy) && Reserved(c.policy)
    ensures var s := Run(c, es);
            && s.st.needs.Keys == c.policy.Keys
            && s.st.needs[BASE_NAME] >= PositiveSum(s.st.needs, Others(c.policy))
            && |Kept(s.st.results)| <= c.policy[BASE_NAME].min
            && (Complete(s.st, BASE_NAME) ==> forall g :: g in c.policy ==> Complete(s.st, g))
  {
    hide Books, Cancels, ThreadsInv, History, Reports, Shape, Next, Possible, Enabled, Kept;
    RunsReserve(c, es);
    var s := Run(c, es);
    ReserveBounds(c.policy, s.st, s.answered.Keys);
  }
}
