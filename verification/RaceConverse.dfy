/**
 When a reported failure means that the policy is not met. GetSCTs can blame a group whose last log is
 still being asked by another race; the answer then arrives in time for the result, but not for the
 report. Groups that share no log rule this out in runs without a deadline; `RaceBlame` shows that
 nothing less does.
 */
module RaceConverse {
  import opened Races
  import opened RaceRuns
  import opened RaceSchedules
  import opened RaceTheorems
  import opened RaceStarvation

  /** No log belongs to two groups that ask for something. */
  ghost predicate Separate(p: Policy) {
    forall g, h :: g in p && h in p && g != h && p[g].min > 0 && p[h].min > 0 ==> p[g].logs !! p[h].logs
  }

  /** Every group has as many logs as it asks for. */
  ghost predicate Feasible(p: Policy) {
    forall g :: g in p ==> |p[g].logs| >= p[g].min
  }

  /** The outcome names no failed group exactly when its SCTs satisfy the policy. */
  ghost predicate Truthful(p: Policy, s: System) {
    s.outcome.Some? ==> (s.outcome.value.failed == {} <==> Satisfies(p, s.outcome.value.scts))
  }

  /** In every run without a deadline. */
  ghost predicate AlwaysTruthful(p: Policy) {
    forall c: Config, es: seq<Event> ::
      c.policy == p && ValidConfig(c) && Possible(c, es) && !Run(c, es).expired ==> Truthful(p, Run(c, es))
  }

  // ---------------------------------------------------------------- separate groups

  /** The race of `g` has reported failure. */
  ghost predicate Blamed(s: System, g: string) {
    (g in s.inbox && !s.inbox[g]) || (g in s.received && g in s.complete && !s.complete[g])
  }

  /** Only races of groups that ask for something send requests. */
  ghost predicate Active(c: Config, s: System) {
    forall t :: t in s.pcs && (s.pcs[t] == Checked || s.pcs[t] == InFlight) ==> t.0 in c.policy && c.policy[t.0].min > 0
  }

  /** A blamed group is done and still short. */
  ghost predicate Justified(c: Config, s: System) {
    forall g :: Blamed(s, g) ==> g in c.policy && AllFinished(s, g) && Need(s.st.needs, g) > 0
  }

  lemma NeedsBounded(p: Policy, st: State, answered: set<string>, g: string)
    requires st.needs.Keys == p.Keys && Books(p, st, answered) && g in p
    ensures st.needs[g] <= p[g].min
    ensures st.needs[g] > 0 ==> |Kept(st.results).Keys * p[g].logs| < p[g].min || !(Kept(st.results).Keys <= answered)
  {
    KeptInKept(p, st, g);
    if Kept(st.results).Keys <= answered {
      SubsetCount(Kept(st.results).Keys * p[g].logs, AnsweredIn(p, answered, g));
    }
  }

  lemma StepActive(c: Config, s: System, e: Event)
    requires ValidConfig(c) && Inv(c, s) && Enabled(c, s, e) && Active(c, s)
    ensures Active(c, Next(c, s, e))
  {
    hide Books, Cancels, Cancellable, History, Reports, Answer, Request, GroupByLogs, AllLogs, AllFinished, Threads,
      Shape, ThreadsInv, ValidConfig, Complete;
    if e.Check? && !Complete(s.st, e.g) {
      CheckedAsks(c, s, e.g, e.i);
    }
  }

  lemma CheckedAsks(c: Config, s: System, g: string, i: nat)
    requires ValidConfig(c) && Inv(c, s) && (g, i) in s.pcs && !Complete(s.st, g)
    ensures g in c.policy && c.policy[g].min > 0
  {
    hide Books, Cancels, Cancellable, History, Reports, GroupByLogs, AllLogs;
    assert (g, i) in Threads(c);
    NeedsBounded(c.policy, s.st, s.answered.Keys, g);
  }

  /** An answer to another race leaves the need of a separate group alone. */
  lemma AnswerElsewhere(c: Config, s: System, g: string, h: string, i: nat, r: SubmissionResult)
    requires ValidConfig(c) && Inv(c, s) && Separate(c.policy) && Active(c, s)
    requires (h, i) in s.pcs && s.pcs[(h, i)] == InFlight && g != h && g in c.policy && Need(s.st.needs, g) > 0
    ensures (h, i) in Threads(c)
    ensures LogOf(c, h, i) in s.st.results && Need(Answer(s.st, LogOf(c, h, i), r).needs, g) == Need(s.st.needs, g)
  {
    hide Books, Cancels, Cancellable, History, Reports, Answer, GroupByLogs, AllLogs;
    InFlightFacts(c, s, h, i);
    var log := LogOf(c, h, i);
    NeedsBounded(c.policy, s.st, s.answered.Keys, g);
    assert log in c.policy[h].logs && log !in c.policy[g].logs;
    if r.sct.Some? {
      AnswerSettles(c.policy, s.st, log, r);
    } else {
      FailState(c.policy, s.st, log, r, s.answered.Keys);
    }
  }

  lemma ReplyJustified(c: Config, s: System, e: Event)
    requires ValidConfig(c) && Inv(c, s) && Enabled(c, s, e) && Separate(c.policy) && e.Reply?
    requires Active(c, s) && Justified(c, s)
    ensures Justified(c, Next(c, s, e))
  {
    hide Books, Cancels, Cancellable, History, Reports, Answer, GroupByLogs, AllLogs, Separate, ValidConfig, Active,
      Shape;
    var s' := Next(c, s, e);
    forall g | Blamed(s', g) ensures g in c.policy && AllFinished(s', g) && Need(s'.st.needs, g) > 0 {
      assert Blamed(s, g);
      assert g != e.g;
      AnswerElsewhere(c, s, g, e.g, e.i, e.r);
    }
  }

  /** Finished goroutines stay finished, and nothing that is blamed changes. */
  lemma QuietJustified(c: Config, s: System, s': System)
    requires Justified(c, s) && s'.pcs.Keys == s.pcs.Keys && s'.st.needs == s.st.needs
    requires forall t :: t in s.pcs && s.pcs[t] == Finished ==> s'.pcs[t] == Finished
    requires forall g :: Blamed(s', g) ==> Blamed(s, g)
    ensures Justified(c, s')
  {
  }

  lemma ReportJustified(c: Config, s: System, e: Event)
    requires ValidConfig(c) && Inv(c, s) && Enabled(c, s, e) && !s.expired && Justified(c, s) && e.Report?
    ensures Justified(c, Next(c, s, e))
  {
    hide Books, Cancels, Cancellable, History, GroupByLogs, AllLogs, Shape, ThreadsInv, ValidConfig;
  }

  lemma StepJustified(c: Config, s: System, e: Event)
    requires ValidConfig(c) && Inv(c, s) && Enabled(c, s, e) && Separate(c.policy) && !s.expired
    requires Active(c, s) && Justified(c, s)
    ensures Justified(c, Next(c, s, e))
  {
    hide Books, Cancels, Cancellable, History, Answer, Request, GroupByLogs, AllLogs, Separate, Shape, Justified,
      Active, ValidConfig, AllFinished, Complete;
    if e.Reply? {
      ReplyJustified(c, s, e);
    } else if e.Report? {
      ReportJustified(c, s, e);
    } else {
      OtherEventsAreNeutral(c, s, e);
      QuietJustified(c, s, Next(c, s, e));
    }
  }

  lemma StepTruthful(c: Config, s: System, e: Event)
    requires ValidConfig(c) && Inv(c, s) && Enabled(c, s, e) && !s.expired
    requires Justified(c, s) && Truthful(c.policy, s)
    ensures Truthful(c.policy, Next(c, s, e))
  {
    hide Books, Cancels, Cancellable, ThreadsInv, Answer, Request, GroupByLogs, AllLogs, Kept, AllFinished, Shape,
      History, Satisfies;
    if e.Return? {
      var failed := Next(c, s, e).outcome.value.failed;
      ReturnOutcome(c, s, failed);
      if g :| g in failed {
        assert Blamed(s, g);
        BlamedShort(c, s, g);
      }
    } else {
      AnswersStay(c, s, e);
    }
  }

  lemma BlamedShort(c: Config, s: System, g: string)
    requires Inv(c, s) && g in c.policy && Need(s.st.needs, g) > 0
    ensures !Satisfies(c.policy, Kept(s.st.results))
  {
    hide Books, Cancels, Cancellable, ThreadsInv, Reports, GroupByLogs, AllLogs;
    AnsweredKnown(c.policy, s);
    NeedsBounded(c.policy, s.st, s.answered.Keys, g);
  }

  ghost predicate Sound(c: Config, s: System) {
    s.expired || (Active(c, s) && Justified(c, s) && Truthful(c.policy, s))
  }

  lemma InitialSound(c: Config)
    ensures Sound(c, Initial(c))
  {
  }

  lemma StepSound(c: Config, s: System, e: Event)
    requires ValidConfig(c) && Inv(c, s) && Enabled(c, s, e) && Separate(c.policy) && Sound(c, s)
    ensures Sound(c, Next(c, s, e))
  {
    hide Inv, Separate, Active, Justified, Truthful, Answer, Request;
    if !s.expired {
      StepActive(c, s, e);
      StepJustified(c, s, e);
      StepTruthful(c, s, e);
    }
  }

  lemma {:induction false} SeparateSound(c: Config, es: seq<Event>)
    requires ValidConfig(c) && Possible(c, es) && Separate(c.policy)
    ensures Sound(c, Run(c, es))
  {
    hide Next, Inv, Enabled, Sound, Separate;
    if es == [] {
      InitialSound(c);
    } else {
      var before := es[..|es| - 1];
      SeparateSound(c, before);
      StepSound(c, Run(c, before), es[|es| - 1]);
    }
  }
}
