/**
 Runs that blame a group wrongly. A group that shares a log with another is blamed while the other race is
 still asking that log, and every group is complete in the end; with a deadline every group can be blamed
 although all are complete. Such runs exist over all drawn sessions. Together with `RaceConverse` this
 decides exactly when a reported failure can be trusted.
 */
module RaceBlame {
  import opened Races
  import opened RaceRuns
  import opened RaceSchedules
  import opened RaceTheorems
  import opened RaceStarvation
  import opened RaceConverse

  // ---------------------------------------------------------------- logs that can still answer

  /** No race has asked the log and none of its goroutines has run. */
  ghost predicate Unasked(c: Config, s: System, log: string) {
    && log !in s.st.results
    && forall t :: t in s.pcs && t in Threads(c) && LogOf(c, t.0, t.1) == log ==> s.pcs[t] == Waiting
  }

  /** Some race is waiting for the log. */
  ghost predicate Asked(c: Config, s: System, log: string) {
    exists t :: t in s.pcs && t in Threads(c) && LogOf(c, t.0, t.1) == log && s.pcs[t] == InFlight
  }

  /** Every answer so far was kept, and every log can still answer that has not and is not `lost`. */
  ghost predicate Fresh(c: Config, s: System, lost: set<string>) {
    && !s.expired && s.outcome.None? && !Behind(s)
    && forall log :: log in AllLogs(c.policy) && log !in s.answered && log !in lost ==>
         Unasked(c, s, log) || Asked(c, s, log)
  }

  /** Nothing but needs and answers has changed, and needs have only fallen. */
  ghost predicate Onward(s: System, s': System) {
    && s'.received == s.received && s'.complete == s.complete && s'.reported == s.reported
    && (forall g :: Complete(s.st, g) ==> Complete(s'.st, g))
    && s.answered.Keys <= s'.answered.Keys
  }

  lemma OnwardOn(s: System, s1: System, s2: System)
    requires Onward(s, s1) && Onward(s1, s2)
    ensures Onward(s, s2)
  {
  }

  /** Goroutines of other logs have not moved. */
  ghost predicate MovedOnly(c: Config, s: System, s': System, log: string) {
    && s'.pcs.Keys == s.pcs.Keys
    && forall t :: t in s.pcs && t in Threads(c) && LogOf(c, t.0, t.1) != log ==> s'.pcs[t] == s.pcs[t]
  }

  /** The answer of one more log has been kept. */
  ghost predicate OneMore(c: Config, s: System, s': System, log: string) {
    && Onward(s, s') && MovedOnly(c, s, s', log) && s'.outcome == s.outcome && s'.expired == s.expired
    && s'.st.results.Keys == s.st.results.Keys + {log} && s'.answered.Keys == s.answered.Keys + {log}
    && Kept(s'.st.results).Keys == Kept(s.st.results).Keys + {log}
  }

  lemma StillReady(c: Config, s: System, s': System, moved: string, log: string)
    requires MovedOnly(c, s, s', moved) && s'.st.results.Keys == s.st.results.Keys + {moved} && log != moved
    ensures Unasked(c, s, log) ==> Unasked(c, s', log)
    ensures Asked(c, s, log) ==> Asked(c, s', log)
  {
    if Asked(c, s, log) {
      var t :| t in s.pcs && t in Threads(c) && LogOf(c, t.0, t.1) == log && s.pcs[t] == InFlight;
      assert s'.pcs[t] == InFlight;
    }
  }

  lemma FreshOn(c: Config, s: System, s': System, lost: set<string>, log: string)
    requires Fresh(c, s, lost) && OneMore(c, s, s', log)
    ensures Fresh(c, s', lost)
  {
    hide Unasked, Asked, MovedOnly, Onward, AllLogs, Kept;
    forall l | l in AllLogs(c.policy) && l !in s'.answered && l !in lost ensures Unasked(c, s', l) || Asked(c, s', l) {
      StillReady(c, s, s', log, l);
    }
  }

  // ---------------------------------------------------------------- wanted answers

  /** An answer that another group wants, or that comes when only the base group is incomplete. */
  ghost predicate Welcome(p: Policy, st: State, g: string) {
    g in p && !Complete(st, g) && (g == BASE_NAME ==> forall h :: h in Others(p) ==> Complete(st, h))
  }

  lemma WelcomeKept(p: Policy, st: State, g: string, log: string)
    requires Shape(p, st) && log in st.results && st.results[log] == PENDING && Welcome(p, st, g) && log in p[g].logs
    ensures Answer(st, log, OK).results == st.results[log := OK]
    ensures forall h :: Complete(st, h) ==> Complete(Answer(st, log, OK), h)
  {
    hide Answer, GroupByLogs, AllLogs, PositiveSum;
    AnswerSettles(p, st, log, OK);
    SettledFalls(p, st, log, OK, Answer(st, log, OK));
    if g == BASE_NAME {
      AnswerStored(p, st, log, OK);
      var needs := Answer(st, log, OK).needs;
      PositiveSumZero(needs, Others(p));
      forall h | h in Others(p) ensures Need(needs, h) <= 0 {
        assert Complete(st, h);
      }
    }
  }

  lemma KeptWith(results: map<string, SubmissionResult>, log: string)
    ensures Kept(results[log := PENDING][log := OK]).Keys == Kept(results).Keys + {log}
    ensures log in results && results[log] == PENDING ==> Kept(results[log := OK]).Keys == Kept(results).Keys + {log}
  {
  }

  lemma AfterWelcome(c: Config, s: System, g: string, i: nat, log: string)
    requires Shape(c.policy, s.st) && Welcome(c.policy, s.st, g) && log in c.policy[g].logs && log !in s.st.results
    requires (g, i) in s.pcs && (g, i) in Threads(c) && LogOf(c, g, i) == log
    ensures OneMore(c, s, AfterServing(s, g, i, log, OK), log)
  {
    hide Answer, GroupByLogs, Kept, Threads, LogOf;
    var mid := RequestOf(s.st, log);
    assert Shape(c.policy, mid);
    WelcomeKept(c.policy, mid, g, log);
    KeptWith(s.st.results, log);
  }

  lemma AfterReply(c: Config, s: System, g: string, t: (string, nat), log: string)
    requires Shape(c.policy, s.st) && Welcome(c.policy, s.st, g) && log in c.policy[g].logs
    requires log in s.st.results && s.st.results[log] == PENDING
    requires t in s.pcs && t in Threads(c) && LogOf(c, t.0, t.1) == log
    ensures var answered := s.answered[log := OK.sct.value];
            OneMore(c, s, s.(st := Answer(s.st, log, OK), pcs := s.pcs[t := Finished], answered := answered), log)
  {
    hide Answer, GroupByLogs, AllLogs, Kept, Threads, LogOf;
    WelcomeKept(c.policy, s.st, g, log);
    KeptWith(s.st.results, log);
  }

  lemma ReplyWelcome(c: Config, es: seq<Event>, g: string, t: (string, nat), log: string) returns (es': seq<Event>)
    requires ValidConfig(c) && Possible(c, es) && Welcome(c.policy, Run(c, es).st, g) && log in c.policy[g].logs
    requires t in Run(c, es).pcs && t in Threads(c) && Run(c, es).pcs[t] == InFlight && LogOf(c, t.0, t.1) == log
    ensures Possible(c, es') && OneMore(c, Run(c, es), Run(c, es'), log)
  {
    hide Books, Cancels, Cancellable, History, Reports, Answer, Shape, Run, Possible, OneMore, Threads, Welcome;
    var s := Run(c, es);
    InFlightFacts(c, s, t.0, t.1);
    Extend(c, es, Reply(t.0, t.1, OK));
    es' := es + [Reply(t.0, t.1, OK)];
    AfterReply(c, s, g, t, log);
  }

  /** One more wanted log answers. */
  lemma AnswerLog(c: Config, es: seq<Event>, lost: set<string>, g: string, log: string) returns (es': seq<Event>)
    requires Drawn(c) && ValidConfig(c) && Possible(c, es) && Fresh(c, Run(c, es), lost)
    requires Welcome(c.policy, Run(c, es).st, g) && log in c.policy[g].logs - Run(c, es).answered.Keys - lost
    ensures Possible(c, es') && Fresh(c, Run(c, es'), lost) && OneMore(c, Run(c, es), Run(c, es'), log)
  {
    hide Books, Cancels, Cancellable, History, Reports, Run, Possible, Next, Enabled, GroupByLogs, Answer, Shape,
      Complete, Fresh, AfterServing, OneMore, Distinct, Members;
    var s := Run(c, es);
    FreshReady(c, s, lost, g, log);
    if Asked(c, s, log) {
      var t :| t in s.pcs && t in Threads(c) && LogOf(c, t.0, t.1) == log && s.pcs[t] == InFlight;
      es' := ReplyWelcome(c, es, g, t, log);
    } else {
      var i := IndexIn(c.sessions[g], log);
      assert (g, i) in Threads(c) && LogOf(c, g, i) == log;
      es' := ServeOne(c, es, g, i, OK);
      AfterWelcome(c, s, g, i, log);
    }
    FreshOn(c, s, Run(c, es'), lost, log);
  }

  lemma FreshReady(c: Config, s: System, lost: set<string>, g: string, log: string)
    requires Fresh(c, s, lost) && g in c.policy && log in c.policy[g].logs - s.answered.Keys - lost
    ensures Unasked(c, s, log) || Asked(c, s, log)
  {
  }

  // ---------------------------------------------------------------- completing groups

  /** Without the lost logs there are still as many as the group asks for. */
  ghost predicate Enough(c: Config, g: string, lost: set<string>) {
    g in c.policy && |c.policy[g].logs - lost| >= c.policy[g].min
  }

  lemma Missing(c: Config, s: System, lost: set<string>, g: string) returns (log: string)
    requires Inv(c, s) && Fresh(c, s, lost) && Enough(c, g, lost) && !Complete(s.st, g)
    ensures log in c.policy[g].logs - s.answered.Keys - lost
  {
    hide Cancels, Cancellable, ThreadsInv, Reports, GroupByLogs, AllLogs, Kept, History, Unasked, Asked;
    var answered, logs := s.answered.Keys, c.policy[g].logs;
    KeptInKept(c.policy, s.st, g);
    assert |answered * logs| < c.policy[g].min;
    if logs - answered - lost == {} {
      forall l | l in logs - lost ensures l in answered * logs {
        assert l !in logs - answered - lost;
      }
      SubsetCount(logs - lost, answered * logs);
    }
    log :| log in logs - answered - lost;
  }

  /** The logs of a group answer until it is complete. */
  lemma {:induction false} FinishGroup(c: Config, es: seq<Event>, lost: set<string>, g: string)
    returns (es': seq<Event>)
    requires Drawn(c) && ValidConfig(c) && Possible(c, es) && Fresh(c, Run(c, es), lost) && Enough(c, g, lost)
    requires g == BASE_NAME ==> forall h :: h in Others(c.policy) ==> Complete(Run(c, es).st, h)
    ensures Possible(c, es') && Fresh(c, Run(c, es'), lost) && Onward(Run(c, es), Run(c, es'))
    ensures Complete(Run(c, es').st, g)
    decreases |c.policy[g].logs - Run(c, es).answered.Keys|
  {
    hide Inv, Next, Enabled, Run, Possible, Fresh, Complete, Threads, LogOf, Drawn, MovedOnly, Kept;
    var s := Run(c, es);
    if Complete(s.st, g) {
      es' := es;
    } else {
      var log := Missing(c, s, lost, g);
      var es1 := AnswerLog(c, es, lost, g, log);
      FewerLeft(c.policy[g].logs, s.answered.Keys, log);
      es' := FinishGroup(c, es1, lost, g);
      OnwardOn(s, Run(c, es1), Run(c, es'));
    }
  }

  lemma FewerLeft(logs: set<string>, answered: set<string>, l: string)
    requires l in logs && l !in answered
    ensures |logs - (answered + {l})| < |logs - answered|
  {
    assert logs - answered == (logs - (answered + {l})) + {l};
  }

  lemma {:induction false} FinishGroups(c: Config, es: seq<Event>, lost: set<string>, gs: set<string>)
    returns (es': seq<Event>)
    requires Drawn(c) && ValidConfig(c) && Possible(c, es) && Fresh(c, Run(c, es), lost)
    requires forall g :: g in gs ==> Enough(c, g, lost) && g != BASE_NAME
    ensures Possible(c, es') && Fresh(c, Run(c, es'), lost) && Onward(Run(c, es), Run(c, es'))
    ensures forall g :: g in gs ==> Complete(Run(c, es').st, g)
    decreases gs
  {
    hide Inv, Next, Enabled, Run, Possible, Fresh, Enough, Complete, Drawn;
    if gs == {} {
      es' := es;
    } else {
      var g :| g in gs;
      var es1 := FinishGroup(c, es, lost, g);
      es' := FinishGroups(c, es1, lost, gs - {g});
      OnwardOn(Run(c, es), Run(c, es1), Run(c, es'));
    }
  }

  /** Every group is completed. */
  lemma FinishAll(c: Config, es: seq<Event>, lost: set<string>) returns (es': seq<Event>)
    requires Drawn(c) && ValidConfig(c) && Possible(c, es) && Fresh(c, Run(c, es), lost)
    requires forall g :: g in c.policy ==> Enough(c, g, lost)
    ensures Possible(c, es') && Fresh(c, Run(c, es'), lost) && Onward(Run(c, es), Run(c, es'))
    ensures AllComplete(c.policy, Run(c, es').st)
  {
    hide Inv, Next, Enabled, Run, Possible, Fresh, Enough, Complete, Drawn;
    var es1 := FinishGroups(c, es, lost, Others(c.policy));
    if BASE_NAME in c.policy {
      es' := FinishGroup(c, es1, lost, BASE_NAME);
      OnwardOn(Run(c, es), Run(c, es1), Run(c, es'));
    } else {
      es' := es1;
    }
    forall g | g in c.policy ensures Complete(Run(c, es').st, g) {
      assert g == BASE_NAME || g in Others(c.policy);
    }
  }

  lemma InitialFresh(c: Config)
    ensures Fresh(c, Initial(c), {})
  {
    assert Initial(c).st.results == map[];
    forall log | log in AllLogs(c.policy) ensures Unasked(c, Initial(c), log) {
    }
  }

  lemma AllEnough(c: Config)
    requires Feasible(c.policy)
    ensures forall g :: g in c.policy ==> Enough(c, g, {})
  {
    forall g | g in c.policy ensures Enough(c, g, {}) {
      assert c.policy[g].logs - {} == c.policy[g].logs;
    }
  }

  // ---------------------------------------------------------------- other races ask the shared logs

  /** The logs of `g` that another group asking for something has too. */
  ghost function Shared(p: Policy, g: string): set<string>
    requires g in p
  {
    set l | l in p[g].logs && Elsewhere(p, g, l)
  }

  ghost predicate Elsewhere(p: Policy, g: string, l: string) {
    exists h :: h in p && h != g && p[h].min > 0 && l in p[h].logs
  }

  /** The logs of `asked` are in flight for other races; no goroutine of `g` has run. */
  ghost predicate Opening(c: Config, s: System, g: string, asked: set<string>) {
    && Fresh(c, s, {}) && s.answered == map[] && s.st.results.Keys == asked && Untold(c, s)
    && forall i: nat :: (g, i) in Threads(c) ==> (g, i) in s.pcs && s.pcs[(g, i)] == Waiting
  }

  ghost predicate Untold(c: Config, s: System) {
    s.reported == {} && s.received == {} && s.complete.Keys == c.policy.Keys
  }

  lemma NothingAnswered(c: Config, s: System, g: string)
    requires Inv(c, s) && s.answered == map[] && g in c.policy && c.policy[g].min > 0
    ensures !Complete(s.st, g)
  {
    hide Cancels, Cancellable, ThreadsInv, Reports, GroupByLogs, AllLogs;
    assert AnsweredIn(c.policy, {}, g) == {};
    AnsweredKnown(c.policy, s);
    KeptInKept(c.policy, s.st, g);
    assert Kept(s.st.results).Keys * c.policy[g].logs == {};
  }

  lemma AfterOpening(c: Config, s: System, g: string, h: string, i: nat, asked: set<string>)
    requires ValidConfig(c) && Inv(c, s) && Opening(c, s, g, asked) && h != g && (h, i) in Threads(c)
    requires LogOf(c, h, i) !in asked
    ensures Opening(c, AfterAsking(s, h, i, LogOf(c, h, i)), g, asked + {LogOf(c, h, i)})
  {
    hide Books, Cancels, Cancellable, History, Reports, Shape, AllLogs, Unasked;
    var log := LogOf(c, h, i);
    var s' := AfterAsking(s, h, i, log);
    assert s'.pcs[(h, i)] == InFlight;
    assert Asked(c, s', log);
    assert Kept(s'.st.results) == Kept(s.st.results);
    forall l | l in AllLogs(c.policy) ensures Unasked(c, s', l) || Asked(c, s', l) {
      if l != log {
        StillReady(c, s, s', log, l);
      }
    }
  }

  /** A race of another group asks one more shared log. */
  lemma AskShared(c: Config, es: seq<Event>, g: string, log: string) returns (es': seq<Event>)
    requires Drawn(c) && ValidConfig(c) && Possible(c, es) && g in c.policy && Elsewhere(c.policy, g, log)
    requires Opening(c, Run(c, es), g, Run(c, es).st.results.Keys) && log !in Run(c, es).st.results
    ensures Possible(c, es') && Opening(c, Run(c, es'), g, Run(c, es).st.results.Keys + {log})
  {
    hide Books, Cancels, Cancellable, History, Reports, Run, Possible, Next, Enabled, GroupByLogs, Shape, Complete,
      AfterAsking, Distinct, Members;
    var s := Run(c, es);
    var h :| h in c.policy && h != g && c.policy[h].min > 0 && log in c.policy[h].logs;
    var i := IndexIn(c.sessions[h], log);
    assert (h, i) in Threads(c) && LogOf(c, h, i) == log;
    NothingAnswered(c, s, h);
    FreshReady(c, s, {}, h, log);
    NotInFlight(c, s, log);
    es' := AskOne(c, es, h, i);
    AfterOpening(c, s, g, h, i, s.st.results.Keys);
  }

  lemma NotInFlight(c: Config, s: System, log: string)
    requires ThreadsInv(c, s) && log !in s.st.results
    ensures !Asked(c, s, log)
  {
  }

  lemma {:induction false} AskAll(c: Config, g: string, asked: set<string>) returns (es: seq<Event>)
    requires Drawn(c) && ValidConfig(c) && g in c.policy && asked <= Shared(c.policy, g)
    ensures Possible(c, es) && Opening(c, Run(c, es), g, asked)
    decreases asked
  {
    hide Inv, Next, Enabled, Run, Possible, Drawn, Opening, Elsewhere;
    if asked == {} {
      StartRun(c);
      es := [];
      InitialOpening(c, g);
    } else {
      var log :| log in asked;
      var before := AskAll(c, g, asked - {log});
      OpeningAsked(c, Run(c, before), g, asked - {log});
      es := AskShared(c, before, g, log);
      assert asked - {log} + {log} == asked;
    }
  }

  lemma OpeningAsked(c: Config, s: System, g: string, asked: set<string>)
    requires Opening(c, s, g, asked)
    ensures s.st.results.Keys == asked
  {
  }

  lemma InitialOpening(c: Config, g: string)
    ensures Opening(c, Initial(c), g, {})
  {
    InitialFresh(c);
    assert Initial(c).st.results == map[];
  }

  // ---------------------------------------------------------------- the race of `g` runs

  /** The first `j` goroutines of `g` are done. Shared logs are in flight elsewhere. Of its own logs so far
      those of `own` have answered, one fewer than `g` asks for at most, and only then the rest has failed. */
  ghost predicate Running(c: Config, s: System, g: string, j: nat, own: set<string>, lost: set<string>)
    requires g in c.policy && g in c.sessions && j <= |c.sessions[g]|
  {
    && Fresh(c, s, lost) && Untold(c, s) && s.answered.Keys == own
    && s.st.results.Keys == Shared(c.policy, g) + own + lost
    && Outcomes(c, g, j, own, lost) && WaitingFrom(c, s, g, j)
  }

  ghost predicate Outcomes(c: Config, g: string, j: nat, own: set<string>, lost: set<string>)
    requires g in c.policy && g in c.sessions && j <= |c.sessions[g]|
  {
    && own !! lost && own + lost == Members(c.sessions[g][..j]) - Shared(c.policy, g)
    && |own| < c.policy[g].min && (lost != {} ==> |own| == c.policy[g].min - 1)
  }

  ghost predicate WaitingFrom(c: Config, s: System, g: string, j: nat) {
    forall i: nat :: (g, i) in Threads(c) ==>
      (g, i) in s.pcs && s.pcs[(g, i)] == if i < j then Finished else Waiting
  }

  lemma RunningShort(c: Config, s: System, g: string, j: nat, own: set<string>, lost: set<string>)
    requires Drawn(c) && g in Others(c.policy) && j <= |c.sessions[g]| && Inv(c, s) && Running(c, s, g, j, own, lost)
    ensures Welcome(c.policy, s.st, g)
  {
    hide Cancels, Cancellable, ThreadsInv, Reports, GroupByLogs, AllLogs, Kept, History, Unasked, Asked, Shared,
      Members, Fresh;
    SubsetCount(AnsweredIn(c.policy, own, g), own);
  }

  /** A goroutine finds its log taken. */
  lemma TakenFresh(c: Config, s: System, s': System, t: (string, nat), lost: set<string>)
    requires Fresh(c, s, lost) && t in s.pcs && t in Threads(c) && s.pcs[t] == Waiting
    requires LogOf(c, t.0, t.1) in s.st.results
    requires s' == s.(pcs := s.pcs[t := Finished])
    ensures Fresh(c, s', lost)
  {
    hide AllLogs, Kept, Threads, LogOf;
    var x := LogOf(c, t.0, t.1);
    forall l | l in AllLogs(c.policy) && l !in s'.answered && l !in lost ensures Unasked(c, s', l) || Asked(c, s', l) {
      if Asked(c, s, l) {
        StillAsked(c, s, s', t, l);
      } else {
        assert Unasked(c, s, l);
      }
    }
  }

  lemma TakenStep(c: Config, s: System, g: string, j: nat, own: set<string>, lost: set<string>)
    requires Drawn(c) && g in c.policy && j < |c.sessions[g]| && Running(c, s, g, j, own, lost)
    requires c.sessions[g][j] in Shared(c.policy, g)
    ensures Running(c, s.(pcs := s.pcs[(g, j) := Finished]), g, j + 1, own, lost)
  {
    hide Shared, Fresh, Members, Distinct, Outcomes, WaitingFrom;
    var s' := s.(pcs := s.pcs[(g, j) := Finished]);
    assert (g, j) in Threads(c) && LogOf(c, g, j) == c.sessions[g][j];
    NextWaits(c, s, g, j);
    TakenFresh(c, s, s', (g, j), lost);
    OutcomesStay(c, g, j, own, lost);
    WaitingOn(c, s, s', g, j);
  }

  lemma NextWaits(c: Config, s: System, g: string, j: nat)
    requires WaitingFrom(c, s, g, j) && (g, j) in Threads(c)
    ensures (g, j) in s.pcs && s.pcs[(g, j)] == Waiting
  {
  }

  lemma OutcomesStay(c: Config, g: string, j: nat, own: set<string>, lost: set<string>)
    requires Drawn(c) && g in c.policy && j < |c.sessions[g]| && Outcomes(c, g, j, own, lost)
    requires c.sessions[g][j] in Shared(c.policy, g)
    ensures Outcomes(c, g, j + 1, own, lost)
  {
    hide Shared, Members, Distinct;
    MembersGrow(c.sessions[g], j);
  }

  lemma StillAsked(c: Config, s: System, s': System, t: (string, nat), log: string)
    requires Asked(c, s, log) && t in s.pcs && s.pcs[t] == Waiting && s'.pcs == s.pcs[t := Finished]
    ensures Asked(c, s', log)
  {
    var u :| u in s.pcs && u in Threads(c) && LogOf(c, u.0, u.1) == log && s.pcs[u] == InFlight;
    assert u != t && s'.pcs[u] == InFlight;
  }

  /** An own log that is next has not been asked. */
  lemma NextOwn(c: Config, s: System, g: string, j: nat, own: set<string>, lost: set<string>)
    requires Drawn(c) && g in c.policy && j < |c.sessions[g]| && Running(c, s, g, j, own, lost)
    requires c.sessions[g][j] !in Shared(c.policy, g)
    ensures c.sessions[g][j] !in s.st.results && c.sessions[g][j] !in own + lost && c.sessions[g][j] in c.policy[g].logs
    ensures (g, j) in Threads(c) && LogOf(c, g, j) == c.sessions[g][j]
    ensures (g, j) in s.pcs && s.pcs[(g, j)] == Waiting
  {
    hide Shared, AllLogs, Members, Kept, Fresh;
    MembersGrow(c.sessions[g], j);
    assert c.sessions[g][j] in c.policy[g].logs by { InMembers(c.sessions[g], j); }
    assert (g, j) in Threads(c);
  }

  lemma InMembers(order: seq<string>, j: nat)
    requires j < |order|
    ensures order[j] in Members(order)
  {
  }

  lemma OutcomesGrow(c: Config, g: string, j: nat, own: set<string>, lost: set<string>)
    requires Drawn(c) && g in c.policy && j < |c.sessions[g]| && Outcomes(c, g, j, own, lost)
    requires c.sessions[g][j] !in Shared(c.policy, g)
    ensures var x := c.sessions[g][j];
            if |own| < c.policy[g].min - 1 then Outcomes(c, g, j + 1, own + {x}, lost)
            else Outcomes(c, g, j + 1, own, lost + {x})
  {
    hide Shared, Members, Distinct;
    var x := c.sessions[g][j];
    MembersGrow(c.sessions[g], j);
    assert x !in own + lost;
    assert |own + {x}| == |own| + 1;
  }

  lemma WaitingOn(c: Config, s: System, s': System, g: string, j: nat)
    requires WaitingFrom(c, s, g, j) && s'.pcs == s.pcs[(g, j) := Finished]
    ensures WaitingFrom(c, s', g, j + 1)
  {
  }

  /** An own log answers. */
  lemma OwnStep(c: Config, s: System, s': System, g: string, j: nat, own: set<string>, lost: set<string>)
    requires Drawn(c) && g in c.policy && j < |c.sessions[g]| && Running(c, s, g, j, own, lost)
    requires c.sessions[g][j] !in Shared(c.policy, g) && |own| < c.policy[g].min - 1
    requires OneMore(c, s, s', c.sessions[g][j]) && s'.pcs == s.pcs[(g, j) := Finished]
    ensures Running(c, s', g, j + 1, own + {c.sessions[g][j]}, lost)
  {
    hide Kept, Fresh, Shared, Outcomes, WaitingFrom, MovedOnly, Distinct, Members;
    FreshOn(c, s, s', lost, c.sessions[g][j]);
    OutcomesGrow(c, g, j, own, lost);
    WaitingOn(c, s, s', g, j);
  }

  /** The log has been asked and has failed. */
  ghost predicate OneLess(c: Config, s: System, s': System, log: string) {
    && MovedOnly(c, s, s', log) && s'.outcome == s.outcome && s'.expired == s.expired && s'.answered == s.answered
    && s'.st.results.Keys == s.st.results.Keys + {log} && Kept(s'.st.results) == Kept(s.st.results)
    && s'.reported == s.reported && s'.received == s.received && s'.complete == s.complete
  }

  lemma FreshLost(c: Config, s: System, s': System, lost: set<string>, log: string)
    requires Fresh(c, s, lost) && OneLess(c, s, s', log)
    ensures Fresh(c, s', lost + {log})
  {
    hide Unasked, Asked, MovedOnly, AllLogs, Kept;
    forall l | l in AllLogs(c.policy) && l !in s'.answered && l !in lost + {log}
      ensures Unasked(c, s', l) || Asked(c, s', l)
    {
      StillReady(c, s, s', log, l);
    }
  }

  lemma AfterFailing(c: Config, s: System, g: string, i: nat, log: string)
    requires log !in s.st.results && (g, i) in s.pcs && (g, i) in Threads(c) && LogOf(c, g, i) == log
    ensures OneLess(c, s, AfterServing(s, g, i, log, FAILED), log)
  {
    hide Answer, Kept, Threads, LogOf;
    FailedReply(c.policy, s.st, log);
  }

  /** An own log fails. */
  lemma LostStep(c: Config, s: System, s': System, g: string, j: nat, own: set<string>, lost: set<string>)
    requires Drawn(c) && g in c.policy && j < |c.sessions[g]| && Running(c, s, g, j, own, lost)
    requires c.sessions[g][j] !in Shared(c.policy, g) && |own| >= c.policy[g].min - 1
    requires OneLess(c, s, s', c.sessions[g][j]) && s'.pcs == s.pcs[(g, j) := Finished]
    ensures Running(c, s', g, j + 1, own, lost + {c.sessions[g][j]})
  {
    hide Kept, Fresh, Shared, Outcomes, WaitingFrom, MovedOnly, Distinct, Members;
    FreshLost(c, s, s', lost, c.sessions[g][j]);
    OutcomesGrow(c, g, j, own, lost);
    WaitingOn(c, s, s', g, j);
  }

  lemma RunOne(c: Config, es: seq<Event>, g: string, j: nat, own: set<string>, lost: set<string>)
    returns (es': seq<Event>, own': set<string>, lost': set<string>)
    requires Drawn(c) && ValidConfig(c) && Possible(c, es) && g in Others(c.policy) && j < |c.sessions[g]|
    requires Running(c, Run(c, es), g, j, own, lost)
    ensures Possible(c, es') && Running(c, Run(c, es'), g, j + 1, own', lost')
  {
    hide Books, Cancels, Cancellable, History, Reports, Shape, Next, Enabled, Run, Possible, Answer, Shared, Fresh,
      Outcomes, Distinct, Members, OneMore, OneLess;
    var s, x := Run(c, es), c.sessions[g][j];
    if x in Shared(c.policy, g) {
      assert (g, j) in Threads(c) && LogOf(c, g, j) == x;
      es' := SkipOne(c, es, g, j);
      TakenStep(c, s, g, j, own, lost);
      own', lost' := own, lost;
    } else {
      NextOwn(c, s, g, j, own, lost);
      RunningShort(c, s, g, j, own, lost);
      if |own| < c.policy[g].min - 1 {
        es' := ServeOne(c, es, g, j, OK);
        AfterWelcome(c, s, g, j, x);
        OwnStep(c, s, Run(c, es'), g, j, own, lost);
        own', lost' := own + {x}, lost;
      } else {
        es' := ServeOne(c, es, g, j, FAILED);
        AfterFailing(c, s, g, j, x);
        LostStep(c, s, Run(c, es'), g, j, own, lost);
        own', lost' := own, lost + {x};
      }
    }
  }

  lemma {:induction false} RunRace(c: Config, g: string, j: nat)
    returns (es: seq<Event>, own: set<string>, lost: set<string>)
    requires Drawn(c) && ValidConfig(c) && g in Others(c.policy) && c.policy[g].min > 0 && j <= |c.sessions[g]|
    ensures Possible(c, es) && Running(c, Run(c, es), g, j, own, lost)
  {
    hide Inv, Next, Enabled, Run, Possible, Running, Drawn, Opening;
    if j == 0 {
      es := AskAll(c, g, Shared(c.policy, g));
      own, lost := {}, {};
      OpeningRuns(c, Run(c, es), g);
    } else {
      var before, own0, lost0 := RunRace(c, g, j - 1);
      es, own, lost := RunOne(c, before, g, j - 1, own0, lost0);
    }
  }

  lemma OpeningRuns(c: Config, s: System, g: string)
    requires g in c.policy && g in c.sessions && c.policy[g].min > 0 && Opening(c, s, g, Shared(c.policy, g))
    ensures Running(c, s, g, 0, {}, {})
  {
    hide Fresh;
    assert c.sessions[g][..0] == [];
  }

  // ---------------------------------------------------------------- the group is blamed

  lemma RaceFinished(c: Config, s: System, g: string)
    requires Inv(c, s) && g in c.sessions && WaitingFrom(c, s, g, |c.sessions[g]|)
    ensures AllFinished(s, g)
  {
    hide Books, Cancels, Cancellable, History, Reports, Shape;
    forall t | t in s.pcs && t.0 == g ensures s.pcs[t] == Finished {
      assert t in Threads(c);
      assert t == (g, t.1) && t.1 < |c.sessions[g]|;
    }
  }

  lemma FreshTold(c: Config, s: System, s': System, lost: set<string>)
    requires Fresh(c, s, lost) && Told(s, s')
    ensures Fresh(c, s', lost)
  {
    forall l | l in AllLogs(c.policy) && l !in s'.answered && l !in lost ensures Unasked(c, s', l) || Asked(c, s', l) {
      assert Unasked(c, s, l) || Asked(c, s, l);
      assert Asked(c, s, l) ==> Asked(c, s', l);
    }
  }

  /** What is lost no group needs. */
  lemma LostSpared(c: Config, g: string, own: set<string>, lost: set<string>)
    requires Drawn(c) && Feasible(c.policy) && g in c.policy && Shared(c.policy, g) != {}
    requires Outcomes(c, g, |c.sessions[g]|, own, lost)
    ensures forall k :: k in c.policy ==> Enough(c, k, lost)
  {
    hide Distinct, Members, Shared, Enough;
    var shared, logs := Shared(c.policy, g), c.policy[g].logs;
    assert c.sessions[g][..|c.sessions[g]|] == c.sessions[g];
    SharedWithin(c.policy, g);
    forall k | k in c.policy ensures Enough(c, k, lost) {
      if k == g {
        OwnEnough(c, g, own, lost);
      } else {
        LostElsewhere(c, g, k, lost);
      }
    }
  }

  lemma SharedWithin(p: Policy, g: string)
    requires g in p
    ensures Shared(p, g) <= p[g].logs
  {
  }

  lemma OwnEnough(c: Config, g: string, own: set<string>, lost: set<string>)
    requires g in c.policy && |c.policy[g].logs| >= c.policy[g].min
    requires var shared, logs := Shared(c.policy, g), c.policy[g].logs;
             && shared != {} && shared <= logs && own !! lost && own + lost == logs - shared
             && (lost != {} ==> |own| == c.policy[g].min - 1)
    ensures Enough(c, g, lost)
  {
    hide Shared;
    var shared, logs := Shared(c.policy, g), c.policy[g].logs;
    assert logs - lost == own + shared && own !! shared;
    assert lost == {} ==> logs - lost == logs;
  }

  lemma LostElsewhere(c: Config, g: string, k: string, lost: set<string>)
    requires g in c.policy && k in c.policy && k != g && |c.policy[k].logs| >= c.policy[k].min
    requires lost <= c.policy[g].logs - Shared(c.policy, g)
    ensures Enough(c, k, lost)
  {
    if c.policy[k].min > 0 {
      forall l | l in lost ensures l !in c.policy[k].logs {
        assert l in c.policy[g].logs && l !in Shared(c.policy, g);
      }
      assert c.policy[k].logs - lost == c.policy[k].logs;
    }
  }

  /** `g` is blamed, and then every group is completed. */
  lemma BlamedThenComplete(c: Config, g: string) returns (es: seq<Event>)
    requires Drawn(c) && ValidConfig(c) && Feasible(c.policy) && g in Others(c.policy) && c.policy[g].min > 0
    requires Shared(c.policy, g) != {}
    ensures Possible(c, es)
    ensures var s := Run(c, es);
            && !s.expired && s.outcome.None? && AllComplete(c.policy, s.st)
            && s.reported == {g} && s.received == {g} && s.complete.Keys == c.policy.Keys && !s.complete[g]
  {
    hide Inv, Run, Possible, Next, Enabled, Complete, Fresh, Drawn, Feasible, Shared, Outcomes, WaitingFrom, Enough,
      AllFinished;
    var n := |c.sessions[g]|;
    var es1, own, lost := RunRace(c, g, n);
    var s1 := Run(c, es1);
    RunningShort(c, s1, g, n, own, lost);
    RaceFinished(c, s1, g);
    FreshOpen(c, s1, lost);
    var es2 := TellOne(c, es1, g);
    FreshTold(c, s1, Run(c, es2), lost);
    LostSpared(c, g, own, lost);
    es := FinishAll(c, es2, lost);
    FreshOpen(c, Run(c, es), lost);
  }

  lemma FreshOpen(c: Config, s: System, lost: set<string>)
    requires Fresh(c, s, lost)
    ensures s.outcome.None? && !s.expired
  {
  }

  /** Over any drawn sessions, a run without a deadline that blames `g` although the SCTs it returns satisfy
      the policy. */
  lemma WronglyBlamed(c: Config, g: string) returns (es: seq<Event>)
    requires Drawn(c) && ValidConfig(c) && Feasible(c.policy) && g in Others(c.policy) && c.policy[g].min > 0
    requires Shared(c.policy, g) != {}
    ensures Possible(c, es)
    ensures var s := Run(c, es);
            !s.expired && s.outcome.Some? && s.outcome.value.failed == {g} && Satisfies(c.policy, s.outcome.value.scts)
  {
    hide Books, Cancels, Cancellable, ThreadsInv, History, Reports, Shape, Run, Possible, Complete, Satisfies, Kept,
      Drawn, Feasible, Shared, AllFinished;
    var es1 := BlamedThenComplete(c, g);
    var es2 := TellAll(c, es1, c.policy.Keys - {g});
    Extend(c, es2, Return);
    es := es2 + [Return];
    CompleteMeansSatisfied(c, Run(c, es2));
  }

  /** Over any drawn sessions, a run in which the deadline comes between the last answer and the first
      report: every group is blamed although the SCTs satisfy the policy. */
  lemma DeadlineBlames(c: Config) returns (es: seq<Event>)
    requires Drawn(c) && ValidConfig(c) && Feasible(c.policy)
    ensures Possible(c, es)
    ensures var s := Run(c, es);
            && s.expired && s.outcome.Some? && s.outcome.value.failed == c.policy.Keys
            && Satisfies(c.policy, s.outcome.value.scts)
  {
    hide Books, Cancels, Cancellable, ThreadsInv, History, Reports, Shape, Run, Possible, Complete, Satisfies, Kept,
      Drawn, Feasible, AllFinished, Fresh, Enough;
    StartRun(c);
    InitialFresh(c);
    AllEnough(c);
    var es1 := FinishAll(c, [], {});
    FreshOpen(c, Run(c, es1), {});
    CompleteMeansSatisfied(c, Run(c, es1));
    Extend(c, es1, Deadline);
    var es2 := es1 + [Deadline];
    Extend(c, es2, Return);
    es := es2 + [Return];
  }

  // ---------------------------------------------------------------- exactly when

  lemma InfeasibleNeverSatisfied(p: Policy, scts: map<string, Sct>)
    requires !Feasible(p)
    ensures !Satisfies(p, scts)
  {
    var g :| g in p && |p[g].logs| < p[g].min;
    SubsetCount(scts.Keys * p[g].logs, p[g].logs);
  }

  lemma InfeasibleTruthful(c: Config, es: seq<Event>)
    requires ValidConfig(c) && Possible(c, es) && !Feasible(c.policy)
    ensures Truthful(c.policy, Run(c, es))
  {
    hide Inv, Next, Enabled, Run, Possible, Satisfies, Feasible;
    NoErrorMeansPolicyMet(c, es);
    if Run(c, es).outcome.Some? {
      InfeasibleNeverSatisfied(c.policy, Run(c, es).outcome.value.scts);
    }
  }

  /** A run over drawn sessions, without a deadline, whose outcome is not truthful. */
  ghost predicate Untruthful(p: Policy, c: Config, es: seq<Event>) {
    && c.policy == p && Drawn(c) && ValidConfig(c) && Possible(c, es)
    && !Run(c, es).expired && !Truthful(p, Run(c, es))
  }

  ghost predicate CanMislead(p: Policy) {
    exists c: Config, es: seq<Event> :: Untruthful(p, c, es)
  }

  /** Without a deadline, GetSCTs names no failed group exactly when the policy is met, in every run, if and
      only if no log belongs to two groups that ask for something, or the policy cannot be met at all; and
      otherwise it misleads on sessions that the races do draw. */
  lemma TruthfulExactly(p: Policy)
    ensures AlwaysTruthful(p) <==> Separate(p) || !Feasible(p)
    ensures CanMislead(p) <==> !Separate(p) && Feasible(p)
  {
    hide Truthful, Run, Possible, ValidConfig, Feasible, Satisfies, Drawn, Separate;
    if Separate(p) || !Feasible(p) {
      forall c: Config, es: seq<Event> | c.policy == p && ValidConfig(c) && Possible(c, es) && !Run(c, es).expired
        ensures Truthful(p, Run(c, es))
      {
        if Separate(p) {
          SeparateSound(c, es);
        } else {
          InfeasibleTruthful(c, es);
        }
      }
    } else {
      var g := SharedGroup(p);
      var c := Draw(p);
      var es := WronglyBlamed(c, g);
      NotTruthful(p, Run(c, es), g);
      assert Untruthful(p, c, es);
    }
  }

  /** In every run, with or without a deadline. */
  ghost predicate AlwaysTruthfulAnyway(p: Policy) {
    forall c: Config, es: seq<Event> :: c.policy == p && ValidConfig(c) && Possible(c, es) ==> Truthful(p, Run(c, es))
  }

  /** With deadlines, only an empty policy or one that cannot be met keeps GetSCTs truthful in every run. */
  lemma TruthfulWithDeadlines(p: Policy)
    ensures AlwaysTruthfulAnyway(p) <==> p == map[] || !Feasible(p)
  {
    hide Truthful, Run, Possible, ValidConfig, Feasible, Satisfies, Drawn;
    if p == map[] || !Feasible(p) {
      forall c: Config, es: seq<Event> | c.policy == p && ValidConfig(c) && Possible(c, es)
        ensures Truthful(p, Run(c, es))
      {
        if p == map[] {
          EmptyTruthful(c, es);
        } else {
          InfeasibleTruthful(c, es);
        }
      }
    } else {
      var g :| g in p;
      var c := Draw(p);
      var es := DeadlineBlames(c);
      NotTruthful(p, Run(c, es), g);
    }
  }

  lemma EmptyTruthful(c: Config, es: seq<Event>)
    requires ValidConfig(c) && Possible(c, es) && c.policy == map[]
    ensures Truthful(c.policy, Run(c, es))
  {
    hide Inv, Next, Enabled, Run, Possible;
    FailedInPolicy(c, es);
  }

  /** Only groups of the policy are blamed. */
  ghost predicate BlamesMembers(c: Config, s: System) {
    s.outcome.Some? ==> s.outcome.value.failed <= c.policy.Keys
  }

  lemma StepBlames(c: Config, s: System, e: Event)
    requires Inv(c, s) && Enabled(c, s, e) && BlamesMembers(c, s)
    ensures BlamesMembers(c, Next(c, s, e))
  {
    hide Books, Cancels, Cancellable, ThreadsInv, History, Shape, Answer, Request, Complete, AllFinished, Kept;
  }

  lemma {:induction false} FailedInPolicy(c: Config, es: seq<Event>)
    requires ValidConfig(c) && Possible(c, es)
    ensures BlamesMembers(c, Run(c, es))
  {
    hide Next, Inv, Enabled;
    if es != [] {
      FailedInPolicy(c, es[..|es| - 1]);
      StepBlames(c, Run(c, es[..|es| - 1]), es[|es| - 1]);
    }
  }

  lemma Draw(p: Policy) returns (c: Config)
    ensures c.policy == p && Drawn(c) && ValidConfig(c)
  {
    hide ValidConfig;
    var m := Listings(p, p.Keys);
    c := Config(p, m);
    DrawnValid(c);
  }

  lemma NotTruthful(p: Policy, s: System, g: string)
    requires s.outcome.Some? && g in s.outcome.value.failed && Satisfies(p, s.outcome.value.scts)
    ensures !Truthful(p, s)
  {
  }

  lemma SharedGroup(p: Policy) returns (g: string)
    requires !Separate(p)
    ensures g in Others(p) && p[g].min > 0 && Shared(p, g) != {}
  {
    var a, b :| a in p && b in p && a != b && p[a].min > 0 && p[b].min > 0 && !(p[a].logs !! p[b].logs);
    var x :| x in p[a].logs && x in p[b].logs;
    g := if a == BASE_NAME then b else a;
    assert Elsewhere(p, g, x);
    assert x in Shared(p, g);
  }
}
