/**
 The concurrent system of GetSCTs (submission/races.go): one race per group, one goroutine per log
 of the group's session, all sharing one submission state, and the collecting goroutine. A run is
 any sequence of enabled events, so every statement about runs covers every interleaving.
 */
module RaceRuns {
  import opened Options
  import opened Races

  /** A policy together with the submission session each race drew. */
  datatype Config = Config(policy: Policy, sessions: map<string, seq<string>>)

  ghost predicate ValidConfig(c: Config) {
    && c.sessions.Keys == c.policy.Keys
    && forall g, i :: g in c.sessions && 0 <= i < |c.sessions[g]| ==> c.sessions[g][i] in c.policy[g].logs
  }

  /** Where a submitting goroutine is: between two critical sections of the shared state. */
  datatype Pc = Waiting | Checked | InFlight | Finished

  datatype Outcome = Outcome(scts: map<string, Sct>, failed: set<string>)

  datatype System = System(
    st: State,
    pcs: map<(string, nat), Pc>,
    submitted: seq<string>,        // history: calls of SubmitToLog
    answered: map<string, Sct>,    // history: what each log returned
    reported: set<string>,         // races that have returned
    inbox: map<string, bool>,      // group events not yet received
    received: set<string>,         // races whose event GetSCTs has taken
    complete: map<string, bool>,   // the groupComplete map of GetSCTs
    expired: bool,                 // the caller's context is done
    outcome: Option<Outcome>
  )

  datatype Event =
    | Deadline                                         // the caller's context is done
    | Expire(g: string, i: nat)                        // context done before the request
    | Check(g: string, i: nat)                         // groupComplete test
    | Ask(g: string, i: nat)                           // request
    | Reply(g: string, i: nat, r: SubmissionResult)    // SubmitToLog returns, setResult
    | Report(g: string)                                // groupRace returns
    | Receive(g: string)                               // GetSCTs takes the group event
    | Return                                           // GetSCTs returns

  ghost function Threads(c: Config): set<(string, nat)> {
    set g, i: nat | g in c.sessions && i < |c.sessions[g]| :: (g, i)
  }

  ghost function Initial(c: Config): System {
    System(Start(c.policy), map t | t in Threads(c) :: Waiting, [], map[], {}, map[], {},
           map g | g in c.policy :: false, false, None)
  }

  /** Every goroutine of the race has counted itself done. */
  ghost predicate AllFinished(s: System, g: string) {
    forall t :: t in s.pcs && t.0 == g ==> s.pcs[t] == Finished
  }

  /** A race returns when its group is complete, when all its goroutines are done, or on the deadline;
      GetSCTs when it has heard from every race, or on the deadline. */
  ghost predicate Enabled(c: Config, s: System, e: Event) {
    match e
    case Deadline => true
    case Expire(g, i) => (g, i) in s.pcs && s.pcs[(g, i)] == Waiting && s.expired
    case Check(g, i) => (g, i) in s.pcs && s.pcs[(g, i)] == Waiting
    case Ask(g, i) => (g, i) in s.pcs && s.pcs[(g, i)] == Checked
    case Reply(g, i, _) => (g, i) in s.pcs && s.pcs[(g, i)] == InFlight
    case Report(g) => g in c.policy && g !in s.reported && (Complete(s.st, g) || AllFinished(s, g) || s.expired)
    case Receive(g) => g in s.inbox && s.outcome.None?
    case Return => s.outcome.None? && (c.policy.Keys <= s.received || s.expired)
  }

  ghost function LogOf(c: Config, g: string, i: nat): string
    requires (g, i) in Threads(c)
  {
    c.sessions[g][i]
  }

  /** What holds between the threads and the shared state; needed for the steps to be defined. */
  ghost predicate ThreadsInv(c: Config, s: System) {
    && s.pcs.Keys == Threads(c)
    && (forall t :: t in s.pcs && s.pcs[t] == InFlight ==>
          var log := LogOf(c, t.0, t.1);
          log in s.st.results && s.st.results[log] == PENDING && log !in s.answered && log in s.submitted)
    && (forall t, u ::
          (t in s.pcs && u in s.pcs && s.pcs[t] == InFlight && s.pcs[u] == InFlight
           && LogOf(c, t.0, t.1) == LogOf(c, u.0, u.1)) ==> t == u)
  }

  ghost function Next(c: Config, s: System, e: Event): System
    requires ThreadsInv(c, s) && Enabled(c, s, e)
  {
    match e
    case Deadline => s.(expired := true)
    case Expire(g, i) => s.(pcs := s.pcs[(g, i) := Finished])
    case Check(g, i) => s.(pcs := s.pcs[(g, i) := if Complete(s.st, g) then Finished else Checked])
    case Ask(g, i) =>
      var log := LogOf(c, g, i);
      var (st, first) := Request(s.st, log);
      if first then s.(st := st, pcs := s.pcs[(g, i) := InFlight], submitted := s.submitted + [log])
      else s.(st := st, pcs := s.pcs[(g, i) := Finished])
    case Reply(g, i, r) =>
      var log := LogOf(c, g, i);
      s.(st := Answer(s.st, log, r), pcs := s.pcs[(g, i) := Finished],
         answered := if r.sct.Some? then s.answered[log := r.sct.value] else s.answered)
    case Report(g) => s.(reported := s.reported + {g}, inbox := s.inbox[g := Complete(s.st, g)])
    case Receive(g) =>
      s.(complete := s.complete[g := s.inbox[g]], inbox := s.inbox - {g}, received := s.received + {g})
    case Return =>
      s.(outcome := Some(Outcome(Kept(s.st.results), set g | g in s.complete && !s.complete[g])))
  }

  // ---------------------------------------------------------------- the invariant

  ghost function KeptIn(p: Policy, st: State, g: string): set<string>
    requires g in p
  {
    set l | l in st.results && st.results[l].sct.Some? && l in p[g].logs
  }

  ghost function AnsweredIn(p: Policy, answered: set<string>, g: string): set<string>
    requires g in p
  {
    answered * p[g].logs
  }

  ghost predicate Shape(p: Policy, st: State) {
    && st.toGroups == GroupByLogs(p)
    && st.needs.Keys == p.Keys
    && st.cancels <= AllLogs(p)
    && st.results.Keys <= AllLogs(p)
  }

  /** Each log is submitted to at most once, and what is kept was answered, answered was submitted. */
  ghost predicate History(s: System) {
    && (forall i, j :: 0 <= i < j < |s.submitted| ==> s.submitted[i] != s.submitted[j])
    && (forall l :: l in s.submitted ==> l in s.st.results)
    && (forall l :: l in s.answered ==> l in s.submitted)
    && (forall l :: l in s.st.results && s.st.results[l].sct.Some? ==>
          l in s.answered && s.st.results[l].sct.value == s.answered[l])
  }

  /** Books of every group: nothing a group still needs is missing from what is kept. */
  ghost predicate Books(p: Policy, st: State, answered: set<string>)
    requires st.needs.Keys == p.Keys
  {
    && (forall g :: g in p ==> |KeptIn(p, st, g)| + Pos(st.needs[g]) >= p[g].min)
    && (forall g :: g in p && g != BASE_NAME ==> st.needs[g] == p[g].min - |AnsweredIn(p, answered, g)|)
    && (BASE_NAME in p ==> st.needs[BASE_NAME] == p[BASE_NAME].min - |KeptIn(p, st, BASE_NAME)|)
  }

  /** Cancel functions are held only for awaited logs and have been called only for others. */
  ghost predicate Cancels(st: State) {
    && (forall l :: l in st.cancels ==> Awaited(st, l))
    && (forall l :: l in st.cancelled ==> !Awaited(st, l))
  }

  /** The cancel function of every request ever sent is held or has been called. */
  ghost predicate Cancellable(submitted: seq<string>, st: State) {
    forall l :: l in submitted ==> l in st.cancels || l in st.cancelled
  }

  ghost predicate Reports(p: Policy, s: System) {
    && s.complete.Keys == p.Keys
    && (forall g :: g in s.inbox ==> g in p && (s.inbox[g] ==> Complete(s.st, g)))
    && (forall g :: g in s.complete && s.complete[g] ==> Complete(s.st, g))
  }

  ghost predicate Inv(c: Config, s: System) {
    && ThreadsInv(c, s) && Shape(c.policy, s.st) && History(s) && Books(c.policy, s.st, s.answered.Keys)
    && Cancels(s.st) && Cancellable(s.submitted, s.st) && Reports(c.policy, s)
  }

  // ---------------------------------------------------------------- one successful answer

  lemma GroupsOfShape(p: Policy, s: State, log: string)
    requires s.toGroups == GroupByLogs(p)
    ensures GroupsOf(s, log) == GroupsHolding(p, log)
  {
    if log !in AllLogs(p) {
      assert GroupsHolding(p, log) == {};
    }
  }

  /** Everything a successful answer for a pending log does to needs and results. */
  ghost predicate Settled(p: Policy, s: State, log: string, r: SubmissionResult, s': State)
    requires s.needs.Keys == p.Keys && log in s.results
  {
    && s'.toGroups == s.toGroups && s'.needs.Keys == s.needs.Keys
    && log in s'.results
    && (s'.results == s.results || s'.results == s.results[log := r])
    && (forall g :: g in p && g != BASE_NAME ==>
          s'.needs[g] == s.needs[g] - if log in p[g].logs then 1 else 0)
    && (forall g :: g in p && g != BASE_NAME && log in p[g].logs && s.needs[g] > 0 ==> s'.results[log] == r)
    && (BASE_NAME in p ==>
          s'.needs[BASE_NAME] == s.needs[BASE_NAME]
            - if log in p[BASE_NAME].logs && s'.results[log] == r then 1 else 0)
    && s'.cancels == (set l | l in s.cancels && (l !in s.toGroups || Awaited(s', l)))
    && s'.cancelled == s.cancelled + (s.cancels - s'.cancels)
  }

  lemma AnswerSettles(p: Policy, s: State, log: string, r: SubmissionResult)
    requires s.toGroups == GroupByLogs(p) && s.needs.Keys == p.Keys
    requires log in s.results && s.results[log] == PENDING && r.sct.Some?
    ensures Settled(p, s, log, r, Answer(s, log, r))
  {
    GroupsOfShape(p, s, log);
    var (needs, results) := Settle(s, log, r);
    var mid := s.(needs := needs, results := results);
    assert needs.Keys == s.needs.Keys;
    forall l ensures Awaited(mid, l) == Awaited(Answer(s, log, r), l) {
      assert GroupsOf(mid, l) == GroupsOf(Answer(s, log, r), l);
    }
  }

  /** Needs never increase, so a log no group awaits stays that way. */
  lemma AwaitedFalls(s: State, s': State, log: string)
    requires s'.toGroups == s.toGroups
    requires forall g :: Need(s'.needs, g) <= Need(s.needs, g)
    ensures Awaited(s', log) ==> Awaited(s, log)
  {
    if Awaited(s', log) {
      var g :| g in GroupsOf(s', log) && Need(s'.needs, g) > 0;
      assert g in GroupsOf(s, log) && Need(s.needs, g) > 0;
    }
  }

  lemma AwaitedSame(s: State, s': State)
    requires s'.toGroups == s.toGroups && s'.needs == s.needs
    ensures forall l :: Awaited(s', l) == Awaited(s, l)
  {
    forall l ensures Awaited(s', l) == Awaited(s, l) {
      AwaitedFalls(s, s', l);
      AwaitedFalls(s', s, l);
    }
  }

  /** One more member, or none. */
  lemma SetGrows(before: set<string>, after: set<string>, log: string)
    requires log !in before
    ensures after == before + {log} ==> |after| == |before| + 1
  {
  }

  lemma KeptGrows(p: Policy, s: State, log: string, r: SubmissionResult, s': State, g: string)
    requires s.needs.Keys == p.Keys && log in s.results && s.results[log] == PENDING && r.sct.Some?
    requires Settled(p, s, log, r, s') && g in p
    ensures |KeptIn(p, s', g)| == |KeptIn(p, s, g)| + if s'.results[log] == r && log in p[g].logs then 1 else 0
  {
    SetGrows(KeptIn(p, s, g), KeptIn(p, s', g), log);
    if s'.results[log] == r && log in p[g].logs {
      assert KeptIn(p, s', g) == KeptIn(p, s, g) + {log};
    } else {
      assert KeptIn(p, s', g) == KeptIn(p, s, g);
    }
  }

  lemma AnsweredGrows(p: Policy, answered: set<string>, log: string, g: string)
    requires g in p && log !in answered
    ensures |AnsweredIn(p, answered + {log}, g)| == |AnsweredIn(p, answered, g)| + if log in p[g].logs then 1 else 0
  {
    var now := AnsweredIn(p, answered + {log}, g);
    SetGrows(AnsweredIn(p, answered, g), now, log);
    if log in p[g].logs {
      assert now == AnsweredIn(p, answered, g) + {log};
    } else {
      assert now == AnsweredIn(p, answered, g);
    }
  }

  lemma SettledBooks(p: Policy, s: State, log: string, r: SubmissionResult, s': State, answered: set<string>)
    requires s.needs.Keys == p.Keys && log in s.results && s.results[log] == PENDING && r.sct.Some?
    requires Settled(p, s, log, r, s') && log !in answered && Books(p, s, answered)
    ensures Books(p, s', answered + {log})
  {
    forall g | g in p ensures |KeptIn(p, s', g)| + Pos(s'.needs[g]) >= p[g].min {
      KeptGrows(p, s, log, r, s', g);
    }
    forall g | g in p && g != BASE_NAME
      ensures s'.needs[g] == p[g].min - |AnsweredIn(p, answered + {log}, g)|
    {
      AnsweredGrows(p, answered, log, g);
    }
    if BASE_NAME in p {
      KeptGrows(p, s, log, r, s', BASE_NAME);
    }
  }

  lemma SettledFalls(p: Policy, s: State, log: string, r: SubmissionResult, s': State)
    requires s.needs.Keys == p.Keys && log in s.results && Settled(p, s, log, r, s')
    ensures s'.toGroups == s.toGroups && s'.needs.Keys == s.needs.Keys
    ensures s'.results == s.results || s'.results == s.results[log := r]
    ensures forall g :: Need(s'.needs, g) <= Need(s.needs, g)
    ensures forall g :: Complete(s, g) ==> Complete(s', g)
  {
  }

  lemma SettledCancels(p: Policy, s: State, log: string, r: SubmissionResult, s': State)
    requires s.needs.Keys == p.Keys && log in s.results && Settled(p, s, log, r, s')
    requires Shape(p, s) && Cancels(s)
    ensures Cancels(s') && s'.cancels <= AllLogs(p)
  {
    SettledFalls(p, s, log, r, s');
    forall l ensures Awaited(s', l) ==> Awaited(s, l) {
      AwaitedFalls(s, s', l);
    }
  }

  // ---------------------------------------------------------------- every event keeps the invariant

  lemma ThreadFacts(c: Config, s: System, g: string, i: nat)
    requires ValidConfig(c) && ThreadsInv(c, s) && (g, i) in s.pcs
    ensures (g, i) in Threads(c)
    ensures LogOf(c, g, i) in AllLogs(c.policy)
  {
    assert LogOf(c, g, i) in c.policy[g].logs;
  }

  lemma InFlightFacts(c: Config, s: System, g: string, i: nat)
    requires ValidConfig(c) && ThreadsInv(c, s) && (g, i) in s.pcs && s.pcs[(g, i)] == InFlight
    ensures (g, i) in Threads(c)
    ensures var log := LogOf(c, g, i);
            log in s.st.results && s.st.results[log] == PENDING && log !in s.answered
  {
  }

  lemma AskKeeps(c: Config, s: System, e: Event)
    requires ValidConfig(c) && Inv(c, s) && Enabled(c, s, e) && e.Ask?
    ensures Inv(c, Next(c, s, e))
  {
    hide Books, Cancels, Cancellable, Shape, ThreadsInv, History, Reports, Request;
    var Ask(g, i) := e;
    ThreadFacts(c, s, g, i);
    var log := LogOf(c, g, i);
    var s' := Next(c, s, e);
    AskState(c.policy, s.st, log, s.answered.Keys);
    AskThreads(c, s, g, i, Request(s.st, log).1, s');
    AskHistory(c, s, g, i, Request(s.st, log).1, s');
    AskCancellable(s.submitted, s.st, log);
    ReportsStay(c.policy, s, s');
  }

  lemma AskCancellable(submitted: seq<string>, st: State, log: string)
    requires Cancellable(submitted, st)
    ensures var (st', first) := Request(st, log); Cancellable(if first then submitted + [log] else submitted, st')
  {
    hide Awaited;
  }

  lemma AskThreads(c: Config, s: System, g: string, i: nat, first: bool, s': System)
    requires ThreadsInv(c, s) && History(s) && (g, i) in s.pcs && s.pcs[(g, i)] == Checked
    requires var log := LogOf(c, g, i);
             && s'.pcs == s.pcs[(g, i) := if first then InFlight else Finished]
             && s'.answered == s.answered
             && s'.submitted == (if first then s.submitted + [log] else s.submitted)
             && s'.st.results == (if log in s.st.results then s.st.results else s.st.results[log := PENDING])
             && (first ==> log !in s.st.results)
    ensures ThreadsInv(c, s')
  {
  }

  lemma AskHistory(c: Config, s: System, g: string, i: nat, first: bool, s': System)
    requires ThreadsInv(c, s) && History(s) && (g, i) in s.pcs && s.pcs[(g, i)] == Checked
    requires var log := LogOf(c, g, i);
             && s'.pcs == s.pcs[(g, i) := if first then InFlight else Finished]
             && s'.answered == s.answered
             && s'.submitted == (if first then s.submitted + [log] else s.submitted)
             && s'.st.results == (if log in s.st.results then s.st.results else s.st.results[log := PENDING])
             && (first ==> log !in s.st.results)
    ensures History(s')
  {
  }

  lemma AskState(p: Policy, st: State, log: string, answered: set<string>)
    requires Shape(p, st) && Books(p, st, answered) && Cancels(st) && log in AllLogs(p)
    ensures var st' := Request(st, log).0;
            && Shape(p, st') && Books(p, st', answered) && Cancels(st')
            && st'.needs == st.needs
            && st'.results == if log in st.results then st.results else st.results[log := PENDING]
    ensures Request(st, log).1 ==> log !in st.results
  {
    hide Books, Awaited;
    var st' := Request(st, log).0;
    assert Kept(st'.results) == Kept(st.results);
    BooksSame(p, st, st', answered);
    AwaitedSame(st, st');
    AwaitedSame(st, st.(results := st.results[log := PENDING]));
  }

  lemma BooksSame(p: Policy, st: State, st': State, answered: set<string>)
    requires st.needs.Keys == p.Keys && Books(p, st, answered) && st'.needs == st.needs
    requires Kept(st'.results) == Kept(st.results)
    ensures Books(p, st', answered)
  {
    forall g | g in p ensures KeptIn(p, st', g) == KeptIn(p, st, g) {
      KeptInKept(p, st, g);
      KeptInKept(p, st', g);
    }
  }

  lemma KeptInKept(p: Policy, st: State, g: string)
    requires g in p
    ensures KeptIn(p, st, g) == Kept(st.results).Keys * p[g].logs
  {
  }

  lemma FailKeeps(c: Config, s: System, e: Event)
    requires ValidConfig(c) && Inv(c, s) && Enabled(c, s, e) && e.Reply? && e.r.sct.None?
    ensures Inv(c, Next(c, s, e))
  {
    hide Books, Cancels, Shape, ThreadsInv, History, Reports, Answer;
    var Reply(g, i, r) := e;
    InFlightFacts(c, s, g, i);
    var log := LogOf(c, g, i);
    var s' := Next(c, s, e);
    FailState(c.policy, s.st, log, r, s.answered.Keys);
    FailThreads(c, s, g, i, r, s');
    FailHistory(c, s, g, i, r, s');
    ReportsStay(c.policy, s, s');
  }

  lemma ReportsStay(p: Policy, s: System, s': System)
    requires Reports(p, s) && s'.inbox == s.inbox && s'.complete == s.complete
    requires forall g :: Complete(s.st, g) ==> Complete(s'.st, g)
    ensures Reports(p, s')
  {
  }

  lemma FailThreads(c: Config, s: System, g: string, i: nat, r: SubmissionResult, s': System)
    requires ThreadsInv(c, s) && History(s) && (g, i) in s.pcs && s.pcs[(g, i)] == InFlight && r.sct.None?
    requires s'.pcs == s.pcs[(g, i) := Finished] && s'.submitted == s.submitted && s'.answered == s.answered
    requires s'.st.results == s.st.results[LogOf(c, g, i) := r]
    ensures ThreadsInv(c, s')
  {
  }

  lemma FailHistory(c: Config, s: System, g: string, i: nat, r: SubmissionResult, s': System)
    requires ThreadsInv(c, s) && History(s) && (g, i) in s.pcs && s.pcs[(g, i)] == InFlight && r.sct.None?
    requires s'.pcs == s.pcs[(g, i) := Finished] && s'.submitted == s.submitted && s'.answered == s.answered
    requires s'.st.results == s.st.results[LogOf(c, g, i) := r]
    ensures History(s')
  {
  }

  /** Events that leave the shared state alone. */
  lemma QuietKeeps(c: Config, s: System, s': System)
    requires Inv(c, s)
    requires s'.st == s.st && s'.submitted == s.submitted && s'.answered == s.answered
    requires s'.pcs.Keys == s.pcs.Keys
    requires forall t :: t in s.pcs && s'.pcs[t] == InFlight ==> s.pcs[t] == InFlight
    requires Reports(c.policy, s')
    ensures Inv(c, s')
  {
  }

  lemma FailState(p: Policy, st: State, log: string, r: SubmissionResult, answered: set<string>)
    requires Shape(p, st) && Books(p, st, answered) && Cancels(st)
    requires log in st.results && st.results[log] == PENDING && r.sct.None?
    ensures var st' := Answer(st, log, r);
            && st' == st.(results := st.results[log := r])
            && Shape(p, st') && Books(p, st', answered) && Cancels(st')
  {
    hide Settle, Books, Awaited;
    var st' := st.(results := st.results[log := r]);
    assert Kept(st'.results) == Kept(st.results);
    BooksSame(p, st, st', answered);
    AwaitedSame(st, st');
  }

  lemma SuccessKeeps(c: Config, s: System, e: Event)
    requires ValidConfig(c) && Inv(c, s) && Enabled(c, s, e) && e.Reply? && e.r.sct.Some?
    ensures Inv(c, Next(c, s, e))
  {
    hide Books, Cancels, ThreadsInv, History, Reports, Answer, Settled, GroupByLogs, AllLogs, ValidConfig;
    var Reply(g, i, r) := e;
    InFlightFacts(c, s, g, i);
    var log := LogOf(c, g, i);
    var s' := Next(c, s, e);
    AnswerSettles(c.policy, s.st, log, r);
    SettledBooks(c.policy, s.st, log, r, s'.st, s.answered.Keys);
    assert s'.answered.Keys == s.answered.Keys + {log};
    SettledFalls(c.policy, s.st, log, r, s'.st);
    SettledCancels(c.policy, s.st, log, r, s'.st);
    SuccessThreads(c, s, g, i, r, s');
    SuccessHistory(c, s, g, i, r, s');
    ReportsStay(c.policy, s, s');
  }

  lemma SuccessThreads(c: Config, s: System, g: string, i: nat, r: SubmissionResult, s': System)
    requires ThreadsInv(c, s) && History(s) && (g, i) in s.pcs && s.pcs[(g, i)] == InFlight && r.sct.Some?
    requires s'.pcs == s.pcs[(g, i) := Finished] && s'.submitted == s.submitted
    requires var log := LogOf(c, g, i);
             && s'.answered == s.answered[log := r.sct.value]
             && (s'.st.results == s.st.results || s'.st.results == s.st.results[log := r])
    ensures ThreadsInv(c, s')
  {
  }

  lemma SuccessHistory(c: Config, s: System, g: string, i: nat, r: SubmissionResult, s': System)
    requires ThreadsInv(c, s) && History(s) && (g, i) in s.pcs && s.pcs[(g, i)] == InFlight && r.sct.Some?
    requires s'.pcs == s.pcs[(g, i) := Finished] && s'.submitted == s.submitted
    requires var log := LogOf(c, g, i);
             && s'.answered == s.answered[log := r.sct.value]
             && (s'.st.results == s.st.results || s'.st.results == s.st.results[log := r])
    ensures History(s')
  {
  }

  lemma StepInv(c: Config, s: System, e: Event)
    requires ValidConfig(c) && Inv(c, s) && Enabled(c, s, e)
    ensures Inv(c, Next(c, s, e))
  {
    hide Books, Cancels, Shape, ThreadsInv, History;
    match e
    case Ask(g, i) => AskKeeps(c, s, e);
    case Reply(g, i, r) =>
      if r.sct.Some? {
        SuccessKeeps(c, s, e);
      } else {
        FailKeeps(c, s, e);
      }
    case _ => QuietKeeps(c, s, Next(c, s, e));
  }

  // ---------------------------------------------------------------- runs

  lemma InitialInv(c: Config)
    requires ValidConfig(c)
    ensures Inv(c, Initial(c))
  {
    forall g | g in c.policy ensures KeptIn(c.policy, Start(c.policy), g) == {} && AnsweredIn(c.policy, {}, g) == {} {
    }
  }

  /** The events of `es` can happen in this order from the start of GetSCTs. */
  ghost predicate Possible(c: Config, es: seq<Event>)
    requires ValidConfig(c)
    decreases |es|, 0
  {
    es == [] || (Possible(c, es[..|es| - 1]) && Enabled(c, Run(c, es[..|es| - 1]), es[|es| - 1]))
  }

  /** The state after the events of `es`; every such state satisfies the invariant. */
  ghost function Run(c: Config, es: seq<Event>): (s: System)
    requires ValidConfig(c) && Possible(c, es)
    ensures Inv(c, s)
    decreases |es|, 1
  {
    if es == [] then
      InitialInv(c);
      Initial(c)
    else
      var s := Run(c, es[..|es| - 1]);
      StepInv(c, s, es[|es| - 1]);
      Next(c, s, es[|es| - 1])
  }
}
