/**
 When the reservation loses an SCT that the base group needed. An answer that nobody but the base
 group wants is dumped while all open base slots are reserved; if one later answer then serves two
 groups at once, a slot stays open for good. Which policies allow this is decided here by a condition
 on sets of logs alone, for every policy, and then made explicit for disjoint groups and for two.
 */
module RaceStarvation {
  import opened Races
  import opened RaceRuns
  import opened RaceSchedules
  import opened RaceTheorems

  // ---------------------------------------------------------------- the condition

  ghost function NeedsAfter(p: Policy, xs: set<string>): map<string, int> {
    map g | g in p :: p[g].min - |xs * p[g].logs|
  }

  /** What the other groups still ask for together after the logs `xs` have answered. */
  ghost function Unmet(p: Policy, xs: set<string>): nat {
    PositiveSum(NeedsAfter(p, xs), Others(p))
  }

  /** After `xs` no other group wants an answer of `l`. */
  ghost predicate Spared(p: Policy, xs: set<string>, l: string) {
    forall g :: g in Others(p) && l in p[g].logs ==> |xs * p[g].logs| >= p[g].min
  }

  /** The logs `xs` are enough for every group. */
  ghost predicate Meets(p: Policy, xs: set<string>) {
    forall g :: g in p ==> |xs * p[g].logs| >= p[g].min
  }

  /** After `xs` have answered and were kept, nobody else wants `l` and all open base slots are reserved. */
  ghost predicate Reserves(p: Policy, xs: set<string>, l: string) {
    BASE_NAME in p && Spared(p, xs, l) && |xs| + Unmet(p, xs) >= p[BASE_NAME].min
  }

  /** Exactly as many logs `xs` as the base group asks for are enough for every group; but after the
      logs `first` of them have answered, an answer of `l` is dumped. */
  ghost predicate Starves(p: Policy, first: set<string>, l: string, xs: set<string>)
    requires BASE_NAME in p
  {
    && first <= xs <= AllLogs(p) && l in xs && l !in first
    && |xs| == p[BASE_NAME].min && Meets(p, xs) && Reserves(p, first, l)
  }

  ghost predicate Starvable(p: Policy)
    requires BASE_NAME in p
  {
    exists first, l, xs :: Starves(p, first, l, xs)
  }

  ghost predicate AllComplete(p: Policy, st: State) {
    forall g :: g in p ==> Complete(st, g)
  }

  /** In every run, once the logs that answered are enough for every group, every group is complete. */
  ghost predicate AlwaysCollects(p: Policy) {
    forall c: Config, es: seq<Event> ::
      c.policy == p && ValidConfig(c) && Possible(c, es) && Meets(p, Run(c, es).answered.Keys)
      ==> AllComplete(p, Run(c, es).st)
  }

  // ---------------------------------------------------------------- a failing run starves

  /** Some answer was dumped, under the condition that `Starves` puts on the logs before it. */
  ghost predicate Dumped(p: Policy, st: State, answered: set<string>)
    requires BASE_NAME in p
  {
    exists first, l :: DumpedAfter(p, st, answered, first, l)
  }

  ghost predicate DumpedAfter(p: Policy, st: State, answered: set<string>, first: set<string>, l: string)
    requires BASE_NAME in p
  {
    first <= Kept(st.results).Keys && l in answered && l !in Kept(st.results).Keys && Reserves(p, first, l)
  }

  ghost predicate Tracked(c: Config, s: System)
    requires BASE_NAME in c.policy
  {
    Kept(s.st.results).Keys == s.answered.Keys || Dumped(c.policy, s.st, s.answered.Keys)
  }

  lemma UnmetNeeds(p: Policy, st: State, answered: set<string>)
    requires st.needs.Keys == p.Keys && Books(p, st, answered)
    ensures PositiveSum(st.needs, Others(p)) == Unmet(p, answered)
  {
    PositiveSumSame(st.needs, NeedsAfter(p, answered), Others(p));
  }

  lemma NotHungry(p: Policy, st: State, answered: set<string>, log: string)
    requires st.needs.Keys == p.Keys && Books(p, st, answered)
    ensures Hungry(st.needs, GroupsHolding(p, log) - {BASE_NAME}, Others(p)) == {} <==> Spared(p, answered, log)
  {
    var h := Hungry(st.needs, GroupsHolding(p, log) - {BASE_NAME}, Others(p));
    if h == {} {
      forall g | g in Others(p) && log in p[g].logs ensures |answered * p[g].logs| >= p[g].min {
        assert g !in h;
      }
    }
  }

  /** The first answer to be dumped. */
  lemma FirstDump(p: Policy, st: State, answered: set<string>, log: string, r: SubmissionResult)
    requires BaseCovers(p) && Shape(p, st) && Books(p, st, answered) && Kept(st.results).Keys == answered
    requires log in p[BASE_NAME].logs && log in st.results && st.results[log] == PENDING && r.sct.Some?
    ensures Answer(st, log, r).results == st.results <==> Reserves(p, answered, log)
  {
    hide Answer, Hungry, Spared, Unmet, PositiveSum, GroupByLogs, AllLogs, GroupsHolding, Kept;
    AnswerStored(p, st, log, r);
    OthersAfterAnswer(p, st, log, r);
    NotHungry(p, st, answered, log);
    UnmetNeeds(p, st, answered);
    KeptInBase(p, st);
    assert |Kept(st.results)| == |answered|;
    assert st.results[log := r] != st.results;
  }

  lemma DumpedStays(p: Policy, st: State, st': State, answered: set<string>, log: string)
    requires BASE_NAME in p && Dumped(p, st, answered) && log !in answered
    requires Kept(st.results).Keys <= Kept(st'.results).Keys <= Kept(st.results).Keys + {log}
    ensures Dumped(p, st', answered + {log})
  {
    hide Reserves;
    var first, l :| DumpedAfter(p, st, answered, first, l);
    assert DumpedAfter(p, st', answered + {log}, first, l);
  }

  lemma AnswerTracked(p: Policy, st: State, answered: set<string>, log: string, r: SubmissionResult)
    requires BaseCovers(p) && Shape(p, st) && Books(p, st, answered) && log !in answered
    requires log in p[BASE_NAME].logs && log in st.results && st.results[log] == PENDING && r.sct.Some?
    requires Kept(st.results).Keys == answered || Dumped(p, st, answered)
    ensures var st' := Answer(st, log, r);
            Kept(st'.results).Keys == answered + {log} || Dumped(p, st', answered + {log})
  {
    hide Answer, Reserves, GroupByLogs, AllLogs, Kept, Dumped;
    var st' := Answer(st, log, r);
    StoredGrows(p, st, log, r);
    NotKept(st.results, log);
    if Kept(st.results).Keys == answered {
      FirstDump(p, st, answered, log, r);
      if st'.results == st.results {
        NowDumped(p, st', answered, log);
      }
    } else {
      DumpedStays(p, st, st', answered, log);
    }
  }

  lemma NotKept(results: map<string, SubmissionResult>, log: string)
    requires log in results && results[log] == PENDING
    ensures log !in Kept(results)
  {
  }

  lemma NowDumped(p: Policy, st: State, first: set<string>, l: string)
    requires BASE_NAME in p && Kept(st.results).Keys == first && l !in first
    requires Reserves(p, first, l)
    ensures Dumped(p, st, first + {l})
  {
    hide Reserves;
    assert DumpedAfter(p, st, first + {l}, first, l);
  }

  lemma StepTracked(c: Config, s: System, e: Event)
    requires ValidConfig(c) && BaseCovers(c.policy) && Inv(c, s) && Enabled(c, s, e) && Tracked(c, s)
    ensures Tracked(c, Next(c, s, e))
  {
    hide Books, Cancels, Cancellable, ThreadsInv, History, Reports, Shape, Answer, Request, Dumped, Kept, AllFinished;
    var s' := Next(c, s, e);
    if e.Reply? && e.r.sct.Some? {
      InFlightFacts(c, s, e.g, e.i);
      BaseHolds(c, s, e.g, e.i);
      var log := LogOf(c, e.g, e.i);
      AnswerTracked(c.policy, s.st, s.answered.Keys, log, e.r);
      assert s'.answered.Keys == s.answered.Keys + {log};
    } else {
      OtherEventsAreNeutral(c, s, e);
      SameDumped(c.policy, s.st, s'.st, s.answered.Keys);
    }
  }

  lemma SameDumped(p: Policy, st: State, st': State, answered: set<string>)
    requires BASE_NAME in p && Kept(st'.results) == Kept(st.results)
    ensures Dumped(p, st', answered) == Dumped(p, st, answered)
  {
    hide Reserves, Kept;
    if Dumped(p, st, answered) {
      var first, l :| DumpedAfter(p, st, answered, first, l);
      assert DumpedAfter(p, st', answered, first, l);
    }
    if Dumped(p, st', answered) {
      var first, l :| DumpedAfter(p, st', answered, first, l);
      assert DumpedAfter(p, st, answered, first, l);
    }
  }

  lemma InitialTracked(c: Config)
    requires BASE_NAME in c.policy
    ensures Tracked(c, Initial(c))
  {
  }

  /** In every run either all answers are kept or one was dumped under that condition. */
  lemma {:induction false} RunTracked(c: Config, es: seq<Event>)
    requires ValidConfig(c) && Possible(c, es) && BaseCovers(c.policy)
    ensures Tracked(c, Run(c, es))
  {
    hide Next, Inv, Enabled, Tracked;
    if es == [] {
      InitialTracked(c);
    } else {
      var before := es[..|es| - 1];
      RunTracked(c, before);
      StepTracked(c, Run(c, before), es[|es| - 1]);
    }
  }

  /** A set of any size between two sets. */
  lemma {:induction false} SetBetween(lo: set<string>, hi: set<string>, n: nat) returns (xs: set<string>)
    requires lo <= hi && |lo| <= n <= |hi|
    ensures lo <= xs <= hi && |xs| == n
    decreases n - |lo|
  {
    if |lo| == n {
      xs := lo;
    } else {
      assert hi == lo + (hi - lo);
      var l :| l in hi - lo;
      xs := SetBetween(lo + {l}, hi, n);
    }
  }

  lemma SubsetMeets(lo: set<string>, hi: set<string>, logs: set<string>)
    requires lo <= hi
    ensures |lo * logs| <= |hi * logs|
  {
    var more := hi * logs - lo * logs;
    assert hi * logs == lo * logs + more;
  }

  lemma ShortMeansStarves(p: Policy, st: State, answered: set<string>)
    requires BaseCovers(p) && Shape(p, st) && Books(p, st, answered) && answered <= AllLogs(p)
    requires Kept(st.results).Keys <= answered && Meets(p, answered) && !AllComplete(p, st)
    requires Dumped(p, st, answered)
    ensures Starvable(p)
  {
    hide Reserves, Kept, AllLogs, GroupByLogs;
    var kept := Kept(st.results).Keys;
    var first, l :| DumpedAfter(p, st, answered, first, l);
    OnlyBaseShort(p, st, answered);
    assert |kept + {l}| == |kept| + 1;
    var xs := SetBetween(kept + {l}, answered, p[BASE_NAME].min);
    forall g | g in p ensures |xs * p[g].logs| >= p[g].min {
      if g == BASE_NAME {
        assert xs * p[g].logs == xs by { BaseIsAll(p); }
      } else {
        KeptInKept(p, st, g);
        SubsetMeets(kept, xs, p[g].logs);
      }
    }
    assert Starves(p, first, l, xs);
  }

  lemma BaseIsAll(p: Policy)
    requires BaseCovers(p)
    ensures AllLogs(p) == p[BASE_NAME].logs
  {
  }

  /** When every group has been answered often enough, only the base group can be incomplete. */
  lemma OnlyBaseShort(p: Policy, st: State, answered: set<string>)
    requires BaseCovers(p) && Shape(p, st) && Books(p, st, answered) && answered <= AllLogs(p) && Meets(p, answered)
    ensures forall g :: g in Others(p) ==> st.needs[g] <= 0
    ensures |answered| >= p[BASE_NAME].min
    ensures AllComplete(p, st) <==> |Kept(st.results).Keys| >= p[BASE_NAME].min
  {
    hide Kept, AllLogs, GroupByLogs;
    BaseIsAll(p);
    assert answered * p[BASE_NAME].logs == answered;
    KeptInBase(p, st);
    assert |Kept(st.results)| == |Kept(st.results).Keys|;
  }

  lemma FailingRunStarves(c: Config, es: seq<Event>)
    requires ValidConfig(c) && Possible(c, es) && BaseCovers(c.policy)
    requires Meets(c.policy, Run(c, es).answered.Keys) && !AllComplete(c.policy, Run(c, es).st)
    ensures Starvable(c.policy)
  {
    hide Books, Cancels, Cancellable, ThreadsInv, Reports, Next, Possible, Enabled, Kept, Dumped, Starvable, Meets,
      AllComplete, AllLogs, GroupByLogs;
    var s := Run(c, es);
    RunTracked(c, es);
    AnsweredKnown(c.policy, s);
    OnlyBaseShort(c.policy, s.st, s.answered.Keys);
    ShortMeansStarves(c.policy, s.st, s.answered.Keys);
  }

  // ---------------------------------------------------------------- a starving run

  /** The first `k` logs of the base session have answered and the rest of its goroutines are waiting. */
  ghost predicate ServedUpTo(c: Config, s: System, k: nat)
    requires BASE_NAME in c.sessions && k <= |c.sessions[BASE_NAME]|
  {
    && s.answered.Keys == Members(c.sessions[BASE_NAME][..k]) && s.st.results.Keys == s.answered.Keys
    && DoneUpTo(c, s, k)
  }

  /** The first `k` goroutines of the base race are done, the others are waiting, and nobody has reported. */
  ghost predicate DoneUpTo(c: Config, s: System, k: nat)
    requires BASE_NAME in c.sessions && k <= |c.sessions[BASE_NAME]|
  {
    && !s.expired && s.outcome.None? && s.reported == {} && s.received == {} && s.complete.Keys == c.policy.Keys
    && forall j: nat :: j < |c.sessions[BASE_NAME]| ==>
         (BASE_NAME, j) in s.pcs && s.pcs[(BASE_NAME, j)] == if j < k then Finished else Waiting
  }

  /** What one more answer does to the kept SCTs. */
  lemma AnswerKeeps(p: Policy, st: State, answered: set<string>, log: string)
    requires BaseCovers(p) && Shape(p, st) && Books(p, st, answered) && log !in st.results && log in p[BASE_NAME].logs
    ensures var st' := Answer(RequestOf(st, log), log, OK);
            && st'.results.Keys == st.results.Keys + {log}
            && Kept(st'.results).Keys <= Kept(st.results).Keys + {log}
            && (Kept(st.results).Keys == answered && Reserves(p, answered, log) ==>
                  Kept(st'.results) == Kept(st.results))
  {
    hide Answer, GroupByLogs, AllLogs, Books, Shape, BaseCovers, Kept, Reserves, RequestOf;
    var mid := RequestOf(st, log);
    RequestKeeps(p, st, answered, log);
    StoredGrows(p, mid, log, OK);
    AnswerKeys(p, mid, log);
    if Kept(st.results).Keys == answered && Reserves(p, answered, log) {
      ReservedDumps(p, mid, answered, log);
    }
  }

  lemma RequestKeeps(p: Policy, st: State, answered: set<string>, log: string)
    requires BaseCovers(p) && Shape(p, st) && Books(p, st, answered) && log !in st.results && log in p[BASE_NAME].logs
    ensures var mid := RequestOf(st, log);
            && Shape(p, mid) && Books(p, mid, answered) && Kept(mid.results) == Kept(st.results)
            && mid.results.Keys == st.results.Keys + {log} && mid.results[log] == PENDING
  {
    hide Books, AllLogs, GroupByLogs;
    BaseIsAll(p);
    assert Kept(RequestOf(st, log).results) == Kept(st.results);
    BooksSame(p, st, RequestOf(st, log), answered);
  }

  lemma AnswerKeys(p: Policy, st: State, log: string)
    requires Shape(p, st) && log in st.results && st.results[log] == PENDING
    ensures Answer(st, log, OK).results.Keys == st.results.Keys
    ensures Answer(st, log, OK).results == st.results ==> Kept(Answer(st, log, OK).results) == Kept(st.results)
  {
    hide Answer, GroupByLogs, AllLogs;
    AnswerSettles(p, st, log, OK);
  }

  lemma ReservedDumps(p: Policy, st: State, answered: set<string>, log: string)
    requires BaseCovers(p) && Shape(p, st) && Books(p, st, answered) && Kept(st.results).Keys == answered
    requires log in p[BASE_NAME].logs && log in st.results && st.results[log] == PENDING && Reserves(p, answered, log)
    ensures Answer(st, log, OK).results == st.results
  {
    hide Answer, GroupByLogs, AllLogs, Books, Shape, BaseCovers, Kept, Reserves;
    FirstDump(p, st, answered, log, OK);
  }

  /** Some answer is not kept. */
  ghost predicate Behind(s: System) {
    Kept(s.st.results).Keys != s.answered.Keys
  }

  lemma BaseLog(c: Config, k: nat)
    requires ValidConfig(c) && BASE_NAME in c.policy && k < |c.sessions[BASE_NAME]|
    ensures (BASE_NAME, k) in Threads(c) && LogOf(c, BASE_NAME, k) == c.sessions[BASE_NAME][k]
    ensures c.sessions[BASE_NAME][k] in c.policy[BASE_NAME].logs
  {
  }

  lemma ServeStep(c: Config, es: seq<Event>, k: nat) returns (es': seq<Event>)
    requires ValidConfig(c) && BaseCovers(c.policy) && Distinct(c.sessions[BASE_NAME]) && Possible(c, es)
    requires k < |c.sessions[BASE_NAME]| && k < c.policy[BASE_NAME].min && ServedUpTo(c, Run(c, es), k)
    ensures Possible(c, es') && ServedUpTo(c, Run(c, es'), k + 1)
    ensures Behind(Run(c, es)) || Reserves(c.policy, Members(c.sessions[BASE_NAME][..k]), c.sessions[BASE_NAME][k]) ==>
              Behind(Run(c, es'))
  {
    hide Books, Cancels, Cancellable, ThreadsInv, Reports, History, Shape, GroupByLogs, AllLogs, Reserves, Next,
      Enabled, Run, Possible, Threads, LogOf, Members, Distinct, Behind, Complete, AfterServing;
    var s, order := Run(c, es), c.sessions[BASE_NAME];
    BaseLog(c, k);
    MembersCount(order, k);
    MembersGrow(order, k);
    BaseStillShort(c.policy, s, k);
    es' := ServeOne(c, es, BASE_NAME, k, OK);
    StepServed(c, s, k);
    if Behind(s) || Reserves(c.policy, Members(order[..k]), order[k]) {
      StepBehind(c.policy, s, k, order[k]);
    }
  }

  lemma StepServed(c: Config, s: System, k: nat)
    requires BaseCovers(c.policy) && BASE_NAME in c.sessions && k < |c.sessions[BASE_NAME]|
    requires Distinct(c.sessions[BASE_NAME]) && c.sessions[BASE_NAME][k] in c.policy[BASE_NAME].logs
    requires Shape(c.policy, s.st) && Books(c.policy, s.st, s.answered.Keys) && ServedUpTo(c, s, k)
    ensures ServedUpTo(c, AfterServing(s, BASE_NAME, k, c.sessions[BASE_NAME][k], OK), k + 1)
  {
    hide Answer, Books, Shape, Kept, Reserves, Members, Distinct, BaseCovers;
    MembersGrow(c.sessions[BASE_NAME], k);
    AnswerKeeps(c.policy, s.st, s.answered.Keys, c.sessions[BASE_NAME][k]);
  }

  lemma StepBehind(p: Policy, s: System, k: nat, log: string)
    requires BaseCovers(p) && Shape(p, s.st) && Books(p, s.st, s.answered.Keys) && History(s)
    requires log in p[BASE_NAME].logs && log !in s.st.results && log !in s.answered
    requires Behind(s) || Reserves(p, s.answered.Keys, log)
    ensures Behind(AfterServing(s, BASE_NAME, k, log, OK))
  {
    hide Answer, Books, Shape, History, Reserves, BaseCovers, AllLogs;
    AnswerKeeps(p, s.st, s.answered.Keys, log);
    AnsweredKnown(p, s);
  }

  /** The logs of the base session answer one after the other; what is dumped at position `m` is never kept. */
  lemma {:induction false} ServeInOrder(c: Config, m: nat, k: nat) returns (es: seq<Event>)
    requires ValidConfig(c) && BaseCovers(c.policy) && Distinct(c.sessions[BASE_NAME])
    requires m < |c.sessions[BASE_NAME]| && k <= |c.sessions[BASE_NAME]| && k <= c.policy[BASE_NAME].min
    requires Reserves(c.policy, Members(c.sessions[BASE_NAME][..m]), c.sessions[BASE_NAME][m])
    ensures Possible(c, es) && ServedUpTo(c, Run(c, es), k)
    ensures k > m ==> Behind(Run(c, es))
  {
    hide Reserves, Run, Behind, ServedUpTo, Members, Distinct, Enabled, Next, Inv;
    if k == 0 {
      es := [];
      InitialServed(c);
    } else {
      var before := ServeInOrder(c, m, k - 1);
      es := ServeStep(c, before, k - 1);
    }
  }

  lemma InitialServed(c: Config)
    requires ValidConfig(c) && BASE_NAME in c.policy
    ensures Possible(c, []) && ServedUpTo(c, Run(c, []), 0)
  {
    hide Inv;
  }

  /** Fewer answers than the base group asks for cannot complete it. */
  lemma BaseStillShort(p: Policy, s: System, k: nat)
    requires BaseCovers(p) && Shape(p, s.st) && Books(p, s.st, s.answered.Keys) && History(s)
    requires |s.answered.Keys| == k < p[BASE_NAME].min
    ensures !Complete(s.st, BASE_NAME)
  {
    hide GroupByLogs, AllLogs;
    AnsweredKnown(p, s);
    SubsetCount(Kept(s.st.results).Keys, s.answered.Keys);
    FewKept(p, s.st, s.answered.Keys);
  }

  lemma FewKept(p: Policy, st: State, answered: set<string>)
    requires BaseCovers(p) && Shape(p, st) && Books(p, st, answered) && |Kept(st.results).Keys| < p[BASE_NAME].min
    ensures !Complete(st, BASE_NAME)
  {
    hide GroupByLogs, AllLogs, Kept;
    KeptInBase(p, st);
    assert |Kept(st.results)| == |Kept(st.results).Keys|;
  }

  // ---------------------------------------------------------------- the run ends

  /** Exactly the logs `xs` have answered, too few SCTs are kept, and `k` base goroutines are done. */
  ghost predicate Starving(c: Config, s: System, xs: set<string>, k: nat)
    requires BASE_NAME in c.sessions && k <= |c.sessions[BASE_NAME]|
  {
    && s.answered.Keys == xs && !Complete(s.st, BASE_NAME) && DoneUpTo(c, s, k)
    && s.st.results.Keys == Members(c.sessions[BASE_NAME][..k])
  }

  lemma FailStep(c: Config, es: seq<Event>, xs: set<string>, k: nat) returns (es': seq<Event>)
    requires ValidConfig(c) && BaseCovers(c.policy) && Distinct(c.sessions[BASE_NAME]) && Possible(c, es)
    requires k < |c.sessions[BASE_NAME]| && Starving(c, Run(c, es), xs, k)
    ensures Possible(c, es') && Starving(c, Run(c, es'), xs, k + 1)
  {
    hide Inv, Next, Enabled, Run, Possible, Threads, LogOf, Members, Distinct, Answer;
    var order := c.sessions[BASE_NAME];
    BaseLog(c, k);
    MembersGrow(order, k);
    es' := ServeOne(c, es, BASE_NAME, k, FAILED);
    FailedReply(c.policy, Run(c, es).st, order[k]);
  }

  /** All logs that are left fail. */
  lemma {:induction false} FailRest(c: Config, es: seq<Event>, xs: set<string>, k: nat) returns (es': seq<Event>)
    requires ValidConfig(c) && BaseCovers(c.policy) && Distinct(c.sessions[BASE_NAME]) && Possible(c, es)
    requires k <= |c.sessions[BASE_NAME]| && Starving(c, Run(c, es), xs, k)
    ensures Possible(c, es') && Starving(c, Run(c, es'), xs, |c.sessions[BASE_NAME]|)
    decreases |c.sessions[BASE_NAME]| - k
  {
    hide Inv, Next, Enabled, Run, Possible, Starving, Distinct;
    if k == |c.sessions[BASE_NAME]| {
      es' := es;
    } else {
      var es1 := FailStep(c, es, xs, k);
      es' := FailRest(c, es1, xs, k + 1);
    }
  }

  lemma BaseFinished(c: Config, s: System)
    requires ValidConfig(c) && BASE_NAME in c.policy && Inv(c, s) && DoneUpTo(c, s, |c.sessions[BASE_NAME]|)
    ensures AllFinished(s, BASE_NAME)
  {
    hide Books, Cancels, Cancellable, History, Reports, Shape;
    forall t | t in s.pcs && t.0 == BASE_NAME ensures s.pcs[t] == Finished {
      assert t in Threads(c);
      assert t == (BASE_NAME, t.1) && t.1 < |c.sessions[BASE_NAME]|;
    }
  }

  /** The races report, and GetSCTs returns. */
  lemma EndShort(c: Config, es: seq<Event>, xs: set<string>) returns (es': seq<Event>)
    requires ValidConfig(c) && BaseCovers(c.policy) && Possible(c, es) && Meets(c.policy, xs) && xs <= AllLogs(c.policy)
    requires Starving(c, Run(c, es), xs, |c.sessions[BASE_NAME]|)
    ensures Possible(c, es')
    ensures var s := Run(c, es');
            && s.answered.Keys == xs && !s.expired && !Complete(s.st, BASE_NAME)
            && s.outcome.Some? && s.outcome.value.failed == {BASE_NAME}
  {
    hide Books, Cancels, Cancellable, ThreadsInv, History, Reports, Shape, Run, Possible, Complete, Meets, AllFinished,
      AllLogs, GroupByLogs, Members;
    var s := Run(c, es);
    OthersComplete(c.policy, s.st, xs);
    BaseFinished(c, s);
    var es1 := TellAll(c, es, c.policy.Keys);
    Extend(c, es1, Return);
    es' := es1 + [Return];
  }

  lemma OthersComplete(p: Policy, st: State, answered: set<string>)
    requires BaseCovers(p) && Shape(p, st) && Books(p, st, answered) && answered <= AllLogs(p) && Meets(p, answered)
    ensures forall g :: g in p && g != BASE_NAME ==> Complete(st, g)
  {
    hide AllLogs, GroupByLogs, Meets, Books;
    OnlyBaseShort(p, st, answered);
    forall g | g in p && g != BASE_NAME ensures Complete(st, g) {
      assert g in Others(p);
    }
  }

  /** Drawn sessions; the base race asks the logs of `order` first. */
  lemma DrawWith(p: Policy, order: seq<string>) returns (c: Config)
    requires BASE_NAME in p && Distinct(order) && Members(order) <= p[BASE_NAME].logs
    ensures c.policy == p && Drawn(c) && order <= c.sessions[BASE_NAME]
  {
    var rest := Listing(p[BASE_NAME].logs - Members(order));
    var m := Listings(p, p.Keys);
    JoinListings(order, rest);
    c := Config(p, m[BASE_NAME := order + rest]);
  }

  /** The logs of `first`, then `l`, then the others. */
  lemma OrderOf(first: set<string>, l: string, xs: set<string>) returns (order: seq<string>)
    requires first <= xs && l in xs && l !in first
    ensures Distinct(order) && Members(order) == xs && |order| == |xs|
    ensures |first| < |order| && Members(order[..|first|]) == first && order[|first|] == l
  {
    hide Distinct, Members;
    var a := Listing(first);
    var b := Listing(xs - first - {l});
    OneListed(l);
    JoinListings([l], b);
    JoinListings(a, [l] + b);
    order := a + ([l] + b);
    assert xs == first + ({l} + (xs - first - {l}));
    assert order[..|order|] == order && order[..|a|] == a;
    MembersCount(order, |order|);
  }

  lemma OneListed(l: string)
    ensures Distinct([l]) && Members([l]) == {l}
  {
  }

  /** After the logs `xs`, the first of the base session, have answered, the base group is short. */
  lemma ServedStarves(c: Config, s: System, xs: set<string>, k: nat)
    requires ValidConfig(c) && BaseCovers(c.policy) && Inv(c, s) && k <= |c.sessions[BASE_NAME]|
    requires ServedUpTo(c, s, k) && Members(c.sessions[BASE_NAME][..k]) == xs
    requires |xs| == c.policy[BASE_NAME].min && Behind(s)
    ensures Starving(c, s, xs, k)
  {
    hide Books, Cancels, Cancellable, ThreadsInv, Reports, AllLogs, GroupByLogs, Complete, Kept, BaseCovers, Members;
    AnsweredKnown(c.policy, s);
    SubsetCount(Kept(s.st.results).Keys, xs);
    FewKept(c.policy, s.st, xs);
  }

  /** A run over drawn sessions, without a deadline, that ends with the base group blamed although the logs
      that answered with an SCT are enough for every group. */
  ghost predicate EndsShort(p: Policy, c: Config, es: seq<Event>) {
    && c.policy == p && Drawn(c) && ValidConfig(c) && Possible(c, es)
    && var s := Run(c, es);
       && Meets(p, s.answered.Keys) && !s.expired && !Complete(s.st, BASE_NAME)
       && s.outcome.Some? && s.outcome.value.failed == {BASE_NAME}
  }

  ghost predicate CanEndShort(p: Policy) {
    exists c: Config, es: seq<Event> :: EndsShort(p, c, es)
  }

  /** Every starving set of logs gives such a run, in which exactly these logs answer. */
  lemma StarvingRun(p: Policy, first: set<string>, l: string, xs: set<string>) returns (c: Config, es: seq<Event>)
    requires BaseCovers(p) && Starves(p, first, l, xs)
    ensures EndsShort(p, c, es) && Run(c, es).answered.Keys == xs
  {
    hide Inv, AllLogs, GroupByLogs, Reserves, Next, Enabled, Possible, Meets, Complete, Run, Distinct, Members,
      ServedUpTo, Starving, Behind;
    var order := OrderOf(first, l, xs);
    BaseIsAll(p);
    c := DrawWith(p, order);
    DrawnValid(c);
    var k := |order|;
    assert c.sessions[BASE_NAME][..k] == order && c.sessions[BASE_NAME][..|first|] == order[..|first|];
    var es1 := ServeInOrder(c, |first|, k);
    ServedStarves(c, Run(c, es1), xs, k);
    var es2 := FailRest(c, es1, xs, k);
    es := EndShort(c, es2, xs);
  }

  // ---------------------------------------------------------------- exactly when

  /** Enough answers complete every group in every run exactly when the policy is not starvable; and every
      starvable policy fails on sessions that the races do draw. */
  lemma CollectsExactly(p: Policy)
    requires BaseCovers(p)
    ensures AlwaysCollects(p) <==> !Starvable(p)
    ensures CanEndShort(p) <==> Starvable(p)
  {
    hide Starves, Possible, Run, ValidConfig, Meets, EndsShort;
    if Starvable(p) {
      var first, l, xs :| Starves(p, first, l, xs);
      var c, es := StarvingRun(p, first, l, xs);
      ShortIncomplete(p, c, es);
    } else {
      forall c: Config, es: seq<Event> |
        c.policy == p && ValidConfig(c) && Possible(c, es) && Meets(p, Run(c, es).answered.Keys)
        ensures AllComplete(p, Run(c, es).st)
      {
        if !AllComplete(p, Run(c, es).st) {
          FailingRunStarves(c, es);
        }
      }
      if CanEndShort(p) {
        var c, es :| EndsShort(p, c, es);
        ShortIncomplete(p, c, es);
      }
    }
  }

  lemma ShortIncomplete(p: Policy, c: Config, es: seq<Event>)
    requires BaseCovers(p) && EndsShort(p, c, es)
    ensures c.policy == p && ValidConfig(c) && Possible(c, es) && Meets(p, Run(c, es).answered.Keys)
    ensures !AllComplete(p, Run(c, es).st)
  {
    hide Complete, Meets, Run, Possible;
  }

  /** With reserved slots exactly the base group's minimum is kept then. */
  lemma CollectsExactlyEnough(c: Config, es: seq<Event>)
    requires ValidConfig(c) && Possible(c, es) && BaseCovers(c.policy) && Reserved(c.policy) && !Starvable(c.policy)
    requires Meets(c.policy, Run(c, es).answered.Keys)
    ensures AllComplete(c.policy, Run(c, es).st) && |Kept(Run(c, es).st.results)| == c.policy[BASE_NAME].min
  {
    hide Books, Cancels, Cancellable, ThreadsInv, Reports, Next, Possible, Enabled, Kept, Starvable, Meets, AllComplete,
      AllLogs, GroupByLogs;
    var s := Run(c, es);
    NeverOvercollects(c, es);
    if !AllComplete(c.policy, s.st) {
      FailingRunStarves(c, es);
    }
    AnsweredKnown(c.policy, s);
    OnlyBaseShort(c.policy, s.st, s.answered.Keys);
    assert |Kept(s.st.results)| == |Kept(s.st.results).Keys|;
  }
}
