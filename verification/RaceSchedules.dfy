/**
 Building runs of GetSCTs step by step: sessions as the races draw them, a goroutine that runs from its
 start to its end, and the reports of the races.
 */
module RaceSchedules {
  import opened Options
  import opened Races
  import opened RaceRuns

  // ---------------------------------------------------------------- sessions

  ghost predicate Distinct(order: seq<string>) {
    forall i, j :: 0 <= i < j < |order| ==> order[i] != order[j]
  }

  ghost function Members(order: seq<string>): set<string> {
    set l | l in order
  }

  /** Every race drew all logs of its group, each once, as `GetSubmissionSession` of `Policies` does when no
      weight is zero. */
  ghost predicate Drawn(c: Config) {
    && c.sessions.Keys == c.policy.Keys
    && forall g :: g in c.policy ==> Distinct(c.sessions[g]) && Members(c.sessions[g]) == c.policy[g].logs
  }

  lemma DrawnValid(c: Config)
    requires Drawn(c)
    ensures ValidConfig(c)
  {
    forall g, i | g in c.sessions && 0 <= i < |c.sessions[g]| ensures c.sessions[g][i] in c.policy[g].logs {
      assert c.sessions[g][i] in Members(c.sessions[g]);
    }
  }

  lemma SubsetCount(a: set<string>, b: set<string>)
    requires a <= b
    ensures |a| <= |b| && (|a| == |b| ==> a == b)
  {
    assert b == a + (b - a);
  }

  lemma MembersGrow(order: seq<string>, k: nat)
    requires k < |order| && Distinct(order)
    ensures Members(order[..k + 1]) == Members(order[..k]) + {order[k]} && order[k] !in Members(order[..k])
  {
    assert order[..k + 1] == order[..k] + [order[k]];
  }

  lemma {:induction false} MembersCount(order: seq<string>, k: nat)
    requires k <= |order| && Distinct(order)
    ensures |Members(order[..k])| == k
  {
    if k > 0 {
      MembersCount(order, k - 1);
      MembersGrow(order, k - 1);
    }
  }

  lemma IndexIn(order: seq<string>, l: string) returns (i: nat)
    requires l in Members(order)
    ensures i < |order| && order[i] == l
  {
    i :| 0 <= i < |order| && order[i] == l;
  }

  lemma {:induction false} Listing(xs: set<string>) returns (order: seq<string>)
    ensures Distinct(order) && Members(order) == xs && |order| == |xs|
  {
    if xs == {} {
      order := [];
    } else {
      var l :| l in xs;
      var rest := Listing(xs - {l});
      order := [l] + rest;
      assert Members(order) == {l} + Members(rest);
    }
  }

  lemma JoinListings(a: seq<string>, b: seq<string>)
    requires Distinct(a) && Distinct(b) && Members(a) !! Members(b)
    ensures Distinct(a + b) && Members(a + b) == Members(a) + Members(b)
  {
    var order := a + b;
    forall i, j | 0 <= i < j < |order| ensures order[i] != order[j] {
      assert i < |a| ==> order[i] in Members(a);
      assert j < |a| ==> order[j] in Members(a);
      assert i >= |a| ==> order[i] in Members(b);
      assert j >= |a| ==> order[j] in Members(b);
    }
  }

  lemma {:induction false} Listings(p: Policy, gs: set<string>) returns (m: map<string, seq<string>>)
    requires gs <= p.Keys
    ensures m.Keys == gs && forall g :: g in gs ==> Distinct(m[g]) && Members(m[g]) == p[g].logs
    decreases gs
  {
    if gs == {} {
      m := map[];
    } else {
      var g :| g in gs;
      var rest := Listings(p, gs - {g});
      var order := Listing(p[g].logs);
      m := rest[g := order];
    }
  }

  lemma InGroup(c: Config, g: string, i: nat)
    requires ValidConfig(c) && (g, i) in Threads(c)
    ensures g in c.policy && LogOf(c, g, i) in c.policy[g].logs
  {
  }

  // ---------------------------------------------------------------- single steps

  lemma Extend(c: Config, es: seq<Event>, e: Event)
    requires ValidConfig(c) && Possible(c, es) && Enabled(c, Run(c, es), e)
    ensures Possible(c, es + [e]) && Run(c, es + [e]) == Next(c, Run(c, es), e)
  {
    hide Next, Enabled, Inv;
    assert (es + [e])[..|es + [e]| - 1] == es;
  }

  lemma StartRun(c: Config)
    requires ValidConfig(c)
    ensures Possible(c, []) && Run(c, []) == Initial(c)
  {
  }

  const OK := SubmissionResult(Some(Sct("")), None)
  const FAILED := SubmissionResult(None, Some(""))

  ghost function RequestOf(st: State, log: string): (st': State)
    ensures log in st'.results
  {
    st.(results := st.results[log := PENDING], cancels := st.cancels + {log})
  }

  /** A group that still has a need makes the requests of its logs wanted. */
  lemma Wanted(p: Policy, st: State, g: string, log: string)
    requires Shape(p, st) && g in p && log in p[g].logs && !Complete(st, g) && log !in st.results
    ensures Races.Request(st, log) == (RequestOf(st, log), true)
  {
    var st1 := st.(results := st.results[log := PENDING]);
    GroupsOfShape(p, st1, log);
    assert g in GroupsOf(st1, log) && Need(st1.needs, g) > 0;
  }

  lemma TakenAlready(st: State, l: string)
    requires l in st.results
    ensures Races.Request(st, l) == (st, false)
  {
  }

  /** The log has been requested. */
  ghost function AfterAsking(s: System, g: string, i: nat, log: string): System {
    s.(st := RequestOf(s.st, log), pcs := s.pcs[(g, i) := InFlight], submitted := s.submitted + [log])
  }

  /** The log has been requested and has replied. */
  ghost function AfterServing(s: System, g: string, i: nat, log: string, r: SubmissionResult): System {
    s.(st := Answer(RequestOf(s.st, log), log, r), pcs := s.pcs[(g, i) := Finished],
       submitted := s.submitted + [log],
       answered := if r.sct.Some? then s.answered[log := r.sct.value] else s.answered)
  }

  /** A goroutine that finds its group incomplete and its log not yet requested sends the request. */
  lemma AskOne(c: Config, es: seq<Event>, g: string, i: nat) returns (es': seq<Event>)
    requires ValidConfig(c) && Possible(c, es) && (g, i) in Threads(c)
    requires var s := Run(c, es);
             (g, i) in s.pcs && s.pcs[(g, i)] == Waiting && !Complete(s.st, g) && LogOf(c, g, i) !in s.st.results
    ensures Possible(c, es') && Run(c, es') == AfterAsking(Run(c, es), g, i, LogOf(c, g, i))
  {
    hide Books, Cancels, Cancellable, ThreadsInv, History, Reports, GroupByLogs, AllLogs, Run, Possible, Request;
    var s := Run(c, es);
    InGroup(c, g, i);
    Wanted(c.policy, s.st, g, LogOf(c, g, i));
    Extend(c, es, Check(g, i));
    var es1 := es + [Check(g, i)];
    Extend(c, es1, Ask(g, i));
    es' := es1 + [Ask(g, i)];
    assert s.pcs[(g, i) := Checked][(g, i) := InFlight] == s.pcs[(g, i) := InFlight];
  }

  /** It then gets a reply. */
  lemma ServeOne(c: Config, es: seq<Event>, g: string, i: nat, r: SubmissionResult) returns (es': seq<Event>)
    requires ValidConfig(c) && Possible(c, es) && (g, i) in Threads(c)
    requires var s := Run(c, es);
             (g, i) in s.pcs && s.pcs[(g, i)] == Waiting && !Complete(s.st, g) && LogOf(c, g, i) !in s.st.results
    ensures Possible(c, es') && Run(c, es') == AfterServing(Run(c, es), g, i, LogOf(c, g, i), r)
  {
    hide Books, Cancels, Cancellable, ThreadsInv, History, Reports, Answer, GroupByLogs, AllLogs, Run, Possible;
    var es1 := AskOne(c, es, g, i);
    Extend(c, es1, Reply(g, i, r));
    es' := es1 + [Reply(g, i, r)];
    assert Run(c, es).pcs[(g, i) := InFlight][(g, i) := Finished] == Run(c, es).pcs[(g, i) := Finished];
  }

  /** A goroutine whose log another race has asked before is done. */
  lemma SkipOne(c: Config, es: seq<Event>, g: string, i: nat) returns (es': seq<Event>)
    requires ValidConfig(c) && Possible(c, es) && (g, i) in Threads(c)
    requires var s := Run(c, es); (g, i) in s.pcs && s.pcs[(g, i)] == Waiting && LogOf(c, g, i) in s.st.results
    ensures Possible(c, es') && Run(c, es') == Run(c, es).(pcs := Run(c, es).pcs[(g, i) := Finished])
  {
    hide Books, Cancels, Cancellable, ThreadsInv, History, Reports, Shape, Answer, Run, Possible, Request, Complete;
    var s := Run(c, es);
    Extend(c, es, Check(g, i));
    es' := es + [Check(g, i)];
    if !Complete(s.st, g) {
      TakenAlready(s.st, LogOf(c, g, i));
      Extend(c, es', Ask(g, i));
      es' := es' + [Ask(g, i)];
      assert s.pcs[(g, i) := Checked][(g, i) := Finished] == s.pcs[(g, i) := Finished];
    }
  }

  /** A failed reply changes nothing but the result of its log. */
  lemma FailedReply(p: Policy, st: State, log: string)
    requires log !in st.results
    ensures var st' := Answer(RequestOf(st, log), log, FAILED);
            && st' == RequestOf(st, log).(results := st.results[log := FAILED])
            && Kept(st'.results) == Kept(st.results) && st'.results.Keys == st.results.Keys + {log}
  {
    hide Settle, Prune;
  }

  // ---------------------------------------------------------------- reports

  /** Only reports have been made and taken. */
  ghost predicate Told(s: System, s': System) {
    s'.st == s.st && s'.pcs == s.pcs && s'.answered == s.answered && s'.expired == s.expired && s'.outcome == s.outcome
  }

  /** A race that is done, or whose group is complete, reports, and GetSCTs hears it. */
  lemma TellOne(c: Config, es: seq<Event>, g: string) returns (es': seq<Event>)
    requires ValidConfig(c) && Possible(c, es) && g in c.policy
    requires var s := Run(c, es); g !in s.reported && s.outcome.None? && (Complete(s.st, g) || AllFinished(s, g))
    ensures Possible(c, es')
    ensures var s, s' := Run(c, es), Run(c, es');
            && Told(s, s') && s'.received == s.received + {g} && s'.reported == s.reported + {g}
            && s'.complete == s.complete[g := Complete(s.st, g)] && s'.inbox == s.inbox - {g}
  {
    hide Books, Cancels, Cancellable, ThreadsInv, History, Reports, Shape, Run, Possible, Complete;
    Extend(c, es, Report(g));
    var es1 := es + [Report(g)];
    Extend(c, es1, Receive(g));
    es' := es1 + [Receive(g)];
  }

  lemma {:induction false} TellAll(c: Config, es: seq<Event>, gs: set<string>) returns (es': seq<Event>)
    requires ValidConfig(c) && Possible(c, es) && gs <= c.policy.Keys && gs !! Run(c, es).reported
    requires Run(c, es).outcome.None?
    requires forall g :: g in gs ==> Complete(Run(c, es).st, g) || AllFinished(Run(c, es), g)
    ensures Possible(c, es')
    ensures var s, s' := Run(c, es), Run(c, es');
            && Told(s, s') && s'.received == s.received + gs && s'.complete.Keys == s.complete.Keys + gs
            && forall g :: g in s'.complete ==> s'.complete[g] == if g in gs then Complete(s.st, g) else s.complete[g]
    decreases gs
  {
    hide Inv, Next, Enabled, Run, Possible, Complete;
    if gs == {} {
      es' := es;
    } else {
      var g :| g in gs;
      var es1 := TellOne(c, es, g);
      es' := TellAll(c, es1, gs - {g});
    }
  }
}
