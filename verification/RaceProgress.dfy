/**
 GetSCTs comes to an end: as long as it has not returned somebody can move, and there are only so many
 moves. So it returns in every run in which goroutines that can move do, and logs reply.
 */
module RaceProgress {
  import opened Options
  import opened Races
  import opened RaceRuns

  // ---------------------------------------------------------------- no deadlock

  /** Every report is waiting for GetSCTs or has been taken by it. */
  ghost predicate NothingLost(s: System) {
    forall g :: g in s.reported <==> g in s.inbox || g in s.received
  }

  lemma StepLosesNothing(c: Config, s: System, e: Event)
    requires ThreadsInv(c, s) && Enabled(c, s, e) && NothingLost(s)
    ensures NothingLost(Next(c, s, e))
  {
    hide ThreadsInv, Answer, Request, Complete, AllFinished;
  }

  lemma {:induction false} RunLosesNothing(c: Config, es: seq<Event>)
    requires ValidConfig(c) && Possible(c, es)
    ensures NothingLost(Run(c, es))
  {
    hide Next, Enabled, NothingLost, Books, Shape, History, Cancels, Cancellable, Reports, ThreadsInv;
    if es == [] {
      StartLosesNothing(c);
    } else {
      var before := es[..|es| - 1];
      RunLosesNothing(c, before);
      StepLosesNothing(c, Run(c, before), es[|es| - 1]);
    }
  }

  lemma StartLosesNothing(c: Config)
    ensures NothingLost(Initial(c))
  {
  }

  /** Some event other than a deadline can happen. */
  ghost predicate CanMove(c: Config, s: System) {
    exists e: Event :: !e.Deadline? && Enabled(c, s, e)
  }

  lemma ThreadMoves(c: Config, s: System, t: (string, nat))
    requires t in s.pcs && s.pcs[t] != Finished
    ensures CanMove(c, s)
  {
    var e := match s.pcs[t]
      case Checked => Ask(t.0, t.1)
      case InFlight => Reply(t.0, t.1, PENDING)
      case _ => Check(t.0, t.1);
    assert t == (t.0, t.1);
    assert Enabled(c, s, e);
  }

  /** Until GetSCTs has returned, a goroutine, a race or GetSCTs itself can move. */
  lemma NeverStuck(c: Config, es: seq<Event>)
    requires ValidConfig(c) && Possible(c, es) && Run(c, es).outcome.None?
    ensures CanMove(c, Run(c, es))
  {
    hide Inv, Run, Possible, CanMove, NothingLost;
    var s := Run(c, es);
    RunLosesNothing(c, es);
    if c.policy.Keys <= s.received {
      MovesBy(c, s, Return);
    } else {
      var g :| g in c.policy && g !in s.received;
      Reported(s, g);
      if g in s.inbox {
        MovesBy(c, s, Receive(g));
      } else if AllFinished(s, g) {
        MovesBy(c, s, Report(g));
      } else {
        var t :| t in s.pcs && t.0 == g && s.pcs[t] != Finished;
        ThreadMoves(c, s, t);
      }
    }
  }

  lemma Reported(s: System, g: string)
    requires NothingLost(s)
    ensures g in s.reported <==> g in s.inbox || g in s.received
  {
  }

  lemma MovesBy(c: Config, s: System, e: Event)
    requires !e.Deadline? && Enabled(c, s, e)
    ensures CanMove(c, s)
  {
  }

  // ---------------------------------------------------------------- finitely many moves

  function Rank(pc: Pc): nat {
    match pc
    case Waiting => 3
    case Checked => 2
    case InFlight => 1
    case Finished => 0
  }

  ghost function Ranks(pcs: map<(string, nat), Pc>, ts: set<(string, nat)>): (n: nat)
    requires ts <= pcs.Keys
  {
    if ts == {} then 0
    else
      var t :| t in ts;
      Rank(pcs[t]) + Ranks(pcs, ts - {t})
  }

  lemma RanksSplit(pcs: map<(string, nat), Pc>, ts: set<(string, nat)>, t: (string, nat))
    requires ts <= pcs.Keys && t in ts
    ensures Ranks(pcs, ts) == Rank(pcs[t]) + Ranks(pcs, ts - {t})
    decreases ts
  {
    hide Rank;
    var u :| u in ts && Ranks(pcs, ts) == Rank(pcs[u]) + Ranks(pcs, ts - {u});
    if u != t {
      RanksSplit(pcs, ts - {u}, t);
      RanksSplit(pcs, ts - {t}, u);
      assert ts - {u} - {t} == ts - {t} - {u};
    }
  }

  lemma {:induction false} RanksSame(pcs: map<(string, nat), Pc>, pcs': map<(string, nat), Pc>, ts: set<(string, nat)>)
    requires ts <= pcs.Keys && ts <= pcs'.Keys && forall t :: t in ts ==> pcs[t] == pcs'[t]
    ensures Ranks(pcs, ts) == Ranks(pcs', ts)
    decreases ts
  {
    hide Rank;
    if ts != {} {
      var t :| t in ts;
      RanksSplit(pcs, ts, t);
      RanksSplit(pcs', ts, t);
      RanksSame(pcs, pcs', ts - {t});
    }
  }

  lemma RanksUpdate(pcs: map<(string, nat), Pc>, t: (string, nat), pc: Pc)
    requires t in pcs
    ensures Ranks(pcs[t := pc], pcs.Keys) == Ranks(pcs, pcs.Keys) - Rank(pcs[t]) + Rank(pc)
    ensures pcs[t := pc].Keys == pcs.Keys
  {
    hide Rank, Ranks;
    RanksSplit(pcs, pcs.Keys, t);
    RanksSplit(pcs[t := pc], pcs.Keys, t);
    RanksSame(pcs, pcs[t := pc], pcs.Keys - {t});
  }

  lemma {:induction false} RanksBound(pcs: map<(string, nat), Pc>, ts: set<(string, nat)>)
    requires ts <= pcs.Keys
    ensures Ranks(pcs, ts) <= 3 * |ts|
    decreases ts
  {
    if ts != {} {
      var t :| t in ts;
      RanksSplit(pcs, ts, t);
      RanksBound(pcs, ts - {t});
    }
  }

  /** Moves that are left: up to three for a goroutine, a report and its receipt for a race, and the return. */
  ghost function Left(c: Config, s: System): (n: nat) {
    Ranks(s.pcs, s.pcs.Keys) + 2 * |c.policy.Keys - s.reported| + |s.inbox| + if s.outcome.None? then 1 else 0
  }

  lemma Smaller(a: set<string>, g: string, reported: set<string>)
    requires g in a && g !in reported
    ensures |a - (reported + {g})| == |a - reported| - 1
  {
    assert a - reported == (a - (reported + {g})) + {g};
  }

  lemma InboxGrows(inbox: map<string, bool>, g: string, b: bool)
    ensures |inbox[g := b]| <= |inbox| + 1
  {
    assert inbox[g := b].Keys == inbox.Keys + {g};
    assert |inbox[g := b]| == |inbox[g := b].Keys| && |inbox| == |inbox.Keys|;
  }

  lemma InboxShrinks(inbox: map<string, bool>, g: string)
    requires g in inbox
    ensures |inbox - {g}| == |inbox| - 1
  {
    assert (inbox - {g}).Keys == inbox.Keys - {g};
    assert |inbox - {g}| == |(inbox - {g}).Keys| && |inbox| == |inbox.Keys|;
  }

  /** A goroutine moves on and nothing else that counts changes. */
  lemma ThreadLeft(c: Config, s: System, s': System, t: (string, nat), pc: Pc)
    requires t in s.pcs && s'.pcs == s.pcs[t := pc] && Rank(pc) < Rank(s.pcs[t])
    requires s'.reported == s.reported && s'.inbox == s.inbox && s'.outcome == s.outcome
    ensures Left(c, s') < Left(c, s)
  {
    hide Ranks, Rank;
    RanksUpdate(s.pcs, t, pc);
  }

  lemma ThreadStep(c: Config, s: System, e: Event) returns (t: (string, nat), pc: Pc)
    requires ThreadsInv(c, s) && Enabled(c, s, e) && (e.Expire? || e.Check? || e.Ask? || e.Reply?)
    ensures var s' := Next(c, s, e);
            && t in s.pcs && s'.pcs == s.pcs[t := pc] && Rank(pc) < Rank(s.pcs[t])
            && s'.reported == s.reported && s'.inbox == s.inbox && s'.outcome == s.outcome
  {
    hide ThreadsInv, Answer, Request, Complete, AllFinished;
    t := (e.g, e.i);
    pc := Next(c, s, e).pcs[t];
  }

  lemma StepLeft(c: Config, s: System, e: Event)
    requires ThreadsInv(c, s) && Enabled(c, s, e)
    ensures Left(c, Next(c, s, e)) + (if e.Deadline? then 0 else 1) <= Left(c, s)
  {
    hide ThreadsInv, Answer, Request, Complete, AllFinished, Ranks, Rank;
    var s' := Next(c, s, e);
    match e
    case Report(g) =>
      Smaller(c.policy.Keys, g, s.reported);
      InboxGrows(s.inbox, g, s'.inbox[g]);
    case Receive(g) => InboxShrinks(s.inbox, g);
    case Return =>
    case Deadline =>
    case _ =>
      var t, pc := ThreadStep(c, s, e);
      ThreadLeft(c, s, s', t, pc);
  }

  /** The events of a run that are not deadlines. */
  function Moves(es: seq<Event>): (n: nat) {
    if es == [] then 0 else Moves(es[..|es| - 1]) + if es[|es| - 1].Deadline? then 0 else 1
  }

  lemma {:induction false} MovesLeft(c: Config, es: seq<Event>)
    requires ValidConfig(c) && Possible(c, es)
    ensures Moves(es) + Left(c, Run(c, es)) <= Left(c, Initial(c))
  {
    hide Next, Enabled, Left, Books, Shape, History, Cancels, Cancellable, Reports, ThreadsInv;
    if es != [] {
      var before := es[..|es| - 1];
      MovesLeft(c, before);
      StepLeft(c, Run(c, before), es[|es| - 1]);
    }
  }

  /** Every run has at most three moves for each goroutine, two for each race and one more; and until
      GetSCTs has returned another is possible. */
  lemma AlwaysReturns(c: Config, es: seq<Event>)
    requires ValidConfig(c) && Possible(c, es)
    ensures Moves(es) <= 3 * |Threads(c)| + 2 * |c.policy| + 1
    ensures Run(c, es).outcome.None? ==> CanMove(c, Run(c, es))
  {
    hide Inv, Run, Possible, Moves, CanMove, Ranks;
    MovesLeft(c, es);
    var s := Initial(c);
    RanksBound(s.pcs, s.pcs.Keys);
    assert s.pcs.Keys == Threads(c);
    assert c.policy.Keys - {} == c.policy.Keys && |c.policy| == |c.policy.Keys|;
    if Run(c, es).outcome.None? {
      NeverStuck(c, es);
    }
  }
}
