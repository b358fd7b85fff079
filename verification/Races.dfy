/**
 Submission state of a set of log groups: which SCTs are kept, how many each group still needs,
 which requests are running (submission/races.go). This module is the specification on values;
 `RaceState` is the mutable object and `RaceRuns` the concurrent system.
 */
module Races {
  import opened Options

  /** Name of the group that covers all logs. */
  const BASE_NAME := "All-logs"

  /** What the policy asks of one group: at least `min` SCTs from distinct members of `logs`. */
  datatype Requirement = Requirement(logs: set<string>, min: int)

  /** The groups of a policy by name. */
  type Policy = map<string, Requirement>

  datatype Sct = Sct(body: string)

  /** Outcome of one submission; both parts are absent while the submission is pending. */
  datatype SubmissionResult = SubmissionResult(sct: Option<Sct>, err: Option<string>)

  const PENDING := SubmissionResult(None, None)

  datatype State = State(
    toGroups: map<string, set<string>>,
    needs: map<string, int>,
    results: map<string, SubmissionResult>,
    cancels: set<string>,    // logs whose cancel function is still held
    cancelled: set<string>   // logs whose cancel function has been called
  )

  // ---------------------------------------------------------------- groups and needs

  function GroupsHolding(p: Policy, log: string): set<string> {
    set g | g in p && log in p[g].logs
  }

  function AllLogs(p: Policy): set<string> {
    set g, l | g in p && l in p[g].logs :: l
  }

  function GroupByLogs(p: Policy): map<string, set<string>> {
    map log | log in AllLogs(p) :: GroupsHolding(p, log)
  }

  /** A Go map read: the zero value when the key is absent. */
  function Need(needs: map<string, int>, g: string): int {
    if g in needs then needs[g] else 0
  }

  function GroupsOf(s: State, log: string): set<string> {
    if log in s.toGroups then s.toGroups[log] else {}
  }

  /** Some group that holds `log` still needs SCTs. */
  predicate Awaited(s: State, log: string) {
    exists g :: g in GroupsOf(s, log) && Need(s.needs, g) > 0
  }

  function Pos(n: int): nat {
    if n > 0 then n else 0
  }

  /** Total of the positive needs of `names`. */
  ghost function PositiveSum(needs: map<string, int>, names: set<string>): nat {
    if names == {} then 0
    else
      var g :| g in names;
      Pos(Need(needs, g)) + PositiveSum(needs, names - {g})
  }

  function Decremented(needs: map<string, int>, gs: set<string>): map<string, int> {
    map g | g in needs.Keys + gs :: if g in gs then Need(needs, g) - 1 else Need(needs, g)
  }

  // ---------------------------------------------------------------- the operations

  function Start(p: Policy): State {
    State(GroupByLogs(p), map g | g in p :: p[g].min, map[], {}, {})
  }

  /** request: marks the log as requested; true iff this caller is to submit to it. */
  function Request(s: State, log: string): (State, bool) {
    if log in s.results then (s, false)
    else
      var s1 := s.(results := s.results[log := PENDING]);
      if Awaited(s1, log) then (s1.(cancels := s1.cancels + {log}), true) else (s1, false)
  }

  /** The needs and results after a successful answer, before requests are cancelled. */
  ghost function Settle(s: State, log: string, r: SubmissionResult): (map<string, int>, map<string, SubmissionResult>)
    requires log in s.results
  {
    var gs := GroupsOf(s, log);
    var wanted := exists g :: g in gs - {BASE_NAME} && Need(s.needs, g) > 0;
    var needs := Decremented(s.needs, gs - {BASE_NAME});
    var results := if wanted then s.results[log := r] else s.results;
    var base := Need(needs, BASE_NAME);
    if BASE_NAME !in gs then (needs, results)
    else if results[log].sct.Some? then (needs[BASE_NAME := base - 1], results)
    else if base > 0 && base > PositiveSum(needs, needs.Keys - {BASE_NAME}) then
      (needs[BASE_NAME := base - 1], results[log := r])
    else (needs, results)
  }

  /** Calls and drops the cancel function of every log that no group awaits any more. */
  function Prune(s: State): State {
    var idle := set l | l in s.cancels && l in s.toGroups && !Awaited(s, l);
    s.(cancels := s.cancels - idle, cancelled := s.cancelled + idle)
  }

  /** setResult */
  ghost function Answer(s: State, log: string, r: SubmissionResult): State
    requires log in s.results
  {
    if r.sct.None? then s.(results := s.results[log := r])
    else
      var (needs, results) := Settle(s, log, r);
      Prune(s.(needs := needs, results := results))
  }

  predicate Complete(s: State, g: string) {
    g !in s.needs || s.needs[g] <= 0
  }

  /** collectSCTs */
  function Kept(results: map<string, SubmissionResult>): map<string, Sct> {
    map l | l in results && results[l].sct.Some? :: results[l].sct.value
  }

  // ---------------------------------------------------------------- sums of needs

  lemma PositiveSumSplit(needs: map<string, int>, names: set<string>, g: string)
    requires g in names
    ensures PositiveSum(needs, names) == Pos(Need(needs, g)) + PositiveSum(needs, names - {g})
    decreases names
  {
    var h :| h in names && PositiveSum(needs, names) == Pos(Need(needs, h)) + PositiveSum(needs, names - {h});
    if h != g {
      PositiveSumSplit(needs, names - {h}, g);
      PositiveSumSplit(needs, names - {g}, h);
      assert names - {h} - {g} == names - {g} - {h};
    }
  }

  /** Adding or removing names without a need does not change the total. */
  lemma PositiveSumSame(needs: map<string, int>, needs': map<string, int>, names: set<string>)
    requires forall g :: g in names ==> Need(needs, g) == Need(needs', g)
    ensures PositiveSum(needs, names) == PositiveSum(needs', names)
    decreases names
  {
    if names != {} {
      var g :| g in names;
      PositiveSumSplit(needs, names, g);
      PositiveSumSplit(needs', names, g);
      PositiveSumSame(needs, needs', names - {g});
    }
  }

  lemma PositiveSumZero(needs: map<string, int>, names: set<string>)
    ensures PositiveSum(needs, names) == 0 <==> forall g :: g in names ==> Need(needs, g) <= 0
    decreases names
  {
    if names != {} {
      var g :| g in names;
      PositiveSumSplit(needs, names, g);
      PositiveSumZero(needs, names - {g});
    }
  }

  function Hungry(needs: map<string, int>, gs: set<string>, names: set<string>): set<string> {
    set g | g in gs && g in names && Need(needs, g) > 0
  }

  /** Taking one from each group of `gs` lowers the total by the number of those that had a need. */
  lemma DecrementedSum(needs: map<string, int>, gs: set<string>, names: set<string>)
    ensures PositiveSum(Decremented(needs, gs), names) == PositiveSum(needs, names) - |Hungry(needs, gs, names)|
    decreases names
  {
    if names == {} {
      assert Hungry(needs, gs, names) == {};
    } else {
      var g :| g in names;
      PositiveSumSplit(needs, names, g);
      PositiveSumSplit(Decremented(needs, gs), names, g);
      DecrementedSum(needs, gs, names - {g});
      var rest := Hungry(needs, gs, names - {g});
      assert Hungry(needs, gs, names) == if g in gs && Need(needs, g) > 0 then rest + {g} else rest;
    }
  }
}
