/**
 The shared submission state as the mutable object of submission/races.go. Every method is one
 critical section of the mutex; its contract is the corresponding function of `Races`.
 */
module RaceState {
  import opened Options
  import opened Races

  class SubmissionState {
    var logToGroups: map<string, set<string>>
    var groupNeeds: map<string, int>
    var results: map<string, SubmissionResult>
    var cancels: set<string>
    ghost var cancelled: set<string>

    ghost function View(): State
      reads this
    {
      State(logToGroups, groupNeeds, results, cancels, cancelled)
    }

    constructor (p: Policy)
      ensures View() == Start(p)
    {
      logToGroups := GroupByLogs(p);
      groupNeeds := map g | g in p :: p[g].min;
      results := map[];
      cancels := {};
      cancelled := {};
    }

    method IsAwaited(groups: set<string>) returns (awaited: bool)
      ensures awaited <==> exists g :: g in groups && Need(groupNeeds, g) > 0
    {
      var rest := groups;
      while rest != {}
        invariant rest <= groups
        invariant forall g :: g in groups - rest ==> Need(groupNeeds, g) <= 0
        decreases rest
      {
        var g :| g in rest;
        if Need(groupNeeds, g) > 0 {
          return true;
        }
        rest := rest - {g};
      }
      return false;
    }

    method Request(log: string) returns (first: bool)
      modifies this
      ensures View() == Races.Request(old(View()), log).0
      ensures first == Races.Request(old(View()), log).1
    {
      if log in results {
        return false;
      }
      results := results[log := PENDING];
      var groups := if log in logToGroups then logToGroups[log] else {};
      var awaited := IsAwaited(groups);
      assert awaited <==> Awaited(View(), log);
      if !awaited {
        return false;
      }
      cancels := cancels + {log};
      return true;
    }

    /** The needs the reservation must leave slots for. */
    method OthersTotal() returns (total: int)
      ensures total == PositiveSum(groupNeeds, groupNeeds.Keys - {BASE_NAME})
    {
      total := 0;
      var rest := groupNeeds.Keys - {BASE_NAME};
      while rest != {}
        invariant rest <= groupNeeds.Keys - {BASE_NAME}
        invariant total + PositiveSum(groupNeeds, rest) == PositiveSum(groupNeeds, groupNeeds.Keys - {BASE_NAME})
        decreases rest
      {
        var g :| g in rest;
        PositiveSumSplit(groupNeeds, rest, g);
        if groupNeeds[g] > 0 {
          total := total + groupNeeds[g];
        }
        rest := rest - {g};
      }
    }

    /** The loop over the log's groups other than the base group. */
    method ServeOthers(log: string, r: SubmissionResult)
      modifies this`groupNeeds, this`results
      ensures var gs := GroupsOf(old(View()), log) - {BASE_NAME};
              && groupNeeds == Decremented(old(groupNeeds), gs)
              && results == if exists g :: g in gs && Need(old(groupNeeds), g) > 0
                            then old(results)[log := r] else old(results)
    {
      var gs := (if log in logToGroups then logToGroups[log] else {}) - {BASE_NAME};
      var rest := gs;
      assert groupNeeds == Decremented(old(groupNeeds), gs - rest);
      while rest != {}
        invariant rest <= gs
        invariant groupNeeds == Decremented(old(groupNeeds), gs - rest)
        invariant results == if exists g :: g in gs - rest && Need(old(groupNeeds), g) > 0
                             then old(results)[log := r] else old(results)
        decreases rest
      {
        var g :| g in rest;
        assert Need(groupNeeds, g) == Need(old(groupNeeds), g);
        ghost var done := gs - rest;
        if Need(groupNeeds, g) > 0 {
          results := results[log := r];
        }
        groupNeeds := groupNeeds[g := Need(groupNeeds, g) - 1];
        rest := rest - {g};
        assert gs - rest == done + {g};
      }
      assert gs - rest == gs;
    }

    /** Cancels the running requests of logs that no group awaits any more. */
    method CancelIdle()
      modifies this`cancels, this`cancelled
      ensures View() == Prune(old(View()))
    {
      var rest := logToGroups.Keys;
      while rest != {}
        invariant rest <= logToGroups.Keys
        invariant cancels == set l | l in old(cancels) && (l !in logToGroups.Keys - rest || Awaited(old(View()), l))
        invariant cancelled == old(cancelled) + (old(cancels) - cancels)
        decreases rest
      {
        var l :| l in rest;
        var awaited := IsAwaited(logToGroups[l]);
        assert awaited <==> Awaited(old(View()), l);
        if !awaited && l in cancels {
          cancelled := cancelled + {l};
          cancels := cancels - {l};
        }
        rest := rest - {l};
      }
    }

    /** Records an answer. The log must have been requested: the code dereferences its entry. */
    method SetResult(log: string, sct: Option<Sct>, err: Option<string>)
      requires log in results
      modifies this
      ensures View() == Answer(old(View()), log, SubmissionResult(sct, err))
    {
      var r := SubmissionResult(sct, err);
      if sct.None? {
        results := results[log := r];
        return;
      }
      ServeOthers(log, r);
      if log in logToGroups && BASE_NAME in logToGroups[log] {
        var base := Need(groupNeeds, BASE_NAME);
        if results[log].sct.Some? {
          groupNeeds := groupNeeds[BASE_NAME := base - 1];
        } else if base > 0 {
          var total := OthersTotal();
          if base > total {
            results := results[log := r];
            groupNeeds := groupNeeds[BASE_NAME := base - 1];
          }
        }
      }
      assert (groupNeeds, results) == Settle(old(View()), log, r);
      CancelIdle();
    }

    method GroupComplete(g: string) returns (complete: bool)
      ensures complete == Complete(View(), g)
    {
      if g !in groupNeeds {
        return true;
      }
      return groupNeeds[g] <= 0;
    }

    method CollectSCTs() returns (scts: map<string, Sct>)
      ensures scts == Kept(results)
    {
      scts := map[];
      var rest := results.Keys;
      while rest != {}
        invariant rest <= results.Keys
        invariant scts == map l | l in results.Keys - rest && results[l].sct.Some? :: results[l].sct.value
        decreases rest
      {
        var l :| l in rest;
        if results[l].sct.Some? {
          scts := scts[l := results[l].sct.value];
        }
        rest := rest - {l};
      }
    }
  }
}
