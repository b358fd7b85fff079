/**
 Log groups, their weights and submission sessions, and the Chrome grouping (ctpolicy). Weights are
 real numbers here and each random draw is a parameter in [0, 1).
 */
module Policies {
  import opened Options
  import opened Races
  import opened RaceRuns
  import opened RaceTheorems
  import opened RaceStarvation
  import opened RaceFamilies

  datatype Operator = Operator(emails: seq<string>, logs: seq<string>)

  const GOOGLE_MARK := "google-ct-logs@googlegroups"
  const GOOGLE_NAME := "Google-operated"
  const NON_GOOGLE_NAME := "Non-Google-operated"

  // ---------------------------------------------------------------- sums of weights

  ghost function WeightSum(weights: map<string, real>, names: set<string>): real
    requires names <= weights.Keys
  {
    if names == {} then 0.0
    else
      var l :| l in names;
      weights[l] + WeightSum(weights, names - {l})
  }

  lemma WeightSumSplit(weights: map<string, real>, names: set<string>, l: string)
    requires names <= weights.Keys && l in names
    ensures WeightSum(weights, names) == weights[l] + WeightSum(weights, names - {l})
    decreases names
  {
    var h :| h in names && WeightSum(weights, names) == weights[h] + WeightSum(weights, names - {h});
    if h != l {
      WeightSumSplit(weights, names - {h}, l);
      WeightSumSplit(weights, names - {l}, h);
      assert names - {h} - {l} == names - {l} - {h};
    }
  }

  predicate NonNegative(weights: map<string, real>) {
    forall l :: l in weights ==> weights[l] >= 0.0
  }

  function Positive(weights: map<string, real>): set<string> {
    set l | l in weights && weights[l] > 0.0
  }

  lemma WeightSumPositive(weights: map<string, real>, names: set<string>)
    requires names <= weights.Keys && NonNegative(weights)
    ensures WeightSum(weights, names) >= 0.0
    ensures WeightSum(weights, names) == 0.0 <==> names * Positive(weights) == {}
    decreases names
  {
    if names != {} {
      var l :| l in names;
      WeightSumSplit(weights, names, l);
      WeightSumPositive(weights, names - {l});
      if weights[l] > 0.0 {
        assert l in names * Positive(weights);
      } else {
        assert names * Positive(weights) == (names - {l}) * Positive(weights);
      }
    }
  }

  /** Sums the weights; None when one is negative. */
  method TotalWeight(weights: map<string, real>) returns (total: Option<real>)
    ensures total.Some? <==> NonNegative(weights)
    ensures total.Some? ==> total.value == WeightSum(weights, weights.Keys)
  {
    var sum := 0.0;
    var rest := weights.Keys;
    while rest != {}
      invariant rest <= weights.Keys
      invariant forall l :: l in weights.Keys - rest ==> weights[l] >= 0.0
      invariant sum + WeightSum(weights, rest) == WeightSum(weights, weights.Keys)
      decreases rest
    {
      var l :| l in rest;
      WeightSumSplit(weights, rest, l);
      if weights[l] < 0.0 {
        return None;
      }
      sum := sum + weights[l];
      rest := rest - {l};
    }
    return Some(sum);
  }

  function Scaled(draw: real, total: real): (r: real)
    requires 0.0 <= draw < 1.0 && total >= 0.0
    ensures 0.0 <= r
    ensures if total > 0.0 then r < total else r == 0.0
  {
    ScaledBelow(draw, total);
    draw * total
  }

  lemma ScaledBelow(draw: real, total: real)
    requires 0.0 <= draw < 1.0 && total >= 0.0
    ensures 0.0 <= draw * total && (total > 0.0 ==> draw * total < total)
  {
    if total > 0.0 {
      assert (1.0 - draw) * total > 0.0;
      assert (1.0 - draw) * total == total - draw * total;
    }
  }

  /** Whatever the draw and the iteration order, an item is picked iff some weight is positive and
      none is negative, and the item picked has a positive weight. It is the item on whose stretch of the
      total the draw falls, when the weights of the items walked `before` it are laid down first. */
  method WeightedRandomSample(weights: map<string, real>, draw: real)
    returns (item: Option<string>, ghost before: set<string>)
    requires 0.0 <= draw < 1.0
    ensures item.Some? <==> NonNegative(weights) && Positive(weights) != {}
    ensures item.Some? ==> item.value in Positive(weights)
    ensures item.Some? ==>
              && before <= weights.Keys && item.value !in before
              && var from := WeightSum(weights, before);
                 from <= draw * WeightSum(weights, weights.Keys) < from + weights[item.value]
  {
    before := {};
    var total := TotalWeight(weights);
    if total.None? {
      return None, before;
    }
    WeightSumPositive(weights, weights.Keys);
    assert weights.Keys * Positive(weights) == Positive(weights);
    var r := Scaled(draw, total.value);
    var rest := weights.Keys;
    while rest != {}
      invariant rest <= weights.Keys && before == weights.Keys - rest
      invariant r == draw * WeightSum(weights, weights.Keys) - WeightSum(weights, before)
      invariant Positive(weights) == {} ==> r == 0.0
      invariant Positive(weights) != {} ==> 0.0 <= r < WeightSum(weights, rest)
      decreases rest
    {
      var l :| l in rest;
      WeightSumSplit(weights, rest, l);
      WeightSumSplit(weights, before + {l}, l);
      assert before + {l} - {l} == before;
      rest := rest - {l};
      if weights[l] == 0.0 {
        before := before + {l};
        continue;
      }
      assert l in Positive(weights);
      r := r - weights[l];
      if r < 0.0 {
        return Some(l), before;
      }
      before := before + {l};
    }
    return None, before;
  }

  // ---------------------------------------------------------------- log groups

  class LogGroupInfo {
    const name: string
    const isBase: bool
    var logURLs: set<string>
    var minInclusions: int
    var logWeights: map<string, real>

    ghost function View(): Requirement
      reads this
    {
      Requirement(logURLs, minInclusions)
    }

    /** Weights are those of the members, none negative. */
    ghost predicate Weighted()
      reads this
    {
      logWeights.Keys == logURLs && NonNegative(logWeights)
    }

    /** Moreover enough weights are positive for the minimum. */
    ghost predicate Valid()
      reads this
    {
      Weighted() && |Positive(logWeights)| >= minInclusions
    }

    constructor (name: string, isBase: bool)
      ensures this.name == name && this.isBase == isBase
      ensures logURLs == {} && minInclusions == 0 && logWeights == map[]
    {
      this.name := name;
      this.isBase := isBase;
      logURLs := {};
      minInclusions := 0;
      logWeights := map[];
    }

    /** The number is assigned even when the group is too small for it, but not when negative. */
    method SetMinInclusions(i: int) returns (ok: bool)
      modifies this`minInclusions
      ensures ok <==> 0 <= i <= |logURLs|
      ensures minInclusions == if i < 0 then old(minInclusions) else i
      ensures ok && logWeights.Keys == logURLs && Positive(logWeights) == logURLs && NonNegative(logWeights) ==> Valid()
    {
      if i < 0 {
        return false;
      }
      minInclusions := i;
      return i <= |logURLs|;
    }

    method AddLogs(logs: seq<string>)
      requires AllOnes()
      modifies this`logURLs, this`logWeights
      ensures AllOnes() && logURLs == old(logURLs) + set l | l in logs
    {
      for j := 0 to |logs|
        invariant AllOnes() && logURLs == old(logURLs) + set l | l in logs[..j]
      {
        assert logs[..j + 1] == logs[..j] + [logs[j]];
        logURLs := logURLs + {logs[j]};
        logWeights := logWeights[logs[j] := 1.0];
      }
      assert logs[..|logs|] == logs;
    }

    ghost predicate AllOnes()
      reads this`logURLs, this`logWeights
    {
      logWeights.Keys == logURLs && forall l :: l in logWeights ==> logWeights[l] == 1.0
    }

    /** Makes the logs of the included operators the members, each with weight 1. */
    method Populate(operators: seq<Operator>, included: Operator -> bool)
      modifies this`logURLs, this`logWeights
      ensures logURLs == LogsOf(operators, included)
      ensures AllOnes() && Positive(logWeights) == logURLs
    {
      logURLs := {};
      logWeights := map[];
      for i := 0 to |operators|
        invariant AllOnes() && logURLs == LogsOf(operators[..i], included)
      {
        LogsOfSnoc(operators, i, included);
        if included(operators[i]) {
          AddLogs(operators[i].logs);
        }
      }
      assert operators[..|operators|] == operators;
    }

    /** True iff enough members have a positive weight; at least one is demanded even when the
        minimum is zero, because the count is compared only after it has been raised. */
    method SatisfyMinimalInclusion(weights: map<string, real>) returns (ok: bool)
      ensures ok <==> |Positive(weights) * logURLs| >= AtLeastOne(minInclusions)
    {
      var n := 0;
      var rest := weights.Keys;
      ghost var all := Positive(weights) * logURLs;
      while rest != {}
        invariant rest <= weights.Keys
        invariant n == |all - rest|
        invariant n > 0 ==> n < minInclusions
        decreases rest
      {
        var l :| l in rest;
        RemovedCard(all, rest, l);
        rest := rest - {l};
        if l in logURLs && weights[l] > 0.0 {
          n := n + 1;
          if n >= minInclusions {
            SubsetCard(all - rest, all);
            return true;
          }
        }
      }
      assert all - rest == all;
      return false;
    }

    /** Replaces all weights, or changes nothing and reports an error. */
    method SetLogWeights(weights: map<string, real>) returns (ok: bool)
      requires Weighted()
      modifies this`logWeights
      ensures Weighted() && (ok || old(Valid()) ==> Valid())
      ensures ok <==> NonNegative(weights) && |Positive(weights) * logURLs| >= AtLeastOne(minInclusions)
      ensures logWeights == if ok then map l | l in logURLs :: if l in weights then weights[l] else 0.0
                            else old(logWeights)
    {
      var total := TotalWeight(weights);
      if total.None? {
        return false;
      }
      var enough := SatisfyMinimalInclusion(weights);
      if !enough {
        return false;
      }
      logWeights := map l | l in logURLs :: 0.0;
      var rest := weights.Keys;
      while rest != {}
        invariant rest <= weights.Keys
        invariant logWeights == map l | l in logURLs :: if l in weights.Keys - rest then weights[l] else 0.0
        decreases rest
      {
        var l :| l in rest;
        if l in logURLs {
          logWeights := logWeights[l := weights[l]];
        }
        rest := rest - {l};
      }
      assert Positive(logWeights) == Positive(weights) * logURLs;
      return true;
    }

    /** Changes the weight of one member, or changes nothing and reports an error. */
    method SetLogWeight(log: string, w: real) returns (ok: bool)
      requires Weighted()
      modifies this`logWeights
      ensures Weighted() && (ok || old(Valid()) ==> Valid())
      ensures ok <==> && log in logURLs && w >= 0.0
                      && |Positive(old(logWeights)[log := w])| >= AtLeastOne(minInclusions)
      ensures logWeights == if ok then old(logWeights)[log := w] else old(logWeights)
    {
      if log !in logURLs || w < 0.0 {
        return false;
      }
      var newWeights := logWeights[log := w];
      assert Positive(newWeights) * logURLs == Positive(newWeights);
      var enough := SatisfyMinimalInclusion(newWeights);
      if !enough {
        return false;
      }
      logWeights := newWeights;
      return true;
    }

    /** Whatever the draws, the session lists each member of positive weight exactly once. */
    method GetSubmissionSession(draws: seq<real>) returns (session: seq<string>)
      requires Weighted()
      requires |draws| >= |logURLs| && forall i :: 0 <= i < |draws| ==> 0.0 <= draws[i] < 1.0
      ensures forall i, j :: 0 <= i < j < |session| ==> session[i] != session[j]
      ensures (set l | l in session) == Positive(logWeights)
    {
      session := [];
      if logURLs == {} {
        return;
      }
      var left := logWeights;
      for i := 0 to |logURLs|
        invariant |session| == i
        invariant forall i, j :: 0 <= i < j < |session| ==> session[i] != session[j]
        invariant forall l :: l in session ==> l in Positive(logWeights)
        invariant left == map l | l in logWeights && l !in session :: logWeights[l]
      {
        var item, _ := WeightedRandomSample(left, draws[i]);
        assert Positive(left) == set l | l in Positive(logWeights) && l !in session;
        if item.None? {
          assert NonNegative(left);
          forall l | l in Positive(logWeights) ensures l in session {
            assert l !in Positive(left);
          }
          return;
        }
        session := session + [item.value];
        left := left - {item.value};
      }
      SessionFull(session, logURLs);
    }
  }

  function AtLeastOne(n: int): int {
    if n < 1 then 1 else n
  }

  lemma RemovedCard(all: set<string>, rest: set<string>, l: string)
    requires l in rest
    ensures |all - (rest - {l})| == |all - rest| + if l in all then 1 else 0
  {
    assert all - (rest - {l}) == if l in all then (all - rest) + {l} else all - rest;
  }

  lemma SubsetCard(a: set<string>, b: set<string>)
    requires a <= b
    ensures |a| <= |b|
  {
    assert b == a + (b - a);
  }

  lemma {:induction false} DistinctCard(s: seq<string>)
    requires forall i, j :: 0 <= i < j < |s| ==> s[i] != s[j]
    ensures |set l | l in s| == |s|
  {
    if s != [] {
      var init := s[..|s| - 1];
      DistinctCard(init);
      assert (set l | l in s) == (set l | l in init) + {s[|s| - 1]};
    }
  }

  /** As many distinct members as there are members are all of them. */
  lemma SessionFull(session: seq<string>, logs: set<string>)
    requires forall i, j :: 0 <= i < j < |session| ==> session[i] != session[j]
    requires |session| == |logs| && forall l :: l in session ==> l in logs
    ensures (set l | l in session) == logs
  {
    DistinctCard(session);
    var all := set l | l in session;
    assert logs == all + (logs - all);
  }

  // ---------------------------------------------------------------- grouping

  ghost function LogsOf(operators: seq<Operator>, included: Operator -> bool): set<string> {
    set op, l | op in operators && included(op) && l in op.logs :: l
  }

  lemma LogsOfSnoc(operators: seq<Operator>, i: nat, included: Operator -> bool)
    requires i < |operators|
    ensures LogsOf(operators[..i + 1], included)
            == LogsOf(operators[..i], included) + if included(operators[i]) then set l | l in operators[i].logs else {}
  {
    assert operators[..i + 1] == operators[..i] + [operators[i]];
    assert operators[i].logs[..|operators[i].logs|] == operators[i].logs;
  }

  predicate OccursAt(s: string, sub: string, i: int) {
    0 <= i <= |s| - |sub| && s[i..i + |sub|] == sub
  }

  predicate Contains(s: string, sub: string) {
    exists i | 0 <= i <= |s| :: OccursAt(s, sub, i)
  }

  predicate GoogleOperated(op: Operator) {
    exists i | 0 <= i < |op.emails| :: Contains(op.emails[i], GOOGLE_MARK)
  }

  /** Somewhere in one of the addresses stands the name of Google's mailing list. */
  lemma GoogleExactly(op: Operator)
    ensures GoogleOperated(op) <==>
              exists email, before, after :: email in op.emails && Surrounds(email, before, after)
  {
    if GoogleOperated(op) {
      var i :| 0 <= i < |op.emails| && Contains(op.emails[i], GOOGLE_MARK);
      var email := op.emails[i];
      var k :| 0 <= k <= |email| && OccursAt(email, GOOGLE_MARK, k);
      assert Surrounds(email, email[..k], email[k + |GOOGLE_MARK|..]);
    }
    if email, before, after :| email in op.emails && Surrounds(email, before, after) {
      assert OccursAt(email, GOOGLE_MARK, |before|);
    }
  }

  predicate Surrounds(email: string, before: string, after: string) {
    email == before + "google-ct-logs@googlegroups" + after
  }

  type Month = m: int | 1 <= m <= 12 witness 1

  datatype Date = Date(year: int, month: Month, day: int)

  function LifetimeInMonths(notBefore: Date, notAfter: Date): int {
    (notAfter.year - notBefore.year) * 12 + (notAfter.month - notBefore.month)
    - if notAfter.day < notBefore.day then 1 else 0
  }

  function RequiredScts(months: int): int {
    if months < 15 then 2 else if months <= 27 then 3 else if months <= 39 then 4 else 5
  }

  /** The date `m` months later, or earlier when negative, on the same day of its month. */
  function Advanced(d: Date, m: int): Date {
    var k := d.month - 1 + m;
    Date(d.year + k / 12, k % 12 + 1, d.day)
  }

  predicate NotLater(a: Date, b: Date) {
    a.year < b.year || (a.year == b.year && (a.month < b.month || (a.month == b.month && a.day <= b.day)))
  }

  /** `m` months after the first day the certificate is still valid. */
  predicate Lasts(notBefore: Date, notAfter: Date, m: int) {
    NotLater(Advanced(notBefore, m), notAfter)
  }

  /** The lifetime is the greatest number of months that the certificate lasts. */
  lemma LifetimeExactly(notBefore: Date, notAfter: Date, m: int)
    ensures Lasts(notBefore, notAfter, m) <==> m <= LifetimeInMonths(notBefore, notAfter)
  {
    var k := notBefore.month - 1 + m;
    assert k == k / 12 * 12 + k % 12;
  }

  /** What Chrome asks for: two SCTs, three from 15 months on, four from 28 and five from 40. */
  predicate ChromeAsks(notBefore: Date, notAfter: Date, scts: int) {
    if !Lasts(notBefore, notAfter, 15) then scts == 2
    else if !Lasts(notBefore, notAfter, 28) then scts == 3
    else if !Lasts(notBefore, notAfter, 40) then scts == 4
    else scts == 5
  }

  lemma RequiredExactly(notBefore: Date, notAfter: Date, scts: int)
    ensures ChromeAsks(notBefore, notAfter, scts) <==> scts == RequiredScts(LifetimeInMonths(notBefore, notAfter))
  {
    hide Lasts, LifetimeInMonths;
    LifetimeExactly(notBefore, notAfter, 15);
    LifetimeExactly(notBefore, notAfter, 28);
    LifetimeExactly(notBefore, notAfter, 40);
  }

  ghost function PolicyOf(groups: map<string, LogGroupInfo>): Policy
    reads set g | g in groups :: groups[g]
  {
    map g | g in groups :: groups[g].View()
  }

  /** A group of the logs of the included operators; None when it is smaller than `min`. */
  method NewGroup(name: string, isBase: bool, operators: seq<Operator>, included: Operator -> bool, min: nat)
    returns (group: Option<LogGroupInfo>)
    ensures group.Some? <==> min <= |LogsOf(operators, included)|
    ensures group.Some? ==>
              && fresh(group.value) && group.value.Valid() && group.value.name == name && group.value.isBase == isBase
              && group.value.View() == Requirement(LogsOf(operators, included), min)
              && Positive(group.value.logWeights) == group.value.logURLs
  {
    var g := new LogGroupInfo(name, isBase);
    g.Populate(operators, included);
    var ok := g.SetMinInclusions(min);
    return if ok then Some(g) else None;
  }

  predicate NotGoogleOperated(op: Operator) {
    !GoogleOperated(op)
  }

  predicate AnyOperator(op: Operator) {
    true
  }

  ghost function ChromePolicy(operators: seq<Operator>, scts: int): Policy {
    map[GOOGLE_NAME := Requirement(LogsOf(operators, GoogleOperated), 1),
        NON_GOOGLE_NAME := Requirement(LogsOf(operators, NotGoogleOperated), 1),
        BASE_NAME := Requirement(LogsOf(operators, AnyOperator), scts)]
  }

  lemma NamesDiffer()
    ensures GOOGLE_NAME != NON_GOOGLE_NAME && GOOGLE_NAME != BASE_NAME && NON_GOOGLE_NAME != BASE_NAME
  {
    assert GOOGLE_NAME[0] != NON_GOOGLE_NAME[0] && GOOGLE_NAME[0] != BASE_NAME[0] && NON_GOOGLE_NAME[0] != BASE_NAME[0];
  }

  /** The Chrome grouping, or an error when some group has fewer logs than its minimum. */
  method ChromeLogsByGroup(operators: seq<Operator>, notBefore: Date, notAfter: Date)
    returns (groups: Option<map<string, LogGroupInfo>>)
    ensures forall scts :: ChromeAsks(notBefore, notAfter, scts) ==>
              && (groups.Some? <==>
                    && LogsOf(operators, GoogleOperated) != {}
                    && LogsOf(operators, NotGoogleOperated) != {}
                    && scts <= |LogsOf(operators, AnyOperator)|)
              && (groups.Some? ==> PolicyOf(groups.value) == ChromePolicy(operators, scts))
    ensures groups.Some? ==>
              && groups.value.Keys == {"Google-operated", "Non-Google-operated", "All-logs"}
              && forall g :: g in groups.value ==>
                   groups.value[g].name == g && groups.value[g].isBase == (g == "All-logs") && groups.value[g].Valid()
  {
    hide LogsOf, GoogleOperated, ChromeAsks;
    NamesDiffer();
    forall scts ensures ChromeAsks(notBefore, notAfter, scts) <==>
        scts == RequiredScts(LifetimeInMonths(notBefore, notAfter)) {
      RequiredExactly(notBefore, notAfter, scts);
    }
    var scts := RequiredScts(LifetimeInMonths(notBefore, notAfter));
    var google := NewGroup(GOOGLE_NAME, false, operators, GoogleOperated, 1);
    if google.None? {
      return None;
    }
    var nonGoogle := NewGroup(NON_GOOGLE_NAME, false, operators, NotGoogleOperated, 1);
    if nonGoogle.None? {
      return None;
    }
    var base := NewGroup(BASE_NAME, true, operators, AnyOperator, scts);
    if base.None? {
      return None;
    }
    groups := Some(map[GOOGLE_NAME := google.value, NON_GOOGLE_NAME := nonGoogle.value, BASE_NAME := base.value]);
  }

  /** The Chrome grouping meets the hypotheses of all reservation theorems, even when a log is listed
      by operators of both kinds: no log lies outside the two groups. */
  lemma ChromeMeetsHypotheses(operators: seq<Operator>, months: int)
    ensures var p := ChromePolicy(operators, RequiredScts(months)); BaseCovers(p) && Reserved(p) && !Starvable(p)
  {
    hide GoogleOperated, Starves;
    var p := ChromePolicy(operators, RequiredScts(months));
    ChromeTwoGroups(operators, months);
    ChromeCovers(operators);
    assert Outside(p, GOOGLE_NAME, NON_GOOGLE_NAME) == {};
    forall first, l, xs | Starves(p, first, l, xs) ensures false {
      StarvesSizes(p, GOOGLE_NAME, NON_GOOGLE_NAME, first, l, xs);
    }
  }

  lemma ChromeTwoGroups(operators: seq<Operator>, months: int)
    ensures TwoGroups(ChromePolicy(operators, RequiredScts(months)), GOOGLE_NAME, NON_GOOGLE_NAME)
  {
    hide GoogleOperated, Reserved;
    var p := ChromePolicy(operators, RequiredScts(months));
    assert p.Keys == {GOOGLE_NAME, NON_GOOGLE_NAME, BASE_NAME};
    NamesDiffer();
    assert Others(p) == {GOOGLE_NAME, NON_GOOGLE_NAME};
    ChromeReserves(p);
  }

  lemma ChromeReserves(p: Policy)
    requires p.Keys == {GOOGLE_NAME, NON_GOOGLE_NAME, BASE_NAME}
    requires p[GOOGLE_NAME].min == 1 && p[NON_GOOGLE_NAME].min == 1 && p[BASE_NAME].min >= 2
    ensures Reserved(p)
  {
    NamesDiffer();
    assert Others(p) == {GOOGLE_NAME, NON_GOOGLE_NAME};
    var needs := Start(p).needs;
    PositiveSumSplit(needs, Others(p), GOOGLE_NAME);
    assert Others(p) - {GOOGLE_NAME} == {NON_GOOGLE_NAME};
    PositiveSumSplit(needs, {NON_GOOGLE_NAME}, NON_GOOGLE_NAME);
    assert {NON_GOOGLE_NAME} - {NON_GOOGLE_NAME} == {};
  }

  lemma ChromeCovers(operators: seq<Operator>)
    ensures LogsOf(operators, AnyOperator)
            == LogsOf(operators, GoogleOperated) + LogsOf(operators, NotGoogleOperated)
  {
    hide GoogleOperated;
  }

  /** A Google log, another log, and `scts` logs in all have answered. */
  ghost predicate ChromeAnswered(operators: seq<Operator>, scts: int, answered: set<string>) {
    && answered * LogsOf(operators, GoogleOperated) != {}
    && answered * LogsOf(operators, NotGoogleOperated) != {}
    && |answered| >= scts
  }

  lemma ChromeEnough(operators: seq<Operator>, scts: int, answered: set<string>)
    requires ChromeAnswered(operators, scts, answered) && answered <= LogsOf(operators, AnyOperator)
    ensures Meets(ChromePolicy(operators, scts), answered)
  {
    hide LogsOf, GoogleOperated;
    NamesDiffer();
    assert answered * LogsOf(operators, AnyOperator) == answered;
  }

  lemma AnsweredInBase(c: Config, es: seq<Event>)
    requires ValidConfig(c) && BaseCovers(c.policy) && Possible(c, es)
    ensures Run(c, es).answered.Keys <= c.policy[BASE_NAME].logs
  {
    hide Books, Cancels, ThreadsInv, Reports, Next, Enabled, Kept;
    AnsweredKnown(c.policy, Run(c, es));
    assert AllLogs(c.policy) <= c.policy[BASE_NAME].logs;
  }

  /** Under Chrome's policy, in every run: never more SCTs are kept than the certificate's lifetime asks
      for; and once enough logs have answered, in whatever order, exactly that many are kept and every
      group is complete. */
  lemma ChromeCollects(operators: seq<Operator>, months: int, c: Config, es: seq<Event>)
    requires c.policy == ChromePolicy(operators, RequiredScts(months)) && ValidConfig(c) && Possible(c, es)
    ensures |Kept(Run(c, es).st.results)| <= RequiredScts(months)
    ensures ChromeAnswered(operators, RequiredScts(months), Run(c, es).answered.Keys) ==>
              |Kept(Run(c, es).st.results)| == RequiredScts(months) && AllComplete(c.policy, Run(c, es).st)
  {
    hide LogsOf, Inv, Kept, AllComplete, Starvable, Next, Enabled, ChromeAnswered, BaseCovers, Reserved, Meets,
      Possible;
    NamesDiffer();
    ChromeMeetsHypotheses(operators, months);
    NeverOvercollects(c, es);
    var answered := Run(c, es).answered.Keys;
    AnsweredInBase(c, es);
    if ChromeAnswered(operators, RequiredScts(months), answered) {
      ChromeEnough(operators, RequiredScts(months), answered);
      CollectsExactlyEnough(c, es);
    }
  }

  ghost predicate Linked(result: map<string, set<string>>, l: string, g: string) {
    l in result && g in result[l]
  }

  ghost predicate Holds(p: Policy, l: string, g: string) {
    g in p && l in p[g].logs
  }

  /** GroupByLogs of ctpolicy: the reverse of the member relation. */
  method ReverseGroups(p: Policy) returns (result: map<string, set<string>>)
    ensures result == GroupByLogs(p)
  {
    result := map[];
    var groups := p.Keys;
    while groups != {}
      invariant groups <= p.Keys
      invariant forall l, h :: Linked(result, l, h) <==> Holds(p, l, h) && h !in groups
      invariant forall l :: l in result ==> result[l] != {}
      decreases groups
    {
      var g :| g in groups;
      var logs := p[g].logs;
      while logs != {}
        invariant logs <= p[g].logs
        invariant forall l, h :: Linked(result, l, h) <==>
                                   Holds(p, l, h) && (h !in groups || (h == g && l !in logs))
        invariant forall l :: l in result ==> result[l] != {}
        decreases logs
      {
        var l :| l in logs;
        result := result[l := (if l in result then result[l] else {}) + {g}];
        logs := logs - {l};
      }
      groups := groups - {g};
    }
    ReverseIsGroupByLogs(p, result);
  }

  lemma ReverseIsGroupByLogs(p: Policy, result: map<string, set<string>>)
    requires forall l, h :: Linked(result, l, h) <==> Holds(p, l, h)
    requires forall l :: l in result ==> result[l] != {}
    ensures result == GroupByLogs(p)
  {
    forall l ensures l in result <==> l in AllLogs(p) {
      if l in result {
        var g :| g in result[l];
        assert Linked(result, l, g);
      } else if l in AllLogs(p) {
        var g :| g in p && l in p[g].logs;
        assert Holds(p, l, g);
      }
    }
    forall l | l in result ensures result[l] == GroupsHolding(p, l) {
      forall g ensures g in result[l] <==> g in GroupsHolding(p, l) {
        assert Linked(result, l, g) <==> Holds(p, l, g);
      }
    }
  }
}
