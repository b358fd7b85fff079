/**
 The condition of `RaceStarvation` made explicit: policies whose groups are disjoint never starve, and
 for two groups besides the base group the condition is a comparison of sizes.
 */
module RaceFamilies {
  import opened Races
  import opened RaceRuns
  import opened RaceSchedules
  import opened RaceTheorems
  import opened RaceStarvation

  // ---------------------------------------------------------------- counting

  lemma UnionCount(a: set<string>, b: set<string>)
    ensures |a + b| == |a| + |b| - |a * b|
  {
    var more := b - a;
    assert a + b == a + more;
    assert b == more + a * b;
  }

  lemma SplitCount(a: set<string>, b: set<string>)
    ensures |a| == |a * b| + |a - b|
  {
    assert a == a * b + (a - b);
  }

  // ---------------------------------------------------------------- disjoint groups

  /** Groups that ask for something share no log; the base group is not one of them. */
  ghost predicate DisjointOthers(p: Policy) {
    forall g, h :: g in Others(p) && h in Others(p) && g != h && p[g].min > 0 && p[h].min > 0 ==>
      p[g].logs !! p[h].logs
  }

  ghost predicate Lacking(p: Policy, first: set<string>, g: string)
    requires g in p
  {
    |first * p[g].logs| < p[g].min
  }

  /** Those of `zs` that a group of `names` lacks after `first`. */
  ghost function Useful(p: Policy, first: set<string>, zs: set<string>, names: set<string>): set<string>
    requires names <= p.Keys
  {
    set l | l in zs && exists g :: g in names && Lacking(p, first, g) && l in p[g].logs
  }

  lemma UsefulSplit(p: Policy, first: set<string>, zs: set<string>, names: set<string>, g: string)
    requires names <= p.Keys && g in names
    ensures Useful(p, first, zs, names)
            == Useful(p, first, zs, names - {g}) + if Lacking(p, first, g) then zs * p[g].logs else {}
  {
    hide Lacking;
  }

  /** What disjoint groups still ask for takes as many logs. */
  lemma {:induction false} DisjointCount(p: Policy, first: set<string>, zs: set<string>, names: set<string>)
    requires names <= Others(p) && DisjointOthers(p)
    requires forall g :: g in names && Lacking(p, first, g) ==> |first * p[g].logs| + |zs * p[g].logs| >= p[g].min
    ensures PositiveSum(NeedsAfter(p, first), names) <= |Useful(p, first, zs, names)|
    decreases names
  {
    if names != {} {
      var g :| g in names;
      var needs := NeedsAfter(p, first);
      PositiveSumSplit(needs, names, g);
      DisjointCount(p, first, zs, names - {g});
      UsefulSplit(p, first, zs, names, g);
      var rest := Useful(p, first, zs, names - {g});
      if Lacking(p, first, g) {
        forall l | l in rest ensures l !in p[g].logs {
          var h :| h in names - {g} && Lacking(p, first, h) && l in p[h].logs;
          assert p[g].logs !! p[h].logs;
        }
        UnionCount(rest, zs * p[g].logs);
        assert rest * (zs * p[g].logs) == {};
      }
    }
  }

  /** Disjoint groups never starve the base group. */
  lemma DisjointNeverStarves(p: Policy)
    requires BASE_NAME in p && DisjointOthers(p)
    ensures !Starvable(p)
  {
    hide DisjointOthers, AllLogs;
    forall first, l, xs | Starves(p, first, l, xs) ensures false {
      var zs := xs - first - {l};
      forall g | g in Others(p) && Lacking(p, first, g)
        ensures |first * p[g].logs| + |zs * p[g].logs| >= p[g].min
      {
        assert l !in p[g].logs;
        ThreeParts(first, zs, xs, l, p[g].logs);
      }
      DisjointCount(p, first, zs, Others(p));
      SubsetCount(Useful(p, first, zs, Others(p)), zs);
      RestCount(first, l, xs);
    }
  }

  lemma ThreeParts(first: set<string>, zs: set<string>, xs: set<string>, l: string, logs: set<string>)
    requires first <= xs && zs == xs - first - {l} && l !in logs
    ensures |xs * logs| == |first * logs| + |zs * logs|
  {
    assert xs * logs == first * logs + zs * logs;
  }

  lemma RestCount(first: set<string>, l: string, xs: set<string>)
    requires first <= xs && l in xs && l !in first
    ensures |xs - first - {l}| == |xs| - |first| - 1
  {
    assert xs == first + {l} + (xs - first - {l});
  }

  // ---------------------------------------------------------------- two groups

  /** Besides the base group, which has a slot for every need, two groups that ask for something. */
  ghost predicate TwoGroups(p: Policy, a: string, b: string) {
    && BASE_NAME in p && BaseCovers(p) && Reserved(p)
    && a != b && a in p && b in p && Others(p) == {a, b} && p[a].min >= 1 && p[b].min >= 1
  }

  ghost function Outside(p: Policy, a: string, b: string): set<string>
    requires BASE_NAME in p && a in p && b in p
  {
    p[BASE_NAME].logs - p[a].logs - p[b].logs
  }

  lemma UnmetTwo(p: Policy, a: string, b: string, xs: set<string>)
    requires a != b && a in p && b in p && Others(p) == {a, b}
    ensures Unmet(p, xs) == Pos(p[a].min - |xs * p[a].logs|) + Pos(p[b].min - |xs * p[b].logs|)
  {
    var needs := NeedsAfter(p, xs);
    PositiveSumSplit(needs, {a, b}, a);
    assert {a, b} - {a} == {b};
    PositiveSumSplit(needs, {b}, b);
    assert {b} - {b} == {};
  }

  lemma ReservedTwo(p: Policy, a: string, b: string)
    requires TwoGroups(p, a, b)
    ensures p[BASE_NAME].min >= p[a].min + p[b].min
  {
    hide BaseCovers;
    UnmetTwo(p, a, b, {});
    PositiveSumSame(Start(p).needs, NeedsAfter(p, {}), Others(p));
    assert {} * p[a].logs == {} && {} * p[b].logs == {};
  }

  /** A log in both groups, and more logs in neither than the base group asks for beyond the two; the
      rest says that enough answers are possible at all. */
  ghost predicate TwoStarve(p: Policy, a: string, b: string)
    requires BASE_NAME in p && a in p && b in p
  {
    && p[a].logs * p[b].logs != {}
    && |Outside(p, a, b)| > p[BASE_NAME].min - p[a].min - p[b].min
    && |p[a].logs| >= p[a].min && |p[b].logs| >= p[b].min && |p[BASE_NAME].logs| >= p[BASE_NAME].min
  }

  /** Sizes that a starving set forces on two groups. */
  lemma StarvesSizes(p: Policy, a: string, b: string, first: set<string>, l: string, xs: set<string>)
    requires TwoGroups(p, a, b) && Starves(p, first, l, xs)
    ensures TwoStarve(p, a, b)
  {
    hide BaseCovers, AllLogs, Unmet, Reserved;
    var zs := xs - first - {l};
    var la, lb := p[a].logs, p[b].logs;
    UnmetTwo(p, a, b, first);
    RestCount(first, l, xs);
    BaseIsAll(p);
    var ra, rb := Pos(p[a].min - |first * la|), Pos(p[b].min - |first * lb|);
    assert a in Others(p) && b in Others(p);
    if ra > 0 {
      ThreeParts(first, zs, xs, l, la);
      SubsetCount(zs * la, zs);
    }
    if rb > 0 {
      ThreeParts(first, zs, xs, l, lb);
      SubsetCount(zs * lb, zs);
    }
    assert ra > 0 && rb > 0;
    SharedAmong(zs, la, lb);
    OutsideCount(p, a, b, first, l);
    SubsetCount(xs * la, la);
    SubsetCount(xs * lb, lb);
    SubsetCount(xs, p[BASE_NAME].logs);
  }

  lemma SharedAmong(zs: set<string>, la: set<string>, lb: set<string>)
    requires |zs| < |zs * la| + |zs * lb|
    ensures la * lb != {}
  {
    UnionCount(zs * la, zs * lb);
    SubsetCount(zs * la + zs * lb, zs);
    var both := zs * la * (zs * lb);
    assert both != {};
    var x :| x in both;
    assert x in la * lb;
  }

  lemma OutsideCount(p: Policy, a: string, b: string, first: set<string>, l: string)
    requires BASE_NAME in p && a in p && b in p && first <= p[BASE_NAME].logs
    requires l in Outside(p, a, b) && l !in first
    ensures |Outside(p, a, b)| >= 1 + |first| - |first * p[a].logs| - |first * p[b].logs|
  {
    var la, lb := p[a].logs, p[b].logs;
    SplitCount(first, la);
    SplitCount(first - la, lb);
    SubsetCount((first - la) * lb, first * lb);
    SubsetCount(first - la - lb + {l}, Outside(p, a, b));
  }

  /** From the sizes a starving set: the outside logs answer first, the last of them is dumped. */
  lemma SizesStarve(p: Policy, a: string, b: string)
    requires TwoGroups(p, a, b) && TwoStarve(p, a, b)
    ensures Starvable(p)
  {
    hide BaseCovers, AllLogs, Unmet, Reserved, Spared;
    ReservedTwo(p, a, b);
    BaseIsAll(p);
    GroupsInBase(p, a, b);
    var m := p[BASE_NAME].min;
    var la, lb, out := p[a].logs, p[b].logs, Outside(p, a, b);
    var x :| x in la * lb;
    var early := SetBetween({}, out, m - p[a].min - p[b].min + 1);
    var l :| l in early;
    var first := early - {l};
    var xa := SetBetween({x}, la, p[a].min);
    var xb := SetBetween({x}, lb, p[b].min);
    UnionCount(xa, xb);
    SubsetCount({x}, xa * xb);
    UnionCount(early, xa + xb);
    var xs := SetBetween(early + (xa + xb), p[BASE_NAME].logs, m);
    OutsideOnly(p, a, b, first, l);
    MeetsTwo(p, a, b, xa, xb, xs);
    assert Starves(p, first, l, xs);
  }

  lemma GroupsInBase(p: Policy, a: string, b: string)
    requires BaseCovers(p) && a in p && b in p
    ensures p[a].logs <= p[BASE_NAME].logs && p[b].logs <= p[BASE_NAME].logs
  {
  }

  lemma OutsideOnly(p: Policy, a: string, b: string, first: set<string>, l: string)
    requires TwoGroups(p, a, b) && first <= Outside(p, a, b) && l in Outside(p, a, b)
    requires |first| + p[a].min + p[b].min >= p[BASE_NAME].min
    ensures Reserves(p, first, l)
  {
    hide BaseCovers, Reserved, Unmet;
    UnmetTwo(p, a, b, first);
    assert first * p[a].logs == {} && first * p[b].logs == {};
  }

  lemma MeetsTwo(p: Policy, a: string, b: string, xa: set<string>, xb: set<string>, xs: set<string>)
    requires TwoGroups(p, a, b) && xa <= p[a].logs && xb <= p[b].logs && xa <= xs && xb <= xs <= p[BASE_NAME].logs
    requires |xa| == p[a].min && |xb| == p[b].min && |xs| == p[BASE_NAME].min
    ensures Meets(p, xs)
  {
    hide BaseCovers, Reserved;
    assert xs * p[BASE_NAME].logs == xs;
    SubsetCount(xa, xs * p[a].logs);
    SubsetCount(xb, xs * p[b].logs);
    forall g | g in p ensures |xs * p[g].logs| >= p[g].min {
      assert g == BASE_NAME || g in Others(p);
    }
  }

  /** With two groups, enough answers complete every group in every run exactly when the sizes say so; and
      otherwise a run over drawn sessions ends with the base group blamed. */
  lemma TwoGroupsExactly(p: Policy, a: string, b: string)
    requires TwoGroups(p, a, b)
    ensures AlwaysCollects(p) <==> !TwoStarve(p, a, b)
    ensures CanEndShort(p) <==> TwoStarve(p, a, b)
  {
    hide AlwaysCollects, CanEndShort, TwoStarve, Starves;
    CollectsExactly(p);
    if TwoStarve(p, a, b) {
      SizesStarve(p, a, b);
    }
    if Starvable(p) {
      var first, l, xs :| Starves(p, first, l, xs);
      StarvesSizes(p, a, b, first, l, xs);
    }
  }

  /** With two groups that ask for one SCT each: exactly when they share no log, or the logs outside
      both are at most the base group's minimum less two. */
  lemma TwoSinglesExactly(p: Policy, a: string, b: string)
    requires TwoGroups(p, a, b) && p[a].min == 1 && p[b].min == 1
    ensures AlwaysCollects(p) <==>
              p[a].logs !! p[b].logs || |Outside(p, a, b)| <= p[BASE_NAME].min - 2
    ensures CanEndShort(p) <==>
              !(p[a].logs !! p[b].logs) && |Outside(p, a, b)| > p[BASE_NAME].min - 2
  {
    hide AlwaysCollects, CanEndShort, BaseCovers, Reserved, Others;
    TwoGroupsExactly(p, a, b);
    GroupsInBase(p, a, b);
    if x :| x in p[a].logs * p[b].logs {
      SubsetCount({x}, p[a].logs);
      SubsetCount({x}, p[b].logs);
      SubsetCount(Outside(p, a, b) + {x}, p[BASE_NAME].logs);
    }
  }

  // ---------------------------------------------------------------- one that starves

  const OVERLAPPING: Policy :=
    map["x" := Requirement({"a"}, 1), "y" := Requirement({"a"}, 1), BASE_NAME := Requirement({"a", "b"}, 2)]

  lemma OverlappingReserved()
    ensures OVERLAPPING.Keys == {"x", "y", BASE_NAME} && Others(OVERLAPPING) == {"x", "y"} && Reserved(OVERLAPPING)
  {
    var p := OVERLAPPING;
    assert BASE_NAME != "x" && BASE_NAME != "y" by { assert |BASE_NAME| != |"x"| && |BASE_NAME| != |"y"|; }
    assert Others(p) == {"x", "y"};
    var needs := Start(p).needs;
    PositiveSumSplit(needs, {"x", "y"}, "x");
    assert {"x", "y"} - {"x"} == {"y"};
    PositiveSumSplit(needs, {"y"}, "y");
    assert {"y"} - {"y"} == {};
  }

  lemma OverlappingTwo()
    ensures TwoGroups(OVERLAPPING, "x", "y")
  {
    hide Reserved, Others;
    OverlappingReserved();
  }

  /** Two groups that share their only log: "b" answers first and is dumped for the two reserved slots, of
      which "a" then fills one. All logs have answered, and GetSCTs returns with the base group blamed. */
  lemma OverlapStarvesBase() returns (c: Config, es: seq<Event>)
    ensures EndsShort(OVERLAPPING, c, es) && Run(c, es).answered.Keys == {"a", "b"}
  {
    hide Unmet, Run, Possible, EndsShort;
    var p := OVERLAPPING;
    OverlappingTwo();
    assert Outside(p, "x", "y") == {"b"};
    OutsideOnly(p, "x", "y", {}, "b");
    MeetsTwo(p, "x", "y", {"a"}, {"a"}, {"a", "b"});
    BaseIsAll(p);
    c, es := StarvingRun(p, {}, "b", {"a", "b"});
  }
}
