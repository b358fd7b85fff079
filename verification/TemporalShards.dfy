/** Temporal logs, client/multilog.go: a chain of date intervals, one for each shard. */
module TemporalShards {
  import opened Options

  /** A configured timestamp, which may be malformed. */
  datatype Stamp = Time(when: int) | Malformed

  datatype Shard = Shard(notAfterStart: Option<Stamp>, notAfterLimit: Option<Stamp>)

  /** From `lower` on and before `upper`, where a missing bound does not bound. */
  datatype Interval = Interval(lower: Option<int>, upper: Option<int>)

  predicate Inside(v: Interval, date: int) {
    (v.lower.Some? ==> date >= v.lower.value) && (v.upper.Some? ==> date < v.upper.value)
  }

  function Bound(stamp: Option<Stamp>): (r: Option<Option<int>>) {
    match stamp
    case None => Some(None)
    case Some(Time(when)) => Some(Some(when))
    case Some(Malformed) => None
  }

  /** shardInterval */
  function ShardInterval(s: Shard): (r: Option<Interval>) {
    var lower, upper := Bound(s.notAfterStart), Bound(s.notAfterLimit);
    if lower.None? || upper.None? then None
    else if lower.value.Some? && upper.value.Some? && lower.value.value >= upper.value.value then None
    else Some(Interval(lower.value, upper.value))
  }

  // ---------------------------------------------------------------- shards by their stamps

  /** No stamp is malformed, and a start comes before a limit. */
  predicate Usable(s: Shard) {
    && s.notAfterStart != Some(Malformed) && s.notAfterLimit != Some(Malformed)
    && (s.notAfterStart.Some? && s.notAfterLimit.Some? ==> s.notAfterStart.value.when < s.notAfterLimit.value.when)
  }

  /** The date is not before the start, if there is one, and before the limit, if there is one. */
  predicate Covers(s: Shard, date: int) {
    && (s.notAfterStart.Some? ==> s.notAfterStart.value.Time? && s.notAfterStart.value.when <= date)
    && (s.notAfterLimit.Some? ==> s.notAfterLimit.value.Time? && date < s.notAfterLimit.value.when)
  }

  /** A shard is accepted exactly when it is usable; its interval then holds the dates that it covers, and
      there is one. */
  lemma ShardExactly(s: Shard)
    ensures ShardInterval(s).Some? <==> Usable(s)
    ensures Usable(s) ==> forall date :: Inside(ShardInterval(s).value, date) <==> Covers(s, date)
    ensures Usable(s) ==> exists date :: Covers(s, date)
  {
    if Usable(s) {
      var date := if s.notAfterStart.Some? then s.notAfterStart.value.when
                  else if s.notAfterLimit.Some? then s.notAfterLimit.value.when - 1 else 0;
      assert Covers(s, date);
    }
  }

  /** Every shard is usable and begins with a stamp at which the one before it ends. */
  predicate GapFree(shards: seq<Shard>) {
    && (forall i :: 0 <= i < |shards| ==> Usable(shards[i]))
    && (forall i :: 0 < i < |shards| ==>
          shards[i].notAfterStart.Some? && shards[i].notAfterStart == shards[i - 1].notAfterLimit)
  }

  /** The intervals of a configuration chain exactly when its shards follow each other without a gap. */
  lemma GapFreeExactly(shards: seq<Shard>)
    ensures GapFree(shards) <==> exists vs :: AllShards(shards, vs) && Chained(vs)
  {
    if GapFree(shards) {
      var vs := seq(|shards|, i requires 0 <= i < |shards| =>
        Interval(Bound(shards[i].notAfterStart).value, Bound(shards[i].notAfterLimit).value));
      assert AllShards(shards, vs) && Chained(vs);
    }
    if vs: seq<Interval> :| AllShards(shards, vs) && Chained(vs) {
      forall i | 0 <= i < |shards| ensures Usable(shards[i]) {
        assert ShardInterval(shards[i]) == Some(vs[i]);
        ShardExactly(shards[i]);
      }
      forall i | 0 < i < |shards|
        ensures shards[i].notAfterStart.Some? && shards[i].notAfterStart == shards[i - 1].notAfterLimit
      {
        assert ShardInterval(shards[i]) == Some(vs[i]) && ShardInterval(shards[i - 1]) == Some(vs[i - 1]);
        assert vs[i].lower == vs[i - 1].upper;
      }
    }
  }

  // ---------------------------------------------------------------- the configuration

  /** Every interval begins where the one before it ends. */
  predicate Chained(vs: seq<Interval>) {
    forall i :: 0 < i < |vs| ==> vs[i].lower.Some? && vs[i].lower == vs[i - 1].upper
  }

  predicate AllShards(shards: seq<Shard>, vs: seq<Interval>) {
    |vs| == |shards| && forall i :: 0 <= i < |vs| ==> ShardInterval(shards[i]) == Some(vs[i])
  }

  /** The interval-building loop of NewTemporalLogClient: accepts exactly the non-empty, well-formed
      and gap-free configurations. */
  method BuildIntervals(shards: seq<Shard>) returns (r: Option<seq<Interval>>)
    ensures r.Some? <==> shards != [] && GapFree(shards)
    ensures r.Some? ==> AllShards(shards, r.value) && Chained(r.value)
  {
    GapFreeExactly(shards);
    if shards == [] {
      return None;
    }
    var overall := ShardInterval(shards[0]);
    if overall.None? {
      return None;
    }
    var upper := overall.value.upper;
    var intervals := [overall.value];
    for i := 1 to |shards|
      invariant AllShards(shards[..i], intervals) && Chained(intervals) && upper == intervals[i - 1].upper
    {
      var interval := ShardInterval(shards[i]);
      if interval.None? || upper.None? || interval.value.lower != upper {
        forall vs | AllShards(shards, vs) ensures !Chained(vs) {
          assert vs[i - 1] == intervals[i - 1];
        }
        return None;
      }
      upper := interval.value.upper;
      intervals := intervals + [interval.value];
    }
    assert shards[..|shards|] == shards;
    return Some(intervals);
  }

  lemma Held(shards: seq<Shard>, vs: seq<Interval>, i: nat)
    requires AllShards(shards, vs) && i < |vs|
    ensures exists date :: Inside(vs[i], date)
  {
    ShardExactly(shards[i]);
    var date :| Covers(shards[i], date);
    assert Inside(vs[i], date);
  }

  lemma {:induction false} Ordered(shards: seq<Shard>, vs: seq<Interval>, i: nat, j: nat)
    requires AllShards(shards, vs) && Chained(vs) && i < j < |vs|
    ensures vs[i].upper.Some? && vs[j].lower.Some? && vs[i].upper.value <= vs[j].lower.value
    decreases j
  {
    assert vs[j].lower == vs[j - 1].upper;
    if i < j - 1 {
      Ordered(shards, vs, i, j - 1);
      Held(shards, vs, j - 1);
    }
  }

  /** A later date is in the same interval or a later one; in particular no date is in two. */
  lemma Monotone(shards: seq<Shard>, vs: seq<Interval>, i: nat, j: nat, d: int, e: int)
    requires AllShards(shards, vs) && Chained(vs) && i < |vs| && j < |vs|
    requires Inside(vs[i], d) && Inside(vs[j], e) && d <= e
    ensures i <= j && (d == e ==> i == j)
  {
    if j < i {
      Ordered(shards, vs, j, i);
    } else if i < j {
      Ordered(shards, vs, i, j);
    }
  }

  /** The whole time covered. */
  function Span(vs: seq<Interval>): (v: Interval)
    requires vs != []
  {
    Interval(vs[0].lower, vs[|vs| - 1].upper)
  }

  lemma {:induction false} Search(vs: seq<Interval>, n: nat, date: int) returns (i: nat)
    requires Chained(vs) && n < |vs| && Inside(Interval(vs[0].lower, vs[n].upper), date)
    ensures i <= n && Inside(vs[i], date)
    decreases n
  {
    if n == 0 || date >= vs[n].lower.value {
      i := n;
    } else {
      i := Search(vs, n - 1, date);
    }
  }

  /** A date belongs to a shard exactly when it lies in the span of the whole log. */
  lemma SpanExactly(shards: seq<Shard>, vs: seq<Interval>, date: int)
    requires AllShards(shards, vs) && Chained(vs) && vs != []
    ensures (exists i :: 0 <= i < |vs| && Inside(vs[i], date)) <==> Inside(Span(vs), date)
  {
    if Inside(Span(vs), date) {
      var i := Search(vs, |vs| - 1, date);
    }
    forall i | 0 <= i < |vs| && Inside(vs[i], date) ensures Inside(Span(vs), date) {
      InSpan(shards, vs, i, date);
    }
  }

  lemma InSpan(shards: seq<Shard>, vs: seq<Interval>, i: nat, date: int)
    requires AllShards(shards, vs) && Chained(vs) && i < |vs| && Inside(vs[i], date)
    ensures Inside(Span(vs), date)
  {
    if i > 0 {
      Ordered(shards, vs, 0, i);
      Held(shards, vs, 0);
    }
    if i < |vs| - 1 {
      Ordered(shards, vs, i, |vs| - 1);
      Held(shards, vs, |vs| - 1);
    }
  }

  /** IndexByDate on the intervals of an accepted configuration: finds the only shard that covers the date,
      and one exactly when the date lies between the first start and the last limit. */
  method IndexByDate(ghost shards: seq<Shard>, vs: seq<Interval>, date: int) returns (r: Option<nat>)
    requires AllShards(shards, vs) && Chained(vs) && vs != []
    ensures GapFree(shards)
    ensures r.None? ==> forall i :: 0 <= i < |shards| ==> !Covers(shards[i], date)
    ensures r.Some? ==> r.value < |vs| && forall i :: 0 <= i < |shards| ==> (Covers(shards[i], date) <==> i == r.value)
    ensures r.Some? <==> Covers(Shard(shards[0].notAfterStart, shards[|shards| - 1].notAfterLimit), date)
  {
    GapFreeExactly(shards);
    forall i | 0 <= i < |shards| ensures Inside(vs[i], date) <==> Covers(shards[i], date) {
      ShardExactly(shards[i]);
    }
    SpanExactly(shards, vs, date);
    for i := 0 to |vs|
      invariant forall j :: 0 <= j < i ==> !Inside(vs[j], date)
    {
      if vs[i].lower.Some? && date < vs[i].lower.value {
        continue;
      }
      if vs[i].upper.Some? && date >= vs[i].upper.value {
        continue;
      }
      forall j | 0 <= j < |vs| && Inside(vs[j], date) ensures j == i {
        Monotone(shards, vs, i, j, date, date);
      }
      return Some(i);
    }
    return None;
  }
}
