/** The loops of scanner/fetcher.go one by one: the generator, the wait for a bigger tree, a worker. */
module FetchLoops {
  import opened Options
  import opened FetchRuns

  class Fetcher {
    var startIndex: int
    var endIndex: int
    var treeSize: Option<nat>

    constructor (start: int, end: int)
      ensures startIndex == start && endIndex == end && treeSize == None
    {
      startIndex, endIndex, treeSize := start, end, None;
    }

    /** Prepare, with the log's answer: only the first tree head is used. A requested end within the tree is
        kept, and so is a negative one; no end, or one beyond the tree, becomes the tree's size. */
    method Prepare(reply: Option<nat>) returns (size: Option<nat>)
      modifies this
      ensures startIndex == old(startIndex)
      ensures size == if old(treeSize).Some? then old(treeSize) else reply
      ensures treeSize == size
      ensures old(treeSize).Some? || reply.None? ==> endIndex == old(endIndex)
      ensures old(treeSize).None? && reply.Some? && old(endIndex) != 0 && old(endIndex) <= reply.value ==>
                endIndex == old(endIndex)
      ensures old(treeSize).None? && reply.Some? && (old(endIndex) == 0 || old(endIndex) > reply.value) ==>
                endIndex == reply.value
    {
      if treeSize.Some? {
        return treeSize;
      }
      if reply.None? {
        return None;
      }
      if endIndex == 0 || endIndex > reply.value {
        endIndex := reply.value;
      }
      treeSize := reply;
      return treeSize;
    }

    /** updateSTH. Each attempt has the log's answer, if there is one, and whether the quick phase still
        lasts. The first good answer is taken: bigger than the last size, and by a whole batch while the
        phase lasts. A failed request before that ends the wait, as does the end of the attempts, which
        stands for a cancelled context; then nothing changes. */
    method UpdateSTH(batch: nat, attempts: seq<(Option<nat>, bool)>) returns (found: Option<nat>)
      modifies this
      ensures startIndex == old(startIndex)
      ensures found.None? ==> endIndex == old(endIndex) && treeSize == old(treeSize)
      ensures found.Some? ==> endIndex == found.value > old(endIndex) && treeSize == found
      ensures TooSmall(old(endIndex), batch, attempts) ==> found.None?
      ensures !TooSmall(old(endIndex), batch, attempts) ==>
                exists k :: && 0 <= k < |attempts| && TooSmall(old(endIndex), batch, attempts[..k])
                            && attempts[k].0 == found && (found.Some? ==> Grown(old(endIndex), batch, attempts[k]))
    {
      var lastSize := endIndex;
      var targetSize := lastSize + batch;
      for k := 0 to |attempts|
        invariant endIndex == lastSize && treeSize == old(treeSize) && startIndex == old(startIndex)
        invariant TooSmall(lastSize, batch, attempts[..k])
      {
        var (sth, quick) := attempts[k];
        if sth.None? {
          return None;
        }
        if sth.value <= lastSize || (quick && sth.value < targetSize) {
          continue;
        }
        treeSize := sth;
        endIndex := sth.value;
        return sth;
      }
      assert attempts[..|attempts|] == attempts;
      return None;
    }
  }

  predicate Grown(last: int, batch: nat, attempt: (Option<nat>, bool)) {
    attempt.0.Some? && attempt.0.value > last && (attempt.1 ==> attempt.0.value >= last + batch)
  }

  /** Every attempt has brought a tree head that is not big enough. */
  predicate TooSmall(last: int, batch: nat, attempts: seq<(Option<nat>, bool)>) {
    forall k :: 0 <= k < |attempts| ==> attempts[k].0.Some? && !Grown(last, batch, attempts[k])
  }

  /** The heads that updateSTH finds, one after the other, each bigger than the last. */
  predicate Growing(end: int, heads: seq<int>)
    decreases heads
  {
    heads == [] || (heads[0] > end && Growing(heads[0], heads[1..]))
  }

  /** The ranges that hold an entry. */
  function Filled(ranges: seq<Batch>): (r: seq<Batch>) {
    if ranges == [] then []
    else
      var b := ranges[|ranges| - 1];
      Filled(ranges[..|ranges| - 1]) + if b.count > 0 then [b] else []
  }

  lemma FilledAppend(ranges: seq<Batch>, b: Batch)
    ensures Filled(ranges + [b]) == Filled(ranges) + if b.count > 0 then [b] else []
  {
    assert (ranges + [b])[..|ranges + [b]| - 1] == ranges;
  }

  /** The state of a fetcher whose only active worker has delivered all that was generated. */
  predicate Caught(o: FetcherOptions, s: State, start: int, end: int, delivered: seq<Batch>) {
    && s == Initial(o).(start := start, end := end, delivered := delivered)
  }

  lemma SameWorker(ws: seq<Worker>, a: Worker, b: Worker)
    requires |ws| > 0 && ws[0].Idle?
    ensures ws[0 := a][0 := Idle] == ws && ws[0 := a][0 := b][0 := Idle] == ws
  {
  }

  /** One range is handed to the worker, which fetches it at once. */
  lemma HandAndFetch(o: FetcherOptions, es: seq<Event>, start: int, end: int, delivered: seq<Batch>)
    returns (es': seq<Event>)
    requires o.workers > 0 && Possible(o, es) && Caught(o, Run(o, es), start, end, delivered)
    requires start != end && (start < end || o.continuous)
    ensures var batchEnd := start + Min(end - start, o.batch);
            var next := Batch(start, if batchEnd > start then batchEnd - start else 0);
            Possible(o, es') && Caught(o, Run(o, es'), batchEnd, end, delivered + Filled([next]))
  {
    hide Inv, Run, Possible;
    var s := Run(o, es);
    var batchEnd := start + Min(end - start, o.batch);
    var n := if batchEnd > start then batchEnd - start else 0;
    Extend(o, es, Hand(0));
    es' := es + [Hand(0)];
    FilledAppend([], Batch(start, n));
    assert [] + [Batch(start, n)] == [Batch(start, n)];
    if n > 0 {
      Extend(o, es', Fetch(0, n));
      es' := es' + [Fetch(0, n)];
    }
    Extend(o, es', Rest(0));
    es' := es' + [Rest(0)];
    SameWorker(s.workers, Working(start, batchEnd - 1), Working(start + n, batchEnd - 1));
    assert delivered + [] == delivered;
  }

  lemma Regrow(o: FetcherOptions, es: seq<Event>, start: int, size: int, delivered: seq<Batch>) returns (es': seq<Event>)
    requires o.continuous && Possible(o, es) && Caught(o, Run(o, es), start, start, delivered) && size > start
    ensures Possible(o, es') && Caught(o, Run(o, es'), start, size, delivered)
  {
    hide Inv, Run, Possible;
    Extend(o, es, Grow(size));
    es' := es + [Grow(size)];
  }

  /** genRanges, until `sends` ranges were taken or no bigger tree head comes. What was sent and what
      is left tile the range; none has more than a batch of entries. With a worker that fetches each
      range at once, this is the run `es` of the whole fetcher. */
  method GenRanges(o: FetcherOptions, heads: seq<int>, sends: nat)
    returns (ranges: seq<Batch>, start: int, end: int, ghost es: seq<Event>)
    requires Growing(o.end, heads)
    ensures |ranges| <= sends
    ensures forall i :: Cover(ranges, i) + Within(start, end, i) == Within(Base(o), end, i)
    ensures forall k :: 0 <= k < |ranges| ==> ranges[k].count <= o.batch
    ensures |ranges| < sends ==> start >= end
    ensures !o.continuous ==> end == o.end
    ensures o.workers > 0 ==> Possible(o, es) && Caught(o, Run(o, es), start, end, Filled(ranges))
  {
    hide Cover, Run, Possible, Caught, Filled;
    ranges, start, end, es := [], o.start, o.end, [];
    var rest := heads;
    CoverNothing();
    NothingCaught(o);
    while (start < end || o.continuous) && |ranges| < sends
      invariant |ranges| <= sends && Growing(end, rest) && Base(o) <= end && Base(o) <= start
      invariant forall i :: Cover(ranges, i) + Within(start, end, i) == Within(Base(o), end, i)
      invariant forall k :: 0 <= k < |ranges| ==> ranges[k].count <= o.batch
      invariant !o.continuous ==> end == o.end
      invariant o.workers > 0 ==> Possible(o, es) && Caught(o, Run(o, es), start, end, Filled(ranges))
      decreases sends - |ranges|
    {
      if start == end {
        if rest == [] {
          return;
        }
        if o.workers > 0 {
          es := Regrow(o, es, start, rest[0], Filled(ranges));
        }
        end, rest := rest[0], rest[1..];
      }
      var batchEnd := start + Min(end - start, o.batch);
      var next := Batch(start, if batchEnd > start then batchEnd - start else 0);
      if o.workers > 0 {
        es := HandAndFetch(o, es, start, end, Filled(ranges));
        FilledOne(ranges, next);
      }
      forall i ensures Cover(ranges + [next], i) == Cover(ranges, i) + Within(start, batchEnd, i) {
        CoverAppend(ranges, next, i);
      }
      ranges := ranges + [next];
      start := batchEnd;
    }
  }

  lemma NothingCaught(o: FetcherOptions)
    ensures Possible(o, []) && Caught(o, Run(o, []), o.start, o.end, Filled([]))
  {
  }

  lemma FilledOne(ranges: seq<Batch>, b: Batch)
    ensures Filled(ranges + [b]) == Filled(ranges) + Filled([b])
  {
    FilledAppend(ranges, b);
    FilledAppend([], b);
    assert [] + [b] == [b];
  }

  lemma CoverNothing()
    ensures forall i :: Cover([], i) == 0
  {
  }

  function Answered(answers: seq<Option<nat>>): (n: nat) {
    if answers == [] then 0
    else Answered(answers[..|answers| - 1]) + if answers[|answers| - 1].Some? then answers[|answers| - 1].value else 0
  }

  lemma {:induction false} AnsweredGrows(answers: seq<Option<nat>>, k: nat)
    requires k <= |answers|
    ensures Answered(answers[..k]) <= Answered(answers)
  {
    if k < |answers| {
      AnsweredGrows(answers[..|answers| - 1], k);
      assert answers[..|answers| - 1][..k] == answers[..k];
    } else {
      assert answers[..k] == answers;
    }
  }

  /** runWorker on one range. An answer of n entries means at most n of those asked for; no answer is a
      failed request. The callback gets every entry up to the point reached, once, and that point is
      the end of the range as soon as the answers suffice, however they are cut up. In a run `es` of the
      fetcher in which worker `w` holds the range, these are the worker's next steps. */
  method RunWorker(ghost o: FetcherOptions, ghost es: seq<Event>, ghost w: nat, from: int, last: int,
                   answers: seq<Option<nat>>)
    returns (batches: seq<Batch>, start: int, ghost es': seq<Event>)
    requires Possible(o, es) && w < |Run(o, es).workers| && Run(o, es).workers[w] == Working(from, last)
    ensures start == if from > last then from else Min(from + Answered(answers), last + 1)
    ensures forall i :: Cover(batches, i) == Within(from, start, i)
    ensures Possible(o, es')
    ensures var s := Run(o, es);
            Run(o, es') == s.(workers := s.workers[w := Working(start, last)], delivered := s.delivered + batches)
  {
    hide Cover, Run, Possible, Inv;
    batches, start, es' := [], from, es;
    CoverNothing();
    ghost var s := Run(o, es);
    assert s.workers[w := Working(from, last)] == s.workers && s.delivered + [] == s.delivered;
    var k := 0;
    while start <= last && k < |answers|
      invariant k <= |answers| && from <= start
      invariant start == if from > last then from else Min(from + Answered(answers[..k]), last + 1)
      invariant forall i :: Cover(batches, i) == Within(from, start, i)
      invariant Possible(o, es')
      invariant Run(o, es') == s.(workers := s.workers[w := Working(start, last)], delivered := s.delivered + batches)
    {
      var answer := answers[k];
      assert answers[..k + 1][..k] == answers[..k];
      k := k + 1;
      if answer.None? {
        Extend(o, es', Fail(w));
        es' := es' + [Fail(w)];
        continue;
      }
      var n: nat := Min(answer.value, last - start + 1);
      forall i ensures Cover(batches + [Batch(start, n)], i) == Cover(batches, i) + Within(start, start + n, i) {
        CoverAppend(batches, Batch(start, n), i);
      }
      Extend(o, es', Fetch(w, n));
      es' := es' + [Fetch(w, n)];
      assert s.delivered + batches + [Batch(start, n)] == s.delivered + (batches + [Batch(start, n)]);
      batches := batches + [Batch(start, n)];
      start := start + n;
    }
    AnsweredGrows(answers, k);
    assert k == |answers| ==> answers[..k] == answers;
  }
}
