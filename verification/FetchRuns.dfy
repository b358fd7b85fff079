/**
 The log fetcher of scanner/fetcher.go as a transition system: one range generator, any number of
 workers that take ranges from it over an unbuffered channel, a log that may answer with fewer
 entries than asked, tree heads that grow or cannot be had, Stop, and cancellation of the surrounding
 context. Every interleaving of their steps is a run.
 */
module FetchRuns {
  /** The options after Prepare has fixed the end of the range. */
  datatype FetcherOptions = FetcherOptions(start: int, end: int, batch: nat, workers: nat, continuous: bool)

  /** A worker holds the entries `start` to `last`, both included. */
  datatype Worker = Idle | Working(start: int, last: int) | Exited

  /** `count` consecutive entries from `start` on. */
  datatype Batch = Batch(start: int, count: nat)

  datatype State = State(
    start: int,
    end: int,
    closed: bool,
    stopped: bool,
    cancelled: bool,
    workers: seq<Worker>,
    delivered: seq<Batch>,
    /** What cancelled workers gave up; the program keeps no record of it. */
    dropped: seq<Batch>)

  datatype Event =
    | Hand(w: nat)            // the generator sends its next range, worker w receives it
    | Grow(size: int)         // updateSTH finds a bigger tree
    | GiveUp                  // updateSTH fails, and with it the generator
    | Finish                  // the generator's loop ends
    | Quit                    // the generator notices that it was stopped
    | Fetch(w: nat, n: nat)   // worker w gets n entries and hands them to the callback
    | Fail(w: nat)            // worker w's request fails
    | Rest(w: nat)            // worker w has all of its range
    | Exit(w: nat)            // worker w sees the closed channel
    | Abort(w: nat)           // worker w sees the cancelled context
    | Stop
    | Cancel

  predicate Holds(s: State, w: nat) {
    w < |s.workers| && s.workers[w].Working? && s.workers[w].start <= s.workers[w].last
  }

  predicate Enabled(o: FetcherOptions, s: State, e: Event) {
    match e
    case Hand(w) =>
      w < |s.workers| && s.workers[w].Idle? && !s.closed && s.start != s.end && (s.start < s.end || o.continuous)
    case Grow(size) => !s.closed && o.continuous && s.start == s.end && size > s.end
    case GiveUp => !s.closed && o.continuous && s.start == s.end
    case Finish => !s.closed && s.start >= s.end && !o.continuous
    case Quit => !s.closed && s.stopped && (s.start < s.end || o.continuous)
    case Fetch(w, n) => Holds(s, w) && n <= s.workers[w].last - s.workers[w].start + 1
    case Fail(w) => Holds(s, w)
    case Rest(w) => w < |s.workers| && s.workers[w].Working? && s.workers[w].start > s.workers[w].last
    case Exit(w) => w < |s.workers| && s.workers[w].Idle? && s.closed
    case Abort(w) => Holds(s, w) && s.cancelled
    case Stop => true
    case Cancel => true
  }

  function Min(a: int, b: int): int {
    if a < b then a else b
  }

  function BatchEnd(o: FetcherOptions, s: State): int {
    s.start + Min(s.end - s.start, o.batch)
  }

  function Next(o: FetcherOptions, s: State, e: Event): (s': State)
    requires Enabled(o, s, e)
  {
    match e
    case Hand(w) =>
      s.(workers := s.workers[w := Working(s.start, BatchEnd(o, s) - 1)], start := BatchEnd(o, s))
    case Grow(size) => s.(end := size)
    case GiveUp => s.(closed := true)
    case Finish => s.(closed := true)
    case Quit => s.(closed := true)
    case Fetch(w, n) =>
      var r := s.workers[w];
      s.(workers := s.workers[w := r.(start := r.start + n)], delivered := s.delivered + [Batch(r.start, n)])
    case Fail(w) => s
    case Rest(w) => s.(workers := s.workers[w := Idle])
    case Exit(w) => s.(workers := s.workers[w := Exited])
    case Abort(w) =>
      var r := s.workers[w];
      s.(workers := s.workers[w := Exited], dropped := s.dropped + [Batch(r.start, r.last - r.start + 1)])
    case Stop => s.(stopped := true)
    case Cancel => s.(stopped := true, cancelled := true)
  }

  function Initial(o: FetcherOptions): (s: State) {
    State(o.start, o.end, false, false, false, seq(o.workers, _ => Idle), [], [])
  }

  predicate Possible(o: FetcherOptions, es: seq<Event>)
    decreases |es|, 0
  {
    es == [] || (Possible(o, es[..|es| - 1]) && Enabled(o, Run(o, es[..|es| - 1]), es[|es| - 1]))
  }

  /** The state after the events of `es`; every such state satisfies the invariant. */
  function Run(o: FetcherOptions, es: seq<Event>): (s: State)
    requires Possible(o, es)
    ensures Inv(o, s)
    decreases |es|, 1
  {
    if es == [] then
      InitialInv(o);
      Initial(o)
    else
      var s := Run(o, es[..|es| - 1]);
      StepInv(o, s, es[|es| - 1]);
      Next(o, s, es[|es| - 1])
  }

  // ---------------------------------------------------------------- counting

  function Within(from: int, to: int, i: int): (n: nat) {
    if from <= i < to then 1 else 0
  }

  /** How many of the batches contain entry `i`. */
  function Cover(bs: seq<Batch>, i: int): (n: nat) {
    if bs == [] then 0
    else var b := bs[|bs| - 1]; Cover(bs[..|bs| - 1], i) + Within(b.start, b.start + b.count, i)
  }

  function Share(r: Worker, i: int): (n: nat) {
    if r.Working? then Within(r.start, r.last + 1, i) else 0
  }

  /** How many of the workers still have entry `i` to fetch. */
  function Hold(ws: seq<Worker>, i: int): (n: nat) {
    if ws == [] then 0 else Hold(ws[..|ws| - 1], i) + Share(ws[|ws| - 1], i)
  }

  lemma CoverAppend(bs: seq<Batch>, b: Batch, i: int)
    ensures Cover(bs + [b], i) == Cover(bs, i) + Within(b.start, b.start + b.count, i)
  {
    assert (bs + [b])[..|bs + [b]| - 1] == bs;
  }

  lemma {:induction false} HoldUpdate(ws: seq<Worker>, w: nat, r: Worker, i: int)
    requires w < |ws|
    ensures Hold(ws[w := r], i) == Hold(ws, i) - Share(ws[w], i) + Share(r, i)
  {
    var last := |ws| - 1;
    if w == last {
      assert ws[w := r][..last] == ws[..last];
    } else {
      HoldUpdate(ws[..last], w, r, i);
      assert ws[w := r][..last] == ws[..last][w := r];
    }
  }

  lemma {:induction false} HoldNothing(ws: seq<Worker>, i: int)
    requires forall w :: 0 <= w < |ws| ==> !ws[w].Working?
    ensures Hold(ws, i) == 0
  {
    if ws != [] {
      HoldNothing(ws[..|ws| - 1], i);
    }
  }

  // ---------------------------------------------------------------- the invariant

  /** Where fetching really begins: a start beyond the end is moved back to the end. */
  function Base(o: FetcherOptions): int {
    Min(o.start, o.end)
  }

  /** Every entry from the base to the current end is in exactly one place: delivered, with a worker,
      given up, or not yet generated; no other entry is in any. */
  predicate ConservedAt(o: FetcherOptions, s: State, i: int) {
    Cover(s.delivered, i) + Hold(s.workers, i) + Cover(s.dropped, i) + Within(s.start, s.end, i)
    == Within(Base(o), s.end, i)
  }

  predicate Bounds(o: FetcherOptions, s: State) {
    && |s.workers| == o.workers
    && Base(o) <= s.start && Base(o) <= o.end <= s.end
    && (s.start > s.end ==> s.start == o.start && s.end == o.end)
    && (!o.continuous ==> s.end == o.end)
  }

  predicate Flags(o: FetcherOptions, s: State) {
    && (s.cancelled ==> s.stopped)
    && (!s.cancelled ==> s.dropped == [])
    && (s.closed && !s.stopped ==> s.start >= s.end)
    && (forall w :: 0 <= w < |s.workers| && s.workers[w].Exited? ==> s.closed || s.cancelled)
  }

  ghost predicate Inv(o: FetcherOptions, s: State) {
    Bounds(o, s) && Flags(o, s) && forall i :: ConservedAt(o, s, i)
  }

  lemma InitialInv(o: FetcherOptions)
    ensures Inv(o, Initial(o))
  {
    forall i ensures ConservedAt(o, Initial(o), i) {
      HoldNothing(Initial(o).workers, i);
    }
  }

  lemma StepConserved(o: FetcherOptions, s: State, e: Event, i: int)
    requires Bounds(o, s) && ConservedAt(o, s, i) && Enabled(o, s, e)
    ensures ConservedAt(o, Next(o, s, e), i)
  {
    hide Cover, Hold;
    var s' := Next(o, s, e);
    match e
    case Hand(w) => HoldUpdate(s.workers, w, s'.workers[w], i);
    case Fetch(w, n) =>
      HoldUpdate(s.workers, w, s'.workers[w], i);
      CoverAppend(s.delivered, Batch(s.workers[w].start, n), i);
    case Rest(w) => HoldUpdate(s.workers, w, Idle, i);
    case Exit(w) => HoldUpdate(s.workers, w, Exited, i);
    case Abort(w) =>
      HoldUpdate(s.workers, w, Exited, i);
      CoverAppend(s.dropped, Batch(s.workers[w].start, s.workers[w].last - s.workers[w].start + 1), i);
    case _ =>
  }

  lemma StepInv(o: FetcherOptions, s: State, e: Event)
    requires Inv(o, s) && Enabled(o, s, e)
    ensures Inv(o, Next(o, s, e))
  {
    hide ConservedAt;
    forall i ensures ConservedAt(o, Next(o, s, e), i) {
      StepConserved(o, s, e, i);
    }
  }

  // ---------------------------------------------------------------- what a run delivers

  predicate AllExited(s: State) {
    forall w :: 0 <= w < |s.workers| ==> s.workers[w].Exited?
  }

  /** Exactly the entries from `from` up to `to` were delivered, each once. */
  ghost predicate DeliveredExactly(s: State, from: int, to: int) {
    forall i :: Cover(s.delivered, i) == if from <= i < to then 1 else 0
  }

  /** A run has been stopped exactly when Stop was called or the context cancelled in it. */
  lemma {:induction false} StoppedExactly(o: FetcherOptions, es: seq<Event>)
    requires Possible(o, es)
    ensures Run(o, es).stopped <==> Stop in es || Cancel in es
    ensures Run(o, es).cancelled <==> Cancel in es
    decreases |es|
  {
    hide Inv, Next, Enabled;
    if es != [] {
      var before, e := es[..|es| - 1], es[|es| - 1];
      StoppedExactly(o, before);
      StepStops(o, Run(o, before), e);
      assert es == before + [e];
    } else {
      NotStoppedYet(o);
    }
  }

  lemma StepStops(o: FetcherOptions, s: State, e: Event)
    requires Enabled(o, s, e)
    ensures Next(o, s, e).stopped == (s.stopped || e.Stop? || e.Cancel?)
    ensures Next(o, s, e).cancelled == (s.cancelled || e.Cancel?)
  {
  }

  lemma NotStoppedYet(o: FetcherOptions)
    ensures !Initial(o).stopped && !Initial(o).cancelled
  {
  }

  /** No run delivers an entry twice, or one outside the range, even when it is cancelled. */
  lemma AtMostOnce(o: FetcherOptions, es: seq<Event>, i: int)
    requires Possible(o, es)
    ensures var s := Run(o, es); Cover(s.delivered, i) <= if Base(o) <= i < s.end then 1 else 0
  {
    assert ConservedAt(o, Run(o, es), i);
  }

  /** When Run returns without a cancelled context, the delivered entries are exactly those before
      the point that the generator reached. This covers Stop: what was handed out is completed. */
  lemma StoppedPrefix(o: FetcherOptions, es: seq<Event>)
    requires Possible(o, es) && AllExited(Run(o, es)) && !Run(o, es).cancelled
    ensures var s := Run(o, es); DeliveredExactly(s, Base(o), Min(s.start, s.end))
  {
    var s := Run(o, es);
    forall i ensures Cover(s.delivered, i) == Within(Base(o), Min(s.start, s.end), i) {
      assert ConservedAt(o, s, i);
      HoldNothing(s.workers, i);
    }
  }

  /** A run that ends without being stopped delivers everything up to the last tree head, each entry once;
      when it is not continuous, this is the requested range. A continuous run ends so when a tree head
      cannot be had. */
  lemma CompleteRun(o: FetcherOptions, es: seq<Event>)
    requires Possible(o, es) && AllExited(Run(o, es)) && !Run(o, es).stopped && o.workers > 0
    ensures DeliveredExactly(Run(o, es), Base(o), Run(o, es).end)
    ensures !o.continuous ==> DeliveredExactly(Run(o, es), o.start, o.end)
  {
    var s := Run(o, es);
    assert s.workers[0].Exited?;
    StoppedPrefix(o, es);
  }

  /** Until every worker has returned, somebody can move. */
  lemma NotStuck(o: FetcherOptions, es: seq<Event>)
    requires Possible(o, es) && !AllExited(Run(o, es))
    ensures exists e :: Productive(e) && Enabled(o, Run(o, es), e)
  {
    var s := Run(o, es);
    var w :| 0 <= w < |s.workers| && !s.workers[w].Exited?;
    if s.workers[w].Working? {
      if s.workers[w].start <= s.workers[w].last {
        assert Enabled(o, s, Fetch(w, 1));
      } else {
        assert Enabled(o, s, Rest(w));
      }
    } else if s.closed {
      assert Enabled(o, s, Exit(w));
    } else if s.start == s.end && o.continuous {
      assert Enabled(o, s, Grow(s.end + 1));
    } else if s.start >= s.end && !o.continuous {
      assert Enabled(o, s, Finish);
    } else {
      assert Enabled(o, s, Hand(w));
    }
  }

  // ---------------------------------------------------------------- how long a run can take

  /** Steps that change something for good; failed requests, empty answers and the outside world's
      Stop and Cancel are not among them. */
  predicate Productive(e: Event) {
    !e.Stop? && !e.Cancel? && !e.Fail? && !(e.Fetch? && e.n == 0)
  }

  function Productives(es: seq<Event>): (n: nat) {
    if es == [] then 0 else Productives(es[..|es| - 1]) + if Productive(es[|es| - 1]) then 1 else 0
  }

  function Positive(n: int): nat {
    if n > 0 then n else 0
  }

  function Load(r: Worker): (n: nat) {
    match r
    case Idle => 1
    case Working(start, last) => 2 + 2 * Positive(last - start + 1)
    case Exited => 0
  }

  function Loads(ws: seq<Worker>): (n: nat) {
    if ws == [] then 0 else Loads(ws[..|ws| - 1]) + Load(ws[|ws| - 1])
  }

  lemma {:induction false} LoadsUpdate(ws: seq<Worker>, w: nat, r: Worker)
    requires w < |ws|
    ensures Loads(ws[w := r]) == Loads(ws) - Load(ws[w]) + Load(r)
  {
    var last := |ws| - 1;
    if w == last {
      assert ws[w := r][..last] == ws[..last];
    } else {
      LoadsUpdate(ws[..last], w, r);
      assert ws[w := r][..last] == ws[..last][w := r];
    }
  }

  lemma {:induction false} LoadsIdle(ws: seq<Worker>)
    requires forall w :: 0 <= w < |ws| ==> ws[w].Idle?
    ensures Loads(ws) == |ws|
  {
    if ws != [] {
      LoadsIdle(ws[..|ws| - 1]);
    }
  }

  /** What is left to do. */
  function Work(s: State): (n: nat) {
    4 * Positive(s.end - s.start) + Loads(s.workers) + if s.closed then 0 else 1
  }

  lemma StepWorks(o: FetcherOptions, s: State, e: Event)
    requires Enabled(o, s, e) && !o.continuous && o.batch > 0
    ensures Work(Next(o, s, e)) + (if Productive(e) then 1 else 0) <= Work(s)
  {
    hide Loads;
    var s' := Next(o, s, e);
    match e
    case Hand(w) => LoadsUpdate(s.workers, w, s'.workers[w]);
    case Fetch(w, _) => LoadsUpdate(s.workers, w, s'.workers[w]);
    case Rest(w) => LoadsUpdate(s.workers, w, Idle);
    case Exit(w) => LoadsUpdate(s.workers, w, Exited);
    case Abort(w) => LoadsUpdate(s.workers, w, Exited);
    case _ =>
  }

  lemma {:induction false} WorkBounds(o: FetcherOptions, es: seq<Event>)
    requires Possible(o, es) && !o.continuous && o.batch > 0
    ensures Work(Run(o, es)) + Productives(es) <= Work(Initial(o))
    decreases |es|
  {
    hide Work, Inv;
    if es != [] {
      WorkBounds(o, es[..|es| - 1]);
      StepWorks(o, Run(o, es[..|es| - 1]), es[|es| - 1]);
    }
  }

  /** A run that is not continuous ends: as long as workers are active a productive step can be taken,
      and there are at most so many of them, whatever the log answers in between. */
  lemma Terminates(o: FetcherOptions, es: seq<Event>)
    requires Possible(o, es) && !o.continuous && o.batch > 0
    ensures Productives(es) <= 4 * Positive(o.end - o.start) + o.workers + 1
    ensures !AllExited(Run(o, es)) ==> exists e :: Productive(e) && Enabled(o, Run(o, es), e)
  {
    WorkBounds(o, es);
    LoadsIdle(Initial(o).workers);
    if !AllExited(Run(o, es)) {
      NotStuck(o, es);
    }
  }

  // ---------------------------------------------------------------- entries before the start

  /** No run delivers an entry before the requested start. */
  ghost predicate NeverBehind(o: FetcherOptions) {
    forall es: seq<Event>, k: nat :: Possible(o, es) && k < |Run(o, es).delivered| ==>
      Run(o, es).delivered[k].count > 0 ==> Run(o, es).delivered[k].start >= o.start
  }

  lemma {:induction false} CoverMember(bs: seq<Batch>, k: nat)
    requires k < |bs| && bs[k].count > 0
    ensures Cover(bs, bs[k].start) > 0
  {
    if k < |bs| - 1 {
      CoverMember(bs[..|bs| - 1], k);
    }
  }

  lemma Extend(o: FetcherOptions, es: seq<Event>, e: Event)
    requires Possible(o, es) && Enabled(o, Run(o, es), e)
    ensures Possible(o, es + [e]) && Run(o, es + [e]) == Next(o, Run(o, es), e)
  {
    assert (es + [e])[..|es + [e]| - 1] == es;
  }

  /** In continuous mode with a start beyond the tree, the generator falls back to the tree's end. */
  lemma FallsBack(o: FetcherOptions) returns (es: seq<Event>)
    requires o.batch > 0 && o.workers > 0 && o.continuous && o.start > o.end
    ensures Possible(o, es) && Run(o, es).delivered == [Batch(o.end, 1)]
  {
    hide Inv;
    es := [];
    Extend(o, es, Hand(0));
    es := es + [Hand(0)];
    Extend(o, es, Rest(0));
    es := es + [Rest(0)];
    Extend(o, es, Grow(o.end + 1));
    es := es + [Grow(o.end + 1)];
    Extend(o, es, Hand(0));
    es := es + [Hand(0)];
    Extend(o, es, Fetch(0, 1));
    es := es + [Fetch(0, 1)];
  }

  /** The requested start is respected exactly when it is not beyond the end, or the fetcher is not
      continuous. */
  lemma NeverBehindExactly(o: FetcherOptions)
    requires o.batch > 0 && o.workers > 0
    ensures NeverBehind(o) <==> o.start <= o.end || !o.continuous
  {
    if o.start <= o.end || !o.continuous {
      forall es: seq<Event>, k: nat | Possible(o, es) && k < |Run(o, es).delivered|
        ensures Run(o, es).delivered[k].count > 0 ==> Run(o, es).delivered[k].start >= o.start
      {
        var b := Run(o, es).delivered[k];
        if b.count > 0 {
          CoverMember(Run(o, es).delivered, k);
          AtMostOnce(o, es, b.start);
        }
      }
    } else {
      var es := FallsBack(o);
      assert Run(o, es).delivered[0].start < o.start;
    }
  }
}
