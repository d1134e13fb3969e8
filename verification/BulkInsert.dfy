/**
 The parallel bulk insert: contiguous chunks, one worker per chunk, one transaction per
 batch, a shared counter and a shared first error. Integers are 32 bits wide and wrap.
 */
module BulkInsert {
  import opened Int32
  import opened Sequences
  import opened Wrappers

  /** Division truncating toward zero. */
  function Quotient(a: int, b: int): (q: int)
    requires b != 0
  {
    if (a >= 0) == (b > 0) || a == 0 then (if a >= 0 then a else -a) / (if b > 0 then b else -b)
    else -((if a >= 0 then a else -a) / (if b > 0 then b else -b))
  }

  function Min(a: int, b: int): int { if a <= b then a else b }

  // ---------------------------------------------------------------- chunks

  datatype Range = Range(start: int, end: int)

  /** Non-empty ranges that follow one another from 0 to `total`. */
  ghost predicate Partition(ranges: seq<Range>, total: int) {
    && |ranges| > 0 && ranges[0].start == 0 && ranges[|ranges| - 1].end == total
    && (forall w :: 0 <= w < |ranges| ==> ranges[w].start < ranges[w].end)
    && (forall w :: 0 < w < |ranges| ==> ranges[w].start == ranges[w - 1].end)
  }

  lemma ChunkCovers(total: int, workers: int, chunk: int)
    requires total > 0 && workers > 0 && chunk == (total + workers - 1) / workers
    ensures chunk >= 1 && total <= workers * chunk <= total + workers - 1
  {
    assert total + workers - 1 == workers * chunk + (total + workers - 1) % workers;
    MulOrder(chunk, 0, workers);
  }

  lemma DivisionBounds(a: nat, b: nat)
    requires b > 0
    ensures 0 <= a / b && 0 <= b * (a / b) <= a
  {
    assert a == b * (a / b) + a % b;
    MulOrder(0, a / b, b);
  }

  /** The wrapped sum is negative, so the chunks run backwards and never below MIN_INT. */
  lemma NegativeChunk(total: int, workers: int, chunk: int)
    requires 0 < total <= MAX_INT && 0 < workers <= MAX_INT && total + workers - 1 > MAX_INT
    requires chunk == Quotient(Wrap(total + workers - 1), workers)
    ensures chunk <= 0 && MIN_INT <= workers * chunk <= 0
  {
    var lack := 0x1_0000_0000 - (total + workers - 1);
    assert Wrap(total + workers - 1) == -lack;
    DivisionBounds(lack, workers);
    var q := lack / workers;
    assert chunk == -q;
    assert workers * -q == -(workers * q);
  }

  lemma Scaled(w: int, workers: int, chunk: int)
    requires 0 <= w < workers
    ensures chunk >= 0 ==> 0 <= w * chunk && w * chunk + chunk <= workers * chunk
    ensures chunk <= 0 ==> w * chunk <= 0 && w * chunk + chunk >= workers * chunk
  {
    if chunk >= 0 {
      MulOrder(0, w, chunk);
      MulOrder(w + 1, workers, chunk);
    } else {
      MulOrder(0, w, -chunk);
      MulOrder(w + 1, workers, -chunk);
    }
  }

  /** Ranges laid out so far: non-empty, one after the other, from 0 up to `reached`. */
  ghost predicate Chain(ranges: seq<Range>, reached: int) {
    && (|ranges| > 0 ==> ranges[0].start == 0 && ranges[|ranges| - 1].end == reached)
    && (forall w :: 0 <= w < |ranges| ==> ranges[w].start < ranges[w].end)
    && (forall w :: 0 < w < |ranges| ==> ranges[w].start == ranges[w - 1].end)
  }

  /** Every range is one chunk, the last one cut off at the total. */
  ghost predicate Chunks(ranges: seq<Range>, chunk: int, total: int) {
    forall w :: 0 <= w < |ranges| ==> ranges[w] == Range(w * chunk, Min(w * chunk + chunk, total))
  }

  /** The loop that starts the workers, for a usable chunk size and for a wrapped one. */
  method Split(total: int, workers: int, chunk: int) returns (ranges: seq<Range>)
    requires 0 < total <= MAX_INT && 0 < workers <= MAX_INT
    requires (chunk >= 1 && total <= workers * chunk <= MAX_INT) || (chunk <= 0 && MIN_INT <= workers * chunk)
    ensures 0 < |ranges| <= workers
    ensures chunk >= 1 ==> Chain(ranges, total) && Chunks(ranges, chunk, total)
    ensures chunk <= 0 ==> |ranges| == workers && forall w :: 0 <= w < |ranges| ==> ranges[w].end <= ranges[w].start
  {
    hide Wrap;
    ranges := [];
    var w := 0;
    while w < workers
      invariant 0 <= w <= workers && |ranges| == w
      invariant chunk >= 1 ==> Chain(ranges, Min(w * chunk, total)) && Chunks(ranges, chunk, total)
      invariant chunk <= 0 ==> forall j :: 0 <= j < w ==> ranges[j].end <= ranges[j].start
    {
      Scaled(w, workers, chunk);
      assert (w + 1) * chunk == w * chunk + chunk;
      var start := Wrap(w * chunk);
      var end := Min(Wrap(start + chunk), total);
      if start >= total { break; }
      ranges := ranges + [Range(start, end)];
      w := w + 1;
    }
  }

  /**
   The ranges handed to the worker threads, or nothing when the division fails. The
   ranges partition [0, total) if and only if the rounding sum fits into an int; past
   that every range is empty, although a thread is started for each worker.
   */
  method Spawn(total: int, workers: int) returns (r: Option<seq<Range>>)
    requires IsInt(total) && IsInt(workers)
    ensures r.None? <==> workers == 0
    ensures r.Some? && (workers < 0 || total <= 0) ==> r.value == []
    ensures workers > 0 && total > 0 ==> |r.value| <= workers
    ensures workers > 0 && total > 0 ==> (Partition(r.value, total) <==> total + workers - 1 <= MAX_INT)
    ensures workers > 0 && total > 0 && total + workers - 1 <= MAX_INT ==>
      Chunks(r.value, (total + workers - 1) / workers, total)
    ensures workers > 0 && total > 0 && total + workers - 1 > MAX_INT ==>
      |r.value| == workers && forall w :: 0 <= w < |r.value| ==> r.value[w].end <= r.value[w].start
  {
    if workers == 0 { return None; }
    var chunk := Quotient(Wrap(total + workers - 1), workers);
    if workers < 0 || total <= 0 { return Some([]); }
    if total + workers - 1 <= MAX_INT {
      ChunkCovers(total, workers, chunk);
    } else {
      NegativeChunk(total, workers, chunk);
    }
    var ranges := Split(total, workers, chunk);
    return Some(ranges);
  }

  // ---------------------------------------------------------------- the protocol

  /** What the workers share: the ranges and the batch size. */
  datatype Plan = Plan(ranges: seq<Range>, batch: int)

  /**
   A worker between two steps: about to run a batch or finished, committed but not yet
   counted, with an exception caught but not yet offered as the first error, or stopped.
   */
  datatype Phase = Running | Committed | Thrown(error: int) | Stopped

  datatype Worker = Worker(offset: int, phase: Phase)

  datatype State = State(workers: seq<Worker>, saved: set<int>, written: int, firstError: Option<int>)

  /** A worker commits its batch, adds it to the counter, fails, or offers its error as the first one. */
  datatype Action = Commit(w: nat) | Count(w: nat) | Throw(w: nat, error: int) | Record(w: nat, error: int)

  function Initial(p: Plan): (s: State) {
    State(seq(|p.ranges|, w requires 0 <= w < |p.ranges| => Worker(p.ranges[w].start, Running)), {}, 0, None)
  }

  function BatchEnd(p: Plan, w: nat, offset: int): int
    requires w < |p.ranges|
  {
    Min(Wrap(offset + p.batch), p.ranges[w].end)
  }

  /** The ids of a batch. */
  function Interval(a: int, b: int): (s: set<int>)
    ensures forall i :: i in s <==> a <= i < b
    ensures |s| == if a <= b then b - a else 0
    decreases b - a
  {
    if a < b then Interval(a, b - 1) + {b - 1} else {}
  }

  predicate Enabled(p: Plan, s: State, a: Action) {
    && |s.workers| == |p.ranges| && a.w < |s.workers|
    && match a
       case Count(w) => s.workers[w].phase.Committed?
       case Record(w, error) => s.workers[w].phase == Thrown(error)
       case _ => s.workers[a.w].phase.Running? && s.workers[a.w].offset < p.ranges[a.w].end
  }

  function Apply(p: Plan, s: State, a: Action): (t: State)
    requires Enabled(p, s, a)
    ensures |t.workers| == |s.workers|
  {
    var offset := s.workers[a.w].offset;
    match a
    case Commit(w) =>
      s.(workers := s.workers[w := Worker(offset, Committed)], saved := s.saved + Interval(offset, BatchEnd(p, w, offset)))
    case Count(w) =>
      s.(workers := s.workers[w := Worker(Wrap(offset + p.batch), Running)],
         written := s.written + Wrap(BatchEnd(p, w, offset) - offset))
    case Throw(w, error) => s.(workers := s.workers[w := Worker(offset, Thrown(error))])
    case Record(w, error) =>
      s.(workers := s.workers[w := Worker(offset, Stopped)],
         firstError := if s.firstError.None? then Some(error) else s.firstError)
  }

  /** The actions can happen in this order. */
  predicate Legal(p: Plan, run: seq<Action>)
    decreases |run|, 0
  {
    run == [] || (Legal(p, run[..|run| - 1]) && Enabled(p, After(p, run[..|run| - 1]), run[|run| - 1]))
  }

  function After(p: Plan, run: seq<Action>): (s: State)
    requires Legal(p, run)
    ensures |s.workers| == |p.ranges|
    decreases |run|, 1
  {
    if run == [] then Initial(p) else Apply(p, After(p, run[..|run| - 1]), run[|run| - 1])
  }

  /** Every worker has returned, so the joins succeed and the result is reported. */
  ghost predicate Joined(p: Plan, s: State)
    requires |s.workers| == |p.ranges|
  {
    forall w :: 0 <= w < |s.workers| ==>
      s.workers[w].phase.Stopped? || (s.workers[w].phase.Running? && s.workers[w].offset >= p.ranges[w].end)
  }

  // ---------------------------------------------------------------- the invariant

  /** No reachable offset of a worker overflows when the batch size is added. */
  ghost predicate NoOverflow(p: Plan) {
    forall w, o :: 0 <= w < |p.ranges| && AtBatch(p, w, o) ==> o + p.batch <= MAX_INT
  }

  /** `o` begins a batch of worker `w`. */
  ghost predicate AtBatch(p: Plan, w: nat, o: int)
    requires w < |p.ranges|
  {
    p.batch > 0 && p.ranges[w].start <= o < p.ranges[w].end && (o - p.ranges[w].start) % p.batch == 0
  }

  /** What worker `w` has saved ends here. */
  ghost function Reached(p: Plan, w: nat, x: Worker): int
    requires w < |p.ranges|
  {
    var end := p.ranges[w].end;
    if x.phase.Committed? then Min(x.offset + p.batch, end) else Min(x.offset, end)
  }

  ghost predicate OwnedBy(p: Plan, s: State, id: int, w: nat)
    requires |s.workers| == |p.ranges| && w < |p.ranges|
  {
    p.ranges[w].start <= id < Reached(p, w, s.workers[w])
  }

  ghost predicate Owned(p: Plan, s: State, id: int)
    requires |s.workers| == |p.ranges|
  {
    exists w :: 0 <= w < |s.workers| && OwnedBy(p, s, id, w)
  }

  /** What worker `w` is about to add to the counter. */
  ghost function Uncounted(p: Plan, w: nat, x: Worker): int
    requires w < |p.ranges|
  {
    if x.phase.Committed? then Wrap(BatchEnd(p, w, x.offset) - x.offset) else 0
  }

  ghost function Pending(p: Plan, workers: seq<Worker>, k: nat): int
    requires k <= |workers| == |p.ranges|
  {
    if k == 0 then 0 else Pending(p, workers, k - 1) + Uncounted(p, k - 1, workers[k - 1])
  }

  ghost predicate WorkerOk(p: Plan, w: nat, x: Worker)
    requires w < |p.ranges| && p.batch > 0
  {
    && p.ranges[w].start <= x.offset && (x.offset - p.ranges[w].start) % p.batch == 0
    && (x.phase.Running? || x.offset < p.ranges[w].end)
  }

  ghost predicate PlanOk(p: Plan, total: int) {
    p.batch > 0 && Partition(p.ranges, total) && total <= MAX_INT && NoOverflow(p)
  }

  /**
   Saved ids are one batch-aligned prefix per worker, the counter lags only by the batches
   between commit and count, and an error is recorded exactly when some worker stopped.
   */
  ghost predicate Inv(p: Plan, s: State) {
    && p.batch > 0 && |s.workers| == |p.ranges|
    && (forall w :: 0 <= w < |s.workers| ==> WorkerOk(p, w, s.workers[w]))
    && (forall id :: id in s.saved <==> Owned(p, s, id))
    && s.written + Pending(p, s.workers, |s.workers|) == |s.saved|
    && (s.firstError.Some? <==> exists w :: 0 <= w < |s.workers| && s.workers[w].phase.Stopped?)
  }

  lemma {:induction false} PendingUpdate(p: Plan, before: seq<Worker>, w: nat, x: Worker, k: nat)
    requires k <= |before| == |p.ranges| && w < |before|
    ensures Pending(p, before[w := x], k) ==
            Pending(p, before, k) + (if w < k then Uncounted(p, w, x) - Uncounted(p, w, before[w]) else 0)
  {
    if k > 0 { PendingUpdate(p, before, w, x, k - 1); }
  }

  lemma {:induction false} RangesOrdered(p: Plan, total: int, v: nat, w: nat)
    requires Partition(p.ranges, total) && v < w < |p.ranges|
    ensures p.ranges[v].end <= p.ranges[w].start
    decreases w - v
  {
    if v + 1 < w { RangesOrdered(p, total, v, w - 1); }
  }

  /** Different workers never own the same id. */
  lemma OneOwner(p: Plan, total: int, s: State, id: int, v: nat, w: nat)
    requires Partition(p.ranges, total) && |s.workers| == |p.ranges|
    requires v < |p.ranges| && w < |p.ranges|
    requires OwnedBy(p, s, id, v) && p.ranges[w].start <= id < p.ranges[w].end
    ensures v == w
  {
    if v < w { RangesOrdered(p, total, v, w); }
    if w < v { RangesOrdered(p, total, w, v); }
  }

  lemma NextBatch(start: int, offset: int, batch: int)
    requires batch > 0 && (offset - start) % batch == 0
    ensures (offset + batch - start) % batch == 0
  {
    var q := (offset - start) / batch;
    assert offset - start == q * batch;
    assert offset + batch - start == (q + 1) * batch;
    Multiple(q + 1, batch);
  }

  lemma Multiple(q: int, batch: int)
    requires batch > 0
    ensures (q * batch) % batch == 0
  {
    var x := q * batch;
    assert x == batch * (x / batch) + x % batch;
    assert x % batch == batch * (q - x / batch);
    var d := q - x / batch;
    MulOrder(1, d, batch);
    MulOrder(d, -1, batch);
    assert d == 0;
  }

  // ---------------------------------------------------------------- one step

  /** At a batch boundary the 32-bit arithmetic of the loop is exact. */
  lemma StepArithmetic(p: Plan, total: int, w: nat, o: int)
    requires PlanOk(p, total) && w < |p.ranges| && AtBatch(p, w, o)
    ensures 0 <= o && Wrap(o + p.batch) == o + p.batch
    ensures BatchEnd(p, w, o) == Min(o + p.batch, p.ranges[w].end)
    ensures Wrap(BatchEnd(p, w, o) - o) == BatchEnd(p, w, o) - o > 0
  {
    if w > 0 { RangesOrdered(p, total, 0, w); }
  }

  /** Reaching the same ids means owning the same ids. */
  lemma SameOwned(p: Plan, s: State, t: State)
    requires |s.workers| == |t.workers| == |p.ranges|
    requires forall w :: 0 <= w < |s.workers| ==> Reached(p, w, s.workers[w]) == Reached(p, w, t.workers[w])
    ensures forall id :: Owned(p, s, id) <==> Owned(p, t, id)
  {
    forall id ensures Owned(p, s, id) <==> Owned(p, t, id) {
      if Owned(p, s, id) {
        var w :| 0 <= w < |s.workers| && OwnedBy(p, s, id, w);
        assert OwnedBy(p, t, id, w);
      }
      if Owned(p, t, id) {
        var w :| 0 <= w < |s.workers| && OwnedBy(p, t, id, w);
        assert OwnedBy(p, s, id, w);
      }
    }
  }

  lemma CommitOwned(p: Plan, total: int, s: State, w: nat)
    requires PlanOk(p, total) && Inv(p, s) && Enabled(p, s, Commit(w))
    ensures var t, o := Apply(p, s, Commit(w)), s.workers[w].offset;
      && s.saved !! Interval(o, BatchEnd(p, w, o))
      && forall id :: id in t.saved <==> Owned(p, t, id)
  {
    var t, o := Apply(p, s, Commit(w)), s.workers[w].offset;
    assert AtBatch(p, w, o);
    StepArithmetic(p, total, w, o);
    var batch := Interval(o, BatchEnd(p, w, o));
    forall id | id in s.saved ensures id !in batch {
      var v :| 0 <= v < |s.workers| && OwnedBy(p, s, id, v);
      if id in batch {
        OneOwner(p, total, s, id, v, w);
        assert false;
      }
    }
    forall id ensures id in t.saved <==> Owned(p, t, id) {
      if id in batch {
        assert OwnedBy(p, t, id, w);
      } else if id in s.saved {
        var v :| 0 <= v < |s.workers| && OwnedBy(p, s, id, v);
        assert OwnedBy(p, t, id, v);
      }
      if Owned(p, t, id) {
        var v :| 0 <= v < |t.workers| && OwnedBy(p, t, id, v);
        assert v != w || id < o ==> OwnedBy(p, s, id, v);
      }
    }
  }

  lemma StepCommit(p: Plan, total: int, s: State, w: nat)
    requires PlanOk(p, total) && Inv(p, s) && Enabled(p, s, Commit(w))
    ensures Inv(p, Apply(p, s, Commit(w)))
  {
    hide Owned, Wrap, NoOverflow, Partition;
    var t, o := Apply(p, s, Commit(w)), s.workers[w].offset;
    assert AtBatch(p, w, o);
    StepArithmetic(p, total, w, o);
    CommitOwned(p, total, s, w);
    PendingUpdate(p, s.workers, w, Worker(o, Committed), |s.workers|);
    forall v | 0 <= v < |s.workers| ensures t.workers[v].phase.Stopped? <==> s.workers[v].phase.Stopped? { }
  }

  lemma StepCount(p: Plan, total: int, s: State, w: nat)
    requires PlanOk(p, total) && Inv(p, s) && Enabled(p, s, Count(w))
    ensures Inv(p, Apply(p, s, Count(w)))
  {
    hide Owned, Wrap, NoOverflow, Partition;
    var t, o := Apply(p, s, Count(w)), s.workers[w].offset;
    assert WorkerOk(p, w, s.workers[w]);
    assert AtBatch(p, w, o);
    StepArithmetic(p, total, w, o);
    NextBatch(p.ranges[w].start, o, p.batch);
    PendingUpdate(p, s.workers, w, Worker(o + p.batch, Running), |s.workers|);
    SameOwned(p, s, t);
    forall v | 0 <= v < |s.workers| ensures t.workers[v].phase.Stopped? <==> s.workers[v].phase.Stopped? { }
  }

  lemma StepThrow(p: Plan, s: State, w: nat, error: int)
    requires Inv(p, s) && Enabled(p, s, Throw(w, error))
    ensures Inv(p, Apply(p, s, Throw(w, error)))
  {
    hide Owned, Wrap, NoOverflow, Partition;
    var t, o := Apply(p, s, Throw(w, error)), s.workers[w].offset;
    PendingUpdate(p, s.workers, w, Worker(o, Thrown(error)), |s.workers|);
    SameOwned(p, s, t);
    forall v | 0 <= v < |s.workers| ensures t.workers[v].phase.Stopped? <==> s.workers[v].phase.Stopped? { }
  }

  lemma StepRecord(p: Plan, s: State, w: nat, error: int)
    requires Inv(p, s) && Enabled(p, s, Record(w, error))
    ensures Inv(p, Apply(p, s, Record(w, error)))
  {
    hide Owned, Wrap, NoOverflow, Partition;
    var t, o := Apply(p, s, Record(w, error)), s.workers[w].offset;
    PendingUpdate(p, s.workers, w, Worker(o, Stopped), |s.workers|);
    SameOwned(p, s, t);
    assert t.workers[w].phase.Stopped?;
  }

  lemma {:induction false} PendingNone(p: Plan, workers: seq<Worker>, k: nat)
    requires k <= |workers| == |p.ranges|
    requires forall w :: 0 <= w < k ==> !workers[w].phase.Committed?
    ensures Pending(p, workers, k) == 0
  {
    if k > 0 { PendingNone(p, workers, k - 1); }
  }

  lemma InitialInv(p: Plan, total: int)
    requires PlanOk(p, total)
    ensures Inv(p, Initial(p))
  {
    var s := Initial(p);
    PendingNone(p, s.workers, |s.workers|);
    forall w | 0 <= w < |s.workers| ensures WorkerOk(p, w, s.workers[w]) && Reached(p, w, s.workers[w]) == p.ranges[w].start { }
  }

  // ---------------------------------------------------------------- every run

  lemma {:induction false} RunInvariant(p: Plan, total: int, run: seq<Action>)
    requires PlanOk(p, total) && Legal(p, run)
    ensures Inv(p, After(p, run))
  {
    hide Inv, PlanOk;
    if run == [] {
      InitialInv(p, total);
    } else {
      var init, a := run[..|run| - 1], run[|run| - 1];
      RunInvariant(p, total, init);
      match a
      case Commit(w) => StepCommit(p, total, After(p, init), w);
      case Count(w) => StepCount(p, total, After(p, init), w);
      case Throw(w, error) => StepThrow(p, After(p, init), w, error);
      case Record(w, error) => StepRecord(p, After(p, init), w, error);
    }
  }

  lemma PositiveTotal(p: Plan, total: int)
    requires Partition(p.ranges, total)
    ensures total > 0
  {
    assert p.ranges[0].start < p.ranges[0].end;
    if |p.ranges| > 1 { RangesOrdered(p, total, 0, |p.ranges| - 1); }
  }

  /** Every id below the total belongs to the range of some worker. */
  lemma {:induction false} RangeOf(p: Plan, total: int, id: int, k: nat) returns (w: nat)
    requires Partition(p.ranges, total) && k < |p.ranges| && p.ranges[k].start <= id < total
    ensures w < |p.ranges| && p.ranges[w].start <= id < p.ranges[w].end
    decreases |p.ranges| - k
  {
    if id < p.ranges[k].end { w := k; } else { w := RangeOf(p, total, id, k + 1); }
  }

  lemma RangeWithin(p: Plan, total: int, w: nat)
    requires Partition(p.ranges, total) && w < |p.ranges|
    ensures 0 <= p.ranges[w].start && p.ranges[w].end <= total
  {
    if w > 0 { RangesOrdered(p, total, 0, w); }
    if w + 1 < |p.ranges| { RangesOrdered(p, total, w, |p.ranges| - 1); }
  }

  lemma SavedWithinTotal(p: Plan, total: int, s: State)
    requires PlanOk(p, total) && Inv(p, s)
    ensures s.saved <= Interval(0, total)
  {
    hide NoOverflow, Partition, Pending, WorkerOk, Interval;
    forall id | id in s.saved ensures 0 <= id < total {
      var w :| 0 <= w < |s.workers| && OwnedBy(p, s, id, w);
      RangeWithin(p, total, w);
    }
  }

  /** The first id of a failed batch is missing. */
  lemma MissingWhenStopped(p: Plan, total: int, s: State, w: nat)
    requires PlanOk(p, total) && Inv(p, s) && w < |s.workers| && s.workers[w].phase.Stopped?
    ensures s.workers[w].offset !in s.saved && 0 <= s.workers[w].offset < total
  {
    var id := s.workers[w].offset;
    assert WorkerOk(p, w, s.workers[w]);
    RangeWithin(p, total, w);
    if id in s.saved {
      var v :| 0 <= v < |s.workers| && OwnedBy(p, s, id, v);
      OneOwner(p, total, s, id, v, w);
      assert false;
    }
  }

  lemma JoinedWithoutError(p: Plan, total: int, s: State)
    requires PlanOk(p, total) && Inv(p, s) && Joined(p, s) && s.firstError.None?
    ensures Interval(0, total) <= s.saved
  {
    forall id | 0 <= id < total ensures id in s.saved {
      var w := RangeOf(p, total, id, 0);
      assert !s.workers[w].phase.Stopped?;
      assert OwnedBy(p, s, id, w);
    }
  }

  /** One batch-aligned prefix per worker, and nothing else. */
  ghost predicate SavedPrefixes(p: Plan, s: State)
    requires |s.workers| == |p.ranges| && p.batch > 0
  {
    && (forall id :: id in s.saved <==> Owned(p, s, id))
    && (forall w :: 0 <= w < |s.workers| ==> WorkerOk(p, w, s.workers[w]))
  }

  /**
   Whatever the interleaving and whichever batches fail: once every worker has returned,
   the counter is the number of saved ids, those are one batch-aligned prefix per worker,
   and the counter is the requested total if and only if no error is reported.
   */
  lemma ReportExact(p: Plan, total: int, run: seq<Action>)
    requires PlanOk(p, total) && Legal(p, run) && Joined(p, After(p, run))
    ensures var s := After(p, run);
      && s.written == |s.saved| && SavedPrefixes(p, s)
      && s.saved <= Interval(0, total)
      && (s.written == total <==> s.firstError.None?)
      && (s.firstError.None? <==> s.saved == Interval(0, total))
  {
    hide Owned, WorkerOk, NoOverflow, Legal, After;
    var s := After(p, run);
    RunInvariant(p, total, run);
    PendingNone(p, s.workers, |s.workers|);
    SavedWithinTotal(p, total, s);
    assert |Interval(0, total)| == total by { PositiveTotal(p, total); }
    SubsetCardinality(s.saved, Interval(0, total));
    if s.firstError.None? {
      JoinedWithoutError(p, total, s);
      assert s.saved == Interval(0, total);
    } else {
      var w :| 0 <= w < |s.workers| && s.workers[w].phase.Stopped?;
      MissingWhenStopped(p, total, s, w);
      assert s.workers[w].offset in Interval(0, total);
    }
  }

  // ---------------------------------------------------------------- the first error

  ghost function FirstRecorded(run: seq<Action>): Option<int> {
    if run == [] then None
    else if run[0].Record? then Some(run[0].error)
    else FirstRecorded(run[1..])
  }

  lemma {:induction false} FirstRecordedExtends(run: seq<Action>, a: Action)
    ensures FirstRecorded(run + [a]) ==
            if FirstRecorded(run).Some? then FirstRecorded(run) else if a.Record? then Some(a.error) else None
  {
    if run != [] {
      FirstRecordedExtends(run[1..], a);
      assert (run + [a])[1..] == run[1..] + [a];
    }
  }

  /** The reported error is the first one set, in every run. */
  lemma {:induction false} FirstErrorWins(p: Plan, run: seq<Action>)
    requires Legal(p, run)
    ensures After(p, run).firstError == FirstRecorded(run)
  {
    if run != [] {
      var init, a := run[..|run| - 1], run[|run| - 1];
      FirstErrorWins(p, init);
      FirstRecordedExtends(init, a);
      assert run == init + [a];
    }
  }

  // ---------------------------------------------------------------- every run ends

  ghost function Work(p: Plan, w: nat, x: Worker): nat
    requires w < |p.ranges|
  {
    var left := p.ranges[w].end - x.offset;
    if left <= 0 || x.phase.Stopped? then 0
    else match x.phase
      case Running => 2 * left
      case Committed => 2 * left - 1
      case _ => 1
  }

  ghost function Remaining(p: Plan, workers: seq<Worker>, k: nat): nat
    requires k <= |workers| == |p.ranges|
  {
    if k == 0 then 0 else Remaining(p, workers, k - 1) + Work(p, k - 1, workers[k - 1])
  }

  lemma {:induction false} RemainingUpdate(p: Plan, before: seq<Worker>, w: nat, x: Worker, k: nat)
    requires k <= |before| == |p.ranges| && w < |before|
    ensures Remaining(p, before[w := x], k) ==
            Remaining(p, before, k) + (if w < k then Work(p, w, x) - Work(p, w, before[w]) else 0)
  {
    if k > 0 { RemainingUpdate(p, before, w, x, k - 1); }
  }

  lemma {:induction false} InitialRemaining(p: Plan, total: int, k: nat)
    requires Partition(p.ranges, total) && 0 < k <= |p.ranges|
    ensures Remaining(p, Initial(p).workers, k) == 2 * p.ranges[k - 1].end
  {
    if k > 1 { InitialRemaining(p, total, k - 1); } else { assert Remaining(p, Initial(p).workers, 0) == 0; }
  }

  lemma StepWork(p: Plan, total: int, s: State, a: Action)
    requires PlanOk(p, total) && Inv(p, s) && Enabled(p, s, a)
    ensures Remaining(p, Apply(p, s, a).workers, |s.workers|) < Remaining(p, s.workers, |s.workers|)
  {
    hide Wrap, NoOverflow, Partition, Owned;
    var w, o := a.w, s.workers[a.w].offset;
    assert WorkerOk(p, w, s.workers[w]);
    assert AtBatch(p, w, o);
    StepArithmetic(p, total, w, o);
    RemainingUpdate(p, s.workers, w, Apply(p, s, a).workers[w], |s.workers|);
  }

  /** No run takes more than two steps per id. */
  lemma {:induction false} RunLength(p: Plan, total: int, run: seq<Action>)
    requires PlanOk(p, total) && Legal(p, run)
    ensures |run| + Remaining(p, After(p, run).workers, |p.ranges|) <= 2 * total
  {
    if run == [] {
      InitialRemaining(p, total, |p.ranges|);
    } else {
      var init := run[..|run| - 1];
      RunLength(p, total, init);
      RunInvariant(p, total, init);
      StepWork(p, total, After(p, init), run[|run| - 1]);
    }
  }

  /** A run that cannot be extended has joined, and the other way round. */
  lemma JoinedIffStuck(p: Plan, s: State)
    requires |s.workers| == |p.ranges|
    ensures Joined(p, s) <==> forall a :: !Enabled(p, s, a)
  {
    if !Joined(p, s) {
      var w :| 0 <= w < |s.workers| &&
        !(s.workers[w].phase.Stopped? || (s.workers[w].phase.Running? && s.workers[w].offset >= p.ranges[w].end));
      var phase := s.workers[w].phase;
      assert if phase.Thrown? then Enabled(p, s, Record(w, phase.error)) else Enabled(p, s, Commit(w)) || Enabled(p, s, Count(w));
    }
  }

  // ---------------------------------------------------------------- the limits of int

  /** Room for one more batch above the last id rules every overflow out. */
  lemma RoomForABatch(p: Plan, total: int)
    requires p.batch > 0 && Partition(p.ranges, total) && total - 1 + p.batch <= MAX_INT
    ensures PlanOk(p, total)
  {
    forall w, o | 0 <= w < |p.ranges| && AtBatch(p, w, o) ensures o + p.batch <= MAX_INT {
      if w + 1 < |p.ranges| { RangesOrdered(p, total, w, |p.ranges| - 1); }
    }
  }

  /** With empty ranges, as after a wrapped chunk size, nothing happens and nothing is reported. */
  lemma NothingInserted(p: Plan, run: seq<Action>)
    requires Legal(p, run) && forall w :: 0 <= w < |p.ranges| ==> p.ranges[w].end <= p.ranges[w].start
    ensures run == [] && Joined(p, After(p, run))
  {
    if run != [] {
      NothingInserted(p, run[..|run| - 1]);
    }
  }
}
