/** The bulk insert past the largest int: what it reports, and when it never returns. */
module BulkOverflow {
  import opened Int32
  import opened Sequences
  import opened Wrappers
  import opened BulkInsert

  // ---------------------------------------------------------------- a count never adds less than was saved

  ghost predicate IntPlan(p: Plan, total: int) {
    0 < p.batch <= MAX_INT && Partition(p.ranges, total) && total <= MAX_INT
  }

  lemma RangeInts(p: Plan, total: int, w: nat)
    requires IntPlan(p, total) && w < |p.ranges|
    ensures 0 <= p.ranges[w].start < p.ranges[w].end <= MAX_INT
  {
    RangeWithin(p, total, w);
  }

  /** Some batch of the run was committed at an offset that overflows. */
  ghost predicate Overflowed(p: Plan, run: seq<Action>)
    requires Legal(p, run)
  {
    run != [] &&
    var init, a := run[..|run| - 1], run[|run| - 1];
    Overflowed(p, init) || (a.Commit? && After(p, init).workers[a.w].offset + p.batch > MAX_INT)
  }

  /** What a batch adds to the counter: the ids it saves, and a whole batch more when it overflows. */
  lemma BatchAdds(p: Plan, w: nat, o: int)
    requires 0 < p.batch <= MAX_INT && w < |p.ranges| && IsInt(o) && o < p.ranges[w].end <= MAX_INT
    ensures Wrap(BatchEnd(p, w, o) - o) ==
            |Interval(o, BatchEnd(p, w, o))| + if o + p.batch > MAX_INT then p.batch else 0
  {
    hide Wrap, Interval, BatchEnd;
    EndOfBatch(p, w, o);
    var e := BatchEnd(p, w, o);
    assert |Interval(o, e)| == if o <= e then e - o else 0;
    WrapOnce(e - o);
  }

  /** Where a batch ends, with and without wrap-around. */
  lemma EndOfBatch(p: Plan, w: nat, o: int)
    requires 0 < p.batch <= MAX_INT && w < |p.ranges| && IsInt(o) && o < p.ranges[w].end <= MAX_INT
    ensures BatchEnd(p, w, o) ==
            if o + p.batch > MAX_INT then o + p.batch - 0x1_0000_0000 else Min(o + p.batch, p.ranges[w].end)
  {
    hide Wrap;
    WrapOnce(o + p.batch);
  }

  lemma UnionSize(a: set<int>, b: set<int>)
    ensures |a + b| <= |a| + |b|
  {
    assert a + b == a + (b - a);
    SubsetCardinality(b - a, b);
  }

  /** Offsets are ints, and only a running worker may be past its end. */
  ghost predicate OffsetsOk(p: Plan, s: State) {
    |s.workers| == |p.ranges| &&
    forall w :: 0 <= w < |s.workers| ==>
      IsInt(s.workers[w].offset) && (s.workers[w].phase.Running? || s.workers[w].offset < p.ranges[w].end)
  }

  ghost function Excess(p: Plan, run: seq<Action>): int
    requires Legal(p, run)
  {
    if Overflowed(p, run) then p.batch else 0
  }

  ghost predicate Overstates(p: Plan, s: State, excess: int)
    requires |s.workers| == |p.ranges|
  {
    s.written + Pending(p, s.workers, |s.workers|) >= |s.saved| + excess
  }

  lemma StepOffsets(p: Plan, total: int, s: State, a: Action)
    requires IntPlan(p, total) && OffsetsOk(p, s) && Enabled(p, s, a)
    ensures OffsetsOk(p, Apply(p, s, a))
  {
    hide Interval, Partition;
  }

  lemma CommitOverstates(p: Plan, total: int, s: State, w: nat, excess: int)
    requires IntPlan(p, total) && OffsetsOk(p, s) && Enabled(p, s, Commit(w)) && Overstates(p, s, excess)
    ensures Overstates(p, Apply(p, s, Commit(w)),
                       excess + if s.workers[w].offset + p.batch > MAX_INT then p.batch else 0)
  {
    hide Wrap, BatchEnd, Interval, Partition;
    var o := s.workers[w].offset;
    RangeInts(p, total, w);
    BatchAdds(p, w, o);
    UnionSize(s.saved, Interval(o, BatchEnd(p, w, o)));
    PendingUpdate(p, s.workers, w, Worker(o, Committed), |s.workers|);
  }

  lemma OtherOverstates(p: Plan, s: State, a: Action, excess: int)
    requires OffsetsOk(p, s) && Enabled(p, s, a) && !a.Commit? && Overstates(p, s, excess)
    ensures Overstates(p, Apply(p, s, a), excess)
  {
    hide Wrap, BatchEnd, Interval;
    PendingUpdate(p, s.workers, a.w, Apply(p, s, a).workers[a.w], |s.workers|);
  }

  lemma {:induction false} RunOverstates(p: Plan, total: int, run: seq<Action>)
    requires IntPlan(p, total) && Legal(p, run)
    ensures OffsetsOk(p, After(p, run)) && Overstates(p, After(p, run), Excess(p, run))
  {
    hide Apply, OffsetsOk, Overstates, Partition;
    if run == [] {
      StartOverstates(p, total);
    } else {
      var init, a := run[..|run| - 1], run[|run| - 1];
      var s := After(p, init);
      RunOverstates(p, total, init);
      StepOffsets(p, total, s, a);
      if a.Commit? {
        CommitOverstates(p, total, s, a.w, Excess(p, init));
        FewerOverstated(p, After(p, run), Excess(p, run),
                        Excess(p, init) + if s.workers[a.w].offset + p.batch > MAX_INT then p.batch else 0);
      } else {
        OtherOverstates(p, s, a, Excess(p, init));
      }
    }
  }

  lemma StartOverstates(p: Plan, total: int)
    requires IntPlan(p, total)
    ensures OffsetsOk(p, Initial(p)) && Overstates(p, Initial(p), 0)
  {
    PendingNone(p, Initial(p).workers, |p.ranges|);
    forall w | 0 <= w < |p.ranges| ensures IsInt(Initial(p).workers[w].offset) { RangeInts(p, total, w); }
  }

  lemma FewerOverstated(p: Plan, s: State, less: int, more: int)
    requires |s.workers| == |p.ranges| && Overstates(p, s, more)
    requires less <= more
    ensures Overstates(p, s, less)
  {
  }

  // ---------------------------------------------------------------- the overflowing batch is not passed by

  /** Before the overflow, worker `w` stands at or before `o`, a whole number of batches away. */
  ghost predicate Approaching(p: Plan, x: Worker, o: int)
    requires p.batch > 0
  {
    x.offset <= o && (o - x.offset) % p.batch == 0 && (x.phase.Committed? ==> x.offset < o)
  }

  lemma BatchCloser(offset: int, o: int, batch: int)
    requires batch > 0 && offset < o && (o - offset) % batch == 0
    ensures offset + batch <= o && (o - (offset + batch)) % batch == 0
  {
    var q := (o - offset) / batch;
    assert o - offset == q * batch;
    MulOrder(q, 0, batch);
    MulOrder(1, q, batch);
    assert o - (offset + batch) == (q - 1) * batch;
    Multiple(q - 1, batch);
  }

  lemma {:induction false} StillApproaching(p: Plan, total: int, run: seq<Action>, w: nat, o: int)
    requires IntPlan(p, total) && Legal(p, run) && w < |p.ranges| && AtBatch(p, w, o) && o + p.batch > MAX_INT
    requires !Overflowed(p, run)
    ensures Approaching(p, After(p, run).workers[w], o)
  {
    if run != [] {
      var init, a := run[..|run| - 1], run[|run| - 1];
      StillApproaching(p, total, init, w, o);
      RunOverstates(p, total, init);
      ApproachStep(p, total, After(p, init), a, w, o);
    }
  }

  lemma ApproachStep(p: Plan, total: int, s: State, a: Action, w: nat, o: int)
    requires IntPlan(p, total) && OffsetsOk(p, s) && Enabled(p, s, a)
    requires w < |p.ranges| && AtBatch(p, w, o) && o + p.batch > MAX_INT && Approaching(p, s.workers[w], o)
    requires a.Commit? ==> s.workers[a.w].offset + p.batch <= MAX_INT
    ensures Approaching(p, Apply(p, s, a).workers[w], o)
  {
    hide Wrap, Interval, Partition, BatchEnd;
    RangeInts(p, total, w);
    if a == Count(w) { BatchCloser(s.workers[w].offset, o, p.batch); }
  }

  /** A worker that stopped has offered its error. */
  lemma {:induction false} StoppedRecorded(p: Plan, run: seq<Action>, w: nat)
    requires Legal(p, run) && w < |p.ranges| && After(p, run).workers[w].phase.Stopped?
    ensures After(p, run).firstError.Some?
  {
    if run != [] {
      var init := run[..|run| - 1];
      if After(p, init).workers[w].phase.Stopped? { StoppedRecorded(p, init, w); }
    }
  }

  lemma JoinedOverflowed(p: Plan, total: int, run: seq<Action>)
    requires IntPlan(p, total) && !NoOverflow(p) && Legal(p, run)
    requires Joined(p, After(p, run)) && After(p, run).firstError.None?
    ensures Overflowed(p, run)
  {
    var w, o :| 0 <= w < |p.ranges| && AtBatch(p, w, o) && o + p.batch > MAX_INT;
    if !Overflowed(p, run) {
      StillApproaching(p, total, run, w, o);
      if After(p, run).workers[w].phase.Stopped? { StoppedRecorded(p, run, w); }
      assert false;
    }
  }

  /**
   The overflow condition is exact. Every report without an error counts the saved ids if
   and only if no batch start overflows; otherwise it counts at least a whole batch too much.
   */
  lemma ErrorFreeReport(p: Plan, total: int, run: seq<Action>)
    requires IntPlan(p, total) && Legal(p, run) && Joined(p, After(p, run)) && After(p, run).firstError.None?
    ensures After(p, run).written == |After(p, run).saved| <==> NoOverflow(p)
    ensures !NoOverflow(p) ==> After(p, run).written >= |After(p, run).saved| + p.batch
  {
    hide Legal, After, NoOverflow, Partition, Overflowed;
    if NoOverflow(p) {
      ReportExact(p, total, run);
    } else {
      JoinedOverflowed(p, total, run);
      RunOverstates(p, total, run);
      PendingNone(p, After(p, run).workers, |p.ranges|);
    }
  }

  // ---------------------------------------------------------------- a worker that never returns

  /** One worker for the largest total, in batches of 2^30. */
  const CYCLE: Plan := Plan([Range(0, MAX_INT)], 0x4000_0000)

  predicate InCycle(o: int) { o == 0 || o == 0x4000_0000 || o == MIN_INT || o == -0x4000_0000 }

  lemma NextInCycle(o: int)
    requires InCycle(o)
    ensures InCycle(Wrap(o + 0x4000_0000)) && o < MAX_INT
  {
  }

  lemma CycleStep(s: State, a: Action)
    requires Enabled(CYCLE, s, a) && InCycle(s.workers[0].offset)
    ensures InCycle(Apply(CYCLE, s, a).workers[0].offset)
  {
    hide Wrap, Interval, BatchEnd, InCycle;
    NextInCycle(s.workers[0].offset);
  }

  /** The offsets wrap around in a cycle of four, so the worker can return only by failing. */
  lemma {:induction false} NeverReturns(run: seq<Action>)
    requires Legal(CYCLE, run)
    ensures InCycle(After(CYCLE, run).workers[0].offset)
    ensures Joined(CYCLE, After(CYCLE, run)) ==> After(CYCLE, run).workers[0].phase.Stopped?
  {
    hide Apply, Enabled;
    if run != [] {
      var init := run[..|run| - 1];
      NeverReturns(init);
      CycleStep(After(CYCLE, init), run[|run| - 1]);
    }
    NextInCycle(After(CYCLE, run).workers[0].offset);
  }

  // ---------------------------------------------------------------- a run that overflows

  /** Worker `w` alone commits and counts `k` batches. */
  function Alone(w: nat, k: nat): seq<Action> {
    if k == 0 then [] else Alone(w, k - 1) + [Commit(w), Count(w)]
  }

  lemma Extended(p: Plan, run: seq<Action>, a: Action)
    requires Legal(p, run) && Enabled(p, After(p, run), a)
    ensures Legal(p, run + [a]) && After(p, run + [a]) == Apply(p, After(p, run), a)
  {
    assert (run + [a])[..|run|] == run;
  }

  /** One batch of one worker, committed and counted. */
  lemma OneBatch(p: Plan, run: seq<Action>, w: nat, o: int)
    requires Legal(p, run) && w < |p.ranges| && o < p.ranges[w].end
    requires After(p, run).workers[w] == Worker(o, Running)
    ensures var longer := run + [Commit(w), Count(w)];
      && Legal(p, longer)
      && After(p, longer).workers[w] == Worker(Wrap(o + p.batch), Running)
      && After(p, longer).saved == After(p, run).saved + Interval(o, BatchEnd(p, w, o))
      && After(p, longer).written == After(p, run).written + Wrap(BatchEnd(p, w, o) - o)
      && After(p, longer).workers == After(p, run).workers[w := Worker(Wrap(o + p.batch), Running)]
      && After(p, longer).firstError == After(p, run).firstError
  {
    hide Wrap, Legal, After, BatchEnd, Interval;
    Extended(p, run, Commit(w));
    Extended(p, run + [Commit(w)], Count(w));
    assert run + [Commit(w)] + [Count(w)] == run + [Commit(w), Count(w)];
  }

  ghost function Nth(p: Plan, w: nat, k: nat): int
    requires w < |p.ranges|
  {
    p.ranges[w].start + k * p.batch
  }

  lemma AloneStarts(p: Plan, w: nat)
    requires w < |p.ranges|
    ensures Alone(w, 0) == [] && Legal(p, []) && Nth(p, w, 0) == p.ranges[w].start
    ensures After(p, []).workers[w] == Worker(p.ranges[w].start, Running)
    ensures After(p, []).saved == Interval(p.ranges[w].start, p.ranges[w].start) == {} && After(p, []).written == 0
  {
    assert 0 * p.batch == 0;
  }

  lemma {:induction false} AloneReaches(p: Plan, w: nat, k: nat)
    requires p.batch > 0 && w < |p.ranges| && 0 <= p.ranges[w].start && p.ranges[w].end <= MAX_INT
    requires Nth(p, w, k) < p.ranges[w].end
    ensures Legal(p, Alone(w, k))
    ensures After(p, Alone(w, k)).workers[w] == Worker(Nth(p, w, k), Running)
    ensures After(p, Alone(w, k)).saved == Interval(p.ranges[w].start, Nth(p, w, k))
    ensures After(p, Alone(w, k)).written == Nth(p, w, k) - p.ranges[w].start >= 0
    decreases k, 0
  {
    hide Legal, After, Wrap, Nth, Interval;
    if k == 0 {
      AloneStarts(p, w);
    } else {
      ReachOneMore(p, w, k - 1);
    }
  }

  lemma WholeBatch(p: Plan, w: nat, o: int)
    requires p.batch > 0 && w < |p.ranges| && 0 <= p.ranges[w].start <= o && o + p.batch < p.ranges[w].end <= MAX_INT
    ensures Wrap(o + p.batch) == o + p.batch && Wrap(BatchEnd(p, w, o) - o) == p.batch
    ensures Interval(p.ranges[w].start, o) + Interval(o, BatchEnd(p, w, o)) == Interval(p.ranges[w].start, o + p.batch)
  {
    assert BatchEnd(p, w, o) == o + p.batch;
  }

  lemma {:induction false} ReachOneMore(p: Plan, w: nat, k: nat)
    requires p.batch > 0 && w < |p.ranges| && 0 <= p.ranges[w].start && p.ranges[w].end <= MAX_INT
    requires Nth(p, w, k + 1) < p.ranges[w].end
    ensures Legal(p, Alone(w, k + 1))
    ensures After(p, Alone(w, k + 1)).workers[w] == Worker(Nth(p, w, k + 1), Running)
    ensures After(p, Alone(w, k + 1)).saved == Interval(p.ranges[w].start, Nth(p, w, k + 1))
    ensures After(p, Alone(w, k + 1)).written == Nth(p, w, k + 1) - p.ranges[w].start >= 0
    decreases k, 1
  {
    hide Legal, After, Wrap, Nth, BatchEnd, Interval;
    var o := Nth(p, w, k);
    NthNext(p, w, k);
    AloneReaches(p, w, k);
    OneBatch(p, Alone(w, k), w, o);
    WholeBatch(p, w, o);
  }

  lemma NthNext(p: Plan, w: nat, k: nat)
    requires w < |p.ranges|
    ensures Nth(p, w, k + 1) == Nth(p, w, k) + p.batch
  {
    assert (k + 1) * p.batch == k * p.batch + p.batch;
  }

  /** The start of a batch as a number of batches from the start of the range. */
  lemma BatchNumber(p: Plan, w: nat, o: int) returns (k: nat)
    requires w < |p.ranges| && AtBatch(p, w, o)
    ensures o == Nth(p, w, k)
  {
    var d := o - p.ranges[w].start;
    k := d / p.batch;
    assert d == p.batch * k + d % p.batch;
  }

  /** If some batch start overflows, a failure-free run adds a whole batch to the counter without saving an id. */
  lemma OverflowMiscounts(p: Plan, total: int)
    requires 0 < p.batch <= MAX_INT && Partition(p.ranges, total) && total <= MAX_INT && !NoOverflow(p)
    ensures exists run :: Miscounts(p, run)
  {
    var w, o :| 0 <= w < |p.ranges| && AtBatch(p, w, o) && o + p.batch > MAX_INT;
    if w > 0 { RangesOrdered(p, total, 0, w); }
    if w + 1 < |p.ranges| { RangesOrdered(p, total, w, |p.ranges| - 1); }
    OverflowingBatch(p, w, o);
  }

  ghost predicate Miscounts(p: Plan, run: seq<Action>) {
    Legal(p, run) && FirstRecorded(run).None? && After(p, run).written == |After(p, run).saved| + p.batch
  }

  /** Past the largest int a batch ends before it begins, and still counts in full. */
  lemma WrappedBatch(p: Plan, w: nat, o: int)
    requires 0 < p.batch <= MAX_INT && w < |p.ranges| && 0 <= o < p.ranges[w].end <= MAX_INT && o + p.batch > MAX_INT
    ensures Interval(o, BatchEnd(p, w, o)) == {} && Wrap(BatchEnd(p, w, o) - o) == p.batch
  {
    assert BatchEnd(p, w, o) == o + p.batch - 0x1_0000_0000;
  }

  lemma OverflowingBatch(p: Plan, w: nat, o: int)
    requires 0 < p.batch <= MAX_INT && w < |p.ranges| && 0 <= p.ranges[w].start && p.ranges[w].end <= MAX_INT
    requires AtBatch(p, w, o) && o + p.batch > MAX_INT
    ensures exists run :: Miscounts(p, run)
  {
    hide Legal, After, Nth, Wrap, BatchEnd, Interval, FirstRecorded;
    var k := BatchNumber(p, w, o);
    AloneReaches(p, w, k);
    OneBatch(p, Alone(w, k), w, o);
    WrappedBatch(p, w, o);
    assert After(p, Alone(w, k + 1)).saved == After(p, Alone(w, k)).saved;
    AloneFailsNowhere(w, k + 1);
    assert Miscounts(p, Alone(w, k + 1));
  }

  lemma {:induction false} AloneFailsNowhere(w: nat, k: nat)
    ensures FirstRecorded(Alone(w, k)).None?
  {
    if k > 0 {
      AloneFailsNowhere(w, k - 1);
      FirstRecordedExtends(Alone(w, k - 1), Commit(w));
      FirstRecordedExtends(Alone(w, k - 1) + [Commit(w)], Count(w));
      assert Alone(w, k - 1) + [Commit(w)] + [Count(w)] == Alone(w, k);
    }
  }

  // ---------------------------------------------------------------- a report that is wrong

  /** Ten records, two workers, everything in one batch. */
  const PLAIN: Plan := Plan([Range(0, 5), Range(5, 10)], MAX_INT)

  /** These are the ranges that ten records and two workers get. */
  method SpawnPlain() returns (r: Option<seq<Range>>)
    ensures r == Some(PLAIN.ranges)
  {
    r := Spawn(10, 2);
    assert (10 + 2 - 1) / 2 == 5;
    var ranges := r.value;
    assert Chunks(ranges, 5, 10);
    assert ranges[0] == Range(0 * 5, Min(0 * 5 + 5, 10));
    assert |ranges| == 2;
    assert ranges[1] == Range(1 * 5, Min(1 * 5 + 5, 10));
    assert ranges == PLAIN.ranges;
  }

  /** Where the second worker stands after each of its batches. */
  const OFFSETS: seq<int> := [5, MIN_INT + 4, 3, MIN_INT + 2, 1, MIN_INT, -1, MAX_INT - 1]

  lemma NextOffset(k: nat)
    requires k < 7
    ensures Wrap(OFFSETS[k] + MAX_INT) == OFFSETS[k + 1] && OFFSETS[k] < 10
  {
    WrapOnce(OFFSETS[k] + MAX_INT);
  }

  /** The first worker, then `k` batches of the second. */
  function PlainRun(k: nat): seq<Action> {
    if k == 0 then [Commit(0), Count(0)] else PlainRun(k - 1) + [Commit(1), Count(1)]
  }

  lemma FirstWorker()
    ensures Legal(PLAIN, PlainRun(0)) && After(PLAIN, PlainRun(0)).firstError.None?
    ensures After(PLAIN, PlainRun(0)).workers == [Worker(MAX_INT, Running), Worker(5, Running)]
  {
    hide Wrap, Interval, BatchEnd;
    assert Legal(PLAIN, []) && After(PLAIN, []) == Initial(PLAIN);
    OneBatch(PLAIN, [], 0, 0);
    assert [] + [Commit(0), Count(0)] == PlainRun(0);
  }

  lemma {:induction false} PlainReaches(k: nat)
    requires k <= 7
    ensures Legal(PLAIN, PlainRun(k)) && After(PLAIN, PlainRun(k)).firstError.None?
    ensures After(PLAIN, PlainRun(k)).workers == [Worker(MAX_INT, Running), Worker(OFFSETS[k], Running)]
  {
    hide Legal, After, Wrap, Interval, BatchEnd;
    if k == 0 {
      FirstWorker();
    } else {
      PlainReaches(k - 1);
      NextOffset(k - 1);
      OneBatch(PLAIN, PlainRun(k - 1), 1, OFFSETS[k - 1]);
    }
  }

  /** A plain input whose error-free report counts at least 2^31 - 1 records too many. */
  lemma WrongReport()
    ensures IntPlan(PLAIN, 10) && !NoOverflow(PLAIN)
    ensures var run := PlainRun(7);
      && Legal(PLAIN, run) && Joined(PLAIN, After(PLAIN, run)) && After(PLAIN, run).firstError.None?
      && After(PLAIN, run).written >= |After(PLAIN, run).saved| + MAX_INT
  {
    hide Legal, After;
    PlainReaches(7);
    assert AtBatch(PLAIN, 1, 5);
    ErrorFreeReport(PLAIN, 10, PlainRun(7));
  }

  // ---------------------------------------------------------------- which error is reported

  /** The exception thrown first may be set second: then the other one is reported. */
  lemma FirstThrownMayLose(e: int, f: int)
    requires e != f
    ensures var p, run := Plan([Range(0, 1), Range(1, 2)], 1), [Throw(0, e), Throw(1, f), Record(1, f), Record(0, e)];
      Legal(p, run) && Joined(p, After(p, run)) && After(p, run).firstError == Some(f)
  {
    var p := Plan([Range(0, 1), Range(1, 2)], 1);
    var r1, r2 := [Throw(0, e)], [Throw(0, e), Throw(1, f)];
    var r3 := r2 + [Record(1, f)];
    assert [] + [Throw(0, e)] == r1 && r1 + [Throw(1, f)] == r2;
    assert r3 + [Record(0, e)] == [Throw(0, e), Throw(1, f), Record(1, f), Record(0, e)];
    Extended(p, [], Throw(0, e));
    Extended(p, r1, Throw(1, f));
    Extended(p, r2, Record(1, f));
    Extended(p, r3, Record(0, e));
  }
}
