/** Whole runs of the pipelined map cursor, for every source, every read and every readiness. */
module CursorRuns {
  import opened Wrappers
  import opened CursorStep

  /** The state after `n` further calls with a live context. */
  function Run(f: Feed, s: State, n: nat): State
    requires f.size > 0
  {
    if n == 0 then s else Next(f, Run(f, s, n - 1), false).0
  }

  /** The answer to call `n` from there, counting from zero. */
  function Answer(f: Feed, s: State, n: nat): Result
    requires f.size > 0
  {
    Next(f, Run(f, s, n), false).1
  }

  // ---------------------------------------------------------------- what every call keeps

  ghost predicate Entries(f: Feed, n: nat) { forall k :: 0 <= k < n ==> f.source(k).Entry? }

  ghost predicate AllLoaded(f: Feed, n: nat) { forall k :: 0 <= k < n ==> f.load(k).Loaded? }

  /** Neither failed nor at the end. */
  predicate Running(s: State) { s.failure.None? && (s.last.Some? ==> s.last.value.Row?) }

  /** The scan ended at pull `k` for the reason of the stop; under a time limit read `n` was found pending. */
  ghost predicate Ends(f: Feed, stop: Result, n: nat, k: nat)
    requires stop.Stop?
  {
    && Entries(f, k) && f.source(k).NoNext? && f.source(k).reason == stop.reason
    && if n == k then stop.continuation == f.source(k).continuation
       else stop.reason == TimeLimitReached && 0 < n < k && stop.continuation == n && exists t :: !f.ready(n, t)
  }

  ghost predicate LastRow(f: Feed, s: State) {
    match s.last
    case None => s.returned == 0
    case Some(Row(row, position)) => position + 1 == s.returned && f.load(position) == Loaded(row)
    case Some(Stop(_, _)) => s.stop == s.last && s.count == 0 && s.failure.None?
    case Some(_) => false
  }

  /** What holds of a cursor that was never closed. */
  ghost predicate Coherent(f: Feed, s: State) {
    && !s.closed && s.count <= f.size && s.pulled <= s.returned + f.size
    && Entries(f, s.returned + s.count) && AllLoaded(f, s.returned) && LastRow(f, s)
    && (s.failure.None? && s.stop.None? ==> s.pulled == s.returned + s.count)
    && (s.failure.None? && s.stop.Some? ==>
        s.pulled > 0 && s.stop.value.Stop? && Ends(f, s.stop.value, s.returned + s.count, s.pulled - 1))
  }

  lemma {:induction false} CutCoherent(f: Feed, s: State, keep: nat)
    requires Coherent(f, s) && Running(s) && s.stop.Some? && s.last.Some? && keep <= s.count
    requires s.stop.value.reason == TimeLimitReached && s.pulled == s.returned + s.count + 1
    ensures Coherent(f, Cut(f, s, keep))
    decreases s.count - keep
  {
    if keep < s.count {
      if !f.ready(s.returned + keep, s.clock) {
      } else if f.load(s.returned + keep).Loaded? {
        CutCoherent(f, s.(clock := s.clock + 1), keep + 1);
      }
    }
  }

  lemma {:induction false} FilledCoherent(f: Feed, s: State)
    requires Coherent(f, s) && Running(s)
    ensures Coherent(f, Filled(f, s))
    decreases f.size - s.count
  {
    hide Cut, AllLoaded;
    if s.stop.None? && s.count < f.size {
      match f.source(s.pulled) {
        case SourceError(_) =>
        case NoNext(reason, continuation) =>
          var t := s.(pulled := s.pulled + 1, stop := Some(Stop(reason, continuation)));
          if reason == TimeLimitReached && s.last.Some? { CutCoherent(f, t, 0); }
        case Entry =>
          FilledCoherent(f, s.(pulled := s.pulled + 1, count := s.count + 1, clock := s.clock + 1));
      }
    }
  }

  /** Filling touches neither the rows nor the last result. */
  lemma {:induction false} FilledKeeps(f: Feed, s: State)
    ensures var t := Filled(f, s); t.returned == s.returned && t.last == s.last && t.closed == s.closed
    decreases f.size - s.count
  {
    if s.stop.None? && s.count < f.size {
      match f.source(s.pulled) {
        case SourceError(_) =>
        case NoNext(reason, continuation) =>
          CutKeeps(f, s.(pulled := s.pulled + 1, stop := Some(Stop(reason, continuation))), 0);
        case Entry =>
          FilledKeeps(f, s.(pulled := s.pulled + 1, count := s.count + 1, clock := s.clock + 1));
      }
    }
  }

  lemma {:induction false} CutKeeps(f: Feed, s: State, keep: nat)
    ensures var t := Cut(f, s, keep); t.returned == s.returned && t.last == s.last && t.closed == s.closed && t.pulled == s.pulled
    decreases s.count - keep
  {
    if keep < s.count { CutKeeps(f, s.(clock := s.clock + 1), keep + 1); }
  }

  /** A call on a running cursor either returns the next row and leaves it running, or ends it. */
  lemma NextCoherent(f: Feed, s: State)
    requires f.size > 0 && Coherent(f, s)
    ensures var (t, r) := Next(f, s, false);
      && Coherent(f, t) && !r.Refused?
      && (!Running(s) ==> t == s && !r.Row?)
      && (Running(s) ==> (r.Row? <==> Running(t)))
      && (r.Row? ==> t.returned == s.returned + 1 && f.load(s.returned).Loaded? && r == Row(f.load(s.returned).row, s.returned))
      && (r.Stop? ==> t.last == Some(r))
      && (r.Failed? ==> t.failure == Some(r.code))
  {
    hide Ends;
    if Running(s) {
      hide Filled;
      FilledCoherent(f, s);
      FilledKeeps(f, s);
      FilledHasAnswer(f, s);
    }
  }

  lemma {:induction false} RunCoherent(f: Feed, n: nat)
    requires f.size > 0
    ensures var s := Run(f, START, n); Coherent(f, s) && (Running(s) ==> s.returned == n)
  {
    if n > 0 {
      RunCoherent(f, n - 1);
      NextCoherent(f, Run(f, START, n - 1));
    }
  }

  // ---------------------------------------------------------------- what the answers are

  /** Row `n` is the answer to call `n`; after the first answer that is no row, all are the same. */
  lemma RowsInOrder(f: Feed, n: nat)
    requires f.size > 0
    ensures Answer(f, START, n).Row? ==>
      f.source(n).Entry? && f.load(n).Loaded? && Answer(f, START, n) == Row(f.load(n).row, n)
    ensures !Answer(f, START, n).Row? ==> Answer(f, START, n + 1) == Answer(f, START, n)
  {
    hide Filled, Finished;
    RunCoherent(f, n);
    NextCoherent(f, Run(f, START, n));
    NextCoherent(f, Run(f, START, n + 1));
    assert Run(f, START, n + 1) == Next(f, Run(f, START, n), false).0;
  }

  /**
   A stop is reported only after a pull that ended the scan for that reason. It carries
   the continuation of that pull, after all rows before it, unless that was a time limit
   and the read right after the returned rows was found pending.
   */
  lemma StopExplained(f: Feed, n: nat)
    requires f.size > 0 && Answer(f, START, n).Stop?
    ensures var stop, rows := Answer(f, START, n), Run(f, START, n + 1).returned;
      exists k: nat :: Ends(f, stop, rows, k)
  {
    hide Filled, Finished, Ends;
    RunCoherent(f, n + 1);
    RunCoherent(f, n);
    NextCoherent(f, Run(f, START, n));
    var t := Run(f, START, n + 1);
    assert Ends(f, Answer(f, START, n), t.returned, t.pulled - 1);
  }

  // ---------------------------------------------------------------- a single call

  ghost predicate TimeLimitAt(f: Feed, k: nat) {
    f.source(k).NoNext? && f.source(k).reason == TimeLimitReached
  }

  /** Some read queued at that moment was found completed and had failed. */
  ghost predicate CompletedFailure(f: Feed, s: State, code: int) {
    exists k, t :: k >= s.returned && f.ready(k, t) && f.load(k) == ReadError(code)
  }

  /** The last pull failed, or it hit a time limit after a row and a completed read had failed. */
  ghost predicate FillFails(f: Feed, s: State, k: nat, code: int) {
    f.source(k) == SourceError(code) || (s.last.Some? && TimeLimitAt(f, k) && CompletedFailure(f, s, code))
  }

  /** The last pull hit a time limit after a row and the head was found pending. */
  ghost predicate HeadCut(f: Feed, s: State, k: nat) {
    s.last.Some? && TimeLimitAt(f, k) && exists t :: !f.ready(s.returned, t)
  }

  lemma {:induction false} CutOutcome(f: Feed, s: State, keep: nat)
    requires s.failure.None? && s.stop.Some? && keep <= s.count
    ensures var t := Cut(f, s, keep);
      && (t.failure.Some? ==> CompletedFailure(f, s, t.failure.value))
      && (t.failure.None? && t.count == 0 && s.count > 0 ==>
          keep == 0 && (exists u :: !f.ready(s.returned, u)) && t.stop == Some(Stop(TimeLimitReached, s.returned)))
    decreases s.count - keep
  {
    if keep < s.count && f.ready(s.returned + keep, s.clock) {
      var k := s.returned + keep;
      match f.load(k) {
        case ReadError(code) =>
          assert CompletedFailure(f, s, code) by { assert k >= s.returned && f.ready(k, s.clock); }
        case Loaded(_) =>
          CutOutcome(f, s.(clock := s.clock + 1), keep + 1);
      }
    }
  }

  /** How filling ends when there is a head to return. */
  lemma {:induction false} FilledOutcome(f: Feed, s: State)
    requires f.size > 0 && s.failure.None? && (s.count > 0 || (s.stop.None? && f.source(s.pulled).Entry?))
    ensures var t := Filled(f, s);
      && (t.failure.Some? ==> s.stop.None? && t.pulled > 0 && FillFails(f, s, t.pulled - 1, t.failure.value))
      && (t.failure.None? && t.count == 0 ==>
          s.stop.None? && t.pulled > 0 && HeadCut(f, s, t.pulled - 1) && t.stop == Some(Stop(TimeLimitReached, s.returned)))
    decreases f.size - s.count
  {
    if s.stop.None? && s.count < f.size {
      match f.source(s.pulled) {
        case SourceError(_) =>
        case NoNext(reason, continuation) =>
          var t := s.(pulled := s.pulled + 1, stop := Some(Stop(reason, continuation)));
          CutOutcome(f, t, 0);
          CutKeeps(f, t, 0);
        case Entry =>
          FilledOutcome(f, s.(pulled := s.pulled + 1, count := s.count + 1, clock := s.clock + 1));
      }
    }
  }

  /**
   A call with a queued head, or with an entry as the source's next answer, whose read
   succeeds returns that row, unless a pull of this call fails, or hits a time limit after
   an earlier row with the head pending or a completed read failed.
   */
  lemma HeadReturned(f: Feed, s: State)
    requires f.size > 0 && Coherent(f, s) && Running(s)
    requires (s.count > 0 || (s.stop.None? && f.source(s.pulled).Entry?)) && f.load(s.returned).Loaded?
    ensures var (t, r) := Next(f, s, false);
      match r
      case Row(row, position) => row == f.load(s.returned).row && position == s.returned
      case Failed(code) => s.stop.None? && t.pulled > 0 && FillFails(f, s, t.pulled - 1, code)
      case Stop(reason, continuation) =>
        s.stop.None? && t.pulled > 0 && HeadCut(f, s, t.pulled - 1) && reason == TimeLimitReached && continuation == s.returned
      case Refused(_) => false
  {
    hide Filled, FillFails, HeadCut;
    FilledOutcome(f, s);
    FilledKeeps(f, s);
    FilledHasAnswer(f, s);
  }

  /** A head found ready is returned after one pull. */
  lemma ReadyHeadReturned(f: Feed, s: State)
    requires f.size > 0 && Coherent(f, s) && Running(s) && s.stop.None? && s.count < f.size
    requires f.source(s.pulled).Entry? && f.load(s.returned).Loaded? && f.ready(s.returned, s.clock)
    ensures var (t, r) := Next(f, s, false);
      r == Row(f.load(s.returned).row, s.returned) && t.pulled == s.pulled + 1 && t.count == s.count
  {
  }

  // ---------------------------------------------------------------- after a stop was recorded

  lemma NextWithStop(f: Feed, s: State)
    requires f.size > 0 && Running(s) && !s.closed && s.stop.Some?
    ensures Next(f, s, false) == Finished(f, s)
  {
    hide Filled, Finished;
    FilledAlready(f, s);
  }

  /** With a stop recorded, the queued reads that succeed come out one by one, and then the stop. */
  lemma {:induction false} QueueDelivered(f: Feed, s: State, i: nat)
    requires f.size > 0 && Running(s) && !s.closed && s.stop.Some? && i <= s.count
    requires forall k :: s.returned <= k < s.returned + s.count ==> f.load(k).Loaded?
    ensures var t := Run(f, s, i);
      && t.pulled == s.pulled && t.returned == s.returned + i && t.count == s.count - i && t.stop == s.stop
      && Running(t) && !t.closed
    ensures Answer(f, s, i) ==
      if i < s.count then Row(f.load(s.returned + i).row, s.returned + i) else s.stop.value
  {
    hide Next, Filled;
    if i > 0 {
      QueueDelivered(f, s, i - 1);
      NextWithStop(f, Run(f, s, i - 1));
    }
    NextWithStop(f, Run(f, s, i));
  }

  /** What a cut leaves in the queue was found completed and loaded. */
  lemma {:induction false} CutLoaded(f: Feed, s: State, keep: nat)
    requires s.failure.None? && keep <= s.count
    requires forall k :: s.returned <= k < s.returned + keep ==> FoundLoaded(f, k)
    ensures var t := Cut(f, s, keep); t.failure.None? ==>
      forall k :: s.returned <= k < s.returned + t.count ==> FoundLoaded(f, k)
    decreases s.count - keep
  {
    if keep < s.count && f.ready(s.returned + keep, s.clock) && f.load(s.returned + keep).Loaded? {
      assert FoundLoaded(f, s.returned + keep);
      CutLoaded(f, s.(clock := s.clock + 1), keep + 1);
    }
  }

  ghost predicate FoundLoaded(f: Feed, k: nat) { f.load(k).Loaded? && exists t :: f.ready(k, t) }

  lemma {:induction false} FilledLoaded(f: Feed, s: State)
    requires s.failure.None? && s.last.Some? && s.stop.None?
    ensures var t := Filled(f, s);
      t.failure.None? && t.stop.Some? && t.stop.value.Stop? && t.stop.value.reason == TimeLimitReached ==>
      forall k :: s.returned <= k < s.returned + t.count ==> FoundLoaded(f, k)
    decreases f.size - s.count
  {
    hide FoundLoaded;
    if s.count < f.size {
      match f.source(s.pulled) {
        case SourceError(_) =>
        case NoNext(reason, continuation) =>
          CutLoaded(f, s.(pulled := s.pulled + 1, stop := Some(Stop(reason, continuation))), 0);
        case Entry =>
          FilledLoaded(f, s.(pulled := s.pulled + 1, count := s.count + 1, clock := s.clock + 1));
      }
    }
  }

  /**
   A call after a row that runs into a time limit without an error: it and the following
   calls deliver the reads found completed row by row, and then the stop.
   */
  lemma CompletedPrefixDelivered(f: Feed, s: State, i: nat)
    requires f.size > 0 && Coherent(f, s) && Running(s) && s.last.Some? && s.stop.None?
    requires var t := Filled(f, s);
      t.failure.None? && t.stop.Some? && t.stop.value.Stop? && t.stop.value.reason == TimeLimitReached && i <= t.count
    ensures var t := Filled(f, s);
      if i < t.count then FoundLoaded(f, s.returned + i) && Answer(f, s, i) == Row(f.load(s.returned + i).row, s.returned + i)
      else Answer(f, s, i) == t.stop.value
  {
    hide Filled, Run, Answer, Entries, AllLoaded, Ends;
    var t := Filled(f, s);
    FilledCoherent(f, s);
    FilledKeeps(f, s);
    FilledLoaded(f, s);
    forall k | s.returned <= k < s.returned + t.count ensures f.load(k).Loaded? { assert FoundLoaded(f, k); }
    QueueDelivered(f, t, i);
    SameFromFilled(f, s, i);
  }

  /** Filling first changes no answer. */
  lemma {:induction false} SameFromFilled(f: Feed, s: State, i: nat)
    requires f.size > 0 && Coherent(f, s) && Running(s) && Filled(f, s).failure.None? && Filled(f, s).stop.Some?
    ensures Answer(f, s, i) == Answer(f, Filled(f, s), i)
    ensures i > 0 ==> Run(f, s, i) == Run(f, Filled(f, s), i)
  {
    hide Finished;
    FilledKeeps(f, s);
    FilledHasAnswer(f, s);
    FilledAlready(f, Filled(f, s));
    if i > 0 { SameFromFilled(f, s, i - 1); }
  }

  // ---------------------------------------------------------------- the cursor without a pipeline

  /** The answer to call `n` of a cursor that pulls one entry, reads it and returns it; from entry `k` on. */
  function OneByOne(f: Feed, k: nat, n: nat): Result
    decreases n - k
  {
    match f.source(k)
    case SourceError(code) => Failed(code)
    case NoNext(reason, continuation) => Stop(reason, continuation)
    case Entry =>
      match f.load(k)
      case ReadError(code) => Failed(code)
      case Loaded(row) => if k >= n then Row(row, k) else OneByOne(f, k + 1, n)
  }

  /** The first `n` answers of the source are neither errors nor time limits. */
  ghost predicate Calm(f: Feed, n: nat) {
    forall k :: 0 <= k < n ==> !f.source(k).SourceError? && !TimeLimitAt(f, k)
  }

  /** Rows already returned do not change what comes next. */
  lemma {:induction false} OneByOneSkips(f: Feed, k: nat, m: nat, n: nat)
    requires k <= m <= n && Entries(f, m) && AllLoaded(f, m)
    ensures OneByOne(f, k, n) == OneByOne(f, m, n)
    decreases m - k
  {
    if k < m { OneByOneSkips(f, k + 1, m, n); }
  }

  /** After an answer that is no row, it stays. */
  lemma {:induction false} OneByOneStays(f: Feed, k: nat, n: nat)
    requires k <= n && !OneByOne(f, k, n).Row?
    ensures OneByOne(f, k, n + 1) == OneByOne(f, k, n)
    decreases n - k
  {
    if k < n && f.source(k).Entry? && f.load(k).Loaded? { OneByOneStays(f, k + 1, n); }
  }

  predicate OwnStop(stop: Result, p: Pulled) { p.NoNext? && stop == Stop(p.reason, p.continuation) }

  /** Over a calm source filling fails at nothing and cuts nothing. */
  lemma {:induction false} FilledCalm(f: Feed, s: State)
    requires Calm(f, s.returned + f.size) && s.failure.None? && s.stop.None? && s.pulled == s.returned + s.count
    ensures var t := Filled(f, s);
      && t.failure.None? && t.count >= s.count
      && (t.stop.Some? ==> OwnStop(t.stop.value, f.source(s.returned + t.count)))
    decreases f.size - s.count
  {
    if s.count < f.size && f.source(s.pulled).Entry? {
      FilledCalm(f, s.(pulled := s.pulled + 1, count := s.count + 1, clock := s.clock + 1));
    }
  }

  lemma NextCalm(f: Feed, s: State)
    requires f.size > 0 && Coherent(f, s) && Running(s) && Calm(f, s.returned + f.size)
    ensures Next(f, s, false).1 == OneByOne(f, s.returned, s.returned)
  {
    hide Filled;
    FilledCoherent(f, s);
    FilledKeeps(f, s);
    FilledHasAnswer(f, s);
    FilledAlready(f, s);
    if s.stop.None? { FilledCalm(f, s); }
    var t := Filled(f, s);
    if t.count > 0 { assert f.source(s.returned).Entry?; }
  }

  /**
   The pipeline changes no answer: as long as the source reports neither an error nor a
   time limit within the pipeline size, call `n` is answered as without a pipeline,
   whichever reads are ready when.
   */
  lemma {:induction false} PipelineTransparent(f: Feed, n: nat)
    requires f.size > 0 && Calm(f, n + f.size)
    ensures Answer(f, START, n) == OneByOne(f, 0, n)
  {
    hide Filled, Finished, Next;
    RunCoherent(f, n);
    var s := Run(f, START, n);
    if Running(s) {
      NextCalm(f, s);
      OneByOneSkips(f, 0, n, n);
    } else {
      RunningAtStart(f, n);
      PipelineTransparent(f, n - 1);
      RowsInOrder(f, n - 1);
      RowMeansRunning(f, n - 1);
      OneByOneStays(f, 0, n - 1);
    }
  }

  lemma RunningAtStart(f: Feed, n: nat)
    requires f.size > 0 && !Running(Run(f, START, n))
    ensures n > 0
  {
  }

  lemma RowMeansRunning(f: Feed, n: nat)
    requires f.size > 0
    ensures Answer(f, START, n).Row? ==> Running(Run(f, START, n + 1))
  {
    RunCoherent(f, n);
    NextCoherent(f, Run(f, START, n));
  }

  /** An error of the source overtakes the rows still pending before it. */
  lemma {:induction false} ErrorOvertakes(f: Feed, s: State, k: nat, code: int)
    requires f.size > 0 && Coherent(f, s) && Running(s) && s.stop.None? && s.pulled <= k < s.returned + f.size
    requires (forall j :: s.pulled <= j < k ==> f.source(j).Entry?) && f.source(k) == SourceError(code)
    requires forall t :: !f.ready(s.returned, t)
    ensures Next(f, s, false).1 == Failed(code) && Filled(f, s) == Broken(Filled(f, s), code)
    decreases k - s.pulled
  {
    if s.pulled < k {
      var t := s.(pulled := s.pulled + 1, count := s.count + 1, clock := s.clock + 1);
      ErrorOvertakes(f, t, k, code);
    }
  }
}
