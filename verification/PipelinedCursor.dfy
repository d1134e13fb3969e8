/** The pipelined map cursor of the Go port: a growing ring buffer of issued reads. */
module PipelinedCursor {
  import opened Wrappers
  import opened CursorStep

  /** A circular buffer of source positions. */
  class Ring {
    const size: nat
    var slots: array<nat>
    var head: nat
    var count: nat

    ghost predicate Valid()
      reads this
    {
      && size > 0 && count <= slots.Length <= size
      && (slots.Length == 0 ==> head == 0) && (slots.Length > 0 ==> head < slots.Length)
    }

    /** The slot `offset` places after the head; the sum is never formed past the end. */
    function Index(offset: nat): (i: nat)
      requires Valid() && offset < slots.Length
      reads this
      ensures i < slots.Length
      ensures i == (if head + offset < slots.Length then head + offset else head + offset - slots.Length)
    {
      if offset >= slots.Length - head then offset - (slots.Length - head) else head + offset
    }

    /** The queued positions, oldest first. */
    ghost function Contents(): (s: seq<nat>)
      requires Valid()
      reads this, slots
      ensures |s| == count
    {
      seq(count, k requires 0 <= k < count && Valid() reads this, slots => slots[Index(k)])
    }

    constructor (size: nat)
      requires size > 0
      ensures Valid() && this.size == size && Contents() == [] && fresh(slots)
    {
      this.size := size;
      slots := new nat[0];
      head, count := 0, 0;
    }

    method Grow()
      requires Valid() && count == slots.Length < size
      modifies this
      ensures Valid() && count == old(count) < slots.Length && fresh(slots)
      ensures slots.Length == if count == 0 then 1 else if 2 * count < size then 2 * count else size
      ensures Contents() == old(Contents())
    {
      var capacity := if count == 0 then 1 else if count <= size / 2 then 2 * count else size;
      var larger := new nat[capacity];
      for k := 0 to count
        invariant Valid() && slots == old(slots) && head == old(head) && count == old(count)
        invariant forall j :: 0 <= j < k ==> larger[j] == slots[Index(j)]
        modifies larger
      {
        larger[k] := slots[Index(k)];
      }
      ghost var before := Contents();
      slots, head := larger, 0;
      assert Contents() == before;
    }

    method Push(position: nat)
      requires Valid() && count < size
      modifies this, slots
      ensures Valid() && (slots == old(slots) || fresh(slots))
      ensures Contents() == old(Contents()) + [position]
    {
      if count == slots.Length { Grow(); }
      ghost var before := Contents();
      slots[Index(count)] := position;
      count := count + 1;
      assert Contents() == before + [position];
    }

    method Pop() returns (position: nat)
      requires Valid() && count > 0
      modifies this, slots
      ensures Valid() && slots == old(slots)
      ensures position == old(Contents())[0] && Contents() == old(Contents())[1..]
    {
      ghost var before := Contents();
      position := slots[head];
      head := if head + 1 == slots.Length then 0 else head + 1;
      count := count - 1;
      assert Contents() == before[1..];
    }

    /** Drops everything after the first `keep` positions. */
    method Truncate(keep: nat)
      requires Valid() && keep <= count
      modifies this
      ensures Valid() && slots == old(slots) && Contents() == old(Contents())[..keep]
    {
      count := keep;
    }

    method Clear()
      requires Valid()
      modifies this
      ensures Valid() && Contents() == [] && fresh(slots)
    {
      slots := new nat[0];
      head, count := 0, 0;
    }
  }

  /** Positions `from`, `from + 1`, ... */
  function Consecutive(from: nat, n: nat): (s: seq<nat>)
    ensures |s| == n && forall k :: 0 <= k < n ==> s[k] == from + k
  {
    seq(n, k => from + k)
  }

  lemma ConsecutivePrefix(from: nat, n: nat, k: nat)
    requires k <= n
    ensures Consecutive(from, n)[..k] == Consecutive(from, k)
  {
  }

  lemma ConsecutiveTail(from: nat, n: nat)
    requires n > 0
    ensures Consecutive(from, n)[0] == from && Consecutive(from, n)[1..] == Consecutive(from + 1, n - 1)
  {
  }

  /**
   The cursor over an arbitrary source, arbitrary reads and arbitrary readiness: position
   `k` is the source's `k`-th entry, resuming after it is continuation `k + 1`.
   */
  class Cursor {
    const source: nat -> Pulled
    const load: nat -> Read
    const ready: (nat, nat) -> bool   // position, time of the question
    const ring: Ring
    var pulled: nat
    var clock: nat
    var stop: Option<Result>
    var last: Option<Result>
    var failure: Option<int>
    var closed: bool
    var returned: nat                 // rows handed out so far

    function Inputs(): Feed { Feed(source, load, ready, ring.size) }

    /** The cursor as a value. */
    function Now(): State
      reads this, ring
    {
      State(pulled, clock, returned, ring.count, stop, last, failure, closed)
    }

    /** The first `n` pulls are entries. */
    ghost predicate Entries(n: nat) { forall k :: 0 <= k < n ==> source(k).Entry? }

    /** The first `n` reads succeeded. */
    ghost predicate AllLoaded(n: nat) { forall k :: 0 <= k < n ==> load(k).Loaded? }

    lemma FewerEntries(m: nat, n: nat)
      requires Entries(n) && m <= n
      ensures Entries(m)
    {
    }

    lemma OneMoreLoaded(n: nat)
      requires AllLoaded(n) && load(n).Loaded?
      ensures AllLoaded(n + 1)
    {
    }

    /** Neither failed nor closed. */
    predicate Live()
      reads this`failure, this`closed
    {
      failure.None? && !closed
    }

    /** The queue holds the positions right after the rows handed out. */
    ghost predicate Queued()
      reads this`returned, ring, ring.slots
    {
      ring.Valid() && ring.Contents() == Consecutive(returned, ring.count)
    }

    ghost predicate Valid()
      reads this, ring, ring.slots
    {
      && Queued()
      && Entries(returned + ring.count)
      && AllLoaded(returned)
      && (!Live() ==> ring.count == 0)
      && (stop.None? && Live() ==> pulled == returned + ring.count)
      && (stop.Some? ==> stop.value.Stop? && (Live() ==> Ends(stop.value, returned + ring.count)))
      && (match last
          case None => returned == 0
          case Some(Row(row, position)) => position + 1 == returned && load(position) == Loaded(row)
          case Some(Stop(reason, continuation)) =>
            stop == last && ring.count == 0 && failure.None? && Ends(Stop(reason, continuation), returned)
          case Some(_) => false)
    }

    /**
     A stop after `n` rows: the last pull ended the scan for that reason, and either the
     `n` rows are all that came before it, or it was a time limit and the last question
     asked found read `n` pending; the scan then resumes right after the `n` rows.
     */
    ghost predicate Ends(r: Result, n: nat)
      requires r.Stop?
      reads this`pulled, this`clock
    {
      && pulled > 0 && Entries(pulled - 1)
      && source(pulled - 1).NoNext? && source(pulled - 1).reason == r.reason
      && if n == pulled - 1 then r.continuation == source(pulled - 1).continuation
         else r.reason == TimeLimitReached && 0 < n < pulled - 1 && r.continuation == n && clock > 0 && !ready(n, clock - 1)
    }

    constructor (source: nat -> Pulled, load: nat -> Read, ready: (nat, nat) -> bool, size: nat)
      requires size > 0
      ensures Valid() && returned == 0 && pulled == 0 && Live() && stop.None? && last.None?
      ensures this.source == source && this.load == load && this.ready == ready && ring.size == size
      ensures fresh(ring) && fresh(ring.slots) && Now() == START
    {
      this.source, this.load, this.ready := source, load, ready;
      ring := new Ring(size);
      pulled, clock, returned := 0, 0, 0;
      stop, last, failure, closed := None, None, None, false;
    }

    method IsReady(position: nat) returns (b: bool)
      modifies this`clock
      ensures b == ready(position, old(clock)) && clock == old(clock) + 1
    {
      b := ready(position, clock);
      clock := clock + 1;
    }

    method Fail(code: int) returns (r: Result)
      requires Valid() && Live() && (last.Some? ==> last.value.Row?)
      modifies this`failure, ring
      ensures Valid() && r == Failed(code) && Now() == Broken(old(Now()), code) && fresh(ring.slots)
    {
      failure := Some(code);
      ring.Clear();
      r := Failed(code);
    }

    /** The first `n` queued reads were found ready, asked one by one from `time` on, and succeeded. */
    ghost predicate CompletedFrom(time: nat, n: nat)
      reads this`returned
    {
      forall i :: 0 <= i < n ==> CompletedAt(time, i)
    }

    ghost predicate CompletedAt(time: nat, i: nat)
      reads this`returned
    {
      ready(returned + i, time + i) && load(returned + i).Loaded?
    }

    /** Under time pressure only the completed prefix is kept; the scan resumes right after it. */
    method KeepCompletedPrefix() returns (error: Option<int>)
      requires Valid() && Live() && stop.Some? && stop.value.reason == TimeLimitReached
      requires last.Some? && last.value.Row? && pulled == returned + ring.count + 1
      modifies this`clock, this`stop, ring
      ensures Valid() && ring.slots == old(ring.slots)
      ensures stop.Some? && stop.value.reason == TimeLimitReached
      ensures error.None? ==>
        if ring.count == old(ring.count) then stop == old(stop)
        else stop == Some(Stop(TimeLimitReached, returned + ring.count)) && !ready(returned + ring.count, old(clock) + ring.count)
      ensures error.None? ==> ring.count <= old(ring.count) && CompletedFrom(old(clock), ring.count)
      ensures error.Some? ==> ReadFails(error.value, returned + ring.count)
      ensures Cut(Inputs(), old(Now()), 0) == if error.Some? then Broken(Now(), error.value) else Now()
    {
      hide CompletedFrom, Cut, Consecutive, Entries, AllLoaded, ReadFails;
      var keep;
      keep, error := CountCompleted();
      if error.None? && keep < ring.count {
        FewerEntries(returned + keep, returned + ring.count);
        ConsecutivePrefix(returned, ring.count, keep);
        ring.Truncate(keep);
        stop := Some(Stop(TimeLimitReached, returned + keep));
      }
    }

    lemma NoneCompleted(time: nat)
      ensures CompletedFrom(time, 0)
    {
    }

    lemma CompletedOneMore(time: nat, n: nat)
      requires CompletedFrom(time, n) && ready(returned + n, time + n) && load(returned + n).Loaded?
      ensures CompletedFrom(time, n + 1)
    {
      assert CompletedAt(time, n);
    }

    /** Place `k` of the queue holds position `k` after the rows handed out. */
    lemma QueuedAt(k: nat)
      requires Queued() && k < ring.count
      ensures ring.slots[ring.Index(k)] == returned + k
    {
      assert ring.slots[ring.Index(k)] == ring.Contents()[k];
    }

    /** Asks the queued reads one by one until one is not ready or has failed. */
    method CountCompleted() returns (keep: nat, error: Option<int>)
      requires Queued()
      modifies this`clock
      ensures keep <= ring.count && CompletedFrom(old(clock), keep)
      ensures error.None? && keep < ring.count ==>
        !ready(returned + keep, old(clock) + keep) && clock == old(clock) + keep + 1
      ensures error.Some? ==> ReadFails(error.value, returned + ring.count)
      ensures Cut(Inputs(), old(Now()), 0) ==
        if error.Some? then Broken(Now(), error.value)
        else if keep == ring.count then Now()
        else Now().(count := keep, stop := Some(Stop(TimeLimitReached, returned + keep)))
    {
      hide CompletedFrom, Cut, Consecutive;
      error, keep := None, 0;
      NoneCompleted(clock);
      while keep < ring.count
        invariant 0 <= keep <= ring.count && error.None?
        invariant clock == old(clock) + keep && CompletedFrom(old(clock), keep)
        invariant Cut(Inputs(), old(Now()), 0) == Cut(Inputs(), Now(), keep)
      {
        var position := ring.slots[ring.Index(keep)];
        QueuedAt(keep);
        CutOnce(Inputs(), Now(), keep);
        var done := IsReady(position);
        if !done { break; }
        if load(position).ReadError? {
          error := Some(load(position).code);
          return;
        }
        CompletedOneMore(old(clock), keep);
        keep := keep + 1;
      }
      if keep == ring.count { CutOnce(Inputs(), Now(), keep); }
    }

    /** Some issued read before position `n` failed with this code. */
    ghost predicate ReadFails(code: int, n: nat)
      reads this`returned
    {
      exists k :: returned <= k < n && load(k) == ReadError(code)
    }

    /** The source handed out this error on the last pull, or an issued read failed with it. */
    ghost predicate Explains(code: int, n: nat)
      reads this`returned, this`pulled
    {
      (pulled > 0 && source(pulled - 1) == SourceError(code)) || ReadFails(code, n)
    }

    /** Queues the entry just pulled and asks whether the head is ready. */
    method Accept() returns (headReady: bool)
      requires Valid() && Live() && stop.None? && ring.count < ring.size && source(pulled).Entry?
      modifies this`pulled, this`clock, ring, ring.slots
      ensures Valid() && pulled == old(pulled) + 1 && ring.count == old(ring.count) + 1
      ensures ring.slots == old(ring.slots) || fresh(ring.slots)
      ensures headReady == ready(returned, old(clock)) && clock == old(clock) + 1
      ensures Now() == old(Now()).(pulled := pulled, clock := clock, count := ring.count)
    {
      ring.Push(pulled);
      pulled := pulled + 1;
      assert ring.Contents() == Consecutive(returned, ring.count);
      QueuedAt(0);
      headReady := IsReady(ring.slots[ring.head]);
    }

    /** The scan ran into a time limit after a row had been returned. */
    ghost predicate TimeLimited()
      reads this`stop, this`last, this`failure
    {
      failure.None? && last.Some? && stop.Some? && stop.value.Stop? && stop.value.reason == TimeLimitReached
    }

    /** After a time limit, what is still queued was found completed. */
    ghost predicate OnlyCompleted()
      reads this`stop, this`last, this`failure, this`returned, ring`count
    {
      TimeLimited() ==> exists time :: CompletedFrom(time, ring.count)
    }

    lemma HeadCompleted()
      ensures OnlyCompleted() && TimeLimited() && ring.count > 0 ==> exists t :: ready(returned, t)
    {
      if OnlyCompleted() && TimeLimited() && ring.count > 0 {
        var time :| CompletedFrom(time, ring.count);
        assert CompletedAt(time, 0);
        assert ready(returned, time);
      }
    }

    /** Records the source's stop; a time limit drops what has not completed. */
    method Halt(reason: Reason, continuation: nat) returns (error: Option<int>)
      requires Valid() && Live() && stop.None? && (last.Some? ==> last.value.Row?)
      requires source(pulled) == NoNext(reason, continuation)
      modifies this`pulled, this`clock, this`stop, this`failure, ring
      ensures Valid() && pulled == old(pulled) + 1 && stop.Some? && failure == error
      ensures ring.slots == old(ring.slots) || fresh(ring.slots)
      ensures error.Some? ==> exists n :: ReadFails(error.value, n)
      ensures stop.value.reason == reason && OnlyCompleted()
      ensures error.None? && (reason != TimeLimitReached || last.None?) ==> ring.count == old(ring.count)
      ensures Now() == Halted(Inputs(), old(Now()), reason, continuation)
    {
      hide Cut, Consecutive, Entries, AllLoaded, CompletedFrom, ReadFails;
      error := None;
      stop := Some(Stop(reason, continuation));
      pulled := pulled + 1;
      assert Ends(Stop(reason, continuation), returned + ring.count);
      if reason == TimeLimitReached && last.Some? {
        ghost var time := clock;
        error := KeepCompletedPrefix();
        assert error.None? ==> CompletedFrom(time, ring.count);
        if error.Some? {
          ghost var n := returned + ring.count;
          var r := Fail(error.value);
          assert ReadFails(error.value, n);
        }
      }
    }

    /** Since `time` and the pull before `from`, each pull found the head not ready. */
    ghost predicate UnreadySince(time: nat, from: nat)
      reads this`clock, this`pulled, this`returned
    {
      time <= clock && clock - time == pulled - from && forall t :: time <= t < clock ==> !ready(returned, t)
    }

    /** The pipeline is full after pulls that found the head not ready, or the last one found it ready. */
    ghost predicate FilledSince(time: nat, from: nat)
      reads this`clock, this`pulled, this`returned, ring
    {
      || (ring.count == ring.size && UnreadySince(time, from))
      || (time < clock && clock - time == pulled - from && ready(returned, clock - 1)
          && forall t :: time <= t < clock - 1 ==> !ready(returned, t))
    }

    /** One pull: an entry is queued, an end is recorded, an error fails the cursor. */
    method PullOne() returns (done: bool, error: Option<int>)
      requires Valid() && Live() && stop.None? && ring.count < ring.size && (last.Some? ==> last.value.Row?)
      modifies this`pulled, this`clock, this`stop, this`failure, ring, ring.slots
      ensures Valid() && pulled == old(pulled) + 1 && failure == error
      ensures ring.slots == old(ring.slots) || fresh(ring.slots)
      ensures error.Some? ==> exists n :: Explains(error.value, n)
      ensures error.Some? || stop.Some? ==> done
      ensures OnlyCompleted()
      ensures error.None? && stop.None? ==>
        ring.count == old(ring.count) + 1 && clock == old(clock) + 1 && done == ready(returned, old(clock))
      ensures Filled(Inputs(), old(Now())) == if done then Now() else Filled(Inputs(), Now())
    {
      match source(pulled)
      case SourceError(code) =>
        var r := Fail(code);
        pulled := pulled + 1;
        done, error := true, Some(code);
        assert Explains(code, 0);
      case NoNext(reason, continuation) =>
        error := Halt(reason, continuation);
        done := true;
        if error.Some? {
          ghost var n :| ReadFails(error.value, n);
          assert Explains(error.value, n);
        }
      case Entry =>
        done := Accept();
        error := None;
    }

    /** Pulls until the head is ready after an insertion, the pipeline is full or the source stops. */
    method Fill() returns (error: Option<int>)
      requires Valid() && Live() && (last.Some? ==> last.value.Row?)
      modifies this`pulled, this`clock, this`stop, this`failure, ring, ring.slots
      ensures Valid()
      ensures ring.slots == old(ring.slots) || fresh(ring.slots)
      ensures failure == error && (error.None? ==> stop.Some? || ring.count > 0)
      ensures error.Some? ==> exists n :: Explains(error.value, n)
      ensures stop.None? && error.None? ==> FilledSince(old(clock), old(pulled))
      ensures old(stop).None? ==> OnlyCompleted()
      ensures (forall t :: ready(returned, t)) ==> pulled <= old(pulled) + 1
      ensures Now() == Filled(Inputs(), old(Now()))
    {
      hide Ends, Entries, AllLoaded, Consecutive, CompletedFrom, Explains, Filled;
      error := None;
      while stop.None? && ring.count < ring.size
        invariant Valid() && failure.None? && error.None? && stop == old(stop)
        invariant ring.slots == old(ring.slots) || fresh(ring.slots)
        invariant stop.None? ==> UnreadySince(old(clock), old(pulled))
        invariant (forall t :: ready(returned, t)) ==> pulled == old(pulled)
        invariant Filled(Inputs(), old(Now())) == Filled(Inputs(), Now())
        decreases ring.size - ring.count
      {
        var done;
        done, error := PullOne();
        if done { return; }
      }
      FilledAlready(Inputs(), Now());
    }

    /** A failed read of the head, which has already left the ring. */
    method FailPopped(code: int) returns (r: Result)
      requires ring.Valid() && Live() && load(returned) == ReadError(code)
      requires last.Some? ==> last.value.Row?
      requires Entries(returned) && AllLoaded(returned)
      requires stop.Some? ==> stop.value.Stop?
      requires match last
               case None => returned == 0
               case Some(Row(row, position)) => position + 1 == returned && load(position) == Loaded(row)
               case _ => false
      modifies this`failure, ring
      ensures Valid() && r == Failed(code) && Now() == Broken(old(Now()), code) && fresh(ring.slots)
    {
      failure := Some(code);
      ring.Clear();
      assert ring.Contents() == Consecutive(returned, 0);
      r := Failed(code);
    }

    /** Takes the head out of the pipeline and waits for its read. */
    method Deliver() returns (r: Result)
      requires Valid() && Live() && (last.Some? ==> last.value.Row?) && ring.count > 0
      modifies this`last, this`returned, this`failure, ring, ring.slots
      ensures Valid() && (ring.slots == old(ring.slots) || fresh(ring.slots))
      ensures if load(old(returned)).Loaded?
              then r == Row(load(old(returned)).row, old(returned)) && returned == old(returned) + 1 && ring.count == old(ring.count) - 1
              else r == Failed(load(old(returned)).code) && returned == old(returned) && failure == Some(r.code)
      ensures (Now(), r) == Finished(Inputs(), old(Now()))
    {
      hide Entries, AllLoaded, Consecutive;
      ConsecutiveTail(returned, ring.count);
      FewerEntries(returned, returned + ring.count);
      var position := ring.Pop();
      match load(position)
      case ReadError(code) =>
        r := FailPopped(code);
      case Loaded(row) =>
        OneMoreLoaded(returned);
        r := Row(row, position);
        last, returned := Some(r), returned + 1;
    }

    /** The stop if nothing is queued, otherwise the head. */
    method Finish() returns (r: Result)
      requires Valid() && Live() && (last.Some? ==> last.value.Row?) && (stop.Some? || ring.count > 0)
      modifies this`last, this`returned, this`failure, ring, ring.slots
      ensures Valid() && (ring.slots == old(ring.slots) || fresh(ring.slots))
      ensures !r.Refused? && Answers(r)
      ensures r.Row? ==> ring.count == old(ring.count) - 1
      ensures (Now(), r) == Finished(Inputs(), old(Now()))
    {
      hide AllLoaded, Consecutive;
      if ring.count == 0 {
        last := stop;
        return stop.value;
      }
      FewerEntries(returned + 1, returned + ring.count);
      r := Deliver();
      if r.Failed? {
        assert ReadFails(r.code, returned + 1);
        assert Explains(r.code, returned + 1);
      }
    }

    /** What a result says: the next row with its own read, the end after the last row, or a sticky failure. */
    twostate predicate Answers(r: Result)
      reads this
    {
      match r
      case Row(row, position) =>
        position == old(returned) == returned - 1 && load(position) == Loaded(row) && Entries(returned)
      case Stop(_, _) => returned == old(returned) && last == Some(r) && Ends(r, returned)
      case Failed(code) =>
        && returned == old(returned) && failure == Some(code)
        && (old(failure).None? ==> exists n :: Explains(code, n))
      case Refused(why) =>
        && why == (if closed then Closed else ContextDone)
        && returned == old(returned) && pulled == old(pulled) && last == old(last) && failure == old(failure)
    }

    /** The pipeline is left full, unless the last pull found the head ready; earlier pulls did not. */
    twostate predicate KeepsIssuing()
      reads this, ring
    {
      && pulled - old(pulled) == clock - old(clock) >= 0
      && (forall t :: old(clock) <= t < clock - 1 ==> !ready(old(returned), t))
      && (ring.count + 1 == ring.size || (clock > old(clock) && ready(old(returned), clock - 1)))
    }

    /** Fills the pipeline and takes its head, for a cursor that is neither failed, closed nor at its end. */
    method Advance() returns (r: Result)
      requires Valid() && Live() && (last.Some? ==> last.value.Row?)
      modifies this`pulled, this`clock, this`stop, this`last, this`failure, this`returned, ring, ring.slots
      ensures Valid() && (ring.slots == old(ring.slots) || fresh(ring.slots))
      ensures !r.Refused? && Answers(r)
      ensures r.Row? && stop.None? ==> KeepsIssuing()
      ensures (forall t :: ready(returned, t) && ready(old(returned), t)) ==> pulled <= old(pulled) + 1
      ensures r.Row? && old(stop).None? && stop.Some? && stop.value.reason == TimeLimitReached && old(last).Some? ==>
        exists t :: ready(r.position, t)
      ensures (Now(), r) == Next(Inputs(), old(Now()), false)
    {
      hide OnlyCompleted, Entries, AllLoaded, Consecutive, Ends, Filled, Finished, Explains;
      var error := Fill();
      if error.Some? {
        return Failed(error.value);
      }
      HeadCompleted();
      r := Finish();
    }

    /**
     The next result. Rows come in source order, each with its own read, whatever the
     pipeline size and whichever reads happen to be ready; the cursor stops only after the
     last entry, or under a time limit with a continuation right after the last row. Once
     it has stopped it repeats the stop, closed or not.
     */
    method OnNext(contextDone: bool) returns (r: Result)
      requires Valid()
      modifies this, ring, ring.slots
      ensures Valid() && (ring.slots == old(ring.slots) || fresh(ring.slots)) && closed == old(closed)
      ensures Answers(r)
      ensures old(last).Some? && old(last).value.Stop? ==> r == old(last).value && pulled == old(pulled)
      ensures r.Refused? <==>
        (old(last).Some? ==> old(last).value.Row?) && (closed || (contextDone && old(failure).None?))
      ensures r.Row? && stop.None? ==> KeepsIssuing()
      ensures (forall t :: ready(returned, t) && ready(old(returned), t)) ==> pulled <= old(pulled) + 1
      ensures r.Row? && old(stop).None? && stop.Some? && stop.value.reason == TimeLimitReached && old(last).Some? ==>
        exists t :: ready(r.position, t)
      ensures (Now(), r) == Next(Inputs(), old(Now()), contextDone)
    {
      if last.Some? && last.value.Stop? {
        return last.value;
      }
      if closed {
        return Refused(Closed);
      }
      if failure.Some? {
        return Failed(failure.value);
      }
      if contextDone {
        return Refused(ContextDone);
      }
      r := Advance();
    }

    /** Drops everything queued; from then on only a stop already reached is served. */
    method Close()
      requires Valid()
      modifies this`closed, ring
      ensures Valid() && fresh(ring.slots) && Now() == old(Now()).(closed := true, count := 0)
    {
      closed := true;
      ring.Clear();
    }
  }

  /** A cursor for every positive pipeline size, and none otherwise. */
  method MapPipelined(source: nat -> Pulled, load: nat -> Read, ready: (nat, nat) -> bool, pipelineSize: int)
    returns (c: Option<Cursor>)
    ensures c.Some? <==> pipelineSize > 0
    ensures c.Some? ==> fresh(c.value) && c.value.Valid() && c.value.Live() && c.value.last.None? && c.value.ring.size == pipelineSize
    ensures c.Some? ==> c.value.source == source && c.value.load == load && c.value.ready == ready
  {
    if pipelineSize <= 0 { return None; }
    var cursor := new Cursor(source, load, ready, pipelineSize);
    return Some(cursor);
  }
}
