/** One call of the pipelined map cursor as a function of its state. */
module CursorStep {
  import opened Wrappers

  /** What the source cursor answers: an entry, the end of the scan for a reason, or an error. */
  datatype Pulled = Entry | NoNext(reason: Reason, continuation: nat) | SourceError(code: int)

  datatype Reason = SourceExhausted | TimeLimitReached | OtherLimit

  /** What an issued read yields. */
  datatype Read = Loaded(row: int) | ReadError(code: int)

  /** A result of the cursor. A row carries the continuation of its source position. */
  datatype Result =
    | Row(row: int, position: nat)
    | Stop(reason: Reason, continuation: nat)
    | Failed(code: int)
    | Refused(why: Refusal)

  /** A call the cursor does not serve: it was closed, or the caller's context is done. */
  datatype Refusal = Closed | ContextDone

  /** An arbitrary source, arbitrary reads, arbitrary readiness (position, time of the question) and a pipeline size. */
  datatype Feed = Feed(source: nat -> Pulled, load: nat -> Read, ready: (nat, nat) -> bool, size: nat)

  /** The queue holds the `count` positions after the `returned` rows. */
  datatype State = State(pulled: nat, clock: nat, returned: nat, count: nat,
                         stop: Option<Result>, last: Option<Result>, failure: Option<int>, closed: bool)

  const START := State(0, 0, 0, 0, None, None, None, false)

  function Broken(s: State, code: int): State { s.(failure := Some(code), count := 0) }

  /** Keeps the completed prefix of the queue, of which the first `keep` places are known. */
  function Cut(f: Feed, s: State, keep: nat): State
    decreases s.count - keep
  {
    if keep >= s.count then s
    else
      var t := s.(clock := s.clock + 1);
      if !f.ready(s.returned + keep, s.clock)
      then t.(count := keep, stop := Some(Stop(TimeLimitReached, s.returned + keep)))
      else match f.load(s.returned + keep)
        case ReadError(code) => Broken(t, code)
        case Loaded(_) => Cut(f, t, keep + 1)
  }

  /** One question of the cut. */
  lemma CutOnce(f: Feed, s: State, keep: nat)
    ensures keep == s.count ==> Cut(f, s, keep) == s
    ensures keep < s.count ==>
      var t := s.(clock := s.clock + 1);
      Cut(f, s, keep) ==
        if !f.ready(s.returned + keep, s.clock)
        then t.(count := keep, stop := Some(Stop(TimeLimitReached, s.returned + keep)))
        else if f.load(s.returned + keep).ReadError? then Broken(t, f.load(s.returned + keep).code)
        else Cut(f, t, keep + 1)
  {
  }

  /** Records the source's stop; after a row, a time limit drops what has not completed. */
  function Halted(f: Feed, s: State, reason: Reason, continuation: nat): State {
    var t := s.(pulled := s.pulled + 1, stop := Some(Stop(reason, continuation)));
    if reason == TimeLimitReached && s.last.Some? then Cut(f, t, 0) else t
  }

  /** Pulls until the head is ready after an insertion, the pipeline is full or the source stops. */
  function Filled(f: Feed, s: State): State
    decreases f.size - s.count
  {
    if s.stop.Some? || s.count >= f.size then s
    else match f.source(s.pulled)
      case SourceError(code) => Broken(s.(pulled := s.pulled + 1), code)
      case NoNext(reason, continuation) => Halted(f, s, reason, continuation)
      case Entry =>
        var t := s.(pulled := s.pulled + 1, count := s.count + 1, clock := s.clock + 1);
        if f.ready(s.returned, s.clock) then t else Filled(f, t)
  }

  /** The stop if nothing is queued, otherwise the head. */
  function Finished(f: Feed, s: State): (State, Result)
    requires s.stop.Some? || s.count > 0
  {
    if s.count == 0 then (s.(last := s.stop), s.stop.value)
    else match f.load(s.returned)
      case ReadError(code) => (Broken(s, code), Failed(code))
      case Loaded(row) =>
        var r := Row(row, s.returned);
        (s.(returned := s.returned + 1, count := s.count - 1, last := Some(r)), r)
  }

  /** A stop or a full pipeline leaves nothing to fill. */
  lemma FilledAlready(f: Feed, s: State)
    ensures s.stop.Some? || s.count >= f.size ==> Filled(f, s) == s
  {
  }

  /** Without an error there is a stop or a queued read. */
  lemma {:induction false} FilledHasAnswer(f: Feed, s: State)
    requires f.size > 0 && s.failure.None?
    ensures var t := Filled(f, s); t.failure.None? ==> t.stop.Some? || t.count > 0
    decreases f.size - s.count
  {
    if s.stop.None? && s.count < f.size {
      match f.source(s.pulled) {
        case SourceError(_) =>
        case NoNext(reason, continuation) =>
          CutKeepsStop(f, s.(pulled := s.pulled + 1, stop := Some(Stop(reason, continuation))), 0);
        case Entry =>
          FilledHasAnswer(f, s.(pulled := s.pulled + 1, count := s.count + 1, clock := s.clock + 1));
      }
    }
  }

  lemma {:induction false} CutKeepsStop(f: Feed, s: State, keep: nat)
    requires s.stop.Some?
    ensures Cut(f, s, keep).stop.Some?
    decreases s.count - keep
  {
    if keep < s.count { CutKeepsStop(f, s.(clock := s.clock + 1), keep + 1); }
  }

  /** The next state and the answer. */
  function Next(f: Feed, s: State, contextDone: bool): (State, Result)
    requires f.size > 0
  {
    if s.last.Some? && s.last.value.Stop? then (s, s.last.value)
    else if s.closed then (s, Refused(Closed))
    else if s.failure.Some? then (s, Failed(s.failure.value))
    else if contextDone then (s, Refused(ContextDone))
    else
      var t := Filled(f, s);
      FilledHasAnswer(f, s);
      if t.failure.Some? then (t, Failed(t.failure.value)) else Finished(f, t)
  }
}
