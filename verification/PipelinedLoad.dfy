/**
 The gated, pipelined record load: a consumer pulls index entries, issues a record load
 for each and returns mapped rows in order, while native reads finish and a gate holds
 their results back. Every interleaving of these steps is a run.
 */
module PipelinedLoad {

  /** The four controlled schedules: two of the ready-head probe, two of the load-charge probe. */
  datatype Arm = ReadyWhenOffered | HeldWhenOffered | ReleasedBeforeError | HeldUntilError {
    /** The load call itself waits for the native read (and, when ready, for the whole load). */
    predicate OfferWaits() { ReadyWhenOffered? || HeldWhenOffered? }

    /** The gate stays closed until the scan has failed. */
    predicate Holds() { HeldWhenOffered? || HeldUntilError? }
  }

  /** The scan limit, the pipeline size and the bytes of the entries and records within the limit. */
  datatype Setup = Setup(pipeline: nat, index: seq<nat>, record: seq<nat>) {
    ghost predicate Valid() { |index| == |record| >= 1 && pipeline >= 1 }

    /** The scanned-records limit: the pull after this many fails. */
    function Limit(): nat { |index| }
  }

  datatype Load = Load(native: bool, charged: bool)

  datatype State = State(
    loads: seq<Load>,       // issued loads, in source order
    offered: nat,           // mappings handed to the pipeline
    returned: nat,          // rows returned to the caller
    mustReturn: bool,       // the head was ready when the last mapping was offered
    knocking: bool,         // the pull that will fail has started
    released: bool,         // the gate is open
    failed: bool,           // the source error reached the caller
    bytes: nat,             // bytes charged to the execute state
    failureBytes: nat,      // the same, when the error was seen
    firstCalls: nat)        // source calls at the first result, row or error

  const Start := State([], 0, 0, false, false, false, false, 0, 0, 0)

  datatype Action = Pull | Offer | Native(i: nat) | OpenGate | Charge(i: nat) | Return | Knock | Fail

  function SourceCalls(s: State): nat { |s.loads| + if s.knocking then 1 else 0 }

  predicate AnyNative(loads: seq<Load>) { exists i :: 0 <= i < |loads| && loads[i].native }

  predicate AllCharged(loads: seq<Load>) { forall i :: 0 <= i < |loads| ==> loads[i].charged }

  /** The consumer may ask the source: nothing is being issued, there is room, and no ready head waits. */
  predicate MayPull(c: Setup, s: State) {
    !s.failed && !s.knocking && s.offered == |s.loads| && s.offered < s.returned + c.pipeline && !s.mustReturn
  }

  /** The gate is opened before the failure: inside the load call, or by the pull that will fail. */
  predicate OpensEarly(arm: Arm, s: State) {
    && AnyNative(s.loads)
    && ((arm.ReadyWhenOffered? && s.offered < |s.loads|) || (arm.ReleasedBeforeError? && s.knocking))
  }

  predicate Enabled(c: Setup, arm: Arm, s: State, a: Action) {
    match a
    case Pull => MayPull(c, s) && |s.loads| < c.Limit()
    case Offer =>
      && !s.failed && s.offered < |s.loads|
      && (arm.OfferWaits() ==> AnyNative(s.loads))
      && (arm.ReadyWhenOffered? ==> s.loads[s.offered].charged)
    case Native(i) => i < |s.loads| && !s.loads[i].native
    case OpenGate => !s.released && (s.failed || OpensEarly(arm, s))
    case Charge(i) => s.released && i < |s.loads| && s.loads[i].native && !s.loads[i].charged
    case Return => !s.failed && s.offered == |s.loads| && s.returned < s.offered && s.loads[s.returned].charged
    case Knock => MayPull(c, s) && |s.loads| == c.Limit()
    case Fail =>
      && s.knocking && !s.failed
      && (!arm.OfferWaits() ==> AnyNative(s.loads))
      && (arm.ReleasedBeforeError? ==> s.released && AllCharged(s.loads))
  }

  function Apply(c: Setup, arm: Arm, s: State, a: Action): State
    requires |c.index| == |c.record| && |s.loads| <= c.Limit() && Enabled(c, arm, s, a)
    requires s.returned <= s.offered <= |s.loads|
  {
    match a
    case Pull => s.(loads := s.loads + [Load(false, false)], bytes := s.bytes + c.index[|s.loads|])
    case Offer => s.(offered := s.offered + 1, mustReturn := s.loads[s.returned].charged)
    case Native(i) => s.(loads := s.loads[i := s.loads[i].(native := true)])
    case OpenGate => s.(released := true)
    case Charge(i) => s.(loads := s.loads[i := s.loads[i].(charged := true)], bytes := s.bytes + c.record[i])
    case Return => s.(returned := s.returned + 1, mustReturn := false,
                      firstCalls := if s.returned == 0 then SourceCalls(s) else s.firstCalls)
    case Knock => s.(knocking := true)
    case Fail => s.(failed := true, failureBytes := s.bytes,
                    firstCalls := if s.returned == 0 then SourceCalls(s) else s.firstCalls)
  }

  // ---------------------------------------------------------------- sums and counts

  function SumTo(b: seq<nat>, k: nat): nat
    requires k <= |b|
  {
    if k == 0 then 0 else SumTo(b, k - 1) + b[k - 1]
  }

  /** The record bytes of the completed loads among the first `k`. */
  function ChargedTo(b: seq<nat>, loads: seq<Load>, k: nat): nat
    requires k <= |loads| <= |b|
  {
    if k == 0 then 0 else ChargedTo(b, loads, k - 1) + if loads[k - 1].charged then b[k - 1] else 0
  }

  function NativeCount(loads: seq<Load>, k: nat): nat
    requires k <= |loads|
  {
    if k == 0 then 0 else NativeCount(loads, k - 1) + if loads[k - 1].native then 1 else 0
  }

  function ChargedCount(loads: seq<Load>, k: nat): nat
    requires k <= |loads|
  {
    if k == 0 then 0 else ChargedCount(loads, k - 1) + if loads[k - 1].charged then 1 else 0
  }

  function One(b: bool): nat { if b then 1 else 0 }

  /** How many steps a run has taken, read off its state. */
  function Taken(s: State): nat
    requires s.offered <= |s.loads|
  {
    |s.loads| + s.offered + NativeCount(s.loads, |s.loads|) + ChargedCount(s.loads, |s.loads|) + s.returned
    + One(s.released) + One(s.knocking) + One(s.failed)
  }

  // ---------------------------------------------------------------- the invariant

  /** What every reachable state satisfies, whatever the schedule. */
  ghost predicate Consistent(c: Setup, s: State)
    requires c.Valid()
  {
    && |s.loads| <= c.Limit()
    && s.returned <= s.offered <= |s.loads| <= s.offered + 1
    && |s.loads| <= s.returned + c.pipeline
    && (s.knocking ==> s.offered == |s.loads| == c.Limit() && (c.Limit() < s.returned + c.pipeline))
    && (s.failed ==> s.knocking)
    && (s.mustReturn ==> !s.knocking && s.returned < s.offered == |s.loads| && s.loads[s.returned].charged)
    && (forall i :: 0 <= i < s.returned ==> s.loads[i].charged)
    && (forall i :: 0 <= i < |s.loads| && s.loads[i].charged ==> s.loads[i].native && s.released)
    && s.bytes == SumTo(c.index, |s.loads|) + ChargedTo(c.record, s.loads, |s.loads|)
  }

  /** What each schedule adds. */
  ghost predicate Scheduled(c: Setup, arm: Arm, s: State)
    requires c.Valid() && Consistent(c, s)
  {
    match arm
    case ReadyWhenOffered =>
      && (s.offered == s.returned + One(s.mustReturn))
      && (s.knocking ==> s.returned == c.Limit())
      && (s.failed ==> s.failureBytes == SumTo(c.index, c.Limit()) + SumTo(c.record, c.Limit()))
      && (s.returned > 0 ==> s.firstCalls == 1)
      && (forall i :: 0 <= i < s.offered ==> s.loads[i].charged)
    case ReleasedBeforeError =>
      && (s.knocking ==> c.Limit() < c.pipeline)
      && (s.released ==> s.knocking)
      && (!s.released ==> s.returned == 0)
      && (s.failed ==> AllCharged(s.loads))
      && (s.failed ==> s.failureBytes == SumTo(c.index, c.Limit()) + SumTo(c.record, c.Limit()))
      && (s.returned > 0 || s.failed ==> s.firstCalls == c.Limit() + 1)
    case _ =>
      && (s.knocking ==> c.Limit() < c.pipeline)
      && (s.released ==> s.failed)
      && s.returned == 0
      && (s.failed ==> s.failureBytes == SumTo(c.index, c.Limit()) && s.firstCalls == c.Limit() + 1)
  }

  // ---------------------------------------------------------------- runs

  /** The counters are in order; no reachable state violates this. */
  predicate WellShaped(c: Setup, s: State) {
    |c.index| == |c.record| && |s.loads| <= c.Limit() && s.returned <= s.offered <= |s.loads|
  }

  predicate Steps(c: Setup, arm: Arm, s: State, a: Action, t: State) {
    WellShaped(c, s) && Enabled(c, arm, s, a) && t == Apply(c, arm, s, a)
  }

  /** Some interleaving, given by its actions, leads from the start to `s`. */
  ghost predicate Reaches(c: Setup, arm: Arm, actions: seq<Action>, s: State) {
    if actions == [] then s == Start
    else
      var last := |actions| - 1;
      exists r :: Reaches(c, arm, actions[..last], r) && Steps(c, arm, r, actions[last], s)
  }

  /** The error was seen, the gate is open and every issued load has completed. */
  predicate Quiesced(s: State) { s.failed && s.released && AllCharged(s.loads) }
}
