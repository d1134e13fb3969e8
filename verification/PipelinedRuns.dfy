/** What holds in every run of the gated load, and how every run ends. */
module PipelinedRuns {
  import opened PipelinedLoad

  // ---------------------------------------------------------------- one step

  lemma {:induction false} ChargedToUpdate(b: seq<nat>, before: seq<Load>, after: seq<Load>, i: nat, k: nat)
    requires |before| == |after| <= |b| && i < |before| && k <= |before|
    requires forall j :: 0 <= j < |before| && j != i ==> before[j] == after[j]
    ensures ChargedTo(b, after, k) ==
            ChargedTo(b, before, k) + (if i < k && after[i].charged then b[i] else 0)
            - (if i < k && before[i].charged then b[i] else 0)
    ensures NativeCount(after, k) ==
            NativeCount(before, k) + (if i < k then One(after[i].native) - One(before[i].native) else 0)
    ensures ChargedCount(after, k) ==
            ChargedCount(before, k) + (if i < k then One(after[i].charged) - One(before[i].charged) else 0)
  {
    if k > 0 { ChargedToUpdate(b, before, after, i, k - 1); }
  }

  lemma {:induction false} CountsOfPrefix(b: seq<nat>, before: seq<Load>, after: seq<Load>, k: nat)
    requires k <= |before| <= |after| <= |b| && before == after[..|before|]
    ensures ChargedTo(b, after, k) == ChargedTo(b, before, k)
    ensures NativeCount(after, k) == NativeCount(before, k) && ChargedCount(after, k) == ChargedCount(before, k)
  {
    if k > 0 { CountsOfPrefix(b, before, after, k - 1); }
  }

  lemma {:induction false} AllChargedSum(b: seq<nat>, loads: seq<Load>, k: nat)
    requires k <= |loads| <= |b|
    requires forall i :: 0 <= i < k ==> loads[i].charged
    ensures ChargedTo(b, loads, k) == SumTo(b, k)
    ensures ChargedCount(loads, k) == k
  {
    if k > 0 { AllChargedSum(b, loads, k - 1); }
  }

  lemma {:induction false} NoneChargedSum(b: seq<nat>, loads: seq<Load>, k: nat)
    requires k <= |loads| <= |b|
    requires forall i :: 0 <= i < k ==> !loads[i].charged
    ensures ChargedTo(b, loads, k) == 0
  {
    if k > 0 { NoneChargedSum(b, loads, k - 1); }
  }

  lemma StepPull(c: Setup, arm: Arm, s: State)
    requires c.Valid() && Consistent(c, s) && Enabled(c, arm, s, Pull)
    ensures Consistent(c, Apply(c, arm, s, Pull))
    ensures Taken(Apply(c, arm, s, Pull)) == Taken(s) + 1
  {
    CountsOfPrefix(c.record, s.loads, Apply(c, arm, s, Pull).loads, |s.loads|);
  }

  lemma StepLoad(c: Setup, arm: Arm, s: State, a: Action)
    requires c.Valid() && Consistent(c, s) && Enabled(c, arm, s, a) && (a.Native? || a.Charge?)
    ensures Consistent(c, Apply(c, arm, s, a))
    ensures Taken(Apply(c, arm, s, a)) == Taken(s) + 1
  {
    ChargedToUpdate(c.record, s.loads, Apply(c, arm, s, a).loads, a.i, |s.loads|);
  }

  lemma StepConsumer(c: Setup, arm: Arm, s: State, a: Action)
    requires c.Valid() && Consistent(c, s) && Enabled(c, arm, s, a) && !a.Pull? && !a.Native? && !a.Charge?
    ensures Consistent(c, Apply(c, arm, s, a))
    ensures Taken(Apply(c, arm, s, a)) == Taken(s) + 1
  {
    hide SumTo, ChargedTo, NativeCount, ChargedCount;
  }

  /** Every step keeps the accounting and takes exactly one of the run's steps. */
  lemma StepConsistent(c: Setup, arm: Arm, s: State, a: Action)
    requires c.Valid() && Consistent(c, s) && Enabled(c, arm, s, a)
    ensures Consistent(c, Apply(c, arm, s, a))
    ensures Taken(Apply(c, arm, s, a)) == Taken(s) + 1
  {
    hide Apply, Taken, Enabled, Consistent;
    match a
    case Pull => StepPull(c, arm, s);
    case Native(_) => StepLoad(c, arm, s, a);
    case Charge(_) => StepLoad(c, arm, s, a);
    case _ => StepConsumer(c, arm, s, a);
  }

  /** Every step keeps what its schedule promises. */
  lemma StepScheduled(c: Setup, arm: Arm, s: State, a: Action)
    requires c.Valid() && Consistent(c, s) && Scheduled(c, arm, s) && Enabled(c, arm, s, a)
    ensures Consistent(c, Apply(c, arm, s, a)) && Scheduled(c, arm, Apply(c, arm, s, a))
  {
    StepConsistent(c, arm, s, a);
    if a.Fail? {
      if AllCharged(s.loads) { AllChargedSum(c.record, s.loads, |s.loads|); }
      if arm.Holds() { NoneChargedSum(c.record, s.loads, |s.loads|); }
    }
  }

  // ---------------------------------------------------------------- whole runs

  /** Every reachable state is consistent and on schedule, and records its own number of steps. */
  lemma {:induction false} RunInvariant(c: Setup, arm: Arm, actions: seq<Action>, s: State)
    requires c.Valid() && Reaches(c, arm, actions, s)
    ensures Consistent(c, s) && Scheduled(c, arm, s)
    ensures |actions| == Taken(s)
  {
    if actions != [] {
      hide Enabled, Apply, Consistent, Scheduled, Taken;
      var last := |actions| - 1;
      var r :| Reaches(c, arm, actions[..last], r) && Steps(c, arm, r, actions[last], s);
      RunInvariant(c, arm, actions[..last], r);
      StepConsistent(c, arm, r, actions[last]);
      StepScheduled(c, arm, r, actions[last]);
    }
  }

  lemma {:induction false} CountBounds(loads: seq<Load>, k: nat)
    requires k <= |loads|
    ensures NativeCount(loads, k) <= k && ChargedCount(loads, k) <= k
  {
    if k > 0 { CountBounds(loads, k - 1); }
  }

  /** The consumer goes past a load call, or fails, only once some native read is ready. */
  ghost predicate NativeSeen(arm: Arm, s: State) {
    s.failed || ((arm.ReadyWhenOffered? || arm.HeldWhenOffered?) && s.offered > 0) ==> AnyNative(s.loads)
  }

  lemma StepNativeSeen(c: Setup, arm: Arm, s: State, a: Action)
    requires c.Valid() && Consistent(c, s) && NativeSeen(arm, s) && Enabled(c, arm, s, a)
    ensures NativeSeen(arm, Apply(c, arm, s, a))
  {
    hide SumTo, ChargedTo;
    var t := Apply(c, arm, s, a);
    if AnyNative(s.loads) {
      var i :| 0 <= i < |s.loads| && s.loads[i].native;
      assert t.loads[i].native;
    }
  }

  /** The scan never fails before the native read of an issued load is ready. */
  lemma {:induction false} NativeBeforeFailure(c: Setup, arm: Arm, actions: seq<Action>, s: State)
    requires c.Valid() && Reaches(c, arm, actions, s)
    ensures s.failed || ((arm.ReadyWhenOffered? || arm.HeldWhenOffered?) && s.offered > 0) ==> AnyNative(s.loads)
  {
    hide Enabled, Apply, Consistent, Scheduled, Taken;
    if actions != [] {
      var last := |actions| - 1;
      var r :| Reaches(c, arm, actions[..last], r) && Steps(c, arm, r, actions[last], s);
      RunInvariant(c, arm, actions[..last], r);
      NativeBeforeFailure(c, arm, actions[..last], r);
      StepNativeSeen(c, arm, r, actions[last]);
    }
  }

  /** No run is longer than five steps per entry and three more: there is no livelock. */
  lemma RunLength(c: Setup, arm: Arm, actions: seq<Action>, s: State)
    requires c.Valid() && Reaches(c, arm, actions, s)
    ensures |actions| <= 5 * c.Limit() + 3
  {
    hide Reaches;
    RunInvariant(c, arm, actions, s);
    CountBounds(s.loads, |s.loads|);
  }

  /** The pipeline has room for the pull that fails. The ready schedule always has. */
  predicate HasRoom(c: Setup, arm: Arm) { arm.ReadyWhenOffered? || c.pipeline > c.Limit() }

  /** A load that has not completed can make a step once the gate is open. */
  lemma LoadProgress(c: Setup, arm: Arm, s: State) returns (a: Action)
    requires s.released && !AllCharged(s.loads)
    ensures Enabled(c, arm, s, a) && (a.Native? || a.Charge?)
  {
    var i: nat :| i < |s.loads| && !s.loads[i].charged;
    a := if s.loads[i].native then Charge(i) else Native(i);
  }

  /** The gate cannot deadlock: short of quiescence, some step is always possible. */
  lemma Progress(c: Setup, arm: Arm, s: State) returns (a: Action)
    requires c.Valid() && Consistent(c, s) && Scheduled(c, arm, s)
    requires HasRoom(c, arm) && !Quiesced(s)
    ensures Enabled(c, arm, s, a)
  {
    hide SumTo, ChargedTo;
    if s.failed {
      if s.released { a := LoadProgress(c, arm, s); } else { a := OpenGate; }
    } else if s.offered < |s.loads| {
      var i := s.offered;
      if !s.loads[i].native {
        a := Native(i);
      } else if arm.ReadyWhenOffered? && !s.loads[i].charged {
        a := if s.released then Charge(i) else OpenGate;
      } else {
        a := Offer;
      }
    } else if s.knocking {
      if !AnyNative(s.loads) {
        assert !s.loads[0].native;
        a := Native(0);
      } else if arm.ReleasedBeforeError? && !s.released {
        a := OpenGate;
      } else if arm.ReleasedBeforeError? && !AllCharged(s.loads) {
        a := LoadProgress(c, arm, s);
      } else {
        a := Fail;
      }
    } else if s.mustReturn {
      a := Return;
    } else {
      a := if |s.loads| < c.Limit() then Pull else Knock;
    }
  }

  /** Nothing further can happen. */
  ghost predicate Stuck(c: Setup, arm: Arm, s: State) { forall a :: !Enabled(c, arm, s, a) }

  /** The probe's observations at the end of a run, for each schedule. */
  ghost predicate Observed(c: Setup, arm: Arm, s: State)
    requires c.Valid()
  {
    var indexBytes, recordBytes := SumTo(c.index, c.Limit()), SumTo(c.record, c.Limit());
    && SourceCalls(s) == c.Limit() + 1 && |s.loads| == c.Limit()
    && s.bytes == indexBytes + recordBytes
    && s.failureBytes == indexBytes + (if arm.Holds() then 0 else recordBytes)
    && s.firstCalls == (if arm.ReadyWhenOffered? then 1 else c.Limit() + 1)
    && RowsOfArm(c, arm, s.returned)
  }

  /** How many rows a complete run may return: all when ready, none when held, any number when released. */
  predicate RowsOfArm(c: Setup, arm: Arm, rows: nat) {
    match arm
    case ReadyWhenOffered => rows == c.Limit()
    case ReleasedBeforeError => rows <= c.Limit()
    case _ => rows == 0
  }

  lemma QuiescedObserved(c: Setup, arm: Arm, s: State)
    requires c.Valid() && Consistent(c, s) && Scheduled(c, arm, s) && Quiesced(s)
    ensures Observed(c, arm, s)
  {
    AllChargedSum(c.record, s.loads, |s.loads|);
  }

  /**
   However the steps interleave, a run that can go no further has quiesced. The charges at
   failure and at quiescence and the source calls depend on the schedule alone; so do the
   rows, except that a gate released before the error leaves their number open.
   */
  lemma EveryRunEnds(c: Setup, arm: Arm, actions: seq<Action>, s: State)
    requires c.Valid() && HasRoom(c, arm)
    requires Reaches(c, arm, actions, s) && Stuck(c, arm, s)
    ensures Quiesced(s) && Observed(c, arm, s)
  {
    hide Reaches, Enabled, Quiesced, Observed;
    RunInvariant(c, arm, actions, s);
    if !Quiesced(s) { var a := Progress(c, arm, s); }
    QuiescedObserved(c, arm, s);
  }

  /** Every unfinished run can be carried on to quiescence. */
  lemma {:induction false} Extend(c: Setup, arm: Arm, actions: seq<Action>, s: State)
    returns (actions': seq<Action>, s': State)
    requires c.Valid() && HasRoom(c, arm) && Reaches(c, arm, actions, s)
    ensures Reaches(c, arm, actions', s') && Quiesced(s')
    decreases 5 * c.Limit() + 3 - |actions|
  {
    hide Enabled, Apply, Consistent, Scheduled, Quiesced;
    RunLength(c, arm, actions, s);
    if Quiesced(s) {
      actions', s' := actions, s;
    } else {
      RunInvariant(c, arm, actions, s);
      var a := Progress(c, arm, s);
      var longer, t := OneStep(c, arm, actions, s, a);
      RunLength(c, arm, longer, t);
      actions', s' := Extend(c, arm, longer, t);
    }
  }

  lemma ShapedOfConsistent(c: Setup, s: State)
    requires c.Valid() && Consistent(c, s)
    ensures WellShaped(c, s)
  {
  }

  /**
   The source error can be reached at all exactly when the pipeline has room for more
   than the pending mappings; a full pipeline would wait for the held gate forever.
   */
  lemma ErrorReachableIffRoom(c: Setup, arm: Arm)
    requires c.Valid() && !arm.ReadyWhenOffered?
    ensures (exists actions, s :: Reaches(c, arm, actions, s) && s.failed) <==> c.pipeline > c.Limit()
  {
    if c.pipeline > c.Limit() {
      assert Reaches(c, arm, [], Start);
      var actions, s := Extend(c, arm, [], Start);
      assert Reaches(c, arm, actions, s) && s.failed;
    }
    forall actions, s | Reaches(c, arm, actions, s) && s.failed ensures c.pipeline > c.Limit() {
      RunInvariant(c, arm, actions, s);
    }
  }

  // ---------------------------------------------------------------- what the probes assert

  /** A mapping ready when it is offered is returned before the source is asked again. */
  lemma ReadyHeadReturnsFirst(c: Setup, actions: seq<Action>, s: State, a: Action)
    requires c.Valid() && Reaches(c, ReadyWhenOffered, actions, s)
    requires Enabled(c, ReadyWhenOffered, s, a) && (a.Pull? || a.Knock?)
    ensures s.returned == |s.loads|
  {
    hide Reaches;
    RunInvariant(c, ReadyWhenOffered, actions, s);
  }

  /** While the gate holds, no row is returned and only index bytes are charged. */
  lemma HeldChargesNothing(c: Setup, arm: Arm, actions: seq<Action>, s: State)
    requires c.Valid() && arm.Holds() && Reaches(c, arm, actions, s)
    ensures s.returned == 0
    ensures !s.failed ==> |s.loads| <= |c.index| && s.bytes == SumTo(c.index, |s.loads|)
  {
    hide Reaches;
    RunInvariant(c, arm, actions, s);
    if !s.failed { NoneChargedSum(c.record, s.loads, |s.loads|); }
  }

  /** After the error, only issued loads go on: nothing is pulled, issued or returned. */
  lemma QuiescenceIssuesNothing(c: Setup, arm: Arm, actions: seq<Action>, s: State, a: Action, t: State)
    requires c.Valid() && Reaches(c, arm, actions, s) && s.failed && Steps(c, arm, s, a, t)
    ensures SourceCalls(t) == SourceCalls(s) && |t.loads| == |s.loads| && t.offered == s.offered
    ensures t.returned == s.returned && t.failureBytes == s.failureBytes
  {
    hide Reaches;
    RunInvariant(c, arm, actions, s);
  }

  /** Charging is confluent: complete runs agree on the total, and at failure if both hold or neither does. */
  lemma ChargesConfluent(c: Setup, a: Arm, b: Arm, run: seq<Action>, s: State, other: seq<Action>, t: State)
    requires c.Valid() && HasRoom(c, a) && HasRoom(c, b)
    requires Reaches(c, a, run, s) && Stuck(c, a, s) && Reaches(c, b, other, t) && Stuck(c, b, t)
    ensures s.bytes == t.bytes
    ensures a.Holds() == b.Holds() ==> s.failureBytes == t.failureBytes
  {
    hide Reaches, Stuck;
    EveryRunEnds(c, a, run, s);
    EveryRunEnds(c, b, other, t);
  }

  // ---------------------------------------------------------------- the rows of a complete run

  /** Released before the error: everything is charged and the failing pull has begun, but nothing is returned yet. */
  predicate AllWaiting(s: State) { s.knocking && !s.failed && AllCharged(s.loads) && s.returned == 0 }

  /** Short of that, some step leads on without returning a row or failing. */
  lemma Advance(c: Setup, s: State) returns (a: Action)
    requires c.Valid() && Consistent(c, s) && Scheduled(c, ReleasedBeforeError, s)
    requires c.pipeline > c.Limit() && !s.failed && s.returned == 0 && !AllWaiting(s)
    ensures Enabled(c, ReleasedBeforeError, s, a) && !a.Return? && !a.Fail?
  {
    hide SumTo, ChargedTo;
    if s.offered < |s.loads| {
      a := Offer;
    } else if !s.knocking {
      a := if |s.loads| < c.Limit() then Pull else Knock;
    } else if !s.released {
      assert |s.loads| > 0;
      a := if s.loads[0].native then OpenGate else Native(0);
    } else {
      a := LoadProgress(c, ReleasedBeforeError, s);
    }
  }

  lemma {:induction false} ReachWaiting(c: Setup, actions: seq<Action>, s: State)
    returns (actions': seq<Action>, s': State)
    requires c.Valid() && c.pipeline > c.Limit() && Reaches(c, ReleasedBeforeError, actions, s)
    requires !s.failed && s.returned == 0
    ensures Reaches(c, ReleasedBeforeError, actions', s') && AllWaiting(s')
    decreases 5 * c.Limit() + 3 - |actions|
  {
    hide Enabled, Consistent, Scheduled, AllWaiting, Reaches;
    RunLength(c, ReleasedBeforeError, actions, s);
    if AllWaiting(s) {
      actions', s' := actions, s;
    } else {
      RunInvariant(c, ReleasedBeforeError, actions, s);
      var a := Advance(c, s);
      var longer, t := OneStep(c, ReleasedBeforeError, actions, s, a);
      RunLength(c, ReleasedBeforeError, longer, t);
      actions', s' := ReachWaiting(c, longer, t);
    }
  }

  /** A reachable state and an enabled step give a longer run. */
  lemma OneStep(c: Setup, arm: Arm, actions: seq<Action>, s: State, a: Action)
    returns (longer: seq<Action>, t: State)
    requires c.Valid() && Reaches(c, arm, actions, s) && Enabled(c, arm, s, a)
    ensures longer == actions + [a] && Reaches(c, arm, longer, t)
    ensures WellShaped(c, s) && t == Apply(c, arm, s, a)
  {
    hide Enabled, Apply, Consistent, Scheduled;
    RunInvariant(c, arm, actions, s);
    ShapedOfConsistent(c, s);
    t := Apply(c, arm, s, a);
    longer := actions + [a];
    assert longer[..|actions|] == actions;
    assert Steps(c, arm, s, a, t);
  }

  /** From there any number of rows can be returned before the error is seen. */
  lemma {:induction false} ReturnSome(c: Setup, actions: seq<Action>, s: State, k: nat)
    returns (actions': seq<Action>, s': State)
    requires c.Valid() && Reaches(c, ReleasedBeforeError, actions, s) && AllWaiting(s) && k <= c.Limit()
    ensures Reaches(c, ReleasedBeforeError, actions', s')
    ensures s'.knocking && !s'.failed && s'.loads == s.loads && s'.returned == k
  {
    hide Reaches, Scheduled;
    if k == 0 {
      actions', s' := actions, s;
    } else {
      var before, r := ReturnSome(c, actions, s, k - 1);
      RunInvariant(c, ReleasedBeforeError, before, r);
      actions', s' := OneStep(c, ReleasedBeforeError, before, r, Return);
    }
  }

  lemma ReleasedRows(c: Setup, k: nat) returns (actions: seq<Action>, s: State)
    requires c.Valid() && c.pipeline > c.Limit() && k <= c.Limit()
    ensures Reaches(c, ReleasedBeforeError, actions, s) && Quiesced(s) && s.returned == k
  {
    assert Reaches(c, ReleasedBeforeError, [], Start);
    hide Reaches, Scheduled;
    var waiting, w := ReachWaiting(c, [], Start);
    var returned, r := ReturnSome(c, waiting, w, k);
    RunInvariant(c, ReleasedBeforeError, returned, r);
    assert r.loads[0].charged;
    actions, s := OneStep(c, ReleasedBeforeError, returned, r, Fail);
  }

  lemma QuiescedStuck(c: Setup, arm: Arm, s: State)
    requires c.Valid() && Consistent(c, s) && Quiesced(s)
    ensures Stuck(c, arm, s)
  {
    hide SumTo, ChargedTo;
  }

  /** A complete run of the schedule returns this many rows. */
  ghost predicate CanReturn(c: Setup, arm: Arm, rows: nat) {
    exists actions, s :: Reaches(c, arm, actions, s) && Stuck(c, arm, s) && s.returned == rows
  }

  /**
   Which row counts complete runs have: exactly the whole limit when ready, exactly none
   when held, and every number up to the limit when released before the error.
   */
  lemma RowsExact(c: Setup, arm: Arm, rows: nat)
    requires c.Valid() && HasRoom(c, arm)
    ensures CanReturn(c, arm, rows) <==> RowsOfArm(c, arm, rows)
  {
    forall actions, s | Reaches(c, arm, actions, s) && Stuck(c, arm, s) ensures RowsOfArm(c, arm, s.returned) {
      EveryRunEnds(c, arm, actions, s);
    }
    if RowsOfArm(c, arm, rows) {
      var actions, s := SomeRun(c, arm, rows);
      assert Reaches(c, arm, actions, s) && Stuck(c, arm, s);
    }
  }

  lemma SomeRun(c: Setup, arm: Arm, rows: nat) returns (actions: seq<Action>, s: State)
    requires c.Valid() && HasRoom(c, arm) && RowsOfArm(c, arm, rows)
    ensures Reaches(c, arm, actions, s) && Stuck(c, arm, s) && s.returned == rows
  {
    if arm.ReleasedBeforeError? {
      actions, s := ReleasedRows(c, rows);
    } else {
      assert Reaches(c, arm, [], Start);
      actions, s := Extend(c, arm, [], Start);
    }
    hide Reaches, Stuck, Enabled;
    RunInvariant(c, arm, actions, s);
    QuiescedStuck(c, arm, s);
    EveryRunEnds(c, arm, actions, s);
  }
}
