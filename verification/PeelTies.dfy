/** A population on which the Java and the Go tie rule lead to different runs of the peel. */
module PeelTies {
  import opened Sequences
  import opened Peel
  import opened PeelTheorems

  // ---------------------------------------------------------------- runs without straddling ties

  /** A cut that some distance separates is the same under every tie rule. */
  lemma SeparatedUnderAnyTies(ties: Ties, other: Ties, d: seq<real>, next: seq<nat>, k: nat, kept: seq<nat>)
    requires ValidMass(next, |d|) && CutsBetweenDistances(d, next, k) && IsFloorCut(ties, d, next, k, kept)
    ensures IsFloorCut(other, d, next, k, kept)
  {
    if k == 0 {
      DistinctCardinality(next);
      DistinctCardinality(kept);
      SubsetCardinality(ElementSet(kept), ElementSet(next));
      assert forall a :: a in next ==> a in ElementSet(kept);
    } else if k < |next| {
      var j :| j in next && |AtLeastAsFar(d, next, j)| == k;
      SeparatedCut(ties, d, next, k, kept, j);
      forall a, b | a in next && a !in kept && b in kept ensures Farther(other, d, a, b) {
        assert a in Dropped(next, kept) && b !in Dropped(next, kept);
        assert a in AtLeastAsFar(d, next, j) && b !in AtLeastAsFar(d, next, j);
      }
    }
  }

  /** No tie straddles the floor cut of this round, if there is one. */
  ghost predicate Untied(env: Env, mode: Mode, st: Stage, round: nat) {
    ValidStage(env, st) &&
    var d := Distances(env, Big(st));
    forall survivors :: IsSurvivors(d, st.mass, st.assignment, Undersized(st), mode.tailCut, survivors) ==>
      var shortfall := Floor(round) - (|env.population| - |survivors|);
      mode.geometricFloor && shortfall > 0 ==> CutsBetweenDistances(d, survivors, shortfall)
  }

  lemma RoundAgrees(env: Env, mode: Mode, other: Ties, st: Stage, round: nat, next: seq<nat>)
    requires Untied(env, mode, st, round) && PeelsTo(env, mode, st, round, next)
    ensures PeelsTo(env, mode.(ties := other), st, round, next)
  {
    hide IsSurvivors, IsFloorCut, CutsBetweenDistances;
    var survivors :| |survivors| < |st.mass| && IsPeeled(env, mode, st, round, survivors, next);
    var d := Distances(env, Big(st));
    SurvivorsValid(d, st, mode, survivors);
    var shortfall := Floor(round) - (|env.population| - |survivors|);
    if mode.geometricFloor && shortfall > 0 {
      SeparatedUnderAnyTies(mode.ties, other, d, survivors, shortfall, next);
    }
    assert IsPeeled(env, mode.(ties := other), st, round, survivors, next);
  }

  lemma RefitAgrees(env: Env, mode: Mode, other: Ties, seed: int, round: nat, st: Stage, r: Round)
    requires Untied(env, mode, st, round) && IsRefit(env, mode, seed, round, st, r)
    ensures IsRefit(env, mode.(ties := other), seed, round, st, r)
  {
    hide PeelsTo, IsSample, SampleOverflows, IsRehoming;
    RoundAgrees(env, mode, other, st, round, r.mass);
  }

  lemma {:induction false} TraceAgrees(env: Env, mode: Mode, other: Ties, seed: int, initial: Stage, trace: seq<Round>)
    requires IsTrace(env, mode, seed, initial, trace)
    requires forall r: nat :: r < |trace| ==> Untied(env, mode, Before(initial, trace, r), r)
    ensures IsTrace(env, mode.(ties := other), seed, initial, trace)
  {
    hide IsRefit, ValidStage, Untied;
    if trace != [] {
      var k := |trace| - 1;
      var init := trace[..k];
      RefitAt(env, mode, seed, initial, trace, k);
      forall r: nat | r < k ensures Before(initial, init, r) == Before(initial, trace, r) { }
      TraceAgrees(env, mode, other, seed, initial, init);
      RefitAgrees(env, mode, other, seed, k, Before(initial, trace, k), trace[k]);
    }
  }

  lemma StopAgrees(env: Env, mode: Mode, other: Ties, st: Stage, round: nat, outcome: Outcome)
    requires Untied(env, mode, st, round) && Stops(env, mode, st, round, outcome)
    ensures Stops(env, mode.(ties := other), st, round, outcome)
  {
    hide PeelsTo, HoldsNoMass, SampleOverflows;
    if !outcome.UndersizedChildHoldsNoMass? {
      var next :| PeelsTo(env, mode, st, round, next) && (outcome.MassBelowTwo? <==> |next| < 2)
                  && (outcome.SampleOutOfBounds? ==> SampleOverflows(|next|, mode.sampleSize));
      RoundAgrees(env, mode, other, st, round, next);
    }
  }

  /**
   A run in which no tie straddles a floor cut is a run under the other tie rule too, with
   the same outcome; by `RunUnique` it is the only one.
   */
  lemma UntiedRunsAgree(env: Env, mode: Mode, other: Ties, maxRefits: int, seed: int, decision: Decision, initial: Stage,
                        trace: seq<Round>, outcome: Outcome)
    requires IsTrace(env, mode, seed, initial, trace)
    requires ValidStage(env, Before(initial, trace, |trace|)) && Ends(env, mode, maxRefits, decision, initial, trace, outcome)
    requires forall r: nat :: r <= |trace| ==> Untied(env, mode, Before(initial, trace, r), r)
    ensures IsTrace(env, mode.(ties := other), seed, initial, trace)
    ensures Ends(env, mode.(ties := other), maxRefits, decision, initial, trace, outcome)
  {
    hide IsTrace, ValidStage, Stops, Untied;
    TraceAgrees(env, mode, other, seed, initial, trace);
    if !outcome.InitialUsable? && !outcome.Selected? && !outcome.RoundBound? {
      StopAgrees(env, mode, other, Before(initial, trace, |trace|), |trace|, outcome);
    }
  }

  // ---------------------------------------------------------------- a run with a straddling tie

  /** An outlier, a second one, and two pairs at the same distance from their mean. */
  const POPULATION: seq<Vector> := [[100.0], [10.0], [1.0], [-1.0], [-1.0], [1.0]]

  function Abs(x: real): real { if x < 0.0 then -x else x }

  /** The Euclidean distance of vectors with one component. */
  function Distance(v: Vector, c: Vector): real {
    if |v| == 1 && |c| == 1 then Abs(v[0] - c[0]) else 0.0
  }

  lemma DistanceIsEuclidean(x: real, y: real)
    ensures var d := Distance([x], [y]); d >= 0.0 && d * d == (x - y) * (x - y)
  {
  }

  /**
   The means of the two clusters: the outlier against the rest, the second outlier against
   the pairs, and, of three vectors, the first against its opposite.
   */
  function KMeans(seed: int, vectors: seq<Vector>): Fit {
    Fit(if |vectors| == 3 && |vectors[0]| == 1 then (vectors[0], [-vectors[0][0]])
        else if |vectors| == 5 then ([0.0], [10.0])
        else ([2.0], [100.0]),
        [1, 0, 0, 0, 0, 0], (5, 1))
  }

  function Evaluate(centroids: (Vector, Vector), assignment: seq<int>): Decision { InvalidCandidate }

  function Witness(): Env { Env(POPULATION, Distance, KMeans, Evaluate) }

  function Geometric(ties: Ties): Mode { Mode(false, true, ties, 10) }

  const FIRST: Round :=
    Round([1, 2, 3, 4, 5], [1, 2, 3, 4, 5], ([0.0], [10.0]), [1, 1, 0, 0, 0, 0], (4, 2), InvalidCandidate)

  /** Java drops the sixth vector, Go the third. */
  function Second(ties: Ties): Round {
    match ties
    case HigherIndexFirst => Round([2, 3, 4], [2, 3, 4], ([1.0], [-1.0]), [0, 0, 0, 1, 1, 0], (4, 2), InvalidCandidate)
    case LowerIndexFirst => Round([3, 4, 5], [3, 4, 5], ([-1.0], [1.0]), [1, 1, 1, 0, 0, 1], (2, 4), InvalidCandidate)
  }

  function Run(ties: Ties): seq<Round> { [FIRST, Second(ties)] }

  lemma FirstPeel(ties: Ties, seed: int)
    ensures var st := InitialStage(Witness(), seed);
      ValidStage(Witness(), st) && PeelsTo(Witness(), Geometric(ties), st, 0, FIRST.mass)
  {
    var env, st := Witness(), InitialStage(Witness(), seed);
    var d, next := Distances(env, Big(st)), FIRST.mass;
    assert st.mass == [0, 1, 2, 3, 4, 5];
    assert IsSurvivors(d, st.mass, st.assignment, 1, false, next);
    assert Floor(0) == 1 by { assert Pow2(1) == 2 * Pow2(0); }
    assert IsPeeled(env, Geometric(ties), st, 0, next, next);
  }

  lemma SecondSurvivors(d: seq<real>)
    requires |d| == 6
    ensures ValidMass(FIRST.mass, 6) && IsSurvivors(d, FIRST.mass, FIRST.assignment, 1, false, [2, 3, 4, 5])
  {
  }

  lemma DroppedOne(ties: Ties, d: seq<real>, kept: seq<nat>, dropped: nat)
    requires |d| == 6 && forall i :: 2 <= i < 6 ==> d[i] == 1.0
    requires ValidMass(kept, 6) && |kept| == 3 && 2 <= dropped < 6
    requires forall i: nat :: i in [2, 3, 4, 5] <==> i in kept || i == dropped
    requires forall b :: b in kept ==> if ties.HigherIndexFirst? then dropped > b else dropped < b
    ensures ValidMass([2, 3, 4, 5], 6) && IsFloorCut(ties, d, [2, 3, 4, 5], 1, kept)
  {
    assert forall b: nat :: b in kept ==> b in [2, 3, 4, 5];
  }

  /** With the four distances equal the tie rule alone decides. */
  lemma SecondCut(ties: Ties, d: seq<real>)
    requires |d| == 6 && forall i :: 2 <= i < 6 ==> d[i] == 1.0
    ensures ValidMass([2, 3, 4, 5], 6) && IsFloorCut(ties, d, [2, 3, 4, 5], 1, Second(ties).mass)
  {
    hide IsFloorCut;
    match ties
    case HigherIndexFirst => DroppedOne(ties, d, [2, 3, 4], 5);
    case LowerIndexFirst => DroppedOne(ties, d, [3, 4, 5], 2);
  }

  lemma SecondPeel(ties: Ties)
    ensures var st := StageOf(FIRST);
      ValidStage(Witness(), st) && PeelsTo(Witness(), Geometric(ties), st, 1, Second(ties).mass)
  {
    hide IsSurvivors, IsFloorCut, ValidMass;
    var env, st := Witness(), StageOf(FIRST);
    var d, survivors, next := Distances(env, Big(st)), [2, 3, 4, 5], Second(ties).mass;
    SecondSurvivors(d);
    assert Big(st) == [0.0];
    forall i | 2 <= i < 6 ensures d[i] == 1.0 { assert d[i] == Abs(POPULATION[i][0] - 0.0); }
    SecondCut(ties, d);
    assert Floor(1) == 3 by { assert Pow2(2) == 2 * Pow2(1) == 4 * Pow2(0); }
    assert IsPeeled(env, Geometric(ties), st, 1, survivors, next);
  }

  /** A mass of at most ten is fitted whole. */
  lemma WholeSample(mass: seq<nat>)
    requires 2 <= |mass| <= 10
    ensures IsSample(mass, 10, mass) && !SampleOverflows(|mass|, 10)
  {
    StrideUnique(|mass|, 10, 1);
    StrideUnique(|mass|, 1, |mass|);
    SampleFits(|mass|, 10);
    assert forall k :: 0 <= k < |mass| ==> k * 1 == k;
  }

  lemma {:induction false} Prepended(a: seq<int>, k: nat, x: int)
    requires k < |a|
    ensures Occurrences(a[..k + 1], x) == Occurrences(a[..k], x) + if a[k] == x then 1 else 0
  {
    assert a[..k + 1][..k] == a[..k];
  }

  lemma Counted(a: seq<int>, x: int)
    requires |a| == 6
    ensures Occurrences(a, x) == Is(a[0], x) + Is(a[1], x) + Is(a[2], x) + Is(a[3], x) + Is(a[4], x) + Is(a[5], x)
  {
    hide Occurrences;
    assert a[..6] == a;
    assert Occurrences(a[..0], x) == 0 by { NoOccurrence(a, x); }
    Prepended(a, 0, x);
    Prepended(a, 1, x);
    Prepended(a, 2, x);
    Prepended(a, 3, x);
    Prepended(a, 4, x);
    Prepended(a, 5, x);
  }

  lemma NoOccurrence(a: seq<int>, x: int)
    ensures Occurrences(a[..0], x) == 0
  {
  }

  function Is(y: int, x: int): nat { if y == x then 1 else 0 }

  lemma Rehomed(r: Round)
    requires r == FIRST || exists ties :: r == Second(ties)
    ensures IsRehoming(Distances(Witness(), r.centroids.0), Distances(Witness(), r.centroids.1), r.assignment, r.sizes)
  {
    hide Occurrences;
    Counted(r.assignment, 0);
    Counted(r.assignment, 1);
    assert forall c: real, i :: 0 <= i < 6 ==> Witness().Dist(i, [c]) == Abs(POPULATION[i][0] - c);
  }

  lemma Fitted(seed: int, r: Round)
    requires r == FIRST || exists ties :: r == Second(ties)
    ensures forall i :: i in r.fitted ==> i < 6
    ensures KMeans(seed, Vectors(Witness(), r.fitted)).centroids == r.centroids
  {
    var vectors := Vectors(Witness(), r.fitted);
    assert vectors[0] == POPULATION[r.fitted[0]];
  }

  /** What makes a round the refit on this population, apart from its mass. */
  ghost predicate Consistent(seed: int, r: Round) {
    && ValidMass(r.mass, 6) && 2 <= |r.mass| && r.fitted == r.mass && r.decision == InvalidCandidate
    && IsRehoming(Distances(Witness(), r.centroids.0), Distances(Witness(), r.centroids.1), r.assignment, r.sizes)
    && (forall i :: i in r.fitted ==> i < 6)
    && r.centroids == KMeans(seed, Vectors(Witness(), r.fitted)).centroids
  }

  lemma BothConsistent(ties: Ties, seed: int)
    ensures Consistent(seed, FIRST) && Consistent(seed, Second(ties))
  {
    hide IsRehoming, KMeans, Vectors, Distances;
    Rehomed(FIRST);
    Rehomed(Second(ties));
    Fitted(seed, FIRST);
    Fitted(seed, Second(ties));
  }

  lemma IsTheRefit(ties: Ties, seed: int, round: nat, st: Stage, r: Round)
    requires Consistent(seed + 1 + round, r)
    requires ValidStage(Witness(), st) && PeelsTo(Witness(), Geometric(ties), st, round, r.mass)
    ensures IsRefit(Witness(), Geometric(ties), seed, round, st, r)
  {
    hide PeelsTo, IsSample, SampleOverflows, IsRehoming, KMeans, Vectors, Distances;
    IncreasingBound(r.mass, 6);
    WholeSample(r.mass);
  }

  lemma FirstRefit(ties: Ties, seed: int)
    ensures ValidStage(Witness(), InitialStage(Witness(), seed))
    ensures IsRefit(Witness(), Geometric(ties), seed, 0, InitialStage(Witness(), seed), FIRST)
  {
    hide PeelsTo, IsRefit, ValidStage, Consistent;
    FirstPeel(ties, seed);
    BothConsistent(ties, seed + 1);
    IsTheRefit(ties, seed, 0, InitialStage(Witness(), seed), FIRST);
  }

  lemma SecondRefit(ties: Ties, seed: int)
    ensures ValidStage(Witness(), StageOf(FIRST))
    ensures IsRefit(Witness(), Geometric(ties), seed, 1, StageOf(FIRST), Second(ties))
  {
    hide PeelsTo, IsRefit, ValidStage, Consistent;
    SecondPeel(ties);
    BothConsistent(ties, seed + 2);
    IsTheRefit(ties, seed, 1, StageOf(FIRST), Second(ties));
  }

  lemma SecondStage(ties: Ties)
    ensures ValidStage(Witness(), StageOf(Second(ties)))
  {
  }

  lemma RunIsTrace(ties: Ties, seed: int)
    ensures IsTrace(Witness(), Geometric(ties), seed, InitialStage(Witness(), seed), Run(ties))
    ensures ValidStage(Witness(), StageOf(Second(ties)))
  {
    hide IsRefit, IsTrace, ValidStage;
    var env, mode, initial := Witness(), Geometric(ties), InitialStage(Witness(), seed);
    FirstRefit(ties, seed);
    SecondRefit(ties, seed);
    TraceStarts(env, mode, seed);
    SecondStage(ties);
    TraceExtends(env, mode, seed, initial, [], FIRST);
    TraceExtends(env, mode, seed, initial, [FIRST], Second(ties));
    assert [] + [FIRST] == [FIRST] && [FIRST] + [Second(ties)] == Run(ties);
  }

  /**
   One population, one seed and the same oracles: both runs make two refits, on different
   masses of three, and report different rows. By `RunUnique` they are the only runs.
   */
  lemma TieRulesDiffer(seed: int)
    ensures var env, initial := Witness(), InitialStage(Witness(), seed);
      forall ties :: IsTrace(env, Geometric(ties), seed, initial, Run(ties))
        && ValidStage(env, Before(initial, Run(ties), 2))
        && Ends(env, Geometric(ties), 2, InitialDecision(env, seed), initial, Run(ties), RoundBound)
    ensures Rows(Run(HigherIndexFirst)) != Rows(Run(LowerIndexFirst))
  {
    hide IsTrace, ValidStage, Rows, Second;
    forall ties
      ensures IsTrace(Witness(), Geometric(ties), seed, InitialStage(Witness(), seed), Run(ties))
      ensures ValidStage(Witness(), Before(InitialStage(Witness(), seed), Run(ties), 2))
      ensures AllInvalid(Run(ties))
    {
      RunIsTrace(ties, seed);
      SecondInvalid(ties);
    }
    RowsDiffer();
  }

  lemma SecondInvalid(ties: Ties)
    ensures Second(ties).decision.InvalidCandidate?
  {
  }

  lemma RowsDiffer()
    ensures Rows(Run(HigherIndexFirst)) != Rows(Run(LowerIndexFirst))
  {
    forall ties ensures Rows(Run(ties)) == Rows([FIRST]) + [RowOf(Second(ties))] {
      assert Run(ties)[..1] == [FIRST];
    }
    assert Rows(Run(HigherIndexFirst))[|Rows([FIRST])|].finalSizes == (4, 2);
    assert Rows(Run(LowerIndexFirst))[|Rows([FIRST])|].finalSizes == (2, 4);
  }
}
