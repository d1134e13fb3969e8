/** What every run of the peel satisfies, whatever KMeans and the evaluator answer. */
module PeelTheorems {
  import opened Int32
  import opened Sequences
  import opened Peel

  // ---------------------------------------------------------------- reading a trace

  lemma {:induction false} RefitAt(env: Env, mode: Mode, seed: int, initial: Stage, trace: seq<Round>, r: nat)
    requires IsTrace(env, mode, seed, initial, trace)
    requires r < |trace|
    ensures ValidStage(env, Before(initial, trace, r))
    ensures IsRefit(env, mode, seed, r, Before(initial, trace, r), trace[r])
    ensures IsTrace(env, mode, seed, initial, trace[..r])
  {
    hide IsRefit, ValidStage;
    var init := trace[..|trace| - 1];
    if r < |init| {
      RefitAt(env, mode, seed, initial, init, r);
      assert init[..r] == trace[..r];
      assert Before(initial, init, r) == Before(initial, trace, r);
    }
  }

  /** What a refit says about its mass. */
  lemma RefitMass(env: Env, mode: Mode, seed: int, initial: Stage, trace: seq<Round>, r: nat)
    requires IsTrace(env, mode, seed, initial, trace)
    requires r < |trace|
    ensures ValidStage(env, Before(initial, trace, r))
    ensures PeelsTo(env, mode, Before(initial, trace, r), r, trace[r].mass)
    ensures ValidMass(trace[r].mass, |env.population|) && |trace[r].mass| >= 2
  {
    hide IsTrace, PeelsTo, IsSample, IsRehoming;
    RefitAt(env, mode, seed, initial, trace, r);
  }

  lemma InitialMass(env: Env, mode: Mode, seed: int, initial: Stage, trace: seq<Round>)
    requires IsTrace(env, mode, seed, initial, trace)
    ensures ValidStage(env, initial) && |initial.mass| == |env.population|
  {
    if trace != [] {
      RefitAt(env, mode, seed, initial, trace, 0);
      assert trace[..0] == [];
    }
  }

  // ---------------------------------------------------------------- shrinking

  /** A round's mass is a proper part of the mass before it. */
  lemma MassShrinks(env: Env, mode: Mode, st: Stage, round: nat, next: seq<nat>)
    requires ValidStage(env, st) && PeelsTo(env, mode, st, round, next)
    ensures ValidMass(next, |env.population|)
    ensures forall i :: i in next ==> i in st.mass
    ensures |next| < |st.mass|
  {
    var survivors :| |survivors| < |st.mass| && IsPeeled(env, mode, st, round, survivors, next);
  }

  /** After `r + 1` refits at least `r + 1` members have left the mass; every mass is ascending. */
  lemma {:induction false} MassAt(env: Env, mode: Mode, seed: int, initial: Stage, trace: seq<Round>, r: nat)
    requires IsTrace(env, mode, seed, initial, trace)
    requires r < |trace|
    ensures ValidMass(trace[r].mass, |env.population|)
    ensures 2 <= |trace[r].mass| <= |env.population| - 1 - r
    ensures forall i :: i in trace[r].mass ==> i in Before(initial, trace, r).mass
  {
    hide IsTrace, PeelsTo, ValidStage;
    RefitMass(env, mode, seed, initial, trace, r);
    MassShrinks(env, mode, Before(initial, trace, r), r, trace[r].mass);
    if r == 0 {
      InitialMass(env, mode, seed, initial, trace);
    } else {
      MassAt(env, mode, seed, initial, trace, r - 1);
    }
  }

  /** In every mode, a population of `n` allows at most `n - 2` refits. */
  lemma RefitBound(env: Env, mode: Mode, seed: int, initial: Stage, trace: seq<Round>)
    requires IsTrace(env, mode, seed, initial, trace)
    ensures trace == [] || |trace| <= |env.population| - 2
  {
    if trace != [] { MassAt(env, mode, seed, initial, trace, |trace| - 1); }
  }

  // ---------------------------------------------------------------- the geometric floor

  lemma FloorReached(env: Env, mode: Mode, st: Stage, round: nat, next: seq<nat>)
    requires ValidStage(env, st) && PeelsTo(env, mode, st, round, next)
    requires mode.geometricFloor && |next| >= 2
    ensures |env.population| - |next| >= Floor(round)
  {
    var survivors :| |survivors| < |st.mass| && IsPeeled(env, mode, st, round, survivors, next);
  }

  /**
   After refit `r` at least 2^(r+1) - 1 members have left the mass, so `r + 1` refits
   need 2^(r+1) <= n - 1. The shift's cap of 62 is never reached.
   */
  lemma {:induction false} GeometricRemoval(env: Env, mode: Mode, seed: int, initial: Stage, trace: seq<Round>, r: nat)
    requires IsTrace(env, mode, seed, initial, trace)
    requires mode.geometricFloor && |env.population| <= MAX_INT
    requires r < |trace|
    ensures |env.population| - |trace[r].mass| >= Pow2(r + 1) - 1
    ensures Pow2(r + 1) <= |env.population| - 1
    ensures r + 1 <= 30 && Floor(r) == Pow2(r + 1) - 1
  {
    hide IsTrace, PeelsTo, ValidStage;
    if r > 0 {
      GeometricRemoval(env, mode, seed, initial, trace, r - 1);
    }
    RefitMass(env, mode, seed, initial, trace, r);
    FloorReached(env, mode, Before(initial, trace, r), r, trace[r].mass);
    LogOfInt(r + 1, |env.population| - 1);
  }

  lemma Pow2Of31()
    ensures Pow2(31) == MAX_INT + 1
  {
    assert Pow2(8) == 256;
    Pow2Adds(8, 8);
    Pow2Adds(16, 8);
    Pow2Adds(24, 7);
    assert Pow2(7) == 128;
  }

  lemma LogOfInt(k: nat, m: int)
    requires Pow2(k) <= m < MAX_INT
    ensures k <= 30
  {
    hide Pow2;
    Pow2Of31();
    if k >= 31 {
      Pow2Monotone(31, k);
    }
  }

  /**
   The whole-run form: `k >= 1` refits imply 2^k <= n - 1, the round index of every
   attempt is at most 30, and the floor it computes fits in a Java `int`.
   */
  lemma LogarithmicRefits(env: Env, mode: Mode, seed: int, initial: Stage, trace: seq<Round>)
    requires IsTrace(env, mode, seed, initial, trace)
    requires mode.geometricFloor && |env.population| <= MAX_INT
    ensures trace != [] ==> Pow2(|trace|) <= |env.population| - 1
    ensures |trace| <= 30
    ensures Floor(|trace|) == Pow2(|trace| + 1) - 1 <= MAX_INT
  {
    hide IsTrace, Pow2;
    if trace != [] {
      GeometricRemoval(env, mode, seed, initial, trace, |trace| - 1);
    }
    Pow2Monotone(|trace| + 1, 31);
    Pow2Of31();
  }

  // ---------------------------------------------------------------- the removal rules

  /** The tail cut removes nothing nearer the large centroid than a member it leaves. */
  lemma TailCutSeparates(d: seq<real>, mass: seq<nat>, assignment: seq<int>, undersized: int, next: seq<nat>)
    requires ValidMass(mass, |d|) && |assignment| == |d|
    requires IsSurvivors(d, mass, assignment, undersized, true, next)
    requires !HoldsNoMass(mass, assignment, undersized)
    ensures forall i, j :: i in next && j in mass && j !in next ==> d[i] < d[j]
  {
    forall i, j | i in next && j in mass && j !in next ensures d[i] < d[j] {
      assert Outlives(d, mass, assignment, undersized, true, i);
      assert !Outlives(d, mass, assignment, undersized, true, j);
    }
  }

  /** The floor cut is determined: its contract admits one list only. */
  lemma FloorCutUnique(ties: Ties, d: seq<real>, next: seq<nat>, k: nat, a: seq<nat>, b: seq<nat>)
    requires ValidMass(next, |d|)
    requires IsFloorCut(ties, d, next, k, a) && IsFloorCut(ties, d, next, k, b)
    ensures a == b
  {
    var sa, sb := ElementSet(a), ElementSet(b);
    DistinctCardinality(a);
    DistinctCardinality(b);
    if sa != sb {
      var x, y := ExchangePair(sa, sb);
    }
    assert forall i :: i in a <==> i in sa;
    assert forall i :: i in b <==> i in sb;
    IncreasingUnique(a, b);
  }

  lemma SurvivorsUnique(d: seq<real>, mass: seq<nat>, assignment: seq<int>, undersized: int, tailCut: bool,
                        a: seq<nat>, b: seq<nat>)
    requires ValidMass(mass, |d|) && |assignment| == |d|
    requires IsSurvivors(d, mass, assignment, undersized, tailCut, a)
    requires IsSurvivors(d, mass, assignment, undersized, tailCut, b)
    ensures a == b
  {
    IncreasingUnique(a, b);
  }

  lemma SurvivorsValid(d: seq<real>, st: Stage, mode: Mode, survivors: seq<nat>)
    requires ValidMass(st.mass, |d|) && |st.assignment| == |d|
    requires IsSurvivors(d, st.mass, st.assignment, Undersized(st), mode.tailCut, survivors)
    ensures ValidMass(survivors, |d|)
  {
  }

  lemma PeelsToUnique(env: Env, mode: Mode, st: Stage, round: nat, a: seq<nat>, b: seq<nat>)
    requires ValidStage(env, st)
    requires PeelsTo(env, mode, st, round, a) && PeelsTo(env, mode, st, round, b)
    ensures a == b
  {
    hide IsSurvivors, IsFloorCut;
    var sa :| |sa| < |st.mass| && IsPeeled(env, mode, st, round, sa, a);
    var sb :| |sb| < |st.mass| && IsPeeled(env, mode, st, round, sb, b);
    var d := Distances(env, Big(st));
    SurvivorsUnique(d, st.mass, st.assignment, Undersized(st), mode.tailCut, sa, sb);
    var shortfall := Floor(round) - (|env.population| - |sa|);
    if mode.geometricFloor && shortfall > 0 {
      assert ValidMass(sa, |d|) by { SurvivorsValid(d, st, mode, sa); }
      FloorCutUnique(mode.ties, d, sa, shortfall, a, b);
    }
  }

  // ---------------------------------------------------------------- which child, which centroid

  /**
   A round removes, from the mass, child `child` whole, in tail mode everything at least as
   far from `centroid` as its nearest member, and then, up to 2^(round+1) - 1 members in all,
   the farthest of the rest, those at equal distance by the tie rule.
   */
  ghost predicate PeeledFrom(env: Env, mode: Mode, st: Stage, round: nat, child: int, centroid: Vector, next: seq<nat>)
    requires ValidStage(env, st)
  {
    exists survivors: seq<nat> ::
      && ChildAndTailRemoved(env, mode.tailCut, st, child, centroid, survivors)
      && FarthestRemoved(env, mode, round, centroid, survivors, next)
  }

  ghost predicate ChildAndTailRemoved(env: Env, tailCut: bool, st: Stage, child: int, centroid: Vector, survivors: seq<nat>)
    requires ValidStage(env, st)
  {
    && ValidMass(survivors, |env.population|)
    && forall i: nat :: i in survivors <==>
         && i in st.mass && st.assignment[i] != child
         && (tailCut ==> forall k :: 0 <= k < |st.mass| && st.assignment[st.mass[k]] == child ==>
               env.distance(env.population[i], centroid) < env.distance(env.population[st.mass[k]], centroid))
  }

  ghost predicate FarthestRemoved(env: Env, mode: Mode, round: nat, centroid: Vector, survivors: seq<nat>, next: seq<nat>)
    requires ValidMass(survivors, |env.population|)
  {
    var room := |env.population| - (Pow2(if round < 61 then round + 1 else 62) - 1);
    && ValidMass(next, |env.population|) && (forall i :: i in next ==> i in survivors)
    && |next| == (if mode.geometricFloor && room < |survivors| then (if room < 0 then 0 else room) else |survivors|)
    && forall a, b :: a in survivors && a !in next && b in next ==>
         var da, db := env.distance(env.population[a], centroid), env.distance(env.population[b], centroid);
         da > db || (da == db && if mode.ties.HigherIndexFirst? then b < a else a < b)
  }

  /**
   The child of strictly smaller recorded size is peeled, child 0 when they are equal, and
   distances are taken from the other child's centroid.
   */
  lemma SmallerChildPeeled(env: Env, mode: Mode, st: Stage, round: nat, next: seq<nat>)
    requires ValidStage(env, st) && PeelsTo(env, mode, st, round, next)
    ensures st.sizes.0 <= st.sizes.1 ==> PeeledFrom(env, mode, st, round, 0, st.centroids.1, next)
    ensures st.sizes.0 > st.sizes.1 ==> PeeledFrom(env, mode, st, round, 1, st.centroids.0, next)
  {
    var first := st.sizes.0 <= st.sizes.1;
    var child, centroid := if first then 0 else 1, if first then st.centroids.1 else st.centroids.0;
    assert child == Undersized(st) && centroid == Big(st);
    var survivors :| |survivors| < |st.mass| && IsPeeled(env, mode, st, round, survivors, next);
    SurvivorsSpelledOut(env, mode, st, survivors);
    FloorSpelledOut(env, mode, st, round, survivors, next);
    assert ChildAndTailRemoved(env, mode.tailCut, st, child, centroid, survivors)
        && FarthestRemoved(env, mode, round, centroid, survivors, next);
  }

  lemma SurvivorsSpelledOut(env: Env, mode: Mode, st: Stage, survivors: seq<nat>)
    requires ValidStage(env, st)
    requires IsSurvivors(Distances(env, Big(st)), st.mass, st.assignment, Undersized(st), mode.tailCut, survivors)
    ensures ChildAndTailRemoved(env, mode.tailCut, st, Undersized(st), Big(st), survivors)
  {
    hide Undersized, Big;
    var d := Distances(env, Big(st));
    assert forall i :: 0 <= i < |d| ==> d[i] == env.distance(env.population[i], Big(st));
  }

  lemma FloorSpelledOut(env: Env, mode: Mode, st: Stage, round: nat, survivors: seq<nat>, next: seq<nat>)
    requires ValidStage(env, st) && IsPeeled(env, mode, st, round, survivors, next)
    ensures ValidMass(survivors, |env.population|)
    ensures FarthestRemoved(env, mode, round, Big(st), survivors, next)
  {
    hide Undersized, Big, IsSurvivors, Pow2;
    var d := Distances(env, Big(st));
    SurvivorsValid(d, st, mode, survivors);
    assert forall i :: 0 <= i < |d| ==> d[i] == env.distance(env.population[i], Big(st));
  }

  /** The same of every refit of a run. */
  lemma RefitsPeelSmallerChild(env: Env, mode: Mode, seed: int, initial: Stage, trace: seq<Round>, r: nat)
    requires IsTrace(env, mode, seed, initial, trace) && r < |trace|
    ensures var st := Before(initial, trace, r);
      && ValidStage(env, st)
      && (st.sizes.0 <= st.sizes.1 ==> PeeledFrom(env, mode, st, r, 0, st.centroids.1, trace[r].mass))
      && (st.sizes.0 > st.sizes.1 ==> PeeledFrom(env, mode, st, r, 1, st.centroids.0, trace[r].mass))
  {
    hide IsTrace, PeelsTo, PeeledFrom, ValidStage;
    RefitMass(env, mode, seed, initial, trace, r);
    SmallerChildPeeled(env, mode, Before(initial, trace, r), r, trace[r].mass);
  }

  /** A round finds no mass exactly when no member is in the child of smaller size. */
  lemma NoMassSpelledOut(env: Env, mode: Mode, st: Stage, round: nat)
    requires ValidStage(env, st)
    ensures Stops(env, mode, st, round, UndersizedChildHoldsNoMass) <==>
            forall i :: i in st.mass ==> st.assignment[i] != if st.sizes.0 <= st.sizes.1 then 0 else 1
  {
    assert forall k :: 0 <= k < |st.mass| ==> st.mass[k] in st.mass;
  }

  ghost function PositionsOf(s: seq<int>, x: int): set<int> { set i | 0 <= i < |s| && s[i] == x }

  /** How often a value occurs is the number of its positions. */
  lemma {:induction false} OccurrencesCount(s: seq<int>, x: int)
    ensures Occurrences(s, x) == |PositionsOf(s, x)|
  {
    if s == [] {
      assert PositionsOf(s, x) == {};
    } else {
      var n := |s| - 1;
      var before := PositionsOf(s[..n], x);
      OccurrencesCount(s[..n], x);
      assert PositionsOf(s, x) == if s[n] == x then before + {n} else before;
    }
  }

  /** The centroids are those of a fit of exactly the sampled vectors, in order. */
  ghost predicate FittedFrom(env: Env, seed: int, r: Round) {
    exists vectors: seq<Vector> ::
      && r.centroids == env.kMeans(seed, vectors).centroids
      && |vectors| == |r.fitted|
      && forall k :: 0 <= k < |vectors| ==> r.fitted[k] < |env.population| && vectors[k] == env.population[r.fitted[k]]
  }

  /** Every vector is with the strictly nearer second centroid, otherwise with the first; the sizes count them. */
  ghost predicate Rehomed(env: Env, r: Round) {
    && |r.assignment| == |env.population|
    && (forall i :: 0 <= i < |r.assignment| ==> r.assignment[i] == NearerCentroid(env, r, i))
    && r.sizes == (|PositionsOf(r.assignment, 0)|, |PositionsOf(r.assignment, 1)|)
  }

  ghost function NearerCentroid(env: Env, r: Round, i: nat): int
    requires i < |env.population|
  {
    if env.distance(env.population[i], r.centroids.1) < env.distance(env.population[i], r.centroids.0) then 1 else 0
  }

  lemma FitSpelledOut(env: Env, seed: int, r: Round)
    requires (forall i :: i in r.fitted ==> i < |env.population|) && r.centroids == env.kMeans(seed, Vectors(env, r.fitted)).centroids
    ensures FittedFrom(env, seed, r)
  {
    var vectors := Vectors(env, r.fitted);
    assert forall k :: 0 <= k < |r.fitted| ==> r.fitted[k] in r.fitted;
  }

  lemma RehomingSpelledOut(env: Env, r: Round)
    requires IsRehoming(Distances(env, r.centroids.0), Distances(env, r.centroids.1), r.assignment, r.sizes)
    ensures Rehomed(env, r)
  {
    OccurrencesCount(r.assignment, 0);
    OccurrencesCount(r.assignment, 1);
  }

  /**
   A refit fits the sampled vectors with its own seed, sends every vector of the
   population to the strictly nearer second centroid, otherwise to the first, counts the
   children, is evaluated as that partition and is what the next round starts from.
   */
  lemma RefitSpelledOut(env: Env, mode: Mode, seed: int, initial: Stage, trace: seq<Round>, r: nat)
    requires IsTrace(env, mode, seed, initial, trace) && r < |trace|
    ensures FittedFrom(env, seed + 1 + r, trace[r]) && Rehomed(env, trace[r])
    ensures trace[r].decision == env.evaluate(trace[r].centroids, trace[r].assignment)
    ensures Before(initial, trace, r + 1) == Stage(trace[r].mass, trace[r].centroids, trace[r].assignment, trace[r].sizes)
  {
    hide IsTrace, PeelsTo, IsSample, SampleOverflows, FittedFrom, Rehomed, IsRehoming, Vectors;
    RefitAt(env, mode, seed, initial, trace, r);
    FitSpelledOut(env, seed + 1 + r, trace[r]);
    RehomingSpelledOut(env, trace[r]);
  }

  /** What the reported rows hold. */
  lemma RowsReport(trace: seq<Round>, i: nat)
    requires i < |trace|
    ensures |Rows(trace)| == |trace|
    ensures var row := Rows(trace)[i];
      && row.mass == |trace[i].mass| && row.fitted == |trace[i].fitted|
      && row.finalSizes == trace[i].sizes && row.decision == trace[i].decision
  {
    RowsAt(trace);
  }

  /** The run begins with the whole population and the plain fit of the seed. */
  lemma StartsFromPlainFit(env: Env, seed: int)
    ensures var st, fit := InitialStage(env, seed), env.kMeans(seed, env.population);
      && st.centroids == fit.centroids && st.assignment == fit.assignment && st.sizes == fit.sizes
      && |st.mass| == |env.population| && (forall i :: 0 <= i < |env.population| ==> st.mass[i] == i)
      && InitialDecision(env, seed) == env.evaluate(fit.centroids, fit.assignment)
  {
  }

  // ---------------------------------------------------------------- the contract fixes the run

  /** A round that removes a member found one in the undersized child. */
  lemma PeelsToNeedsMass(env: Env, mode: Mode, st: Stage, round: nat, next: seq<nat>)
    requires ValidStage(env, st) && PeelsTo(env, mode, st, round, next)
    ensures !HoldsNoMass(st.mass, st.assignment, Undersized(st))
  {
    var survivors :| |survivors| < |st.mass| && IsPeeled(env, mode, st, round, survivors, next);
    if HoldsNoMass(st.mass, st.assignment, Undersized(st)) {
      var d := Distances(env, Big(st));
      forall i: nat | i in st.mass ensures i in survivors {
        assert Outlives(d, st.mass, st.assignment, Undersized(st), mode.tailCut, i);
      }
      IncreasingUnique(survivors, st.mass);
    }
  }

  lemma SampleUnique(mass: seq<nat>, s: int, a: seq<nat>, b: seq<nat>)
    requires IsSample(mass, s, a) && IsSample(mass, s, b)
    ensures a == b
  {
  }

  lemma RehomingUnique(d0: seq<real>, d1: seq<real>, a: seq<int>, b: seq<int>, sa: (int, int), sb: (int, int))
    requires |d0| == |d1|
    requires IsRehoming(d0, d1, a, sa) && IsRehoming(d0, d1, b, sb)
    ensures a == b && sa == sb
  {
  }

  lemma RefitUnique(env: Env, mode: Mode, seed: int, round: nat, st: Stage, a: Round, b: Round)
    requires ValidStage(env, st)
    requires IsRefit(env, mode, seed, round, st, a) && IsRefit(env, mode, seed, round, st, b)
    ensures a == b
  {
    hide PeelsTo, IsSample, IsRehoming, ValidStage;
    PeelsToUnique(env, mode, st, round, a.mass, b.mass);
    SampleUnique(a.mass, mode.sampleSize, a.fitted, b.fitted);
    RehomingUnique(Distances(env, a.centroids.0), Distances(env, a.centroids.1),
                   a.assignment, b.assignment, a.sizes, b.sizes);
  }

  /** Two traces from the same start agree as far as both go. */
  lemma {:induction false} TracesAgree(env: Env, mode: Mode, seed: int, initial: Stage, a: seq<Round>, b: seq<Round>, k: nat)
    requires IsTrace(env, mode, seed, initial, a) && IsTrace(env, mode, seed, initial, b)
    requires k <= |a| && k <= |b|
    ensures a[..k] == b[..k]
  {
    hide IsTrace, IsRefit, ValidStage;
    if k > 0 {
      TracesAgree(env, mode, seed, initial, a, b, k - 1);
      RefitAt(env, mode, seed, initial, a, k - 1);
      RefitAt(env, mode, seed, initial, b, k - 1);
      assert Before(initial, a, k - 1) == Before(initial, b, k - 1) by {
        assert k > 1 ==> a[..k - 1][k - 2] == b[..k - 1][k - 2];
      }
      RefitUnique(env, mode, seed, k - 1, Before(initial, a, k - 1), a[k - 1], b[k - 1]);
      assert a[..k] == a[..k - 1] + [a[k - 1]];
      assert b[..k] == b[..k - 1] + [b[k - 1]];
    }
  }

  /** A round that stops the peel cannot also refit, and stops it in one way only. */
  lemma StopsExcludesRefit(env: Env, mode: Mode, seed: int, st: Stage, round: nat, stop: Outcome, r: Round)
    requires ValidStage(env, st)
    ensures !(Stops(env, mode, st, round, stop) && IsRefit(env, mode, seed, round, st, r))
  {
    hide IsSample, IsRehoming;
    if Stops(env, mode, st, round, stop) && IsRefit(env, mode, seed, round, st, r) {
      StopsExcludesPeel(env, mode, st, round, stop, r.mass);
    }
  }

  lemma StopsExcludesPeel(env: Env, mode: Mode, st: Stage, round: nat, stop: Outcome, next: seq<nat>)
    requires ValidStage(env, st)
    requires Stops(env, mode, st, round, stop) && PeelsTo(env, mode, st, round, next)
    ensures stop == if |next| < 2 then MassBelowTwo else if mode.sampleSize == 0 then DivisionByZero else SampleOutOfBounds
    ensures stop.SampleOutOfBounds? ==> SampleOverflows(|next|, mode.sampleSize)
  {
    hide PeelsTo, HoldsNoMass, ValidStage, SampleOverflows;
    PeelsToNeedsMass(env, mode, st, round, next);
    var other :| PeelsTo(env, mode, st, round, other) && (stop.MassBelowTwo? <==> |other| < 2)
                 && (stop.SampleOutOfBounds? ==> SampleOverflows(|other|, mode.sampleSize));
    PeelsToUnique(env, mode, st, round, other, next);
  }

  lemma StopsUnique(env: Env, mode: Mode, st: Stage, round: nat, a: Outcome, b: Outcome)
    requires ValidStage(env, st)
    requires Stops(env, mode, st, round, a) && Stops(env, mode, st, round, b)
    ensures a == b
  {
    hide PeelsTo, HoldsNoMass, ValidStage, SampleOverflows;
    if !a.UndersizedChildHoldsNoMass? || !b.UndersizedChildHoldsNoMass? {
      var next :| PeelsTo(env, mode, st, round, next);
      StopsExcludesPeel(env, mode, st, round, a, next);
      StopsExcludesPeel(env, mode, st, round, b, next);
    }
  }

  lemma NoLongerRun(env: Env, mode: Mode, maxRefits: int, seed: int, decision: Decision, initial: Stage,
                    a: seq<Round>, oa: Outcome, b: seq<Round>, ob: Outcome)
    requires IsTrace(env, mode, seed, initial, a) && IsTrace(env, mode, seed, initial, b)
    requires ValidStage(env, Before(initial, a, |a|)) && Ends(env, mode, maxRefits, decision, initial, a, oa)
    requires ValidStage(env, Before(initial, b, |b|)) && Ends(env, mode, maxRefits, decision, initial, b, ob)
    ensures |b| <= |a|
  {
    hide IsTrace, IsRefit, ValidStage, Stops;
    if |a| < |b| {
      TracesAgree(env, mode, seed, initial, a, b, |a|);
      assert a[..|a|] == a;
      assert forall r :: 0 <= r < |a| ==> a[r] == b[..|a|][r];
      RefitAt(env, mode, seed, initial, b, |a|);
      assert Before(initial, a, |a|) == Before(initial, b, |a|);
      StopsExcludesRefit(env, mode, seed, Before(initial, a, |a|), |a|, oa, b[|a|]);
    }
  }

  /**
   The contract of `PeelWithSeed` admits one run: the refits, the outcome and hence
   every reported row are determined by the inputs and the oracles.
   */
  lemma RunUnique(env: Env, mode: Mode, maxRefits: int, seed: int, decision: Decision, initial: Stage,
                  a: seq<Round>, oa: Outcome, b: seq<Round>, ob: Outcome)
    requires IsTrace(env, mode, seed, initial, a) && IsTrace(env, mode, seed, initial, b)
    requires ValidStage(env, Before(initial, a, |a|)) && Ends(env, mode, maxRefits, decision, initial, a, oa)
    requires ValidStage(env, Before(initial, b, |b|)) && Ends(env, mode, maxRefits, decision, initial, b, ob)
    ensures a == b && oa == ob
  {
    hide IsTrace, ValidStage, Stops;
    NoLongerRun(env, mode, maxRefits, seed, decision, initial, a, oa, b, ob);
    NoLongerRun(env, mode, maxRefits, seed, decision, initial, b, ob, a, oa);
    TracesAgree(env, mode, seed, initial, a, b, |a|);
    assert a[..|a|] == a && b[..|b|] == b;
    var st := Before(initial, a, |a|);
    if Stops(env, mode, st, |a|, oa) && Stops(env, mode, st, |a|, ob) {
      StopsUnique(env, mode, st, |a|, oa, ob);
    }
  }

  lemma {:induction false} RowsAt(trace: seq<Round>)
    ensures |Rows(trace)| == |trace| && forall i :: 0 <= i < |trace| ==> Rows(trace)[i] == RowOf(trace[i])
  {
    if trace != [] {
      RowsAt(trace[..|trace| - 1]);
      assert forall i :: 0 <= i < |trace| - 1 ==> trace[..|trace| - 1][i] == trace[i];
    }
  }

  /**
   Three outcomes can be read off the initial decision and the reported rows alone; the
   others are reported when every row is invalid and rounds were left.
   */
  lemma OutcomeFromRows(env: Env, mode: Mode, maxRefits: int, decision: Decision, initial: Stage,
                        trace: seq<Round>, outcome: Outcome)
    requires ValidStage(env, Before(initial, trace, |trace|))
    requires Ends(env, mode, maxRefits, decision, initial, trace, outcome)
    ensures outcome.InitialUsable? <==> !decision.InvalidCandidate?
    ensures var rows := Rows(trace);
      && |rows| <= (if maxRefits < 0 then 0 else maxRefits)
      && (forall i :: 0 <= i < |rows| - 1 ==> rows[i].decision.InvalidCandidate?)
      && (outcome.Selected? <==> rows != [] && !rows[|rows| - 1].decision.InvalidCandidate?)
      && (outcome.RoundBound? <==>
          && decision.InvalidCandidate? && |rows| == (if maxRefits < 0 then 0 else maxRefits)
          && forall i :: 0 <= i < |rows| ==> rows[i].decision.InvalidCandidate?)
  {
    hide Stops;
    RowsAt(trace);
  }

  // ---------------------------------------------------------------- sizes and samples

  lemma {:induction false} OccurrencesTotal(s: seq<int>)
    requires forall i :: 0 <= i < |s| ==> s[i] == 0 || s[i] == 1
    ensures Occurrences(s, 0) + Occurrences(s, 1) == |s|
  {
    if s != [] { OccurrencesTotal(s[..|s| - 1]); }
  }

  /** Re-homing loses no vector: the two child sizes add up to the population. */
  lemma ChildSizesSum(env: Env, mode: Mode, seed: int, initial: Stage, trace: seq<Round>, r: nat)
    requires IsTrace(env, mode, seed, initial, trace) && r < |trace|
    ensures trace[r].sizes.0 + trace[r].sizes.1 == |env.population|
  {
    hide IsTrace, PeelsTo, IsSample, ValidStage;
    RefitAt(env, mode, seed, initial, trace, r);
    OccurrencesTotal(trace[r].assignment);
  }

  /** A sample of size at least two is no smaller than two, no larger than asked, and whole when it can be. */
  lemma SampleSize(mass: seq<nat>, s: int, fitted: seq<nat>)
    requires |mass| >= 2 && s >= 2 && IsSample(mass, s, fitted)
    ensures 2 <= |fitted| <= s
    ensures |mass| <= s ==> fitted == mass
    ensures fitted[0] == mass[0]
  {
    var m := |mass|;
    StrideWithinSample(m, s);
    var stride := Stride(m, s);
    StrideBounds(m, stride);
    StrideUnique(m, s, stride) by { StrideBounds(m, s); }
    if m <= s {
      StrideUnique(m, s, 1);
      StrideUnique(m, 1, m);
      assert forall k :: 0 <= k < |fitted| ==> k * stride == k;
    } else {
      StrideBounds(m, s);
      StrideLess(m, s);
      MulOrder(Stride(m, stride), 1, stride);
    }
    assert 0 * stride == 0;
  }

  /** A mass of up to 2^30 members is always sampled in full: the index cannot wrap. */
  lemma SampleFits(m: nat, s: int)
    requires m <= 0x4000_0000
    ensures !SampleOverflows(m, s)
  {
    if m > 0 && s > 0 {
      StrideAtMost(m, s);
      var stride := Stride(m, s);
      StrideBounds(m, stride);
      var count := Stride(m, stride);
      assert count * stride == (count - 1) * stride + stride;
    }
  }

  /** The largest mass, sampled with stride two, runs off its end: the condition is met by an input. */
  lemma SampleCanOverflow()
    ensures SampleOverflows(MAX_INT, 0x4000_0001)
  {
    StrideUnique(MAX_INT, 0x4000_0001, 2);
    StrideUnique(MAX_INT, 2, 0x4000_0000);
  }

  lemma StrideLess(m: nat, s: nat)
    requires m >= 2 && s >= 2
    ensures Stride(m, s) < m
  {
    StrideBounds(m, s);
    var t := Stride(m, s) - 1;
    MulOrder(2, s, t);
    assert s * t == t * s;
  }

  // ---------------------------------------------------------------- the two tie rules

  /** Some distance separates exactly `k` members from the rest, or nothing or everything is cut. */
  ghost predicate CutsBetweenDistances(d: seq<real>, next: seq<nat>, k: nat)
    requires ValidMass(next, |d|)
  {
    k == 0 || k >= |next| || exists j :: j in next && |AtLeastAsFar(d, next, j)| == k
  }

  ghost function AtLeastAsFar(d: seq<real>, next: seq<nat>, j: nat): set<nat>
    requires ValidMass(next, |d|) && j in next
  {
    set i | i in next && d[i] >= d[j]
  }

  ghost function Dropped(next: seq<nat>, kept: seq<nat>): set<nat> {
    set i | i in next && i !in kept
  }

  lemma DroppedSize(ties: Ties, d: seq<real>, next: seq<nat>, k: nat, kept: seq<nat>)
    requires ValidMass(next, |d|) && IsFloorCut(ties, d, next, k, kept)
    ensures |Dropped(next, kept)| == if k < |next| then k else |next|
  {
    DistinctCardinality(next);
    DistinctCardinality(kept);
    assert ElementSet(next) == Dropped(next, kept) + ElementSet(kept);
  }

  /** Where a distance separates `k` members, both rules drop exactly those. */
  lemma SeparatedCut(ties: Ties, d: seq<real>, next: seq<nat>, k: nat, kept: seq<nat>, j: nat)
    requires ValidMass(next, |d|) && IsFloorCut(ties, d, next, k, kept)
    requires j in next && |AtLeastAsFar(d, next, j)| == k < |next|
    ensures Dropped(next, kept) == AtLeastAsFar(d, next, j)
  {
    DroppedSize(ties, d, next, k, kept);
    if Dropped(next, kept) != AtLeastAsFar(d, next, j) {
      var x, y := ExchangePair(Dropped(next, kept), AtLeastAsFar(d, next, j));
    }
  }

  lemma {:induction false} NearestOf(d: seq<real>, s: set<nat>) returns (j: nat)
    requires s != {} && forall i :: i in s ==> i < |d|
    ensures j in s && forall i :: i in s ==> d[i] >= d[j]
  {
    var x :| x in s;
    var rest := s - {x};
    if rest == {} {
      assert s == {x};
      j := x;
    } else {
      var y := NearestOf(d, rest);
      j := if d[x] < d[y] then x else y;
      assert forall i :: i in s ==> i == x || i in rest;
    }
  }

  lemma AgreementSeparates(d: seq<real>, next: seq<nat>, k: nat, kept: seq<nat>)
    requires ValidMass(next, |d|) && 0 < k < |next|
    requires IsFloorCut(HigherIndexFirst, d, next, k, kept) && IsFloorCut(LowerIndexFirst, d, next, k, kept)
    ensures CutsBetweenDistances(d, next, k)
  {
    DroppedSize(HigherIndexFirst, d, next, k, kept);
    var j := NearestOf(d, Dropped(next, kept));
    forall i | i in next ensures i in AtLeastAsFar(d, next, j) <==> i in Dropped(next, kept) {
      if i in kept {
        assert Farther(HigherIndexFirst, d, j, i) && Farther(LowerIndexFirst, d, j, i);
      }
    }
    assert AtLeastAsFar(d, next, j) == Dropped(next, kept);
  }

  /**
   The Java rule drops the higher index of two equally distant members, the Go rule the
   lower one. They leave the same mass exactly when no tie straddles the cut.
   */
  lemma TieRulesAgree(d: seq<real>, next: seq<nat>, k: nat, java: seq<nat>, go: seq<nat>)
    requires ValidMass(next, |d|)
    requires IsFloorCut(HigherIndexFirst, d, next, k, java) && IsFloorCut(LowerIndexFirst, d, next, k, go)
    ensures java == go <==> CutsBetweenDistances(d, next, k)
  {
    DroppedSize(HigherIndexFirst, d, next, k, java);
    DroppedSize(LowerIndexFirst, d, next, k, go);
    if CutsBetweenDistances(d, next, k) {
      if 0 < k < |next| {
        var j :| j in next && |AtLeastAsFar(d, next, j)| == k;
        SeparatedCut(HigherIndexFirst, d, next, k, java, j);
        SeparatedCut(LowerIndexFirst, d, next, k, go, j);
      } else {
        DistinctCardinality(next);
        SubsetCardinality(Dropped(next, java), ElementSet(next));
        SubsetCardinality(Dropped(next, go), ElementSet(next));
        assert k == 0 ==> Dropped(next, java) == {} == Dropped(next, go);
      }
      assert Dropped(next, java) == Dropped(next, go);
      assert forall i :: i in java <==> i in next && i !in Dropped(next, java);
      assert forall i :: i in go <==> i in next && i !in Dropped(next, go);
      IncreasingUnique(java, go);
    } else if java == go {
      AgreementSeparates(d, next, k, java);
    }
  }
}
