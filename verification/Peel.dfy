/**
 The iterated outlier peel. KMeans, the partition evaluator and the distance
 estimator are arbitrary functions, so every statement holds for every behaviour
 of theirs. Distances are finite: the initial threshold, positive infinity, is `None`.
 */
module Peel {
  import opened Int32
  import opened Sequences
  import opened Wrappers

  type Vector = seq<real>

  /** The evaluator's verdict on a partition: `INVALID_CANDIDATE` or any usable decision. */
  datatype Decision = InvalidCandidate | Usable(name: string)

  /** What KMeans returns for k = 2. */
  datatype Fit = Fit(centroids: (Vector, Vector), assignment: seq<int>, sizes: (int, int))

  /** One call's inputs: the population and the three oracles. `kMeans` takes the seed. */
  datatype Env = Env(
    population: seq<Vector>,
    distance: (Vector, Vector) -> real,
    kMeans: (int, seq<Vector>) -> Fit,
    evaluate: ((Vector, Vector), seq<int>) -> Decision)
  {
    function Dist(i: nat, c: Vector): real
      requires i < |population|
    {
      distance(population[i], c)
    }
  }

  /** Which of two equally distant members the floor drops first: Java the higher index, Go the lower. */
  datatype Ties = HigherIndexFirst | LowerIndexFirst

  datatype Mode = Mode(tailCut: bool, geometricFloor: bool, ties: Ties, sampleSize: int)

  /** The mass and the latest partition, as they stand when a round begins. */
  datatype Stage = Stage(mass: seq<nat>, centroids: (Vector, Vector), assignment: seq<int>, sizes: (int, int))

  /** A refit: the mass it was run for, the members fitted and the partition of everything. */
  datatype Round = Round(mass: seq<nat>, fitted: seq<nat>, centroids: (Vector, Vector),
                         assignment: seq<int>, sizes: (int, int), decision: Decision)

  /** The row a refit adds to the report. */
  datatype Row = Row(mass: nat, fitted: nat, finalSizes: (int, int), decision: Decision)

  /**
   How the peel ended. A sample size of zero divides by zero at the first refit, and a
   sample index that wraps is out of bounds.
   */
  datatype Outcome = InitialUsable | RoundBound | UndersizedChildHoldsNoMass | MassBelowTwo
                   | Selected | DivisionByZero | SampleOutOfBounds

  function Rows(trace: seq<Round>): seq<Row> {
    if trace == [] then [] else Rows(trace[..|trace| - 1]) + [RowOf(trace[|trace| - 1])]
  }

  function RowOf(r: Round): Row {
    Row(|r.mass|, |r.fitted|, r.sizes, r.decision)
  }

  // ---------------------------------------------------------------- specification

  function Undersized(st: Stage): int {
    if st.sizes.0 <= st.sizes.1 then 0 else 1
  }

  function Big(st: Stage): Vector {
    if Undersized(st) == 0 then st.centroids.1 else st.centroids.0
  }

  ghost predicate ValidMass(mass: seq<nat>, n: nat) {
    && Increasing(mass)
    && forall k :: 0 <= k < |mass| ==> mass[k] < n
  }

  ghost predicate ValidStage(env: Env, st: Stage) {
    && ValidMass(st.mass, |env.population|)
    && |st.assignment| == |env.population|
  }

  /** Each vector's distance from a centroid. */
  function Distances(env: Env, c: Vector): (d: seq<real>)
    ensures |d| == |env.population|
    ensures forall i :: 0 <= i < |d| ==> d[i] == env.Dist(i, c)
  {
    seq(|env.population|, i requires 0 <= i < |env.population| => env.Dist(i, c))
  }

  /** A member outlives the child rule and, in tail mode, the tail cut. */
  ghost predicate Outlives(d: seq<real>, mass: seq<nat>, assignment: seq<int>, undersized: int, tailCut: bool, i: nat)
    requires ValidMass(mass, |d|) && |assignment| == |d| && i < |d|
  {
    && assignment[i] != undersized
    && (tailCut ==> forall k :: 0 <= k < |mass| && assignment[mass[k]] == undersized ==> d[i] < d[mass[k]])
  }

  ghost predicate IsSurvivors(d: seq<real>, mass: seq<nat>, assignment: seq<int>, undersized: int, tailCut: bool,
                              next: seq<nat>)
    requires ValidMass(mass, |d|) && |assignment| == |d|
  {
    && ValidMass(next, |d|)
    && forall i: nat :: i in next <==> i in mass && Outlives(d, mass, assignment, undersized, tailCut, i)
  }

  /** `a` is dropped before `b`: farther from the centroid, or as far and first by index. */
  predicate Farther(ties: Ties, d: seq<real>, a: nat, b: nat)
    requires a < |d| && b < |d|
  {
    d[a] > d[b] || (d[a] == d[b] && if ties.HigherIndexFirst? then a > b else a < b)
  }

  /** `kept` is `next` without its `k` farthest members (all of them, if there are fewer). */
  ghost predicate IsFloorCut(ties: Ties, d: seq<real>, next: seq<nat>, k: nat, kept: seq<nat>)
    requires ValidMass(next, |d|)
  {
    && ValidMass(kept, |d|)
    && (forall i :: i in kept ==> i in next)
    && |kept| == |next| - (if k < |next| then k else |next|)
    && forall a, b :: a in next && a !in kept && b in kept ==> Farther(ties, d, a, b)
  }

  /** The number of removals required by the end of round `round`. */
  function Floor(round: nat): (f: nat) {
    Pow2(if round + 1 < 62 then round + 1 else 62) - 1
  }

  /** The round leaves exactly `next` in the mass, given its survivors of the child and tail rules. */
  ghost predicate IsPeeled(env: Env, mode: Mode, st: Stage, round: nat, survivors: seq<nat>, next: seq<nat>)
    requires ValidStage(env, st)
  {
    && IsSurvivors(Distances(env, Big(st)), st.mass, st.assignment, Undersized(st), mode.tailCut, survivors)
    && var shortfall := Floor(round) - (|env.population| - |survivors|);
       if mode.geometricFloor && shortfall > 0
       then IsFloorCut(mode.ties, Distances(env, Big(st)), survivors, shortfall, next)
       else next == survivors
  }

  /** The round removes a member through the undersized child, and leaves exactly `next`. */
  ghost predicate PeelsTo(env: Env, mode: Mode, st: Stage, round: nat, next: seq<nat>)
    requires ValidStage(env, st)
  {
    exists survivors :: |survivors| < |st.mass| && IsPeeled(env, mode, st, round, survivors, next)
  }

  function Stride(m: nat, s: nat): nat
    requires s > 0
  {
    (m + s - 1) / s
  }

  /** Members 0, stride, 2 * stride, ... of the mass; none for a negative sample size. */
  ghost predicate IsSample(mass: seq<nat>, s: int, fitted: seq<nat>) {
    if s <= 0 then fitted == []
    else
      var stride := Stride(|mass|, s);
      && (mass == [] ==> fitted == [])
      && (mass != [] ==> stride > 0 && |fitted| == Stride(|mass|, stride))
      && forall k :: 0 <= k < |fitted| ==> 0 <= k * stride < |mass| && fitted[k] == mass[k * stride]
  }

  /** The 32-bit index passes the largest int behind the last member before the sample is full. */
  predicate SampleOverflows(m: nat, s: int) {
    m > 0 && s > 0 &&
    var stride := Stride(m, s);
    stride > 0 && Stride(m, stride) < s && Stride(m, stride) * stride > MAX_INT
  }

  /** Each index goes to the strictly nearer second centroid, otherwise to the first. */
  ghost predicate IsRehoming(d0: seq<real>, d1: seq<real>, assignment: seq<int>, sizes: (int, int))
    requires |d0| == |d1|
  {
    && |assignment| == |d0|
    && (forall i :: 0 <= i < |assignment| ==> assignment[i] == if d1[i] < d0[i] then 1 else 0)
    && sizes == (Occurrences(assignment, 0), Occurrences(assignment, 1))
  }

  function Occurrences(s: seq<int>, x: int): nat {
    if s == [] then 0
    else Occurrences(s[..|s| - 1], x) + if s[|s| - 1] == x then 1 else 0
  }

  function StageOf(r: Round): Stage {
    Stage(r.mass, r.centroids, r.assignment, r.sizes)
  }

  function Vectors(env: Env, members: seq<nat>): seq<Vector>
    requires forall i :: i in members ==> i < |env.population|
  {
    seq(|members|, k requires 0 <= k < |members| => assert members[k] in members; env.population[members[k]])
  }

  /** The `round`-th refit follows from the stage before it. */
  ghost predicate IsRefit(env: Env, mode: Mode, seed: int, round: nat, st: Stage, r: Round)
    requires ValidStage(env, st)
  {
    && PeelsTo(env, mode, st, round, r.mass)
    && ValidMass(r.mass, |env.population|)
    && |r.mass| >= 2
    && mode.sampleSize != 0
    && !SampleOverflows(|r.mass|, mode.sampleSize)
    && IsSample(r.mass, mode.sampleSize, r.fitted)
    && (forall i :: i in r.fitted ==> i < |env.population|)
    && r.centroids == env.kMeans(seed + 1 + round, Vectors(env, r.fitted)).centroids
    && IsRehoming(Distances(env, r.centroids.0), Distances(env, r.centroids.1), r.assignment, r.sizes)
    && r.decision == env.evaluate(r.centroids, r.assignment)
  }

  function Before(initial: Stage, trace: seq<Round>, round: nat): Stage
    requires round <= |trace|
  {
    if round == 0 then initial else StageOf(trace[round - 1])
  }

  /** The refits follow one another from the initial stage, whose mass is everything. */
  ghost predicate IsTrace(env: Env, mode: Mode, seed: int, initial: Stage, trace: seq<Round>) {
    match |trace|
    case 0 => ValidStage(env, initial) && |initial.mass| == |env.population|
    case k =>
      && IsTrace(env, mode, seed, initial, trace[..k - 1])
      && ValidStage(env, Before(initial, trace, k - 1))
      && IsRefit(env, mode, seed, k - 1, Before(initial, trace, k - 1), trace[k - 1])
  }

  ghost predicate AllInvalid(trace: seq<Round>) {
    forall r :: 0 <= r < |trace| ==> trace[r].decision.InvalidCandidate?
  }

  /** The conditions under which each outcome is reported, over the refits made. */
  ghost predicate Ends(env: Env, mode: Mode, maxRefits: int, initialDecision: Decision, initial: Stage,
                       trace: seq<Round>, outcome: Outcome)
    requires ValidStage(env, Before(initial, trace, |trace|))
  {
    match outcome
    case InitialUsable => !initialDecision.InvalidCandidate? && trace == []
    case Selected =>
      && initialDecision.InvalidCandidate? && 0 < |trace| <= maxRefits
      && AllInvalid(trace[..|trace| - 1]) && !trace[|trace| - 1].decision.InvalidCandidate?
    case RoundBound =>
      && initialDecision.InvalidCandidate? && AllInvalid(trace)
      && |trace| == if maxRefits < 0 then 0 else maxRefits
    case _ =>
      && initialDecision.InvalidCandidate? && AllInvalid(trace) && |trace| < maxRefits
      && Stops(env, mode, Before(initial, trace, |trace|), |trace|, outcome)
  }

  /** A round that stops the peel without a refit. */
  ghost predicate Stops(env: Env, mode: Mode, st: Stage, round: nat, outcome: Outcome)
    requires ValidStage(env, st)
  {
    match outcome
    case UndersizedChildHoldsNoMass => HoldsNoMass(st.mass, st.assignment, Undersized(st))
    case MassBelowTwo => exists next :: |next| < 2 && PeelsTo(env, mode, st, round, next)
    case DivisionByZero => mode.sampleSize == 0 && exists next :: |next| >= 2 && PeelsTo(env, mode, st, round, next)
    case SampleOutOfBounds =>
      mode.sampleSize != 0
      && exists next :: |next| >= 2 && SampleOverflows(|next|, mode.sampleSize) && PeelsTo(env, mode, st, round, next)
    case _ => false
  }

  /** No member of the mass is in the undersized child. */
  ghost predicate HoldsNoMass(mass: seq<nat>, assignment: seq<int>, undersized: int)
    requires ValidMass(mass, |assignment|)
  {
    forall k :: 0 <= k < |mass| ==> assignment[mass[k]] != undersized
  }

  // ---------------------------------------------------------------- the algorithm

  /** The distance of the undersized child's nearest mass member, if it holds one. */
  method TailThreshold(d: seq<real>, mass: seq<nat>, assignment: seq<int>, undersized: int)
    returns (threshold: Option<real>)
    requires ValidMass(mass, |d|) && |assignment| == |d|
    ensures threshold.None? <==> HoldsNoMass(mass, assignment, undersized)
    ensures threshold.Some? ==>
      && (exists k :: 0 <= k < |mass| && assignment[mass[k]] == undersized && d[mass[k]] == threshold.value)
      && (forall k :: 0 <= k < |mass| && assignment[mass[k]] == undersized ==> threshold.value <= d[mass[k]])
  {
    threshold := None;
    for j := 0 to |mass|
      invariant threshold.None? ==> forall k :: 0 <= k < j ==> assignment[mass[k]] != undersized
      invariant threshold.Some? ==>
          && (exists k :: 0 <= k < j && assignment[mass[k]] == undersized && d[mass[k]] == threshold.value)
          && (forall k :: 0 <= k < j && assignment[mass[k]] == undersized ==> threshold.value <= d[mass[k]])
    {
      var i := mass[j];
      if assignment[i] == undersized && (threshold.None? || d[i] < threshold.value) {
        threshold := Some(d[i]);
      }
    }
  }

  /** The child rule and the tail cut. */
  method Survivors(d: seq<real>, mass: seq<nat>, assignment: seq<int>, undersized: int, tailCut: bool)
    returns (next: seq<nat>)
    requires ValidMass(mass, |d|) && |assignment| == |d|
    ensures IsSurvivors(d, mass, assignment, undersized, tailCut, next)
    ensures |next| <= |mass|
    ensures |next| == |mass| <==> HoldsNoMass(mass, assignment, undersized)
  {
    var threshold: Option<real> := None;
    if tailCut {
      threshold := TailThreshold(d, mass, assignment, undersized);
    }
    next := [];
    for j := 0 to |mass|
      invariant ValidMass(next, |d|) && |next| <= j
      invariant forall i: nat :: i in next <==> i in mass[..j] && Outlives(d, mass, assignment, undersized, tailCut, i)
      invariant HoldsNoMass(mass, assignment, undersized) ==> |next| == j
      invariant |next| == j ==> forall k :: 0 <= k < j ==> assignment[mass[k]] != undersized
    {
      var i := mass[j];
      assert mass[..j + 1] == mass[..j] + [i];
      var out := assignment[i] == undersized || (threshold.Some? && d[i] >= threshold.value);
      assert out <==> !Outlives(d, mass, assignment, undersized, tailCut, i);
      if !out {
        assert forall m :: 0 <= m < |next| ==> next[m] in mass[..j];
        next := next + [i];
      }
    }
    assert mass[..|mass|] == mass;
  }

  ghost predicate FarthestFirst(ties: Ties, d: seq<real>, s: seq<nat>) {
    && (forall k :: 0 <= k < |s| ==> s[k] < |d|)
    && forall i, j :: 0 <= i < j < |s| ==> Farther(ties, d, s[i], s[j])
  }

  function InsertFarthest(ties: Ties, d: seq<real>, x: nat, s: seq<nat>): (r: seq<nat>)
    requires FarthestFirst(ties, d, s) && x < |d| && x !in s
    ensures |r| == |s| + 1
    ensures forall i :: i in r <==> i == x || i in s
    ensures FarthestFirst(ties, d, r)
  {
    if s == [] then [x]
    else if Farther(ties, d, x, s[0]) then [x] + s
    else
      var r := InsertFarthest(ties, d, x, s[1..]);
      assert s == [s[0]] + s[1..];
      assert forall k :: 0 <= k < |r| ==> r[k] in r;
      [s[0]] + r
  }

  /** The library sort with the peel's comparator, on distinct members. */
  function SortFarthestFirst(ties: Ties, d: seq<real>, next: seq<nat>): (sorted: seq<nat>)
    requires ValidMass(next, |d|)
    ensures |sorted| == |next|
    ensures forall i :: i in sorted <==> i in next
    ensures FarthestFirst(ties, d, sorted)
  {
    if next == [] then []
    else
      assert next == [next[0]] + next[1..];
      InsertFarthest(ties, d, next[0], SortFarthestFirst(ties, d, next[1..]))
  }

  /** The geometric floor: drops the `shortfall` farthest members and keeps the order of the rest. */
  method FloorCut(ties: Ties, d: seq<real>, next: seq<nat>, shortfall: nat) returns (kept: seq<nat>)
    requires ValidMass(next, |d|)
    ensures IsFloorCut(ties, d, next, shortfall, kept)
  {
    var byDistance := SortFarthestFirst(ties, d, next);
    var k := if shortfall < |next| then shortfall else |next|;
    var drop := byDistance[..k];
    kept := [];
    for j := 0 to |next|
      invariant ValidMass(kept, |d|)
      invariant forall i :: i in kept <==> i in next[..j] && i !in drop
    {
      assert next[..j + 1] == next[..j] + [next[j]];
      if next[j] !in drop {
        assert forall m :: 0 <= m < |kept| ==> kept[m] in kept;
        kept := kept + [next[j]];
      }
    }
    assert next[..|next|] == next;
    SortedTail(ties, d, next, byDistance, k, kept);
  }

  /** Dropping the first `k` of the sorted order leaves the others, and only farther ones are dropped. */
  lemma SortedTail(ties: Ties, d: seq<real>, next: seq<nat>, sorted: seq<nat>, k: nat, kept: seq<nat>)
    requires ValidMass(next, |d|) && ValidMass(kept, |d|)
    requires FarthestFirst(ties, d, sorted) && |sorted| == |next| && k <= |sorted|
    requires forall i :: i in sorted <==> i in next
    requires forall i :: i in kept <==> i in next && i !in sorted[..k]
    ensures |kept| == |next| - k
    ensures forall a, b :: a in next && a !in kept && b in kept ==> Farther(ties, d, a, b)
  {
    var tail := sorted[k..];
    assert sorted == sorted[..k] + tail;
    assert forall p, q :: 0 <= p < k && 0 <= q < |tail| ==> Farther(ties, d, sorted[p], tail[q]);
    assert ElementSet(kept) == ElementSet(tail);
    DistinctCardinality(kept);
    DistinctCardinality(tail);
  }

  /** The defining bounds of the rounded-up quotient. */
  lemma StrideBounds(m: nat, s: nat)
    requires m > 0 && s > 0
    ensures Stride(m, s) > 0
    ensures (Stride(m, s) - 1) * s < m <= Stride(m, s) * s
  {
    var q := m + s - 1;
    assert q == (q / s) * s + q % s;
    assert (q / s - 1) * s == (q / s) * s - s;
    assert Stride(m, s) == q / s;
    assert q / s > 0 by { MulOrder(q / s, 0, s); }
  }

  /** A count whose multiples bracket `m` is the rounded-up quotient. */
  lemma StrideUnique(m: nat, s: nat, c: nat)
    requires m > 0 && s > 0 && c > 0
    requires (c - 1) * s < m <= c * s
    ensures c == Stride(m, s)
  {
    StrideBounds(m, s);
    var r := Stride(m, s);
    MulOrder(c, r - 1, s);
    MulOrder(r, c - 1, s);
  }

  /** The size guard of the sampling loop never stops it before the mass runs out. */
  lemma StrideWithinSample(m: nat, s: nat)
    requires m > 0 && s > 0
    ensures Stride(m, s) > 0 && 0 < Stride(m, Stride(m, s)) <= s
  {
    StrideBounds(m, s);
    var stride := Stride(m, s);
    StrideBounds(m, stride);
    MulOrder(s, Stride(m, stride) - 1, stride);
    assert stride * s == s * stride;
  }

  lemma StrideAtMost(m: nat, s: nat)
    requires m > 0 && s > 0
    ensures 0 < Stride(m, s) <= m
  {
    StrideBounds(m, s);
    MulOrder(1, s, Stride(m, s) - 1);
    assert s * (Stride(m, s) - 1) == (Stride(m, s) - 1) * s;
  }

  /** Where the wrapping index stands after `count` members. */
  ghost predicate IndexAfter(stride: nat, count: nat, k: int) {
    if count * stride <= MAX_INT then k == count * stride else k < 0
  }

  lemma NextIndex(m: nat, stride: nat, count: nat, k: int)
    requires 0 <= k < m <= MAX_INT && stride <= m && IndexAfter(stride, count, k)
    ensures k == count * stride < m && IndexAfter(stride, count + 1, Wrap(k + stride))
  {
    assert (count + 1) * stride == count * stride + stride;
  }

  /** The members at 0, stride, 2 * stride, ... taken so far. */
  ghost predicate TakenSo(mass: seq<nat>, stride: nat, sample: seq<nat>) {
    && (sample != [] ==> (|sample| - 1) * stride < |mass|)
    && forall j :: 0 <= j < |sample| ==> 0 <= j * stride < |mass| && sample[j] == mass[j * stride]
  }

  lemma TakeOne(mass: seq<nat>, stride: nat, sample: seq<nat>, k: int)
    requires TakenSo(mass, stride, sample) && 0 <= k < |mass| && k == |sample| * stride
    ensures TakenSo(mass, stride, sample + [mass[k]])
  {
  }

  /** The stride sample of a mass, or nothing when the wrapped index is out of bounds. */
  method StrideSample(mass: seq<nat>, sampleSize: int) returns (fitted: Option<seq<nat>>)
    requires sampleSize != 0 && |mass| <= MAX_INT && IsInt(sampleSize)
    ensures fitted.None? <==> SampleOverflows(|mass|, sampleSize)
    ensures fitted.Some? ==> IsSample(mass, sampleSize, fitted.value)
  {
    if sampleSize < 0 { return Some([]); }
    hide Wrap, IndexAfter, SampleOverflows, TakenSo, IsSample, Stride;
    var m := |mass|;
    var stride := Stride(m, sampleSize);
    if mass != [] { StrideAtMost(m, sampleSize); }
    var sample: seq<nat>, k := [], 0;
    SampleStarts(mass, stride);
    while k < m && |sample| < sampleSize
      invariant IndexAfter(stride, |sample|, k) && TakenSo(mass, stride, sample) && |sample| <= sampleSize
      decreases sampleSize - |sample|
    {
      if k < 0 {
        WrappedIndex(mass, sampleSize, stride, sample, k);
        return None;
      }
      NextIndex(m, stride, |sample|, k);
      TakeOne(mass, stride, sample, k);
      sample := sample + [mass[k]];
      k := Wrap(k + stride);
    }
    SampleEnds(mass, sampleSize, stride, sample, k);
    return Some(sample);
  }

  lemma SampleStarts(mass: seq<nat>, stride: nat)
    ensures IndexAfter(stride, 0, 0) && TakenSo(mass, stride, [])
  {
    assert 0 * stride == 0;
  }

  /** A negative index before the sample is full means that all members were taken. */
  lemma WrappedIndex(mass: seq<nat>, s: nat, stride: nat, sample: seq<nat>, k: int)
    requires 0 < |mass| <= MAX_INT && 0 < s && stride == Stride(|mass|, s) > 0
    requires IndexAfter(stride, |sample|, k) && k < 0 && TakenSo(mass, stride, sample) && |sample| < s
    ensures SampleOverflows(|mass|, s)
  {
    assert 0 * stride == 0;
    StrideUnique(|mass|, stride, |sample|);
  }

  lemma SampleEnds(mass: seq<nat>, s: nat, stride: nat, sample: seq<nat>, k: int)
    requires |mass| <= MAX_INT && 0 < s && stride == Stride(|mass|, s) && (mass != [] ==> stride > 0)
    requires IndexAfter(stride, |sample|, k) && TakenSo(mass, stride, sample)
    requires |sample| <= s && (k >= |mass| || |sample| >= s)
    ensures !SampleOverflows(|mass|, s) && IsSample(mass, s, sample)
  {
    assert 0 * stride == 0;
    if mass != [] {
      assert sample != [];
      SampleComplete(|mass|, s, stride, |sample|);
    } else {
      MulOrder(0, |sample| - 1, stride);
    }
  }

  lemma SampleComplete(m: nat, s: nat, stride: nat, count: nat)
    requires m > 0 && s > 0 && stride == Stride(m, s) && stride > 0
    requires count > 0 && (count - 1) * stride < m
    requires count * stride >= m || count >= s
    ensures count == Stride(m, stride)
  {
    StrideBounds(m, s);
    MulOrder(s, count, stride);
    assert stride * s == s * stride;
    StrideUnique(m, stride, count);
  }

  /** Assigns every vector, in the mass or not, to its nearer refit centroid. */
  method Rehome(d0: seq<real>, d1: seq<real>) returns (assignment: seq<int>, sizes: (int, int))
    requires |d0| == |d1|
    ensures IsRehoming(d0, d1, assignment, sizes)
  {
    var finalAssignment := new int[|d0|];
    var size0, size1 := 0, 0;
    for i := 0 to |d0|
      invariant forall j :: 0 <= j < i ==> finalAssignment[j] == if d1[j] < d0[j] then 1 else 0
      invariant size0 == Occurrences(finalAssignment[..i], 0)
      invariant size1 == Occurrences(finalAssignment[..i], 1)
    {
      ghost var done := finalAssignment[..i];
      finalAssignment[i] := if d1[i] < d0[i] then 1 else 0;
      if d1[i] < d0[i] { size1 := size1 + 1; } else { size0 := size0 + 1; }
      assert finalAssignment[..i + 1][..i] == done;
    }
    assert finalAssignment[..|d0|] == finalAssignment[..];
    assignment, sizes := finalAssignment[..], (size0, size1);
  }

  /** The members one round leaves, unless the undersized child holds none of the mass. */
  method PeelOnce(env: Env, mode: Mode, st: Stage, round: nat) returns (noMass: bool, next: seq<nat>)
    requires ValidStage(env, st)
    ensures noMass <==> HoldsNoMass(st.mass, st.assignment, Undersized(st))
    ensures ValidMass(next, |env.population|)
    ensures !noMass ==> PeelsTo(env, mode, st, round, next)
  {
    var d := Distances(env, Big(st));
    var survivors := Survivors(d, st.mass, st.assignment, Undersized(st), mode.tailCut);
    next := survivors;
    noMass := |survivors| == |st.mass|;
    if !noMass && mode.geometricFloor {
      var floor := Pow2(if round + 1 < 62 then round + 1 else 62) - 1;
      var shortfall := floor - (|env.population| - |survivors|);
      if shortfall > 0 {
        next := FloorCut(mode.ties, d, survivors, shortfall);
      }
    }
    assert IsPeeled(env, mode, st, round, survivors, next) || noMass;
  }

  /** KMeans on the sample, then the partition of everything by its centroids. */
  method Refit(env: Env, mode: Mode, seed: int, round: nat, ghost st: Stage, next: seq<nat>, fitted: seq<nat>)
    returns (r: Round)
    requires ValidStage(env, st) && mode.sampleSize != 0
    requires !SampleOverflows(|next|, mode.sampleSize) && IsSample(next, mode.sampleSize, fitted)
    requires PeelsTo(env, mode, st, round, next)
    requires ValidMass(next, |env.population|) && |next| >= 2
    ensures IsRefit(env, mode, seed, round, st, r)
    ensures ValidStage(env, StageOf(r))
  {
    SampleInside(next, mode.sampleSize, fitted, |env.population|);
    var centroids := env.kMeans(seed + 1 + round, Vectors(env, fitted)).centroids;
    var assignment, sizes := Rehome(Distances(env, centroids.0), Distances(env, centroids.1));
    r := Round(next, fitted, centroids, assignment, sizes, env.evaluate(centroids, assignment));
  }

  /** One round: either the outcome that stops the peel, or a refit. */
  method Attempt(env: Env, mode: Mode, seed: int, round: nat, st: Stage) returns (stop: Option<Outcome>, r: Option<Round>)
    requires ValidStage(env, st) && |env.population| <= MAX_INT && IsInt(mode.sampleSize)
    ensures stop.None? <==> r.Some?
    ensures stop.Some? ==> Stops(env, mode, st, round, stop.value)
    ensures r.Some? ==> IsRefit(env, mode, seed, round, st, r.value) && ValidStage(env, StageOf(r.value))
  {
    stop, r := None, None;
    var noMass, next := PeelOnce(env, mode, st, round);
    if noMass {
      stop := Some(UndersizedChildHoldsNoMass);
    } else if |next| < 2 {
      stop := Some(MassBelowTwo);
    } else if mode.sampleSize == 0 {
      stop := Some(DivisionByZero);
    } else {
      IncreasingBound(next, |env.population|);
      var fitted := StrideSample(next, mode.sampleSize);
      if fitted.None? {
        stop := Some(SampleOutOfBounds);
      } else {
        var refit := Refit(env, mode, seed, round, st, next, fitted.value);
        r := Some(refit);
      }
    }
  }

  method PeelWithSeed(env: Env, mode: Mode, maxRefits: int, seed: int)
    returns (initialDecision: Decision, rounds: seq<Row>, outcome: Outcome, ghost trace: seq<Round>)
    requires |env.kMeans(seed, env.population).assignment| == |env.population|
    requires |env.population| <= MAX_INT && IsInt(mode.sampleSize)
    ensures IsTrace(env, mode, seed, InitialStage(env, seed), trace)
    ensures rounds == Rows(trace)
    ensures initialDecision == InitialDecision(env, seed)
    ensures ValidStage(env, Before(InitialStage(env, seed), trace, |trace|))
    ensures Ends(env, mode, maxRefits, initialDecision, InitialStage(env, seed), trace, outcome)
  {
    hide IsRefit, Stops, IsTrace, ValidMass, Rows, Ends, AllInvalid;
    initialDecision := InitialDecision(env, seed);
    var st := InitialStage(env, seed);
    ghost var initial := st;
    TraceStarts(env, mode, seed);
    rounds, outcome, trace := [], InitialUsable, [];
    if !initialDecision.InvalidCandidate? {
      EndsUsable(env, mode, maxRefits, initialDecision, initial);
      return;
    }
    outcome := RoundBound;
    var round := 0;
    while round < maxRefits
      invariant 0 <= round == |trace| && (round == 0 || round <= maxRefits)
      invariant rounds == Rows(trace) && AllInvalid(trace)
      invariant IsTrace(env, mode, seed, initial, trace)
      invariant ValidStage(env, st) && st == Before(initial, trace, round)
    {
      var stop, r := Attempt(env, mode, seed, round, st);
      if stop.Some? {
        outcome := stop.value;
        EndsStopped(env, mode, maxRefits, initialDecision, initial, trace, outcome);
        return;
      }
      TraceExtends(env, mode, seed, initial, trace, r.value);
      RowsExtend(trace, r.value);
      rounds, trace := rounds + [RowOf(r.value)], trace + [r.value];
      st := StageOf(r.value);
      if !r.value.decision.InvalidCandidate? {
        outcome := Selected;
        EndsSelected(env, mode, maxRefits, initialDecision, initial, trace);
        return;
      }
      round := round + 1;
    }
    EndsBound(env, mode, maxRefits, initialDecision, initial, trace);
  }

  lemma RowsExtend(trace: seq<Round>, r: Round)
    ensures Rows(trace + [r]) == Rows(trace) + [RowOf(r)]
    ensures AllInvalid(trace) && r.decision.InvalidCandidate? ==> AllInvalid(trace + [r])
    ensures (trace + [r])[..|trace|] == trace
  {
  }

  lemma EndsUsable(env: Env, mode: Mode, maxRefits: int, decision: Decision, initial: Stage)
    requires ValidStage(env, initial) && !decision.InvalidCandidate?
    ensures Ends(env, mode, maxRefits, decision, initial, [], InitialUsable)
  {
  }

  lemma EndsStopped(env: Env, mode: Mode, maxRefits: int, decision: Decision, initial: Stage,
                    trace: seq<Round>, outcome: Outcome)
    requires decision.InvalidCandidate? && AllInvalid(trace) && |trace| < maxRefits
    requires ValidStage(env, Before(initial, trace, |trace|))
    requires Stops(env, mode, Before(initial, trace, |trace|), |trace|, outcome)
    ensures Ends(env, mode, maxRefits, decision, initial, trace, outcome)
  {
    hide PeelsTo, HoldsNoMass;
  }

  lemma EndsSelected(env: Env, mode: Mode, maxRefits: int, decision: Decision, initial: Stage, trace: seq<Round>)
    requires decision.InvalidCandidate? && 0 < |trace| <= maxRefits
    requires AllInvalid(trace[..|trace| - 1]) && !trace[|trace| - 1].decision.InvalidCandidate?
    requires ValidStage(env, Before(initial, trace, |trace|))
    ensures Ends(env, mode, maxRefits, decision, initial, trace, Selected)
  {
  }

  lemma EndsBound(env: Env, mode: Mode, maxRefits: int, decision: Decision, initial: Stage, trace: seq<Round>)
    requires decision.InvalidCandidate? && AllInvalid(trace) && |trace| == (if maxRefits < 0 then 0 else maxRefits)
    requires ValidStage(env, Before(initial, trace, |trace|))
    ensures Ends(env, mode, maxRefits, decision, initial, trace, RoundBound)
  {
  }

  function Indices(n: nat): (s: seq<nat>)
    ensures |s| == n && ValidMass(s, n)
  {
    seq(n, i => i)
  }

  function InitialStage(env: Env, seed: int): Stage {
    var fit := env.kMeans(seed, env.population);
    Stage(Indices(|env.population|), fit.centroids, fit.assignment, fit.sizes)
  }

  function InitialDecision(env: Env, seed: int): Decision {
    var fit := env.kMeans(seed, env.population);
    env.evaluate(fit.centroids, fit.assignment)
  }

  lemma SampleInside(mass: seq<nat>, s: int, fitted: seq<nat>, n: nat)
    requires ValidMass(mass, n) && IsSample(mass, s, fitted)
    ensures forall i :: i in fitted ==> i < n
  {
  }

  lemma TraceStarts(env: Env, mode: Mode, seed: int)
    requires |env.kMeans(seed, env.population).assignment| == |env.population|
    ensures ValidStage(env, InitialStage(env, seed))
    ensures IsTrace(env, mode, seed, InitialStage(env, seed), []) && Rows([]) == [] && AllInvalid([])
  {
  }

  lemma TraceExtends(env: Env, mode: Mode, seed: int, initial: Stage, trace: seq<Round>, r: Round)
    requires IsTrace(env, mode, seed, initial, trace)
    requires ValidStage(env, Before(initial, trace, |trace|))
    requires IsRefit(env, mode, seed, |trace|, Before(initial, trace, |trace|), r)
    ensures IsTrace(env, mode, seed, initial, trace + [r])
  {
    var longer := trace + [r];
    assert longer[..|trace|] == trace;
    assert Before(initial, longer, |trace|) == Before(initial, trace, |trace|);
  }
}
