/** What the normaliser returns: the minimal clauses, each once, in their first order. */
module MinimalClauses {
  import opened Sequences
  import opened Predicates
  import opened NormalForm
  import opened NormalFormSize
  import opened Absorption
  import opened Normalizer
  import opened LeafClauses

  /** Ascending positions of a list of that length. */
  ghost predicate Positions(at: seq<nat>, length: nat) {
    Increasing(at) && forall i :: 0 <= i < |at| ==> at[i] < length
  }

  // ---------------------------------------------------------------- a clause without repetitions

  /** No earlier predicate of the clause equals this one. */
  ghost predicate First(c: Clause, i: nat)
    requires i < |c|
  {
    forall j :: 0 <= j < i ==> !PredEq(c[i], c[j])
  }

  /** `d` is `c` read at exactly the positions of first occurrences, in order. */
  ghost predicate FirstOccurrences(c: Clause, d: Clause) {
    exists at: seq<nat> :: ReadsFirsts(c, d, at)
  }

  ghost predicate ReadsFirsts(c: Clause, d: Clause, at: seq<nat>) {
    && Positions(at, |c|)
    && |at| == |d|
    && (forall i :: 0 <= i < |d| ==> d[i] == c[at[i]])
    && forall k: nat :: k < |c| ==> (k in at <==> First(c, k))
  }

  lemma {:induction false} DedupReadsFirsts(c: Clause) returns (at: seq<nat>)
    ensures ReadsFirsts(c, Dedup(c), at)
  {
    hide PredEq, Found, ReadsFirsts, First;
    if c == [] {
      at := [];
      assert ReadsFirsts([], [], []) by { NoFirsts(); }
    } else {
      var n := |c| - 1;
      var init, d := c[..n], Dedup(c[..n]);
      var before := DedupReadsFirsts(init);
      LastIsFirst(c);
      FirstsExtend(c, d, before);
      at := if First(c, n) then before + [n] else before;
    }
  }

  lemma NoFirsts()
    ensures ReadsFirsts([], [], [])
  {
  }

  lemma FirstsExtend(c: Clause, d: Clause, before: seq<nat>)
    requires c != [] && ReadsFirsts(c[..|c| - 1], d, before)
    ensures First(c, |c| - 1) ==> ReadsFirsts(c, d + [c[|c| - 1]], before + [|c| - 1])
    ensures !First(c, |c| - 1) ==> ReadsFirsts(c, d, before)
  {
    hide PredEq, First;
    var n := |c| - 1;
    var init := c[..n];
    assert n !in before;
    forall k: nat | k < n ensures First(c, k) <==> k in before { FirstOfPrefix(c, k); }
    assert forall i :: 0 <= i < |before| ==> init[before[i]] == c[before[i]];
  }

  lemma FirstOfPrefix(c: Clause, k: nat)
    requires k < |c| - 1
    ensures First(c, k) <==> First(c[..|c| - 1], k)
  {
    hide PredEq;
    var init := c[..|c| - 1];
    assert forall j :: 0 <= j <= k ==> init[j] == c[j];
  }

  /** The last predicate has an equal before it exactly when deduplication drops it. */
  lemma LastIsFirst(c: Clause)
    requires c != []
    ensures First(c, |c| - 1) <==> !Found(c[|c| - 1], Dedup(c[..|c| - 1]))
  {
    hide PredEq, Found;
    var n := |c| - 1;
    var init, last := c[..n], c[n];
    var d := Dedup(init);
    DedupFacts(init);
    FoundIff(last, d);
    forall j | 0 <= j < n && PredEq(last, c[j]) ensures Found(last, d) {
      assert init[j] == c[j];
      FoundIff(init[j], d);
      var k :| 0 <= k < |d| && PredEq(init[j], d[k]);
      PredEqTransitive(last, init[j], d[k]);
    }
    if Found(last, d) {
      var k :| 0 <= k < |d| && PredEq(last, d[k]);
      assert d[k] in init;
      var j :| 0 <= j < |init| && init[j] == d[k];
      assert c[j] == d[k];
    }
  }

  // ---------------------------------------------------------------- the minimal clauses

  ghost predicate SameSet(a: Clause, b: Clause) { EachFound(a, b) && EachFound(b, a) }

  /** No clause of the list contains another one. */
  ghost predicate Antichain(kept: seq<Clause>) {
    forall i, j :: 0 <= i < |kept| && 0 <= j < |kept| && i != j ==> !EachFound(kept[i], kept[j])
  }

  ghost predicate ContainsOne(c: Clause, kept: seq<Clause>) {
    exists i :: 0 <= i < |kept| && EachFound(kept[i], c)
  }

  /** Position `k` is the last one that holds the predicates of `c`. */
  ghost predicate LastEqual(clauses: seq<Clause>, c: Clause, k: nat) {
    && k < |clauses|
    && SameSet(clauses[k], c)
    && forall j :: k < j < |clauses| ==> !SameSet(clauses[j], c)
  }

  /**
   The minimal clauses of a list: none repeats a predicate, none contains another, every clause of the list
   contains one of them, and each is the last clause of the list with its predicates,
   without repetitions, in the order of the list.
   */
  ghost predicate MinimalOf(clauses: seq<Clause>, kept: seq<Clause>) {
    && (forall i :: 0 <= i < |kept| ==> NoDuplicates(kept[i]))
    && Antichain(kept)
    && (forall k :: 0 <= k < |clauses| ==> ContainsOne(clauses[k], kept))
    && exists at: seq<nat> :: ReadsMinimal(clauses, kept, at)
  }

  ghost predicate ReadsMinimal(clauses: seq<Clause>, kept: seq<Clause>, at: seq<nat>) {
    && Positions(at, |clauses|)
    && |at| == |kept|
    && forall i :: 0 <= i < |kept| ==> FirstOccurrences(clauses[at[i]], kept[i]) && LastEqual(clauses, kept[i], at[i])
  }

  lemma DedupSameSet(c: Clause)
    ensures SameSet(c, Dedup(c)) && NoDuplicates(Dedup(c))
  {
    hide PredEq, Found, EachFound;
    var d := Dedup(c);
    DedupFacts(c);
    EachFoundIff(c, d);
    EachFoundIff(d, c);
    forall i | 0 <= i < |d| ensures Found(d[i], c) {
      var j :| 0 <= j < |c| && c[j] == d[i];
      PredEqReflexive(c[j]);
      FoundIff(d[i], c);
    }
  }

  lemma AbsorptionAntichain(clauses: seq<Clause>)
    requires |clauses| >= 2
    ensures Antichain(ApplyAbsorption(clauses))
  {
    hide EachFound, Survives, Dedup;
    var d := DedupEach(clauses);
    var at, kept := Survivors(d), ApplyAbsorption(clauses);
    SurvivorsIncreasing(d, |d|);
    forall i, j | 0 <= i < |kept| && 0 <= j < |kept| && i != j ensures !EachFound(kept[i], kept[j]) {
      assert at[i] != at[j];
      DedupSameSet(clauses[at[i]]);
      DedupSameSet(clauses[at[j]]);
      SurvivorsIncomparable(d, at[j], at[i]);
    }
  }

  lemma AbsorptionCovers(clauses: seq<Clause>, k: nat)
    requires |clauses| >= 2 && k < |clauses|
    ensures ContainsOne(clauses[k], ApplyAbsorption(clauses))
  {
    hide EachFound, Survives, Dedup;
    var d, kept := DedupEach(clauses), ApplyAbsorption(clauses);
    var s := SurvivorWithin(d, k);
    DedupSameSet(clauses[k]);
    ContainedTransitive(d[s], d[k], clauses[k]);
    assert s in Survivors(d);
    var i :| 0 <= i < |Survivors(d)| && Survivors(d)[i] == s;
    assert kept[i] == d[s];
  }

  /** A surviving position is the last one with its predicates. */
  lemma SurvivorIsLast(clauses: seq<Clause>, k: nat)
    requires k < |clauses| && Survives(DedupEach(clauses), k)
    ensures LastEqual(clauses, Dedup(clauses[k]), k)
  {
    hide EachFound, Survives, Dedup;
    var d := DedupEach(clauses);
    DedupSameSet(clauses[k]);
    forall j | k < j < |clauses| ensures !SameSet(clauses[j], d[k]) {
      if SameSet(clauses[j], d[k]) {
        DedupSameSet(clauses[j]);
        ContainedTransitive(d[j], clauses[j], d[k]);
        ContainedTransitive(d[k], clauses[j], d[j]);
        LastDuplicateSurvives(d, k, j);
      }
    }
  }

  lemma AbsorptionIsMinimal(clauses: seq<Clause>)
    requires |clauses| >= 2
    ensures MinimalOf(clauses, ApplyAbsorption(clauses))
  {
    hide EachFound, Survives, Dedup, Antichain, ContainsOne, LastEqual, ReadsFirsts;
    var d := DedupEach(clauses);
    var at, kept := Survivors(d), ApplyAbsorption(clauses);
    SurvivorsIncreasing(d, |d|);
    AbsorptionAntichain(clauses);
    forall k | 0 <= k < |clauses| ensures ContainsOne(clauses[k], kept) { AbsorptionCovers(clauses, k); }
    forall i | 0 <= i < |kept| ensures FirstOccurrences(clauses[at[i]], kept[i]) && LastEqual(clauses, kept[i], at[i])
      ensures NoDuplicates(kept[i])
    {
      DedupSameSet(clauses[at[i]]);
      SurvivorIsLast(clauses, at[i]);
      var firsts := DedupReadsFirsts(clauses[at[i]]);
    }
    assert ReadsMinimal(clauses, kept, at);
  }

  // ---------------------------------------------------------------- reading the result back

  ghost predicate NoneEmpty(clauses: seq<Clause>) {
    clauses != [] && forall i :: 0 <= i < |clauses| ==> clauses[i] != []
  }

  lemma {:induction false} LiteralsReadBack(m: Mode, c: Clause)
    requires AllLiterals(c)
    ensures Minors(c, false, m) == [c]
    decreases |c|
  {
    if c != [] {
      var init, last := c[..|c| - 1], c[|c| - 1];
      LiteralsReadBack(m, init);
      assert ToNormalized(last, false, m) == [[last]];
      assert Cross([init], [[last]]) == Cross([init], []) + AppendEach([init], [last]);
      assert init + [last] == c;
    }
  }

  lemma ClauseReadsBack(m: Mode, c: Clause)
    requires AllLiterals(c) && c != []
    ensures ToNormalized(Build(Dual(m), c), false, m) == [c]
  {
    LiteralsReadBack(m, c);
    if |c| == 1 { assert ToNormalized(c[0], false, m) == [[c[0]]]; }
  }

  lemma {:induction false} MajorsReadBack(m: Mode, clauses: seq<Clause>)
    requires LiteralClauses(clauses) && forall i :: 0 <= i < |clauses| ==> clauses[i] != []
    ensures Majors(Built(m, clauses), false, m) == clauses
  {
    if clauses != [] {
      var k := |clauses| - 1;
      MajorsReadBack(m, clauses[..k]);
      ClauseReadsBack(m, clauses[k]);
      assert Built(m, clauses)[..k] == Built(m, clauses[..k]);
      assert clauses[..k] + [clauses[k]] == clauses;
    }
  }

  lemma {:induction false} MajorsNoneEmpty(m: Mode, clauses: seq<Clause>)
    requires LiteralClauses(clauses)
    ensures [] !in Majors(Built(m, clauses), false, m)
  {
    if clauses != [] {
      var k := |clauses| - 1;
      MajorsNoneEmpty(m, clauses[..k]);
      assert Built(m, clauses)[..k] == Built(m, clauses[..k]);
      if clauses[k] != [] { ClauseReadsBack(m, clauses[k]); }
    }
  }

  /**
   A rebuilt predicate distributes to the clauses it was built from, if and only if there
   is a clause and none is empty; a constant stands for the empty ones.
   */
  lemma RebuildReadsBack(m: Mode, clauses: seq<Clause>)
    requires LiteralClauses(clauses)
    ensures ToNormalized(Rebuild(m, clauses), false, m) == clauses <==> NoneEmpty(clauses)
  {
    if NoneEmpty(clauses) {
      MajorsReadBack(m, clauses);
      ClauseReadsBack(m, clauses[0]);
    } else if |clauses| == 1 {
      assert Built(m, clauses)[0] == Const(Unit(Dual(m)));
    } else if clauses != [] {
      MajorsNoneEmpty(m, clauses);
    }
  }

  // ---------------------------------------------------------------- the entry points

  /** Distribution alone loses no clause and no repetition: its result distributes to the same clauses. */
  lemma DistributesToSame(p: Pred, limit: int, m: Mode)
    requires Normalize(p, limit, m).Normalized?
    ensures var clauses := ToNormalized(p, false, m);
      ToNormalized(Normalize(p, limit, m).pred, false, m) == clauses <==> NoneEmpty(clauses)
  {
    NormalizedLiterals(p, false, m);
    RebuildReadsBack(m, ToNormalized(p, false, m));
  }

  /**
   What the absorbing entry point returns: the minimal clauses of the distributed ones,
   or, when distribution leaves fewer than two, those as they are. The result
   distributes to exactly these.
   */
  lemma ReturnsMinimal(p: Pred, limit: int, m: Mode) returns (kept: seq<Clause>)
    requires NormalizeAndSimplify(p, limit, m).Normalized?
    ensures NormalizeAndSimplify(p, limit, m).pred == Rebuild(m, kept)
    ensures ToNormalized(NormalizeAndSimplify(p, limit, m).pred, false, m) == kept <==> NoneEmpty(kept)
    ensures var clauses := ToNormalized(p, false, m);
      if |clauses| < 2 then kept == clauses else MinimalOf(clauses, kept)
  {
    hide MinimalOf, ApplyAbsorption;
    var clauses := ToNormalized(p, false, m);
    kept := ApplyAbsorption(clauses);
    NormalizedLiterals(p, false, m);
    AbsorptionLiterals(clauses);
    RebuildReadsBack(m, kept);
    if |clauses| >= 2 { AbsorptionIsMinimal(clauses); } else { FewStay(clauses); }
  }

  lemma FewStay(clauses: seq<Clause>)
    requires |clauses| < 2
    ensures ApplyAbsorption(clauses) == clauses
  {
  }

  // ---------------------------------------------------------------- an example

  lemma PairClauses(x: Pred, y: Pred)
    requires x.Leaf? && y.Leaf?
    ensures ToNormalized(Or([x, y], false), false, Dnf) == [[x], [y]]
  {
    MajorsReadBack(Dnf, [[x], [y]]);
    assert Built(Dnf, [[x], [y]]) == [x, y];
  }

  lemma PairCross(lefts: seq<Clause>, b: Clause, c: Clause)
    ensures Cross(lefts, [b, c]) == AppendEach(lefts, b) + AppendEach(lefts, c)
  {
    assert [b, c][..1] == [b] && [b][..0] == [];
    assert Cross(lefts, [b]) == Cross(lefts, []) + AppendEach(lefts, b);
  }

  lemma LiteralCross(a: Pred, b: Pred, c: Pred, d: Pred)
    ensures Cross([[]], [[a], [b]]) == [[a], [b]]
    ensures Cross([[a], [b]], [[c], [d]]) == [[a, c], [b, c], [a, d], [b, d]]
  {
    hide Cross;
    PairCross([[]], [a], [b]);
    assert [] + [a] == [a] && [] + [b] == [b];
    PairCross([[a], [b]], [c], [d]);
    assert [a] + [c] == [a, c] && [b] + [c] == [b, c] && [a] + [d] == [a, d] && [b] + [d] == [b, d];
  }

  lemma PairMinors(a: Pred, b: Pred)
    ensures Minors([a, b], false, Dnf) == Cross(Cross([[]], ToNormalized(a, false, Dnf)), ToNormalized(b, false, Dnf))
  {
    hide Cross, ToNormalized;
    assert [a, b][..1] == [a] && [a][..0] == [];
    assert Minors([a], false, Dnf) == Cross(Minors([], false, Dnf), ToNormalized(a, false, Dnf));
  }

  lemma SharedClauses(x: Pred, y: Pred, z: Pred)
    requires x.Leaf? && y.Leaf? && z.Leaf?
    ensures ToNormalized(And([Or([x, y], false), Or([x, z], false)], false), false, Dnf) ==
            [[x, x], [y, x], [x, z], [y, z]]
  {
    hide Cross;
    PairClauses(x, y);
    PairClauses(x, z);
    PairMinors(Or([x, y], false), Or([x, z], false));
    LiteralCross(x, y, x, z);
  }

  lemma PairDedup(a: Pred, b: Pred)
    requires a.Leaf? && b.Leaf?
    ensures Dedup([a, b]) == if a == b then [a] else [a, b]
  {
    assert [a, b][..1] == [a] && [a][..0] == [];
    assert Dedup([a]) == [a];
    FoundLeaf(b, [a]);
  }

  lemma SharedSurvivors(x: Pred, y: Pred, z: Pred)
    requires x.Leaf? && y.Leaf? && z.Leaf? && x != y && x != z && y != z
    ensures Survivors([[x], [y, x], [x, z], [y, z]]) == [0, 3]
  {
    hide Survivors;
    var d := [[x], [y, x], [x, z], [y, z]];
    assert ElementSet([x]) == {x} && ElementSet([y, x]) == {x, y} && ElementSet([x, z]) == {x, z};
    assert ElementSet([y, z]) == {y, z};
    assert SetAbsorbs(d, 1, 0) && SetAbsorbs(d, 2, 0) && NoneAbsorbs(d, 0) && NoneAbsorbs(d, 3);
    LeafSurvivors(d, [0, 3]);
  }

  /** (x OR y) AND (x OR z) is returned as x OR (y AND z), from a limit of four clauses on. */
  lemma SharedFactor(x: Pred, y: Pred, z: Pred, limit: int)
    requires x.Leaf? && y.Leaf? && z.Leaf? && x != y && x != z && y != z && limit <= SATURATED
    ensures NormalizeAndSimplify(And([Or([x, y], false), Or([x, z], false)], false), limit, Dnf) ==
            if limit < 4 then Declined else Normalized(Or([x, And([y, z], false)], false))
  {
    hide ToNormalized, Survivors, Dedup, ExpansionSize;
    var p := And([Or([x, y], false), Or([x, z], false)], false);
    SharedClauses(x, y, z);
    assert !IsLiteral(Or([x, y], false)) && p.children[0] == Or([x, y], false);
    assert !IsInNormalForm(p, Dnf);
    DeclineExact(p, limit, Dnf);
    PairDedup(x, x);
    PairDedup(y, x);
    PairDedup(x, z);
    PairDedup(y, z);
    var d := [[x], [y, x], [x, z], [y, z]];
    assert DedupEach([[x, x], [y, x], [x, z], [y, z]]) == d;
    SharedSurvivors(x, y, z);
    assert Select(d, [0, 3]) == [[x], [y, z]];
    assert Built(Dnf, [[x], [y, z]]) == [x, And([y, z], false)];
  }
}
