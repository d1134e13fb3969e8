/** The absorption law on a list of clauses: a clause that contains another one is redundant. */
module Absorption {
  import opened Predicates
  import opened NormalForm

  // ---------------------------------------------------------------- duplicates within a clause

  /** The first occurrence of each predicate, in order. */
  function Dedup(ps: seq<Pred>): seq<Pred> {
    if ps == [] then []
    else
      var init, last := Dedup(ps[..|ps| - 1]), ps[|ps| - 1];
      if Found(last, init) then init else init + [last]
  }

  method DedupPredicates(ps: seq<Pred>) returns (out: seq<Pred>)
    ensures out == Dedup(ps)
  {
    out := [];
    for i := 0 to |ps|
      invariant out == Dedup(ps[..i])
    {
      var dup := false;
      for j := 0 to |out|
        invariant dup <==> exists k :: 0 <= k < j && PredEq(ps[i], out[k])
      {
        if PredEq(ps[i], out[j]) { dup := true; break; }
      }
      FoundIff(ps[i], out);
      assert ps[..i + 1][..i] == ps[..i];
      if !dup { out := out + [ps[i]]; }
    }
    assert ps[..|ps|] == ps;
  }

  /** Deduplication keeps an equal of everything, adds nothing and leaves no two equal. */
  lemma {:induction false} DedupFacts(ps: seq<Pred>)
    ensures |Dedup(ps)| <= |ps|
    ensures forall i :: 0 <= i < |ps| ==> Found(ps[i], Dedup(ps))
    ensures forall i :: 0 <= i < |Dedup(ps)| ==> Dedup(ps)[i] in ps
    ensures forall i, j :: 0 <= i < j < |Dedup(ps)| ==> !PredEq(Dedup(ps)[j], Dedup(ps)[i])
  {
    hide PredEq, Found;
    if ps != [] {
      var init, last := ps[..|ps| - 1], ps[|ps| - 1];
      DedupFacts(init);
      var d, d' := Dedup(init), Dedup(ps);
      FoundIff(last, d);
      PredEqReflexive(last);
      forall i | 0 <= i < |ps| ensures Found(ps[i], d') {
        FoundIff(ps[i], d');
        if i < |init| {
          assert init[i] == ps[i];
          FoundIff(ps[i], d);
          var j :| 0 <= j < |d| && PredEq(ps[i], d[j]);
          assert d'[j] == d[j];
        } else if |d'| > |d| {
          assert d'[|d|] == last;
        }
      }
    }
  }

  lemma DedupAbove(m: Mode, ps: seq<Pred>, i: nat, v: Valuation)
    requires i < |ps|
    ensures Below(m, ps[i], Dedup(ps), v)
  {
    hide Dedup, PredEq, Found, Eval;
    DedupFacts(ps);
    var d := Dedup(ps);
    FoundIff(ps[i], d);
    var j :| 0 <= j < |d| && PredEq(ps[i], d[j]);
    EqualMeaning(ps[i], d[j], v);
    assert Leq(m, Eval(ps[i], v), Eval(d[j], v));
  }

  lemma DedupBelow(m: Mode, ps: seq<Pred>, i: nat, v: Valuation)
    requires i < |Dedup(ps)|
    ensures Below(m, Dedup(ps)[i], ps, v)
  {
    hide Dedup, PredEq, Found, Eval;
    DedupFacts(ps);
    var j :| 0 <= j < |ps| && ps[j] == Dedup(ps)[i];
    assert Leq(m, Eval(Dedup(ps)[i], v), Eval(ps[j], v));
  }

  lemma DedupMeaning(m: Mode, ps: seq<Pred>, v: Valuation)
    ensures EvalAll(m, Dedup(ps), v) == EvalAll(m, ps, v)
  {
    hide Dedup, Below, Eval;
    var d := Dedup(ps);
    forall i | 0 <= i < |ps| ensures Below(m, ps[i], d, v) { DedupAbove(m, ps, i, v); }
    forall i | 0 <= i < |d| ensures Below(m, d[i], ps, v) { DedupBelow(m, ps, i, v); }
    JoinLeq(m, ps, d, v);
    JoinLeq(m, d, ps, v);
  }

  // ---------------------------------------------------------------- absorption

  /** Clause `j` makes clause `i` redundant: smaller, or as large and later, and contained in it. */
  predicate Absorbs(clauses: seq<Clause>, i: nat, j: nat)
    requires i < |clauses| && j < |clauses|
  {
    && i != j
    && (|clauses[i]| > |clauses[j]| || (|clauses[i]| == |clauses[j]| && i < j))
    && EachFound(clauses[j], clauses[i])
  }

  predicate Survives(clauses: seq<Clause>, i: nat)
    requires i < |clauses|
  {
    forall j :: 0 <= j < |clauses| ==> !Absorbs(clauses, i, j)
  }

  /** The surviving positions below `k`, ascending. */
  function SurvivorsBelow(clauses: seq<Clause>, k: nat): (r: seq<nat>)
    requires k <= |clauses|
    ensures forall i :: 0 <= i < |r| ==> r[i] < k && Survives(clauses, r[i])
    ensures forall i: nat :: i < k && Survives(clauses, i) ==> i in r
    ensures |r| <= k && (|r| == k <==> forall i: nat :: i < k ==> Survives(clauses, i))
  {
    if k == 0 then []
    else
      var r := SurvivorsBelow(clauses, k - 1);
      if Survives(clauses, k - 1) then r + [k - 1] else r
  }

  function Survivors(clauses: seq<Clause>): seq<nat> { SurvivorsBelow(clauses, |clauses|) }

  function Select(clauses: seq<Clause>, positions: seq<nat>): (r: seq<Clause>)
    requires forall i :: 0 <= i < |positions| ==> positions[i] < |clauses|
    ensures |r| == |positions| && forall i :: 0 <= i < |r| ==> r[i] == clauses[positions[i]]
  {
    seq(|positions|, i requires 0 <= i < |positions| => clauses[positions[i]])
  }

  /** A clause lies below every clause it contains. */
  lemma ContainedLeq(m: Mode, big: Clause, small: Clause, v: Valuation)
    requires EachFound(small, big)
    ensures Leq(m, ClauseVal(m, big, v), ClauseVal(m, small, v))
  {
    EachFoundIff(small, big);
    forall i | 0 <= i < |small| ensures Below(Dual(m), small[i], big, v) {
      FoundIff(small[i], big);
      var j :| 0 <= j < |big| && PredEq(small[i], big[j]);
      EqualMeaning(small[i], big[j], v);
    }
    JoinLeq(Dual(m), small, big, v);
  }

  /** Containment of clauses is transitive. */
  lemma ContainedTransitive(a: Clause, b: Clause, c: Clause)
    requires EachFound(a, b) && EachFound(b, c)
    ensures EachFound(a, c)
  {
    hide PredEq, Found, EachFound;
    EachFoundIff(a, b);
    EachFoundIff(b, c);
    forall i | 0 <= i < |a| ensures Found(a[i], c) {
      FoundIff(a[i], b);
      var j :| 0 <= j < |b| && PredEq(a[i], b[j]);
      FoundIff(b[j], c);
      var k :| 0 <= k < |c| && PredEq(b[j], c[k]);
      PredEqTransitive(a[i], b[j], c[k]);
      FoundIff(a[i], c);
    }
    EachFoundIff(a, c);
  }

  /** Following absorbers from any clause reaches a survivor contained in it. */
  lemma {:induction false} SurvivorWithin(clauses: seq<Clause>, i: nat) returns (s: nat)
    requires i < |clauses|
    ensures s < |clauses| && Survives(clauses, s) && EachFound(clauses[s], clauses[i])
    decreases |clauses[i]|, |clauses| - i
  {
    hide EachFound;
    if Survives(clauses, i) {
      s := i;
      SetReflexive(clauses[i]);
    } else {
      var j: nat :| j < |clauses| && Absorbs(clauses, i, j);
      s := SurvivorWithin(clauses, j);
      ContainedTransitive(clauses[s], clauses[j], clauses[i]);
    }
  }

  /** Every clause has a survivor above it. */
  lemma SurvivorAbove(m: Mode, clauses: seq<Clause>, i: nat, v: Valuation) returns (s: nat)
    requires i < |clauses|
    ensures s < |clauses| && Survives(clauses, s)
    ensures Leq(m, ClauseVal(m, clauses[i], v), ClauseVal(m, clauses[s], v))
  {
    s := SurvivorWithin(clauses, i);
    ContainedLeq(m, clauses[i], clauses[s], v);
  }

  /** Dropping the absorbed clauses preserves the Kleene meaning. */
  lemma AbsorptionMeaning(m: Mode, clauses: seq<Clause>, v: Valuation)
    ensures ClausesVal(m, Select(clauses, Survivors(clauses)), v) == ClausesVal(m, clauses, v)
  {
    var kept := Select(clauses, Survivors(clauses));
    var all, some := Built(m, clauses), Built(m, kept);
    forall i | 0 <= i < |all| ensures Below(m, all[i], some, v) {
      var s := SurvivorAbove(m, clauses, i, v);
      var k :| 0 <= k < |Survivors(clauses)| && Survivors(clauses)[k] == s;
      BuildMeaning(Dual(m), clauses[i], v);
      BuildMeaning(Dual(m), kept[k], v);
      assert Leq(m, Eval(all[i], v), Eval(some[k], v));
    }
    forall k | 0 <= k < |some| ensures Below(m, some[k], all, v) {
      assert some[k] == all[Survivors(clauses)[k]];
    }
    JoinLeq(m, all, some, v);
    JoinLeq(m, some, all, v);
    BuiltMeaning(m, clauses, v);
    BuiltMeaning(m, kept, v);
  }

  /** Deduplicate every clause, then drop the absorbed ones; fewer than two clauses stay as they are. */
  function ApplyAbsorption(clauses: seq<Clause>): seq<Clause> {
    if |clauses| < 2 then clauses
    else
      var deduped := DedupEach(clauses);
      Select(deduped, Survivors(deduped))
  }

  function DedupEach(clauses: seq<Clause>): (r: seq<Clause>)
    ensures |r| == |clauses| && forall i :: 0 <= i < |r| ==> r[i] == Dedup(clauses[i])
  {
    seq(|clauses|, i requires 0 <= i < |clauses| => Dedup(clauses[i]))
  }

  lemma {:induction false} DedupEachMeaning(m: Mode, clauses: seq<Clause>, v: Valuation)
    ensures ClausesVal(m, DedupEach(clauses), v) == ClausesVal(m, clauses, v)
  {
    if clauses != [] {
      var init, last := clauses[..|clauses| - 1], clauses[|clauses| - 1];
      DedupEachMeaning(m, init, v);
      DedupMeaning(Dual(m), last, v);
      assert DedupEach(clauses)[..|clauses| - 1] == DedupEach(init);
    }
  }

  lemma ApplyAbsorptionMeaning(m: Mode, clauses: seq<Clause>, v: Valuation)
    ensures ClausesVal(m, ApplyAbsorption(clauses), v) == ClausesVal(m, clauses, v)
  {
    if |clauses| >= 2 {
      DedupEachMeaning(m, clauses, v);
      AbsorptionMeaning(m, DedupEach(clauses), v);
    }
  }

  // ---------------------------------------------------------------- the survivors are minimal

  ghost predicate NoDuplicates(c: Clause) {
    forall i, j :: 0 <= i < j < |c| ==> !PredEq(c[j], c[i])
  }

  function Without(c: Clause, k: nat): (r: Clause)
    requires k < |c|
    ensures |r| == |c| - 1
  {
    c[..k] + c[k + 1..]
  }

  /** A clause without duplicates is no larger than one that contains it, and as large only if equal. */
  lemma {:induction false} ContainedSize(small: Clause, big: Clause)
    requires NoDuplicates(small) && EachFound(small, big)
    ensures |small| <= |big|
    ensures |small| == |big| ==> EachFound(big, small)
    decreases |small|
  {
    hide PredEq, Found, EachFound;
    EachFoundIff(small, big);
    EachFoundIff(big, small);
    if small != [] {
      var init, x := small[..|small| - 1], small[|small| - 1];
      FoundIff(x, big);
      var k :| 0 <= k < |big| && PredEq(x, big[k]);
      var rest := Without(big, k);
      forall i | 0 <= i < |init| ensures Found(init[i], rest) {
        assert init[i] == small[i];
        RestFinds(small, big, i, k);
      }
      EachFoundIff(init, rest);
      ContainedSize(init, rest);
      if |small| == |big| {
        EachFoundIff(rest, init);
        forall j | 0 <= j < |big| ensures Found(big[j], small) {
          FoundIff(big[j], small);
          if j == k {
            PredEqSymmetric(x, big[k]);
          } else {
            var j' := if j < k then j else j - 1;
            assert rest[j'] == big[j];
            FoundIff(rest[j'], init);
            var i :| 0 <= i < |init| && PredEq(rest[j'], init[i]);
            assert init[i] == small[i];
          }
        }
      }
    }
  }

  /** An element other than the last is found without the position that matches the last. */
  lemma RestFinds(small: Clause, big: Clause, i: nat, k: nat)
    requires NoDuplicates(small) && i < |small| - 1 && Found(small[i], big)
    requires k < |big| && PredEq(small[|small| - 1], big[k])
    ensures Found(small[i], Without(big, k))
  {
    hide PredEq, Found;
    FoundIff(small[i], big);
    var j :| 0 <= j < |big| && PredEq(small[i], big[j]);
    if j == k {
      PredEqSymmetric(small[i], big[k]);
      PredEqTransitive(small[|small| - 1], big[k], small[i]);
    }
    FoundIff(small[i], Without(big, k));
    assert Without(big, k)[if j < k then j else j - 1] == big[j];
  }

  /** No surviving clause contains another one. */
  lemma SurvivorsIncomparable(clauses: seq<Clause>, i: nat, j: nat)
    requires i < |clauses| && j < |clauses| && i != j
    requires Survives(clauses, i) && Survives(clauses, j)
    requires NoDuplicates(clauses[i]) && NoDuplicates(clauses[j])
    ensures !EachFound(clauses[j], clauses[i])
  {
    hide EachFound, PredEq;
    assert !Absorbs(clauses, i, j) && !Absorbs(clauses, j, i);
    if EachFound(clauses[j], clauses[i]) {
      ContainedSize(clauses[j], clauses[i]);
    }
  }

  /** Among clauses equal as sets, the last position survives if any does. */
  lemma LastDuplicateSurvives(clauses: seq<Clause>, i: nat, j: nat)
    requires i < j < |clauses|
    requires NoDuplicates(clauses[i]) && NoDuplicates(clauses[j])
    requires EachFound(clauses[i], clauses[j]) && EachFound(clauses[j], clauses[i])
    ensures !Survives(clauses, i)
  {
    ContainedSize(clauses[i], clauses[j]);
    ContainedSize(clauses[j], clauses[i]);
    assert Absorbs(clauses, i, j);
  }

  // ---------------------------------------------------------------- equality classes

  /** The representatives an element of the clause equals. */
  ghost predicate Holds(c: Clause, r: Pred) {
    exists i :: 0 <= i < |c| && PredEq(c[i], r)
  }

  ghost predicate ClassesOf(reps: seq<Pred>, c: Clause, ids: set<nat>) {
    && (forall i :: 0 <= i < |c| ==> Found(c[i], reps))
    && forall k: nat :: k in ids <==> k < |reps| && Holds(c, reps[k])
  }

  /** A new representative equals nothing numbered before it. */
  lemma NewClass(reps: seq<Pred>, c: Clause, ids: set<nat>, r: Pred)
    requires ClassesOf(reps, c, ids) && !Found(r, reps)
    ensures ClassesOf(reps + [r], c, ids)
  {
    hide PredEq, Found;
    var longer := reps + [r];
    forall i | 0 <= i < |c| ensures Found(c[i], longer) && !PredEq(c[i], r) {
      FoundIff(c[i], reps);
      FoundIff(c[i], longer);
      FoundIff(r, reps);
      var k :| 0 <= k < |reps| && PredEq(c[i], reps[k]);
      assert longer[k] == reps[k];
      if PredEq(c[i], r) {
        PredEqSymmetric(c[i], r);
        PredEqTransitive(r, c[i], reps[k]);
      }
    }
    assert forall k :: 0 <= k < |reps| ==> longer[k] == reps[k];
  }

  /** The class test on two clauses is the pairwise test. */
  lemma ClassSubset(reps: seq<Pred>, a: Clause, ia: set<nat>, b: Clause, ib: set<nat>)
    requires NoDuplicates(reps) && ClassesOf(reps, a, ia) && ClassesOf(reps, b, ib)
    ensures ib <= ia <==> EachFound(b, a)
  {
    hide PredEq, Found, EachFound;
    EachFoundIff(b, a);
    if ib <= ia {
      forall i | 0 <= i < |b| ensures Found(b[i], a) {
        FoundIff(b[i], reps);
        var k: nat :| k < |reps| && PredEq(b[i], reps[k]);
        assert Holds(b, reps[k]) && k in ia;
        var j :| 0 <= j < |a| && PredEq(a[j], reps[k]);
        PredEqSymmetric(a[j], reps[k]);
        PredEqTransitive(b[i], reps[k], a[j]);
        FoundIff(b[i], a);
      }
    }
    if forall i :: 0 <= i < |b| ==> Found(b[i], a) {
      forall k | k in ib ensures k in ia {
        var i :| 0 <= i < |b| && PredEq(b[i], reps[k]);
        FoundIff(b[i], a);
        var j :| 0 <= j < |a| && PredEq(b[i], a[j]);
        PredEqSymmetric(b[i], a[j]);
        PredEqTransitive(a[j], b[i], reps[k]);
      }
    }
  }

  ghost predicate Numbered(reps: seq<Pred>, clauses: seq<Clause>, ids: seq<set<nat>>) {
    && NoDuplicates(reps)
    && |ids| <= |clauses|
    && forall i :: 0 <= i < |ids| ==> ClassesOf(reps, clauses[i], ids[i])
  }

  /** The class of a predicate: the first representative it equals, or a new one. */
  method ClassId(reps: seq<Pred>, p: Pred) returns (reps': seq<Pred>, id: nat)
    requires NoDuplicates(reps)
    ensures NoDuplicates(reps') && id < |reps'| && PredEq(p, reps'[id])
    ensures reps' == reps || (reps' == reps + [p] && !Found(p, reps))
  {
    PredEqReflexive(p);
    FoundIff(p, reps);
    id := 0;
    while id < |reps| && !PredEq(p, reps[id])
      invariant 0 <= id <= |reps|
      invariant forall k :: 0 <= k < id ==> !PredEq(p, reps[k])
    {
      id := id + 1;
    }
    reps' := if id < |reps| then reps else reps + [p];
  }

  /** Numbers the equality classes of all predicates and gives each clause its set of classes. */
  method NumberClasses(clauses: seq<Clause>) returns (ghost reps: seq<Pred>, ids: seq<set<nat>>)
    ensures Numbered(reps, clauses, ids) && |ids| == |clauses|
  {
    hide PredEq, Found;
    reps, ids := [], [];
    var classes: seq<Pred> := [];
    for i := 0 to |clauses|
      invariant reps == classes && |ids| == i && Numbered(reps, clauses, ids)
    {
      var set': set<nat> := {};
      for j := 0 to |clauses[i]|
        invariant Numbered(classes, clauses, ids)
        invariant ClassesOf(classes, clauses[i][..j], set')
      {
        var longer, id := ClassId(classes, clauses[i][j]);
        Extend(classes, longer, clauses, ids, clauses[i], j, set', id);
        classes, set' := longer, set' + {id};
      }
      assert clauses[i][..|clauses[i]|] == clauses[i];
      ids := ids + [set'];
      reps := classes;
    }
  }

  lemma Extend(reps: seq<Pred>, longer: seq<Pred>, clauses: seq<Clause>, ids: seq<set<nat>>,
               c: Clause, j: nat, own: set<nat>, id: nat)
    requires Numbered(reps, clauses, ids) && NoDuplicates(longer) && j < |c|
    requires ClassesOf(reps, c[..j], own)
    requires longer == reps || (longer == reps + [c[j]] && !Found(c[j], reps))
    requires id < |longer| && PredEq(c[j], longer[id])
    ensures Numbered(longer, clauses, ids)
    ensures ClassesOf(longer, c[..j + 1], own + {id})
  {
    hide PredEq, Found;
    if longer != reps {
      forall i | 0 <= i < |ids| ensures ClassesOf(longer, clauses[i], ids[i]) {
        NewClass(reps, clauses[i], ids[i], c[j]);
      }
      NewClass(reps, c[..j], own, c[j]);
    }
    var d := c[..j + 1];
    assert d == c[..j] + [c[j]];
    assert forall i :: 0 <= i < j ==> c[..j][i] == d[i];
    FoundIff(c[j], longer);
    forall i | 0 <= i < |d| ensures Found(d[i], longer) {
      if i < j { assert d[i] == c[..j][i]; }
    }
    forall k: nat | k < |longer| ensures Holds(d, longer[k]) <==> k in own + {id} {
      if Holds(d, longer[k]) && !Holds(c[..j], longer[k]) {
        var i :| 0 <= i < |d| && PredEq(d[i], longer[k]);
        PredEqSymmetric(c[j], longer[id]);
        PredEqTransitive(longer[id], c[j], longer[k]);
        PredEqSymmetric(longer[id], longer[k]);
      }
      if Holds(c[..j], longer[k]) {
        var i :| 0 <= i < |c[..j]| && PredEq(c[..j][i], longer[k]);
        assert d[i] == c[..j][i];
      }
      if k == id { assert PredEq(d[j], longer[k]); }
    }
  }

  /** The survivors, by comparing class sets instead of predicates. */
  method AbsorptionSurvivors(deduped: seq<Clause>) returns (result: seq<nat>)
    ensures result == Survivors(deduped)
  {
    var reps, ids := NumberClasses(deduped);
    result := [];
    for i := 0 to |deduped|
      invariant result == SurvivorsBelow(deduped, i)
    {
      var absorbed := false;
      for j := 0 to |deduped|
        invariant !absorbed && forall k :: 0 <= k < j ==> !Absorbs(deduped, i, k)
      {
        if i != j {
          if |deduped[i]| > |deduped[j]| || (|deduped[i]| == |deduped[j]| && i < j) {
            ClassSubset(reps, deduped[i], ids[i], deduped[j], ids[j]);
            if ids[j] <= ids[i] {
              absorbed := true;
              assert Absorbs(deduped, i, j);
              break;
            }
          }
        }
      }
      assert absorbed <==> !Survives(deduped, i);
      if !absorbed { result := result + [i]; }
    }
  }
}
