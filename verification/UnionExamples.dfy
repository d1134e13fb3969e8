/** A fixed factor that is really left out, and factors whose legs depend on the choice. */
module UnionExamples {
  import opened Sequences
  import opened Predicates
  import opened NormalForm
  import opened Absorption
  import opened Simplifier
  import opened Simplification
  import opened Fixpoint
  import opened LeafClauses
  import opened PinnedTrees
  import opened UnionLegs
  import opened UnionRule
  import opened UnionSharing
  import opened ClausalShapes

  lemma Bits()
    ensures Bit(1, 0) && !Bit(1, 1) && !Bit(0, 0) && !Bit(0, 1)
  {
    assert Pow2(0) == 1 && Pow2(1) == 2 * Pow2(0);
  }

  /** Two factors, the first one fixed or not. */
  lemma TwoFactors(a: Pred, b: Pred)
    ensures Expanded([a, b], 1) == [b] && Expanded([a, b], 0) == [a, b]
    ensures forall t :: Live([a, b], 1, t) == (if Implies(t, a) then [] else [WithAtomicity(a, true)])
    ensures forall t :: Live([a, b], 0, t) == []
  {
    hide Implies, Bit;
    Bits();
    assert [a, b][..1] == [a] && [a][..0] == [] && [] + [a] == [a];
    assert Expanded([a], 1) == Expanded([a][..0], 1) + [];
    assert Expanded([a], 0) == Expanded([a][..0], 0) + [a];
    forall t ensures Live([a, b], 1, t) == (if Implies(t, a) then [] else [WithAtomicity(a, true)]) {
      assert Live([a], 1, t) == Live([], 1, t) + (if Implies(t, a) then [] else [WithAtomicity(a, true)]);
    }
    forall t ensures Live([a, b], 0, t) == [] {
      assert Live([a], 0, t) == Live([], 0, t);
    }
  }

  // ---------------------------------------------------------------- a factor left out

  lemma PairImplied(x: Pred, y: Pred, t: Pred)
    requires x.Leaf? && y.Leaf? && x != y && t.Leaf?
    ensures Implies(t, Or([x, y], false)) <==> t == x || t == y
  {
    hide Simplify, Found;
    LeavesSettled(Dnf, [x, y], false);
    ToEnd(Or([x, y], false), false);
    FlatTerm(Cnf, Or([x, y], false));
    FoundLeaf(x, [t]);
    FoundLeaf(y, [t]);
    assert [x, y][0] == x && [x, y][1] == y;
  }

  lemma PairFinal(x: Pred, y: Pred)
    requires x.Leaf? && y.Leaf? && x != y
    ensures Simplify(Or([x, y], false), true) == Or([x, y], false)
  {
    LeavesSettled(Dnf, [x, y], false);
    FinalUnchanged(Or([x, y], false), true);
  }

  /** Fixing (p or q) and expanding (p or r): the leg of p carries no fixed factor, the leg of r does. */
  lemma FactorLeftOut()
    ensures var factors := [Or([P, Q], false), Or([P, R], false)];
      && Terms(factors, 1) == [P, R]
      && Live(factors, 1, P) == [] && Live(factors, 1, R) == [Or([P, Q], true)]
  {
    hide Simplify, Implies, Live, Expanded;
    TwoFactors(Or([P, Q], false), Or([P, R], false));
    PairFinal(P, R);
    PairImplied(P, Q, P);
    PairImplied(P, Q, R);
  }

  // ---------------------------------------------------------------- a leg that depends on the choice

  /** p, or q and r. */
  const F: Pred := Or([P, And([Q, R], false)], false)

  /** q and r and s, or t. */
  const G: Pred := Or([And([Q, R, S], false), T], false)

  const TERM: Pred := And([Q, R, S], false)

  lemma FSettled()
    ensures Settled(F)
  {
    hide DefaultRules, TermClauses, Survivors;
    LeafSettled(0, Eq);
    LeavesSettled(Cnf, [Q, R], false);
    FClauses();
    Absorbed(Dnf, F.children, false);
    AllSettledIff(F.children);
  }

  lemma FClauses()
    ensures TermClauses(Dnf, F.children) == [[P], [Q, R]] && Survivors([[P], [Q, R]]) == [0, 1]
  {
    hide Survivors, ElementSet;
    LeavesDedup([Q, R]);
    var clauses := [[P], [Q, R]];
    SingleSet(P);
    ThreeSets(Q, R, R);
    assert NoneAbsorbs(clauses, 0) && NoneAbsorbs(clauses, 1);
    LeafSurvivors(clauses, [0, 1]);
  }

  lemma GClauses()
    ensures TermClauses(Dnf, G.children) == [[Q, R, S], [T]] && Survivors([[Q, R, S], [T]]) == [0, 1]
  {
    hide Survivors, ElementSet;
    LeavesDedup([Q, R, S]);
    var clauses := [[Q, R, S], [T]];
    SingleSet(T);
    ThreeSets(Q, R, S);
    assert NoneAbsorbs(clauses, 0) && NoneAbsorbs(clauses, 1);
    LeafSurvivors(clauses, [0, 1]);
  }

  lemma GSettled()
    ensures Settled(G) && Simplify(G, true) == G
  {
    hide DefaultRules, TermClauses, Survivors, Simplify;
    LeafSettled(4, Eq);
    LeavesSettled(Cnf, [Q, R, S], false);
    GClauses();
    Absorbed(Dnf, G.children, false);
    AllSettledIff(G.children);
    FinalUnchanged(G, true);
  }

  lemma FlattenTwo(m: Mode, a: Pred, b: Pred)
    ensures FlattenAll(m, [a, b]) == Flatten(m, a) + Flatten(m, b)
  {
    assert [a, b][..1] == [a] && [a][..0] == [];
    assert FlattenAll(m, [a]) == Flatten(m, a);
  }

  /** The conjunct q and r of the factor is not among the flattened conjuncts of the term. */
  lemma FNotImplied()
    ensures !Implies(TERM, F)
  {
    hide Simplify, Found, PredEq;
    FSettled();
    ToEnd(F, false);
    FlattenTwo(Dnf, P, And([Q, R], false));
    FlatTerm(Dnf, TERM);
    FoundLeaf(P, [Q, R, S]);
    FoundIff(And([Q, R], false), [Q, R, S]);
    forall x | x in [Q, R, S] ensures !PredEq(And([Q, R], false), x) { DifferentKinds(And([Q, R], false), x); }
  }

  /** What distribution builds from both factors. */
  const BOTH: seq<Clause> := [[P, Q, R, S], [Q, R, Q, R, S], [P, T], [Q, R, T]]

  const BOTH_LASTS: seq<Clause> := [[P, Q, R, S], [Q, R, S], [P, T], [Q, R, T]]

  lemma MajorsTwo(a: Pred, b: Pred)
    ensures ToNormalized(Or([a, b], false), false, Dnf) == ToNormalized(a, false, Dnf) + ToNormalized(b, false, Dnf)
  {
    assert [a, b][..1] == [a] && [a][..0] == [];
    assert Majors([a], false, Dnf) == ToNormalized(a, false, Dnf);
  }

  lemma ThreeLeaves(x: Pred, y: Pred, z: Pred)
    requires x.Leaf? && y.Leaf? && z.Leaf?
    ensures ToNormalized(And([x, y, z], false), false, Dnf) == [[x, y, z]]
  {
    hide ToNormalized, Minors, Cross;
    TwoLeaves(x, y);
    OfAnd([x, y]);
    OneLeaf(z);
    MoreFactors([x, y], z);
    assert [x, y] + [z] == [x, y, z];
    OneRight([[x, y]], [z]);
    assert AppendEach([[x, y]], [z]) == [[x, y, z]];
    OfAnd([x, y, z]);
  }

  lemma BothDistributed()
    ensures ToNormalized(And([F, G], false), false, Dnf) == BOTH && !IsInNormalForm(And([F, G], false), Dnf)
  {
    hide ToNormalized, Minors, Cross, IsInNormalForm;
    MajorsTwo(P, And([Q, R], false));
    OneLeaf(P);
    TwoLeaves(Q, R);
    MajorsTwo(And([Q, R, S], false), T);
    ThreeLeaves(Q, R, S);
    OneLeaf(T);
    var lefts := [[P], [Q, R]];
    assert [[P]] + [[Q, R]] == lefts && [[Q, R, S]] + [[T]] == [[Q, R, S], [T]];
    OneFactor(F);
    MoreFactors([F], G);
    assert [F] + [G] == [F, G];
    TwoRights(lefts, [Q, R, S], [T]);
    assert [P] + [Q, R, S] == [P, Q, R, S] && [Q, R] + [Q, R, S] == [Q, R, Q, R, S];
    assert [P] + [T] == [P, T] && [Q, R] + [T] == [Q, R, T];
    assert AppendEach(lefts, [Q, R, S]) == [[P, Q, R, S], [Q, R, Q, R, S]] && AppendEach(lefts, [T]) == [[P, T], [Q, R, T]];
    OfAnd([F, G]);
    ToDistribute([F, G], 0);
  }

  lemma RepeatedClauses()
    ensures TermClauses(Cnf, [Q, R, Q, R, S]) == [[Q], [R], [Q], [R], [S]]
    ensures Survivors([[Q], [R], [Q], [R], [S]]) == [2, 3, 4]
  {
    hide Survivors, ElementSet;
    var clauses := [[Q], [R], [Q], [R], [S]];
    SingleSet(Q);
    SingleSet(R);
    SingleSet(S);
    assert SetAbsorbs(clauses, 0, 2) && SetAbsorbs(clauses, 1, 3);
    assert NoneAbsorbs(clauses, 2) && NoneAbsorbs(clauses, 3) && NoneAbsorbs(clauses, 4);
    LeafSurvivors(clauses, [2, 3, 4]);
  }

  lemma RepeatedSimplified()
    ensures Simplify(And([Q, R, Q, R, S], false), false) == TERM
  {
    hide Simplify, ApplyRules, DefaultRules, Survivors, TermClauses;
    var terms, clauses := [Q, R, Q, R, S], [[Q], [R], [Q], [R], [S]];
    LeavesAllSettled(terms);
    FromChildren(And(terms, false), false);
    RepeatedClauses();
    AbsorbOnce(Cnf, terms, false, [2, 3, 4]);
    assert Select(clauses, [2, 3, 4]) == [[Q], [R], [S]];
    assert Built(Cnf, [[Q], [R], [S]]) == [Q, R, S];
    FromRule(And(terms, false), false, TERM);
    LeavesSettled(Cnf, [Q, R, S], false);
    ToEnd(TERM, false);
  }

  lemma BothTerms()
    ensures Simplify(Rebuild(Dnf, BOTH), true) == ApplyRules(Or(Built(Dnf, BOTH_LASTS), false), true)
  {
    hide Simplify, ApplyRules;
    var before, after := Or(Built(Dnf, BOTH), false), Built(Dnf, BOTH_LASTS);
    forall i | 0 <= i < 4 ensures after[i] == Simplify(before.children[i], false) {
      if i == 1 {
        RepeatedSimplified();
      } else {
        assert Leaves(BOTH[i]) && Distinct(BOTH[i]);
        AndUnchanged(BOTH[i]);
      }
    }
    WithSimplified(before, after, true);
  }

  lemma BothAbsorbed(i: nat)
    requires i < 4
    ensures NoneAbsorbs(BOTH_LASTS, i) <==> i in [1, 2, 3]
  {
    hide ElementSet;
    assert ElementSet([P, Q, R, S]) == {P, Q, R, S} by { FourSet(); }
    ThreeSets(Q, R, S);
    ThreeSets(P, T, T);
    ThreeSets(Q, R, T);
    if i == 0 { assert SetAbsorbs(BOTH_LASTS, 0, 1); }
  }

  lemma FourSet()
    ensures ElementSet([P, Q, R, S]) == {P, Q, R, S}
  {
  }

  lemma BothFinal()
    ensures var kept := Select(BOTH_LASTS, [1, 2, 3]);
      ApplyRules(Rebuild(Dnf, kept), true) == Rebuild(Dnf, kept)
      && Rebuild(Dnf, kept) == Or([TERM, And([P, T], false), And([Q, R, T], false)], false)
  {
    hide ApplyRules, ElementSet;
    var kept := [[Q, R, S], [P, T], [Q, R, T]];
    assert Select(BOTH_LASTS, [1, 2, 3]) == kept;
    assert Built(Dnf, kept) == [TERM, And([P, T], false), And([Q, R, T], false)];
    ThreeSets(Q, R, S);
    ThreeSets(P, T, T);
    ThreeSets(Q, R, T);
    forall i: nat | i < 3 ensures NoneAbsorbs(kept, i) { }
    DnfFinal(kept);
    ToEnd(Rebuild(Dnf, kept), true);
  }

  lemma BothNormalized()
    ensures Simplify(And([F, G], false), true) == Or([TERM, And([P, T], false), And([Q, R, T], false)], false)
  {
    hide Simplify, ApplyRules, ToNormalized, IsInNormalForm, NoneAbsorbs, ElementSet, Rebuild, DefaultRules;
    FSettled();
    GSettled();
    AllSettledIff([F, G]);
    FromChildren(And([F, G], false), true);
    BothDistributed();
    Distributed(And([F, G], false), BOTH);
    BothTerms();
    forall i: nat | i < |BOTH_LASTS| ensures i in [1, 2, 3] <==> NoneAbsorbs(BOTH_LASTS, i) { BothAbsorbed(i); }
    DnfAbsorbs(BOTH_LASTS, [1, 2, 3]);
    BothFinal();
  }

  /**
   Beyond disjunctions of leaves a leg may depend on the choice: both choices yield the
   term q and r and s, but it carries the first factor only where that is fixed.
   */
  lemma LegDependsOnChoice()
    ensures TERM in Terms([F, G], 0) && Live([F, G], 0, TERM) == []
    ensures TERM in Terms([F, G], 1) && Live([F, G], 1, TERM) == [WithAtomicity(F, true)]
  {
    hide Simplify, Implies, Live, Expanded;
    TwoFactors(F, G);
    BothNormalized();
    GSettled();
    FNotImplied();
  }

  // ---------------------------------------------------------------- an atomic factor

  /** An atomic factor with nothing to simplify is not split, although it may be a disjunction. */
  lemma AtomicFactorKept(p: Pred)
    requires IsAtomic(p) && Settled(p)
    ensures !IsUnion([p], 0) && Terms([p], 0) == []
  {
    hide Simplify, Settled, Bit;
    Bits();
    assert [p][..0] == [] && Expanded([p], 0) == Expanded([p][..0], 0) + [p];
    assert Build(Cnf, [p]) == p;
    AtomicRootKept(p);
  }
}
