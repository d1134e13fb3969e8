/** The example trees of the predicate contract, reproduced by the model. */
module PinnedTrees {
  import opened Sequences
  import opened Predicates
  import opened NormalForm
  import opened Absorption
  import opened Simplifier
  import opened Simplification
  import opened Fixpoint
  import opened LeafClauses

  // ---------------------------------------------------------------- the examples

  const P: Pred := Leaf(0, Eq)
  const Q: Pred := Leaf(1, Eq)
  const R: Pred := Leaf(2, Eq)
  const S: Pred := Leaf(3, Eq)
  const T: Pred := Leaf(4, Eq)
  const U: Pred := Leaf(5, Eq)
  const V: Pred := Leaf(6, Eq)
  const W: Pred := Leaf(7, Eq)

  /** Of two equal terms the last one stays: x AND y AND x is y AND x. */
  lemma LastPosition(x: Pred, y: Pred)
    requires x.Leaf? && y.Leaf? && x != y
    ensures Simplify(And([x, y, x], false), false) == And([y, x], false)
  {
    hide Simplify, ApplyRules, DefaultRules, Survivors;
    var terms := [x, y, x];
    LeafSettled(x.name, x.cmp);
    LeafSettled(y.name, y.cmp);
    AllSettledIff(terms);
    FromChildren(And(terms, false), false);
    var clauses := TermClauses(Cnf, terms);
    assert clauses == [[x], [y], [x]];
    assert ElementSet([x]) == {x} && ElementSet([y]) == {y};
    assert SetAbsorbs(clauses, 0, 2) && NoneAbsorbs(clauses, 1) && NoneAbsorbs(clauses, 2);
    LeafSurvivors(clauses, [1, 2]);
    AbsorbOnce(Cnf, terms, false, [1, 2]);
    assert Select(clauses, [1, 2]) == [[y], [x]];
    assert Built(Cnf, [[y], [x]]) == [y, x];
    FromRule(And(terms, false), false, And([y, x], false));
    LeavesSettled(Cnf, [y, x], false);
    ToEnd(And([y, x], false), false);
  }

  /** The first of two equal terms is absorbed, and the atomic root with it. */
  lemma SimplifyAtomicRoot()
    ensures Simplify(And([P, P], true), false) == P
  {
    hide Simplify, ApplyRules, DefaultRules, Survivors;
    var root := And([P, P], true);
    LeafSettled(0, Eq);
    AllSettledIff([P, P]);
    FromChildren(root, false);
    var clauses := TermClauses(Cnf, [P, P]);
    assert clauses == [[P], [P]];
    assert SetAbsorbs(clauses, 0, 1) && NoneAbsorbs(clauses, 1);
    LeafSurvivors(clauses, [1]);
    AbsorbOnce(Cnf, [P, P], true, [1]);
    assert Select(clauses, [1]) == [[P]];
    FromRule(root, false, P);
  }

  lemma OrFalse(x: Pred)
    requires x.Leaf?
    ensures Simplify(Or([x, Const(FALSE)], false), false) == x
  {
    hide Simplify, ApplyRules, AbsorbRule;
    var terms := [x, Const(FALSE)];
    LeafSettled(x.name, x.cmp);
    assert Settled(Const(FALSE));
    AllSettledIff(terms);
    FromChildren(Or(terms, false), false);
    assert terms[..1] == [x] && [x][..0] == [] && terms[1] == Const(FALSE);
    assert Keep(terms, FALSE) == Keep([x], FALSE) == [x];
    FromRule(Or(terms, false), false, x);
  }

  lemma PreserveAtomicity()
    ensures Simplify(And([Or([P, Const(FALSE)], false), Q], true), false) == And([P, Q], true)
  {
    hide Simplify, ApplyRules, DefaultRules;
    OrFalse(P);
    LeafSettled(1, Eq);
    WithSimplified(And([Or([P, Const(FALSE)], false), Q], true), [P, Q], false);
    LeavesSettled(Cnf, [P, Q], true);
    ToEnd(And([P, Q], true), false);
  }

  lemma NotLeaf(n: int)
    ensures Simplify(Not(Leaf(n, Eq), false), false) == Leaf(n, Ne)
  {
    hide Simplify, ApplyRules;
    LeafSettled(n, Eq);
    LeafSettled(n, Ne);
    FromChildren(Not(Leaf(n, Eq), false), false);
    FromRule(Not(Leaf(n, Eq), false), false, Leaf(n, Ne));
  }

  lemma DeMorganAtomicChild()
    ensures Simplify(Not(And([P, Q], true), false), false) ==
            Or([Simplify(Not(P, false), false), Simplify(Not(Q, false), false)], false)
  {
    hide Simplify, ApplyRules, AbsorbRule, ConstantRule;
    var root, next := Not(And([P, Q], true), false), Or([Not(P, false), Not(Q, false)], false);
    LeavesSettled(Cnf, [P, Q], true);
    FromChildren(root, false);
    assert NotEach([P, Q]) == next.children;
    FromRoot(root, false, next);
    NegatedPair(next);
  }

  lemma NegatedPair(next: Pred)
    requires next == Or([Not(P, false), Not(Q, false)], false)
    ensures Simplify(next, false) == Or([Simplify(Not(P, false), false), Simplify(Not(Q, false), false)], false)
  {
    hide Simplify, ApplyRules, DefaultRules;
    NotLeaf(0);
    NotLeaf(1);
    WithSimplified(next, [Leaf(0, Ne), Leaf(1, Ne)], false);
    LeavesSettled(Dnf, [Leaf(0, Ne), Leaf(1, Ne)], false);
    ToEnd(Or([Leaf(0, Ne), Leaf(1, Ne)], false), false);
  }

  /** An atomic root with nothing to simplify is not distributed. */
  lemma NormalizeRootOnly()
    ensures var root := And([P, And([Or([Q, R], false), S], false)], true); Simplify(root, true) == root
  {
    hide Simplify, Settled;
    InnerSettled();
    OuterSettled(P, And([Or([Q, R], false), S], false), true);
    AtomicRootKept(And([P, And([Or([Q, R], false), S], false)], true));
  }

  lemma InnerClauses()
    ensures TermClauses(Cnf, [Or([Q, R], false), S]) == [[Q, R], [S]]
  {
    hide Dedup;
    LeavesDedup([Q, R]);
  }

  lemma InnerSurvivors()
    ensures Survivors([[Q, R], [S]]) == [0, 1]
  {
    hide Survivors, ElementSet;
    var clauses := [[Q, R], [S]];
    ThreeSets(Q, R, R);
    SingleSet(S);
    assert NoneAbsorbs(clauses, 0) && NoneAbsorbs(clauses, 1);
    LeafSurvivors(clauses, [0, 1]);
  }

  lemma InnerSettled()
    ensures Settled(And([Or([Q, R], false), S], false))
  {
    hide Survivors, DefaultRules, TermClauses;
    var terms := [Or([Q, R], false), S];
    LeafSettled(3, Eq);
    LeavesSettled(Dnf, [Q, R], false);
    InnerClauses();
    InnerSurvivors();
    Absorbed(Cnf, terms, false);
    AllSettledIff(terms);
  }

  lemma OuterSettled(x: Pred, inner: Pred, atomic: bool)
    requires x.Leaf? && inner.And? && Settled(inner)
    ensures Settled(And([x, inner], atomic))
  {
    hide Survivors, PredEq, Found, DefaultRules;
    LeafSettled(x.name, x.cmp);
    var terms := [x, inner];
    var clauses := TermClauses(Cnf, terms);
    assert clauses == [[x], [inner]];
    assert !PredEq(inner, x) by { DifferentKinds(inner, x); }
    FoundIff(inner, [x]);
    EachFoundIff([inner], [x]);
    assert !Absorbs(clauses, 0, 1);
    assert Survives(clauses, 0) && Survives(clauses, 1);
    SurvivorsAre(clauses, [0, 1]);
    Absorbed(Cnf, terms, atomic);
    AllSettledIff(terms);
  }

  lemma DifferentKinds(inner: Pred, x: Pred)
    requires x.Leaf? && inner.And?
    ensures !PredEq(inner, x)
  {
  }

  /** The absorbed conjunct loses its atomicity before the disjunctions are distributed. */
  lemma ChildrenBeforeDistribution()
    ensures Simplify(And([Or([And([P, Q], true), And([P, Q, R], false)], false), Or([S, T], false)], false), true)
         == Or([And([P, Q, S], false), And([P, Q, T], false)], false)
  {
    hide Simplify, ApplyRules, DefaultRules, Survivors, ToNormalized, ElementSet;
    var first, second := Or([And([P, Q], true), And([P, Q, R], false)], false), Or([S, T], false);
    FirstAbsorbed();
    LeavesSettled(Dnf, [S, T], false);
    ToEnd(second, false);
    var and := And([And([P, Q], false), second], false);
    WithSimplified(And([first, second], false), [And([P, Q], false), second], true);
    DistributedPair();
    var clauses := [[P, Q, S], [P, Q, T]];
    Distributed(and, clauses);
    assert Built(Dnf, clauses) == [And([P, Q, S], false), And([P, Q, T], false)];
    ThreeSets(P, Q, S);
    ThreeSets(P, Q, T);
    assert NoneAbsorbs(clauses, 0) && NoneAbsorbs(clauses, 1);
    DnfFinal(clauses);
    ToEnd(Rebuild(Dnf, clauses), true);
  }

  lemma ThreeSets(x: Pred, y: Pred, z: Pred)
    ensures ElementSet([x, y, z]) == {x, y, z} && ElementSet([x, y]) == {x, y}
  {
  }

  lemma FirstAbsorbed()
    ensures Simplify(Or([And([P, Q], true), And([P, Q, R], false)], false), false) == And([P, Q], false)
  {
    hide Simplify, ApplyRules, DefaultRules, Survivors, ElementSet, TermClauses;
    var terms := [And([P, Q], true), And([P, Q, R], false)];
    LeavesSettled(Cnf, [P, Q], true);
    LeavesSettled(Cnf, [P, Q, R], false);
    AllSettledIff(terms);
    FromChildren(Or(terms, false), false);
    var clauses := [[P, Q], [P, Q, R]];
    assert TermClauses(Dnf, terms) == clauses by { LeavesDedup([P, Q]); LeavesDedup([P, Q, R]); }
    ThreeSets(P, Q, R);
    assert SetAbsorbs(clauses, 1, 0) && NoneAbsorbs(clauses, 0);
    LeafSurvivors(clauses, [0]);
    AbsorbOnce(Dnf, terms, false, [0]);
    assert Select(clauses, [0]) == [[P, Q]];
    FromRule(Or(terms, false), false, And([P, Q], false));
    LeavesSettled(Cnf, [P, Q], false);
    ToEnd(And([P, Q], false), false);
  }

  lemma DistributedPair()
    ensures ToNormalized(And([And([P, Q], false), Or([S, T], false)], false), false, Dnf) == [[P, Q, S], [P, Q, T]]
    ensures !IsInNormalForm(And([And([P, Q], false), Or([S, T], false)], false), Dnf)
  {
    hide ToNormalized, Minors, Cross, IsInNormalForm;
    var a, b := And([P, Q], false), Or([S, T], false);
    TwoLeaves(P, Q);
    TwoLeaves(S, T);
    OneFactor(a);
    MoreFactors([a], b);
    assert [a] + [b] == [a, b];
    TwoRights([[P, Q]], [S], [T]);
    assert [P, Q] + [S] == [P, Q, S] && [P, Q] + [T] == [P, Q, T];
    assert AppendEach([[P, Q]], [S]) == [[P, Q, S]] && AppendEach([[P, Q]], [T]) == [[P, Q, T]];
    OfAnd([a, b]);
    ToDistribute([a, b], 1);
  }

  /** Absorption opens an atomic disjunction, which is then distributed after all. */
  lemma RedistributeAfterAbsorption()
    ensures Simplify(And([Or([P, Q], true), Or([R, S], true), P], false), true)
         == Or([And([R, P], false), And([S, P], false)], false)
  {
    hide Simplify, ApplyRules, DefaultRules, Survivors, ToNormalized, ElementSet;
    var root, next := And([Or([P, Q], true), Or([R, S], true), P], false), And([Or([R, S], false), P], false);
    AtomsAbsorbed();
    FromRule(root, true, next);
    OpenedPair();
    var clauses := [[R, P], [S, P]];
    Distributed(next, clauses);
    assert Built(Dnf, clauses) == [And([R, P], false), And([S, P], false)];
    ThreeSets(R, P, P);
    ThreeSets(S, P, P);
    assert NoneAbsorbs(clauses, 0) && NoneAbsorbs(clauses, 1);
    DnfFinal(clauses);
    ToEnd(Rebuild(Dnf, clauses), true);
  }

  lemma AtomsSettled()
    ensures AllSettled([Or([P, Q], true), Or([R, S], true), P])
  {
    hide DefaultRules;
    LeavesSettled(Dnf, [P, Q], true);
    LeavesSettled(Dnf, [R, S], true);
    LeafSettled(0, Eq);
    AllSettledIff([Or([P, Q], true), Or([R, S], true), P]);
  }

  lemma AtomClauses()
    ensures TermClauses(Cnf, [Or([P, Q], true), Or([R, S], true), P]) == [[P, Q], [R, S], [P]]
  {
    hide Dedup;
    LeavesDedup([P, Q]);
    LeavesDedup([R, S]);
  }

  lemma AtomSurvivors()
    ensures Survivors([[P, Q], [R, S], [P]]) == [1, 2]
  {
    hide Survivors, ElementSet;
    var clauses := [[P, Q], [R, S], [P]];
    ThreeSets(P, Q, Q);
    ThreeSets(R, S, S);
    SingleSet(P);
    assert SetAbsorbs(clauses, 0, 2);
    assert NoneAbsorbs(clauses, 1);
    assert NoneAbsorbs(clauses, 2);
    LeafSurvivors(clauses, [1, 2]);
  }

  lemma AtomsAbsorbed()
    ensures var root := And([Or([P, Q], true), Or([R, S], true), P], false);
      Simplify(root, true) == ApplyRules(root, true)
      && ApplyOnce(root, true) == Replaced(And([Or([R, S], false), P], false), false)
  {
    hide Simplify, ApplyRules, DefaultRules, Survivors, IsInNormalForm, TermClauses, AllSettled;
    var terms := [Or([P, Q], true), Or([R, S], true), P];
    AtomsNormal();
    AtomsSettled();
    FromChildren(And(terms, false), true);
    AtomClauses();
    AtomSurvivors();
    AbsorbOnce(Cnf, terms, false, [1, 2]);
    assert Select([[P, Q], [R, S], [P]], [1, 2]) == [[R, S], [P]];
    assert Built(Cnf, [[R, S], [P]]) == [Or([R, S], false), P];
  }

  lemma AtomsNormal()
    ensures IsInNormalForm(And([Or([P, Q], true), Or([R, S], true), P], false), Dnf)
  {
  }

  lemma SingleSet(x: Pred)
    ensures ElementSet([x]) == {x}
  {
  }

  lemma OpenedPair()
    ensures ToNormalized(And([Or([R, S], false), P], false), false, Dnf) == [[R, P], [S, P]]
    ensures !IsInNormalForm(And([Or([R, S], false), P], false), Dnf)
  {
    hide ToNormalized, Minors, Cross, IsInNormalForm;
    var a := Or([R, S], false);
    TwoLeaves(R, S);
    OneLeaf(P);
    OneFactor(a);
    MoreFactors([a], P);
    assert [a] + [P] == [a, P];
    OneRight([[R], [S]], [P]);
    assert [R] + [P] == [R, P] && [S] + [P] == [S, P];
    assert AppendEach([[R], [S]], [P]) == [[R, P], [S, P]];
    OfAnd([a, P]);
    ToDistribute([a, P], 0);
  }

  // ---------------------------------------------------------------- the repeated factor

  /** What distribution builds from (p or u) and (q or v) and (p or w). */
  const BUILT: seq<Clause> :=
    [[P, Q, P], [U, Q, P], [P, V, P], [U, V, P], [P, Q, W], [U, Q, W], [P, V, W], [U, V, W]]

  /** The same clauses with each predicate at its last position. */
  const LASTS: seq<Clause> :=
    [[Q, P], [U, Q, P], [V, P], [U, V, P], [P, Q, W], [U, Q, W], [P, V, W], [U, V, W]]

  const FACTORS: seq<Pred> := [Or([P, U], false), Or([Q, V], false), Or([P, W], false)]

  lemma AppendPair(x: Pred, y: Pred, z: Pred)
    ensures AppendEach([[x], [y]], [z]) == [[x, z], [y, z]]
  {
    assert [x] + [z] == [x, z] && [y] + [z] == [y, z];
  }

  lemma AppendFour(cs: seq<Clause>, z: Pred)
    requires |cs| == 4 && forall i :: 0 <= i < 4 ==> |cs[i]| == 2
    ensures AppendEach(cs, [z]) ==
            [[cs[0][0], cs[0][1], z], [cs[1][0], cs[1][1], z], [cs[2][0], cs[2][1], z], [cs[3][0], cs[3][1], z]]
  {
    forall i | 0 <= i < 4 ensures cs[i] + [z] == [cs[i][0], cs[i][1], z] { }
  }

  lemma FactorsDistributed()
    ensures ToNormalized(And(FACTORS, false), false, Dnf) == BUILT && !IsInNormalForm(And(FACTORS, false), Dnf)
  {
    hide ToNormalized, Minors, Cross, IsInNormalForm;
    var a, b, c := FACTORS[0], FACTORS[1], FACTORS[2];
    TwoLeaves(P, U);
    TwoLeaves(Q, V);
    TwoLeaves(P, W);
    OneFactor(a);
    MoreFactors([a], b);
    TwoRights([[P], [U]], [Q], [V]);
    var four := [[P, Q], [U, Q], [P, V], [U, V]];
    AppendPair(P, U, Q);
    AppendPair(P, U, V);
    assert [a] + [b] == [a, b] && [a, b] + [c] == FACTORS;
    assert Minors([a, b], false, Dnf) == [[P, Q], [U, Q]] + [[P, V], [U, V]] == four;
    MoreFactors([a, b], c);
    TwoRights(four, [P], [W]);
    AppendFour(four, P);
    AppendFour(four, W);
    assert AppendEach(four, [P]) + AppendEach(four, [W]) == BUILT;
    OfAnd(FACTORS);
    ToDistribute(FACTORS, 0);
  }

  lemma AndUnchanged(c: Clause)
    requires Leaves(c) && Distinct(c)
    ensures Simplify(And(c, false), false) == And(c, false)
  {
    hide Simplify, ApplyRules;
    LeavesSettled(Cnf, c, false);
    ToEnd(And(c, false), false);
  }

  lemma TermAtLast(i: nat)
    requires i < 8
    ensures Simplify(And(BUILT[i], false), false) == And(LASTS[i], false)
  {
    hide Simplify;
    if i == 0 {
      LastPosition(P, Q);
    } else if i == 2 {
      LastPosition(P, V);
    } else {
      assert Leaves(BUILT[i]) && Distinct(BUILT[i]) && BUILT[i] == LASTS[i];
      AndUnchanged(BUILT[i]);
    }
  }

  lemma TermsAtLast()
    ensures Simplify(Rebuild(Dnf, BUILT), true) == ApplyRules(Or(Built(Dnf, LASTS), false), true)
  {
    hide Simplify, ApplyRules;
    var before, after := Or(Built(Dnf, BUILT), false), Built(Dnf, LASTS);
    forall i | 0 <= i < 8 ensures after[i] == Simplify(before.children[i], false) { TermAtLast(i); }
    WithSimplified(before, after, true);
  }

  /** Which of the clauses contain a smaller one. */
  lemma SetsOfLasts(i: nat)
    requires i < 8
    ensures ElementSet(LASTS[i]) == [{Q, P}, {U, Q, P}, {V, P}, {U, V, P}, {P, Q, W}, {U, Q, W}, {P, V, W}, {U, V, W}][i]
  {
    if |LASTS[i]| == 3 {
      ThreeSets(LASTS[i][0], LASTS[i][1], LASTS[i][2]);
      assert LASTS[i] == [LASTS[i][0], LASTS[i][1], LASTS[i][2]];
    } else {
      ThreeSets(LASTS[i][0], LASTS[i][1], P);
      assert LASTS[i] == [LASTS[i][0], LASTS[i][1]];
    }
  }

  lemma LastsAbsorbed(i: nat)
    requires i < 8
    ensures NoneAbsorbs(LASTS, i) <==> i in [0, 2, 5, 7]
  {
    hide ElementSet;
    forall j | 0 <= j < 8
      ensures ElementSet(LASTS[j]) == [{Q, P}, {U, Q, P}, {V, P}, {U, V, P}, {P, Q, W}, {U, Q, W}, {P, V, W}, {U, V, W}][j]
    {
      SetsOfLasts(j);
    }
    if i == 1 || i == 4 { assert SetAbsorbs(LASTS, i, 0); }
    if i == 3 || i == 6 { assert SetAbsorbs(LASTS, i, 2); }
  }

  /** Repeated predicates keep their last position, and absorption drops four of the eight terms. */
  lemma LastDuplicatePosition()
    ensures Simplify(And(FACTORS, false), true) ==
            Or([And([Q, P], false), And([V, P], false), And([U, Q, W], false), And([U, V, W], false)], false)
  {
    hide Simplify, ApplyRules, ToNormalized, IsInNormalForm, NoneAbsorbs, ElementSet, Rebuild;
    LeavesSettled(Dnf, [P, U], false);
    LeavesSettled(Dnf, [Q, V], false);
    LeavesSettled(Dnf, [P, W], false);
    AllSettledIff(FACTORS);
    FromChildren(And(FACTORS, false), true);
    FactorsDistributed();
    Distributed(And(FACTORS, false), BUILT);
    TermsAtLast();
    forall i: nat | i < |LASTS| ensures i in [0, 2, 5, 7] <==> NoneAbsorbs(LASTS, i) { LastsAbsorbed(i); }
    DnfAbsorbs(LASTS, [0, 2, 5, 7]);
    SurvivingTerms();
  }

  lemma SurvivingTerms()
    ensures var kept := Select(LASTS, [0, 2, 5, 7]);
      ApplyRules(Rebuild(Dnf, kept), true) == Rebuild(Dnf, kept)
      && Rebuild(Dnf, kept) == Or([And([Q, P], false), And([V, P], false), And([U, Q, W], false), And([U, V, W], false)], false)
  {
    hide ApplyRules, ElementSet;
    var kept := [[Q, P], [V, P], [U, Q, W], [U, V, W]];
    assert Select(LASTS, [0, 2, 5, 7]) == kept;
    assert Built(Dnf, kept) == [And([Q, P], false), And([V, P], false), And([U, Q, W], false), And([U, V, W], false)];
    ThreeSets(Q, P, P);
    ThreeSets(V, P, P);
    ThreeSets(U, Q, W);
    ThreeSets(U, V, W);
    forall i: nat | i < 4 ensures NoneAbsorbs(kept, i) { }
    DnfFinal(kept);
    ToEnd(Rebuild(Dnf, kept), true);
  }

  // ---------------------------------------------------------------- units and negations

  /** A connective of its unit and one operand is that operand, whatever it is. */
  lemma UnitDropped(m: Mode, x: Pred, atomic: bool)
    ensures Simplify(Connective(m, [Const(Unit(m)), x], atomic), false) == Simplify(x, false)
  {
    hide Simplify, ApplyRules, Final;
    var s := Simplify(x, false);
    SimplifyFinal(x, false);
    UnitSettled(Unit(m));
    WithSimplified(Connective(m, [Const(Unit(m)), x], atomic), [Const(Unit(m)), s], false);
    UnitRule(m, s, atomic);
    FromRule(Connective(m, [Const(Unit(m)), s], atomic), false, s);
    ToEnd(s, false);
  }

  lemma UnitSettled(value: Tri)
    ensures Simplify(Const(value), false) == Const(value)
  {
  }

  lemma UnitRule(m: Mode, s: Pred, atomic: bool)
    ensures ApplyOnce(Connective(m, [Const(Unit(m)), s], atomic), false) == Replaced(s, false)
  {
    hide AbsorbRule;
    var unit := Const(Unit(m));
    var cs := [unit, s];
    assert cs[..1] == [unit] && [unit][..0] == [] && cs[0] == unit && cs[1] == s;
    assert Keep([unit], Unit(m)) == [];
    assert Keep(cs, Unit(m)) == if s == unit then [] else [s];
    assert Const(Unit(Dual(m))) in cs <==> s == Const(Unit(Dual(m)));
  }

  const NP: Pred := Leaf(0, Ne)
  const NQ: Pred := Leaf(1, Ne)

  /** The negation of a negated comparison stays as it is. */
  lemma NotNegated(n: int)
    ensures Simplify(Not(Leaf(n, Ne), false), false) == Not(Leaf(n, Ne), false)
    ensures Settled(Not(Leaf(n, Ne), false))
  {
    LeafSettled(n, Ne);
    ToEnd(Not(Leaf(n, Ne), false), false);
  }

  lemma NegatedConjuncts()
    ensures Simplify(And([Not(P, false), Not(Q, false)], false), false) == And([NP, NQ], false)
  {
    hide Simplify, ApplyRules, DefaultRules;
    NotLeaf(0);
    NotLeaf(1);
    WithSimplified(And([Not(P, false), Not(Q, false)], false), [NP, NQ], false);
    LeavesSettled(Cnf, [NP, NQ], false);
    ToEnd(And([NP, NQ], false), false);
  }

  lemma NotOr(atomic: bool)
    ensures ApplyRules(Not(Or([P, Q], atomic), false), false) == And([NP, NQ], false)
  {
    hide Simplify, ApplyRules, AbsorbRule, ConstantRule;
    var next := And([Not(P, false), Not(Q, false)], false);
    assert NotEach([P, Q]) == next.children;
    FromRoot(Not(Or([P, Q], atomic), false), false, next);
    NegatedConjuncts();
  }

  lemma DefaultDeMorgan()
    ensures Simplify(Not(Or([P, Q], false), false), false) ==
            And([Simplify(Not(P, false), false), Simplify(Not(Q, false), false)], false)
  {
    hide Simplify, ApplyRules, DefaultRules;
    LeavesSettled(Dnf, [P, Q], false);
    FromChildren(Not(Or([P, Q], false), false), false);
    NotOr(false);
    NotLeaf(0);
    NotLeaf(1);
  }

  /** Nested connectives are not flattened. */
  lemma DefaultNestedConnective()
    ensures Simplify(And([P, And([Q, R], false)], false), false) == And([P, And([Q, R], false)], false)
  {
    hide Simplify, ApplyRules, DefaultRules;
    LeavesSettled(Cnf, [Q, R], false);
    OuterSettled(P, And([Q, R], false), false);
    ToEnd(And([P, And([Q, R], false)], false), false);
  }

  // ---------------------------------------------------------------- promoted atomic predicates

  datatype Kind = AndKind | OrKind | NotKind

  /** The atomic predicates that the examples promote to the root. */
  function AtomicFixed(kind: Kind): Pred {
    match kind
    case AndKind => And([Const(TRUE), P], true)
    case OrKind => Or([P, And([Const(TRUE), Q], false)], true)
    case NotKind => Not(And([Const(TRUE), P], false), true)
  }

  function Promoted(kind: Kind): Pred {
    match kind
    case AndKind => P
    case OrKind => Or([P, Q], true)
    case NotKind => NP
  }

  function DoublyNegated(kind: Kind): Pred {
    match kind
    case AndKind => Not(NP, false)
    case OrKind => Or([Not(NP, false), Not(NQ, false)], false)
    case NotKind => Not(Not(NP, false), false)
  }

  lemma FixedSimplified(kind: Kind)
    ensures Simplify(AtomicFixed(kind), false) == Promoted(kind)
  {
    hide Simplify, ApplyRules, AbsorbRule, ConstantRule;
    LeafSettled(0, Eq);
    LeafSettled(1, Eq);
    LeafSettled(0, Ne);
    UnitDropped(Cnf, P, true);
    UnitDropped(Cnf, P, false);
    UnitDropped(Cnf, Q, false);
    match kind
    case AndKind =>
    case OrKind =>
      WithSimplified(AtomicFixed(OrKind), [P, Q], false);
      LeavesSettled(Dnf, [P, Q], true);
      ToEnd(Or([P, Q], true), false);
    case NotKind =>
      WithSimplified(AtomicFixed(NotKind), [P], false);
      FromRule(Not(P, true), false, NP);
  }

  lemma PairOfNegations()
    ensures Simplify(Or([Not(NP, false), Not(NQ, false)], false), false) == Or([Not(NP, false), Not(NQ, false)], false)
  {
    hide Simplify, ApplyRules, DefaultRules, Survivors, TermClauses;
    var terms := [Not(NP, false), Not(NQ, false)];
    NotNegated(0);
    NotNegated(1);
    NegationClauses();
    Absorbed(Dnf, terms, false);
    AllSettledIff(terms);
    ToEnd(Or(terms, false), false);
  }

  lemma NegationClauses()
    ensures TermClauses(Dnf, [Not(NP, false), Not(NQ, false)]) == [[Not(NP, false)], [Not(NQ, false)]]
    ensures Survivors([[Not(NP, false)], [Not(NQ, false)]]) == [0, 1]
  {
    hide Survivors, Found;
    var clauses := [[Not(NP, false)], [Not(NQ, false)]];
    FoundIff(Not(NQ, false), clauses[0]);
    EachFoundIff(clauses[1], clauses[0]);
    assert !PredEq(NQ, NP);
    assert Survives(clauses, 0) && Survives(clauses, 1);
    SurvivorsAre(clauses, [0, 1]);
  }

  lemma OneNot(kind: Kind)
    ensures Simplify(Not(AtomicFixed(kind), false), false) ==
            match kind case AndKind => NP case OrKind => And([NP, NQ], false) case NotKind => Not(NP, false)
  {
    hide Simplify, ApplyRules, AbsorbRule, ConstantRule;
    FixedSimplified(kind);
    WithSimplified(Not(AtomicFixed(kind), false), [Promoted(kind)], false);
    LeafSettled(0, Ne);
    NotNegated(0);
    match kind
    case AndKind => FromRule(Not(P, false), false, NP);
    case OrKind => NotOr(true);
    case NotKind => ToEnd(Not(NP, false), false);
  }

  lemma NotOf(x: Pred, s: Pred)
    requires Simplify(x, false) == s
    ensures Simplify(Not(x, false), false) == ApplyRules(Not(s, false), false)
  {
    hide Simplify, ApplyRules;
    WithSimplified(Not(x, false), [s], false);
  }

  lemma NotAnd()
    ensures ApplyRules(Not(And([NP, NQ], false), false), false) == Or([Not(NP, false), Not(NQ, false)], false)
  {
    hide Simplify, ApplyRules, AbsorbRule, ConstantRule;
    var next := Or([Not(NP, false), Not(NQ, false)], false);
    assert NotEach([NP, NQ]) == next.children;
    FromRoot(Not(And([NP, NQ], false), false), false, next);
    PairOfNegations();
  }

  lemma NotNot()
    ensures ApplyRules(Not(NP, false), false) == Not(NP, false)
    ensures ApplyRules(Not(Not(NP, false), false), false) == Not(Not(NP, false), false)
  {
    hide Simplify, ApplyRules;
    NotNegated(0);
    ToEnd(Not(NP, false), false);
    ToEnd(Not(Not(NP, false), false), false);
  }

  lemma TwoNots(kind: Kind)
    ensures Simplify(Not(Not(AtomicFixed(kind), false), false), false) == DoublyNegated(kind)
  {
    hide Simplify, ApplyRules;
    OneNot(kind);
    NotAnd();
    NotNot();
    NotOf(Not(AtomicFixed(kind), false), Simplify(Not(AtomicFixed(kind), false), false));
  }

  /** The twelve examples: three kinds of atomic predicate, promoted by identities or under two negations. */
  lemma PromotedAtomic(kind: Kind)
    ensures var x := AtomicFixed(kind);
      && Simplify(And([Const(TRUE), x], false), false) == Promoted(kind)
      && Simplify(Or([Const(FALSE), x], false), false) == Promoted(kind)
      && Simplify(Not(Not(x, false), false), false) == DoublyNegated(kind)
      && Simplify(And([Const(TRUE), Or([Const(FALSE), x], false)], false), false) == Promoted(kind)
  {
    hide Simplify;
    var x := AtomicFixed(kind);
    FixedSimplified(kind);
    UnitDropped(Cnf, x, false);
    UnitDropped(Dnf, x, false);
    UnitDropped(Cnf, Or([Const(FALSE), x], false), false);
    TwoNots(kind);
  }
}
