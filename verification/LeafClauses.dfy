/** Steps of a simplification, and what they do to clauses of leaves. */
module LeafClauses {
  import opened Sequences
  import opened Predicates
  import opened NormalForm
  import opened NormalFormSize
  import opened Absorption
  import opened Normalizer
  import opened Simplifier
  import opened Simplification
  import opened Fixpoint
  import opened SharedSimplification

  // ---------------------------------------------------------------- clauses of leaves

  ghost predicate Leaves(c: Clause) { forall i :: 0 <= i < |c| ==> c[i].Leaf? }

  /** A leaf equals nothing but itself. */
  lemma FoundLeaf(x: Pred, c: Clause)
    requires x.Leaf?
    ensures Found(x, c) <==> x in c
  {
    FoundIff(x, c);
    PredEqReflexive(x);
  }

  lemma FoundLeaves(a: Clause, b: Clause)
    requires Leaves(a)
    ensures EachFound(a, b) <==> ElementSet(a) <= ElementSet(b)
  {
    hide Found, EachFound;
    EachFoundIff(a, b);
    forall i | 0 <= i < |a| ensures Found(a[i], b) <==> a[i] in b { FoundLeaf(a[i], b); }
    assert forall i :: 0 <= i < |a| ==> a[i] in ElementSet(a);
  }

  lemma {:induction false} SurvivorsIncreasing(clauses: seq<Clause>, k: nat)
    requires k <= |clauses|
    ensures Increasing(SurvivorsBelow(clauses, k))
  {
    hide Survives;
    if k > 0 { SurvivorsIncreasing(clauses, k - 1); }
  }

  /** The survivors, from which positions survive. */
  lemma SurvivorsAre(clauses: seq<Clause>, expected: seq<nat>)
    requires Increasing(expected)
    requires forall i :: i in expected ==> i < |clauses|
    requires forall i: nat :: i < |clauses| ==> (i in expected <==> Survives(clauses, i))
    ensures Survivors(clauses) == expected
  {
    hide Survives;
    SurvivorsIncreasing(clauses, |clauses|);
    var s := Survivors(clauses);
    forall i: nat ensures i in s <==> i in expected {
      if i in s { var j :| 0 <= j < |s| && s[j] == i; }
    }
    IncreasingUnique(s, expected);
  }

  // ---------------------------------------------------------------- connectives of different leaves

  /** A connective of different leaves has nothing to simplify. */
  lemma LeavesSettled(m: Mode, cs: Clause, atomic: bool)
    requires Leaves(cs) && Distinct(cs)
    ensures Settled(if m.Cnf? then And(cs, atomic) else Or(cs, atomic))
  {
    var clauses := TermClauses(m, cs);
    forall i, j | 0 <= i < |cs| && 0 <= j < |cs| ensures !Absorbs(clauses, i, j) {
      FoundLeaves([cs[j]], [cs[i]]);
      assert cs[j] in ElementSet([cs[j]]);
    }
    assert AbsorbRule(m, cs).Unchanged?;
    AllSettledIff(cs);
  }

  /** Absorption between clauses of leaves, as set inclusion. */
  ghost predicate SetAbsorbs(clauses: seq<Clause>, i: nat, j: nat)
    requires i < |clauses| && j < |clauses|
  {
    && i != j
    && (|clauses[i]| > |clauses[j]| || (|clauses[i]| == |clauses[j]| && i < j))
    && ElementSet(clauses[j]) <= ElementSet(clauses[i])
  }

  ghost predicate NoneAbsorbs(clauses: seq<Clause>, i: nat)
    requires i < |clauses|
  {
    forall j :: 0 <= j < |clauses| ==> !SetAbsorbs(clauses, i, j)
  }

  lemma LeafSurvivors(clauses: seq<Clause>, expected: seq<nat>)
    requires forall i :: 0 <= i < |clauses| ==> Leaves(clauses[i])
    requires Increasing(expected) && forall i :: i in expected ==> i < |clauses|
    requires forall i: nat :: i < |clauses| ==> (i in expected <==> NoneAbsorbs(clauses, i))
    ensures Survivors(clauses) == expected
  {
    hide EachFound, ElementSet, Leaves;
    forall i: nat | i < |clauses| ensures Survives(clauses, i) <==> NoneAbsorbs(clauses, i) {
      forall j | 0 <= j < |clauses| ensures Absorbs(clauses, i, j) <==> SetAbsorbs(clauses, i, j) {
        FoundLeaves(clauses[j], clauses[i]);
      }
    }
    SurvivorsAre(clauses, expected);
  }

  // ---------------------------------------------------------------- steps of a simplification

  function Connective(m: Mode, cs: seq<Pred>, atomic: bool): Pred { if m.Cnf? then And(cs, atomic) else Or(cs, atomic) }

  /** Visiting settled children changes nothing. */
  lemma FromChildren(p: Pred, dnf: bool)
    requires ChildrenSettled(p)
    ensures Simplify(p, dnf) == ApplyRules(p, dnf)
  {
    SettledUnchanged(p);
  }

  lemma FromRule(p: Pred, dnf: bool, q: Pred)
    requires ApplyOnce(p, dnf) == Replaced(q, false)
    ensures ApplyRules(p, dnf) == ApplyRules(q, dnf)
  {
    hide ApplyOnce;
  }

  lemma FromRoot(p: Pred, dnf: bool, q: Pred)
    requires ApplyOnce(p, dnf) == Replaced(q, true)
    ensures ApplyRules(p, dnf) == Simplify(q, dnf)
  {
    hide ApplyOnce, Simplify;
  }

  lemma ToEnd(p: Pred, dnf: bool)
    requires Final(p, dnf)
    ensures ApplyRules(p, dnf) == p && Simplify(p, dnf) == p
  {
    FinalUnchanged(p, dnf);
    hide ApplyOnce;
  }

  /** Without constants, absorption is the first rule of a connective. */
  lemma AbsorbOnce(m: Mode, terms: seq<Pred>, atomic: bool, survivors: seq<nat>)
    requires forall i :: 0 <= i < |terms| ==> !terms[i].Const?
    requires Survivors(TermClauses(m, terms)) == survivors && |survivors| < |terms|
    ensures forall i :: i in survivors ==> i < |terms|
    ensures DefaultRules(Connective(m, terms, atomic)) ==
            Replaced(Rebuild(m, Select(TermClauses(m, terms), survivors)), false)
  {
    hide Survives;
    assert ConstantRule(m, terms).Unchanged?;
  }

  lemma Absorbed(m: Mode, terms: seq<Pred>, atomic: bool)
    requires forall i :: 0 <= i < |terms| ==> !terms[i].Const?
    requires |Survivors(TermClauses(m, terms))| == |terms|
    ensures DefaultRules(Connective(m, terms, atomic)).Unchanged?
  {
    hide Survivors;
    assert ConstantRule(m, terms).Unchanged?;
  }

  lemma LeafSettled(n: int, c: Comparison)
    ensures Settled(Leaf(n, c)) && Simplify(Leaf(n, c), false) == Leaf(n, c) == ApplyRules(Leaf(n, c), false)
  {
    ToEnd(Leaf(n, c), false);
  }

  /** Simplifying the children first, when their simplifications are known. */
  lemma WithSimplified(p: Pred, ds: seq<Pred>, dnf: bool)
    requires |ds| == |Children(p)| && forall i :: 0 <= i < |ds| ==> ds[i] == Simplify(Children(p)[i], false)
    ensures Simplify(p, dnf) == ApplyRules(WithChildren(p, ds), dnf)
  {
    ReplacedChildren(p, ds);
    hide ApplyRules, SimplifyChildren;
  }

  // ---------------------------------------------------------------- disjunctions of clauses of leaves

  /** Each clause holds at least two different leaves. */
  ghost predicate Proper(clauses: seq<Clause>) {
    forall i :: 0 <= i < |clauses| ==> |clauses[i]| >= 2 && Leaves(clauses[i]) && Distinct(clauses[i])
  }

  lemma LeavesDedup(c: Clause)
    requires Leaves(c) && Distinct(c)
    ensures Dedup(c) == c
  {
    forall i, j | 0 <= i < j < |c| ensures !PredEq(c[j], c[i]) { }
    DedupOfDistinct(c);
  }

  lemma TermsOfClauses(clauses: seq<Clause>)
    requires Proper(clauses)
    ensures TermClauses(Dnf, Built(Dnf, clauses)) == clauses
  {
    var terms := Built(Dnf, clauses);
    forall i | 0 <= i < |clauses| ensures TermClauses(Dnf, terms)[i] == clauses[i] { LeavesDedup(clauses[i]); }
  }

  lemma DnfOfClauses(clauses: seq<Clause>)
    requires Proper(clauses) && |clauses| >= 2
    ensures Rebuild(Dnf, clauses) == Or(Built(Dnf, clauses), false) && IsInNormalForm(Rebuild(Dnf, clauses), Dnf)
    ensures AllSettled(Built(Dnf, clauses))
  {
    var terms := Built(Dnf, clauses);
    forall i | 0 <= i < |terms| ensures Settled(terms[i]) && terms[i] == And(clauses[i], false) {
      LeavesSettled(Cnf, clauses[i], false);
    }
    AllSettledIff(terms);
  }

  /** Clauses of which none contains another are final. */
  lemma DnfFinal(clauses: seq<Clause>)
    requires Proper(clauses) && |clauses| >= 2 && forall i: nat :: i < |clauses| ==> NoneAbsorbs(clauses, i)
    ensures Final(Rebuild(Dnf, clauses), true)
  {
    hide Survivors, NoneAbsorbs, DefaultRules, IsInNormalForm;
    var terms, all := Built(Dnf, clauses), seq(|clauses|, i => i);
    TermsOfClauses(clauses);
    DnfOfClauses(clauses);
    forall i: nat | i < |clauses| ensures i in all { assert all[i] == i; }
    LeafSurvivors(clauses, all);
    assert forall i :: 0 <= i < |terms| ==> terms[i].And?;
    Absorbed(Dnf, terms, false);
  }

  /** Otherwise absorption leaves the survivors. */
  lemma DnfAbsorbs(clauses: seq<Clause>, survivors: seq<nat>)
    requires Proper(clauses) && |clauses| >= 2 && |survivors| < |clauses|
    requires Increasing(survivors) && forall k :: 0 <= k < |survivors| ==> survivors[k] < |clauses|
    requires forall i: nat :: i < |clauses| ==> (i in survivors <==> NoneAbsorbs(clauses, i))
    ensures ApplyRules(Or(Built(Dnf, clauses), false), true) == ApplyRules(Rebuild(Dnf, Select(clauses, survivors)), true)
  {
    hide Survivors, NoneAbsorbs, DefaultRules, IsInNormalForm, ApplyRules;
    var terms := Built(Dnf, clauses);
    TermsOfClauses(clauses);
    DnfOfClauses(clauses);
    LeafSurvivors(clauses, survivors);
    assert forall i :: 0 <= i < |terms| ==> terms[i].And?;
    AbsorbOnce(Dnf, terms, false, survivors);
    FromRule(Or(terms, false), true, Rebuild(Dnf, Select(clauses, survivors)));
  }

  // ---------------------------------------------------------------- distribution

  lemma Distributed(p: Pred, clauses: seq<Clause>)
    requires ToNormalized(p, false, Dnf) == clauses && |clauses| <= DEFAULT_SIZE_LIMIT && !IsInNormalForm(p, Dnf)
    ensures ApplyRules(p, true) == Simplify(Rebuild(Dnf, clauses), true)
  {
    hide ToNormalized, IsInNormalForm, ExpansionSize, Simplify, ApplyRules, DefaultRules;
    GuardExact(p, Dnf, DEFAULT_SIZE_LIMIT);
    FromRoot(p, true, Rebuild(Dnf, clauses));
  }

  lemma OneRight(lefts: seq<Clause>, a: Clause)
    ensures Cross(lefts, [a]) == AppendEach(lefts, a)
  {
    assert [a][..0] == [];
  }

  lemma TwoRights(lefts: seq<Clause>, a: Clause, b: Clause)
    ensures Cross(lefts, [a, b]) == AppendEach(lefts, a) + AppendEach(lefts, b)
  {
    assert [a, b][..1] == [a];
    OneRight(lefts, a);
  }

  lemma OneLeaf(x: Pred)
    requires x.Leaf?
    ensures ToNormalized(x, false, Dnf) == [[x]]
  {
  }

  lemma OfAnd(cs: seq<Pred>)
    ensures ToNormalized(And(cs, false), false, Dnf) == Minors(cs, false, Dnf)
  {
  }

  lemma TwoLeaves(x: Pred, y: Pred)
    requires x.Leaf? && y.Leaf?
    ensures ToNormalized(Or([x, y], false), false, Dnf) == [[x], [y]]
    ensures ToNormalized(And([x, y], false), false, Dnf) == [[x, y]]
  {
    hide Minors, Cross;
    OneLeaf(x);
    OneLeaf(y);
    assert [x, y][..1] == [x] && [x][..0] == [];
    assert Majors([x], false, Dnf) == [[x]];
    OfAnd([x, y]);
    OneFactor(x);
    MoreFactors([x], y);
    assert [x] + [y] == [x, y];
    OneRight([[x]], [y]);
    assert AppendEach([[x]], [y]) == [[x, y]];
  }

  /** A conjunction with something to distribute is not in DNF. */
  lemma ToDistribute(cs: seq<Pred>, i: nat)
    requires i < |cs| && !IsLiteral(cs[i])
    ensures !IsInNormalForm(And(cs, false), Dnf)
  {
  }

  lemma OneFactor(a: Pred)
    ensures Minors([a], false, Dnf) == ToNormalized(a, false, Dnf)
  {
    assert [a][..0] == [];
    UnitCross(ToNormalized(a, false, Dnf));
  }

  lemma {:induction false} UnitCross(rights: seq<Clause>)
    ensures Cross([[]], rights) == rights
  {
    if rights != [] {
      var k := |rights| - 1;
      UnitCross(rights[..k]);
      assert [] + rights[k] == rights[k];
      assert AppendEach([[]], rights[k]) == [rights[k]];
      assert rights == rights[..k] + [rights[k]];
    }
  }

  lemma MoreFactors(cs: seq<Pred>, c: Pred)
    ensures Minors(cs + [c], false, Dnf) == Cross(Minors(cs, false, Dnf), ToNormalized(c, false, Dnf))
  {
    assert (cs + [c])[..|cs|] == cs;
  }
}
