/** Simplification of conjunctions of leaf disjunctions: every shape on the way, and every meaning. */
module ClausalShapes {
  import opened Predicates
  import opened NormalForm
  import opened Absorption
  import opened Normalizer
  import opened Weights
  import opened Simplifier
  import opened Simplification
  import opened Fixpoint
  import opened SharedSimplification
  import opened LeafClauses

  /** A leaf, or a minor connective of at least one leaf. */
  ghost predicate IsTerm(m: Mode, t: Pred) {
    t.Leaf? || (IsMinor(m, t) && !t.atomic && t.children != [] && Leaves(t.children))
  }

  /** A term, or a major connective of at least one term. */
  ghost predicate Clausal(m: Mode, p: Pred) {
    || IsTerm(m, p)
    || (IsMajor(m, p) && !p.atomic && p.children != [] && forall i :: 0 <= i < |p.children| ==> IsTerm(m, p.children[i]))
  }

  ghost predicate Either(p: Pred) { Clausal(Cnf, p) || Clausal(Dnf, p) }

  // ---------------------------------------------------------------- clauses

  /** At least one clause, each of at least one leaf. */
  ghost predicate LeafClauseList(clauses: seq<Clause>) {
    clauses != [] && forall i :: 0 <= i < |clauses| ==> clauses[i] != [] && Leaves(clauses[i])
  }

  lemma BuiltTerm(m: Mode, c: Clause)
    requires c != [] && Leaves(c)
    ensures IsTerm(m, Build(Dual(m), c))
  {
  }

  lemma RebuiltClausal(m: Mode, clauses: seq<Clause>)
    requires LeafClauseList(clauses)
    ensures Clausal(m, Rebuild(m, clauses))
  {
    var ts := Built(m, clauses);
    forall i | 0 <= i < |ts| ensures IsTerm(m, ts[i]) { BuiltTerm(m, clauses[i]); }
  }

  lemma SomeSurvivor(clauses: seq<Clause>)
    requires clauses != []
    ensures Survivors(clauses) != []
  {
    var s := SurvivorAbove(Dnf, clauses, 0, (n, c) => FALSE);
  }

  lemma KeptClauses(clauses: seq<Clause>)
    requires LeafClauseList(clauses)
    ensures LeafClauseList(Select(clauses, Survivors(clauses)))
  {
    SomeSurvivor(clauses);
  }

  /** Terms have clauses of leaves. */
  lemma ClausesOfTerms(m: Mode, terms: seq<Pred>)
    requires terms != [] && forall i :: 0 <= i < |terms| ==> IsTerm(m, terms[i])
    ensures LeafClauseList(TermClauses(m, terms))
  {
    var clauses := TermClauses(m, terms);
    forall i | 0 <= i < |clauses| ensures clauses[i] != [] && Leaves(clauses[i]) {
      if IsMinor(m, terms[i]) { DedupLeaves(terms[i].children); }
    }
  }

  lemma DedupLeaves(c: Clause)
    requires c != [] && Leaves(c)
    ensures Dedup(c) != [] && Leaves(Dedup(c))
  {
    hide Dedup, Found;
    DedupFacts(c);
    FoundIff(c[0], Dedup(c));
    forall i | 0 <= i < |Dedup(c)| ensures Dedup(c)[i].Leaf? {
      var j :| 0 <= j < |c| && c[j] == Dedup(c)[i];
    }
  }

  // ---------------------------------------------------------------- one rule

  /** The default rules turn a term into a term. */
  lemma TermRule(m: Mode, t: Pred, v: Valuation)
    requires IsTerm(m, t) && DefaultRules(t).Replaced?
    ensures IsTerm(m, DefaultRules(t).pred) && !DefaultRules(t).reExplore
    ensures Eval(DefaultRules(t).pred, v) == Eval(t, v)
  {
    hide SurvivorsBelow, Survives, Dedup;
    var d, cs := Dual(m), t.children;
    assert ConstantRule(d, cs).Unchanged?;
    AbsorbRuleMeaning(d, cs, v);
    var clauses := TermClauses(d, cs);
    assert forall i :: 0 <= i < |cs| ==> clauses[i] == [cs[i]];
    SomeSurvivor(clauses);
    var kept := Select(clauses, Survivors(clauses));
    SingleLeaves(d, kept);
  }

  lemma SingleLeaves(d: Mode, kept: seq<Clause>)
    requires kept != [] && forall i :: 0 <= i < |kept| ==> |kept[i]| == 1 && kept[i][0].Leaf?
    ensures IsTerm(Dual(d), Rebuild(d, kept))
  {
    assert Leaves(Built(d, kept));
  }

  /** And a clausal predicate into a clausal one. */
  lemma ClausalRule(m: Mode, p: Pred, v: Valuation)
    requires Clausal(m, p) && DefaultRules(p).Replaced?
    ensures Clausal(m, DefaultRules(p).pred) && !DefaultRules(p).reExplore
    ensures Eval(DefaultRules(p).pred, v) == Eval(p, v)
  {
    if IsTerm(m, p) {
      TermRule(m, p, v);
    } else {
      hide Survivors, TermClauses;
      assert ConstantRule(m, p.children).Unchanged?;
      AbsorbRuleMeaning(m, p.children, v);
      ClausesOfTerms(m, p.children);
      KeptClauses(TermClauses(m, p.children));
      RebuiltClausal(m, Select(TermClauses(m, p.children), Survivors(TermClauses(m, p.children))));
    }
  }

  // ---------------------------------------------------------------- distribution

  lemma {:induction false} LeafMajors(cs: Clause)
    requires Leaves(cs)
    ensures |Majors(cs, false, Dnf)| == |cs|
    ensures forall i :: 0 <= i < |cs| ==> Majors(cs, false, Dnf)[i] == [cs[i]]
  {
    if cs != [] {
      LeafMajors(cs[..|cs| - 1]);
      assert forall i :: 0 <= i < |cs| - 1 ==> cs[..|cs| - 1][i] == cs[i];
    }
  }

  lemma TermDistributed(t: Pred)
    requires IsTerm(Cnf, t)
    ensures LeafClauseList(ToNormalized(t, false, Dnf))
  {
    if t.Or? { LeafMajors(t.children); }
  }

  lemma {:induction false} CrossLeaves(lefts: seq<Clause>, rights: seq<Clause>)
    requires lefts != [] && LeafClauseList(rights) && forall i :: 0 <= i < |lefts| ==> Leaves(lefts[i])
    ensures LeafClauseList(Cross(lefts, rights))
  {
    var k := |rights| - 1;
    assert LeafClauseList(AppendEach(lefts, rights[k]));
    if k == 0 { assert rights[..0] == []; } else { CrossLeaves(lefts, rights[..k]); }
  }

  lemma {:induction false} TermsDistributed(cs: seq<Pred>)
    requires forall i :: 0 <= i < |cs| ==> IsTerm(Cnf, cs[i])
    ensures Minors(cs, false, Dnf) != []
    ensures forall i :: 0 <= i < |Minors(cs, false, Dnf)| ==> Leaves(Minors(cs, false, Dnf)[i])
    ensures cs != [] ==> LeafClauseList(Minors(cs, false, Dnf))
  {
    hide ToNormalized, Cross;
    if cs != [] {
      var k := |cs| - 1;
      TermsDistributed(cs[..k]);
      TermDistributed(cs[k]);
      CrossLeaves(Minors(cs[..k], false, Dnf), ToNormalized(cs[k], false, Dnf));
    }
  }

  /** Clausal predicates that are not in DNF are conjunctions of terms. */
  lemma WhatIsDistributed(p: Pred)
    requires Either(p) && !IsInNormalForm(p, Dnf)
    ensures p.And? && !p.atomic && p.children != [] && forall i :: 0 <= i < |p.children| ==> IsTerm(Cnf, p.children[i])
  {
  }

  lemma OneStepKept(p: Pred, dnf: bool, v: Valuation)
    requires Either(p) && ApplyOnce(p, dnf).Replaced?
    ensures Either(ApplyOnce(p, dnf).pred) && Eval(ApplyOnce(p, dnf).pred, v) == Eval(p, v)
  {
    hide DefaultRules, IsInNormalForm, ToNormalized, Minors, Eval, IsTerm;
    if dnf && Admits(p, DEFAULT_SIZE_LIMIT, Dnf) {
      WhatIsDistributed(p);
      OfAnd(p.children);
      TermsDistributed(p.children);
      RebuiltClausal(Dnf, ToNormalized(p, false, Dnf));
      NormalizedMeaning(p, false, Dnf, v);
      RebuildMeaning(Dnf, ToNormalized(p, false, Dnf), v);
    } else if Clausal(Cnf, p) {
      ClausalRule(Cnf, p, v);
    } else {
      ClausalRule(Dnf, p, v);
    }
  }

  // ---------------------------------------------------------------- whole simplifications

  lemma LeavesAllSettled(cs: Clause)
    requires Leaves(cs)
    ensures AllSettled(cs)
  {
    AllSettledIff(cs);
  }

  lemma {:induction false} TermRules(m: Mode, t: Pred, v: Valuation)
    requires IsTerm(m, t)
    ensures IsTerm(m, ApplyRules(t, false)) && Eval(ApplyRules(t, false), v) == Eval(t, v)
    decreases Weight(t)
  {
    hide DefaultRules, Weight, Eval, IsTerm;
    DefaultRulesWeight(t);
    assert ApplyOnce(t, false) == DefaultRules(t);
    if DefaultRules(t).Replaced? {
      TermRule(m, t, v);
      FromRule(t, false, DefaultRules(t).pred);
      TermRules(m, DefaultRules(t).pred, v);
    }
  }

  /** A term simplifies to a term of the same meaning, under every valuation. */
  lemma TermSimplified(m: Mode, t: Pred, v: Valuation)
    requires IsTerm(m, t)
    ensures IsTerm(m, Simplify(t, false)) && Eval(Simplify(t, false), v) == Eval(t, v)
  {
    hide Simplify, ApplyRules, Eval;
    if !t.Leaf? { LeavesAllSettled(t.children); }
    FromChildren(t, false);
    TermRules(m, t, v);
  }

  lemma ClausalChildren(m: Mode, p: Pred, v: Valuation)
    requires Clausal(m, p)
    ensures Clausal(m, SimplifyChildren(p)) && Eval(SimplifyChildren(p), v) == Eval(p, v)
  {
    hide Simplify, SimplifyChildren, IsTerm;
    if IsTerm(m, p) {
      TermChildren(m, p);
    } else {
      var ds := seq(|p.children|, i requires 0 <= i < |p.children| => Simplify(p.children[i], false));
      forall i | 0 <= i < |ds| ensures IsTerm(m, ds[i]) && Eval(ds[i], v) == Eval(p.children[i], v) {
        TermSimplified(m, p.children[i], v);
      }
      ReplacedChildren(p, ds);
      SameMeanings(m, ds, p.children, v);
    }
  }

  lemma TermChildren(m: Mode, t: Pred)
    requires IsTerm(m, t)
    ensures SimplifyChildren(t) == t
  {
    hide SimplifyChildren;
    if !t.Leaf? { LeavesAllSettled(t.children); }
    SettledUnchanged(t);
  }

  lemma ChildrenKept(p: Pred, v: Valuation)
    requires Either(p)
    ensures Either(SimplifyChildren(p)) && Eval(SimplifyChildren(p), v) == Eval(p, v)
  {
    hide SimplifyChildren, Clausal, Eval;
    if Clausal(Cnf, p) { ClausalChildren(Cnf, p, v); } else { ClausalChildren(Dnf, p, v); }
  }

  /** A clausal predicate simplifies to a clausal one of the same meaning, under every valuation. */
  lemma {:induction false} SimplifiedEither(p: Pred, dnf: bool, v: Valuation)
    requires Either(p)
    ensures Either(Simplify(p, dnf)) && Eval(Simplify(p, dnf), v) == Eval(p, v)
    decreases Weight(p), Flag(p, dnf), 3
  {
    hide Weight, ApplyOnce, Flag, Either, Eval;
    ChildrenKept(p, v);
    RulesKept(SimplifyChildren(p), dnf, v);
  }

  lemma {:induction false} RulesKept(p: Pred, dnf: bool, v: Valuation)
    requires Either(p)
    ensures Either(ApplyRules(p, dnf)) && Eval(ApplyRules(p, dnf), v) == Eval(p, v)
    decreases Weight(p), Flag(p, dnf), 1
  {
    hide Weight, ApplyOnce, Flag, Either, Eval;
    ApplyOnceLighter(p, dnf);
    match ApplyOnce(p, dnf)
    case Unchanged =>
    case Replaced(q, reExplore) =>
      OneStepKept(p, dnf, v);
      if reExplore { SimplifiedEither(q, dnf, v); } else { RulesKept(q, dnf, v); }
  }
}
