/** Nothing is left to rewrite anywhere in a simplified predicate. */
module Fixpoint {
  import opened Sequences
  import opened Predicates
  import opened NormalForm
  import opened NormalFormSize
  import opened Absorption
  import opened Normalizer
  import opened Weights
  import opened Simplifier
  import opened Simplification

  /** No default rule applies at `p` or below it. */
  ghost predicate Settled(p: Pred)
    decreases p, 1
  {
    DefaultRules(p).Unchanged? && ChildrenSettled(p)
  }

  ghost predicate ChildrenSettled(p: Pred)
    decreases p, 0
  {
    match p
    case And(cs, _) => AllSettled(cs)
    case Or(cs, _) => AllSettled(cs)
    case Not(c, _) => Settled(c)
    case _ => true
  }

  ghost predicate AllSettled(cs: seq<Pred>)
    decreases cs
  {
    cs == [] || (AllSettled(cs[..|cs| - 1]) && Settled(cs[|cs| - 1]))
  }

  lemma {:induction false} AllSettledIff(cs: seq<Pred>)
    ensures AllSettled(cs) <==> forall i :: 0 <= i < |cs| ==> Settled(cs[i])
    decreases |cs|
  {
    if cs != [] {
      var init := cs[..|cs| - 1];
      AllSettledIff(init);
      assert forall i :: 0 <= i < |init| ==> init[i] == cs[i];
    }
  }

  // ---------------------------------------------------------------- rules that do not re-explore

  lemma {:induction false} KeepIsPart(ps: seq<Pred>, dropped: Tri)
    ensures forall i :: 0 <= i < |Keep(ps, dropped)| ==> Keep(ps, dropped)[i] in ps
  {
    if ps != [] { KeepIsPart(ps[..|ps| - 1], dropped); }
  }

  /** A connective built from settled parts has settled children. */
  lemma BuildSettled(m: Mode, ps: seq<Pred>)
    requires AllSettled(ps)
    ensures ChildrenSettled(Build(m, ps))
  {
    AllSettledIff(ps);
  }

  lemma ConstantSettled(value: Tri)
    ensures ChildrenSettled(Const(value))
  {
  }

  lemma ConstantRuleSettled(m: Mode, cs: seq<Pred>)
    requires AllSettled(cs)
    ensures ConstantRule(m, cs).Replaced? ==> ChildrenSettled(ConstantRule(m, cs).pred)
  {
    hide Keep, Build, Settled, ChildrenSettled;
    var kept := Keep(cs, Unit(m));
    AllSettledIff(cs);
    KeepIsPart(cs, Unit(m));
    ConstantSettled(Unit(Dual(m)));
    forall i | 0 <= i < |kept| ensures Settled(kept[i]) {
      var j :| 0 <= j < |cs| && cs[j] == kept[i];
    }
    AllSettledIff(kept);
    BuildSettled(m, kept);
  }

  /** Terms of which none is absorbed are pairwise different. */
  lemma UnabsorbedDistinct(m: Mode, terms: seq<Pred>)
    requires AbsorbRule(m, terms).Unchanged?
    ensures NoDuplicates(terms)
  {
    hide PredEq, Found, EachFound;
    var clauses := TermClauses(m, terms);
    forall i, j | 0 <= i < j < |terms| ensures !PredEq(terms[j], terms[i]) {
      assert Survives(clauses, i);
      if PredEq(terms[j], terms[i]) {
        PredEqSymmetric(terms[j], terms[i]);
        SameClause(m, terms, i, j);
        SameClause(m, terms, j, i);
        ClauseDistinct(m, terms, i);
        ClauseDistinct(m, terms, j);
        LastDuplicateSurvives(clauses, i, j);
      }
    }
  }

  lemma ClauseDistinct(m: Mode, terms: seq<Pred>, i: nat)
    requires i < |terms|
    ensures NoDuplicates(TermClauses(m, terms)[i])
  {
    if IsMinor(m, terms[i]) { DedupFacts(terms[i].children); }
  }

  lemma SameClause(m: Mode, terms: seq<Pred>, i: nat, j: nat)
    requires i < |terms| && j < |terms| && PredEq(terms[i], terms[j])
    ensures EachFound(TermClauses(m, terms)[i], TermClauses(m, terms)[j])
  {
    var a, b := TermClauses(m, terms)[i], TermClauses(m, terms)[j];
    if IsMinor(m, terms[i]) {
      assert IsMinor(m, terms[j]);
      DedupFound(terms[i].children, terms[j].children);
    } else {
      assert !IsMinor(m, terms[j]);
      FoundIff(terms[i], b);
      EachFoundIff(a, b);
    }
  }

  lemma DedupFound(a: seq<Pred>, b: seq<Pred>)
    requires EachFound(a, b)
    ensures EachFound(Dedup(a), Dedup(b))
  {
    hide PredEq, Found, EachFound, Dedup;
    DedupFacts(a);
    DedupFacts(b);
    EachFoundIff(a, b);
    forall i | 0 <= i < |Dedup(a)| ensures Found(Dedup(a)[i], Dedup(b)) {
      var k :| 0 <= k < |a| && a[k] == Dedup(a)[i];
      FoundIff(a[k], b);
      var j :| 0 <= j < |b| && PredEq(a[k], b[j]);
      FoundIff(b[j], Dedup(b));
      var l :| 0 <= l < |Dedup(b)| && PredEq(b[j], Dedup(b)[l]);
      PredEqTransitive(a[k], b[j], Dedup(b)[l]);
      FoundIff(a[k], Dedup(b));
    }
    EachFoundIff(Dedup(a), Dedup(b));
  }

  lemma {:induction false} DedupOfDistinct(ps: seq<Pred>)
    requires NoDuplicates(ps)
    ensures Dedup(ps) == ps
  {
    if ps != [] {
      var init, last := ps[..|ps| - 1], ps[|ps| - 1];
      DedupOfDistinct(init);
      FoundIff(last, init);
      assert forall i :: 0 <= i < |init| ==> init[i] == ps[i];
      assert ps == init + [last];
    }
  }

  /** A settled term, rebuilt without its atomicity, is settled. */
  lemma RebuiltTermSettled(m: Mode, terms: seq<Pred>, i: nat)
    requires i < |terms| && Settled(terms[i])
    ensures Settled(Build(Dual(m), TermClauses(m, terms)[i]))
  {
    hide AbsorbRule, ConstantRule, Dedup, AllSettled;
    if IsMinor(m, terms[i]) {
      var ds := terms[i].children;
      assert AbsorbRule(Dual(m), ds).Unchanged?;
      UnabsorbedDistinct(Dual(m), ds);
      DedupOfDistinct(ds);
      AllSettledIff(ds);
    }
  }

  lemma AbsorbRuleSettled(m: Mode, terms: seq<Pred>)
    requires AllSettled(terms)
    ensures AbsorbRule(m, terms).Replaced? ==> ChildrenSettled(AbsorbRule(m, terms).pred)
  {
    hide Settled, AllSettled, ChildrenSettled, Build, Dedup;
    AllSettledIff(terms);
    var clauses := TermClauses(m, terms);
    var kept := Built(m, Select(clauses, Survivors(clauses)));
    forall k | 0 <= k < |kept| ensures Settled(kept[k]) {
      RebuiltTermSettled(m, terms, Survivors(clauses)[k]);
    }
    AllSettledIff(kept);
    BuildSettled(m, kept);
  }

  /** Only the rules that ask for re-exploration create children with something left to do. */
  lemma RulesKeepSettled(p: Pred, dnf: bool)
    requires ChildrenSettled(p)
    requires ApplyOnce(p, dnf).Replaced? && !ApplyOnce(p, dnf).reExplore
    ensures ChildrenSettled(ApplyOnce(p, dnf).pred)
  {
    hide AbsorbRule, ConstantRule, AllSettled;
    match p
    case And(cs, _) => ConstantRuleSettled(Cnf, cs); AbsorbRuleSettled(Cnf, cs);
    case Or(cs, _) => ConstantRuleSettled(Dnf, cs); AbsorbRuleSettled(Dnf, cs);
    case _ =>
  }

  // ---------------------------------------------------------------- the fixpoint

  /** No rule applies at the root, and none below it. */
  ghost predicate Final(p: Pred, dnf: bool) {
    ApplyOnce(p, dnf).Unchanged? && ChildrenSettled(p)
  }

  /** Simplification stops only where no rule applies at any node. */
  lemma {:induction false} SimplifyFinal(p: Pred, dnf: bool)
    ensures Final(Simplify(p, dnf), dnf)
    decreases Weight(p), Flag(p, dnf), 3
  {
    hide Weight, ApplyOnce, Flag, IsInNormalForm, Final;
    ChildrenFinal(p);
    ApplyRulesFinal(SimplifyChildren(p), dnf);
  }

  lemma {:induction false} ApplyRulesFinal(p: Pred, dnf: bool)
    requires ChildrenSettled(p)
    ensures Final(ApplyRules(p, dnf), dnf)
    decreases Weight(p), Flag(p, dnf), 1
  {
    hide Weight, ApplyOnce, Flag, ChildrenSettled;
    ApplyOnceLighter(p, dnf);
    match ApplyOnce(p, dnf)
    case Unchanged =>
    case Replaced(q, reExplore) =>
      if reExplore {
        SimplifyFinal(q, dnf);
      } else {
        RulesKeepSettled(p, dnf);
        ApplyRulesFinal(q, dnf);
      }
  }

  lemma {:induction false} ChildrenFinal(p: Pred)
    ensures ChildrenSettled(SimplifyChildren(p))
    decreases Weight(p), 0, 2
  {
    match p
    case And(cs, a) => ChildrenLighter(cs, a);
      forall i | 0 <= i < |cs| ensures Settled(Simplify(cs[i], false)) { SimplifySettled(cs[i]); }
      AllSettledIff(SimplifyAll(cs, Weight(p)));
    case Or(cs, a) => ChildrenLighter(cs, a);
      forall i | 0 <= i < |cs| ensures Settled(Simplify(cs[i], false)) { SimplifySettled(cs[i]); }
      AllSettledIff(SimplifyAll(cs, Weight(p)));
    case Not(c, a) => Pow2Exceeds(Weight(c));
      SimplifySettled(c);
    case _ =>
  }

  lemma {:induction false} SimplifySettled(p: Pred)
    ensures Settled(Simplify(p, false))
    decreases Weight(p), 0, 4
  {
    hide Weight, Simplify;
    SimplifyFinal(p, false);
  }

  // ---------------------------------------------------------------- idempotence

  lemma SettledSimplified(p: Pred)
    requires Settled(p) && SimplifyChildren(p) == p
    ensures Simplify(p, false) == p
  {
    hide DefaultRules, SimplifyChildren;
    assert ApplyOnce(p, false) == DefaultRules(p);
    assert ApplyRules(p, false) == p;
  }

  lemma {:induction false} SettledUnchanged(p: Pred)
    requires ChildrenSettled(p)
    ensures SimplifyChildren(p) == p
    decreases p
  {
    match p
    case And(cs, a) => ChildrenLighter(cs, a); SettledAllUnchanged(cs, Weight(p));
    case Or(cs, a) => ChildrenLighter(cs, a); SettledAllUnchanged(cs, Weight(p));
    case Not(c, a) => SettledUnchanged(c); SettledSimplified(c);
    case _ =>
  }

  lemma {:induction false} SettledAllUnchanged(cs: seq<Pred>, bound: nat)
    requires forall i :: 0 <= i < |cs| ==> Weight(cs[i]) < bound
    requires AllSettled(cs)
    ensures SimplifyAll(cs, bound) == cs
    decreases cs
  {
    hide Weight;
    if cs != [] {
      var init, last := cs[..|cs| - 1], cs[|cs| - 1];
      SettledAllUnchanged(init, bound);
      SettledUnchanged(last);
      SettledSimplified(last);
      assert cs == init + [last];
    }
  }

  /** A predicate with nothing to rewrite is returned as it is. */
  lemma FinalUnchanged(p: Pred, dnf: bool)
    requires Final(p, dnf)
    ensures Simplify(p, dnf) == p
  {
    SettledUnchanged(p);
  }

  /** Simplifying twice is simplifying once. */
  lemma SimplifyIdempotent(p: Pred, dnf: bool)
    ensures Simplify(Simplify(p, dnf), dnf) == Simplify(p, dnf)
  {
    hide Simplify;
    SimplifyFinal(p, dnf);
    FinalUnchanged(Simplify(p, dnf), dnf);
  }

  /** A DNF request ends in DNF, unless what is left has more clauses than the limit. */
  lemma DnfReached(p: Pred)
    ensures var r := Simplify(p, true);
            IsInNormalForm(r, Dnf) || |ToNormalized(r, false, Dnf)| > 1_000_000
  {
    hide Simplify, ToNormalized, ExpansionSize;
    var r := Simplify(p, true);
    SimplifyFinal(p, true);
    GuardExact(r, Dnf, DEFAULT_SIZE_LIMIT);
  }

  /** The DNF rule never opens an atomic root: it stays exactly when nothing in it can be simplified. */
  lemma AtomicRootKept(p: Pred)
    requires IsAtomic(p)
    ensures Simplify(p, true) == p <==> Settled(p)
  {
    hide Simplify;
    if Settled(p) { FinalUnchanged(p, true); }
    SimplifyFinal(p, true);
  }
}
