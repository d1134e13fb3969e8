/** What simplified predicates look like, without reference to the rules. */
module SimplifiedShape {
  import opened Predicates
  import opened NormalForm
  import opened Absorption
  import opened Simplifier
  import opened Simplification
  import opened Fixpoint
  import opened MinimalClauses

  /** A term of an AND by its disjuncts, a term of an OR by its conjuncts. */
  function Parts(m: Mode, p: Pred): seq<Pred> {
    match p
    case Or(cs, _) => if m.Cnf? then cs else [p]
    case And(cs, _) => if m.Dnf? then cs else [p]
    case _ => [p]
  }

  /** No term's parts are all among another term's. */
  ghost predicate Irredundant(m: Mode, terms: seq<Pred>) {
    forall i, j :: 0 <= i < |terms| && 0 <= j < |terms| && i != j ==> !EachFound(Parts(m, terms[j]), Parts(m, terms[i]))
  }

  predicate StaysNegated(p: Pred) { p.Const? || p.Not? || (p.Leaf? && (p.cmp.Ne? || p.cmp.OtherComparison?)) }

  /**
   Everywhere in the predicate: AND and OR have no TRUE and no FALSE among their terms and no
   redundant term, and NOT stands only over a constant, another NOT, or a comparison without a
   complement.
   */
  ghost predicate Reduced(p: Pred) {
    match p
    case And(cs, _) =>
      && Const(TRUE) !in cs && Const(FALSE) !in cs && Irredundant(Cnf, cs)
      && forall i :: 0 <= i < |cs| ==> Reduced(cs[i])
    case Or(cs, _) =>
      && Const(TRUE) !in cs && Const(FALSE) !in cs && Irredundant(Dnf, cs)
      && forall i :: 0 <= i < |cs| ==> Reduced(cs[i])
    case Not(c, _) => StaysNegated(c) && Reduced(c)
    case _ => true
  }

  lemma PartsSameSet(m: Mode, terms: seq<Pred>, i: nat)
    requires i < |terms|
    ensures SameSet(Parts(m, terms[i]), TermClauses(m, terms)[i])
  {
    if IsMinor(m, terms[i]) { DedupSameSet(terms[i].children); } else { SetReflexive([terms[i]]); }
  }

  /** Deduplication does not change which terms are redundant. */
  lemma PartsFound(m: Mode, terms: seq<Pred>, i: nat, j: nat)
    requires i < |terms| && j < |terms|
    ensures EachFound(Parts(m, terms[j]), Parts(m, terms[i])) <==> EachFound(TermClauses(m, terms)[j], TermClauses(m, terms)[i])
  {
    hide EachFound, Parts;
    var a, b, c, d := Parts(m, terms[j]), TermClauses(m, terms)[j], TermClauses(m, terms)[i], Parts(m, terms[i]);
    PartsSameSet(m, terms, i);
    PartsSameSet(m, terms, j);
    if EachFound(a, d) {
      ContainedTransitive(b, a, d);
      ContainedTransitive(b, d, c);
    }
    if EachFound(b, c) {
      ContainedTransitive(a, b, c);
      ContainedTransitive(a, c, d);
    }
  }

  lemma AbsorbsNothingIff(m: Mode, terms: seq<Pred>)
    ensures AbsorbRule(m, terms).Unchanged? <==> Irredundant(m, terms)
  {
    hide EachFound, Parts, PredEq;
    var clauses := TermClauses(m, terms);
    if Irredundant(m, terms) {
      forall i: nat | i < |clauses| ensures Survives(clauses, i) {
        forall j | 0 <= j < |clauses| ensures !Absorbs(clauses, i, j) { PartsFound(m, terms, i, j); }
      }
    }
    if AbsorbRule(m, terms).Unchanged? {
      assert forall i: nat :: i < |clauses| ==> Survives(clauses, i);
      forall i, j | 0 <= i < |terms| && 0 <= j < |terms| && i != j ensures !EachFound(Parts(m, terms[j]), Parts(m, terms[i])) {
        ClauseDistinct(m, terms, i);
        ClauseDistinct(m, terms, j);
        SurvivorsIncomparable(clauses, i, j);
        PartsFound(m, terms, i, j);
      }
    }
  }

  /** No default rule applies anywhere if and only if the predicate is reduced. */
  lemma {:induction false} SettledIffReduced(p: Pred)
    ensures Settled(p) <==> Reduced(p)
  {
    hide AbsorbRule, Irredundant, Keep, Build;
    match p {
      case And(cs, _) =>
        AbsorbsNothingIff(Cnf, cs);
        AllSettledIff(cs);
        forall i | 0 <= i < |cs| ensures Settled(cs[i]) <==> Reduced(cs[i]) { SettledIffReduced(cs[i]); }
      case Or(cs, _) =>
        AbsorbsNothingIff(Dnf, cs);
        AllSettledIff(cs);
        forall i | 0 <= i < |cs| ensures Settled(cs[i]) <==> Reduced(cs[i]) { SettledIffReduced(cs[i]); }
      case Not(c, _) =>
        SettledIffReduced(c);
      case _ =>
    }
  }

  /** Simplification returns reduced predicates, and without the DNF rule leaves exactly those alone. */
  lemma SimplifiedReduced(p: Pred, dnf: bool)
    ensures Reduced(Simplify(p, dnf))
    ensures Simplify(p, false) == p <==> Reduced(p)
  {
    hide Simplify, Reduced, DefaultRules, ChildrenSettled;
    SimplifyFinal(p, dnf);
    SimplifyFinal(p, false);
    SettledIffReduced(Simplify(p, dnf));
    SettledIffReduced(p);
    if Reduced(p) { FinalUnchanged(p, false); }
  }
}
