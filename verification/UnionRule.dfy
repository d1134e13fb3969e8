/** The union rule's own legs: a fixed factor that a term implies is left out of the term's leg. */
module UnionRule {
  import opened Predicates
  import opened NormalForm
  import opened Simplification
  import opened UnionLegs

  // ---------------------------------------------------------------- implied factors

  /** The operands of a non-atomic connective, its nested ones flattened into it. */
  function Flatten(m: Mode, p: Pred): seq<Pred>
    decreases p
  {
    if IsMajor(m, p) && !p.atomic then FlattenAll(m, p.children) else [p]
  }

  function FlattenAll(m: Mode, ps: seq<Pred>): seq<Pred>
    decreases ps
  {
    if ps == [] then [] else FlattenAll(m, ps[..|ps| - 1]) + Flatten(m, ps[|ps| - 1])
  }

  lemma {:induction false} FlattenMeaning(m: Mode, p: Pred, v: Valuation)
    ensures EvalAll(m, Flatten(m, p), v) == Eval(p, v)
    decreases p
  {
    if IsMajor(m, p) && !p.atomic { FlattenAllMeaning(m, p.children, v); } else { BuildMeaning(m, [p], v); }
  }

  lemma {:induction false} FlattenAllMeaning(m: Mode, ps: seq<Pred>, v: Valuation)
    ensures EvalAll(m, FlattenAll(m, ps), v) == EvalAll(m, ps, v)
    decreases ps
  {
    if ps != [] {
      var i := |ps| - 1;
      FlattenAllMeaning(m, ps[..i], v);
      FlattenMeaning(m, ps[i], v);
      EvalAllConcat(m, FlattenAll(m, ps[..i]), Flatten(m, ps[i]), v);
    }
  }

  /** Nothing that flattening could open is left. */
  lemma {:induction false} FlattenFlat(m: Mode, p: Pred)
    ensures forall q :: q in Flatten(m, p) ==> !IsMajor(m, q) || q.atomic
    decreases p
  {
    if IsMajor(m, p) && !p.atomic { FlattenAllFlat(m, p.children); }
  }

  lemma {:induction false} FlattenAllFlat(m: Mode, ps: seq<Pred>)
    ensures forall q :: q in FlattenAll(m, ps) ==> !IsMajor(m, q) || q.atomic
    decreases ps
  {
    if ps != [] {
      FlattenAllFlat(m, ps[..|ps| - 1]);
      FlattenFlat(m, ps[|ps| - 1]);
    }
  }

  /** A term implies a factor when it has one of the factor's disjuncts among its conjuncts. */
  predicate Implies(term: Pred, factor: Pred) {
    var literals, conjuncts := Flatten(Dnf, Simplify(factor, false)), Flatten(Cnf, term);
    exists i | 0 <= i < |literals| :: Found(literals[i], conjuncts)
  }

  lemma ImpliedAbove(term: Pred, factor: Pred, v: Valuation)
    requires Sound(v) && Implies(term, factor)
    ensures Eval(term, v) <= Eval(factor, v)
  {
    hide Simplify, PredEq, Found;
    var simplified := Simplify(factor, false);
    var literals, conjuncts := Flatten(Dnf, simplified), Flatten(Cnf, term);
    var i :| 0 <= i < |literals| && Found(literals[i], conjuncts);
    FoundIff(literals[i], conjuncts);
    var j :| 0 <= j < |conjuncts| && PredEq(literals[i], conjuncts[j]);
    EqualMeaning(literals[i], conjuncts[j], v);
    FlattenMeaning(Dnf, simplified, v);
    FlattenMeaning(Cnf, term, v);
    JoinBounds(Dnf, literals, v);
    JoinBounds(Cnf, conjuncts, v);
    SimplifyMeaning(factor, false, v);
  }

  /**
   The fixed factors a term does not imply. What a factor's disjuncts are is decided on the
   factor itself; it is made atomic only for the leg.
   */
  function Live(factors: seq<Pred>, mask: nat, term: Pred): seq<Pred> {
    if factors == [] then []
    else
      var i := |factors| - 1;
      Live(factors[..i], mask, term)
        + if Bit(mask, i) && !Implies(term, factors[i]) then [WithAtomicity(factors[i], true)] else []
  }

  lemma {:induction false} LiveMeaning(factors: seq<Pred>, mask: nat, term: Pred, v: Valuation)
    requires Sound(v)
    ensures Join(Cnf, EvalAll(Cnf, Live(factors, mask, term), v), Eval(term, v))
         == Join(Cnf, EvalAll(Cnf, Fixed(factors, mask), v), Eval(term, v))
  {
    if factors != [] {
      LiveMeaning(factors[..|factors| - 1], mask, term, v);
      LiveStep(factors, mask, term, v);
    }
  }

  lemma SingleMeaning(p: Pred, v: Valuation)
    ensures EvalAll(Cnf, [p], v) == Eval(p, v)
  {
    BuildMeaning(Cnf, [p], v);
  }

  /** A conjunct above the term may be added on one side. */
  lemma Narrowed(live: Tri, fixed: Tri, factor: Tri, term: Tri)
    ensures Join(Cnf, live, term) == Join(Cnf, fixed, term) ==>
      && Join(Cnf, Join(Cnf, live, factor), term) == Join(Cnf, Join(Cnf, fixed, factor), term)
      && (term <= factor ==> Join(Cnf, live, term) == Join(Cnf, Join(Cnf, fixed, factor), term))
  {
  }

  lemma LiveStep(factors: seq<Pred>, mask: nat, term: Pred, v: Valuation)
    requires Sound(v) && factors != []
    requires var init := factors[..|factors| - 1];
      Join(Cnf, EvalAll(Cnf, Live(init, mask, term), v), Eval(term, v))
      == Join(Cnf, EvalAll(Cnf, Fixed(init, mask), v), Eval(term, v))
    ensures Join(Cnf, EvalAll(Cnf, Live(factors, mask, term), v), Eval(term, v))
         == Join(Cnf, EvalAll(Cnf, Fixed(factors, mask), v), Eval(term, v))
  {
    hide Implies, Bit, Eval, EvalAll, Join;
    var i := |factors| - 1;
    var live, fixed, atomic := Live(factors[..i], mask, term), Fixed(factors[..i], mask), WithAtomicity(factors[i], true);
    AtomicityMeaning(factors[i], true, v);
    if Implies(term, factors[i]) { ImpliedAbove(term, factors[i], v); }
    EvalAllConcat(Cnf, live, [atomic], v);
    EvalAllConcat(Cnf, fixed, [atomic], v);
    SingleMeaning(atomic, v);
    Narrowed(EvalAll(Cnf, live, v), EvalAll(Cnf, fixed, v), Eval(atomic, v), Eval(term, v));
    assert live + [] == live && fixed + [] == fixed;
  }

  /** Leaving the implied fixed factors out of a leg does not change what the leg selects. */
  lemma LegWithoutImplied(factors: seq<Pred>, mask: nat, term: Pred, v: Valuation)
    requires Sound(v)
    ensures EvalAll(Cnf, Live(factors, mask, term) + [term], v) == EvalAll(Cnf, Fixed(factors, mask) + [term], v)
  {
    hide Live, Fixed;
    LiveMeaning(factors, mask, term, v);
    EvalAllConcat(Cnf, Live(factors, mask, term), [term], v);
    EvalAllConcat(Cnf, Fixed(factors, mask), [term], v);
    BuildMeaning(Cnf, [term], v);
  }

  function LeanLegs(factors: seq<Pred>, mask: nat, terms: seq<Pred>): (legs: seq<Leg>)
    ensures |legs| == |terms|
    ensures forall i :: 0 <= i < |legs| ==> legs[i] == Live(factors, mask, terms[i]) + [terms[i]]
  {
    seq(|terms|, i requires 0 <= i < |terms| => Live(factors, mask, terms[i]) + [terms[i]])
  }

  lemma {:induction false} LeanLegsMeaning(factors: seq<Pred>, mask: nat, terms: seq<Pred>, v: Valuation)
    requires Sound(v)
    ensures UnionVal(LeanLegs(factors, mask, terms), v) == UnionVal(Legs(Fixed(factors, mask), terms), v)
  {
    hide Live, Fixed;
    if terms != [] {
      var i := |terms| - 1;
      LeanLegsMeaning(factors, mask, terms[..i], v);
      LegWithoutImplied(factors, mask, terms[i], v);
      assert Legs(Fixed(factors, mask), terms)[..i] == Legs(Fixed(factors, mask), terms[..i]);
      assert LeanLegs(factors, mask, terms)[..i] == LeanLegs(factors, mask, terms[..i]);
    }
  }

  /** The rule's own legs, without implied factors, also mean the conjunction of all factors. */
  lemma LeanUnionMeaning(factors: seq<Pred>, mask: nat, v: Valuation)
    requires Sound(v) && IsUnion(factors, mask)
    ensures UnionVal(LeanLegs(factors, mask, Terms(factors, mask)), v) == EvalAll(Cnf, factors, v)
  {
    hide LeanLegs, Legs, Terms, Fixed, IsUnion;
    LeanLegsMeaning(factors, mask, Terms(factors, mask), v);
    UnionMeaning(factors, mask, v);
  }
}
