/** When the rule's legs are the same for every choice of fixed factors. */
module UnionSharing {
  import opened Sequences
  import opened Predicates
  import opened NormalForm
  import opened Simplification
  import opened UnionLegs
  import opened UnionRule
  import opened LeafClauses
  import opened ClausalShapes

  /** Every factor is a leaf or a disjunction of at least one leaf. */
  ghost predicate Disjunctions(factors: seq<Pred>) {
    forall i :: 0 <= i < |factors| ==> IsTerm(Cnf, factors[i])
  }

  // ---------------------------------------------------------------- a term implies what was expanded

  lemma {:induction false} FlatLeaves(m: Mode, cs: Clause)
    requires Leaves(cs)
    ensures FlattenAll(m, cs) == cs
  {
    if cs != [] {
      FlatLeaves(m, cs[..|cs| - 1]);
      assert cs == cs[..|cs| - 1] + [cs[|cs| - 1]];
    }
  }

  /** The leaves of a term. */
  ghost function LeavesOf(t: Pred): Clause { if t.And? || t.Or? then t.children else [t] }

  lemma FlatTerm(m: Mode, t: Pred)
    requires IsTerm(m, t)
    ensures Flatten(Dual(m), t) == LeavesOf(t) && Leaves(LeavesOf(t)) && LeavesOf(t) != []
  {
    if !t.Leaf? { FlatLeaves(Dual(m), t.children); }
  }

  lemma {:induction false} ExpandedIn(factors: seq<Pred>, mask: nat, i: nat)
    requires i < |factors| && !Bit(mask, i)
    ensures factors[i] in Expanded(factors, mask)
  {
    if i < |factors| - 1 { ExpandedIn(factors[..|factors| - 1], mask, i); }
  }

  lemma {:induction false} ExpandedFrom(factors: seq<Pred>, mask: nat)
    ensures forall k :: 0 <= k < |Expanded(factors, mask)| ==> Expanded(factors, mask)[k] in factors
  {
    if factors != [] {
      ExpandedFrom(factors[..|factors| - 1], mask);
      assert forall x :: x in factors[..|factors| - 1] ==> x in factors;
    }
  }

  /** The expanded factors normalise to a clausal predicate, and keep their meaning under every valuation. */
  lemma NormalizedEither(factors: seq<Pred>, mask: nat, v: Valuation)
    requires Disjunctions(factors) && IsUnion(factors, mask)
    ensures Either(Normalized(factors, mask))
    ensures Eval(Normalized(factors, mask), v) == EvalAll(Cnf, Expanded(factors, mask), v)
  {
    hide Simplify, Expanded, Eval, IsTerm;
    var expanded := Expanded(factors, mask);
    ExpandedFrom(factors, mask);
    assert forall k :: 0 <= k < |expanded| ==> IsTerm(Cnf, expanded[k]);
    if expanded == [] { NothingExpanded(); }
    SimplifiedEither(Build(Cnf, expanded), true, v);
    BuildMeaning(Cnf, expanded, v);
  }

  lemma NothingExpanded()
    ensures Simplify(Const(TRUE), true) == Const(TRUE)
  {
  }

  lemma TermsAreTerms(factors: seq<Pred>, mask: nat, t: Pred)
    requires Disjunctions(factors) && IsUnion(factors, mask) && t in Terms(factors, mask)
    ensures IsTerm(Dnf, t)
  {
    hide Normalized, Disjunctions;
    NormalizedEither(factors, mask, (n, c) => FALSE);
  }

  /** The leaves of the term hold, and nothing else does. */
  function Only(c: Clause): Valuation {
    (n, cmp) => if Leaf(n, cmp) in c then TRUE else FALSE
  }

  lemma OnlyItsLeaves(c: Clause, x: Pred)
    requires x.Leaf?
    ensures Eval(x, Only(c)) == (if x in c then TRUE else FALSE)
  {
  }

  lemma TermHolds(t: Pred)
    requires IsTerm(Dnf, t)
    ensures Eval(t, Only(LeavesOf(t))) == TRUE
  {
    var c, v := LeavesOf(t), Only(LeavesOf(t));
    FlatTerm(Dnf, t);
    FlattenMeaning(Cnf, t, v);
    JoinBounds(Cnf, c, v);
    forall i | 0 <= i < |c| ensures Eval(c[i], v) == TRUE { OnlyItsLeaves(c, c[i]); }
  }

  /** A disjunction that holds where only the term's leaves do is implied by the term. */
  lemma HoldsImplied(t: Pred, f: Pred)
    requires IsTerm(Dnf, t) && IsTerm(Cnf, f) && Eval(f, Only(LeavesOf(t))) == TRUE
    ensures Implies(t, f)
  {
    hide Simplify, Found, Eval, IsTerm;
    var c, v, g := LeavesOf(t), Only(LeavesOf(t)), Simplify(f, false);
    TermSimplified(Cnf, f, v);
    FlatTerm(Cnf, g);
    FlatTerm(Dnf, t);
    FlattenMeaning(Dnf, g, v);
    var literals := LeavesOf(g);
    JoinBounds(Dnf, literals, v);
    var i :| 0 <= i < |literals| && Eval(literals[i], v) == TRUE;
    OnlyItsLeaves(c, literals[i]);
    FoundLeaf(literals[i], c);
  }

  /** Each term of the union implies every expanded factor. */
  lemma TermImpliesExpanded(factors: seq<Pred>, mask: nat, t: Pred, i: nat)
    requires Disjunctions(factors) && IsUnion(factors, mask) && t in Terms(factors, mask)
    requires i < |factors| && !Bit(mask, i)
    ensures Implies(t, factors[i])
  {
    hide Simplify, Implies, Expanded, IsTerm, Bit, Eval;
    var r, v := Normalized(factors, mask), Only(LeavesOf(t));
    TermsAreTerms(factors, mask, t);
    TermHolds(t);
    NormalizedEither(factors, mask, v);
    var k :| 0 <= k < |r.children| && r.children[k] == t;
    OrAbove(r, k, v);
    var expanded := Expanded(factors, mask);
    ExpandedIn(factors, mask, i);
    var e :| 0 <= e < |expanded| && expanded[e] == factors[i];
    JoinBounds(Cnf, expanded, v);
    assert Leq(Cnf, Eval(expanded[e], v), EvalAll(Cnf, expanded, v));
    HoldsImplied(t, factors[i]);
  }

  lemma OrAbove(r: Pred, k: nat, v: Valuation)
    requires r.Or? && k < |r.children|
    ensures Eval(r.children[k], v) <= Eval(r, v)
  {
    JoinBounds(Dnf, r.children, v);
    assert Leq(Dnf, Eval(r.children[k], v), EvalAll(Dnf, r.children, v));
  }

  // ---------------------------------------------------------------- the same leg for every choice

  /** The factors a term does not imply, fixed or not. */
  function Unimplied(factors: seq<Pred>, term: Pred): seq<Pred> {
    if factors == [] then []
    else
      var i := |factors| - 1;
      Unimplied(factors[..i], term) + if !Implies(term, factors[i]) then [WithAtomicity(factors[i], true)] else []
  }

  lemma {:induction false} LiveIsUnimplied(factors: seq<Pred>, mask: nat, term: Pred)
    requires forall i: nat :: i < |factors| && !Bit(mask, i) ==> Implies(term, factors[i])
    ensures Live(factors, mask, term) == Unimplied(factors, term)
  {
    hide Implies, Bit;
    if factors != [] {
      var init := factors[..|factors| - 1];
      assert forall i: nat :: i < |init| ==> init[i] == factors[i];
      LiveIsUnimplied(init, mask, term);
    }
  }

  lemma LegOfTerm(factors: seq<Pred>, mask: nat, t: Pred)
    requires Disjunctions(factors) && IsUnion(factors, mask) && t in Terms(factors, mask)
    ensures Live(factors, mask, t) == Unimplied(factors, t)
  {
    hide Implies, Bit, Disjunctions, IsUnion, Terms;
    forall i: nat | i < |factors| && !Bit(mask, i) ensures Implies(t, factors[i]) { TermImpliesExpanded(factors, mask, t, i); }
    LiveIsUnimplied(factors, mask, t);
  }

  /** Equal terms imply the same factors. */
  lemma EqualTermsImply(a: Pred, b: Pred, f: Pred)
    requires IsTerm(Dnf, a) && IsTerm(Dnf, b) && IsTerm(Cnf, f) && PredEq(a, b)
    ensures Implies(a, f) <==> Implies(b, f)
  {
    hide Simplify, Found;
    SameLeaves(a, b);
    FlatTerm(Dnf, a);
    FlatTerm(Dnf, b);
    var g := Simplify(f, false);
    TermSimplified(Cnf, f, (n, c) => FALSE);
    FlatTerm(Cnf, g);
    forall i | 0 <= i < |LeavesOf(g)| ensures Found(LeavesOf(g)[i], LeavesOf(a)) <==> Found(LeavesOf(g)[i], LeavesOf(b)) {
      FoundLeaf(LeavesOf(g)[i], LeavesOf(a));
      FoundLeaf(LeavesOf(g)[i], LeavesOf(b));
      assert LeavesOf(g)[i] in ElementSet(LeavesOf(a)) <==> LeavesOf(g)[i] in ElementSet(LeavesOf(b));
    }
  }

  lemma SameLeaves(a: Pred, b: Pred)
    requires IsTerm(Dnf, a) && IsTerm(Dnf, b) && PredEq(a, b)
    ensures ElementSet(LeavesOf(a)) == ElementSet(LeavesOf(b))
  {
    if !a.Leaf? {
      FoundLeaves(a.children, b.children);
      PredEqSymmetric(a, b);
      FoundLeaves(b.children, a.children);
    }
  }

  lemma {:induction false} SameUnimplied(factors: seq<Pred>, a: Pred, b: Pred)
    requires Disjunctions(factors) && IsTerm(Dnf, a) && IsTerm(Dnf, b) && PredEq(a, b)
    ensures Unimplied(factors, a) == Unimplied(factors, b)
  {
    hide Implies, PredEq, IsTerm;
    if factors != [] {
      var i := |factors| - 1;
      assert forall k :: 0 <= k < i ==> factors[..i][k] == factors[k];
      SameUnimplied(factors[..i], a, b);
      EqualTermsImply(a, b, factors[i]);
    }
  }

  /**
   With disjunctions of leaves, a term gets the same fixed factors under every choice that
   yields it, so all unions can share the leg.
   */
  lemma SameLegForEveryChoice(factors: seq<Pred>, mask: nat, t: Pred, mask': nat, t': Pred)
    requires Disjunctions(factors) && IsUnion(factors, mask) && IsUnion(factors, mask')
    requires t in Terms(factors, mask) && t' in Terms(factors, mask') && PredEq(t, t')
    ensures Live(factors, mask, t) == Live(factors, mask', t')
  {
    hide Disjunctions, IsUnion, Terms, Live, Unimplied, PredEq, IsTerm;
    TermsAreTerms(factors, mask, t);
    TermsAreTerms(factors, mask', t');
    LegOfTerm(factors, mask, t);
    LegOfTerm(factors, mask', t');
    SameUnimplied(factors, t, t');
  }
}
