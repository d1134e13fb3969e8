/** Comparisons of ordered operands that may be NULL, and what simplification means for them. */
module ComparisonMeaning {
  import opened Wrappers
  import opened Predicates
  import opened NormalForm
  import opened Simplifier
  import opened Simplification
  import opened Fixpoint
  import opened UnionLegs
  import opened UnionRule

  /** The two operands of a comparison; NULL is `None`. */
  datatype Operands = Operands(left: Option<int>, right: Option<int>)

  function Truth(b: bool): Tri { if b then TRUE else FALSE }

  /** The comparison in three-valued logic: UNKNOWN when an operand is NULL. */
  function Compare(c: Comparison, o: Operands): Tri
    requires !c.OtherComparison?
  {
    if o.left.None? || o.right.None? then UNKNOWN
    else
      var x, y := o.left.value, o.right.value;
      match c
      case Eq => Truth(x == y)
      case Ne => Truth(x != y)
      case Lt => Truth(x < y)
      case Le => Truth(x <= y)
      case Gt => Truth(x > y)
      case Ge => Truth(x >= y)
  }

  /** Leaves over given operands; what other comparisons yield is arbitrary. */
  function Over(operands: int -> Operands, other: int -> Tri): Valuation {
    (n: int, c: Comparison) => if c.OtherComparison? then other(n) else Compare(c, operands(n))
  }

  /** The comparison a NOT becomes has the negated truth value on all operands. */
  lemma InverseNegates(c: Comparison, o: Operands)
    requires c.Eq? || c.Lt? || c.Le? || c.Gt? || c.Ge?
    ensures !c.Inverse().OtherComparison? && Compare(c.Inverse(), o) == Negate(Compare(c, o))
  {
  }

  lemma OverSound(operands: int -> Operands, other: int -> Tri)
    ensures Sound(Over(operands, other))
  {
    var v := Over(operands, other);
    forall n, c: Comparison | c.Invertible() ensures v(n, c.Inverse()) == Negate(v(n, c)) {
      InverseNegates(c, operands(n));
    }
  }

  /** NOT over a comparison: the five that have a complement become it, every other stays negated. */
  lemma NotOverComparison(n: int, c: Comparison, atomic: bool)
    ensures Simplify(Not(Leaf(n, c), atomic), false) ==
      match c
      case Eq => Leaf(n, Ne)
      case Lt => Leaf(n, Ge)
      case Le => Leaf(n, Gt)
      case Gt => Leaf(n, Le)
      case Ge => Leaf(n, Lt)
      case _ => Not(Leaf(n, c), atomic)
  {
    var p := Not(Leaf(n, c), atomic);
    assert Settled(Leaf(n, c));
    SettledUnchanged(p);
    assert Simplify(p, false) == ApplyRules(p, false);
    if c.Eq? || c.Lt? || c.Le? || c.Gt? || c.Ge? {
      assert ApplyRules(p, false) == ApplyRules(Leaf(n, c.Inverse()), false);
    }
  }

  /** Simplification keeps the value of a predicate over every row of operands. */
  lemma SimplifiedValue(p: Pred, dnf: bool, operands: int -> Operands, other: int -> Tri)
    ensures Eval(Simplify(p, dnf), Over(operands, other)) == Eval(p, Over(operands, other))
  {
    hide Simplify, Eval;
    OverSound(operands, other);
    SimplifyMeaning(p, dnf, Over(operands, other));
  }

  /** And so do the unions, with all fixed factors and with the implied ones left out. */
  lemma UnionValue(factors: seq<Pred>, mask: nat, operands: int -> Operands, other: int -> Tri)
    requires IsUnion(factors, mask)
    ensures var v := Over(operands, other);
      && UnionVal(Legs(Fixed(factors, mask), Terms(factors, mask)), v) == EvalAll(Cnf, factors, v)
      && UnionVal(LeanLegs(factors, mask, Terms(factors, mask)), v) == EvalAll(Cnf, factors, v)
  {
    hide IsUnion, Terms, Fixed, LeanLegs, Legs, EvalAll;
    OverSound(operands, other);
    UnionMeaning(factors, mask, Over(operands, other));
    LeanUnionMeaning(factors, mask, Over(operands, other));
  }
}
