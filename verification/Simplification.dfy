/** Simplification to a fixpoint: it terminates, keeps the meaning and leaves nothing to rewrite. */
module Simplification {
  import opened Sequences
  import opened Predicates
  import opened NormalForm
  import opened Weights
  import opened Simplifier

  lemma ChildrenLighter(cs: seq<Pred>, atomic: bool)
    ensures forall i :: 0 <= i < |cs| ==> Weight(cs[i]) < Weight(And(cs, atomic))
    ensures forall i :: 0 <= i < |cs| ==> Weight(cs[i]) < Weight(Or(cs, atomic))
  {
    forall i | 0 <= i < |cs|
      ensures Weight(cs[i]) < Weight(And(cs, atomic)) && Weight(cs[i]) < Weight(Or(cs, atomic))
    {
      ChildLighter(cs, i);
    }
  }

  /** Children first, then the rules; `dnf` at the root of a DNF request. */
  function Simplify(p: Pred, dnf: bool): (r: Pred)
    ensures !dnf ==> r == p || Weight(r) < Weight(p)
    decreases Weight(p), Flag(p, dnf), 3, 0
  {
    ApplyRules(SimplifyChildren(p), dnf)
  }

  /** The inner loop: a rule that asks for it restarts with the children. */
  function ApplyRules(p: Pred, dnf: bool): (r: Pred)
    ensures !dnf ==> r == p || Weight(r) < Weight(p)
    decreases Weight(p), Flag(p, dnf), 1, 0
  {
    ApplyOnceLighter(p, dnf);
    match ApplyOnce(p, dnf)
    case Unchanged => p
    case Replaced(q, reExplore) => if reExplore then Simplify(q, dnf) else ApplyRules(q, dnf)
  }

  /** Replaces the children by their simplifications, preserving the node's atomicity. */
  function SimplifyChildren(p: Pred): (r: Pred)
    ensures r == p || Weight(r) < Weight(p)
    decreases Weight(p), 0, 2, 0
  {
    match p
    case And(cs, a) => ChildrenLighter(cs, a);
      var ds := SimplifyAll(cs, Weight(p));
      Pointwise(ds, cs);
      And(ds, a)
    case Or(cs, a) => ChildrenLighter(cs, a);
      var ds := SimplifyAll(cs, Weight(p));
      Pointwise(ds, cs);
      Or(ds, a)
    case Not(c, a) => Pow2Exceeds(Weight(c));
      var d := Simplify(c, false);
      NotLighter(d, c);
      Not(d, a)
    case leaf => leaf
  }

  function SimplifyAll(cs: seq<Pred>, bound: nat): (r: seq<Pred>)
    requires forall i :: 0 <= i < |cs| ==> Weight(cs[i]) < bound
    ensures |r| == |cs|
    ensures forall i :: 0 <= i < |cs| ==> r[i] == Simplify(cs[i], false)
    ensures forall i :: 0 <= i < |cs| ==> r[i] == cs[i] || Weight(r[i]) < Weight(cs[i])
    decreases bound, 0, 1, |cs|
  {
    if cs == [] then []
    else SimplifyAll(cs[..|cs| - 1], bound) + [Simplify(cs[|cs| - 1], false)]
  }

  lemma NotLighter(d: Pred, c: Pred)
    requires d == c || Weight(d) < Weight(c)
    ensures d == c || Pow2(Weight(d)) < Pow2(Weight(c))
  {
    if d != c { Pow2Monotone(Weight(d) + 1, Weight(c)); }
  }

  // ---------------------------------------------------------------- meaning

  /** Simplification preserves the Kleene meaning of every predicate. */
  lemma {:induction false} SimplifyMeaning(p: Pred, dnf: bool, v: Valuation)
    requires Sound(v)
    ensures Eval(Simplify(p, dnf), v) == Eval(p, v)
    decreases Weight(p), Flag(p, dnf), 3
  {
    hide Weight, ApplyOnce, Flag, IsInNormalForm;
    ChildrenMeaning(p, v);
    ApplyRulesMeaning(SimplifyChildren(p), dnf, v);
  }

  lemma {:induction false} ApplyRulesMeaning(p: Pred, dnf: bool, v: Valuation)
    requires Sound(v)
    ensures Eval(ApplyRules(p, dnf), v) == Eval(p, v)
    decreases Weight(p), Flag(p, dnf), 1
  {
    hide Weight, ApplyOnce, Flag, Eval;
    ApplyOnceLighter(p, dnf);
    ApplyOnceMeaning(p, dnf, v);
    match ApplyOnce(p, dnf)
    case Unchanged =>
    case Replaced(q, reExplore) => if reExplore { SimplifyMeaning(q, dnf, v); } else { ApplyRulesMeaning(q, dnf, v); }
  }

  lemma {:induction false} ChildrenMeaning(p: Pred, v: Valuation)
    requires Sound(v)
    ensures Eval(SimplifyChildren(p), v) == Eval(p, v)
    decreases Weight(p), 0, 2
  {
    match p
    case And(cs, a) => ChildrenLighter(cs, a);
      forall i | 0 <= i < |cs| ensures Eval(Simplify(cs[i], false), v) == Eval(cs[i], v) {
        SimplifyMeaning(cs[i], false, v);
      }
      SameMeanings(Cnf, SimplifyAll(cs, Weight(p)), cs, v);
    case Or(cs, a) => ChildrenLighter(cs, a);
      forall i | 0 <= i < |cs| ensures Eval(Simplify(cs[i], false), v) == Eval(cs[i], v) {
        SimplifyMeaning(cs[i], false, v);
      }
      SameMeanings(Dnf, SimplifyAll(cs, Weight(p)), cs, v);
    case Not(c, a) => Pow2Exceeds(Weight(c));
      SimplifyMeaning(c, false, v);
    case _ =>
  }

  lemma {:induction false} SameMeanings(m: Mode, a: seq<Pred>, b: seq<Pred>, v: Valuation)
    requires |a| == |b| && forall i :: 0 <= i < |a| ==> Eval(a[i], v) == Eval(b[i], v)
    ensures EvalAll(m, a, v) == EvalAll(m, b, v)
  {
    if a != [] { SameMeanings(m, a[..|a| - 1], b[..|b| - 1], v); }
  }
}
