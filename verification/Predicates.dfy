/** Query predicates under Kleene's three-valued logic. */
module Predicates {

  /** FALSE = 0, UNKNOWN = 1, TRUE = 2: AND is the minimum, OR the maximum, NOT the reflection. */
  type Tri = t: nat | t <= 2 witness 0

  const FALSE: Tri := 0
  const UNKNOWN: Tri := 1
  const TRUE: Tri := 2

  datatype Comparison = Eq | Ne | Lt | Le | Gt | Ge | OtherComparison {
    /** The five comparisons a NOT can be pushed into. */
    predicate Invertible() { Eq? || Lt? || Le? || Gt? || Ge? }

    function Inverse(): Comparison {
      match this
      case Eq => Ne
      case Lt => Ge
      case Le => Gt
      case Gt => Le
      case Ge => Lt
      case other => other
    }
  }

  /** A predicate tree. `atomic` marks a connective that normalisation must treat as a leaf. */
  datatype Pred =
    | Const(value: Tri)
    | Leaf(name: int, cmp: Comparison)
    | And(children: seq<Pred>, atomic: bool)
    | Or(children: seq<Pred>, atomic: bool)
    | Not(child: Pred, atomic: bool)

  predicate IsAtomic(p: Pred) {
    !p.Const? && !p.Leaf? && p.atomic
  }

  function WithAtomicity(p: Pred, atomic: bool): Pred {
    match p
    case And(cs, _) => And(cs, atomic)
    case Or(cs, _) => Or(cs, atomic)
    case Not(c, _) => Not(c, atomic)
    case leaf => leaf
  }

  /** Which connective is the outer one. DNF joins with OR, CNF with AND. */
  datatype Mode = Dnf | Cnf

  function Dual(m: Mode): Mode { if m.Dnf? then Cnf else Dnf }

  function Join(m: Mode, a: Tri, b: Tri): Tri {
    if m.Dnf? == (a <= b) then b else a
  }

  function Unit(m: Mode): Tri { if m.Dnf? then FALSE else TRUE }

  predicate Leq(m: Mode, a: Tri, b: Tri) { if m.Dnf? then a <= b else a >= b }

  function Negate(a: Tri): Tri { 2 - a }

  /** What the leaves evaluate to; an inverted comparison is the Kleene negation of the original. */
  type Valuation = (int, Comparison) -> Tri

  ghost predicate Sound(v: Valuation) {
    forall n, c: Comparison :: c.Invertible() ==> v(n, c.Inverse()) == Negate(v(n, c))
  }

  function Eval(p: Pred, v: Valuation): Tri
    decreases p
  {
    match p
    case Const(t) => t
    case Leaf(n, c) => v(n, c)
    case And(cs, _) => EvalAll(Cnf, cs, v)
    case Or(cs, _) => EvalAll(Dnf, cs, v)
    case Not(c, _) => Negate(Eval(c, v))
  }

  /** The join of the children: their conjunction under `Cnf`, their disjunction under `Dnf`. */
  function EvalAll(m: Mode, ps: seq<Pred>, v: Valuation): Tri
    decreases ps
  {
    if ps == [] then Unit(m)
    else Join(m, EvalAll(m, ps[..|ps| - 1], v), Eval(ps[|ps| - 1], v))
  }

  // ---------------------------------------------------------------- joins

  /** The join is an upper bound of the children that one of them, or the unit, attains. */
  lemma {:induction false} JoinBounds(m: Mode, ps: seq<Pred>, v: Valuation)
    ensures forall i :: 0 <= i < |ps| ==> Leq(m, Eval(ps[i], v), EvalAll(m, ps, v))
    ensures EvalAll(m, ps, v) == Unit(m) || exists i :: 0 <= i < |ps| && Eval(ps[i], v) == EvalAll(m, ps, v)
  {
    if ps != [] {
      var init := ps[..|ps| - 1];
      JoinBounds(m, init, v);
      assert forall i :: 0 <= i < |init| ==> init[i] == ps[i];
    }
  }

  /** Some element of `b` lies above `x`. */
  ghost predicate Below(m: Mode, x: Pred, b: seq<Pred>, v: Valuation) {
    exists j :: 0 <= j < |b| && Leq(m, Eval(x, v), Eval(b[j], v))
  }

  /** One join lies below another when each of its children lies below some child of the other. */
  lemma JoinLeq(m: Mode, a: seq<Pred>, b: seq<Pred>, v: Valuation)
    requires forall i :: 0 <= i < |a| ==> Below(m, a[i], b, v)
    ensures Leq(m, EvalAll(m, a, v), EvalAll(m, b, v))
  {
    JoinBounds(m, a, v);
    JoinBounds(m, b, v);
  }

  lemma {:induction false} EvalAllConcat(m: Mode, a: seq<Pred>, b: seq<Pred>, v: Valuation)
    ensures EvalAll(m, a + b, v) == Join(m, EvalAll(m, a, v), EvalAll(m, b, v))
  {
    if b == [] {
      assert a + b == a;
    } else {
      EvalAllConcat(m, a, b[..|b| - 1], v);
      assert (a + b)[..|a + b| - 1] == a + b[..|b| - 1];
    }
  }

  // ---------------------------------------------------------------- equality

  /** Connectives compare their children as sets; the atomicity of both sides must agree. */
  predicate PredEq(a: Pred, b: Pred)
    decreases a, 0
  {
    IsAtomic(a) == IsAtomic(b) &&
    match a
    case Const(t) => b.Const? && t == b.value
    case Leaf(n, c) => b.Leaf? && n == b.name && c == b.cmp
    case And(cs, _) => b.And? && EachFound(cs, b.children) && EachCovered(cs, b.children)
    case Or(cs, _) => b.Or? && EachFound(cs, b.children) && EachCovered(cs, b.children)
    case Not(c, _) => b.Not? && PredEq(c, b.child)
  }

  /** Some element of `b` equals `x`. */
  predicate Found(x: Pred, b: seq<Pred>)
    decreases x, 1, |b|
  {
    b != [] && (PredEq(x, b[|b| - 1]) || Found(x, b[..|b| - 1]))
  }

  predicate EachFound(a: seq<Pred>, b: seq<Pred>)
    decreases a
  {
    a == [] || (Found(a[|a| - 1], b) && EachFound(a[..|a| - 1], b))
  }

  /** Some element of `a` equals `y`. */
  predicate Covered(a: seq<Pred>, y: Pred)
    decreases a, 0
  {
    a != [] && (PredEq(a[|a| - 1], y) || Covered(a[..|a| - 1], y))
  }

  predicate EachCovered(a: seq<Pred>, b: seq<Pred>)
    decreases a, 1, |b|
  {
    b == [] || (Covered(a, b[|b| - 1]) && EachCovered(a, b[..|b| - 1]))
  }

  lemma {:induction false} FoundIff(x: Pred, b: seq<Pred>)
    ensures Found(x, b) <==> exists j :: 0 <= j < |b| && PredEq(x, b[j])
    decreases |b|
  {
    if b != [] {
      var init := b[..|b| - 1];
      FoundIff(x, init);
      assert forall j :: 0 <= j < |init| ==> init[j] == b[j];
    }
  }

  lemma {:induction false} CoveredIff(a: seq<Pred>, y: Pred)
    ensures Covered(a, y) <==> exists i :: 0 <= i < |a| && PredEq(a[i], y)
    decreases |a|
  {
    if a != [] {
      var init := a[..|a| - 1];
      CoveredIff(init, y);
      assert forall j :: 0 <= j < |init| ==> init[j] == a[j];
    }
  }

  lemma {:induction false} EachFoundIff(a: seq<Pred>, b: seq<Pred>)
    ensures EachFound(a, b) <==> forall i :: 0 <= i < |a| ==> Found(a[i], b)
    decreases |a|
  {
    if a != [] {
      var init := a[..|a| - 1];
      EachFoundIff(init, b);
      assert forall j :: 0 <= j < |init| ==> init[j] == a[j];
    }
  }

  lemma {:induction false} EachCoveredIff(a: seq<Pred>, b: seq<Pred>)
    ensures EachCovered(a, b) <==> forall j :: 0 <= j < |b| ==> Covered(a, b[j])
    decreases |b|
  {
    if b != [] {
      var init := b[..|b| - 1];
      EachCoveredIff(a, init);
      assert forall j :: 0 <= j < |init| ==> init[j] == b[j];
    }
  }

  /** Each element of either list has an equal in the other. */
  ghost predicate EqualAsSets(a: seq<Pred>, b: seq<Pred>) {
    && (forall i :: 0 <= i < |a| ==> EqualIn(a[i], b))
    && forall j :: 0 <= j < |b| ==> EqualFor(a, b[j])
  }

  ghost predicate EqualIn(x: Pred, b: seq<Pred>) { exists j :: 0 <= j < |b| && PredEq(x, b[j]) }

  ghost predicate EqualFor(a: seq<Pred>, y: Pred) { exists i :: 0 <= i < |a| && PredEq(a[i], y) }

  lemma EqualInIff(x: Pred, b: seq<Pred>)
    ensures Found(x, b) <==> EqualIn(x, b)
  {
    hide PredEq, Found;
    FoundIff(x, b);
  }

  lemma EqualForIff(a: seq<Pred>, y: Pred)
    ensures Covered(a, y) <==> EqualFor(a, y)
  {
    hide PredEq, Covered;
    CoveredIff(a, y);
  }

  /** Equality is that of the type and the atomicity, and of the children up to order and repetition. */
  lemma EqualityIs(a: Pred, b: Pred)
    ensures PredEq(a, b) <==>
      match (a, b)
      case (And(cs, x), And(ds, y)) => x == y && EqualAsSets(cs, ds)
      case (Or(cs, x), Or(ds, y)) => x == y && EqualAsSets(cs, ds)
      case (Not(c, x), Not(d, y)) => x == y && PredEq(c, d)
      case _ => a == b
  {
    if (a.And? && b.And?) || (a.Or? && b.Or?) { EqualAsSetsIff(a.children, b.children); }
  }

  lemma EqualAsSetsIff(a: seq<Pred>, b: seq<Pred>)
    ensures EqualAsSets(a, b) <==> EachFound(a, b) && EachCovered(a, b)
  {
    hide PredEq, Found, Covered, EachFound, EachCovered, EqualIn, EqualFor;
    EachFoundIff(a, b);
    EachCoveredIff(a, b);
    forall i | 0 <= i < |a| ensures Found(a[i], b) <==> EqualIn(a[i], b) { EqualInIff(a[i], b); }
    forall j | 0 <= j < |b| ensures Covered(a, b[j]) <==> EqualFor(a, b[j]) { EqualForIff(a, b[j]); }
  }

  /** Equal predicates mean the same. */
  lemma {:induction false} EqualMeaning(a: Pred, b: Pred, v: Valuation)
    requires PredEq(a, b)
    ensures Eval(a, v) == Eval(b, v)
    decreases a
  {
    match a
    case Not(c, _) => EqualMeaning(c, b.child, v);
    case And(cs, _) => EqualSets(Cnf, cs, b.children, v);
    case Or(cs, _) => EqualSets(Dnf, cs, b.children, v);
    case _ =>
  }

  lemma {:induction false} EqualSets(m: Mode, a: seq<Pred>, b: seq<Pred>, v: Valuation)
    requires EachFound(a, b) && EachCovered(a, b)
    ensures EvalAll(m, a, v) == EvalAll(m, b, v)
    decreases a
  {
    hide PredEq, Found, EachFound, Covered, EachCovered, Eval, EvalAll;
    EachFoundIff(a, b);
    EachCoveredIff(a, b);
    forall i | 0 <= i < |a| ensures Below(m, a[i], b, v) {
      FoundIff(a[i], b);
      var j :| 0 <= j < |b| && PredEq(a[i], b[j]);
      EqualMeaning(a[i], b[j], v);
    }
    forall j | 0 <= j < |b| ensures Below(m, b[j], a, v) {
      CoveredIff(a, b[j]);
      var i :| 0 <= i < |a| && PredEq(a[i], b[j]);
      EqualMeaning(a[i], b[j], v);
    }
    JoinLeq(m, a, b, v);
    JoinLeq(m, b, a, v);
  }

  lemma {:induction false} PredEqReflexive(a: Pred)
    ensures PredEq(a, a)
    decreases a
  {
    match a
    case Not(c, _) => PredEqReflexive(c);
    case And(cs, _) => SetReflexive(cs);
    case Or(cs, _) => SetReflexive(cs);
    case _ =>
  }

  lemma {:induction false} SetReflexive(a: seq<Pred>)
    ensures EachFound(a, a) && EachCovered(a, a)
    decreases a
  {
    forall i | 0 <= i < |a| ensures Found(a[i], a) && Covered(a, a[i]) {
      PredEqReflexive(a[i]);
      FoundIff(a[i], a);
      CoveredIff(a, a[i]);
    }
    EachFoundIff(a, a);
    EachCoveredIff(a, a);
  }

  lemma {:induction false} PredEqSymmetric(a: Pred, b: Pred)
    requires PredEq(a, b)
    ensures PredEq(b, a)
    decreases a
  {
    match a
    case Not(c, _) => PredEqSymmetric(c, b.child);
    case And(cs, _) => SetSymmetric(cs, b.children);
    case Or(cs, _) => SetSymmetric(cs, b.children);
    case _ =>
  }

  lemma {:induction false} SetSymmetric(a: seq<Pred>, b: seq<Pred>)
    requires EachFound(a, b) && EachCovered(a, b)
    ensures EachFound(b, a) && EachCovered(b, a)
    decreases a
  {
    hide PredEq, Found, EachFound, Covered, EachCovered;
    EachFoundIff(a, b);
    EachCoveredIff(a, b);
    forall j | 0 <= j < |b| ensures Found(b[j], a) {
      CoveredIff(a, b[j]);
      var i :| 0 <= i < |a| && PredEq(a[i], b[j]);
      PredEqSymmetric(a[i], b[j]);
      FoundIff(b[j], a);
    }
    forall i | 0 <= i < |a| ensures Covered(b, a[i]) {
      FoundIff(a[i], b);
      var j :| 0 <= j < |b| && PredEq(a[i], b[j]);
      PredEqSymmetric(a[i], b[j]);
      CoveredIff(b, a[i]);
    }
    EachFoundIff(b, a);
    EachCoveredIff(b, a);
  }

  lemma {:induction false} PredEqTransitive(a: Pred, b: Pred, c: Pred)
    requires PredEq(a, b) && PredEq(b, c)
    ensures PredEq(a, c)
    decreases a
  {
    match a
    case Not(d, _) => PredEqTransitive(d, b.child, c.child);
    case And(cs, _) => SetTransitive(cs, b.children, c.children);
    case Or(cs, _) => SetTransitive(cs, b.children, c.children);
    case _ =>
  }

  lemma {:induction false} SetTransitive(a: seq<Pred>, b: seq<Pred>, c: seq<Pred>)
    requires EachFound(a, b) && EachCovered(a, b) && EachFound(b, c) && EachCovered(b, c)
    ensures EachFound(a, c) && EachCovered(a, c)
    decreases a
  {
    hide PredEq, Found, EachFound, Covered, EachCovered;
    EachFoundIff(a, b);
    EachFoundIff(b, c);
    EachCoveredIff(a, b);
    EachCoveredIff(b, c);
    forall i | 0 <= i < |a| ensures Found(a[i], c) {
      FoundIff(a[i], b);
      var j :| 0 <= j < |b| && PredEq(a[i], b[j]);
      FoundIff(b[j], c);
      var k :| 0 <= k < |c| && PredEq(b[j], c[k]);
      PredEqTransitive(a[i], b[j], c[k]);
      FoundIff(a[i], c);
    }
    forall k | 0 <= k < |c| ensures Covered(a, c[k]) {
      CoveredIff(b, c[k]);
      var j :| 0 <= j < |b| && PredEq(b[j], c[k]);
      CoveredIff(a, b[j]);
      var i :| 0 <= i < |a| && PredEq(a[i], b[j]);
      PredEqTransitive(a[i], b[j], c[k]);
      CoveredIff(a, c[k]);
    }
    EachFoundIff(a, c);
    EachCoveredIff(a, c);
  }
}
