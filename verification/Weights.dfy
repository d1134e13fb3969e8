/** A weight that no rewrite rule increases: it is what makes simplification terminate. */
module Weights {
  import opened Sequences
  import opened Predicates
  import opened NormalForm

  function Weight(p: Pred): (w: nat)
    ensures w >= 2
    decreases p
  {
    match p
    case Const(_) => 2
    case Leaf(_, _) => 2
    case And(cs, _) => 2 * Product(cs)
    case Or(cs, _) => 2 + Sum(cs)
    case Not(c, _) => Pow2AtLeast(Weight(c)); Pow2(Weight(c))
  }

  lemma Pow2AtLeast(k: nat)
    requires k >= 1
    ensures Pow2(k) >= 2
  {
  }

  function Product(ps: seq<Pred>): (w: nat)
    ensures w >= 1
    decreases ps
  {
    if ps == [] then 1 else
      MulOrder(1, Product(ps[..|ps| - 1]), Weight(ps[|ps| - 1]));
      Product(ps[..|ps| - 1]) * Weight(ps[|ps| - 1])
  }

  function Sum(ps: seq<Pred>): nat
    decreases ps
  {
    if ps == [] then 0 else Sum(ps[..|ps| - 1]) + Weight(ps[|ps| - 1])
  }

  // ---------------------------------------------------------------- lists

  lemma {:induction false} Concat(a: seq<Pred>, b: seq<Pred>)
    ensures Product(a + b) == Product(a) * Product(b)
    ensures Sum(a + b) == Sum(a) + Sum(b)
  {
    if b == [] {
      assert a + b == a;
    } else {
      var init := b[..|b| - 1];
      Concat(a, init);
      assert (a + b)[..|a + b| - 1] == a + init;
      assert Product(a + b) == Product(a) * Product(init) * Weight(b[|b| - 1]);
      assert Product(b) == Product(init) * Weight(b[|b| - 1]);
      Associate(Product(a), Product(init), Weight(b[|b| - 1]));
    }
  }

  lemma Associate(a: nat, b: nat, c: nat)
    ensures a * b * c == a * (b * c)
  {
  }

  lemma Single(p: Pred)
    ensures Product([p]) == Weight(p) && Sum([p]) == Weight(p)
  {
    assert [p][..0] == [];
    assert Product([p]) == Product([]) * Weight(p);
    assert Sum([p]) == Sum([]) + Weight(p);
  }

  lemma Commute(a: nat, b: nat, c: nat)
    ensures a * b * c == a * c * b
  {
  }

  /** One element's share of a list's weight. */
  lemma {:induction false} SplitAt(ps: seq<Pred>, i: nat)
    requires i < |ps|
    ensures Product(ps) == Product(ps[..i] + ps[i + 1..]) * Weight(ps[i])
    ensures Sum(ps) == Sum(ps[..i] + ps[i + 1..]) + Weight(ps[i])
  {
    var k := |ps| - 1;
    var rest := ps[..i] + ps[i + 1..];
    if i == k {
      assert rest == ps[..k];
    } else {
      var init := ps[..k];
      SplitAt(init, i);
      var rest' := init[..i] + init[i + 1..];
      assert rest[..|rest| - 1] == rest' && rest[|rest| - 1] == ps[k];
      assert Product(ps) == Product(rest') * Weight(ps[i]) * Weight(ps[k]);
      Commute(Product(rest'), Weight(ps[i]), Weight(ps[k]));
    }
  }

  lemma Distribute(a: nat, b: nat, c: nat)
    ensures (a + b) * c == a * c + b * c && c * (a + b) == c * a + c * b
  {
  }

  /** A child weighs less than its parent. */
  lemma ChildLighter(ps: seq<Pred>, i: nat)
    requires i < |ps|
    ensures Weight(ps[i]) <= Product(ps) && Weight(ps[i]) <= Sum(ps)
  {
    hide Product, Sum, Weight;
    SplitAt(ps, i);
    MulOrder(1, Product(ps[..i] + ps[i + 1..]), Weight(ps[i]));
  }

  /** Pointwise lighter lists are lighter, strictly so if some element is. */
  lemma {:induction false} Pointwise(a: seq<Pred>, b: seq<Pred>)
    requires |a| == |b|
    requires forall i :: 0 <= i < |a| ==> a[i] == b[i] || Weight(a[i]) < Weight(b[i])
    ensures Product(a) <= Product(b) && Sum(a) <= Sum(b)
    ensures a != b ==> Product(a) < Product(b) && Sum(a) < Sum(b)
  {
    if a != [] {
      var k := |a| - 1;
      Pointwise(a[..k], b[..k]);
      MulStrict(Product(a[..k]), Product(b[..k]), Weight(a[k]), Weight(b[k]));
      assert a != b ==> a[..k] != b[..k] || a[k] != b[k] by {
        assert a == a[..k] + [a[k]] && b == b[..k] + [b[k]];
      }
    }
  }

  lemma MulStrict(a: nat, b: nat, x: nat, y: nat)
    requires a <= b && x <= y && b >= 1 && y >= 1
    ensures a * x <= b * y
    ensures a < b || x < y ==> a * x < b * y
  {
    MulOrder(a, b, x);
    MulOrder(x, y, b);
    assert x * b == b * x && y * b == b * y;
    if a < b {
      MulOrder(a + 1, b, y);
      assert (a + 1) * y == a * y + y;
      MulOrder(x, y, a);
      assert x * a == a * x && y * a == a * y;
    } else if x < y {
      MulOrder(x + 1, y, b);
      assert (x + 1) * b == x * b + b;
    }
  }

  // ---------------------------------------------------------------- building

  lemma BuildAndWeight(ps: seq<Pred>)
    ensures Weight(Build(Cnf, ps)) <= 2 * Product(ps)
    ensures |ps| == 1 ==> Weight(Build(Cnf, ps)) == Product(ps)
  {
    if |ps| == 1 { assert ps == [ps[0]]; Single(ps[0]); }
  }

  lemma BuildOrWeight(ps: seq<Pred>)
    ensures Weight(Build(Dnf, ps)) <= 2 + Sum(ps)
  {
    if |ps| == 1 { assert ps == [ps[0]]; Single(ps[0]); }
  }

  // ---------------------------------------------------------------- distribution

  /** The weight of a predicate, or of its negation. */
  function SignedWeight(p: Pred, negate: bool): (w: nat)
    ensures w >= 2
  {
    Pow2AtLeast(Weight(p));
    if negate then Pow2(Weight(p)) else Weight(p)
  }

  function SignedSum(ps: seq<Pred>, negate: bool): nat {
    if ps == [] then 0 else SignedSum(ps[..|ps| - 1], negate) + SignedWeight(ps[|ps| - 1], negate)
  }

  function SignedProduct(ps: seq<Pred>, negate: bool): (w: nat)
    ensures w >= 1
  {
    if ps == [] then 1 else
      MulOrder(1, SignedProduct(ps[..|ps| - 1], negate), SignedWeight(ps[|ps| - 1], negate));
      SignedProduct(ps[..|ps| - 1], negate) * SignedWeight(ps[|ps| - 1], negate)
  }

  /** De Morgan makes a negated connective strictly lighter. */
  lemma {:induction false} NegatedConnective(cs: seq<Pred>)
    ensures SignedSum(cs, true) + 3 <= Pow2(2 * Product(cs))
    ensures SignedProduct(cs, true) == Pow2(Sum(cs))
    ensures SignedSum(cs, false) == Sum(cs) && SignedProduct(cs, false) == Product(cs)
  {
    if cs == [] {
      assert Pow2(2) == 4;
    } else {
      var init, w := cs[..|cs| - 1], Weight(cs[|cs| - 1]);
      NegatedConnective(init);
      var p := Product(init);
      Pow2Adds(Sum(init), w);
      Pow2Adds(2 * p, w);
      PairFits(p, w);
      Pow2Monotone(2 * p + w, 2 * (p * w));
      Pow2AtLeast(2 * p);
      Pow2AtLeast(w);
      SumBelowProduct(Pow2(2 * p), Pow2(w));
    }
  }

  lemma PairFits(p: nat, w: nat)
    requires p >= 1 && w >= 2
    ensures 2 * p + w <= 2 * (p * w)
  {
    MulOrder(1, p, w - 1);
    assert p * (w - 1) == p * w - p;
  }

  lemma SumBelowProduct(a: nat, b: nat)
    requires a >= 2 && b >= 2
    ensures a + b <= a * b
  {
    MulOrder(1, a - 1, b - 1);
    assert (a - 1) * (b - 1) == a * b - a - b + 1;
  }

  function ProductSum(clauses: seq<Clause>): nat {
    if clauses == [] then 0 else ProductSum(clauses[..|clauses| - 1]) + Product(clauses[|clauses| - 1])
  }

  lemma {:induction false} ProductSumConcat(a: seq<Clause>, b: seq<Clause>)
    ensures ProductSum(a + b) == ProductSum(a) + ProductSum(b)
  {
    if b == [] {
      assert a + b == a;
    } else {
      ProductSumConcat(a, b[..|b| - 1]);
      assert (a + b)[..|a + b| - 1] == a + b[..|b| - 1];
    }
  }

  lemma {:induction false} AppendEachWeight(lefts: seq<Clause>, right: Clause)
    ensures ProductSum(AppendEach(lefts, right)) == ProductSum(lefts) * Product(right)
  {
    hide Product;
    if lefts != [] {
      var init, last := lefts[..|lefts| - 1], lefts[|lefts| - 1];
      AppendEachWeight(init, right);
      Concat(last, right);
      assert AppendEach(lefts, right)[..|lefts| - 1] == AppendEach(init, right);
      Distribute(ProductSum(init), Product(last), Product(right));
    }
  }

  lemma {:induction false} CrossWeight(lefts: seq<Clause>, rights: seq<Clause>)
    ensures ProductSum(Cross(lefts, rights)) == ProductSum(lefts) * ProductSum(rights)
  {
    hide Product;
    if rights != [] {
      var init, last := rights[..|rights| - 1], rights[|rights| - 1];
      CrossWeight(lefts, init);
      AppendEachWeight(lefts, last);
      ProductSumConcat(Cross(lefts, init), AppendEach(lefts, last));
      Distribute(ProductSum(init), Product(last), ProductSum(lefts));
      assert ProductSum(rights) == ProductSum(init) + Product(last);
      assert ProductSum(Cross(lefts, rights)) == ProductSum(lefts) * ProductSum(init) + ProductSum(lefts) * Product(last);
    }
  }

  lemma {:induction false} BuiltWeight(clauses: seq<Clause>)
    ensures Sum(Built(Dnf, clauses)) <= 2 * ProductSum(clauses)
  {
    if clauses != [] {
      var init, last := clauses[..|clauses| - 1], clauses[|clauses| - 1];
      BuiltWeight(init);
      BuildAndWeight(last);
      assert Built(Dnf, clauses)[..|clauses| - 1] == Built(Dnf, init);
    }
  }

  lemma BuiltConcat(a: seq<Clause>, b: seq<Clause>)
    ensures Sum(Built(Dnf, a + b)) == Sum(Built(Dnf, a)) + Sum(Built(Dnf, b))
  {
    assert Built(Dnf, a + b) == Built(Dnf, a) + Built(Dnf, b);
    Concat(Built(Dnf, a), Built(Dnf, b));
  }

  /** The clauses of `p` against a budget `w`: with room for the outer OR if there are several. */
  ghost predicate Fits(clauses: seq<Clause>, w: nat) {
    && ProductSum(clauses) <= w
    && Sum(Built(Dnf, clauses)) <= w
    && (|clauses| >= 2 ==> ProductSum(clauses) < w && Sum(Built(Dnf, clauses)) + 2 <= w)
  }

  lemma LiteralFits(p: Pred, negate: bool)
    ensures Fits([[Literal(p, negate)]], SignedWeight(p, negate))
  {
    var q := Literal(p, negate);
    Single(q);
    var one: seq<Clause> := [[q]];
    assert one[..0] == [];
    assert ProductSum(one) == ProductSum([]) + Product([q]);
    assert Built(Dnf, one) == [q];
  }

  lemma {:induction false} NormalizedFits(p: Pred, negate: bool)
    ensures Fits(ToNormalized(p, negate, Dnf), SignedWeight(p, negate))
    decreases p
  {
    hide Fits, Built, ProductSum, Product, Sum;
    if IsAtomic(p) || p.Const? || p.Leaf? {
      LiteralFits(p, negate);
    } else {
      match p
      case Not(c, _) =>
        NormalizedFits(c, !negate);
        Pow2Exceeds(Weight(c));
        Pow2Exceeds(Pow2(Weight(c)));
        FitsMore(ToNormalized(c, !negate, Dnf), SignedWeight(c, !negate), SignedWeight(p, negate));
      case And(cs, _) =>
        ConnectiveFits(cs, negate);
        NegatedConnective(cs);
        if negate { MajorsFit(cs, true, SignedWeight(p, true)); } else { MinorsFit(cs, false, SignedWeight(p, false)); }
      case Or(cs, _) =>
        ConnectiveFits(cs, negate);
        NegatedConnective(cs);
        if negate {
          Pow2Adds(2, Sum(cs));
          MinorsFit(cs, true, SignedWeight(p, true));
        } else {
          MajorsFit(cs, false, SignedWeight(p, false));
        }
    }
  }

  lemma FitsMore(clauses: seq<Clause>, w: nat, w': nat)
    requires Fits(clauses, w) && w <= w'
    ensures Fits(clauses, w')
  {
  }

  lemma MajorsFit(cs: seq<Pred>, negate: bool, w: nat)
    requires ConnectiveBounds(cs, negate) && SignedSum(cs, negate) + 2 <= w
    ensures Fits(Majors(cs, negate, Dnf), w)
  {
  }

  lemma MinorsFit(cs: seq<Pred>, negate: bool, w: nat)
    requires ConnectiveBounds(cs, negate) && 2 * SignedProduct(cs, negate) <= w
    ensures Fits(Minors(cs, negate, Dnf), w)
  {
    BuiltWeight(Minors(cs, negate, Dnf));
  }

  ghost predicate ConnectiveBounds(cs: seq<Pred>, negate: bool) {
    && ProductSum(Majors(cs, negate, Dnf)) <= SignedSum(cs, negate)
    && Sum(Built(Dnf, Majors(cs, negate, Dnf))) <= SignedSum(cs, negate)
    && ProductSum(Minors(cs, negate, Dnf)) <= SignedProduct(cs, negate)
    && (|Minors(cs, negate, Dnf)| >= 2 ==> ProductSum(Minors(cs, negate, Dnf)) < SignedProduct(cs, negate))
  }

  lemma {:induction false} ConnectiveFits(cs: seq<Pred>, negate: bool)
    ensures ConnectiveBounds(cs, negate)
    decreases cs
  {
    if cs == [] {
      var one: seq<Clause> := [[]];
      assert one[..0] == [];
      assert ProductSum(one) == ProductSum([]) + Product([]);
    } else {
      var init, last := cs[..|cs| - 1], cs[|cs| - 1];
      ConnectiveFits(init, negate);
      NormalizedFits(last, negate);
      ConnectiveStep(cs, negate);
    }
  }

  lemma ConnectiveStep(cs: seq<Pred>, negate: bool)
    requires cs != [] && ConnectiveBounds(cs[..|cs| - 1], negate)
    requires Fits(ToNormalized(cs[|cs| - 1], negate, Dnf), SignedWeight(cs[|cs| - 1], negate))
    ensures ConnectiveBounds(cs, negate)
  {
    hide Built, ProductSum, Product, Sum, SignedWeight, ToNormalized;
    var init, last := cs[..|cs| - 1], cs[|cs| - 1];
    var majors, minors, own := Majors(init, negate, Dnf), Minors(init, negate, Dnf), ToNormalized(last, negate, Dnf);
    ProductSumConcat(majors, own);
    BuiltConcat(majors, own);
    CrossWeight(minors, own);
    MulStrict(ProductSum(minors), SignedProduct(init, negate), ProductSum(own), SignedWeight(last, negate));
    SeveralFactors(|minors|, |own|);
  }

  lemma SeveralFactors(a: nat, b: nat)
    ensures a * b >= 2 ==> a >= 2 || b >= 2
  {
    MulOrder(a, 1, b);
  }

  /** Distributing a predicate into DNF never makes it heavier. */
  lemma DnfNoHeavier(p: Pred)
    ensures Weight(Rebuild(Dnf, ToNormalized(p, false, Dnf))) <= Weight(p)
  {
    var clauses := ToNormalized(p, false, Dnf);
    NormalizedFits(p, false);
    var ps := Built(Dnf, clauses);
    BuildOrWeight(ps);
    if |ps| == 1 { assert ps == [ps[0]]; Single(ps[0]); }
  }
}
