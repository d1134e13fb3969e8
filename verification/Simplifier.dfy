/** The predicate simplifier: children first, then one rule at a time until none applies. */
module Simplifier {
  import opened Sequences
  import opened Predicates
  import opened NormalForm
  import opened Absorption
  import opened Normalizer
  import opened Weights

  /** A rule's answer. A rule that creates new children asks for their exploration. */
  datatype Rewrite = Unchanged | Replaced(pred: Pred, reExplore: bool)

  // ---------------------------------------------------------------- the rules

  function Keep(ps: seq<Pred>, dropped: Tri): seq<Pred> {
    if ps == [] then []
    else
      var init, last := Keep(ps[..|ps| - 1], dropped), ps[|ps| - 1];
      if last == Const(dropped) then init else init + [last]
  }

  /** Identity and annulment: OR drops FALSE and yields to TRUE, AND the other way round. */
  function ConstantRule(m: Mode, cs: seq<Pred>): Rewrite {
    if Const(Unit(Dual(m))) in cs then Replaced(Const(Unit(Dual(m))), false)
    else if Const(Unit(m)) in cs then Replaced(Build(m, Keep(cs, Unit(m))), false)
    else Unchanged
  }

  /** Each term as a clause: a minor connective, atomic or not, by its distinct children. */
  function TermClauses(m: Mode, terms: seq<Pred>): (r: seq<Clause>)
    ensures |r| == |terms|
    ensures forall i :: 0 <= i < |r| ==>
              r[i] == if IsMinor(m, terms[i]) then Dedup(terms[i].children) else [terms[i]]
  {
    seq(|terms|, i requires 0 <= i < |terms| =>
      if IsMinor(m, terms[i]) then Dedup(terms[i].children) else [terms[i]])
  }

  /** Absorption; survivors are rebuilt, without their atomicity, only if something was absorbed. */
  function AbsorbRule(m: Mode, terms: seq<Pred>): Rewrite {
    var clauses := TermClauses(m, terms);
    var survivors := Survivors(clauses);
    if |survivors| == |terms| then Unchanged
    else Replaced(Rebuild(m, Select(clauses, survivors)), false)
  }

  function NotEach(ps: seq<Pred>): (r: seq<Pred>)
    ensures |r| == |ps| && forall i :: 0 <= i < |r| ==> r[i] == Not(ps[i], false)
  {
    seq(|ps|, i requires 0 <= i < |ps| => Not(ps[i], false))
  }

  /** NOT over an invertible comparison, then De Morgan. */
  function NotRule(child: Pred): Rewrite {
    match child
    case Leaf(n, c) => if c.Invertible() then Replaced(Leaf(n, c.Inverse()), false) else Unchanged
    case And(cs, _) => Replaced(Or(NotEach(cs), false), true)
    case Or(cs, _) => Replaced(And(NotEach(cs), false), true)
    case _ => Unchanged
  }

  function OrElse(a: Rewrite, b: Rewrite): Rewrite { if a.Unchanged? then b else a }

  /** The rules of the default set, by the predicate's type. */
  function DefaultRules(p: Pred): Rewrite {
    match p
    case And(cs, _) => OrElse(ConstantRule(Cnf, cs), AbsorbRule(Cnf, cs))
    case Or(cs, _) => OrElse(ConstantRule(Dnf, cs), AbsorbRule(Dnf, cs))
    case Not(c, _) => NotRule(c)
    case _ => Unchanged
  }

  /** The first rule that applies. `dnf` marks the root when the root-only DNF rule is in the set. */
  function ApplyOnce(p: Pred, dnf: bool): Rewrite {
    if dnf && Admits(p, DEFAULT_SIZE_LIMIT, Dnf)
    then Replaced(Rebuild(Dnf, ToNormalized(p, false, Dnf)), true)
    else DefaultRules(p)
  }

  // ---------------------------------------------------------------- meaning of the rules

  lemma {:induction false} KeepMeaning(m: Mode, ps: seq<Pred>, v: Valuation)
    ensures EvalAll(m, Keep(ps, Unit(m)), v) == EvalAll(m, ps, v)
  {
    if ps != [] {
      var init, last := ps[..|ps| - 1], ps[|ps| - 1];
      KeepMeaning(m, init, v);
      var kept := Keep(init, Unit(m));
      assert (kept + [last])[..|kept|] == kept;
      assert EvalAll(m, kept + [last], v) == Join(m, EvalAll(m, kept, v), Eval(last, v));
    }
  }

  lemma ConstantRuleMeaning(m: Mode, cs: seq<Pred>, v: Valuation)
    ensures ConstantRule(m, cs).Replaced? ==> Eval(ConstantRule(m, cs).pred, v) == EvalAll(m, cs, v)
  {
    if Const(Unit(Dual(m))) in cs {
      JoinBounds(m, cs, v);
      var i :| 0 <= i < |cs| && cs[i] == Const(Unit(Dual(m)));
      assert Leq(m, Eval(cs[i], v), EvalAll(m, cs, v));
    } else {
      KeepMeaning(m, cs, v);
      BuildMeaning(m, Keep(cs, Unit(m)), v);
    }
  }

  lemma {:induction false} TermClausesMeaning(m: Mode, terms: seq<Pred>, v: Valuation)
    ensures ClausesVal(m, TermClauses(m, terms), v) == EvalAll(m, terms, v)
  {
    if terms != [] {
      var init, last := terms[..|terms| - 1], terms[|terms| - 1];
      TermClausesMeaning(m, init, v);
      assert TermClauses(m, terms)[..|terms| - 1] == TermClauses(m, init);
      if IsMinor(m, last) {
        DedupMeaning(Dual(m), last.children, v);
      } else {
        BuildMeaning(Dual(m), [last], v);
      }
    }
  }

  lemma AbsorbRuleMeaning(m: Mode, terms: seq<Pred>, v: Valuation)
    ensures AbsorbRule(m, terms).Replaced? ==> Eval(AbsorbRule(m, terms).pred, v) == EvalAll(m, terms, v)
  {
    var clauses := TermClauses(m, terms);
    TermClausesMeaning(m, terms, v);
    AbsorptionMeaning(m, clauses, v);
    RebuildMeaning(m, Select(clauses, Survivors(clauses)), v);
  }

  lemma {:induction false} NotEachMeaning(m: Mode, ps: seq<Pred>, v: Valuation)
    ensures EvalAll(m, NotEach(ps), v) == Negate(EvalAll(Dual(m), ps, v))
  {
    if ps != [] {
      NotEachMeaning(m, ps[..|ps| - 1], v);
      assert NotEach(ps)[..|ps| - 1] == NotEach(ps[..|ps| - 1]);
    }
  }

  /** Every rule preserves the Kleene meaning. */
  lemma ApplyOnceMeaning(p: Pred, dnf: bool, v: Valuation)
    requires Sound(v)
    ensures ApplyOnce(p, dnf).Replaced? ==> Eval(ApplyOnce(p, dnf).pred, v) == Eval(p, v)
  {
    hide AbsorbRule, ConstantRule, Rebuild, ToNormalized;
    if dnf && Admits(p, DEFAULT_SIZE_LIMIT, Dnf) {
      NormalizeMeaning(p, DEFAULT_SIZE_LIMIT, Dnf, v);
    } else {
      match p
      case And(cs, _) => ConstantRuleMeaning(Cnf, cs, v); AbsorbRuleMeaning(Cnf, cs, v);
      case Or(cs, _) => ConstantRuleMeaning(Dnf, cs, v); AbsorbRuleMeaning(Dnf, cs, v);
      case Not(And(cs, _), _) => NotEachMeaning(Dnf, cs, v);
      case Not(Or(cs, _), _) => NotEachMeaning(Cnf, cs, v);
      case _ =>
    }
  }

  // ---------------------------------------------------------------- weight of the rules

  lemma {:induction false} KeepWeight(ps: seq<Pred>, dropped: Tri)
    ensures Product(Keep(ps, dropped)) <= Product(ps) && Sum(Keep(ps, dropped)) <= Sum(ps)
    ensures Const(dropped) in ps ==>
      2 * Product(Keep(ps, dropped)) <= Product(ps) && Sum(Keep(ps, dropped)) + 2 <= Sum(ps)
  {
    if ps != [] {
      var init, last := ps[..|ps| - 1], ps[|ps| - 1];
      KeepWeight(init, dropped);
      assert ps == init + [last];
      var kept := Keep(init, dropped);
      Concat(kept, [last]);
      Single(last);
      ScaledOrder(Product(kept), Product(init), Weight(last));
    }
  }

  lemma ScaledOrder(a: nat, b: nat, w: nat)
    ensures a <= b && w >= 2 ==> a * w <= b * w && 2 * a <= b * w
    ensures 2 * a <= b ==> 2 * (a * w) <= b * w
  {
    MulOrder(a, b, w);
    MulOrder(2 * a, b, w);
    MulOrder(2, w, a);
    assert 2 * a * w == 2 * (a * w) && w * a == a * w;
  }

  lemma ConstantRuleWeight(m: Mode, cs: seq<Pred>)
    ensures ConstantRule(m, cs).Replaced? ==>
      Weight(ConstantRule(m, cs).pred) < if m.Cnf? then 2 * Product(cs) else 2 + Sum(cs)
  {
    if Const(Unit(Dual(m))) in cs {
      var i :| 0 <= i < |cs| && cs[i] == Const(Unit(Dual(m)));
      ChildLighter(cs, i);
    } else {
      KeepWeight(cs, Unit(m));
      BuildAndWeight(Keep(cs, Unit(m)));
      BuildOrWeight(Keep(cs, Unit(m)));
    }
  }

  lemma {:induction false} DedupWeight(ps: seq<Pred>)
    ensures Product(Dedup(ps)) <= Product(ps) && Sum(Dedup(ps)) <= Sum(ps)
  {
    if ps != [] {
      var init, last := ps[..|ps| - 1], ps[|ps| - 1];
      DedupWeight(init);
      Concat(Dedup(init), [last]);
      Single(last);
      ScaledOrder(Product(Dedup(init)), Product(init), Weight(last));
    }
  }

  /** A rebuilt term is no heavier than the term. */
  lemma RebuiltTermWeight(m: Mode, terms: seq<Pred>, i: nat)
    requires i < |terms|
    ensures Weight(Build(Dual(m), TermClauses(m, terms)[i])) <= Weight(terms[i])
  {
    if IsMinor(m, terms[i]) {
      var ds := terms[i].children;
      DedupWeight(ds);
      BuildAndWeight(Dedup(ds));
      BuildOrWeight(Dedup(ds));
    }
  }

  ghost function KeptBelow(m: Mode, terms: seq<Pred>, k: nat): seq<Pred>
    requires k <= |terms|
  {
    Built(m, Select(TermClauses(m, terms), SurvivorsBelow(TermClauses(m, terms), k)))
  }

  lemma KeptStep(m: Mode, terms: seq<Pred>, k: nat)
    requires k < |terms|
    ensures var clauses := TermClauses(m, terms);
            KeptBelow(m, terms, k + 1) == KeptBelow(m, terms, k)
              + if Survives(clauses, k) then [Build(Dual(m), clauses[k])] else []
  {
    hide Survives, Build;
    assert KeptBelow(m, terms, k) + [] == KeptBelow(m, terms, k);
  }

  lemma StepNumbers(kept: nat, all: nat, x: nat, w: nat)
    requires kept <= all && x <= w && w >= 2
    ensures kept * x <= all * w && 2 * kept <= all * w
    ensures 2 * kept <= all ==> 2 * (kept * x) <= all * w
  {
    ScaledOrder(kept, all, w);
    MulOrder(x, w, kept);
    assert x * kept == kept * x && w * kept == kept * w;
  }

  /** The kept terms weigh no more than all, and less if one of the `k` is gone. */
  ghost predicate Lighter(kept: seq<Pred>, all: seq<Pred>, k: nat) {
    && |kept| <= k && Product(kept) <= Product(all) && Sum(kept) <= Sum(all)
    && (|kept| < k ==> 2 * Product(kept) <= Product(all) && Sum(kept) + 2 <= Sum(all))
  }

  lemma LighterStep(kept: seq<Pred>, all: seq<Pred>, k: nat, x: Pred, y: Pred)
    requires Lighter(kept, all, k) && Weight(x) <= Weight(y)
    ensures Lighter(kept, all + [y], k + 1) && Lighter(kept + [x], all + [y], k + 1)
  {
    hide Product, Sum, Weight;
    Concat(kept, [x]);
    Single(x);
    Concat(all, [y]);
    Single(y);
    StepNumbers(Product(kept), Product(all), Weight(x), Weight(y));
  }

  lemma SurvivingNone(m: Mode, terms: seq<Pred>)
    ensures Lighter(KeptBelow(m, terms, 0), terms[..0], 0)
  {
    assert KeptBelow(m, terms, 0) == [] == terms[..0];
  }

  lemma {:induction false} SurvivingWeight(m: Mode, terms: seq<Pred>, k: nat)
    requires k <= |terms|
    ensures Lighter(KeptBelow(m, terms, k), terms[..k], k)
  {
    hide Lighter, KeptBelow, Build, TermClauses, Survives;
    if k == 0 {
      SurvivingNone(m, terms);
    } else {
      SurvivingWeight(m, terms, k - 1);
      RebuiltTermWeight(m, terms, k - 1);
      KeptStep(m, terms, k - 1);
      var kept, last := KeptBelow(m, terms, k - 1), Build(Dual(m), TermClauses(m, terms)[k - 1]);
      assert terms[..k] == terms[..k - 1] + [terms[k - 1]];
      assert kept + [] == kept;
      LighterStep(kept, terms[..k - 1], k - 1, last, terms[k - 1]);
    }
  }

  lemma AbsorbRuleWeight(m: Mode, terms: seq<Pred>)
    ensures AbsorbRule(m, terms).Replaced? ==>
      Weight(AbsorbRule(m, terms).pred) < if m.Cnf? then 2 * Product(terms) else 2 + Sum(terms)
  {
    var clauses := TermClauses(m, terms);
    var kept := KeptBelow(m, terms, |terms|);
    SurvivingWeight(m, terms, |terms|);
    assert terms[..|terms|] == terms;
    BuildAndWeight(kept);
    BuildOrWeight(kept);
  }

  lemma {:induction false} NotEachWeight(ps: seq<Pred>)
    ensures Sum(NotEach(ps)) == SignedSum(ps, true) && Product(NotEach(ps)) == SignedProduct(ps, true)
  {
    if ps != [] {
      NotEachWeight(ps[..|ps| - 1]);
      assert NotEach(ps)[..|ps| - 1] == NotEach(ps[..|ps| - 1]);
    }
  }

  /** Every rule of the default set makes the predicate strictly lighter. */
  lemma DefaultRulesWeight(p: Pred)
    ensures DefaultRules(p).Replaced? ==> Weight(DefaultRules(p).pred) < Weight(p)
  {
    hide AbsorbRule, ConstantRule;
    match p
    case And(cs, _) => ConstantRuleWeight(Cnf, cs); AbsorbRuleWeight(Cnf, cs);
    case Or(cs, _) => ConstantRuleWeight(Dnf, cs); AbsorbRuleWeight(Dnf, cs);
    case Not(Leaf(_, _), _) => assert Pow2(2) == 4;
    case Not(And(cs, _), _) => NotEachWeight(cs); NegatedConnective(cs);
    case Not(Or(cs, _), _) => NotEachWeight(cs); NegatedConnective(cs); Pow2Adds(2, Sum(cs)); assert Pow2(2) == 4;
    case _ =>
  }

  function Flag(p: Pred, dnf: bool): nat {
    if dnf && !IsInNormalForm(p, Dnf) then 1 else 0
  }

  /** The termination measure: the weight, then whether the root still has to be distributed. */
  lemma ApplyOnceLighter(p: Pred, dnf: bool)
    ensures ApplyOnce(p, dnf).Replaced? ==>
      var q := ApplyOnce(p, dnf).pred;
      Weight(q) < Weight(p) || (dnf && Weight(q) <= Weight(p) && Flag(q, dnf) < Flag(p, dnf))
  {
    hide DefaultRules, Weight;
    DefaultRulesWeight(p);
    DnfNoHeavier(p);
    NormalizedIsNormal(p, Dnf);
  }
}
