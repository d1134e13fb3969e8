/** Turning a conjunction into unions: some factors stay fixed, the others are expanded into DNF terms. */
module UnionLegs {
  import opened Sequences
  import opened Predicates
  import opened NormalForm
  import opened Simplification

  type Leg = seq<Pred>

  predicate Bit(mask: nat, i: nat) { (mask / Pow2(i)) % 2 == 1 }

  /** The factors whose bit is set, made atomic so that a leg cannot expand them again. */
  function Fixed(factors: seq<Pred>, mask: nat): seq<Pred> {
    if factors == [] then []
    else
      var i := |factors| - 1;
      Fixed(factors[..i], mask) + if Bit(mask, i) then [WithAtomicity(factors[i], true)] else []
  }

  function Expanded(factors: seq<Pred>, mask: nat): seq<Pred> {
    if factors == [] then []
    else
      var i := |factors| - 1;
      Expanded(factors[..i], mask) + if Bit(mask, i) then [] else [factors[i]]
  }

  function Normalized(factors: seq<Pred>, mask: nat): Pred {
    Simplify(Build(Cnf, Expanded(factors, mask)), true)
  }

  /** The expanded factors form a disjunction that may be split. */
  predicate IsUnion(factors: seq<Pred>, mask: nat) {
    Normalized(factors, mask).Or? && !Normalized(factors, mask).atomic
  }

  /** The DNF terms of the expanded factors. */
  function Terms(factors: seq<Pred>, mask: nat): seq<Pred> {
    if IsUnion(factors, mask) then Normalized(factors, mask).children else []
  }

  function Legs(fixed: seq<Pred>, terms: seq<Pred>): (legs: seq<Leg>)
    ensures |legs| == |terms| && forall i :: 0 <= i < |legs| ==> legs[i] == fixed + [terms[i]]
  {
    seq(|terms|, i requires 0 <= i < |terms| => fixed + [terms[i]])
  }

  /** A union returns a row when one of its legs does; a leg when all of its predicates hold. */
  function UnionVal(legs: seq<Leg>, v: Valuation): Tri { ClausesVal(Dnf, legs, v) }

  // ---------------------------------------------------------------- meaning

  lemma AtomicityMeaning(p: Pred, atomic: bool, v: Valuation)
    ensures Eval(WithAtomicity(p, atomic), v) == Eval(p, v)
  {
  }

  lemma {:induction false} SplitMeaning(factors: seq<Pred>, mask: nat, v: Valuation)
    ensures EvalAll(Cnf, factors, v) ==
            Join(Cnf, EvalAll(Cnf, Fixed(factors, mask), v), EvalAll(Cnf, Expanded(factors, mask), v))
  {
    if factors == [] {
      assert EvalAll(Cnf, factors, v) == TRUE;
    } else {
      var i := |factors| - 1;
      SplitMeaning(factors[..i], mask, v);
      SplitStep(factors, mask, v);
    }
  }

  lemma SplitStep(factors: seq<Pred>, mask: nat, v: Valuation)
    requires factors != []
    requires var init := factors[..|factors| - 1];
             EvalAll(Cnf, init, v) ==
             Join(Cnf, EvalAll(Cnf, Fixed(init, mask), v), EvalAll(Cnf, Expanded(init, mask), v))
    ensures EvalAll(Cnf, factors, v) ==
            Join(Cnf, EvalAll(Cnf, Fixed(factors, mask), v), EvalAll(Cnf, Expanded(factors, mask), v))
  {
    hide Bit, EvalAll, Eval, WithAtomicity;
    var i := |factors| - 1;
    var init, last, atomic := factors[..i], factors[i], WithAtomicity(factors[i], true);
    assert factors == init + [last];
    AtomicityMeaning(last, true, v);
    EvalAllConcat(Cnf, init, [last], v);
    EvalAllConcat(Cnf, Fixed(init, mask), [atomic], v);
    EvalAllConcat(Cnf, Expanded(init, mask), [last], v);
    BuildMeaning(Cnf, [atomic], v);
    BuildMeaning(Cnf, [last], v);
    assert Fixed(init, mask) + [] == Fixed(init, mask) && Expanded(init, mask) + [] == Expanded(init, mask);
  }

  lemma {:induction false} LegsMeaning(fixed: seq<Pred>, terms: seq<Pred>, v: Valuation)
    ensures UnionVal(Legs(fixed, terms), v) == Join(Cnf, EvalAll(Cnf, fixed, v), EvalAll(Dnf, terms, v))
  {
    if terms != [] {
      var i := |terms| - 1;
      assert Legs(fixed, terms)[..i] == Legs(fixed, terms[..i]);
      EvalAllConcat(Cnf, fixed, [terms[i]], v);
      BuildMeaning(Cnf, [terms[i]], v);
      LegsMeaning(fixed, terms[..i], v);
    }
  }

  /** Every union means the conjunction of all factors, whichever of them are fixed. */
  lemma UnionMeaning(factors: seq<Pred>, mask: nat, v: Valuation)
    requires Sound(v) && IsUnion(factors, mask)
    ensures UnionVal(Legs(Fixed(factors, mask), Terms(factors, mask)), v) == EvalAll(Cnf, factors, v)
  {
    hide Simplify, Fixed, Expanded, Legs, Build;
    var expanded := Expanded(factors, mask);
    SimplifyMeaning(Build(Cnf, expanded), true, v);
    BuildMeaning(Cnf, expanded, v);
    SplitMeaning(factors, mask, v);
    LegsMeaning(Fixed(factors, mask), Terms(factors, mask), v);
  }

  // ---------------------------------------------------------------- which factors are fixed

  /** The same predicate, made atomic if it is a connective. */
  predicate AtomicCopy(p: Pred, q: Pred) {
    if p.Const? || p.Leaf? then q == p else !q.Const? && !q.Leaf? && q.atomic && WithAtomicity(q, p.atomic) == p
  }

  /** The positions below `n` whose bit is the wanted one, in order. */
  ghost predicate Chosen(at: seq<nat>, n: nat, mask: nat, wanted: bool) {
    Increasing(at) && forall i: nat :: i in at <==> i < n && Bit(mask, i) == wanted
  }

  lemma ChosenOneMore(at: seq<nat>, n: nat, mask: nat, wanted: bool)
    requires Chosen(at, n, mask, wanted)
    ensures Chosen(if Bit(mask, n) == wanted then at + [n] else at, n + 1, mask, wanted)
    ensures forall j :: 0 <= j < |at| ==> at[j] < n
  {
    hide Bit;
    forall j | 0 <= j < |at| ensures at[j] < n { assert at[j] in at; }
  }

  /** `fixed` holds atomic copies of the factors at these positions, in order. */
  ghost predicate CopiesAt(factors: seq<Pred>, at: seq<nat>, fixed: seq<Pred>) {
    && |at| == |fixed|
    && forall j :: 0 <= j < |at| ==> at[j] < |factors| && AtomicCopy(factors[at[j]], fixed[j])
  }

  /** `expanded` holds the factors at these positions, in order. */
  ghost predicate FactorsAt(factors: seq<Pred>, at: seq<nat>, expanded: seq<Pred>) {
    && |at| == |expanded|
    && forall j :: 0 <= j < |at| ==> at[j] < |factors| && factors[at[j]] == expanded[j]
  }

  lemma CopyOneMore(factors: seq<Pred>, at: seq<nat>, fixed: seq<Pred>)
    requires factors != [] && CopiesAt(factors[..|factors| - 1], at, fixed)
    ensures var i := |factors| - 1;
      CopiesAt(factors, at, fixed) && CopiesAt(factors, at + [i], fixed + [WithAtomicity(factors[i], true)])
  {
    hide AtomicCopy, WithAtomicity;
    var i := |factors| - 1;
    CopyIsAtomic(factors[i]);
    assert forall j :: 0 <= j < |at| ==> factors[at[j]] == factors[..i][at[j]];
  }

  lemma FactorOneMore(factors: seq<Pred>, at: seq<nat>, expanded: seq<Pred>)
    requires factors != [] && FactorsAt(factors[..|factors| - 1], at, expanded)
    ensures var i := |factors| - 1;
      FactorsAt(factors, at, expanded) && FactorsAt(factors, at + [i], expanded + [factors[i]])
  {
    var i := |factors| - 1;
    assert forall j :: 0 <= j < |at| ==> factors[at[j]] == factors[..i][at[j]];
  }

  lemma CopyIsAtomic(p: Pred)
    ensures AtomicCopy(p, WithAtomicity(p, true))
  {
  }

  /** The fixed factors are atomic copies of those with their bit set, in order. */
  lemma {:induction false} FixedAre(factors: seq<Pred>, mask: nat) returns (at: seq<nat>)
    ensures Chosen(at, |factors|, mask, true) && CopiesAt(factors, at, Fixed(factors, mask))
  {
    hide Bit, WithAtomicity, AtomicCopy;
    at := [];
    if factors != [] {
      hide Chosen, CopiesAt;
      var i := |factors| - 1;
      at := FixedAre(factors[..i], mask);
      ChosenOneMore(at, i, mask, true);
      CopyOneMore(factors, at, Fixed(factors[..i], mask));
      if Bit(mask, i) { at := at + [i]; } else { assert Fixed(factors[..i], mask) + [] == Fixed(factors[..i], mask); }
    }
  }

  /** The expanded factors are the others, as they are and in order; together they are all. */
  lemma {:induction false} ExpandedAre(factors: seq<Pred>, mask: nat) returns (at: seq<nat>)
    ensures Chosen(at, |factors|, mask, false) && FactorsAt(factors, at, Expanded(factors, mask))
    ensures |Fixed(factors, mask)| + |Expanded(factors, mask)| == |factors|
  {
    hide Bit, WithAtomicity;
    at := [];
    if factors != [] {
      hide Chosen, FactorsAt;
      var i := |factors| - 1;
      at := ExpandedAre(factors[..i], mask);
      ChosenOneMore(at, i, mask, false);
      FactorOneMore(factors, at, Expanded(factors[..i], mask));
      if !Bit(mask, i) { at := at + [i]; } else { assert Expanded(factors[..i], mask) + [] == Expanded(factors[..i], mask); }
    }
  }

  // ---------------------------------------------------------------- the enumeration

  /** Number of unions over the masks below `k`. */
  function UnionCount(factors: seq<Pred>, k: nat): nat {
    if k == 0 then 0 else UnionCount(factors, k - 1) + if IsUnion(factors, k - 1) then 1 else 0
  }

  /** Every leg of every union, in enumeration order, over the masks below `k`. */
  function AllLegs(factors: seq<Pred>, k: nat): seq<Leg> {
    if k == 0 then []
    else AllLegs(factors, k - 1) + Legs(Fixed(factors, k - 1), Terms(factors, k - 1))
  }

  /** Splits the factors by the mask, as the inner loop does. */
  method Split(factors: seq<Pred>, mask: nat) returns (fixed: seq<Pred>, expanded: seq<Pred>)
    ensures fixed == Fixed(factors, mask) && expanded == Expanded(factors, mask)
  {
    fixed, expanded := [], [];
    for i := 0 to |factors|
      invariant fixed == Fixed(factors[..i], mask) && expanded == Expanded(factors[..i], mask)
    {
      assert factors[..i + 1][..i] == factors[..i];
      if Bit(mask, i) {
        fixed := fixed + [WithAtomicity(factors[i], true)];
      } else {
        expanded := expanded + [factors[i]];
      }
    }
    assert factors[..|factors|] == factors;
  }

  method CollectLegs(fixed: seq<Pred>, terms: seq<Pred>, count: nat, seen: set<Leg>)
    returns (legs: nat, uniqueLegs: set<Leg>)
    ensures legs == count + |terms|
    ensures uniqueLegs == seen + ElementSet(Legs(fixed, terms))
  {
    legs, uniqueLegs := count, seen;
    for t := 0 to |terms|
      invariant legs == count + t
      invariant uniqueLegs == seen + ElementSet(Legs(fixed, terms)[..t])
    {
      assert Legs(fixed, terms)[..t + 1] == Legs(fixed, terms)[..t] + [fixed + [terms[t]]];
      uniqueLegs := uniqueLegs + {fixed + [terms[t]]};
      legs := legs + 1;
    }
    assert Legs(fixed, terms)[..|terms|] == Legs(fixed, terms);
  }

  /** Enumerates every choice of fixed factors but the one that fixes them all. */
  method FixedFactorPopulation(factors: seq<Pred>) returns (unions: nat, legs: nat, uniqueLegs: set<Leg>)
    ensures unions == UnionCount(factors, Pow2(|factors|) - 1)
    ensures legs == |AllLegs(factors, Pow2(|factors|) - 1)|
    ensures uniqueLegs == ElementSet(AllLegs(factors, Pow2(|factors|) - 1))
  {
    hide Simplify, Fixed, Expanded, Bit, Build;
    unions, legs, uniqueLegs := 0, 0, {};
    for mask := 0 to Pow2(|factors|) - 1
      invariant unions == UnionCount(factors, mask)
      invariant legs == |AllLegs(factors, mask)|
      invariant uniqueLegs == ElementSet(AllLegs(factors, mask))
    {
      var fixed, expanded := Split(factors, mask);
      var normalized := Simplify(Build(Cnf, expanded), true);
      if normalized.Or? && !normalized.atomic {
        unions := unions + 1;
        legs, uniqueLegs := CollectLegs(fixed, normalized.children, legs, uniqueLegs);
      }
    }
  }

  // ---------------------------------------------------------------- every choice is enumerated

  function MaskOf(bits: seq<bool>): nat {
    if bits == [] then 0
    else MaskOf(bits[..|bits| - 1]) + if bits[|bits| - 1] then Pow2(|bits| - 1) else 0
  }

  lemma {:induction false} MaskBound(bits: seq<bool>)
    ensures MaskOf(bits) <= Pow2(|bits|) - 1
    ensures MaskOf(bits) == Pow2(|bits|) - 1 <==> forall i :: 0 <= i < |bits| ==> bits[i]
  {
    if bits != [] { MaskBound(bits[..|bits| - 1]); }
  }

  lemma {:induction false} MaskBits(bits: seq<bool>, i: nat)
    requires i < |bits|
    ensures Bit(MaskOf(bits), i) == bits[i]
  {
    hide Pow2;
    var k := |bits| - 1;
    var low := MaskOf(bits[..k]);
    MaskBound(bits[..k]);
    if i == k {
      if bits[k] { QuotientOf(1, Pow2(k), low); } else { QuotientOf(0, Pow2(k), low); }
    } else {
      MaskBits(bits[..k], i);
      if bits[k] {
        Pow2Adds(k - i - 1, 1);
        Pow2Adds(k - i, i);
        HighBit(low, Pow2(k - i - 1), Pow2(i));
        Pow2One();
      }
    }
  }

  lemma Pow2One()
    ensures Pow2(1) == 2
  {
    assert Pow2(0) == 1;
  }

  lemma QuotientOf(q: nat, d: nat, r: nat)
    requires r < d
    ensures (q * d + r) / d == q
  {
    var n := q * d + r;
    assert n / d * d + n % d == n;
    MulOrder(n / d + 1, q, d);
    MulOrder(q + 1, n / d, d);
    assert (n / d + 1) * d == n / d * d + d && (q + 1) * d == q * d + d;
  }

  /** Adding an even multiple of the divisor does not change a quotient's parity. */
  lemma HighBit(low: nat, half: nat, d: nat)
    requires d > 0
    ensures ((low + (half * 2) * d) / d) % 2 == (low / d) % 2
  {
    var q, r := low / d, low % d;
    assert low == q * d + r;
    assert (q + 2 * half) * d == q * d + (half * 2) * d;
    QuotientOf(q + 2 * half, d, r);
  }

  /** Every choice of fixed factors except "all of them" has its mask in the loop's range. */
  lemma EveryChoiceEnumerated(bits: seq<bool>)
    requires exists i :: 0 <= i < |bits| && !bits[i]
    ensures MaskOf(bits) < Pow2(|bits|) - 1
    ensures forall i :: 0 <= i < |bits| ==> Bit(MaskOf(bits), i) == bits[i]
  {
    MaskBound(bits);
    forall i | 0 <= i < |bits| ensures Bit(MaskOf(bits), i) == bits[i] { MaskBits(bits, i); }
  }
}
