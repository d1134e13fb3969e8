/** Disjunctive and conjunctive normal form as one algorithm over a mode. */
module NormalForm {
  import opened Predicates

  type Clause = seq<Pred>

  predicate IsMajor(m: Mode, p: Pred) { if m.Cnf? then p.And? else p.Or? }

  predicate IsMinor(m: Mode, p: Pred) { IsMajor(Dual(m), p) }

  /** AND or OR over a list; the empty list is a constant and a single element is itself. */
  function Build(m: Mode, ps: seq<Pred>): Pred {
    if ps == [] then Const(Unit(m))
    else if |ps| == 1 then ps[0]
    else if m.Cnf? then And(ps, false) else Or(ps, false)
  }

  predicate IsVariable(p: Pred) { IsAtomic(p) || p.Const? || p.Leaf? }

  predicate IsLiteral(p: Pred) { IsVariable(p) || (p.Not? && IsVariable(p.child)) }

  predicate AllLiterals(ps: seq<Pred>) { forall i :: 0 <= i < |ps| ==> IsLiteral(ps[i]) }

  predicate IsInNormalForm(p: Pred, m: Mode) {
    if IsLiteral(p) then true
    else if IsMajor(m, p) then
      forall i :: 0 <= i < |p.children| ==>
        IsLiteral(p.children[i]) || (IsMinor(m, p.children[i]) && AllLiterals(p.children[i].children))
    else IsMinor(m, p) && AllLiterals(p.children)
  }

  // ---------------------------------------------------------------- distribution

  function Literal(p: Pred, negate: bool): Pred { if negate then Not(p, false) else p }

  /** The list of minor clauses; a NOT is carried as the flag and swaps the connectives' roles. */
  function ToNormalized(p: Pred, negate: bool, m: Mode): seq<Clause>
    decreases p
  {
    if IsAtomic(p) then [[Literal(p, negate)]]
    else match p
      case Not(c, _) => ToNormalized(c, !negate, m)
      case And(cs, _) => if m.Cnf? != negate then Majors(cs, negate, m) else Minors(cs, negate, m)
      case Or(cs, _) => if m.Dnf? != negate then Majors(cs, negate, m) else Minors(cs, negate, m)
      case _ => [[Literal(p, negate)]]
  }

  /** Every child's clauses, one after another. */
  function Majors(cs: seq<Pred>, negate: bool, m: Mode): seq<Clause>
    decreases cs
  {
    if cs == [] then []
    else Majors(cs[..|cs| - 1], negate, m) + ToNormalized(cs[|cs| - 1], negate, m)
  }

  /** One alternative from each child, in every combination. */
  function Minors(cs: seq<Pred>, negate: bool, m: Mode): seq<Clause>
    decreases cs
  {
    if cs == [] then [[]]
    else Cross(Minors(cs[..|cs| - 1], negate, m), ToNormalized(cs[|cs| - 1], negate, m))
  }

  function AppendEach(lefts: seq<Clause>, right: Clause): (r: seq<Clause>)
    ensures |r| == |lefts| && forall i :: 0 <= i < |r| ==> r[i] == lefts[i] + right
  {
    seq(|lefts|, i requires 0 <= i < |lefts| => lefts[i] + right)
  }

  function Cross(lefts: seq<Clause>, rights: seq<Clause>): seq<Clause> {
    if rights == [] then []
    else Cross(lefts, rights[..|rights| - 1]) + AppendEach(lefts, rights[|rights| - 1])
  }

  lemma {:induction false} CrossCount(lefts: seq<Clause>, rights: seq<Clause>)
    ensures |Cross(lefts, rights)| == |lefts| * |rights|
  {
    if rights == [] {
      assert |lefts| * 0 == 0;
    } else {
      var k := |rights| - 1;
      CrossCount(lefts, rights[..k]);
      assert |lefts| * (k + 1) == |lefts| * k + |lefts|;
    }
  }

  /** The cross product as the nested loop computes it: right alternatives outside, left ones inside. */
  method CrossProduct(lefts: seq<Clause>, rights: seq<Clause>) returns (combined: seq<Clause>)
    ensures combined == Cross(lefts, rights)
  {
    combined := [];
    for i := 0 to |rights|
      invariant combined == Cross(lefts, rights[..i])
    {
      ghost var before := combined;
      for j := 0 to |lefts|
        invariant combined == before + AppendEach(lefts, rights[i])[..j]
      {
        combined := combined + [lefts[j] + rights[i]];
      }
      assert AppendEach(lefts, rights[i])[..|lefts|] == AppendEach(lefts, rights[i]);
      assert rights[..i + 1][..i] == rights[..i];
    }
    assert rights[..|rights|] == rights;
  }

  function Rebuild(m: Mode, clauses: seq<Clause>): Pred {
    Build(m, Built(m, clauses))
  }

  /** Each clause as a minor connective. */
  function Built(m: Mode, clauses: seq<Clause>): (ps: seq<Pred>)
    ensures |ps| == |clauses| && forall i :: 0 <= i < |ps| ==> ps[i] == Build(Dual(m), clauses[i])
  {
    seq(|clauses|, i requires 0 <= i < |clauses| => Build(Dual(m), clauses[i]))
  }

  // ---------------------------------------------------------------- meaning

  function ClauseVal(m: Mode, c: Clause, v: Valuation): Tri { EvalAll(Dual(m), c, v) }

  function ClausesVal(m: Mode, clauses: seq<Clause>, v: Valuation): Tri {
    if clauses == [] then Unit(m)
    else Join(m, ClausesVal(m, clauses[..|clauses| - 1], v), ClauseVal(m, clauses[|clauses| - 1], v))
  }

  function Signed(p: Pred, negate: bool, v: Valuation): Tri {
    if negate then Negate(Eval(p, v)) else Eval(p, v)
  }

  function SignedAll(m: Mode, ps: seq<Pred>, negate: bool, v: Valuation): Tri {
    if ps == [] then Unit(m)
    else Join(m, SignedAll(m, ps[..|ps| - 1], negate, v), Signed(ps[|ps| - 1], negate, v))
  }

  /** De Morgan over a list. */
  lemma {:induction false} SignedAllMeaning(m: Mode, ps: seq<Pred>, negate: bool, v: Valuation)
    ensures SignedAll(m, ps, negate, v) == if negate then Negate(EvalAll(Dual(m), ps, v)) else EvalAll(m, ps, v)
  {
    if ps != [] { SignedAllMeaning(m, ps[..|ps| - 1], negate, v); }
  }

  lemma {:induction false} ClausesValConcat(m: Mode, a: seq<Clause>, b: seq<Clause>, v: Valuation)
    ensures ClausesVal(m, a + b, v) == Join(m, ClausesVal(m, a, v), ClausesVal(m, b, v))
  {
    if b == [] {
      assert a + b == a;
    } else {
      ClausesValConcat(m, a, b[..|b| - 1], v);
      assert (a + b)[..|a + b| - 1] == a + b[..|b| - 1];
    }
  }

  lemma {:induction false} AppendEachVal(m: Mode, lefts: seq<Clause>, right: Clause, v: Valuation)
    ensures ClausesVal(m, AppendEach(lefts, right), v) ==
            Join(Dual(m), ClausesVal(m, lefts, v), ClauseVal(m, right, v))
  {
    if lefts != [] {
      var init, last := lefts[..|lefts| - 1], lefts[|lefts| - 1];
      AppendEachVal(m, init, right, v);
      EvalAllConcat(Dual(m), last, right, v);
      assert AppendEach(lefts, right)[..|lefts| - 1] == AppendEach(init, right);
    }
  }

  /** Distribution: the cross product means the meet of its two sides. */
  lemma {:induction false} CrossVal(m: Mode, lefts: seq<Clause>, rights: seq<Clause>, v: Valuation)
    ensures ClausesVal(m, Cross(lefts, rights), v) ==
            Join(Dual(m), ClausesVal(m, lefts, v), ClausesVal(m, rights, v))
  {
    if rights != [] {
      var init, last := rights[..|rights| - 1], rights[|rights| - 1];
      CrossVal(m, lefts, init, v);
      AppendEachVal(m, lefts, last, v);
      ClausesValConcat(m, Cross(lefts, init), AppendEach(lefts, last), v);
    }
  }

  lemma SingleClause(m: Mode, p: Pred, v: Valuation)
    ensures ClausesVal(m, [[p]], v) == Eval(p, v)
  {
    assert [p][..0] == [] && [[p]][..0] == [];
    assert EvalAll(Dual(m), [p], v) == Join(Dual(m), EvalAll(Dual(m), [], v), Eval(p, v));
    assert ClausesVal(m, [[p]], v) == Join(m, ClausesVal(m, [], v), ClauseVal(m, [p], v));
  }

  /** Distribution with NOTs pushed to the variables preserves the Kleene meaning. */
  lemma {:induction false} NormalizedMeaning(p: Pred, negate: bool, m: Mode, v: Valuation)
    ensures ClausesVal(m, ToNormalized(p, negate, m), v) == Signed(p, negate, v)
    decreases p
  {
    SingleClause(m, Literal(p, negate), v);
    if !IsAtomic(p) {
      match p
      case Not(c, _) => NormalizedMeaning(c, !negate, m, v);
      case And(cs, _) => ConnectiveMeaning(cs, negate, m, v);
        SignedAllMeaning(m, cs, negate, v); SignedAllMeaning(Dual(m), cs, negate, v);
      case Or(cs, _) => ConnectiveMeaning(cs, negate, m, v);
        SignedAllMeaning(m, cs, negate, v); SignedAllMeaning(Dual(m), cs, negate, v);
      case _ =>
    }
  }

  lemma {:induction false} ConnectiveMeaning(cs: seq<Pred>, negate: bool, m: Mode, v: Valuation)
    ensures ClausesVal(m, Majors(cs, negate, m), v) == SignedAll(m, cs, negate, v)
    ensures ClausesVal(m, Minors(cs, negate, m), v) == SignedAll(Dual(m), cs, negate, v)
    decreases cs
  {
    if cs == [] {
      assert ClausesVal(m, [[]], v) == Unit(Dual(m)) by {
        var one: seq<Clause> := [[]];
        assert one[..0] == [];
        assert ClausesVal(m, one, v) == Join(m, ClausesVal(m, [], v), ClauseVal(m, [], v));
      }
    } else {
      var init, last := cs[..|cs| - 1], cs[|cs| - 1];
      ConnectiveMeaning(init, negate, m, v);
      NormalizedMeaning(last, negate, m, v);
      ClausesValConcat(m, Majors(init, negate, m), ToNormalized(last, negate, m), v);
      CrossVal(m, Minors(init, negate, m), ToNormalized(last, negate, m), v);
    }
  }

  lemma BuildMeaning(m: Mode, ps: seq<Pred>, v: Valuation)
    ensures Eval(Build(m, ps), v) == EvalAll(m, ps, v)
  {
    if |ps| == 1 {
      assert ps[..0] == [];
      assert EvalAll(m, ps, v) == Join(m, EvalAll(m, [], v), Eval(ps[0], v));
    }
  }

  lemma {:induction false} BuiltMeaning(m: Mode, clauses: seq<Clause>, v: Valuation)
    ensures EvalAll(m, Built(m, clauses), v) == ClausesVal(m, clauses, v)
  {
    if clauses != [] {
      var init, last := clauses[..|clauses| - 1], clauses[|clauses| - 1];
      BuiltMeaning(m, init, v);
      BuildMeaning(Dual(m), last, v);
      assert Built(m, clauses)[..|clauses| - 1] == Built(m, init);
    }
  }

  lemma RebuildMeaning(m: Mode, clauses: seq<Clause>, v: Valuation)
    ensures Eval(Rebuild(m, clauses), v) == ClausesVal(m, clauses, v)
  {
    BuildMeaning(m, Built(m, clauses), v);
    BuiltMeaning(m, clauses, v);
  }

  // ---------------------------------------------------------------- shape

  lemma {:induction false} CrossLiterals(lefts: seq<Clause>, rights: seq<Clause>)
    requires forall i :: 0 <= i < |lefts| ==> AllLiterals(lefts[i])
    requires forall i :: 0 <= i < |rights| ==> AllLiterals(rights[i])
    ensures forall i :: 0 <= i < |Cross(lefts, rights)| ==> AllLiterals(Cross(lefts, rights)[i])
  {
    if rights != [] {
      CrossLiterals(lefts, rights[..|rights| - 1]);
    }
  }

  ghost predicate LiteralClauses(clauses: seq<Clause>) {
    forall i :: 0 <= i < |clauses| ==> AllLiterals(clauses[i])
  }

  lemma {:induction false} NormalizedLiterals(p: Pred, negate: bool, m: Mode)
    ensures LiteralClauses(ToNormalized(p, negate, m))
    decreases p
  {
    if !IsAtomic(p) {
      match p
      case Not(c, _) => NormalizedLiterals(c, !negate, m);
      case And(cs, _) => ConnectiveLiterals(cs, negate, m);
      case Or(cs, _) => ConnectiveLiterals(cs, negate, m);
      case _ =>
    }
  }

  lemma {:induction false} ConnectiveLiterals(cs: seq<Pred>, negate: bool, m: Mode)
    ensures LiteralClauses(Majors(cs, negate, m)) && LiteralClauses(Minors(cs, negate, m))
    decreases cs
  {
    if cs != [] {
      var init, last := cs[..|cs| - 1], cs[|cs| - 1];
      ConnectiveLiterals(init, negate, m);
      NormalizedLiterals(last, negate, m);
      CrossLiterals(Minors(init, negate, m), ToNormalized(last, negate, m));
    }
  }

  /** Clauses of literals rebuild into normal form, whatever was removed from them. */
  lemma RebuildNormal(m: Mode, clauses: seq<Clause>)
    requires LiteralClauses(clauses)
    ensures IsInNormalForm(Rebuild(m, clauses), m)
  {
    var ps := Built(m, clauses);
    forall i | 0 <= i < |ps|
      ensures IsLiteral(ps[i]) || (IsMinor(m, ps[i]) && AllLiterals(ps[i].children))
    {
      assert AllLiterals(clauses[i]);
    }
  }

  /** The distributed predicate is in normal form, so the rule declines its own output. */
  lemma NormalizedIsNormal(p: Pred, m: Mode)
    ensures IsInNormalForm(Rebuild(m, ToNormalized(p, false, m)), m)
  {
    NormalizedLiterals(p, false, m);
    RebuildNormal(m, ToNormalized(p, false, m));
  }
}
