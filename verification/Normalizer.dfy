/** The normaliser's entry points. */
module Normalizer {
  import opened Predicates
  import opened NormalForm
  import opened NormalFormSize
  import opened Absorption

  /** The limit of the index-predicate path and of the union rule's DNF. */
  const DEFAULT_SIZE_LIMIT: nat := 1_000_000

  /** Which entry point: distribution alone, or with absorption. */
  datatype Result = Declined | Normalized(pred: Pred)

  predicate Admits(p: Pred, limit: int, m: Mode) {
    !IsInNormalForm(p, m) && ExpansionSize(p, false, m) <= limit
  }

  function Normalize(p: Pred, limit: int, m: Mode): Result {
    if Admits(p, limit, m) then Normalized(Rebuild(m, ToNormalized(p, false, m))) else Declined
  }

  function NormalizeAndSimplify(p: Pred, limit: int, m: Mode): Result {
    if Admits(p, limit, m) then Normalized(Rebuild(m, ApplyAbsorption(ToNormalized(p, false, m)))) else Declined
  }

  /** Both entry points keep the Kleene meaning. */
  lemma NormalizeMeaning(p: Pred, limit: int, m: Mode, v: Valuation)
    ensures Normalize(p, limit, m).Normalized? ==> Eval(Normalize(p, limit, m).pred, v) == Eval(p, v)
    ensures NormalizeAndSimplify(p, limit, m).Normalized? ==>
      Eval(NormalizeAndSimplify(p, limit, m).pred, v) == Eval(p, v)
  {
    var clauses := ToNormalized(p, false, m);
    NormalizedMeaning(p, false, m, v);
    RebuildMeaning(m, clauses, v);
    ApplyAbsorptionMeaning(m, clauses, v);
    RebuildMeaning(m, ApplyAbsorption(clauses), v);
  }

  lemma AbsorptionLiterals(clauses: seq<Clause>)
    requires LiteralClauses(clauses)
    ensures LiteralClauses(ApplyAbsorption(clauses))
  {
    var r := ApplyAbsorption(clauses);
    if |clauses| >= 2 {
      forall i | 0 <= i < |r| ensures AllLiterals(r[i]) {
        var k := Survivors(DedupEach(clauses))[i];
        assert r[i] == Dedup(clauses[k]);
        DedupFacts(clauses[k]);
        assert AllLiterals(clauses[k]);
      }
    }
  }

  /** The output is in normal form, so normalising it again, by either entry point, declines. */
  lemma NormalizeStable(p: Pred, limit: int, m: Mode)
    ensures Normalize(p, limit, m).Normalized? ==> IsInNormalForm(Normalize(p, limit, m).pred, m)
    ensures NormalizeAndSimplify(p, limit, m).Normalized? ==>
      IsInNormalForm(NormalizeAndSimplify(p, limit, m).pred, m)
  {
    var clauses := ToNormalized(p, false, m);
    NormalizedLiterals(p, false, m);
    RebuildNormal(m, clauses);
    AbsorptionLiterals(clauses);
    RebuildNormal(m, ApplyAbsorption(clauses));
  }

  /**
   Declining, for every 64-bit limit: already in normal form, or more clauses than the
   limit. The largest limit declines nothing else.
   */
  lemma DeclineExact(p: Pred, limit: int, m: Mode)
    requires limit <= SATURATED
    ensures Normalize(p, limit, m).Declined? <==>
            IsInNormalForm(p, m) || (limit < SATURATED && |ToNormalized(p, false, m)| > limit)
    ensures Normalize(p, limit, m).Declined? <==> NormalizeAndSimplify(p, limit, m).Declined?
  {
    GuardExact(p, m, limit);
  }
}
