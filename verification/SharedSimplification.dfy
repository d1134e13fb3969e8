/** The simplifier's loops with its memo of input subtrees, shared across the choices of fixed factors. */
module SharedSimplification {
  import opened Sequences
  import opened Wrappers
  import opened Predicates
  import opened NormalForm
  import opened Weights
  import opened Simplifier
  import opened Simplification
  import opened UnionLegs

  /** The registered subtrees, with their simplification once it is known. */
  type Memo = map<Pred, Option<Pred>>

  /** Everything recorded is what simplifying without a memo would return. */
  ghost predicate Correct(memo: Memo) {
    forall p :: p in memo && memo[p].Some? ==> memo[p].value == Simplify(p, false)
  }

  /** A later memo knows the same subtrees and has lost nothing. */
  ghost predicate Grows(memo: Memo, later: Memo) {
    && later.Keys == memo.Keys && Correct(later)
    && forall p :: p in memo && memo[p].Some? ==> later[p] == memo[p]
  }

  function Children(p: Pred): seq<Pred> {
    match p
    case And(cs, _) => cs
    case Or(cs, _) => cs
    case Not(c, _) => [c]
    case _ => []
  }

  /** The connective over other children, with its atomicity. */
  function WithChildren(p: Pred, children: seq<Pred>): Pred
    requires |children| == |Children(p)|
  {
    match p
    case And(_, a) => And(children, a)
    case Or(_, a) => Or(children, a)
    case Not(_, a) => Not(children[0], a)
    case leaf => leaf
  }

  lemma LighterChildren(p: Pred)
    ensures forall i :: 0 <= i < |Children(p)| ==> Weight(Children(p)[i]) < Weight(p)
  {
    match p
    case And(cs, a) => ChildrenLighter(cs, a);
    case Or(cs, a) => ChildrenLighter(cs, a);
    case Not(c, _) => Pow2Exceeds(Weight(c));
    case _ =>
  }

  lemma ReplacedChildren(p: Pred, ds: seq<Pred>)
    requires |ds| == |Children(p)| && forall i :: 0 <= i < |ds| ==> ds[i] == Simplify(Children(p)[i], false)
    ensures WithChildren(p, ds) == SimplifyChildren(p)
  {
    hide Simplify, Weight;
    match p
    case And(cs, a) => ChildrenLighter(cs, a); assert SimplifyAll(cs, Weight(p)) == ds;
    case Or(cs, a) => ChildrenLighter(cs, a); assert SimplifyAll(cs, Weight(p)) == ds;
    case Not(c, _) =>
    case _ =>
  }

  /** `q` is `p` or comes after it in the order that every rewrite descends. */
  ghost predicate NoLarger(q: Pred, p: Pred, dnf: bool) {
    Weight(q) < Weight(p) || (Weight(q) == Weight(p) && Flag(q, dnf) <= Flag(p, dnf))
  }

  /** `q` comes strictly after `p` in that order. */
  ghost predicate Smaller(q: Pred, p: Pred, dnf: bool) {
    Weight(q) < Weight(p) || (Weight(q) == Weight(p) && Flag(q, dnf) < Flag(p, dnf))
  }

  /** The rules one after the other, until none applies or one asks for another visit of the children. */
  method Rewrite(p: Pred, dnf: bool) returns (r: Pred, again: bool)
    ensures if again then Smaller(r, p, dnf) && Simplify(r, dnf) == ApplyRules(p, dnf) else r == ApplyRules(p, dnf)
  {
    hide Weight, Flag, ApplyOnce, Simplify;
    r := p;
    var step := ApplyOnce(r, dnf);
    while step.Replaced? && !step.reExplore
      invariant step == ApplyOnce(r, dnf) && ApplyRules(r, dnf) == ApplyRules(p, dnf) && NoLarger(r, p, dnf)
      decreases Weight(r), Flag(r, dnf)
    {
      ApplyOnceLighter(r, dnf);
      r := step.pred;
      step := ApplyOnce(r, dnf);
    }
    again := step.Replaced?;
    if again {
      ApplyOnceLighter(r, dnf);
      r := step.pred;
    }
  }

  /**
   One simplification with the memo: the same result, and a memo that stays correct. The
   memo is looked up by the identity of the node, so an equal subtree may be missed; whether
   this node is the registered one is left open.
   */
  method SimplifyShared(p: Pred, isRoot: bool, dnf: bool, memo: Memo) returns (r: Pred, later: Memo)
    requires Correct(memo) && (dnf ==> isRoot)
    ensures r == Simplify(p, dnf) && Grows(memo, later)
    decreases Weight(p), Flag(p, dnf), 3
  {
    hide Weight, Flag, Simplify, SimplifyChildren, ApplyRules, Grows;
    later := memo;
    GrowsNot(memo);
    var registered: bool := *;
    if !isRoot && registered && p in later && later[p].Some? {
      return later[p].value, later;
    }
    var cur := p;
    while true
      invariant Correct(later) && Grows(memo, later)
      invariant Simplify(cur, dnf) == Simplify(p, dnf) && NoLarger(cur, p, dnf)
      decreases Weight(cur), Flag(cur, dnf)
    {
      ghost var before := later;
      Unfolded(cur, dnf);
      cur, later := ChildrenShared(cur, later);
      GrowsOn(memo, before, later);
      var again;
      cur, again := Rewrite(cur, dnf);
      if !again {
        if !isRoot && registered && p in later {
          GrowsAt(memo, later, p);
          later := later[p := Some(cur)];
        }
        return cur, later;
      }
    }
  }

  /** What one round of the loop computes, and that its children are no larger. */
  lemma Unfolded(p: Pred, dnf: bool)
    ensures Simplify(p, dnf) == ApplyRules(SimplifyChildren(p), dnf) && NoLarger(SimplifyChildren(p), p, dnf)
  {
    hide ApplyRules;
  }

  lemma GrowsNot(memo: Memo)
    requires Correct(memo)
    ensures Grows(memo, memo)
  {
  }

  lemma GrowsOn(memo: Memo, later: Memo, latest: Memo)
    requires Grows(memo, later) && Grows(later, latest)
    ensures Grows(memo, latest) && Correct(latest)
  {
  }

  lemma GrowsAt(memo: Memo, later: Memo, p: Pred)
    requires Correct(memo) && Grows(memo, later) && p in later
    ensures Grows(memo, later[p := Some(Simplify(p, false))])
  {
    hide Simplify;
  }

  /** The children one by one, each with what the others left in the memo. */
  method ChildrenShared(p: Pred, memo: Memo) returns (r: Pred, later: Memo)
    requires Correct(memo)
    ensures r == SimplifyChildren(p) && Grows(memo, later)
    decreases Weight(p), 0, 2
  {
    hide Weight, Simplify, SimplifyChildren;
    LighterChildren(p);
    var children := Children(p);
    var simpler: seq<Pred> := [];
    later := memo;
    for i := 0 to |children|
      invariant |simpler| == i && Grows(memo, later)
      invariant forall j :: 0 <= j < i ==> simpler[j] == Simplify(children[j], false)
    {
      var next;
      next, later := SimplifyShared(children[i], false, false, later);
      simpler := simpler + [next];
    }
    ReplacedChildren(p, simpler);
    r := WithChildren(p, simpler);
  }

  /** Every subtree of the factors, not simplified yet. */
  function Registered(factors: seq<Pred>): Memo {
    map p | p in Subtrees(factors) :: None
  }

  function Subtrees(ps: seq<Pred>): set<Pred>
    decreases ps
  {
    if ps == [] then {} else Subtrees(ps[..|ps| - 1]) + SubtreesOf(ps[|ps| - 1])
  }

  function SubtreesOf(p: Pred): set<Pred>
    decreases p
  {
    match p
    case And(cs, _) => {p} + Subtrees(cs)
    case Or(cs, _) => {p} + Subtrees(cs)
    case Not(c, _) => {p} + SubtreesOf(c)
    case _ => {p}
  }

  lemma RegisteredCorrect(factors: seq<Pred>)
    ensures Correct(Registered(factors)) && forall i :: 0 <= i < |factors| ==> factors[i] in Registered(factors)
  {
    SubtreesHold(factors);
  }

  lemma {:induction false} SubtreesHold(ps: seq<Pred>)
    ensures forall i :: 0 <= i < |ps| ==> ps[i] in Subtrees(ps)
  {
    if ps != [] {
      var k := |ps| - 1;
      SubtreesHold(ps[..k]);
      assert forall i :: 0 <= i < k ==> ps[..k][i] == ps[i];
    }
  }

  /** The DNF terms of one choice of expanded factors, with the memo the other choices left. */
  method TermsShared(factors: seq<Pred>, mask: nat, memo: Memo) returns (terms: seq<Pred>, later: Memo)
    requires Correct(memo)
    ensures terms == Terms(factors, mask) && Grows(memo, later)
  {
    hide Simplify;
    var _, expanded := Split(factors, mask);
    var dnf;
    dnf, later := SimplifyShared(Build(Cnf, expanded), true, true, memo);
    terms := if dnf.Or? && !dnf.atomic then dnf.children else [];
  }

  /** The terms of every choice below `choices`, with one memo throughout. */
  method AllTermsShared(factors: seq<Pred>, choices: nat) returns (all: seq<seq<Pred>>)
    ensures |all| == choices && forall mask :: 0 <= mask < choices ==> all[mask] == Terms(factors, mask)
  {
    hide Terms;
    var memo := Registered(factors);
    RegisteredCorrect(factors);
    all := [];
    for mask := 0 to choices
      invariant |all| == mask && Correct(memo)
      invariant forall k :: 0 <= k < mask ==> all[k] == Terms(factors, k)
    {
      var terms;
      terms, memo := TermsShared(factors, mask, memo);
      all := all + [terms];
    }
  }
}
