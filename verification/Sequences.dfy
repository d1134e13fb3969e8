/** Facts about index sequences and powers of two shared by the models. */
module Sequences {

  /** The sequence lists distinct indices in ascending order. */
  ghost predicate Increasing(s: seq<nat>) {
    forall i, j :: 0 <= i < j < |s| ==> s[i] < s[j]
  }

  ghost predicate Distinct<T>(s: seq<T>) {
    forall i, j :: 0 <= i < j < |s| ==> s[i] != s[j]
  }

  function ElementSet<T(==)>(s: seq<T>): set<T> {
    set x | x in s
  }

  lemma {:induction false} DistinctCardinality<T>(s: seq<T>)
    requires Distinct(s)
    ensures |ElementSet(s)| == |s|
  {
    if s != [] {
      var init, last := s[..|s| - 1], s[|s| - 1];
      DistinctCardinality(init);
      assert s == init + [last];
      assert last !in init;
      assert ElementSet(s) == ElementSet(init) + {last};
    }
  }

  lemma SubsetCardinality<T>(a: set<T>, b: set<T>)
    requires a <= b
    ensures |a| <= |b|
    ensures |a| == |b| ==> a == b
  {
    assert b == a + (b - a);
    assert |b| == |a| + |b - a|;
  }

  lemma ExchangePair<T>(a: set<T>, b: set<T>) returns (x: T, y: T)
    requires |a| == |b| && a != b
    ensures x in a && x !in b && y in b && y !in a
  {
    SubsetCardinality(a * b, a);
    SubsetCardinality(a * b, b);
    assert a * b == a ==> a <= b;
    assert a * b == b ==> b <= a;
    x :| x in a && x !in b;
    y :| y in b && y !in a;
  }

  /** An ascending sequence is determined by the indices it holds. */
  lemma {:induction false} IncreasingUnique(a: seq<nat>, b: seq<nat>)
    requires Increasing(a) && Increasing(b)
    requires forall i :: i in a <==> i in b
    ensures a == b
  {
    assert a == [] ==> b == [] by { assert b != [] ==> b[0] in b; }
    if a != [] {
      assert a[|a| - 1] in a;
      assert a[|a| - 1] in b;
      assert b[|b| - 1] in b;
      assert b[|b| - 1] in a;
      assert a[|a| - 1] == b[|b| - 1];
      var a', b' := a[..|a| - 1], b[..|b| - 1];
      forall i ensures i in a' <==> i in b' {
        if i in a' { assert i in a && i != a[|a| - 1]; assert i in b; }
        if i in b' { assert i in b && i != b[|b| - 1]; assert i in a; }
      }
      IncreasingUnique(a', b');
      assert a == a' + [a[|a| - 1]] && b == b' + [b[|b| - 1]];
    }
  }

  /** Indices below `n` fill an ascending sequence at most to length `n`. */
  lemma {:induction false} IncreasingBound(s: seq<nat>, n: nat)
    requires Increasing(s)
    requires forall i :: i in s ==> i < n
    ensures |s| <= n
  {
    if s != [] {
      var init := s[..|s| - 1];
      assert s[|s| - 1] in s;
      forall i | i in init ensures i < n - 1 { }
      IncreasingBound(init, n - 1);
    }
  }

  function Pow2(k: nat): (p: nat)
    ensures p >= 1
  {
    if k == 0 then 1 else 2 * Pow2(k - 1)
  }

  lemma {:induction false} Pow2Monotone(a: nat, b: nat)
    requires a <= b
    ensures Pow2(a) <= Pow2(b)
    decreases b - a
  {
    if a < b { Pow2Monotone(a, b - 1); }
  }

  lemma {:induction false} Pow2Adds(a: nat, b: nat)
    ensures Pow2(a + b) == Pow2(a) * Pow2(b)
  {
    if a > 0 {
      Pow2Adds(a - 1, b);
      assert Pow2(a + b) == 2 * Pow2(a - 1 + b);
    }
  }

  lemma {:induction false} Pow2Exceeds(k: nat)
    ensures Pow2(k) > k
  {
    if k > 0 { Pow2Exceeds(k - 1); }
  }

  lemma MulOrder(a: int, b: int, s: nat)
    ensures a <= b ==> a * s <= b * s
  {
  }
}
