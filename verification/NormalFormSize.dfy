/** The size guard: the clause count, computed without building the clauses and without overflow. */
module NormalFormSize {
  import opened Sequences
  import opened Predicates
  import opened NormalForm

  /** The largest 64-bit size, which an overflowing computation reports. */
  const SATURATED: nat := 0x7fff_ffff_ffff_ffff

  function SaturatingAdd(a: nat, b: nat): nat
    requires b <= SATURATED
  {
    if a > SATURATED - b then SATURATED else a + b
  }

  function SaturatingMul(a: nat, b: nat): nat {
    if a == 0 || b == 0 then 0
    else if a > SATURATED / b then SATURATED
    else a * b
  }

  /** The number of clauses, respecting atomic barriers; negation swaps sum and product. */
  function ExpansionSize(p: Pred, negate: bool, m: Mode): (n: nat)
    ensures n <= SATURATED
    decreases p
  {
    if IsAtomic(p) then 1
    else match p
      case Not(c, _) => ExpansionSize(c, !negate, m)
      case And(cs, _) => if m.Cnf? != negate then SizeSum(cs, negate, m) else SizeProduct(cs, negate, m)
      case Or(cs, _) => if m.Dnf? != negate then SizeSum(cs, negate, m) else SizeProduct(cs, negate, m)
      case _ => 1
  }

  function SizeSum(cs: seq<Pred>, negate: bool, m: Mode): (n: nat)
    ensures n <= SATURATED
    decreases cs
  {
    if cs == [] then 0
    else SaturatingAdd(SizeSum(cs[..|cs| - 1], negate, m), ExpansionSize(cs[|cs| - 1], negate, m))
  }

  function SizeProduct(cs: seq<Pred>, negate: bool, m: Mode): (n: nat)
    ensures n <= SATURATED
    decreases cs
  {
    if cs == [] then 1
    else
      var size := SaturatingMul(SizeProduct(cs[..|cs| - 1], negate, m), ExpansionSize(cs[|cs| - 1], negate, m));
      SaturatingMulBound(SizeProduct(cs[..|cs| - 1], negate, m), ExpansionSize(cs[|cs| - 1], negate, m));
      size
  }

  lemma SaturatingMulBound(a: nat, b: nat)
    ensures SaturatingMul(a, b) <= SATURATED
    ensures SaturatingMul(a, b) == Clamp(a * b)
  {
    if a != 0 && b != 0 {
      var q := SATURATED / b;
      assert q * b <= SATURATED < (q + 1) * b;
      MulOrder(a, q, b);
      MulOrder(q + 1, a, b);
    }
  }

  function Clamp(n: nat): nat { if n < SATURATED then n else SATURATED }

  lemma ClampMul(a: nat, b: nat)
    ensures Clamp(Clamp(a) * Clamp(b)) == Clamp(a * b)
  {
    if a == 0 || b == 0 {
    } else {
      MulOrder(Clamp(a), a, Clamp(b));
      MulOrder(Clamp(b), b, a);
      assert a * Clamp(b) == Clamp(b) * a && a * b == b * a;
      MulOrder(1, Clamp(b), Clamp(a));
      MulOrder(1, Clamp(a), Clamp(b));
      assert Clamp(a) * Clamp(b) == Clamp(b) * Clamp(a);
    }
  }

  /** The saturating size is the exact number of clauses distribution builds, clamped. */
  lemma {:induction false} SizeIsCount(p: Pred, negate: bool, m: Mode)
    ensures ExpansionSize(p, negate, m) == Clamp(|ToNormalized(p, negate, m)|)
    decreases p
  {
    if !IsAtomic(p) {
      match p
      case Not(c, _) => SizeIsCount(c, !negate, m);
      case And(cs, _) => ConnectiveSize(cs, negate, m);
      case Or(cs, _) => ConnectiveSize(cs, negate, m);
      case _ =>
    }
  }

  lemma {:induction false} ConnectiveSize(cs: seq<Pred>, negate: bool, m: Mode)
    ensures SizeSum(cs, negate, m) == Clamp(|Majors(cs, negate, m)|)
    ensures SizeProduct(cs, negate, m) == Clamp(|Minors(cs, negate, m)|)
    decreases cs
  {
    if cs != [] {
      var init, last := cs[..|cs| - 1], cs[|cs| - 1];
      ConnectiveSize(init, negate, m);
      SizeIsCount(last, negate, m);
      CrossCount(Minors(init, negate, m), ToNormalized(last, negate, m));
      SaturatingMulBound(SizeProduct(init, negate, m), ExpansionSize(last, negate, m));
      ClampMul(|Minors(init, negate, m)|, |ToNormalized(last, negate, m)|);
    }
  }

  /**
   The guard `size > limit` rejects exactly the predicates with more than `limit` clauses,
   unless the limit is the largest 64-bit integer itself and the count is above it.
   */
  lemma GuardExact(p: Pred, m: Mode, limit: int)
    requires limit <= 0x7fff_ffff_ffff_ffff
    ensures (ExpansionSize(p, false, m) > limit <==> |ToNormalized(p, false, m)| > limit)
            <==> limit < 0x7fff_ffff_ffff_ffff || |ToNormalized(p, false, m)| <= 0x7fff_ffff_ffff_ffff
  {
    SizeIsCount(p, false, m);
  }

  // ---------------------------------------------------------------- why it saturates

  /** OR of four leaves. */
  function FourWay(n: int): Pred { Or([Leaf(n, Eq), Leaf(n + 1, Eq), Leaf(n + 2, Eq), Leaf(n + 3, Eq)], false) }

  function FourWays(k: nat): seq<Pred> { seq(k, i => FourWay(4 * i)) }

  lemma {:induction false} FourWaysCount(k: nat)
    ensures |Minors(FourWays(k), false, Dnf)| == Pow2(2 * k)
  {
    if k > 0 {
      var ps := FourWays(k);
      assert ps[..k - 1] == FourWays(k - 1);
      FourWaysCount(k - 1);
      FourWayCount(4 * (k - 1));
      CrossCount(Minors(FourWays(k - 1), false, Dnf), ToNormalized(ps[k - 1], false, Dnf));
      assert Pow2(2 * k) == 2 * Pow2(2 * k - 1) == 4 * Pow2(2 * (k - 1));
    }
  }

  lemma FourWayCount(n: int)
    ensures |ToNormalized(FourWay(n), false, Dnf)| == 4
  {
    var cs := FourWay(n).children;
    assert cs[..3][..2] == cs[..2] && cs[..2][..1] == cs[..1] && cs[..1][..0] == [];
    assert |Majors(cs[..1], false, Dnf)| == 1;
    assert |Majors(cs[..2], false, Dnf)| == 2;
    assert |Majors(cs[..3], false, Dnf)| == 3;
    assert Majors(cs, false, Dnf) == Majors(cs[..3], false, Dnf) + ToNormalized(cs[3], false, Dnf);
    assert ToNormalized(FourWay(n), false, Dnf) == Majors(cs, false, Dnf);
  }

  // ---------------------------------------------------------------- without saturation

  const MODULUS: int := 0x1_0000_0000_0000_0000
  const LEAST: int := -0x8000_0000_0000_0000

  /** The value of an overflowing 64-bit operation. */
  function Wrap64(x: int): (r: int)
    ensures LEAST <= r <= SATURATED && (LEAST <= x <= SATURATED ==> r == x)
  {
    (x - LEAST) % MODULUS + LEAST
  }

  /** The same count with plain 64-bit additions and multiplications. */
  function WrappingSize(p: Pred, negate: bool, m: Mode): int
    decreases p
  {
    if IsAtomic(p) then 1
    else match p
      case Not(c, _) => WrappingSize(c, !negate, m)
      case And(cs, _) => if m.Cnf? != negate then WrappingSum(cs, negate, m) else WrappingProduct(cs, negate, m)
      case Or(cs, _) => if m.Dnf? != negate then WrappingSum(cs, negate, m) else WrappingProduct(cs, negate, m)
      case _ => 1
  }

  function WrappingSum(cs: seq<Pred>, negate: bool, m: Mode): int
    decreases cs
  {
    if cs == [] then 0
    else Wrap64(WrappingSum(cs[..|cs| - 1], negate, m) + WrappingSize(cs[|cs| - 1], negate, m))
  }

  function WrappingProduct(cs: seq<Pred>, negate: bool, m: Mode): int
    decreases cs
  {
    if cs == [] then 1
    else Wrap64(WrappingProduct(cs[..|cs| - 1], negate, m) * WrappingSize(cs[|cs| - 1], negate, m))
  }

  lemma ShiftedRemainder(a: int, k: int, m: nat)
    requires m > 0
    ensures (a + k * m) % m == a % m
  {
    var b := a + k * m;
    var d := k + a / m - b / m;
    assert b == m * (b / m) + b % m && a == m * (a / m) + a % m;
    Factored(k, a / m, b / m, m);
    assert b % m - a % m == d * m;
    MulOrder(1, d, m);
    MulOrder(d, -1, m);
    assert d == 0;
  }

  lemma Factored(k: int, x: int, y: int, m: int)
    ensures k * m + m * x - m * y == (k + x - y) * m
  {
  }

  lemma WrapShift(x: int, k: int)
    ensures Wrap64(x + k * MODULUS) == Wrap64(x)
  {
    ShiftedRemainder(x - LEAST, k, MODULUS);
    assert x + k * MODULUS - LEAST == (x - LEAST) + k * MODULUS;
  }

  lemma WrapDiffers(x: int) returns (k: int)
    ensures Wrap64(x) == x + k * MODULUS
  {
    k := -((x - LEAST) / MODULUS);
  }

  lemma ProductOfShifts(a: int, b: int, j: int, k: int, m: int)
    ensures (a + j * m) * (b + k * m) == a * b + (a * k + j * b + j * k * m) * m
  {
  }

  lemma WrapShifted(a: int, b: int, j: int, k: int)
    ensures Wrap64((a + j * MODULUS) + (b + k * MODULUS)) == Wrap64(a + b)
    ensures Wrap64((a + j * MODULUS) * (b + k * MODULUS)) == Wrap64(a * b)
  {
    hide Wrap64;
    WrapShift(a + b, j + k);
    assert (a + j * MODULUS) + (b + k * MODULUS) == a + b + (j + k) * MODULUS;
    var x := a * k + j * b + j * k * MODULUS;
    ProductOfShifts(a, b, j, k, MODULUS);
    WrapShift(a * b, x);
  }

  /** Sums and products may be wrapped before or after. */
  lemma WrapOperands(a: int, b: int)
    ensures Wrap64(Wrap64(a) + Wrap64(b)) == Wrap64(a + b)
    ensures Wrap64(Wrap64(a) * Wrap64(b)) == Wrap64(a * b)
  {
    hide Wrap64;
    var j := WrapDiffers(a);
    var k := WrapDiffers(b);
    WrapShifted(a, b, j, k);
  }

  /** The wrapping size is the exact number of clauses, wrapped. */
  lemma {:induction false} WrappingIsCount(p: Pred, negate: bool, m: Mode)
    ensures WrappingSize(p, negate, m) == Wrap64(|ToNormalized(p, negate, m)|)
    decreases p
  {
    if !IsAtomic(p) {
      match p
      case Not(c, _) => WrappingIsCount(c, !negate, m);
      case And(cs, _) => WrappingConnective(cs, negate, m);
      case Or(cs, _) => WrappingConnective(cs, negate, m);
      case _ =>
    }
  }

  lemma {:induction false} WrappingConnective(cs: seq<Pred>, negate: bool, m: Mode)
    ensures WrappingSum(cs, negate, m) == Wrap64(|Majors(cs, negate, m)|)
    ensures WrappingProduct(cs, negate, m) == Wrap64(|Minors(cs, negate, m)|)
    decreases cs
  {
    hide Wrap64, Cross, ToNormalized, WrappingSize;
    if cs == [] {
      SmallCounts();
    } else {
      var init, last := cs[..|cs| - 1], cs[|cs| - 1];
      WrappingConnective(init, negate, m);
      WrappingIsCount(last, negate, m);
      WrapOperands(|Majors(init, negate, m)|, |ToNormalized(last, negate, m)|);
      WrapOperands(|Minors(init, negate, m)|, |ToNormalized(last, negate, m)|);
      CrossCount(Minors(init, negate, m), ToNormalized(last, negate, m));
    }
  }

  lemma SmallCounts()
    ensures Wrap64(0) == 0 && Wrap64(1) == 1
  {
  }

  /**
   An AND of 32 four-way ORs has 2^64 clauses. A wrapping 64-bit count reads zero, so every
   limit would admit it; the saturating one reads the largest size.
   */
  lemma WrappingCountReadsZero()
    ensures |ToNormalized(And(FourWays(32), false), false, Dnf)| == Pow2(64) == MODULUS
    ensures WrappingSize(And(FourWays(32), false), false, Dnf) == 0
    ensures ExpansionSize(And(FourWays(32), false), false, Dnf) == SATURATED
  {
    hide Pow2, WrappingSize, ExpansionSize, ToNormalized;
    var p := And(FourWays(32), false);
    assert |ToNormalized(p, false, Dnf)| == Pow2(64) by { CountOfFourWays(32); }
    Pow2Of64();
    SizeIsCount(p, false, Dnf);
    WrappingIsCount(p, false, Dnf);
  }

  /** At the largest limit the same predicate is admitted after all. */
  lemma LargestLimitAdmits()
    ensures |ToNormalized(And(FourWays(32), false), false, Dnf)| > SATURATED
    ensures !(ExpansionSize(And(FourWays(32), false), false, Dnf) > SATURATED)
  {
    hide ToNormalized, ExpansionSize;
    WrappingCountReadsZero();
  }

  lemma CountOfFourWays(k: nat)
    ensures |ToNormalized(And(FourWays(k), false), false, Dnf)| == Pow2(2 * k)
  {
    hide Pow2;
    FourWaysCount(k);
  }

  lemma Pow2Of64()
    ensures Pow2(64) == 2 * (SATURATED + 1)
  {
    assert Pow2(8) == 256;
    hide Pow2;
    Pow2Adds(8, 8);
    assert Pow2(16) == 256 * 256;
    Pow2Adds(16, 16);
    assert Pow2(32) == 65536 * 65536;
    Pow2Adds(32, 32);
  }
}
