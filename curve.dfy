/** The prime-order group G1 of BLS12-381 and its scalar field Fr.

    G1 is cyclic of prime order r, so fixing a base point identifies each
    point with its discrete logarithm in Z_r: point addition becomes
    addition mod r and multiplying a point by a scalar becomes
    multiplication mod r.  Nothing here computes discrete logarithms; the
    identification only serves to state the group laws the backend relies
    on.  `Fr` and `G1` are the same subset of the integers; the two names
    only tell the reader which role a value plays, and Dafny does not keep
    a scalar from being passed where a point is expected. */
module Curve {

  /** r, the order of G1 and of the scalar field Fr. */
  const Order: nat := 0x73eda753299d7d483339d80809a1d80553bda402fffe5bfeffffffff00000001

  /** An element of the scalar field Fr. */
  type Fr = x: nat | x < Order

  /** A point of G1, written as its discrete logarithm. */
  type G1 = x: nat | x < Order

  /** The identity of G1. */
  const Identity: G1 := 0

  /** Fr negation (`negate`). */
  function FrNeg(a: Fr): Fr
  {
    (Order - a) % Order
  }

  /** Fr addition (`add_assign` on scalars). */
  function FrAdd(a: Fr, b: Fr): Fr
  {
    (a + b) % Order
  }

  /** Point addition (`add_assign` on points). */
  function Add(p: G1, q: G1): G1
  {
    (p + q) % Order
  }

  /** Scalar multiplication s·p (`mul`). */
  function Mul(p: G1, s: Fr): G1
  {
    (p * s) % Order
  }

  /** Multi-scalar multiplication: the sum over i of scalars[i]·points[i]. */
  function SumOfProducts(points: seq<G1>, scalars: seq<Fr>): G1
    requires |points| == |scalars|
  {
    if |points| == 0 then Identity
    else
      var k := |points| - 1;
      Add(SumOfProducts(points[..k], scalars[..k]), Mul(points[k], scalars[k]))
  }

  /** The same sum over the integers, not reduced. */
  function IntegerSum(points: seq<G1>, scalars: seq<Fr>): int
    requires |points| == |scalars|
  {
    if |points| == 0 then 0
    else
      var k := |points| - 1;
      IntegerSum(points[..k], scalars[..k]) + points[k] * scalars[k]
  }

  /** Euclidean division by m is unique. */
  lemma ModUnique(a: int, m: int, q: int, r: int)
    requires m > 0 && 0 <= r < m && a == m * q + r
    ensures a % m == r
  {
    var d := q - a / m;
    assert m * d == a % m - r by {
      assert m * d == m * q - m * (a / m);
    }
    MulAtLeast(m, d);
    MulAtLeast(m, -d);
  }

  /** m·d is at least m for a positive d. */
  lemma {:induction false} MulAtLeast(m: int, d: int)
    requires m > 0
    ensures d >= 1 ==> m * d >= m
    decreases if d < 0 then 0 else d
  {
    if d > 1 {
      MulAtLeast(m, d - 1);
      assert m * d == m * (d - 1) + m;
    }
  }

  /** Reducing one summand does not change the sum mod m. */
  lemma ModAdd(a: int, b: int, m: int)
    requires m > 0
    ensures (a % m + b) % m == (a + b) % m
  {
    var s := a % m + b;
    ModUnique(a + b, m, a / m + s / m, s % m);
  }

  /** Reducing one factor does not change the product mod m. */
  lemma ModMul(a: int, b: int, m: int)
    requires m > 0
    ensures (a * (b % m)) % m == (a * b) % m
  {
    var t := a * (b % m);
    assert a * b == m * (a * (b / m)) + t by {
      assert b == m * (b / m) + b % m;
      assert a * b == a * (m * (b / m)) + a * (b % m);
    }
    ModUnique(a * b, m, a * (b / m) + t / m, t % m);
  }

  /** The group sum is the integer sum reduced mod r. */
  lemma {:induction false} SumOfProductsReduces(points: seq<G1>, scalars: seq<Fr>)
    requires |points| == |scalars|
    ensures SumOfProducts(points, scalars) == IntegerSum(points, scalars) % Order
    decreases |points|
  {
    if |points| > 0 {
      var k := |points| - 1;
      var rest := IntegerSum(points[..k], scalars[..k]);
      var last := points[k] * scalars[k];
      SumOfProductsReduces(points[..k], scalars[..k]);
      assert SumOfProducts(points, scalars) == Add(rest % Order, last % Order);
      AddReduced(rest, last);
      assert IntegerSum(points, scalars) == rest + last;
    }
  }

  /** Adding two reduced integers in G1 reduces their integer sum. */
  lemma AddReduced(a: int, b: int)
    ensures Add(a % Order, b % Order) == (a + b) % Order
  {
    ModAdd(a, b % Order, Order);
    ModAdd(b, a, Order);
  }

  /** Changing one scalar changes the integer sum by the change times the
      matching point. */
  lemma {:induction false} IntegerSumUpdate(points: seq<G1>, scalars: seq<Fr>, i: nat, s: Fr)
    requires |points| == |scalars| && i < |points|
    ensures IntegerSum(points, scalars[i := s]) == IntegerSum(points, scalars) + points[i] * (s - scalars[i])
    decreases |points|
  {
    var k := |points| - 1;
    var updated := scalars[i := s];
    if i == k {
      assert updated[..k] == scalars[..k];
      assert points[k] * s == points[k] * scalars[k] + points[k] * (s - scalars[k]);
    } else {
      assert updated[..k] == scalars[..k][i := s];
      IntegerSumUpdate(points[..k], scalars[..k], i, s);
    }
  }

  /** -a + b in Fr is b - a reduced mod r. */
  lemma FrDifference(a: Fr, b: Fr)
    ensures FrAdd(FrNeg(a), b) == (b - a) % Order
  {
    ModAdd(Order - a, b, Order);
    ModUnique(Order - a + b, Order, (b - a) / Order + 1, (b - a) % Order);
  }

  /** Linearity of the multi-scalar product: replacing scalar i by s adds
      (s - scalars[i])·points[i] to the sum. */
  lemma SumOfProductsUpdate(points: seq<G1>, scalars: seq<Fr>, i: nat, s: Fr)
    requires |points| == |scalars| && i < |points|
    ensures SumOfProducts(points, scalars[i := s])
              == Add(SumOfProducts(points, scalars), Mul(points[i], FrAdd(FrNeg(scalars[i]), s)))
  {
    var before := IntegerSum(points, scalars);
    var delta := points[i] * (s - scalars[i]);
    SumOfProductsReduces(points, scalars);
    SumOfProductsReduces(points, scalars[i := s]);
    IntegerSumUpdate(points, scalars, i, s);
    FrDifference(scalars[i], s);
    calc {
      Add(SumOfProducts(points, scalars), Mul(points[i], FrAdd(FrNeg(scalars[i]), s)));
      (before % Order + (points[i] * ((s - scalars[i]) % Order)) % Order) % Order;
      { ModMul(points[i], s - scalars[i], Order); }
      (before % Order + delta % Order) % Order;
      { ModAdd(before, delta % Order, Order); ModAdd(delta, before, Order); }
      (before + delta) % Order;
    }
  }

  /** Adding a zero-scalar multiple leaves a point unchanged. */
  lemma AddZeroMultiple(c: G1, p: G1, a: Fr)
    ensures Add(c, Mul(p, FrAdd(FrNeg(a), a))) == c
  {
    FrDifference(a, a);
  }
}
