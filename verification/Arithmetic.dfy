/** Bounds on integer division by a positive divisor, rounding, set sizes, and the length of a day in milliseconds. */
module Arithmetic {
  const DAY_MS := 86_400_000

  lemma MulMonotone(a: int, b: int, w: nat)
    ensures a >= b ==> a * w >= b * w
  {
    if a >= b {
      assert (a - b) * w >= 0;
    }
  }

  lemma DivAtLeast(k: nat, w: int, x: nat)
    requires w > 0 && k * w <= x
    ensures k <= x / w
  {
    var q := x / w;
    assert x < (q + 1) * w;
    MulMonotone(k, q + 1, w);
  }

  lemma DivBelow(m: nat, w: int, x: nat)
    requires w > 0 && x < m * w
    ensures x / w < m
  {
    var q := x / w;
    assert q * w <= x;
    MulMonotone(q, m, w);
  }

  lemma ScaleAtLeast(q: nat, a: nat, b: nat, n: nat)
    requires q * b <= a
    ensures q * (b * n) <= a * n
  {
    MulMonotone(a, q * b, n);
    assert (q * b) * n == q * (b * n);
  }

  lemma ScaleBelow(q: nat, a: nat, b: nat, n: nat)
    requires a < q * b && n > 0
    ensures a * n < q * (b * n)
  {
    MulMonotone(q * b, a + 1, n);
    assert (q * b) * n == q * (b * n);
    assert (a + 1) * n == a * n + n;
  }

  lemma DivScale(a: nat, b: nat, n: nat)
    requires b > 0 && n > 0
    ensures b * n > 0 && (a * n) / (b * n) == a / b
  {
    MulMonotone(b, 1, n);
    ScaleAtLeast(a / b, a, b, n);
    ScaleBelow(a / b + 1, a, b, n);
    DivAtLeast(a / b, b * n, a * n);
    DivBelow(a / b + 1, b * n, a * n);
  }

  /** Round half up, as Math.round does. */
  function RoundDiv(n: nat, d: nat): nat
    requires d > 0
  {
    (2 * n + d) / (2 * d)
  }

  /** The nearest integer to the fraction, the higher one when two are. */
  lemma RoundDivNearest(n: nat, d: nat)
    requires d > 0
    ensures (2 * RoundDiv(n, d) - 1) * d <= 2 * n < (2 * RoundDiv(n, d) + 1) * d
  {
    var q := RoundDiv(n, d);
    assert q * (2 * d) <= 2 * n + d < (q + 1) * (2 * d);
    assert q * (2 * d) == (2 * q - 1) * d + d;
    assert (q + 1) * (2 * d) == (2 * q + 1) * d + d;
  }

  lemma RoundDivAtMost(n: nat, d: nat, k: nat)
    requires d > 0 && n <= k * d
    ensures RoundDiv(n, d) <= k
  {
    assert (k + 1) * (2 * d) == 2 * (k * d) + 2 * d;
    DivBelow(k + 1, 2 * d, 2 * n + d);
  }

  lemma RoundDivAtMostExactly(n: nat, d: nat, k: nat)
    requires d > 0
    ensures RoundDiv(n, d) <= k <==> 2 * n < (2 * k + 1) * d
  {
    assert (k + 1) * (2 * d) == (2 * k + 1) * d + d;
    if 2 * n < (2 * k + 1) * d {
      DivBelow(k + 1, 2 * d, 2 * n + d);
    } else {
      DivAtLeast(k + 1, 2 * d, 2 * n + d);
    }
  }

  lemma RoundDivMonotone(n: nat, m: nat, d: nat)
    requires d > 0 && n <= m
    ensures RoundDiv(n, d) <= RoundDiv(m, d)
  {
    var q := RoundDiv(n, d);
    assert q * (2 * d) <= 2 * n + d;
    DivAtLeast(q, 2 * d, 2 * m + d);
  }

  lemma SubsetCard<T>(a: set<T>, b: set<T>)
    requires a <= b
    ensures |a| <= |b|
  {
    assert b == a + (b - a);
  }
}
