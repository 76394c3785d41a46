/**
 Single steps of real arithmetic used by the proofs of the other modules.
 Each lemma names the product or quotient it talks about as a parameter
 (`x == a * b`) so that a caller hands over a term it already has instead
 of asking the solver to rediscover a non-linear identity.
 */
module Arith {

  lemma ProductPositive(u: real, v: real)
    requires u > 0.0 && v > 0.0
    ensures u * v > 0.0
  {
  }

  lemma ProductNonNeg(a: real, b: real, x: real)
    requires a >= 0.0 && b >= 0.0 && x == a * b
    ensures x >= 0.0
  {
  }

  /** Squaring is strictly increasing on the non-negative reals. */
  lemma SquareLess(x: real, y: real)
    requires 0.0 <= x < y
    ensures x * x < y * y
  {
    ProductPositive(y - x, y + x);
    assert (y - x) * (y + x) == y * y - x * x;
  }

  lemma QuotientNonNeg(a: real, b: real, c: real, x: real)
    requires a >= 0.0 && b >= 0.0 && c > 0.0 && x == a * b / c
    ensures x >= 0.0
  {
    ProductNonNeg(a, b, a * b);
  }

  /** A positive numerator over a non-zero denominator is positive exactly when the denominator is. */
  lemma QuotientSign(a: real, d: real, x: real)
    requires a > 0.0 && d != 0.0 && x == a / d
    ensures x > 0.0 <==> d > 0.0
  {
    assert x * d == a;
    if d > 0.0 && x <= 0.0 {
      ProductNonNeg(-x, d, -x * d);
    }
    if d < 0.0 && x > 0.0 {
      ProductNonNeg(x, -d, x * -d);
    }
  }

  /** Scaling by a positive factor other than one moves a positive value. */
  lemma ScaledDiffers(s: real, b: real, m: real)
    requires s > 0.0 && b != 1.0 && m == s * b
    ensures m != s
  {
    assert m - s == s * (b - 1.0);
    if b > 1.0 {
      ProductPositive(s, b - 1.0);
    } else {
      ProductPositive(s, 1.0 - b);
    }
  }

  lemma ScaledUp(s: real, b: real, m: real)
    requires s >= 0.0 && b >= 1.0 && m == s * b
    ensures m >= s
  {
    assert m - s == s * (b - 1.0);
    ProductNonNeg(s, b - 1.0, m - s);
  }

  lemma ScaledDown(s: real, b: real, m: real)
    requires s >= 0.0 && b <= 1.0 && m == s * b
    ensures m <= s
  {
    assert s - m == s * (1.0 - b);
    ProductNonNeg(s, 1.0 - b, s - m);
  }

  /** `k * a` grows with `a` for a non-negative factor `k`. */
  lemma MulMonotone(k: real, a: real, b: real, x: real, y: real)
    requires k >= 0.0 && a <= b && x == k * a && y == k * b
    ensures x <= y
  {
    assert y - x == k * (b - a);
    ProductNonNeg(k, b - a, y - x);
  }

  /** `l * d / c` grows with `l` when `d >= 0` and `c > 0`. */
  lemma MulDivMonotone(l1: real, l2: real, d: real, c: real, x: real, y: real)
    requires l1 <= l2 && d >= 0.0 && c > 0.0 && x == l1 * d / c && y == l2 * d / c
    ensures x <= y
  {
    assert y - x == (l2 - l1) * d / c;
    QuotientNonNeg(l2 - l1, d, c, y - x);
  }

  /** A reciprocal shrinks as the (positive) denominator grows. */
  lemma DivAntitone(l: real, a: real, b: real)
    requires l >= 0.0 && 0.0 < a <= b
    ensures l / b <= l / a
  {
    assert l / a - l / b == l * (b - a) / (a * b);
    ProductPositive(a, b);
    QuotientNonNeg(l, b - a, a * b, l / a - l / b);
  }

  /** A common factor distributes over a sum. */
  lemma Distribute(k: real, a: real, b: real, x: real, y: real, sum: real, total: real)
    requires x == k * a && y == k * b && sum == a + b && total == x + y
    ensures total == k * sum
  {
  }

  /** `x = v * f` with `v = k * u` is `k * f` times `u`. */
  lemma ScaleTwice(k: real, f: real, u: real, v: real, x: real, y: real)
    requires v == k * u && x == v * f && y == u * 1.0
    ensures x == k * f * y
  {
  }

  /** `k * f * u` grows with `k` when `f` and `u` are non-negative. */
  lemma LinearMonotone(k1: real, k2: real, f: real, u: real, x: real, y: real)
    requires k1 <= k2 && f >= 0.0 && u >= 0.0 && x == k1 * f * u && y == k2 * f * u
    ensures x <= y
  {
    ProductNonNeg(f, u, f * u);
    MulMonotone(f * u, k1, k2, f * u * k1, f * u * k2);
  }

  lemma MulZero(k: real, z: real, x: real)
    requires z == 0.0 && x == k * z
    ensures x == 0.0
  {
  }

  /** Squaring a product squares each factor. */
  lemma ProductSquare(x: real, y: real, p: real, xx: real, yy: real, pp: real)
    requires p == x * y && xx == x * x && yy == y * y && pp == p * p
    ensures pp == xx * yy
  {
  }

  /** Multiplying a quotient back by its divisor restores the dividend. */
  lemma QuotientCancels(a: real, d: real, q: real, x: real)
    requires d != 0.0 && q == a / d && x == q * d
    ensures x == a
  {
  }
}
