/**
 Prices and their square roots.

 The liquidity formulas take square roots of prices and price ratios. Dafny's
 `real` has no square-root operation, so a price (or a multiplicative price
 ratio) is carried by its non-negative square root: `FromRoot(r)` stands for the
 price `r * r`. Every price the model receives is supplied by its non-negative
 root, and that root is the only non-negative real squaring to the price
 (`SqrtUnique`), so `Sqrt` agrees with `np.sqrt` on every such price.
 */
module Prices {
  import opened Arith

  type NonNeg = x: real | x >= 0.0

  /** A non-negative price, stored as its square root. */
  datatype Price = FromRoot(root: NonNeg) {
    /** The price itself. */
    function Value(): real {
      root * root
    }
  }

  function Abs(x: real): real
  {
    if x < 0.0 then -x else x
  }

  /** The square root of a price (`np.sqrt`). */
  function Sqrt(p: Price): real {
    p.root
  }

  /** A price is strictly positive; stated on the root, see `PositiveIff`. */
  predicate Positive(p: Price) {
    p.root > 0.0
  }

  /** Every price of a series is strictly positive. */
  predicate AllPositive(s: seq<Price>) {
    forall k :: 0 <= k < |s| ==> Positive(s[k])
  }

  /** `Sqrt` is a square root: non-negative, and it squares to the price. */
  lemma SqrtSquares(p: Price)
    ensures Sqrt(p) >= 0.0 && Sqrt(p) * Sqrt(p) == p.Value()
  {
  }

  /** The square root is the only non-negative real squaring to the price. */
  lemma SqrtUnique(p: Price, r: real)
    requires r >= 0.0 && r * r == p.Value()
    ensures r == Sqrt(p)
  {
    var s: real := p.root;
    if r < s {
      SquareLess(r, s);
    } else if s < r {
      SquareLess(s, r);
    }
  }

  /** Square root is monotone: it orders prices exactly as their values. */
  lemma SqrtMonotone(a: Price, b: Price)
    ensures a.Value() <= b.Value() <==> Sqrt(a) <= Sqrt(b)
    ensures a.Value() < b.Value() <==> Sqrt(a) < Sqrt(b)
  {
    var x: real, y: real := a.root, b.root;
    if x < y {
      SquareLess(x, y);
    } else if y < x {
      SquareLess(y, x);
    }
  }

  /** A price is positive exactly when its value is. */
  lemma PositiveIff(p: Price)
    ensures Positive(p) <==> p.Value() > 0.0
  {
    SqrtMonotone(FromRoot(0.0), p);
  }

  /** Two prices with the same value are the same price. */
  lemma ValueInjective(a: Price, b: Price)
    requires a.Value() == b.Value()
    ensures a == b
  {
    SqrtMonotone(a, b);
  }

  /** The product of two prices, as `price * ratio` is written in the source. */
  function Mul(a: Price, b: Price): Price {
    ProductNonNeg(a.root, b.root, a.root * b.root);
    FromRoot(a.root * b.root)
  }

  /** A product of positive prices is positive. */
  lemma MulPositive(a: Price, b: Price)
    requires Positive(a) && Positive(b)
    ensures Positive(Mul(a, b))
  {
    ProductPositive(a.root, b.root);
  }

  /** The root of a product is the product of the roots. */
  lemma MulRoot(a: Price, b: Price)
    ensures Sqrt(Mul(a, b)) == Sqrt(a) * Sqrt(b)
  {
  }

  /** `Mul` multiplies the prices' values. */
  lemma MulValue(a: Price, b: Price)
    ensures Mul(a, b).Value() == a.Value() * b.Value()
  {
    ProductSquare(a.root, b.root, Mul(a, b).root, a.Value(), b.Value(), Mul(a, b).Value());
  }

  /**
   The smaller of two prices (`np.minimum`). Roots are compared instead of
   values; `MinMaxByValue` shows the choice is the same.
   */
  function MinPrice(a: Price, b: Price): Price {
    if Sqrt(a) <= Sqrt(b) then a else b
  }

  /** The larger of two prices (`np.maximum`). */
  function MaxPrice(a: Price, b: Price): Price {
    if Sqrt(a) <= Sqrt(b) then b else a
  }

  /** `MinPrice` and `MaxPrice` pick the smaller and the larger price by value. */
  lemma MinMaxByValue(a: Price, b: Price)
    ensures MinPrice(a, b).Value() <= a.Value() && MinPrice(a, b).Value() <= b.Value()
    ensures MaxPrice(a, b).Value() >= a.Value() && MaxPrice(a, b).Value() >= b.Value()
  {
    SqrtMonotone(a, b);
  }
}
