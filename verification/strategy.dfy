/**
 LP strategy helpers: the price range a position is deployed over, and the
 mark-to-market update of the LP's profit and loss.
 */
module Strategy {
  import opened Arith
  import opened Prices
  import opened Optional

  /**
   Range bounds for a deployed percentage `x`: the lower bound is
   `(1 - x/100)^2` and the upper bound its reciprocal. Each bound is carried by
   its square root, `|1 - x/100|` and `1/|1 - x/100|`. At `x == 100` the
   reciprocal divides by zero, which raises; that case is `None`.
   */
  function LpRangeBounds(percentDeployed: real): Option<(Price, Price)> {
    var d := 1.0 - percentDeployed / 100.0;
    if d == 0.0 then
      None
    else
      var r := Abs(d);
      QuotientSign(1.0, r, 1.0 / r);
      Some((FromRoot(r), FromRoot(1.0 / r)))
  }

  /** The new P&L and its change: the LP's USD balance plus its ETH position marked at `futurePrice`. */
  function UpdatePnl(pnl: real, futurePrice: Price, ethPosition: real, usdBalance: real): (real, real) {
    var change := usdBalance + ethPosition * futurePrice.Value() - pnl;
    (pnl + change, change)
  }

  // ---------------------------------------------------------------------------
  // Range bound properties
  // ---------------------------------------------------------------------------

  /** The bounds exist for every percentage except 100. */
  lemma RangeBoundsDefined(percentDeployed: real)
    ensures LpRangeBounds(percentDeployed).None? <==> percentDeployed == 100.0
  {
  }

  /** The bounds are `(1 - x/100)^2` and `1 / (1 - x/100)^2`. */
  lemma RangeBoundsValues(percentDeployed: real)
    requires percentDeployed != 100.0
    ensures var d := 1.0 - percentDeployed / 100.0;
            var (lower, upper) := LpRangeBounds(percentDeployed).value;
            && d * d != 0.0
            && lower.Value() == d * d
            && upper.Value() == 1.0 / (d * d)
  {
    var d := 1.0 - percentDeployed / 100.0;
    var (lower, upper) := LpRangeBounds(percentDeployed).value;
    var r := Abs(d);
    assert r * r == d * d by { SquareOfAbs(d, r, r * r, d * d); }
    ProductPositive(r, r);
    ReciprocalSquare(r, upper.root, upper.Value(), r * r);
  }

  /** The two bounds are reciprocal: their product is 1. */
  lemma RangeBoundsReciprocal(percentDeployed: real)
    requires percentDeployed != 100.0
    ensures var (lower, upper) := LpRangeBounds(percentDeployed).value;
            lower.Value() * upper.Value() == 1.0
  {
    var (lower, upper) := LpRangeBounds(percentDeployed).value;
    var r := lower.root;
    ReciprocalProduct(r, upper.root, r * r, upper.Value(), lower.Value() * upper.Value());
  }

  /** For a percentage strictly between 0 and 100 the range straddles the price: `0 < lower < 1 < upper`. */
  lemma RangeBoundsStraddle(percentDeployed: real)
    requires 0.0 < percentDeployed < 100.0
    ensures var (lower, upper) := LpRangeBounds(percentDeployed).value;
            0.0 < lower.Value() < 1.0 < upper.Value()
  {
    var (lower, upper) := LpRangeBounds(percentDeployed).value;
    var r := lower.root;
    assert 0.0 < r < 1.0;
    ReciprocalAboveOne(r, upper.root);
    SqrtMonotone(FromRoot(0.0), lower);
    SqrtMonotone(lower, FromRoot(1.0));
    SqrtMonotone(FromRoot(1.0), upper);
  }

  /** A deployed percentage of 0 gives the degenerate range `(1, 1)`. */
  lemma RangeBoundsAtZero()
    ensures LpRangeBounds(0.0) == Some((FromRoot(1.0), FromRoot(1.0)))
  {
  }

  /**
   The bounds are positive, and a bound equals 1 (putting a tick on the price)
   exactly when the percentage is 0 or 200.
   */
  lemma RangeBoundsUsable(percentDeployed: real)
    requires percentDeployed != 100.0
    ensures var (lower, upper) := LpRangeBounds(percentDeployed).value;
            && Positive(lower) && Positive(upper)
            && (Sqrt(lower) == 1.0 <==> percentDeployed == 0.0 || percentDeployed == 200.0)
            && (Sqrt(upper) == 1.0 <==> percentDeployed == 0.0 || percentDeployed == 200.0)
  {
    var (lower, upper) := LpRangeBounds(percentDeployed).value;
    var r := lower.root;
    if r != 1.0 {
      ReciprocalNotOne(r, upper.root);
    }
  }

  // ---------------------------------------------------------------------------
  // P&L properties
  // ---------------------------------------------------------------------------

  /** The new P&L is the marked value of the position, whatever the old P&L was. */
  lemma PnlMarksToMarket(pnl: real, futurePrice: Price, ethPosition: real, usdBalance: real)
    ensures UpdatePnl(pnl, futurePrice, ethPosition, usdBalance).0 == usdBalance + ethPosition * futurePrice.Value()
  {
  }

  /** The change takes the old P&L to the new one. */
  lemma PnlChangeAdds(pnl: real, futurePrice: Price, ethPosition: real, usdBalance: real)
    ensures var (next, change) := UpdatePnl(pnl, futurePrice, ethPosition, usdBalance);
            pnl + change == next
  {
  }

  /** A flat position is worth nothing, so the change gives back the old P&L. */
  lemma PnlFlatPosition(pnl: real, futurePrice: Price)
    ensures UpdatePnl(pnl, futurePrice, 0.0, 0.0) == (0.0, -pnl)
  {
    MulZero(futurePrice.Value(), 0.0, 0.0 * futurePrice.Value());
  }

  // ---------------------------------------------------------------------------
  // Steps on plain reals
  // ---------------------------------------------------------------------------

  lemma SquareOfAbs(x: real, a: real, aa: real, xx: real)
    requires a == Abs(x) && aa == a * a && xx == x * x
    ensures aa == xx
  {
    if x < 0.0 {
      assert a == -x;
    }
  }

  lemma ReciprocalSquare(d: real, r: real, rr: real, dd: real)
    requires d > 0.0 && r == 1.0 / d && rr == r * r && dd == d * d && dd > 0.0
    ensures rr == 1.0 / dd
  {
    assert r * d == 1.0;
    assert rr * dd == (r * d) * (r * d);
  }

  lemma ReciprocalProduct(d: real, r: real, dd: real, rr: real, p: real)
    requires d > 0.0 && r == 1.0 / d && dd == d * d && rr == r * r && p == dd * rr
    ensures p == 1.0
  {
    assert r * d == 1.0;
    assert p == (r * d) * (r * d);
  }

  lemma ReciprocalAboveOne(d: real, r: real)
    requires 0.0 < d < 1.0 && r == 1.0 / d
    ensures r > 1.0
  {
    assert r * d == 1.0;
    if r <= 1.0 {
      MulMonotone(d, r, 1.0, d * r, d * 1.0);
    }
  }

  lemma ReciprocalNotOne(d: real, r: real)
    requires d > 0.0 && d != 1.0 && r == 1.0 / d
    ensures r != 1.0
  {
    assert r * d == 1.0;
  }
}
