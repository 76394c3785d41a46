/**
 Vault collateral: its value carried from one window to the next, and the
 constant all-USD collateral basket.
 */
module Collateral {
  /**
   The collateral value after a window: scaled by the basket's price ratio
   `futureValue / currentValue` and by the interest multiplier, then credited
   with the window's realised P&L change.
   */
  function UpdateCollateralValue(collateral: real, interestMultiplier: real, pnlChange: real,
                                 currentValue: real, futureValue: real): real
    requires currentValue != 0.0
  {
    collateral * futureValue / currentValue * interestMultiplier + pnlChange
  }

  /** The all-USD collateral series for `n` price points: the value 100 at every point. */
  function UsdCollateral(n: nat): seq<real> {
    seq(n, _ => 100.0)
  }

  /** With no price move, no interest and no P&L, the collateral is unchanged. */
  lemma CollateralUnchanged(collateral: real, value: real)
    requires value != 0.0
    ensures UpdateCollateralValue(collateral, 1.0, 0.0, value, value) == collateral
  {
    assert collateral * value / value == collateral;
  }

  /** The P&L change is credited after scaling: it adds to the update of a P&L-free window. */
  lemma CollateralPnlAdditive(collateral: real, interestMultiplier: real, pnlChange: real,
                              currentValue: real, futureValue: real)
    requires currentValue != 0.0
    ensures UpdateCollateralValue(collateral, interestMultiplier, pnlChange, currentValue, futureValue)
         == UpdateCollateralValue(collateral, interestMultiplier, 0.0, currentValue, futureValue) + pnlChange
  {
  }

  /** A larger P&L change always leaves more collateral. */
  lemma CollateralIncreasingInPnl(collateral: real, interestMultiplier: real, c1: real, c2: real,
                                  currentValue: real, futureValue: real)
    requires currentValue != 0.0 && c1 < c2
    ensures UpdateCollateralValue(collateral, interestMultiplier, c1, currentValue, futureValue)
          < UpdateCollateralValue(collateral, interestMultiplier, c2, currentValue, futureValue)
  {
  }

  /** The USD series has one point per price point, each worth 100. */
  lemma UsdCollateralShape(n: nat)
    ensures |UsdCollateral(n)| == n
    ensures forall k :: 0 <= k < n ==> UsdCollateral(n)[k] == 100.0
  {
  }

  /** Over the USD basket the price ratio of every window is 1, so only interest and P&L move the collateral. */
  lemma UsdCollateralRatioOne(n: nat, i: nat, j: nat, collateral: real, interestMultiplier: real, pnlChange: real)
    requires i < n && j < n
    ensures UsdCollateral(n)[j] / UsdCollateral(n)[i] == 1.0
    ensures UpdateCollateralValue(collateral, interestMultiplier, pnlChange, UsdCollateral(n)[i], UsdCollateral(n)[j])
         == collateral * interestMultiplier + pnlChange
  {
    var s := UsdCollateral(n);
    assert s[i] == 100.0 && s[j] == 100.0;
    assert collateral * 100.0 / 100.0 == collateral;
  }
}
