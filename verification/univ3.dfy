/**
 Concentrated-liquidity math (Uniswap v3 style): conversions between a
 liquidity scalar and the ETH and USD a position holds inside a price range.
 Ticks are absolute prices; bounds are multiplicative ratios of a price.
 A denominator that would be zero in the source (where numpy would produce
 inf or nan) is excluded by a precondition. Orderings of prices are stated on
 their square roots, which order prices exactly as their values do
 (`Prices.SqrtMonotone`).
 */
module UniV3 {
  import opened Arith
  import opened Prices

  /** Liquidity implied by the ETH side alone (inverse: `EthLiquidityInverse`). */
  function LiquidityFromEth(price: Price, qEth: real, upperTick: Price): real
    requires Sqrt(upperTick) != Sqrt(price)
  {
    qEth * Sqrt(price) * Sqrt(upperTick) / (Sqrt(upperTick) - Sqrt(price))
  }

  /** Liquidity implied by the USD side alone. */
  function LiquidityFromUsd(price: Price, qUsd: real, lowerTick: Price): real
    requires Sqrt(price) != Sqrt(lowerTick)
  {
    qUsd / (Sqrt(price) - Sqrt(lowerTick))
  }

  /** Liquidity of a position backed by `qEth` and `qUsd`: the binding (smaller) of the two sides. */
  function Liquidity(price: Price, qEth: real, qUsd: real, lowerTick: Price, upperTick: Price): real
    requires Sqrt(upperTick) != Sqrt(price) && Sqrt(price) != Sqrt(lowerTick)
  {
    var fromEth := LiquidityFromEth(price, qEth, upperTick);
    var fromUsd := LiquidityFromUsd(price, qUsd, lowerTick);
    if fromEth <= fromUsd then fromEth else fromUsd
  }

  /** ETH side of a reset: half the deployed share of the collateral, converted at `price`. */
  function ResetEthAmount(price: Price, collateral: real, percentDeployed: real): real
    requires Positive(price)
  {
    PositiveIff(price);
    collateral / 2.0 / price.Value() * percentDeployed / 100.0
  }

  /** USD side of a reset: the other half of the deployed share. */
  function ResetUsdAmount(collateral: real, percentDeployed: real): real {
    collateral / 2.0 * percentDeployed / 100.0
  }

  /**
   Liquidity of a fresh position at `price`, with ticks `price * lowerBound`
   and `price * upperBound`, funded with `ResetEthAmount` ETH and
   `ResetUsdAmount` USD. A bound of 1 would put a tick on the price.
   */
  function ResetLiquidity(price: Price, lowerBound: Price, upperBound: Price,
                          collateral: real, percentDeployed: real): real
    requires Positive(price) && Sqrt(lowerBound) != 1.0 && Sqrt(upperBound) != 1.0
  {
    ScaledTickDiffers(price, upperBound);
    ScaledTickDiffers(price, lowerBound);
    Liquidity(price, ResetEthAmount(price, collateral, percentDeployed),
              ResetUsdAmount(collateral, percentDeployed),
              Mul(price, lowerBound), Mul(price, upperBound))
  }

  /** ETH held in range at `price`, for a range whose upper tick is `upperTick`. */
  function EthInRange(liquidity: real, upperTick: Price, price: Price): real
    requires Positive(price) && Positive(upperTick)
  {
    EthAmount(liquidity, Sqrt(upperTick), Sqrt(price))
  }

  /** USD held in range at `price`, for a range whose lower tick is `lowerTick`. */
  function UsdInRange(liquidity: real, lowerTick: Price, price: Price): real
  {
    liquidity * (Sqrt(price) - Sqrt(lowerTick))
  }

  /** ETH held at `price` by a position whose range is re-centred on `anchor`. */
  function EthAt(liquidity: real, upperBound: Price, anchor: Price, price: Price): real
    requires Positive(anchor) && Positive(price) && Positive(upperBound)
  {
    MulPositive(anchor, upperBound);
    EthInRange(liquidity, Mul(anchor, upperBound), price)
  }

  /** USD held at `price` by a position whose range is re-centred on `anchor`. */
  function UsdAt(liquidity: real, lowerBound: Price, anchor: Price, price: Price): real {
    UsdInRange(liquidity, Mul(anchor, lowerBound), price)
  }

  /** Change in ETH held when the price moves from `current` to `future`, in a range re-centred on `current`. */
  function EthChange(liquidity: real, upperBound: Price, current: Price, future: Price): real
    requires Positive(current) && Positive(future) && Positive(upperBound)
  {
    EthAt(liquidity, upperBound, current, future) - EthAt(liquidity, upperBound, current, current)
  }

  /** Change in USD held when the price moves from `current` to `future`, in a range re-centred on `current`. */
  function UsdChange(liquidity: real, lowerBound: Price, current: Price, future: Price): real {
    UsdAt(liquidity, lowerBound, current, future) - UsdAt(liquidity, lowerBound, current, current)
  }

  /** ETH and USD a position of `liquidity` holds at `price`, with bounds re-centred on `price`. */
  function EthUsdDeployed(liquidity: real, lowerBound: Price, upperBound: Price, price: Price): (real, real)
    requires Positive(price) && Positive(upperBound)
  {
    (EthAt(liquidity, upperBound, price, price), UsdAt(liquidity, lowerBound, price, price))
  }

  // ---------------------------------------------------------------------------
  // Properties
  // ---------------------------------------------------------------------------

  /** A liquidity scalar sized from the ETH side holds exactly that ETH at the sizing price. */
  lemma EthLiquidityInverse(price: Price, qEth: real, upperTick: Price)
    requires Positive(price) && Positive(upperTick) && Sqrt(upperTick) != Sqrt(price)
    ensures EthInRange(LiquidityFromEth(price, qEth, upperTick), upperTick, price) == qEth
  {
    var p: real, u: real := Sqrt(price), Sqrt(upperTick);
    var l := LiquidityFromEth(price, qEth, upperTick);
    assert EthInRange(l, upperTick, price) == EthAmount(l, u, p);
    assert EthAmount(l, u, p) == l * (u - p) / (p * u);
    EthSideInverse(qEth, p, u, l, EthInRange(l, upperTick, price));
  }

  /** A liquidity scalar sized from the USD side holds exactly that USD at the sizing price. */
  lemma UsdLiquidityInverse(price: Price, qUsd: real, lowerTick: Price)
    requires Sqrt(price) != Sqrt(lowerTick)
    ensures UsdInRange(LiquidityFromUsd(price, qUsd, lowerTick), lowerTick, price) == qUsd
  {
    var l := LiquidityFromUsd(price, qUsd, lowerTick);
    QuotientCancels(qUsd, Sqrt(price) - Sqrt(lowerTick), l, UsdInRange(l, lowerTick, price));
  }

  /** `Liquidity` is the smaller of the two per-side liquidities. */
  lemma LiquidityIsBinding(price: Price, qEth: real, qUsd: real, lowerTick: Price, upperTick: Price)
    requires Sqrt(upperTick) != Sqrt(price) && Sqrt(price) != Sqrt(lowerTick)
    ensures var l := Liquidity(price, qEth, qUsd, lowerTick, upperTick);
            && l <= LiquidityFromEth(price, qEth, upperTick) && l <= LiquidityFromUsd(price, qUsd, lowerTick)
            && (l == LiquidityFromEth(price, qEth, upperTick) || l == LiquidityFromUsd(price, qUsd, lowerTick))
  {
  }

  /** At the upper tick a position holds no ETH, and at the lower tick no USD: the range's boundaries. */
  lemma EmptyAtTicks(liquidity: real, lowerTick: Price, upperTick: Price)
    requires Positive(upperTick)
    ensures EthInRange(liquidity, upperTick, upperTick) == 0.0
    ensures UsdInRange(liquidity, lowerTick, lowerTick) == 0.0
  {
    var u: real := Sqrt(upperTick);
    assert EthInRange(liquidity, upperTick, upperTick) == EthAmount(liquidity, u, u);
    EthAmountReciprocals(liquidity, u, u);
    MulZero(liquidity, Sqrt(lowerTick) - Sqrt(lowerTick), UsdInRange(liquidity, lowerTick, lowerTick));
  }

  /** Below the upper tick a non-negative liquidity holds a non-negative amount of ETH. */
  lemma EthInRangeNonNeg(liquidity: real, upperTick: Price, price: Price)
    requires Positive(price) && Sqrt(price) <= Sqrt(upperTick) && liquidity >= 0.0
    ensures EthInRange(liquidity, upperTick, price) >= 0.0
  {
    var p: real, u: real := Sqrt(price), Sqrt(upperTick);
    ProductPositive(p, u);
    QuotientNonNeg(liquidity, u - p, p * u, EthInRange(liquidity, upperTick, price));
  }

  /** USD held is non-negative at or above the lower tick. */
  lemma UsdInRangeNonNeg(liquidity: real, lowerTick: Price, price: Price)
    requires Sqrt(lowerTick) <= Sqrt(price) && liquidity >= 0.0
    ensures UsdInRange(liquidity, lowerTick, price) >= 0.0
  {
    ProductNonNeg(liquidity, Sqrt(price) - Sqrt(lowerTick), UsdInRange(liquidity, lowerTick, price));
  }

  /** USD in range never decreases as the price rises (for non-negative liquidity). */
  lemma UsdInRangeMonotone(liquidity: real, lowerTick: Price, p1: Price, p2: Price)
    requires liquidity >= 0.0 && Sqrt(p1) <= Sqrt(p2)
    ensures UsdInRange(liquidity, lowerTick, p1) <= UsdInRange(liquidity, lowerTick, p2)
  {
    var lo: real := Sqrt(lowerTick);
    MulMonotone(liquidity, Sqrt(p1) - lo, Sqrt(p2) - lo,
                UsdInRange(liquidity, lowerTick, p1), UsdInRange(liquidity, lowerTick, p2));
  }

  /** ETH in range never increases as the price rises (for non-negative liquidity). */
  lemma EthInRangeMonotone(liquidity: real, upperTick: Price, p1: Price, p2: Price)
    requires Positive(upperTick) && Positive(p1)
    requires liquidity >= 0.0 && Sqrt(p1) <= Sqrt(p2)
    ensures EthInRange(liquidity, upperTick, p1) >= EthInRange(liquidity, upperTick, p2)
  {
    var a: real, b: real, u: real := Sqrt(p1), Sqrt(p2), Sqrt(upperTick);
    EthAmountReciprocals(liquidity, u, a);
    EthAmountReciprocals(liquidity, u, b);
    DivAntitone(liquidity, a, b);
  }

  /** More liquidity holds more ETH at a price below the upper tick. */
  lemma EthInRangeMonotoneInLiquidity(l1: real, l2: real, upperTick: Price, price: Price)
    requires Positive(price) && Sqrt(price) <= Sqrt(upperTick) && l1 <= l2
    ensures EthInRange(l1, upperTick, price) <= EthInRange(l2, upperTick, price)
  {
    var p: real, u: real := Sqrt(price), Sqrt(upperTick);
    ProductPositive(p, u);
    MulDivMonotone(l1, l2, u - p, p * u, EthInRange(l1, upperTick, price), EthInRange(l2, upperTick, price));
  }

  /** More liquidity holds more USD at a price above the lower tick. */
  lemma UsdInRangeMonotoneInLiquidity(l1: real, l2: real, lowerTick: Price, price: Price)
    requires Sqrt(lowerTick) <= Sqrt(price) && l1 <= l2
    ensures UsdInRange(l1, lowerTick, price) <= UsdInRange(l2, lowerTick, price)
  {
    var d: real := Sqrt(price) - Sqrt(lowerTick);
    MulMonotone(d, l1, l2, UsdInRange(l1, lowerTick, price), UsdInRange(l2, lowerTick, price));
  }

  /** Per-side liquidity is positive exactly when the price lies strictly inside that side's tick. */
  lemma SideLiquidityPositive(price: Price, qEth: real, qUsd: real, lowerTick: Price, upperTick: Price)
    requires Positive(price) && qEth > 0.0 && qUsd > 0.0
    requires Sqrt(upperTick) != Sqrt(price) && Sqrt(price) != Sqrt(lowerTick)
    ensures LiquidityFromEth(price, qEth, upperTick) > 0.0 <==> Sqrt(price) < Sqrt(upperTick)
    ensures LiquidityFromUsd(price, qUsd, lowerTick) > 0.0 <==> Sqrt(lowerTick) < Sqrt(price)
  {
    var p: real, u: real, lo: real := Sqrt(price), Sqrt(upperTick), Sqrt(lowerTick);
    EthLiquiditySign(qEth, p, u, LiquidityFromEth(price, qEth, upperTick));
    QuotientSign(qUsd, p - lo, LiquidityFromUsd(price, qUsd, lowerTick));
  }

  /**
   A position sized by `Liquidity` is backed by both amounts: at the sizing
   price it holds no more ETH than `qEth` and no more USD than `qUsd`, and
   exactly the amount of the binding side.
   */
  lemma LiquidityBackedByBoth(price: Price, qEth: real, qUsd: real, lowerTick: Price, upperTick: Price)
    requires Positive(lowerTick) && Sqrt(lowerTick) < Sqrt(price) < Sqrt(upperTick)
    ensures var l := Liquidity(price, qEth, qUsd, lowerTick, upperTick);
            && EthInRange(l, upperTick, price) <= qEth
            && UsdInRange(l, lowerTick, price) <= qUsd
            && (EthInRange(l, upperTick, price) == qEth || UsdInRange(l, lowerTick, price) == qUsd)
  {
    var l := Liquidity(price, qEth, qUsd, lowerTick, upperTick);
    var fromEth := LiquidityFromEth(price, qEth, upperTick);
    var fromUsd := LiquidityFromUsd(price, qUsd, lowerTick);
    LiquidityIsBinding(price, qEth, qUsd, lowerTick, upperTick);
    EthLiquidityInverse(price, qEth, upperTick);
    UsdLiquidityInverse(price, qUsd, lowerTick);
    EthInRangeMonotoneInLiquidity(l, fromEth, upperTick, price);
    UsdInRangeMonotoneInLiquidity(l, fromUsd, lowerTick, price);
  }

  /**
   Sizing round trip. With bounds `r*r` and `1/(r*r)` (the symmetric range
   policy), the ETH-side and USD-side liquidities of a reset coincide, so the
   position holds, at the reset price, exactly the ETH and USD it was funded with.
   */
  lemma ResetRoundTrip(price: Price, r: real, collateral: real, percentDeployed: real)
    requires Positive(price) && r > 0.0 && r != 1.0
    ensures 1.0 / r > 0.0 && 1.0 / r != 1.0
    ensures var l := ResetLiquidity(price, FromRoot(r), FromRoot(1.0 / r), collateral, percentDeployed);
            EthUsdDeployed(l, FromRoot(r), FromRoot(1.0 / r), price)
              == (ResetEthAmount(price, collateral, percentDeployed), ResetUsdAmount(collateral, percentDeployed))
  {
    var lowerBound, upperBound := FromRoot(r), FromRoot(1.0 / r);
    var lowerTick, upperTick := Mul(price, lowerBound), Mul(price, upperBound);
    var qEth, qUsd := ResetEthAmount(price, collateral, percentDeployed), ResetUsdAmount(collateral, percentDeployed);
    var l := ResetLiquidity(price, lowerBound, upperBound, collateral, percentDeployed);
    ResetSidesAgree(price, r, collateral, percentDeployed);
    LiquidityIsBinding(price, qEth, qUsd, lowerTick, upperTick);
    assert l == LiquidityFromEth(price, qEth, upperTick);
    assert l == LiquidityFromUsd(price, qUsd, lowerTick);
    MulPositive(price, upperBound);
    EthLiquidityInverse(price, qEth, upperTick);
    UsdLiquidityInverse(price, qUsd, lowerTick);
  }

  /** Under bounds `r*r` and `1/(r*r)` both sides of a reset imply the same liquidity. */
  lemma ResetSidesAgree(price: Price, r: real, collateral: real, percentDeployed: real)
    requires Positive(price) && r > 0.0 && r != 1.0
    ensures Sqrt(Mul(price, FromRoot(1.0 / r))) != Sqrt(price) && Sqrt(price) != Sqrt(Mul(price, FromRoot(r)))
    ensures LiquidityFromEth(price, ResetEthAmount(price, collateral, percentDeployed), Mul(price, FromRoot(1.0 / r)))
         == LiquidityFromUsd(price, ResetUsdAmount(collateral, percentDeployed), Mul(price, FromRoot(r)))
  {
    var s: real, v: real := Sqrt(price), price.Value();
    var upperTick, lowerTick := Mul(price, FromRoot(1.0 / r)), Mul(price, FromRoot(r));
    var u: real, lo: real := Sqrt(upperTick), Sqrt(lowerTick);
    assert u == s * (1.0 / r) by { MulRoot(price, FromRoot(1.0 / r)); }
    assert lo == s * r by { MulRoot(price, FromRoot(r)); }
    assert v == s * s by { SqrtSquares(price); }
    assert u != s by { ScaledDiffers(s, 1.0 / r, u); }
    assert lo != s by { ScaledDiffers(s, r, lo); }
    var qEth, qUsd := ResetEthAmount(price, collateral, percentDeployed), ResetUsdAmount(collateral, percentDeployed);
    assert qEth * v == qUsd by {
      PositiveIff(price);
      ResetAmountsRelated(collateral / 2.0, v, percentDeployed, qEth, qUsd);
    }
    var fromEth, fromUsd := LiquidityFromEth(price, qEth, upperTick), LiquidityFromUsd(price, qUsd, lowerTick);
    assert fromEth == qEth * s * u / (u - s);
    assert fromUsd == qUsd / (s - lo);
    SymmetricSidesAgree(qEth, qUsd, v, s, r, u, lo, fromEth, fromUsd);
  }

  /** When the price rises ETH leaves the position, and when it falls ETH enters it. */
  lemma EthChangeSign(liquidity: real, upperBound: Price, current: Price, future: Price)
    requires Positive(current) && Positive(future) && Positive(upperBound) && liquidity >= 0.0
    ensures Sqrt(current) <= Sqrt(future) ==> EthChange(liquidity, upperBound, current, future) <= 0.0
    ensures Sqrt(future) <= Sqrt(current) ==> EthChange(liquidity, upperBound, current, future) >= 0.0
  {
    var upperTick := Mul(current, upperBound);
    MulPositive(current, upperBound);
    if Sqrt(current) <= Sqrt(future) {
      EthInRangeMonotone(liquidity, upperTick, current, future);
    }
    if Sqrt(future) <= Sqrt(current) {
      EthInRangeMonotone(liquidity, upperTick, future, current);
    }
  }

  /** When the price rises USD enters the position, and when it falls USD leaves it. */
  lemma UsdChangeSign(liquidity: real, lowerBound: Price, current: Price, future: Price)
    requires liquidity >= 0.0
    ensures Sqrt(current) <= Sqrt(future) ==> UsdChange(liquidity, lowerBound, current, future) >= 0.0
    ensures Sqrt(future) <= Sqrt(current) ==> UsdChange(liquidity, lowerBound, current, future) <= 0.0
  {
    var lowerTick := Mul(current, lowerBound);
    if Sqrt(current) <= Sqrt(future) {
      UsdInRangeMonotone(liquidity, lowerTick, current, future);
    }
    if Sqrt(future) <= Sqrt(current) {
      UsdInRangeMonotone(liquidity, lowerTick, future, current);
    }
  }

  /** A price move accounts exactly for the change in holdings between the two prices. */
  lemma ChangesTelescope(liquidity: real, lowerBound: Price, upperBound: Price, current: Price, future: Price)
    requires Positive(current) && Positive(future) && Positive(upperBound)
    ensures EthUsdDeployed(liquidity, lowerBound, upperBound, current).0 + EthChange(liquidity, upperBound, current, future)
         == EthAt(liquidity, upperBound, current, future)
    ensures EthUsdDeployed(liquidity, lowerBound, upperBound, current).1 + UsdChange(liquidity, lowerBound, current, future)
         == UsdAt(liquidity, lowerBound, current, future)
  {
  }

  /** A price that does not move changes neither holding. */
  lemma NoMoveNoChange(liquidity: real, lowerBound: Price, upperBound: Price, current: Price, future: Price)
    requires Positive(current) && Positive(future) && Positive(upperBound)
    requires future.Value() == current.Value()
    ensures EthChange(liquidity, upperBound, current, future) == 0.0
    ensures UsdChange(liquidity, lowerBound, current, future) == 0.0
  {
    ValueInjective(future, current);
  }

  /** A position whose range contains its price holds non-negative amounts of both assets. */
  lemma EthUsdDeployedNonNeg(liquidity: real, lowerBound: Price, upperBound: Price, price: Price)
    requires Positive(price) && Positive(upperBound) && liquidity >= 0.0
    requires Sqrt(lowerBound) <= 1.0 <= Sqrt(upperBound)
    ensures EthUsdDeployed(liquidity, lowerBound, upperBound, price).0 >= 0.0
    ensures EthUsdDeployed(liquidity, lowerBound, upperBound, price).1 >= 0.0
  {
    var upperTick, lowerTick := Mul(price, upperBound), Mul(price, lowerBound);
    MulPositive(price, upperBound);
    MulRoot(price, upperBound);
    MulRoot(price, lowerBound);
    ScaledUp(Sqrt(price), Sqrt(upperBound), Sqrt(upperTick));
    ScaledDown(Sqrt(price), Sqrt(lowerBound), Sqrt(lowerTick));
    EthInRangeNonNeg(liquidity, upperTick, price);
    UsdInRangeNonNeg(liquidity, lowerTick, price);
  }

  // ---------------------------------------------------------------------------
  // Steps on plain reals (`p`, `u`, `lo` are square roots of price and ticks)
  // ---------------------------------------------------------------------------

  lemma ScaledTickDiffers(price: Price, bound: Price)
    requires Positive(price) && Sqrt(bound) != 1.0
    ensures Sqrt(Mul(price, bound)) != Sqrt(price)
  {
    MulRoot(price, bound);
    ScaledDiffers(Sqrt(price), Sqrt(bound), Sqrt(Mul(price, bound)));
  }

  lemma EthSideInverse(q: real, p: real, u: real, l: real, eth: real)
    requires p > 0.0 && u > 0.0 && u != p
    requires l == q * p * u / (u - p) && eth == l * (u - p) / (p * u)
    ensures eth == q
  {
    var d := u - p;
    assert l * d == q * p * u;
    assert q * p * u == q * (p * u);
    ProductPositive(p, u);
  }

  lemma EthLiquiditySign(q: real, p: real, u: real, l: real)
    requires q > 0.0 && p > 0.0 && u >= 0.0 && u != p && l == q * p * u / (u - p)
    ensures l > 0.0 <==> p < u
  {
    if u > 0.0 {
      ProductPositive(q, p);
      ProductPositive(q * p, u);
      QuotientSign(q * p * u, u - p, l);
    } else {
      assert q * p * u == 0.0;
    }
  }

  /** ETH held by liquidity `l` between root price `p` and upper root tick `u`. */
  function EthAmount(l: real, u: real, p: real): real
    requires p > 0.0 && u > 0.0
  {
    ProductPositive(p, u);
    l * (u - p) / (p * u)
  }

  lemma EthAmountReciprocals(l: real, u: real, p: real)
    requires u > 0.0 && p > 0.0
    ensures EthAmount(l, u, p) == l / p - l / u
  {
    assert (u - p) / (p * u) == 1.0 / p - 1.0 / u;
  }

  lemma ResetAmountsRelated(half: real, v: real, pct: real, qEth: real, qUsd: real)
    requires v != 0.0 && qEth == half / v * pct / 100.0 && qUsd == half * pct / 100.0
    ensures qEth * v == qUsd
  {
  }

  /** The algebra behind `ResetSidesAgree` (`v` is the price, `s` its root, `u` and `lo` the ticks' roots). */
  lemma SymmetricSidesAgree(qEth: real, qUsd: real, v: real, s: real, r: real, u: real, lo: real,
                            fromEth: real, fromUsd: real)
    requires s > 0.0 && v == s * s && r > 0.0 && r != 1.0 && qEth * v == qUsd
    requires u == s * (1.0 / r) && lo == s * r && u != s && s != lo
    requires fromEth == qEth * s * u / (u - s) && fromUsd == qUsd / (s - lo)
    ensures fromEth == fromUsd
  {
    var d := s - lo;
    assert u - s == d / r;
    assert qEth * s * u == qUsd / r;
    assert fromEth == (qUsd / r) / (d / r);
  }
}
