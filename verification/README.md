# Rage Trade vault backtester — a Dafny model

The backtester simulates a vault that holds collateral and deploys a share of
it as a concentrated-liquidity (Uniswap v3 style) ETH/USD position. It runs
over an ETH price series in fixed-size windows. Each window does five things:

- it estimates the fees the position earns from arbitrage along the window's price path;
- it books the ETH and USD the position gains or loses;
- it marks the LP's profit and loss to market;
- it carries the collateral forward;
- it resets the position when the LP's ETH exposure outgrows a threshold share of the collateral.

This project models that core over exact reals and proves its properties.

| file | module | models |
|---|---|---|
| `prices.dfy` | `Prices` | prices carried by their square roots; `np.sqrt`, `np.minimum`, `np.maximum`, price × ratio |
| `univ3.dfy` | `UniV3` | `uni_v3_utils.py`: liquidity sizing, ETH/USD held in a range, their changes, deployed amounts |
| `fees.dfy` | `Fees` | `fee_utils.py`: arbitrage checkpoints (both modes) and the fee estimate |
| `strategy.dfy` | `Strategy` | `strategy_utils.py`: range bounds and the P&L update |
| `collateral.dfy` | `Collateral` | `collateral_utils.py`: the collateral update and the all-USD basket |
| `backtest.dfy` | `Backtest` | `backtest.py`: the loop body as a step function, the window indexing, and the fold |
| `arith.dfy` | `Arith` | real-arithmetic steps shared by the proofs |
| `optional.dfy` | `Optional` | `Option`, the result of a computation that raises |

## How the model is built

- **Prices.** Dafny's `real` has no square root, so a price is stored as its non-negative root.
  - `FromRoot(r)` stands for the price `r * r`.
  - Every price is supplied by its non-negative root. `SqrtUnique` shows that root is the only one, so `Sqrt` is `np.sqrt` on every price the model receives.
  - Range bounds and ticks are prices too. `Mul` is the source's `price * bound`.
- **Errors.** The backtest raises in four places. Each becomes `None`:
  - a zero window size (the APY conversion divides by it, `strategy_utils.py:16`);
  - a zero concentration;
  - a deployed percentage of exactly 100% of the range (`1/0.0` in the bounds);
  - an empty price series (reading label 0).
- **Preconditions.** Divisions that numpy turns into `inf`/`nan` are excluded instead:
  - prices are positive;
  - collateral values are non-zero;
  - a range percentage of 0 or 200 puts a tick on the price, and is excluded by `BoundsOffPrice`.
- **The loop.** The loop body is `Backtest.Step`, which maps a state and a window to the next state and the window's row.
  - The loop is a fold of a step function over the window sequence: `StateAt` and `RowsUpTo`.
  - `RunFold` is the loop written out with a running state and a growing list, proved equal to the fold.
  - `BacktestLoop` adds the early failures and is proved equal to `Backtest`.
- **Behaviour of the code kept as written:**
  - Ticks are re-centred on every window's opening price (`backtest.py:53-54`, `uni_v3_utils.py:36-37`); they are not fixed at the last reset price.
  - `reset_liquidity` receives the undivided deployed percentage, while the bounds use that percentage divided by the concentration (`backtest.py:35-37`, `BacktestFirstRow`).
  - The loop visits `N // w - 1` windows. When `w` does not divide `N`, a window whose closing price is still in the series is left out (`LastWindowSkipped`).
- **Range percentages above 100.** `get_lp_range_bounds` fails only at exactly 100; a larger percentage gives the bounds `(1 - x/100)^2` and its reciprocal like any other (`RangeBoundsDefined`, `RangeBoundsValues`).
- **Where errors arise.** The four raises listed under **Errors** all happen in the set-up before the loop (`backtest.py:33-37`). The only raise inside the loop is the `KeyError` of a collateral series shorter than the price series (`backtest.py:66-67`), which the model excludes by a precondition.
- **The all-USD basket** is worth the literal value 100 at every point (`collateral_utils.py:49`).

## Model

| member | source | states |
|---|---|---|
| Prices.SqrtUnique | uni_v3_utils.py:10-11 | the root a price is stored by is the only non-negative real squaring to it, so `np.sqrt` is modelled exactly |
| Prices.SqrtMonotone | uni_v3_utils.py:10-11 | square roots order prices exactly as the prices themselves, strictly and non-strictly |
| Prices.MulValue | backtest.py:53-54 | a tick `price * bound` is the product of the price and the bound |
| Prices.MinMaxByValue | fee_utils.py:29-30 | the chosen min price is at most both prices and the max price at least both |
| UniV3.Liquidity | uni_v3_utils.py:8-13 | no contract of its own: `LiquidityIsBinding`, `SideLiquidityPositive`, `EthLiquidityInverse`, `UsdLiquidityInverse` and `LiquidityBackedByBoth` state that it is the binding one of two per-side liquidities and that each inverts the holdings formula |
| UniV3.ResetLiquidity | uni_v3_utils.py:16-20 | no contract of its own: `ResetSidesAgree` and `ResetRoundTrip` state that both sides agree and that the position holds exactly the funded half-and-half amounts at the reset price |
| UniV3.EthInRange | uni_v3_utils.py:23-26 | no contract of its own: `EthLiquidityInverse`, `EmptyAtTicks`, `EthInRangeNonNeg` and the two `EthInRangeMonotone` lemmas state its inverse, its zero at the upper tick, its sign and its monotonicity |
| UniV3.UsdInRange | uni_v3_utils.py:29-31 | no contract of its own: `UsdLiquidityInverse`, `EmptyAtTicks`, `UsdInRangeNonNeg` and the two `UsdInRangeMonotone` lemmas state its inverse, its zero at the lower tick, its sign and its monotonicity |
| UniV3.EthChange | uni_v3_utils.py:34-38 | no contract of its own: `EthChangeSign`, `ChangesTelescope` and `NoMoveNoChange` state its sign, that it carries the deployed ETH to the closing holdings, and that it is 0 without a move |
| UniV3.UsdChange | uni_v3_utils.py:41-45 | no contract of its own: `UsdChangeSign`, `ChangesTelescope` and `NoMoveNoChange` state the same for USD |
| UniV3.EthUsdDeployed | uni_v3_utils.py:48-52 | no contract of its own: `EthUsdDeployedNonNeg`, `ResetRoundTrip` and `ChangesTelescope` state that the amounts are non-negative, return a reset's funding, and are the start of the changes |
| UniV3.LiquidityIsBinding | uni_v3_utils.py:8-13 | the position's liquidity is at most the ETH-side and the USD-side liquidity and equals one of them |
| UniV3.SideLiquidityPositive | uni_v3_utils.py:10-11 | for positive amounts, each side's liquidity is positive exactly when the price is strictly inside that side's tick |
| UniV3.EthLiquidityInverse | uni_v3_utils.py:10-26 | the ETH held by the ETH-side liquidity at the sizing price is the ETH amount it was sized from |
| UniV3.UsdLiquidityInverse | uni_v3_utils.py:11-31 | the USD held by the USD-side liquidity at the sizing price is the USD amount it was sized from |
| UniV3.LiquidityBackedByBoth | uni_v3_utils.py:8-31 | with the price inside the range, the sized position holds no more than either amount and exactly the binding one |
| UniV3.ResetSidesAgree | uni_v3_utils.py:16-20 | with bounds `r^2` and `1/r^2`, a reset's ETH-side and USD-side liquidities coincide |
| UniV3.ResetRoundTrip | uni_v3_utils.py:16-52 | a reset position holds, at the reset price, exactly the ETH and USD it was funded with |
| UniV3.EmptyAtTicks | uni_v3_utils.py:23-31 | no ETH is held at the upper tick and no USD at the lower tick |
| UniV3.EthInRangeNonNeg | uni_v3_utils.py:23-26 | below the upper tick a non-negative liquidity holds non-negative ETH |
| UniV3.UsdInRangeNonNeg | uni_v3_utils.py:29-31 | above the lower tick a non-negative liquidity holds non-negative USD |
| UniV3.EthInRangeMonotone | uni_v3_utils.py:23-26 | ETH held does not increase as the price rises |
| UniV3.UsdInRangeMonotone | uni_v3_utils.py:29-31 | USD held does not decrease as the price rises |
| UniV3.EthInRangeMonotoneInLiquidity | uni_v3_utils.py:23-26 | below the upper tick more liquidity holds at least as much ETH |
| UniV3.UsdInRangeMonotoneInLiquidity | uni_v3_utils.py:29-31 | above the lower tick more liquidity holds at least as much USD |
| UniV3.EthChangeSign | uni_v3_utils.py:34-38 | a price rise gives a non-positive ETH change and a fall a non-negative one |
| UniV3.UsdChangeSign | uni_v3_utils.py:41-45 | a price rise gives a non-negative USD change and a fall a non-positive one |
| UniV3.ChangesTelescope | uni_v3_utils.py:34-52 | amounts deployed at the opening price plus the changes are the amounts held at the closing price in the same range |
| UniV3.NoMoveNoChange | uni_v3_utils.py:34-45 | when the price does not move, both the ETH and the USD change are zero |
| UniV3.EthUsdDeployedNonNeg | uni_v3_utils.py:48-52 | with `lower <= 1 <= upper` and non-negative liquidity, both deployed amounts are non-negative |
| Fees.ArbitragePrices | fee_utils.py:10-21 | checkpoints start with the first price; at most as many as prices; exactly as many in concentrated mode; all positive |
| Fees.Walk | fee_utils.py:14-19 | the checkpoints after the first are at most as many as the remaining prices, exactly as many in concentrated mode |
| Fees.ArbitragePricesLoop | fee_utils.py:10-21 | the loop with a running checkpoint produces the recursive definition's checkpoints |
| Fees.EstimateFeesLoop | fee_utils.py:24-33 | the loop summing each consecutive pair's volume produces the fee estimate |
| Fees.ArbitrageSubsequence | fee_utils.py:14-17 | without concentration the checkpoints are a subsequence of the prices |
| Fees.ArbitrageMoves | fee_utils.py:15-17 | without concentration each checkpoint moved more than the threshold percentage from the one before |
| Fees.WalkQuiet | fee_utils.py:14-19 | no checkpoint follows exactly when no later price moves past the threshold from the current one |
| Fees.WalkFirstMove | fee_utils.py:14-17 | the next checkpoint is the first later price that moves past the threshold from the current checkpoint, and the walk continues from it; with `WalkQuiet` this fixes the checkpoints completely |
| Fees.EstimateFees | fee_utils.py:24-33 | no contract of its own: `EstimateFeesLoop`, `VolumeIsTravel`, `FeesNonNeg`, `FeesLinear`, `FeesFlat`, `FeesSinglePrice` and `FeesMonotoneInLiquidity` state the loop it is, its independent travel-sum form, its sign, linearity and zero cases |
| Fees.ConcentratedHolds | fee_utils.py:14-19 | in concentrated mode entry `k` is the price `k` when it moves past the threshold from entry `k - 1`, and a repeat of entry `k - 1` otherwise |
| Fees.ArbitrageKeepsAll | fee_utils.py:14-19 | a negative threshold lets every price through, in both modes |
| Fees.VolumeIsTravel | fee_utils.py:28-31 | the USD volume of a checkpoint path is the liquidity times the distance it travels in root price |
| Fees.VolumeLinear | fee_utils.py:28-31 | volume is proportional to liquidity |
| Fees.VolumeNonNeg | fee_utils.py:28-31 | a non-negative liquidity trades a non-negative volume |
| Fees.VolumeConstant | fee_utils.py:28-31 | a path whose checkpoints never change trades nothing |
| Fees.VolumeCoversNetMove | fee_utils.py:28-31 | the volume is at least the liquidity times the net root-price move between the path's ends |
| Fees.FeesSinglePrice | fee_utils.py:26-33 | a one-price path earns no fees |
| Fees.FeesFlat | fee_utils.py:24-33 | a constant price path earns no fees, whatever the threshold |
| Fees.FeesNonNeg | fee_utils.py:28-33 | fees are non-negative for non-negative liquidity and fee size |
| Fees.FeesLinear | fee_utils.py:31-33 | fees are liquidity × fee size × the fees of unit liquidity at unit fee |
| Fees.FeesMonotoneInLiquidity | fee_utils.py:31-33 | for a fixed path and a non-negative fee, more liquidity collects at least as much |
| Strategy.LpRangeBounds | strategy_utils.py:8-10 | no contract of its own: the `RangeBounds` lemmas state when it fails, its values, their reciprocity, where they straddle 1, and when they are usable |
| Strategy.RangeBoundsDefined | strategy_utils.py:8-10 | the bounds fail exactly at a percentage of 100 |
| Strategy.RangeBoundsValues | strategy_utils.py:10 | the bounds are `(1 - x/100)^2` and its reciprocal |
| Strategy.RangeBoundsReciprocal | strategy_utils.py:10 | the product of the two bounds is 1 |
| Strategy.RangeBoundsStraddle | strategy_utils.py:10 | for `0 < x < 100`, `0 < lower < 1 < upper` |
| Strategy.RangeBoundsAtZero | strategy_utils.py:10 | a percentage of 0 gives the empty range `(1, 1)` |
| Strategy.RangeBoundsUsable | strategy_utils.py:10 | both bounds are positive, and a bound is 1 exactly at 0 or 200 percent |
| Strategy.UpdatePnl | strategy_utils.py:20-23 | no contract of its own: `PnlMarksToMarket`, `PnlChangeAdds` and `PnlFlatPosition` state that the new P&L marks the position to market and that old P&L plus the change is the new P&L |
| Strategy.PnlMarksToMarket | strategy_utils.py:20-23 | the new P&L is the USD balance plus the ETH position at the closing price, whatever the old P&L |
| Strategy.PnlChangeAdds | strategy_utils.py:22-23 | old P&L plus the change is the new P&L |
| Strategy.PnlFlatPosition | strategy_utils.py:22-23 | a flat position gives P&L 0 and change minus the old P&L |
| Collateral.UpdateCollateralValue | collateral_utils.py:53-55 | no contract of its own: `CollateralUnchanged`, `CollateralPnlAdditive`, `CollateralIncreasingInPnl` and `UsdCollateralRatioOne` state its fixed point, its additivity and monotonicity in the P&L change, and its form over the USD basket |
| Collateral.UsdCollateral | collateral_utils.py:45-50 | no contract of its own: `UsdCollateralShape` and `UsdCollateralRatioOne` state its length, its constant value 100 and its unit price ratios |
| Collateral.CollateralUnchanged | collateral_utils.py:53-55 | with multiplier 1, an unchanged basket and no P&L the collateral is unchanged |
| Collateral.CollateralPnlAdditive | collateral_utils.py:55 | the P&L change is added after the basket and interest scaling |
| Collateral.CollateralIncreasingInPnl | collateral_utils.py:55 | the update is strictly increasing in the P&L change |
| Collateral.UsdCollateralShape | collateral_utils.py:45-50 | the USD basket has one value per price point, each 100 |
| Collateral.UsdCollateralRatioOne | collateral_utils.py:45-55 | over the USD basket every ratio is 1, so only interest and P&L move the collateral |
| Backtest.Step | backtest.py:45-81 | no contract of its own: `RowRecordsStateBefore`, `AccrueUpdates`, `StepResetIff`, `StepResetEffects`, `StepNoReset` and `QuietStep` state what one loop iteration records, updates and resets |
| Backtest.Backtest | backtest.py:21-83 | no contract of its own: `BacktestDefined`, `BacktestRowCount`, `BacktestFirstRow`, `RowsChain`, `QuietFold` and `BacktestLoop` state when it fails, how many rows it emits, its first row, how rows chain, its flat-series result, and the loop it is |
| Backtest.RowRecordsStateBefore | backtest.py:45-59 | a row records the prices, collateral, liquidity and LP balances from before its window, with ticks and deployed amounts at the opening price |
| Backtest.AccrueUpdates | backtest.py:60-67 | ETH moves by the ETH change; USD by the USD change plus fees; the P&L is marked at the closing price; the collateral takes the P&L change |
| Backtest.StepResetIff | backtest.py:62-68 | the reset fires exactly when the updated ETH position at the closing price exceeds the threshold share of the already updated collateral |
| Backtest.StepResetEffects | backtest.py:69-73 | on reset the collateral loses 3% of the ETH exposure, liquidity is re-sized from what remains with the undivided percentage, and ETH, USD and P&L are zero |
| Backtest.StepNoReset | backtest.py:68-81 | without a reset the liquidity is kept and the accrued values carry over |
| Backtest.QuietStep | backtest.py:60-68 | a window with no price or basket move, multiplier 1 and a flat LP earns no fees, changes nothing and does not reset |
| Backtest.WindowsSteppable | backtest.py:44-45 | every window read from valid series has positive prices and a non-zero opening basket value |
| Backtest.RowsLength | backtest.py:43-81 | the fold emits one row per window |
| Backtest.RowAt | backtest.py:44-81 | row `i` is the row of window `i` stepped from the state after the first `i` windows |
| Backtest.FoldStays | backtest.py:44-81 | a state every window leaves unchanged is kept by the whole fold |
| Backtest.FoldChain | backtest.py:44-81 | in any fold whose step records its state, row `i+1` opens with the state after window `i`, and liquidity only changes across a reset |
| Backtest.BacktestStepRecords | backtest.py:47-72 | the loop body records its opening state in its row and keeps the liquidity unless it resets |
| Backtest.RowsChain | backtest.py:47-72 | row `i+1`'s collateral, LP balances and liquidity are those after window `i`, and liquidity changes only across a reset |
| Backtest.WindowPathEnds | backtest.py:45-61 | window `i`'s fee path has `w + 1` prices, opening at the current price and closing at the future price, inside the series |
| Backtest.QuietFold | backtest.py:44-81 | with a flat price series, a flat basket and multiplier 1, every row has no fees, no reset, no P&L change, the initial collateral and liquidity, and a zero ETH position, USD balance and P&L |
| Backtest.WindowCountIff | backtest.py:44 | window `i` is visited exactly when `(i + 2) * w <= N` |
| Backtest.LastWindowSkipped | backtest.py:44-45 | the window after the last visited one still fits in the series exactly when `w` does not divide `N` |
| Backtest.WindowIndexBounds | backtest.py:44-45 | both price indices `i*w` and `(i+1)*w` a visited window reads are inside the series |
| Backtest.BacktestDefined | backtest.py:33-44 | the backtest fails exactly for a zero concentration, an empty series, a zero window size or a range percentage of 100 |
| Backtest.BacktestRowCount | backtest.py:43-44 | the backtest returns `N // w - 1` rows (none when that is not positive), and none for a negative window size |
| Backtest.BacktestFirstRow | backtest.py:34-59 | the first row opens at the first price with the initial collateral, a flat LP, and liquidity sized with the undivided percentage |
| Backtest.BacktestLoop | backtest.py:21-83 | the backtest written with early failures and a loop computes the same result as the fold |
| Backtest.RunWindows | backtest.py:43-81 | the loop over the windows yields the fold's rows |
| Backtest.RunFold | backtest.py:43-83 | the loop with a running state and a growing row list ends with the fold's state and rows |

## Left out

- `apy_to_apy_multiplier` (`strategy_utils.py:13-17`) uses `exp` and `log`, which the model does not have. The per-window multiplier is the input `Config.apyMultiplier`.
- `data_cleaning_utils.py`: file reading, resampling and interpolation are I/O and library plumbing.
- `import_btc_df`, `get_tricrypto_collateral_df` and `get_gmx_collateral_df` read files and take fractional powers. The collateral series is an input sequence of reals.
- Floating point: all arithmetic is exact. Rounding and the propagation of `inf` and `nan` are not modelled; the divisions numpy would turn into them are preconditions.
- The `time` column: a row carries the index of its opening price (`Row.start`) instead of a time stamp.
- Price series are given by their non-negative square roots. The model does not show that every non-negative real has such a root, so it is the caller that supplies it.
- pandas frames: a series is a `seq`, and the output frame is a sequence of `Row` values.
- ArbitragePrices, EstimateFees: require a non-empty price list. On an empty list the source raises `IndexError` at `prices[0]` (`fee_utils.py:12`, reached from `fee_utils.py:26`). The backtest never passes one, since every window's fee path has `w + 1` prices (`WindowPathEnds`).
- Backtest: requires the collateral series to be at least as long as the price series. The source raises a `KeyError` only when a visited window reads past the collateral series' end.
- Backtest: requires a range percentage other than 0 and 200 (`BoundsOffPrice`). At those values a tick sits on the price and numpy divides by zero inside the liquidity formula.
- QuietFold: states the flat-series scenario for an interest multiplier of 1 only. With another multiplier the collateral compounds each window, and the model does not state that.
