/**
 The backtest: a fold over fixed-size windows of the ETH price series.

 The state carries the position's liquidity, the LP's ETH position, USD
 balance and P&L, and the vault's collateral. Each window accrues the fees
 and the position changes of its price move, marks the P&L, carries the
 collateral forward, and then resets the position when the LP's ETH exposure
 has grown too large against the collateral. Every window emits one row.

 The window `i` reads the prices at `i * w` and `(i + 1) * w` and charges
 fees along the `w + 1` prices between them, inclusive. There are
 `N / w - 1` windows for `N` prices (integer division).
 */
module Backtest {
  import opened Arith
  import opened Prices
  import opened Optional
  import opened UniV3
  import opened Fees
  import opened Strategy
  import opened Collateral

  /** Share of the unwound ETH exposure lost to slippage on a reset. */
  const VAULT_RESET_SLIPPAGE: real := 0.03
  /** Fee share LPs collect on arbitrage volume. */
  const FEE_SIZE: real := 0.001
  /** Collateral the vault starts the backtest with. */
  const INITIAL_COLLATERAL_VALUE: real := 1000000.0

  /** The backtest's parameters; `apyMultiplier` is the per-window interest factor on the collateral. */
  datatype Config = Config(apyMultiplier: real, arbThreshold: real, percentDeployed: real,
                           concentration: real, resetThreshold: real, windowSize: int)

  /** What the fold carries from one window to the next. */
  datatype State = State(liquidity: real, ethPosition: real, usdBalance: real, pnl: real, collateral: real)

  /** What one window reads from the price and collateral series. */
  datatype Window = Window(start: nat, current: Price, future: Price, path: seq<Price>,
                           currentValue: real, futureValue: real)

  /** The window's updates, before the reset check. */
  datatype Accrual = Accrual(fees: real, ethPosition: real, usdBalance: real, pnl: real, pnlChange: real,
                             collateral: real)

  /**
   One output row: the values at the start of the window (`start` stands for
   the time stamp at that index), then the fees, whether a reset fired, and
   the P&L after the window.
   */
  datatype Row = Row(start: nat, currentPrice: Price, futurePrice: Price, collateralValue: real,
                     liquidity: real, lowerTick: Price, upperTick: Price, ethDeployed: real, usdDeployed: real,
                     ethPosition: real, usdBalance: real,
                     feesCollected: real, resetTriggered: bool, pnl: real, pnlChange: real)

  /** Bounds whose ticks stay off the price and whose upper tick is positive. */
  predicate UsableBounds(lower: Price, upper: Price) {
    Positive(upper) && Sqrt(lower) != 1.0 && Sqrt(upper) != 1.0
  }

  /** Positive prices and a non-zero starting collateral value, so every division is defined. */
  predicate ValidWindow(win: Window) {
    Positive(win.current) && Positive(win.future) && |win.path| > 0 && AllPositive(win.path)
    && win.currentValue != 0.0
  }

  /** Every value of a series is non-zero. */
  predicate NonZero(s: seq<real>) {
    forall k :: 0 <= k < |s| ==> s[k] != 0.0
  }

  // ---------------------------------------------------------------------------
  // One window
  // ---------------------------------------------------------------------------

  /** Fees, ETH and USD changes, P&L and collateral of a window, in the order the loop updates them. */
  function Accrue(cfg: Config, lower: Price, upper: Price, st: State, win: Window): Accrual
    requires ValidWindow(win) && Positive(upper)
  {
    var fees := EstimateFees(st.liquidity, cfg.arbThreshold, FEE_SIZE, win.path);
    var eth := st.ethPosition + EthChange(st.liquidity, upper, win.current, win.future);
    var usd := st.usdBalance + UsdChange(st.liquidity, lower, win.current, win.future) + fees;
    var (pnl, pnlChange) := UpdatePnl(st.pnl, win.future, eth, usd);
    var collateral := UpdateCollateralValue(st.collateral, cfg.apyMultiplier, pnlChange,
                                            win.currentValue, win.futureValue);
    Accrual(fees, eth, usd, pnl, pnlChange, collateral)
  }

  /** The reset condition: the ETH exposure at the window's closing price exceeds the threshold share of collateral. */
  predicate ResetDue(resetThreshold: real, ethPosition: real, futurePrice: Price, collateral: real) {
    Abs(ethPosition) * futurePrice.Value() > resetThreshold * collateral
  }

  /**
   The state after the reset check. A reset pays slippage on the ETH exposure,
   re-sizes the position at the closing price from the remaining collateral and
   the undivided deployed percentage, and zeroes the LP's accumulators.
   */
  function Settle(cfg: Config, lower: Price, upper: Price, liquidity: real, a: Accrual, future: Price): State
    requires Positive(future) && UsableBounds(lower, upper)
  {
    if ResetDue(cfg.resetThreshold, a.ethPosition, future, a.collateral) then
      var collateral := a.collateral - Abs(a.ethPosition) * future.Value() * VAULT_RESET_SLIPPAGE;
      State(ResetLiquidity(future, lower, upper, collateral, cfg.percentDeployed), 0.0, 0.0, 0.0, collateral)
    else
      State(liquidity, a.ethPosition, a.usdBalance, a.pnl, a.collateral)
  }

  /** One iteration of the backtest loop: the next state and the window's row. */
  function Step(cfg: Config, lower: Price, upper: Price, st: State, win: Window): (State, Row)
    requires ValidWindow(win) && UsableBounds(lower, upper)
  {
    var a := Accrue(cfg, lower, upper, st, win);
    var next := Settle(cfg, lower, upper, st.liquidity, a, win.future);
    var (ethDeployed, usdDeployed) := EthUsdDeployed(st.liquidity, lower, upper, win.current);
    (next, Row(win.start, win.current, win.future, st.collateral, st.liquidity,
               Mul(win.current, lower), Mul(win.current, upper), ethDeployed, usdDeployed,
               st.ethPosition, st.usdBalance,
               a.fees, ResetDue(cfg.resetThreshold, a.ethPosition, win.future, a.collateral), next.pnl, a.pnlChange))
  }

  // ---------------------------------------------------------------------------
  // Windows
  // ---------------------------------------------------------------------------

  /**
   Number of windows for `n` prices and window size `w`. For a negative `w`
   floor division makes `n // w - 1` negative, so the loop runs no window.
   */
  function WindowCount(n: nat, w: int): nat
    requires w != 0
  {
    if w > 0 && n / w >= 1 then n / w - 1 else 0
  }

  /** Window `i`: its two price points `i * w` and `(i + 1) * w`, the inclusive price path between them, and the collateral values at both ends. */
  function WindowAt(eth: seq<Price>, coll: seq<real>, w: int, i: nat): Window
    requires w > 0 && i < WindowCount(|eth|, w) && |eth| <= |coll|
  {
    WindowIndexBounds(|eth|, w, i);
    Window(i * w, eth[i * w], eth[(i + 1) * w], eth[i * w..(i + 1) * w + 1], coll[i * w], coll[(i + 1) * w])
  }

  /** The state the vault starts with: the initial collateral, fully sized at the first price. */
  function InitialState(cfg: Config, lower: Price, upper: Price, eth: seq<Price>): State
    requires |eth| > 0 && AllPositive(eth) && UsableBounds(lower, upper)
  {
    State(ResetLiquidity(eth[0], lower, upper, INITIAL_COLLATERAL_VALUE, cfg.percentDeployed), 0.0, 0.0, 0.0,
          INITIAL_COLLATERAL_VALUE)
  }

  /** What the fold needs of its inputs: a positive window size, usable bounds, positive prices and a collateral value for every price point. */
  predicate FoldInputs(cfg: Config, lower: Price, upper: Price, eth: seq<Price>, coll: seq<real>) {
    && cfg.windowSize > 0 && UsableBounds(lower, upper)
    && |eth| > 0 && AllPositive(eth) && |eth| <= |coll| && NonZero(coll)
  }

  /** The series of windows the loop visits. */
  function Windows(eth: seq<Price>, coll: seq<real>, w: int): seq<Window>
    requires w > 0 && |eth| <= |coll|
  {
    seq(WindowCount(|eth|, w), i requires 0 <= i < WindowCount(|eth|, w) => WindowAt(eth, coll, w, i))
  }

  /** The loop body as a step function over windows, for fixed parameters and bounds. */
  function BacktestStep(cfg: Config, lower: Price, upper: Price): (State, Window) --> (State, Row) {
    (st: State, win: Window) requires ValidWindow(win) && UsableBounds(lower, upper) => Step(cfg, lower, upper, st, win)
  }

  // ---------------------------------------------------------------------------
  // The fold
  // ---------------------------------------------------------------------------

  /** `step` accepts every window of `wins`, from any state. */
  ghost predicate Steppable(step: (State, Window) --> (State, Row), wins: seq<Window>) {
    forall st, k :: 0 <= k < |wins| ==> step.requires(st, wins[k])
  }

  /** The state after the first `k` windows. */
  function StateAt(step: (State, Window) --> (State, Row), init: State, wins: seq<Window>, k: nat): State
    requires Steppable(step, wins) && k <= |wins|
    decreases k
  {
    if k == 0 then init else step(StateAt(step, init, wins, k - 1), wins[k - 1]).0
  }

  /** The rows of the first `k` windows. */
  function RowsUpTo(step: (State, Window) --> (State, Row), init: State, wins: seq<Window>, k: nat): seq<Row>
    requires Steppable(step, wins) && k <= |wins|
    decreases k
  {
    if k == 0 then [] else RowsUpTo(step, init, wins, k - 1) + [step(StateAt(step, init, wins, k - 1), wins[k - 1]).1]
  }

  /** The rows of a backtest over the whole price series. */
  function BacktestRows(cfg: Config, lower: Price, upper: Price, eth: seq<Price>, coll: seq<real>): seq<Row>
    requires FoldInputs(cfg, lower, upper, eth, coll)
  {
    var wins := Windows(eth, coll, cfg.windowSize);
    WindowsSteppable(cfg, lower, upper, eth, coll);
    RowsUpTo(BacktestStep(cfg, lower, upper), InitialState(cfg, lower, upper, eth), wins, |wins|)
  }

  /** The backtest's state after its first `k` windows. */
  function BacktestState(cfg: Config, lower: Price, upper: Price, eth: seq<Price>, coll: seq<real>, k: nat): State
    requires FoldInputs(cfg, lower, upper, eth, coll) && k <= WindowCount(|eth|, cfg.windowSize)
  {
    var wins := Windows(eth, coll, cfg.windowSize);
    WindowsSteppable(cfg, lower, upper, eth, coll);
    StateAt(BacktestStep(cfg, lower, upper), InitialState(cfg, lower, upper, eth), wins, k)
  }

  /**
   The backtest's rows. `None` where the source raises: a zero concentration
   or a deployed share of exactly 100% of the range (division by zero in the
   bounds), an empty price series, or a zero window size.
   */
  function Backtest(cfg: Config, eth: seq<Price>, coll: seq<real>): Option<seq<Row>>
    requires AllPositive(eth) && |eth| <= |coll| && NonZero(coll)
    requires cfg.concentration != 0.0 ==> BoundsOffPrice(cfg.percentDeployed / cfg.concentration)
  {
    if cfg.concentration == 0.0 || |eth| == 0 || cfg.windowSize == 0 then
      None
    else
      match LpRangeBounds(cfg.percentDeployed / cfg.concentration)
      case None => None
      case Some((lower, upper)) =>
        RangeBoundsUsable(cfg.percentDeployed / cfg.concentration);
        if cfg.windowSize < 0 then
          Some([])
        else
          Some(BacktestRows(cfg, lower, upper, eth, coll))
  }

  /** A range percentage whose bounds keep both ticks off the price (see `RangeBoundsUsable`). */
  predicate BoundsOffPrice(x: real) {
    x != 0.0 && x != 200.0
  }

  // ---------------------------------------------------------------------------
  // Properties of one window
  // ---------------------------------------------------------------------------

  /** A row records the state from before its window's updates, with ticks re-centred on the window's opening price. */
  lemma RowRecordsStateBefore(cfg: Config, lower: Price, upper: Price, st: State, win: Window)
    requires ValidWindow(win) && UsableBounds(lower, upper)
    ensures var row := Step(cfg, lower, upper, st, win).1;
            && row.start == win.start && row.currentPrice == win.current && row.futurePrice == win.future
            && row.collateralValue == st.collateral && row.liquidity == st.liquidity
            && row.ethPosition == st.ethPosition && row.usdBalance == st.usdBalance
            && row.lowerTick == Mul(win.current, lower) && row.upperTick == Mul(win.current, upper)
            && (row.ethDeployed, row.usdDeployed) == EthUsdDeployed(st.liquidity, lower, upper, win.current)
  {
  }

  /** The loop body accrues the window, then settles the reset check on the accrued values. */
  lemma StepParts(cfg: Config, lower: Price, upper: Price, st: State, win: Window)
    requires ValidWindow(win) && UsableBounds(lower, upper)
    ensures var (next, row) := Step(cfg, lower, upper, st, win);
            var a := Accrue(cfg, lower, upper, st, win);
            && next == Settle(cfg, lower, upper, st.liquidity, a, win.future)
            && row.resetTriggered == ResetDue(cfg.resetThreshold, a.ethPosition, win.future, a.collateral)
            && row.feesCollected == a.fees && row.pnlChange == a.pnlChange && row.pnl == next.pnl
  {
  }

  /**
   The reset fires exactly when the ETH position, after this window's change,
   marked at the closing price, exceeds the threshold share of the collateral
   after this window's update (which already includes the window's P&L change).
   */
  lemma StepResetIff(cfg: Config, lower: Price, upper: Price, st: State, win: Window)
    requires ValidWindow(win) && UsableBounds(lower, upper)
    ensures var row := Step(cfg, lower, upper, st, win).1;
            var eth := st.ethPosition + EthChange(st.liquidity, upper, win.current, win.future);
            var collateral := UpdateCollateralValue(st.collateral, cfg.apyMultiplier, row.pnlChange,
                                                    win.currentValue, win.futureValue);
            row.resetTriggered <==> Abs(eth) * win.future.Value() > cfg.resetThreshold * collateral
  {
    StepParts(cfg, lower, upper, st, win);
    AccrueFields(cfg, lower, upper, st, win);
  }

  /**
   A reset charges slippage of 3% of the ETH exposure at the closing price,
   re-sizes the position from what is left with the undivided deployed
   percentage, and leaves the ETH position, USD balance and P&L at zero.
   */
  lemma StepResetEffects(cfg: Config, lower: Price, upper: Price, st: State, win: Window)
    requires ValidWindow(win) && UsableBounds(lower, upper)
    requires Step(cfg, lower, upper, st, win).1.resetTriggered
    ensures var (next, row) := Step(cfg, lower, upper, st, win);
            var a := Accrue(cfg, lower, upper, st, win);
            && next.collateral == a.collateral - Abs(a.ethPosition) * win.future.Value() * 0.03
            && next.liquidity == ResetLiquidity(win.future, lower, upper, next.collateral, cfg.percentDeployed)
            && next.ethPosition == 0.0 && next.usdBalance == 0.0 && next.pnl == 0.0 && row.pnl == 0.0
  {
    StepParts(cfg, lower, upper, st, win);
    SettleReset(cfg, lower, upper, st.liquidity, Accrue(cfg, lower, upper, st, win), win.future);
  }

  /** The reset branch of the settlement, for any accrued values. */
  lemma SettleReset(cfg: Config, lower: Price, upper: Price, liquidity: real, a: Accrual, future: Price)
    requires Positive(future) && UsableBounds(lower, upper)
    requires ResetDue(cfg.resetThreshold, a.ethPosition, future, a.collateral)
    ensures var next := Settle(cfg, lower, upper, liquidity, a, future);
            && next.collateral == a.collateral - Abs(a.ethPosition) * future.Value() * 0.03
            && next.liquidity == ResetLiquidity(future, lower, upper, next.collateral, cfg.percentDeployed)
            && next.ethPosition == 0.0 && next.usdBalance == 0.0 && next.pnl == 0.0
  {
  }

  /** The accrued ETH position and collateral, field by field. */
  lemma AccrueFields(cfg: Config, lower: Price, upper: Price, st: State, win: Window)
    requires ValidWindow(win) && Positive(upper)
    ensures var a := Accrue(cfg, lower, upper, st, win);
            && a.ethPosition == st.ethPosition + EthChange(st.liquidity, upper, win.current, win.future)
            && a.collateral == UpdateCollateralValue(st.collateral, cfg.apyMultiplier, a.pnlChange,
                                                     win.currentValue, win.futureValue)
  {
  }

  /** Without a reset the liquidity is kept and the window's updates carry over unchanged. */
  lemma StepNoReset(cfg: Config, lower: Price, upper: Price, st: State, win: Window)
    requires ValidWindow(win) && UsableBounds(lower, upper)
    requires !Step(cfg, lower, upper, st, win).1.resetTriggered
    ensures var (next, row) := Step(cfg, lower, upper, st, win);
            var a := Accrue(cfg, lower, upper, st, win);
            && next.liquidity == st.liquidity
            && next == State(st.liquidity, a.ethPosition, a.usdBalance, a.pnl, a.collateral)
            && row.pnl == a.pnl
  {
  }

  /**
   The window's updates: the ETH position moves by the position's ETH change,
   the USD balance by its USD change plus the fees, the P&L marks both at the
   closing price, and the collateral takes the P&L change.
   */
  lemma AccrueUpdates(cfg: Config, lower: Price, upper: Price, st: State, win: Window)
    requires ValidWindow(win) && Positive(upper)
    ensures var a := Accrue(cfg, lower, upper, st, win);
            && a.fees == EstimateFees(st.liquidity, cfg.arbThreshold, 0.001, win.path)
            && a.ethPosition - st.ethPosition == EthChange(st.liquidity, upper, win.current, win.future)
            && a.usdBalance - st.usdBalance == UsdChange(st.liquidity, lower, win.current, win.future) + a.fees
            && a.pnl == a.usdBalance + a.ethPosition * win.future.Value()
            && st.pnl + a.pnlChange == a.pnl
            && a.collateral == UpdateCollateralValue(st.collateral, cfg.apyMultiplier, 0.0,
                                                     win.currentValue, win.futureValue) + a.pnlChange
  {
    var a := Accrue(cfg, lower, upper, st, win);
    PnlMarksToMarket(st.pnl, win.future, a.ethPosition, a.usdBalance);
    PnlChangeAdds(st.pnl, win.future, a.ethPosition, a.usdBalance);
    CollateralPnlAdditive(st.collateral, cfg.apyMultiplier, a.pnlChange, win.currentValue, win.futureValue);
  }

  /** A window whose price and basket do not move, earning no interest, from a flat position. */
  predicate QuietWindow(cfg: Config, st: State, win: Window) {
    && win.future == win.current
    && (forall k :: 0 <= k < |win.path| ==> win.path[k] == win.current)
    && win.futureValue == win.currentValue
    && cfg.apyMultiplier == 1.0 && cfg.resetThreshold >= 0.0
    && st.ethPosition == 0.0 && st.usdBalance == 0.0 && st.pnl == 0.0 && st.collateral >= 0.0
  }

  /** A quiet window earns no fees, changes nothing and does not reset. */
  lemma QuietStep(cfg: Config, lower: Price, upper: Price, st: State, win: Window)
    requires ValidWindow(win) && UsableBounds(lower, upper) && QuietWindow(cfg, st, win)
    ensures var (next, row) := Step(cfg, lower, upper, st, win);
            && next == st
            && row.feesCollected == 0.0 && !row.resetTriggered && row.pnlChange == 0.0
  {
    var a := Accrue(cfg, lower, upper, st, win);
    FeesFlat(st.liquidity, cfg.arbThreshold, FEE_SIZE, win.path);
    NoMoveNoChange(st.liquidity, lower, upper, win.current, win.future);
    assert a.ethPosition == 0.0 && a.usdBalance == 0.0;
    PnlFlatPosition(st.pnl, win.future);
    CollateralUnchanged(st.collateral, win.currentValue);
    assert a.collateral == st.collateral;
    ProductNonNeg(cfg.resetThreshold, st.collateral, cfg.resetThreshold * st.collateral);
    assert Abs(a.ethPosition) * win.future.Value() == 0.0;
  }

  // ---------------------------------------------------------------------------
  // Properties of the fold
  // ---------------------------------------------------------------------------

  /** The fold emits one row per window. */
  lemma {:induction false} RowsLength(step: (State, Window) --> (State, Row), init: State, wins: seq<Window>, k: nat)
    requires Steppable(step, wins) && k <= |wins|
    ensures |RowsUpTo(step, init, wins, k)| == k
    decreases k
  {
    if k > 0 {
      RowsLength(step, init, wins, k - 1);
    }
  }

  /** Row `i` is the row of window `i`, stepped from the state after the first `i` windows. */
  lemma {:induction false} RowAt(step: (State, Window) --> (State, Row), init: State, wins: seq<Window>, k: nat, i: nat)
    requires Steppable(step, wins) && k <= |wins| && i < k
    ensures |RowsUpTo(step, init, wins, k)| == k
    ensures RowsUpTo(step, init, wins, k)[i] == step(StateAt(step, init, wins, i), wins[i]).1
    decreases k
  {
    RowsLength(step, init, wins, k);
    RowsLength(step, init, wins, k - 1);
    if i < k - 1 {
      RowAt(step, init, wins, k - 1, i);
    }
  }

  /** A state every window leaves unchanged is kept by the whole fold. */
  lemma {:induction false} FoldStays(step: (State, Window) --> (State, Row), init: State, wins: seq<Window>, k: nat)
    requires Steppable(step, wins) && k <= |wins|
    requires forall j :: 0 <= j < |wins| ==> step(init, wins[j]).0 == init
    ensures StateAt(step, init, wins, k) == init
    decreases k
  {
    if k > 0 {
      FoldStays(step, init, wins, k - 1);
    }
  }

  /** Every window of valid series is valid, so the loop body accepts each of them. */
  lemma WindowsSteppable(cfg: Config, lower: Price, upper: Price, eth: seq<Price>, coll: seq<real>)
    requires FoldInputs(cfg, lower, upper, eth, coll)
    ensures forall k :: 0 <= k < |Windows(eth, coll, cfg.windowSize)| ==>
              Windows(eth, coll, cfg.windowSize)[k] == WindowAt(eth, coll, cfg.windowSize, k)
              && ValidWindow(Windows(eth, coll, cfg.windowSize)[k])
    ensures Steppable(BacktestStep(cfg, lower, upper), Windows(eth, coll, cfg.windowSize))
  {
    var wins := Windows(eth, coll, cfg.windowSize);
    forall k | 0 <= k < |wins|
      ensures ValidWindow(wins[k])
    {
      WindowValid(eth, coll, cfg.windowSize, k);
    }
  }

  /**
   Consecutive rows chain: row `i + 1` opens with the collateral, the LP
   accumulators and the liquidity that window `i` closed with, and the
   liquidity only changes across a window that reset.
   */
  lemma RowsChain(cfg: Config, lower: Price, upper: Price, eth: seq<Price>, coll: seq<real>, i: nat)
    requires FoldInputs(cfg, lower, upper, eth, coll) && i + 1 < WindowCount(|eth|, cfg.windowSize)
    ensures var rows := BacktestRows(cfg, lower, upper, eth, coll);
            var next := BacktestState(cfg, lower, upper, eth, coll, i + 1);
            && |rows| == WindowCount(|eth|, cfg.windowSize)
            && rows[i + 1].collateralValue == next.collateral
            && rows[i + 1].ethPosition == next.ethPosition && rows[i + 1].usdBalance == next.usdBalance
            && rows[i + 1].liquidity == next.liquidity
            && (!rows[i].resetTriggered ==> rows[i + 1].liquidity == rows[i].liquidity)
  {
    var step, wins := BacktestStep(cfg, lower, upper), Windows(eth, coll, cfg.windowSize);
    WindowsSteppable(cfg, lower, upper, eth, coll);
    BacktestStepRecords(cfg, lower, upper, eth, coll);
    FoldChain(step, InitialState(cfg, lower, upper, eth), wins, |wins|, i);
  }

  /**
   Every row a step emits records the state it started from, and a step that
   does not report a reset keeps the liquidity.
   */
  ghost predicate RecordsState(step: (State, Window) --> (State, Row), wins: seq<Window>)
    requires Steppable(step, wins)
  {
    forall st, k :: 0 <= k < |wins| ==>
      var (next, row) := step(st, wins[k]);
      && row.collateralValue == st.collateral && row.liquidity == st.liquidity
      && row.ethPosition == st.ethPosition && row.usdBalance == st.usdBalance
      && (!row.resetTriggered ==> next.liquidity == st.liquidity)
  }

  /** Consecutive rows of any fold whose step records its state and keeps the liquidity unless it resets. */
  lemma FoldChain(step: (State, Window) --> (State, Row), init: State, wins: seq<Window>, k: nat, i: nat)
    requires Steppable(step, wins) && RecordsState(step, wins)
    requires k <= |wins| && i + 1 < k
    ensures var rows := RowsUpTo(step, init, wins, k);
            var next := StateAt(step, init, wins, i + 1);
            && |rows| == k
            && rows[i + 1].collateralValue == next.collateral
            && rows[i + 1].ethPosition == next.ethPosition && rows[i + 1].usdBalance == next.usdBalance
            && rows[i + 1].liquidity == next.liquidity
            && (!rows[i].resetTriggered ==> rows[i + 1].liquidity == rows[i].liquidity)
  {
    RowAt(step, init, wins, k, i);
    RowAt(step, init, wins, k, i + 1);
    var st := StateAt(step, init, wins, i);
    var next := StateAt(step, init, wins, i + 1);
    assert next == step(st, wins[i]).0;
    assert RowsUpTo(step, init, wins, k)[i] == step(st, wins[i]).1;
    assert RowsUpTo(step, init, wins, k)[i + 1] == step(next, wins[i + 1]).1;
  }

  /** The loop body records its starting state in its row, and keeps the liquidity unless it resets. */
  lemma BacktestStepRecords(cfg: Config, lower: Price, upper: Price, eth: seq<Price>, coll: seq<real>)
    requires FoldInputs(cfg, lower, upper, eth, coll)
    ensures Steppable(BacktestStep(cfg, lower, upper), Windows(eth, coll, cfg.windowSize))
    ensures RecordsState(BacktestStep(cfg, lower, upper), Windows(eth, coll, cfg.windowSize))
  {
    var step, wins := BacktestStep(cfg, lower, upper), Windows(eth, coll, cfg.windowSize);
    WindowsSteppable(cfg, lower, upper, eth, coll);
    forall st, k | 0 <= k < |wins|
      ensures var (next, row) := step(st, wins[k]);
              && row.collateralValue == st.collateral && row.liquidity == st.liquidity
              && row.ethPosition == st.ethPosition && row.usdBalance == st.usdBalance
              && (!row.resetTriggered ==> next.liquidity == st.liquidity)
    {
      BacktestStepIs(cfg, lower, upper, st, wins[k]);
      RowRecordsStateBefore(cfg, lower, upper, st, wins[k]);
      if !Step(cfg, lower, upper, st, wins[k]).1.resetTriggered {
        StepNoReset(cfg, lower, upper, st, wins[k]);
      }
    }
  }

  /** The fold's step function is the loop body. */
  lemma BacktestStepIs(cfg: Config, lower: Price, upper: Price, st: State, win: Window)
    requires ValidWindow(win) && UsableBounds(lower, upper)
    ensures BacktestStep(cfg, lower, upper).requires(st, win)
    ensures BacktestStep(cfg, lower, upper)(st, win) == Step(cfg, lower, upper, st, win)
  {
  }

  /** Window `i`'s fee path runs from its opening price to its closing price over `w + 1` points. */
  lemma WindowPathEnds(eth: seq<Price>, coll: seq<real>, w: int, i: nat)
    requires w > 0 && i < WindowCount(|eth|, w) && |eth| <= |coll|
    ensures var win := WindowAt(eth, coll, w, i);
            && |win.path| == w + 1
            && win.path[0] == win.current && win.path[w] == win.future
            && win.current == eth[win.start] && win.start + w < |eth|
  {
    WindowIndexBounds(|eth|, w, i);
  }

  /**
   With a flat price series and a flat basket earning no interest, no window
   trades, resets or moves the collateral: every row keeps the initial
   liquidity and collateral, and a flat LP position, balance and P&L.
   */
  lemma QuietFold(cfg: Config, lower: Price, upper: Price, eth: seq<Price>, coll: seq<real>)
    requires FoldInputs(cfg, lower, upper, eth, coll)
    requires forall j :: 0 <= j < |eth| ==> eth[j] == eth[0]
    requires forall j :: 0 <= j < |coll| ==> coll[j] == coll[0]
    requires cfg.apyMultiplier == 1.0 && cfg.resetThreshold >= 0.0
    ensures var rows := BacktestRows(cfg, lower, upper, eth, coll);
            forall j :: 0 <= j < |rows| ==>
              rows[j].feesCollected == 0.0 && !rows[j].resetTriggered && rows[j].pnlChange == 0.0
              && rows[j].collateralValue == INITIAL_COLLATERAL_VALUE
              && rows[j].ethPosition == 0.0 && rows[j].usdBalance == 0.0 && rows[j].pnl == 0.0
              && rows[j].liquidity == ResetLiquidity(eth[0], lower, upper, INITIAL_COLLATERAL_VALUE, cfg.percentDeployed)
  {
    var step, wins := BacktestStep(cfg, lower, upper), Windows(eth, coll, cfg.windowSize);
    WindowsSteppable(cfg, lower, upper, eth, coll);
    var init := InitialState(cfg, lower, upper, eth);
    forall j | 0 <= j < |wins|
      ensures step(init, wins[j]).0 == init
      ensures var row := step(init, wins[j]).1;
              row.feesCollected == 0.0 && !row.resetTriggered && row.pnlChange == 0.0
              && row.collateralValue == INITIAL_COLLATERAL_VALUE
              && row.ethPosition == 0.0 && row.usdBalance == 0.0 && row.pnl == 0.0
              && row.liquidity == init.liquidity
    {
      QuietWindowAt(cfg, lower, upper, eth, coll, init, j);
    }
    var rows := RowsUpTo(step, init, wins, |wins|);
    RowsLength(step, init, wins, |wins|);
    forall j | 0 <= j < |rows|
      ensures rows[j].feesCollected == 0.0 && !rows[j].resetTriggered && rows[j].pnlChange == 0.0
              && rows[j].collateralValue == INITIAL_COLLATERAL_VALUE
              && rows[j].ethPosition == 0.0 && rows[j].usdBalance == 0.0 && rows[j].pnl == 0.0
              && rows[j].liquidity == init.liquidity
    {
      RowAt(step, init, wins, |wins|, j);
      FoldStays(step, init, wins, j);
    }
  }

  /** One window of a flat series, stepped from a flat state. */
  lemma QuietWindowAt(cfg: Config, lower: Price, upper: Price, eth: seq<Price>, coll: seq<real>, st: State, j: nat)
    requires FoldInputs(cfg, lower, upper, eth, coll) && j < WindowCount(|eth|, cfg.windowSize)
    requires forall k :: 0 <= k < |eth| ==> eth[k] == eth[0]
    requires forall k :: 0 <= k < |coll| ==> coll[k] == coll[0]
    requires cfg.apyMultiplier == 1.0 && cfg.resetThreshold >= 0.0
    requires st.ethPosition == 0.0 && st.usdBalance == 0.0 && st.pnl == 0.0 && st.collateral >= 0.0
    ensures ValidWindow(WindowAt(eth, coll, cfg.windowSize, j))
    ensures var (next, row) := Step(cfg, lower, upper, st, WindowAt(eth, coll, cfg.windowSize, j));
            && next == st
            && row.feesCollected == 0.0 && !row.resetTriggered && row.pnlChange == 0.0
            && row.collateralValue == st.collateral && row.liquidity == st.liquidity
            && row.ethPosition == 0.0 && row.usdBalance == 0.0 && row.pnl == 0.0
  {
    var w := cfg.windowSize;
    WindowValid(eth, coll, w, j);
    WindowIndexBounds(|eth|, w, j);
    var win := WindowAt(eth, coll, w, j);
    assert forall k :: 0 <= k < |win.path| ==> win.path[k] == eth[j * w + k];
    QuietStep(cfg, lower, upper, st, win);
    RowRecordsStateBefore(cfg, lower, upper, st, win);
    StepParts(cfg, lower, upper, st, win);
  }

  // ---------------------------------------------------------------------------
  // The backtest
  // ---------------------------------------------------------------------------

  /** Window `i` is visited exactly when the window after it would still fit in the series. */
  lemma WindowCountIff(n: nat, w: int, i: nat)
    requires w > 0
    ensures i < WindowCount(n, w) <==> (i + 2) * w <= n
  {
    var q, r := n / w, n % w;
    assert n == q * w + r && 0 <= r < w;
    if i + 2 <= q {
      MulLeInt(i + 2, q, w);
    } else {
      MulLeInt(q + 1, i + 2, w);
      assert (q + 1) * w == q * w + w;
    }
  }

  /**
   The window just past the last one visited still has its closing price in
   the series exactly when `w` does not divide `n`: the loop then leaves a
   whole window unused.
   */
  lemma LastWindowSkipped(n: nat, w: int)
    requires w > 0 && n >= w
    ensures (WindowCount(n, w) + 1) * w < n <==> n % w != 0
  {
    var q, r := n / w, n % w;
    assert n == q * w + r && 0 <= r < w;
    if q < 1 {
      MulLeInt(q + 1, 1, w);
      assert false;
    }
    assert WindowCount(n, w) + 1 == q;
  }

  /**
   The backtest fails exactly where the source raises: a zero concentration,
   an empty price series, a zero window size, or a range percentage of 100.
   */
  lemma BacktestDefined(cfg: Config, eth: seq<Price>, coll: seq<real>)
    requires AllPositive(eth) && |eth| <= |coll| && NonZero(coll)
    requires cfg.concentration != 0.0 ==> BoundsOffPrice(cfg.percentDeployed / cfg.concentration)
    ensures Backtest(cfg, eth, coll).None? <==>
              (|| cfg.concentration == 0.0 || |eth| == 0 || cfg.windowSize == 0
               || cfg.percentDeployed / cfg.concentration == 100.0)
  {
    if cfg.concentration != 0.0 {
      RangeBoundsDefined(cfg.percentDeployed / cfg.concentration);
    }
  }

  /** The backtest emits one row per visited window, and none for a negative window size. */
  lemma BacktestRowCount(cfg: Config, eth: seq<Price>, coll: seq<real>)
    requires AllPositive(eth) && |eth| <= |coll| && NonZero(coll)
    requires cfg.concentration != 0.0 ==> BoundsOffPrice(cfg.percentDeployed / cfg.concentration)
    requires Backtest(cfg, eth, coll).Some?
    ensures |Backtest(cfg, eth, coll).value| == if cfg.windowSize > 0 then WindowCount(|eth|, cfg.windowSize) else 0
  {
    var (lower, upper) := LpRangeBounds(cfg.percentDeployed / cfg.concentration).value;
    RangeBoundsUsable(cfg.percentDeployed / cfg.concentration);
    if cfg.windowSize > 0 {
      WindowsSteppable(cfg, lower, upper, eth, coll);
      var wins := Windows(eth, coll, cfg.windowSize);
      RowsLength(BacktestStep(cfg, lower, upper), InitialState(cfg, lower, upper, eth), wins, |wins|);
    }
  }

  /** The backtest is the fold over its windows, with the bounds of the concentrated range percentage. */
  lemma BacktestIsFold(cfg: Config, eth: seq<Price>, coll: seq<real>)
    requires AllPositive(eth) && |eth| <= |coll| && NonZero(coll)
    requires cfg.concentration != 0.0 && BoundsOffPrice(cfg.percentDeployed / cfg.concentration)
    requires |eth| > 0 && cfg.windowSize > 0 && cfg.percentDeployed / cfg.concentration != 100.0
    ensures LpRangeBounds(cfg.percentDeployed / cfg.concentration).Some?
    ensures var (lower, upper) := LpRangeBounds(cfg.percentDeployed / cfg.concentration).value;
            && FoldInputs(cfg, lower, upper, eth, coll)
            && Backtest(cfg, eth, coll) == Some(BacktestRows(cfg, lower, upper, eth, coll))
  {
    RangeBoundsDefined(cfg.percentDeployed / cfg.concentration);
    RangeBoundsUsable(cfg.percentDeployed / cfg.concentration);
  }

  /**
   The first row opens at the first price with the initial collateral and a
   flat LP: its liquidity is sized with the undivided deployed percentage,
   while the bounds come from that percentage divided by the concentration.
   */
  lemma BacktestFirstRow(cfg: Config, eth: seq<Price>, coll: seq<real>)
    requires AllPositive(eth) && |eth| <= |coll| && NonZero(coll)
    requires cfg.concentration != 0.0 && BoundsOffPrice(cfg.percentDeployed / cfg.concentration)
    requires |eth| > 0 && cfg.windowSize > 0 && cfg.percentDeployed / cfg.concentration != 100.0
    requires 2 * cfg.windowSize <= |eth|
    ensures LpRangeBounds(cfg.percentDeployed / cfg.concentration).Some?
    ensures var (lower, upper) := LpRangeBounds(cfg.percentDeployed / cfg.concentration).value;
            && Backtest(cfg, eth, coll).Some? && |Backtest(cfg, eth, coll).value| > 0
            && var row := Backtest(cfg, eth, coll).value[0];
            && row.start == 0 && row.currentPrice == eth[0] && row.futurePrice == eth[cfg.windowSize]
            && row.liquidity == ResetLiquidity(eth[0], lower, upper, INITIAL_COLLATERAL_VALUE, cfg.percentDeployed)
            && row.collateralValue == INITIAL_COLLATERAL_VALUE
            && row.ethPosition == 0.0 && row.usdBalance == 0.0
  {
    BacktestIsFold(cfg, eth, coll);
    var (lower, upper) := LpRangeBounds(cfg.percentDeployed / cfg.concentration).value;
    var w := cfg.windowSize;
    WindowCountIff(|eth|, w, 0);
    WindowsSteppable(cfg, lower, upper, eth, coll);
    var step, wins, init := BacktestStep(cfg, lower, upper), Windows(eth, coll, w), InitialState(cfg, lower, upper, eth);
    RowAt(step, init, wins, |wins|, 0);
    BacktestStepIs(cfg, lower, upper, init, wins[0]);
    RowRecordsStateBefore(cfg, lower, upper, init, wins[0]);
  }

  /** The backtest as the source writes it: the early failures, then the loop over the windows. */
  method BacktestLoop(cfg: Config, eth: seq<Price>, coll: seq<real>) returns (r: Option<seq<Row>>)
    requires AllPositive(eth) && |eth| <= |coll| && NonZero(coll)
    requires cfg.concentration != 0.0 ==> BoundsOffPrice(cfg.percentDeployed / cfg.concentration)
    ensures r == Backtest(cfg, eth, coll)
  {
    if cfg.concentration == 0.0 || |eth| == 0 || cfg.windowSize == 0 {
      return None;
    }
    var bounds := LpRangeBounds(cfg.percentDeployed / cfg.concentration);
    if bounds.None? {
      return None;
    }
    var (lower, upper) := bounds.value;
    RangeBoundsUsable(cfg.percentDeployed / cfg.concentration);
    if cfg.windowSize < 0 {
      return Some([]);
    }
    var rows := RunWindows(cfg, lower, upper, eth, coll);
    return Some(rows);
  }

  /** The loop over the windows: each window is stepped from the running state and appends its row. */
  method RunWindows(cfg: Config, lower: Price, upper: Price, eth: seq<Price>, coll: seq<real>) returns (rows: seq<Row>)
    requires FoldInputs(cfg, lower, upper, eth, coll)
    ensures rows == BacktestRows(cfg, lower, upper, eth, coll)
  {
    var wins := Windows(eth, coll, cfg.windowSize);
    WindowsSteppable(cfg, lower, upper, eth, coll);
    var _, r := RunFold(BacktestStep(cfg, lower, upper), InitialState(cfg, lower, upper, eth), wins);
    rows := r;
  }

  /** The fold as a loop: a running state and a growing list of rows. */
  method RunFold(step: (State, Window) --> (State, Row), init: State, wins: seq<Window>)
    returns (last: State, rows: seq<Row>)
    requires Steppable(step, wins)
    ensures last == StateAt(step, init, wins, |wins|)
    ensures rows == RowsUpTo(step, init, wins, |wins|)
  {
    last, rows := init, [];
    for i := 0 to |wins|
      invariant last == StateAt(step, init, wins, i)
      invariant rows == RowsUpTo(step, init, wins, i)
    {
      var (next, row) := step(last, wins[i]);
      rows := rows + [row];
      last := next;
    }
  }

  // ---------------------------------------------------------------------------
  // Helpers
  // ---------------------------------------------------------------------------

  /** Both price points a window reads lie inside the series. */
  lemma WindowIndexBounds(n: nat, w: int, i: nat)
    requires w > 0 && i < WindowCount(n, w)
    ensures 0 <= i * w < (i + 1) * w < n
  {
    var q := n / w;
    assert n == q * w + n % w;
    assert i + 1 <= q - 1;
    MulLeInt(i + 1, q - 1, w);
    assert (i + 1) * w == i * w + w;
    assert (q - 1) * w == q * w - w;
  }

  /** A window read from valid series is valid. */
  lemma WindowValid(eth: seq<Price>, coll: seq<real>, w: int, i: nat)
    requires w > 0 && i < WindowCount(|eth|, w) && |eth| <= |coll|
    requires AllPositive(eth) && NonZero(coll)
    ensures ValidWindow(WindowAt(eth, coll, w, i))
  {
    WindowIndexBounds(|eth|, w, i);
    var win := WindowAt(eth, coll, w, i);
    assert forall k :: 0 <= k < |win.path| ==> win.path[k] == eth[i * w + k];
  }

  lemma MulLeInt(a: int, b: int, w: int)
    requires a <= b && w >= 0
    ensures a * w <= b * w
  {
    assert b * w - a * w == (b - a) * w;
  }
}
