/**
 Fee estimation from arbitrage volume.

 `ArbitragePrices` walks a price path and keeps a checkpoint price; a price
 that moves more than `threshold` percent away from the checkpoint is emitted
 and becomes the new checkpoint. In concentrated mode a price that does not
 move far enough re-emits the checkpoint instead of being dropped.
 `EstimateFees` charges `feeSize` on the USD a position of the given liquidity
 trades while the price travels between consecutive (non-concentrated)
 checkpoints.
 */
module Fees {
  import opened Arith
  import opened Prices
  import opened UniV3

  /** The price `p` is more than `threshold` percent away from the checkpoint `prev`. */
  predicate Moves(prev: Price, p: Price, threshold: real)
    requires Positive(prev)
  {
    PositiveIff(prev);
    Abs(p.Value() - prev.Value()) / prev.Value() * 100.0 > threshold
  }

  /** The checkpoints emitted for the prices `rest` after the checkpoint `prev`. */
  function Walk(rest: seq<Price>, prev: Price, threshold: real, concentrated: bool): (out: seq<Price>)
    requires Positive(prev) && AllPositive(rest)
    ensures |out| <= |rest|
    ensures concentrated ==> |out| == |rest|
    ensures AllPositive(out)
    decreases |rest|
  {
    if |rest| == 0 then
      []
    else if Moves(prev, rest[0], threshold) then
      [rest[0]] + Walk(rest[1..], rest[0], threshold, concentrated)
    else if concentrated then
      [prev] + Walk(rest[1..], prev, threshold, concentrated)
    else
      Walk(rest[1..], prev, threshold, concentrated)
  }

  /** The arbitrage checkpoints of a price path; the first price is always the first checkpoint. */
  function ArbitragePrices(prices: seq<Price>, threshold: real, concentrated: bool): (arb: seq<Price>)
    requires |prices| > 0 && AllPositive(prices)
    ensures |arb| >= 1 && arb[0] == prices[0]
    ensures |arb| <= |prices|
    ensures concentrated ==> |arb| == |prices|
    ensures AllPositive(arb)
  {
    [prices[0]] + Walk(prices[1..], prices[0], threshold, concentrated)
  }

  /** The sum of `f` over the consecutive pairs of `arb`. */
  function SumPairs(f: (Price, Price) -> real, arb: seq<Price>): real
    decreases |arb|
  {
    if |arb| < 2 then 0.0 else f(arb[0], arb[1]) + SumPairs(f, arb[1..])
  }

  /** USD traded by a position of `liquidity` while the price moves between `a` and `b`, either way. */
  function MoveUsd(liquidity: real, a: Price, b: Price): real {
    UsdInRange(liquidity, MinPrice(a, b), MaxPrice(a, b))
  }

  /** USD traded by a position of `liquidity` as the price visits the checkpoints `arb` in turn. */
  function Volume(liquidity: real, arb: seq<Price>): real {
    SumPairs((a, b) => MoveUsd(liquidity, a, b), arb)
  }

  /** Fees collected on the arbitrage volume of a price path. */
  function EstimateFees(liquidity: real, threshold: real, feeSize: real, prices: seq<Price>): real
    requires |prices| > 0 && AllPositive(prices)
  {
    Volume(liquidity, ArbitragePrices(prices, threshold, false)) * feeSize
  }

  /** `a` occurs in `b` in order, possibly with gaps. */
  predicate IsSubsequence(a: seq<Price>, b: seq<Price>)
    decreases |b|
  {
    if |a| == 0 then true
    else if |b| == 0 then false
    else (a[0] == b[0] && IsSubsequence(a[1..], b[1..])) || IsSubsequence(a, b[1..])
  }

  // ---------------------------------------------------------------------------
  // The source's loops
  // ---------------------------------------------------------------------------

  /** The checkpoint loop as written, with a running checkpoint and an output list. */
  method ArbitragePricesLoop(prices: seq<Price>, threshold: real, concentrated: bool) returns (arb: seq<Price>)
    requires |prices| > 0 && AllPositive(prices)
    ensures arb == ArbitragePrices(prices, threshold, concentrated)
  {
    arb := [prices[0]];
    var prev := prices[0];
    var i := 1;
    while i < |prices|
      invariant 1 <= i <= |prices|
      invariant Positive(prev)
      invariant arb + Walk(prices[i..], prev, threshold, concentrated) == ArbitragePrices(prices, threshold, concentrated)
    {
      var p := prices[i];
      assert prices[i..] == [p] + prices[i + 1..];
      if Moves(prev, p, threshold) {
        arb := arb + [p];
        prev := p;
      } else if concentrated {
        arb := arb + [prev];
      }
      i := i + 1;
    }
    assert prices[i..] == [];
  }

  /** The fee loop as written: sum the volume of each consecutive pair, then charge the fee. */
  method EstimateFeesLoop(liquidity: real, threshold: real, feeSize: real, prices: seq<Price>) returns (fees: real)
    requires |prices| > 0 && AllPositive(prices)
    ensures fees == EstimateFees(liquidity, threshold, feeSize, prices)
  {
    var arb := ArbitragePricesLoop(prices, threshold, false);
    var usdTraded := 0.0;
    var i := 0;
    while i < |arb| - 1
      invariant 0 <= i <= |arb| - 1
      invariant usdTraded + Volume(liquidity, arb[i..]) == Volume(liquidity, arb)
    {
      var minPrice := MinPrice(arb[i], arb[i + 1]);
      var maxPrice := MaxPrice(arb[i], arb[i + 1]);
      assert arb[i..][1..] == arb[i + 1..];
      assert Volume(liquidity, arb[i..]) == MoveUsd(liquidity, arb[i], arb[i + 1]) + Volume(liquidity, arb[i + 1..]);
      usdTraded := usdTraded + UsdInRange(liquidity, minPrice, maxPrice);
      i := i + 1;
    }
    fees := usdTraded * feeSize;
  }

  // ---------------------------------------------------------------------------
  // Checkpoint properties
  // ---------------------------------------------------------------------------

  lemma {:induction false} WalkSubsequence(rest: seq<Price>, prev: Price, threshold: real)
    requires Positive(prev) && AllPositive(rest)
    ensures IsSubsequence(Walk(rest, prev, threshold, false), rest)
    decreases |rest|
  {
    if |rest| > 0 {
      var out := Walk(rest, prev, threshold, false);
      if Moves(prev, rest[0], threshold) {
        WalkSubsequence(rest[1..], rest[0], threshold);
        assert out[0] == rest[0] && out[1..] == Walk(rest[1..], rest[0], threshold, false);
      } else {
        WalkSubsequence(rest[1..], prev, threshold);
      }
    }
  }

  /** Without concentration the checkpoints are drawn, in order, from the price path. */
  lemma ArbitrageSubsequence(prices: seq<Price>, threshold: real)
    requires |prices| > 0 && AllPositive(prices)
    ensures IsSubsequence(ArbitragePrices(prices, threshold, false), prices)
  {
    var arb := ArbitragePrices(prices, threshold, false);
    WalkSubsequence(prices[1..], prices[0], threshold);
    assert arb[1..] == Walk(prices[1..], prices[0], threshold, false);
    assert prices == [prices[0]] + prices[1..];
  }

  lemma {:induction false} WalkMoves(rest: seq<Price>, prev: Price, threshold: real)
    requires Positive(prev) && AllPositive(rest)
    ensures var out := Walk(rest, prev, threshold, false);
            && (|out| > 0 ==> Moves(prev, out[0], threshold))
            && forall k :: 0 <= k < |out| - 1 ==> Moves(out[k], out[k + 1], threshold)
    decreases |rest|
  {
    if |rest| > 0 {
      if Moves(prev, rest[0], threshold) {
        WalkMoves(rest[1..], rest[0], threshold);
      } else {
        WalkMoves(rest[1..], prev, threshold);
      }
    }
  }

  /** Without concentration every checkpoint moved more than the threshold away from the one before. */
  lemma ArbitrageMoves(prices: seq<Price>, threshold: real)
    requires |prices| > 0 && AllPositive(prices)
    ensures var arb := ArbitragePrices(prices, threshold, false);
            forall k :: 0 <= k < |arb| - 1 ==> Moves(arb[k], arb[k + 1], threshold)
  {
    WalkMoves(prices[1..], prices[0], threshold);
  }

  /** No checkpoint follows `prev` exactly when no later price moves away from it. */
  lemma {:induction false} WalkQuiet(rest: seq<Price>, prev: Price, threshold: real)
    requires Positive(prev) && AllPositive(rest)
    ensures Walk(rest, prev, threshold, false) == []
        <==> forall k :: 0 <= k < |rest| ==> !Moves(prev, rest[k], threshold)
    decreases |rest|
  {
    if |rest| > 0 && !Moves(prev, rest[0], threshold) {
      WalkQuiet(rest[1..], prev, threshold);
      assert forall k :: 1 <= k < |rest| ==> rest[k] == rest[1..][k - 1];
    }
  }

  /**
   The next checkpoint is the first later price that moves past the threshold
   from the current one; the walk then continues from it. With `WalkQuiet` this
   determines the non-concentrated checkpoints completely.
   */
  lemma {:induction false} WalkFirstMove(rest: seq<Price>, prev: Price, threshold: real, k: nat)
    requires Positive(prev) && AllPositive(rest)
    requires k < |rest| && Moves(prev, rest[k], threshold)
    requires forall j :: 0 <= j < k ==> !Moves(prev, rest[j], threshold)
    ensures Walk(rest, prev, threshold, false) == [rest[k]] + Walk(rest[k + 1..], rest[k], threshold, false)
    decreases k
  {
    if k > 0 {
      assert forall j :: 0 <= j < k - 1 ==> rest[1..][j] == rest[j + 1];
      WalkFirstMove(rest[1..], prev, threshold, k - 1);
      assert rest[1..][k..] == rest[k + 1..];
    }
  }

  lemma {:induction false} WalkConcentratedHolds(rest: seq<Price>, prev: Price, threshold: real)
    requires Positive(prev) && AllPositive(rest)
    ensures var out := Walk(rest, prev, threshold, true);
            && (|out| > 0 ==> out[0] == (if Moves(prev, rest[0], threshold) then rest[0] else prev))
            && forall k :: 1 <= k < |out| ==>
                 out[k] == (if Moves(out[k - 1], rest[k], threshold) then rest[k] else out[k - 1])
    decreases |rest|
  {
    if |rest| > 0 {
      var next := if Moves(prev, rest[0], threshold) then rest[0] else prev;
      WalkConcentratedHolds(rest[1..], next, threshold);
      var out := Walk(rest, prev, threshold, true);
      assert out[1..] == Walk(rest[1..], next, threshold, true);
      forall k | 1 <= k < |out|
        ensures out[k] == (if Moves(out[k - 1], rest[k], threshold) then rest[k] else out[k - 1])
      {
        assert out[k] == out[1..][k - 1] && rest[k] == rest[1..][k - 1];
        if k > 1 {
          assert out[k - 1] == out[1..][k - 2];
        }
      }
    }
  }

  /**
   In concentrated mode every step emits one entry: the step's price when it
   moves past the threshold from the entry before, and a repeat of that entry
   otherwise.
   */
  lemma ConcentratedHolds(prices: seq<Price>, threshold: real)
    requires |prices| > 0 && AllPositive(prices)
    ensures var arb := ArbitragePrices(prices, threshold, true);
            forall k :: 1 <= k < |arb| ==>
              arb[k] == (if Moves(arb[k - 1], prices[k], threshold) then prices[k] else arb[k - 1])
  {
    var arb := ArbitragePrices(prices, threshold, true);
    var out := Walk(prices[1..], prices[0], threshold, true);
    WalkConcentratedHolds(prices[1..], prices[0], threshold);
    assert arb[1..] == out;
    forall k | 1 <= k < |arb|
      ensures arb[k] == (if Moves(arb[k - 1], prices[k], threshold) then prices[k] else arb[k - 1])
    {
      assert arb[k] == out[k - 1] && prices[k] == prices[1..][k - 1];
      if k > 1 {
        assert arb[k - 1] == out[k - 2];
      }
    }
  }

  lemma NothingMovesUnderNegativeThreshold(prev: Price, p: Price, threshold: real)
    requires Positive(prev) && threshold < 0.0
    ensures Moves(prev, p, threshold)
  {
    PositiveIff(prev);
    var v := prev.Value();
    QuotientNonNeg(Abs(p.Value() - v), 1.0, v, Abs(p.Value() - v) * 1.0 / v);
  }

  lemma {:induction false} WalkKeepsAll(rest: seq<Price>, prev: Price, threshold: real, concentrated: bool)
    requires Positive(prev) && AllPositive(rest) && threshold < 0.0
    ensures Walk(rest, prev, threshold, concentrated) == rest
    decreases |rest|
  {
    if |rest| > 0 {
      NothingMovesUnderNegativeThreshold(prev, rest[0], threshold);
      WalkKeepsAll(rest[1..], rest[0], threshold, concentrated);
    }
  }

  /** A negative threshold lets every price through: the checkpoints are the path itself, in both modes. */
  lemma ArbitrageKeepsAll(prices: seq<Price>, threshold: real, concentrated: bool)
    requires |prices| > 0 && AllPositive(prices) && threshold < 0.0
    ensures ArbitragePrices(prices, threshold, concentrated) == prices
  {
    WalkKeepsAll(prices[1..], prices[0], threshold, concentrated);
  }

  lemma {:induction false} WalkConstant(rest: seq<Price>, prev: Price, threshold: real, concentrated: bool)
    requires Positive(prev) && AllPositive(rest)
    requires forall k :: 0 <= k < |rest| ==> rest[k] == prev
    ensures forall k :: 0 <= k < |Walk(rest, prev, threshold, concentrated)| ==> Walk(rest, prev, threshold, concentrated)[k] == prev
    decreases |rest|
  {
    if |rest| > 0 {
      WalkConstant(rest[1..], prev, threshold, concentrated);
    }
  }

  // ---------------------------------------------------------------------------
  // Volume and fee properties
  // ---------------------------------------------------------------------------

  /** Sums of pairwise terms that are everywhere `k` times each other are `k` times each other. */
  lemma {:induction false} SumPairsScale(f: (Price, Price) -> real, g: (Price, Price) -> real, k: real, arb: seq<Price>)
    requires forall a, b :: f(a, b) == k * g(a, b)
    ensures SumPairs(f, arb) == k * SumPairs(g, arb)
    decreases |arb|
  {
    if |arb| >= 2 {
      SumPairsScale(f, g, k, arb[1..]);
      Distribute(k, g(arb[0], arb[1]), SumPairs(g, arb[1..]), f(arb[0], arb[1]), SumPairs(f, arb[1..]),
                 SumPairs(g, arb), SumPairs(f, arb));
    } else {
      MulZero(k, SumPairs(g, arb), k * SumPairs(g, arb));
    }
  }

  /** A sum of non-negative pairwise terms is non-negative. */
  lemma {:induction false} SumPairsNonNeg(f: (Price, Price) -> real, arb: seq<Price>)
    requires forall a, b :: f(a, b) >= 0.0
    ensures SumPairs(f, arb) >= 0.0
    decreases |arb|
  {
    if |arb| >= 2 {
      SumPairsNonNeg(f, arb[1..]);
    }
  }

  /** A sum whose every pair contributes nothing is zero. */
  lemma {:induction false} SumPairsZero(f: (Price, Price) -> real, arb: seq<Price>)
    requires forall k :: 0 <= k < |arb| - 1 ==> f(arb[k], arb[k + 1]) == 0.0
    ensures SumPairs(f, arb) == 0.0
    decreases |arb|
  {
    if |arb| >= 2 {
      forall k | 0 <= k < |arb| - 2
        ensures f(arb[1..][k], arb[1..][k + 1]) == 0.0
      {
        assert arb[1..][k] == arb[k + 1] && arb[1..][k + 1] == arb[k + 2];
      }
      SumPairsZero(f, arb[1..]);
    }
  }

  /** The distance between two prices in root price. */
  function Span(a: Price, b: Price): real {
    Abs(Sqrt(a) - Sqrt(b))
  }

  /** The total distance a path travels in root price: the reference definition of `Volume`. */
  function Travel(arb: seq<Price>): real {
    SumPairs(Span, arb)
  }

  /** The volume of one move is the liquidity times the distance travelled in root price, whichever way. */
  lemma MoveVolume(liquidity: real, a: Price, b: Price)
    ensures MoveUsd(liquidity, a, b) == liquidity * Span(a, b)
  {
  }

  /** The volume of a path is its liquidity times the distance it travels in root price. */
  lemma VolumeIsTravel(liquidity: real, arb: seq<Price>)
    ensures Volume(liquidity, arb) == liquidity * Travel(arb)
  {
    forall a, b
      ensures MoveUsd(liquidity, a, b) == liquidity * Span(a, b)
    {
      MoveVolume(liquidity, a, b);
    }
    SumPairsScale((a, b) => MoveUsd(liquidity, a, b), Span, liquidity, arb);
  }

  /** Volume is proportional to liquidity. */
  lemma VolumeLinear(liquidity: real, arb: seq<Price>)
    ensures Volume(liquidity, arb) == liquidity * Volume(1.0, arb)
  {
    VolumeIsTravel(liquidity, arb);
    VolumeIsTravel(1.0, arb);
  }

  /** A non-negative liquidity trades a non-negative volume. */
  lemma VolumeNonNeg(liquidity: real, arb: seq<Price>)
    requires liquidity >= 0.0
    ensures Volume(liquidity, arb) >= 0.0
  {
    forall a, b
      ensures MoveUsd(liquidity, a, b) >= 0.0
    {
      MoveVolume(liquidity, a, b);
      ProductNonNeg(liquidity, Span(a, b), liquidity * Span(a, b));
    }
    SumPairsNonNeg((a, b) => MoveUsd(liquidity, a, b), arb);
  }

  /** A path whose checkpoints never change trades nothing. */
  lemma VolumeConstant(liquidity: real, arb: seq<Price>)
    requires forall k :: 0 <= k < |arb| ==> arb[k] == arb[0]
    ensures Volume(liquidity, arb) == 0.0
  {
    forall k | 0 <= k < |arb| - 1
      ensures MoveUsd(liquidity, arb[k], arb[k + 1]) == 0.0
    {
      MoveVolume(liquidity, arb[k], arb[k + 1]);
      MulZero(liquidity, Span(arb[k], arb[k + 1]), liquidity * Span(arb[k], arb[k + 1]));
    }
    SumPairsZero((a, b) => MoveUsd(liquidity, a, b), arb);
  }

  /** A path travels at least as far as the net distance between its ends. */
  lemma {:induction false} TravelCoversNetMove(arb: seq<Price>)
    requires |arb| >= 1
    ensures Travel(arb) >= Span(arb[0], arb[|arb| - 1])
    decreases |arb|
  {
    if |arb| >= 2 {
      TravelCoversNetMove(arb[1..]);
    }
  }

  /** The volume traded along a path is at least the liquidity times its net move in root price. */
  lemma VolumeCoversNetMove(liquidity: real, arb: seq<Price>)
    requires liquidity >= 0.0 && |arb| >= 1
    ensures Volume(liquidity, arb) >= liquidity * Span(arb[0], arb[|arb| - 1])
  {
    VolumeIsTravel(liquidity, arb);
    TravelCoversNetMove(arb);
    var net := Span(arb[0], arb[|arb| - 1]);
    MulMonotone(liquidity, net, Travel(arb), liquidity * net, liquidity * Travel(arb));
  }

  /** A single price has no moves and earns no fees. */
  lemma FeesSinglePrice(liquidity: real, threshold: real, feeSize: real, prices: seq<Price>)
    requires |prices| == 1 && AllPositive(prices)
    ensures EstimateFees(liquidity, threshold, feeSize, prices) == 0.0
  {
  }

  /** A constant price path earns no fees, whatever the threshold. */
  lemma FeesFlat(liquidity: real, threshold: real, feeSize: real, prices: seq<Price>)
    requires |prices| > 0 && AllPositive(prices)
    requires forall k :: 0 <= k < |prices| ==> prices[k] == prices[0]
    ensures EstimateFees(liquidity, threshold, feeSize, prices) == 0.0
  {
    var arb := ArbitragePrices(prices, threshold, false);
    WalkConstant(prices[1..], prices[0], threshold, false);
    assert forall k :: 1 <= k < |arb| ==> arb[k] == Walk(prices[1..], prices[0], threshold, false)[k - 1];
    VolumeConstant(liquidity, arb);
  }

  /** Fees are non-negative for non-negative liquidity and fee size. */
  lemma FeesNonNeg(liquidity: real, threshold: real, feeSize: real, prices: seq<Price>)
    requires |prices| > 0 && AllPositive(prices) && liquidity >= 0.0 && feeSize >= 0.0
    ensures EstimateFees(liquidity, threshold, feeSize, prices) >= 0.0
  {
    var volume := Volume(liquidity, ArbitragePrices(prices, threshold, false));
    VolumeNonNeg(liquidity, ArbitragePrices(prices, threshold, false));
    ProductNonNeg(volume, feeSize, volume * feeSize);
  }

  /** Fees are proportional to the liquidity and to the fee size. */
  lemma FeesLinear(liquidity: real, threshold: real, feeSize: real, prices: seq<Price>)
    requires |prices| > 0 && AllPositive(prices)
    ensures EstimateFees(liquidity, threshold, feeSize, prices)
         == liquidity * feeSize * EstimateFees(1.0, threshold, 1.0, prices)
  {
    var arb := ArbitragePrices(prices, threshold, false);
    VolumeLinear(liquidity, arb);
    ScaleTwice(liquidity, feeSize, Volume(1.0, arb), Volume(liquidity, arb),
               EstimateFees(liquidity, threshold, feeSize, prices), EstimateFees(1.0, threshold, 1.0, prices));
  }

  /** For a fixed path and a non-negative fee, more liquidity collects at least as much. */
  lemma FeesMonotoneInLiquidity(l1: real, l2: real, threshold: real, feeSize: real, prices: seq<Price>)
    requires |prices| > 0 && AllPositive(prices) && l1 <= l2 && feeSize >= 0.0
    ensures EstimateFees(l1, threshold, feeSize, prices) <= EstimateFees(l2, threshold, feeSize, prices)
  {
    var unit := EstimateFees(1.0, threshold, 1.0, prices);
    FeesLinear(l1, threshold, feeSize, prices);
    FeesLinear(l2, threshold, feeSize, prices);
    FeesNonNeg(1.0, threshold, 1.0, prices);
    LinearMonotone(l1, l2, feeSize, unit,
                   EstimateFees(l1, threshold, feeSize, prices), EstimateFees(l2, threshold, feeSize, prices));
  }
}
