/**
 Performance metrics over the recorded trades: one-pass accumulator loops, each proved
 against what the number is supposed to be.
 */
module Metrics {
  import opened Core
  import opened MockAdapter
  import opened BacktestStrategy
  import opened BacktestEngine
  import opened BacktestLaws

  datatype BasicMetrics = BasicMetrics(
    totalTrades: nat,
    wins: nat,
    losses: nat,
    winRate: real,
    expectancy: real,
    maxDrawdown: real,
    maxDrawdownPct: real)

  function Wins(trades: seq<Trade>): seq<Trade> {
    Filter(trades, (t: Trade) => t.result == WIN)
  }

  function Losses(trades: seq<Trade>): seq<Trade> {
    Filter(trades, (t: Trade) => t.result != WIN)
  }

  function AbsPnlSum(trades: seq<Trade>): real {
    if trades == [] then 0.0 else Abs(trades[0].pnl) + AbsPnlSum(trades[1..])
  }

  lemma {:induction false} AbsPnlSumAppend(a: seq<Trade>, b: seq<Trade>)
    ensures AbsPnlSum(a + b) == AbsPnlSum(a) + AbsPnlSum(b)
  {
    if a == [] {
      assert a + b == b;
    } else {
      AbsPnlSumAppend(a[1..], b);
      assert (a + b)[1..] == a[1..] + b;
    }
  }

  /** Equity after the first `k` trades; the curve starts at zero. */
  function Equity(trades: seq<Trade>, k: nat): real
    requires k <= |trades|
  {
    PnlSum(trades[..k])
  }

  lemma EquityStep(trades: seq<Trade>, k: nat)
    requires k < |trades|
    ensures Equity(trades, k + 1) == Equity(trades, k) + trades[k].pnl
  {
    assert trades[..k + 1] == trades[..k] + [trades[k]];
    PnlSumAppend(trades[..k], [trades[k]]);
  }

  /** What the first `k + 1` trades won and lost, from what the first `k` did. */
  lemma CountStep(trades: seq<Trade>, k: nat)
    requires k < |trades|
    ensures var (t, before, after) := (trades[k], trades[..k], trades[..k + 1]);
      && Wins(after) == Wins(before) + (if t.result == WIN then [t] else [])
      && Losses(after) == Losses(before) + (if t.result == WIN then [] else [t])
      && PnlSum(Wins(after)) == PnlSum(Wins(before)) + (if t.result == WIN then t.pnl else 0.0)
      && AbsPnlSum(Losses(after)) == AbsPnlSum(Losses(before)) + (if t.result == WIN then 0.0 else Abs(t.pnl))
  {
    var t := trades[k];
    assert trades[..k + 1] == trades[..k] + [t];
    FilterAppend(trades[..k], [t], (t: Trade) => t.result == WIN);
    FilterAppend(trades[..k], [t], (t: Trade) => t.result != WIN);
    if t.result == WIN {
      PnlSumAppend(Wins(trades[..k]), [t]);
      assert Losses(trades[..k]) + [] == Losses(trades[..k]);
    } else {
      AbsPnlSumAppend(Losses(trades[..k]), [t]);
      assert Wins(trades[..k]) + [] == Wins(trades[..k]);
    }
  }

  /** The equity at `i` is the highest up to `j`. */
  ghost predicate IsPeak(trades: seq<Trade>, i: nat, j: nat) {
    i <= j <= |trades| && forall k :: 0 <= k <= j ==> Equity(trades, k) <= Equity(trades, i)
  }

  /** No fall within the first `n` points is deeper than this one. */
  ghost predicate NoDeeper(trades: seq<Trade>, n: nat, drawdown: real)
    requires n <= |trades|
  {
    forall i: nat, j: nat :: i <= j <= n ==> drawdown <= Equity(trades, j) - Equity(trades, i)
  }

  /** Every fall that ends before `n` is less deep. */
  ghost predicate AllShallower(trades: seq<Trade>, n: nat, drawdown: real)
    requires n <= |trades|
  {
    forall i: nat, j: nat :: i <= j < n ==> drawdown < Equity(trades, j) - Equity(trades, i)
  }

  /** The fall to `j` from the peak at `i`, deeper than all that ended before. */
  ghost predicate FallsTo(trades: seq<Trade>, i: nat, j: nat, drawdown: real, peak: real) {
    && IsPeak(trades, i, j) && peak == Equity(trades, i) && drawdown == Equity(trades, j) - Equity(trades, i)
    && AllShallower(trades, j, drawdown)
  }

  /**
   The drawdown is the deepest fall of the curve over the first `n` points; the percentage is
   taken over the peak of the first fall that deep.
   */
  ghost predicate IsDrawdown(trades: seq<Trade>, n: nat, drawdown: real, peak: real)
    requires n <= |trades|
  {
    NoDeeper(trades, n, drawdown) && exists i: nat, j: nat :: j <= n && FallsTo(trades, i, j, drawdown, peak)
  }

  /** The mean of `n` numbers that add up to `sum`. */
  ghost predicate IsMean(mean: real, n: nat, sum: real) {
    mean * n as real == sum
  }

  /** A fall as a share of its peak; none when the curve never rose above its start. */
  function OverPeak(drawdown: real, peak: real): real {
    if peak == 0.0 then 0.0 else drawdown / peak
  }

  /** The number is the fall's share of the peak; zero where the peak is. */
  ghost predicate IsShare(share: real, drawdown: real, peak: real) {
    share * peak == (if peak == 0.0 then 0.0 else drawdown) && (peak == 0.0 ==> share == 0.0)
  }

  lemma OverPeakIsShare(drawdown: real, peak: real)
    ensures IsShare(OverPeak(drawdown, peak), drawdown, peak)
  {
    if peak != 0.0 {
      assert drawdown / peak * peak == drawdown;
    }
  }

  /**
   Win and loss counts, the expectancy that all four of its cases come to, and the drawdown
   of the equity curve.
   */
  method CalcBasicMetrics(trades: seq<Trade>) returns (m: BasicMetrics)
    ensures m.totalTrades == |trades| && m.wins == |Wins(trades)| && m.losses == |Losses(trades)|
    ensures IsMean(m.winRate, |trades|, |Wins(trades)| as real)
    ensures IsMean(m.expectancy, |trades|, PnlSum(Wins(trades)) - AbsPnlSum(Losses(trades)))
    ensures exists peak :: IsDrawdown(trades, |trades|, m.maxDrawdown, peak)
                           && IsShare(m.maxDrawdownPct, m.maxDrawdown, peak)
    ensures trades == [] ==> m == BasicMetrics(0, 0, 0, 0.0, 0.0, 0.0, 0.0)
  {
    if trades == [] {
      m := BasicMetrics(0, 0, 0, 0.0, 0.0, 0.0, 0.0);
      StartOfCurve(trades);
      return;
    }
    hide IsMean, IsDrawdown, Wins, Losses, OverPeak, IsShare;
    var winCount, lossCount, winPnlSum, lossPnlAbsSum := CountTrades(trades);
    assert winCount == 0 ==> Wins(trades) == [];
    assert lossCount == 0 ==> Losses(trades) == [];
    var winRate, expectancy := CalcRates(|trades|, winCount, lossCount, winPnlSum, lossPnlAbsSum);
    var maxDrawdown, peak := Drawdown(trades);
    OverPeakIsShare(maxDrawdown, peak);
    m := BasicMetrics(|trades|, winCount, lossCount, winRate, expectancy, maxDrawdown,
                      OverPeak(maxDrawdown, peak));
  }

  /** An average times the share of trades it averages over, times all trades, is the sum. */
  lemma ShareOf(sum: real, count: real, n: real)
    requires count != 0.0 && n != 0.0
    ensures sum / count * (count / n) * n == sum
  {
    assert count / n * n == count;
    assert sum / count * count == sum;
    assert sum / count * (count / n) * n == sum / count * (count / n * n);
  }

  method CalcRates(total: nat, winCount: nat, lossCount: nat, winPnlSum: real, lossPnlAbsSum: real)
    returns (winRate: real, expectancy: real)
    requires total == winCount + lossCount > 0
    requires winCount == 0 ==> winPnlSum == 0.0
    requires lossCount == 0 ==> lossPnlAbsSum == 0.0
    ensures IsMean(winRate, total, winCount as real) && IsMean(expectancy, total, winPnlSum - lossPnlAbsSum)
  {
    var n := total as real;
    winRate := winCount as real / n;
    var lossRate := lossCount as real / n;
    if winCount == 0 && lossCount == 0 {
      expectancy := 0.0;
    } else if winCount == 0 {
      var avgLoss := lossPnlAbsSum / lossCount as real;
      ShareOf(lossPnlAbsSum, lossCount as real, n);
      expectancy := -(avgLoss * lossRate);
    } else if lossCount == 0 {
      var avgWin := winPnlSum / winCount as real;
      ShareOf(winPnlSum, winCount as real, n);
      expectancy := avgWin * winRate;
    } else {
      var avgWin, avgLoss := winPnlSum / winCount as real, lossPnlAbsSum / lossCount as real;
      ShareOf(winPnlSum, winCount as real, n);
      ShareOf(lossPnlAbsSum, lossCount as real, n);
      expectancy := avgWin * winRate - avgLoss * lossRate;
      assert expectancy * n == avgWin * winRate * n - avgLoss * lossRate * n;
    }
  }

  method CountTrades(trades: seq<Trade>)
    returns (winCount: nat, lossCount: nat, winPnlSum: real, lossPnlAbsSum: real)
    ensures winCount == |Wins(trades)| && lossCount == |Losses(trades)| && winCount + lossCount == |trades|
    ensures winPnlSum == PnlSum(Wins(trades)) && lossPnlAbsSum == AbsPnlSum(Losses(trades))
  {
    winCount, lossCount, winPnlSum, lossPnlAbsSum := 0, 0, 0.0, 0.0;
    var i := 0;
    while i < |trades|
      invariant i <= |trades|
      invariant winCount == |Wins(trades[..i])| && lossCount == |Losses(trades[..i])| && winCount + lossCount == i
      invariant winPnlSum == PnlSum(Wins(trades[..i])) && lossPnlAbsSum == AbsPnlSum(Losses(trades[..i]))
    {
      CountStep(trades, i);
      if trades[i].result == WIN {
        winCount, winPnlSum := winCount + 1, winPnlSum + trades[i].pnl;
      } else {
        lossCount, lossPnlAbsSum := lossCount + 1, lossPnlAbsSum + Abs(trades[i].pnl);
      }
      i := i + 1;
    }
    assert trades[..i] == trades;
  }

  lemma PeakStep(trades: seq<Trade>, n: nat, top: nat)
    requires n < |trades| && IsPeak(trades, top, n)
    ensures IsPeak(trades, if Equity(trades, n + 1) > Equity(trades, top) then n + 1 else top, n + 1)
  {
    hide Equity;
  }

  lemma StartOfCurve(trades: seq<Trade>)
    ensures Equity(trades, 0) == 0.0 && IsPeak(trades, 0, 0) && IsDrawdown(trades, 0, 0.0, 0.0)
  {
    assert FallsTo(trades, 0, 0, 0.0, 0.0);
  }

  method Drawdown(trades: seq<Trade>) returns (maxDrawdown: real, maxDrawdownPeak: real)
    ensures IsDrawdown(trades, |trades|, maxDrawdown, maxDrawdownPeak)
  {
    hide Equity, IsPeak, IsDrawdown;
    var equity, peak := 0.0, 0.0;
    maxDrawdown, maxDrawdownPeak := 0.0, 0.0;
    ghost var top: nat := 0;
    StartOfCurve(trades);
    var n := 0;
    while n < |trades|
      invariant n <= |trades|
      invariant equity == Equity(trades, n)
      invariant top <= n && peak == Equity(trades, top) && IsPeak(trades, top, n)
      invariant IsDrawdown(trades, n, maxDrawdown, maxDrawdownPeak)
    {
      EquityStep(trades, n);
      PeakStep(trades, n, top);
      equity := equity + trades[n].pnl;
      if equity > peak {
        peak := equity;
        top := n + 1;
      }
      var drawdown := equity - peak;
      DrawdownStep(trades, n, top, maxDrawdown, maxDrawdownPeak);
      if drawdown < maxDrawdown {
        maxDrawdown, maxDrawdownPeak := drawdown, peak;
      }
      n := n + 1;
    }
  }

  /** One more point: the deepest fall is the old one or the one from the current peak. */
  lemma DrawdownStep(trades: seq<Trade>, n: nat, top: nat, drawdown: real, peak: real)
    requires n < |trades| && IsDrawdown(trades, n, drawdown, peak) && IsPeak(trades, top, n + 1)
    ensures var fall := Equity(trades, n + 1) - Equity(trades, top);
            if fall < drawdown then IsDrawdown(trades, n + 1, fall, Equity(trades, top))
            else IsDrawdown(trades, n + 1, drawdown, peak)
  {
    hide Equity, NoDeeper, FallsTo;
    var fall := Equity(trades, n + 1) - Equity(trades, top);
    DepthStep(trades, n, top, drawdown);
    if fall < drawdown {
      DeepestNow(trades, n, top, drawdown);
      assert FallsTo(trades, top, n + 1, fall, Equity(trades, top));
    }
  }

  lemma DepthStep(trades: seq<Trade>, n: nat, top: nat, drawdown: real)
    requires n < |trades| && NoDeeper(trades, n, drawdown) && IsPeak(trades, top, n + 1)
    ensures NoDeeper(trades, n + 1, Min(drawdown, Equity(trades, n + 1) - Equity(trades, top)))
  {
    hide Equity;
    forall i: nat, j: nat | i <= j <= n + 1
      ensures Min(drawdown, Equity(trades, n + 1) - Equity(trades, top)) <= Equity(trades, j) - Equity(trades, i)
    {
      if j == n + 1 {
        assert Equity(trades, i) <= Equity(trades, top);
      }
    }
  }

  lemma DeepestNow(trades: seq<Trade>, n: nat, top: nat, drawdown: real)
    requires n < |trades| && NoDeeper(trades, n, drawdown) && IsPeak(trades, top, n + 1)
    requires Equity(trades, n + 1) - Equity(trades, top) < drawdown
    ensures FallsTo(trades, top, n + 1, Equity(trades, n + 1) - Equity(trades, top), Equity(trades, top))
  {
    hide Equity;
  }

  /** Drawdown and peak are determined: no list of trades has two. */
  lemma DrawdownUnique(trades: seq<Trade>, n: nat, a: real, peakA: real, b: real, peakB: real)
    requires n <= |trades| && IsDrawdown(trades, n, a, peakA) && IsDrawdown(trades, n, b, peakB)
    ensures a == b && peakA == peakB
  {
    hide Equity;
    var i: nat, j: nat :| j <= n && FallsTo(trades, i, j, a, peakA);
    var k: nat, l: nat :| l <= n && FallsTo(trades, k, l, b, peakB);
    assert a <= Equity(trades, l) - Equity(trades, k) && b <= Equity(trades, j) - Equity(trades, i);
    assert j <= l && l <= j;
  }

  // ---- Streaks ----

  /** Every result from `i` up to `j` is a win, or none is. */
  ghost predicate IsRun(results: seq<TradeResult>, i: nat, j: nat, winning: bool) {
    i <= j <= |results| && forall k :: i <= k < j ==> (results[k] == WIN) == winning
  }

  /** The length of the longest run among the first `n` results. */
  ghost predicate IsLongestRun(results: seq<TradeResult>, n: nat, winning: bool, length: nat) {
    && (forall i: nat, j: nat :: j <= n && IsRun(results, i, j, winning) ==> j - i <= length)
    && (exists i: nat, j: nat :: j <= n && j - i == length && IsRun(results, i, j, winning))
  }

  /** The run that ends at `n` and cannot be extended to the left. */
  ghost predicate IsCurrentRun(results: seq<TradeResult>, n: nat, winning: bool, length: nat) {
    && length <= n <= |results|
    && IsRun(results, n - length, n, winning)
    && (forall i: nat, j: nat :: j == n && IsRun(results, i, j, winning) ==> n - i <= length)
  }

  lemma RunStep(results: seq<TradeResult>, n: nat, winning: bool, current: nat, longest: nat)
    requires n < |results|
    requires IsCurrentRun(results, n, winning, current) && IsLongestRun(results, n, winning, longest)
    ensures var current' := if (results[n] == WIN) == winning then current + 1 else 0;
            var longest' := if current' > longest then current' else longest;
            && IsCurrentRun(results, n + 1, winning, current')
            && IsLongestRun(results, n + 1, winning, longest')
  {
    var current' := if (results[n] == WIN) == winning then current + 1 else 0;
    var longest' := if current' > longest then current' else longest;
    forall i: nat, j: nat | j == n + 1 && IsRun(results, i, j, winning)
      ensures n + 1 - i <= current'
    {
      if i <= n {
        assert IsRun(results, i, n, winning);
        assert (results[n] == WIN) == winning;
      }
    }
    assert IsRun(results, n + 1 - current', n + 1, winning);
    forall i: nat, j: nat | j <= n + 1 && IsRun(results, i, j, winning)
      ensures j - i <= longest'
    {
    }
  }

  /** The streak loop of the advanced metrics: longest winning and longest losing streak. */
  method Streaks(results: seq<TradeResult>) returns (maxWins: nat, maxLosses: nat)
    ensures IsLongestRun(results, |results|, true, maxWins)
    ensures IsLongestRun(results, |results|, false, maxLosses)
  {
    maxWins, maxLosses := 0, 0;
    var currentWins, currentLosses := 0, 0;
    assert IsRun(results, 0, 0, true) && IsRun(results, 0, 0, false);
    var n := 0;
    while n < |results|
      invariant n <= |results|
      invariant IsCurrentRun(results, n, true, currentWins) && IsLongestRun(results, n, true, maxWins)
      invariant IsCurrentRun(results, n, false, currentLosses) && IsLongestRun(results, n, false, maxLosses)
    {
      RunStep(results, n, true, currentWins, maxWins);
      RunStep(results, n, false, currentLosses, maxLosses);
      if results[n] == WIN {
        currentWins := currentWins + 1;
        currentLosses := 0;
        if currentWins > maxWins {
          maxWins := currentWins;
        }
      } else {
        currentLosses := currentLosses + 1;
        currentWins := 0;
        if currentLosses > maxLosses {
          maxLosses := currentLosses;
        }
      }
      n := n + 1;
    }
  }

  /** The statistics route's own loop computes the same losing streak. */
  method CalcMaxConsecutiveLosses(results: seq<TradeResult>) returns (maxStreak: nat)
    ensures IsLongestRun(results, |results|, false, maxStreak)
  {
    maxStreak := 0;
    var currentStreak := 0;
    assert IsRun(results, 0, 0, false);
    var n := 0;
    while n < |results|
      invariant n <= |results|
      invariant IsCurrentRun(results, n, false, currentStreak) && IsLongestRun(results, n, false, maxStreak)
    {
      RunStep(results, n, false, currentStreak, maxStreak);
      if results[n] == LOSS || results[n] == TIME_EXIT {
        currentStreak := currentStreak + 1;
        if currentStreak > maxStreak {
          maxStreak := currentStreak;
        }
      } else {
        currentStreak := 0;
      }
      n := n + 1;
    }
  }

  /** There is one longest run length, so the two loops agree on every list of results. */
  lemma LongestRunUnique(results: seq<TradeResult>, winning: bool, a: nat, b: nat)
    requires IsLongestRun(results, |results|, winning, a) && IsLongestRun(results, |results|, winning, b)
    ensures a == b
  {
    var i: nat, j: nat :| j <= |results| && j - i == a && IsRun(results, i, j, winning);
    var k: nat, l: nat :| l <= |results| && l - k == b && IsRun(results, k, l, winning);
  }

  // ---- Metrics of a backtest ----

  ghost predicate Labelled(trades: seq<Trade>) {
    forall i :: 0 <= i < |trades| ==> (trades[i].result == WIN <==> trades[i].pnl >= 0.0)
  }

  /** The strategy labels a trade by the sign of its gain, so wins less losses is the whole gain. */
  lemma {:induction false} SignedTrades(trades: seq<Trade>)
    requires Labelled(trades)
    ensures PnlSum(Wins(trades)) - AbsPnlSum(Losses(trades)) == PnlSum(trades)
  {
    if trades != [] {
      SignedTrades(trades[1..]);
    }
  }

  lemma {:induction false} BookedLabels(st: StrategyState, fills: seq<OrderResult>, candle: Candle)
    ensures Labelled(Booked(st, fills, candle).1)
  {
    if fills != [] {
      BookedLabels(st, fills[1..], candle);
    }
  }

  lemma {:induction false} RunLabels(env: Env, st: StrategyState, l: Ledger, candles: seq<Candle>, signals: seq<Signal>)
    requires ValidEnv(env) && PositiveCloses(candles) && |signals| == |candles|
    ensures Labelled(RunOver(env, st, l, candles, signals).trades)
    decreases |candles|
  {
    if candles != [] {
      hide Entering, SessionManaged, Checked;
      var l0 := l.(clock := candles[0].openTime);
      BookedLabels(st, Checked(env.cfg, l0, candles[0]).1, candles[0]);
      var first := Tick(env, st, l, candles[0], signals[0]);
      if !first.threw {
        RunLabels(env, first.state, first.ledger, candles[1..], signals[1..]);
      }
    }
  }

  /**
   The expectancy reported for a backtest is the account's change per trade: times the
   number of trades it is exactly what the total balance moved.
   */
  lemma ExpectancyIsAccountChange(env: Env, initialBalance: real, loaded: seq<Candle>, signals: seq<Signal>,
                                  expectancy: real)
    requires ValidEnv(env) && PositiveCloses(loaded) && |signals| == |loaded|
    requires PositiveCloses(Sort(loaded)) && |Sort(loaded)| == |loaded|
    requires var trades :=
               RunOver(env, StrategyState(None, None), InitialLedger(initialBalance), Sort(loaded), signals).trades;
             IsMean(expectancy, |trades|, PnlSum(Wins(trades)) - AbsPnlSum(Losses(trades)))
    ensures var r := RunOver(env, StrategyState(None, None), InitialLedger(initialBalance), Sort(loaded), signals);
            IsMean(expectancy, |r.trades|, r.ledger.total - initialBalance)
  {
    hide IsMean, RunOver;
    BacktestBalances(env, initialBalance, loaded, signals);
    RunLabels(env, StrategyState(None, None), InitialLedger(initialBalance), Sort(loaded), signals);
    var r := RunOver(env, StrategyState(None, None), InitialLedger(initialBalance), Sort(loaded), signals);
    SignedTrades(r.trades);
    assert PnlSum(Wins(r.trades)) - AbsPnlSum(Losses(r.trades)) == r.ledger.total - initialBalance;
  }
}
