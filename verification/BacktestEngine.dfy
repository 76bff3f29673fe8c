/**
 The backtest runner: sorts the loaded candles, then for each candle advances the
 adapter's clock and calls the strategy.
 */
module BacktestEngine {
  import opened Core
  import opened MockAdapter
  import opened BacktestStrategy
  import GapDetection

  function Priority(tf: Timeframe): nat {
    match tf
    case D1 => 0
    case H1 => 1
    case M5 => 2
    case M1 => 3
  }

  /** Processing order: by open time, and the coarser timeframe first on a tie. */
  predicate Before(a: Candle, b: Candle) {
    a.openTime < b.openTime || (a.openTime == b.openTime && Priority(a.timeframe) < Priority(b.timeframe))
  }

  predicate SameSlot(a: Candle, b: Candle) {
    a.openTime == b.openTime && a.timeframe == b.timeframe
  }

  /** Inserts in front of everything that does not come strictly before `c`. */
  function Insert(c: Candle, sorted: seq<Candle>): seq<Candle> {
    if sorted != [] && Before(sorted[0], c) then [sorted[0]] + Insert(c, sorted[1..])
    else [c] + sorted
  }

  function Sort(candles: seq<Candle>): seq<Candle> {
    if candles == [] then [] else Insert(candles[0], Sort(candles[1..]))
  }

  ghost predicate InProcessingOrder(s: seq<Candle>) {
    forall i, j :: 0 <= i < j < |s| ==> !Before(s[j], s[i])
  }

  function InSlot(slot: Candle): Candle -> bool {
    (c: Candle) => SameSlot(c, slot)
  }

  lemma {:induction false} InsertKeepsAll(c: Candle, sorted: seq<Candle>)
    ensures multiset(Insert(c, sorted)) == multiset{c} + multiset(sorted)
  {
    if sorted != [] && Before(sorted[0], c) {
      InsertKeepsAll(c, sorted[1..]);
      assert sorted == [sorted[0]] + sorted[1..];
    }
  }

  lemma FirstIsEarliest(sorted: seq<Candle>)
    requires InProcessingOrder(sorted) && sorted != []
    ensures forall x :: x in sorted[1..] ==> !Before(x, sorted[0])
  {
  }

  lemma {:induction false} InsertOrders(c: Candle, sorted: seq<Candle>)
    requires InProcessingOrder(sorted)
    ensures InProcessingOrder(Insert(c, sorted))
  {
    if sorted != [] && Before(sorted[0], c) {
      var rest := Insert(c, sorted[1..]);
      InsertOrders(c, sorted[1..]);
      InsertKeepsAll(c, sorted[1..]);
      FirstIsEarliest(sorted);
      hide Before;
      forall j | 0 <= j < |rest|
        ensures !Before(rest[j], sorted[0])
      {
        assert rest[j] in multiset(rest);
        if rest[j] != c {
          assert rest[j] in sorted[1..];
        }
      }
    }
  }

  lemma {:induction false} InsertStable(c: Candle, sorted: seq<Candle>, slot: Candle)
    ensures Filter(Insert(c, sorted), InSlot(slot)) == Filter([c] + sorted, InSlot(slot))
  {
    assert ([c] + sorted)[1..] == sorted;
    if sorted != [] && Before(sorted[0], c) {
      InsertStable(c, sorted[1..], slot);
      assert ([c] + sorted[1..])[1..] == sorted[1..];
      assert !(SameSlot(c, slot) && SameSlot(sorted[0], slot));
    }
  }

  /**
   The sort is the stable one: it rearranges the candles into processing order and leaves
   candles of one timeframe and open time in the order they were loaded.
   */
  lemma {:induction false} SortLaw(candles: seq<Candle>, slot: Candle)
    ensures InProcessingOrder(Sort(candles))
    ensures multiset(Sort(candles)) == multiset(candles)
    ensures Filter(Sort(candles), InSlot(slot)) == Filter(candles, InSlot(slot))
  {
    if candles != [] {
      var rest := Sort(candles[1..]);
      SortLaw(candles[1..], slot);
      InsertOrders(candles[0], rest);
      InsertKeepsAll(candles[0], rest);
      InsertStable(candles[0], rest, slot);
      assert candles == [candles[0]] + candles[1..];
      assert ([candles[0]] + rest)[1..] == rest;
    }
  }

  /** Written out: earlier candles first, and at one time the candle of the longer timeframe first. */
  lemma SortedByTime(candles: seq<Candle>, i: nat, j: nat)
    requires i < j < |Sort(candles)|
    ensures var (a, b) := (Sort(candles)[i], Sort(candles)[j]);
      a.openTime < b.openTime
      || (a.openTime == b.openTime && GapDetection.Duration(a.timeframe) >= GapDetection.Duration(b.timeframe))
  {
    SortLaw(candles, Sort(candles)[i]);
    assert !Before(Sort(candles)[j], Sort(candles)[i]);
  }

  // ---- The loop ----

  ghost predicate PositiveCloses(candles: seq<Candle>) {
    forall i :: 0 <= i < |candles| ==> candles[i].close > 0.0
  }

  /** Clock, then callback. */
  function Tick(env: Env, st: StrategyState, l: Ledger, candle: Candle, signal: Signal): (r: CandleResult)
    requires ValidEnv(env) && candle.close > 0.0
  {
    var r := OnCandle(env, st, l.(clock := candle.openTime), candle, signal);
    r
  }

  /** Processes the candles in the given order; a throwing callback ends the run. */
  function RunOver(env: Env, st: StrategyState, l: Ledger, candles: seq<Candle>,
                   signals: seq<Signal>): (r: CandleResult)
    requires ValidEnv(env) && PositiveCloses(candles) && |signals| == |candles|
    decreases |candles|
  {
    if candles == [] then CandleResult(st, l, [], false)
    else
      var first := Tick(env, st, l, candles[0], signals[0]);
      if first.threw then first
      else
        var rest := RunOver(env, first.state, first.ledger, candles[1..], signals[1..]);
        rest.(trades := first.trades + rest.trades)
  }

  lemma PositiveClosesSorted(candles: seq<Candle>)
    requires PositiveCloses(candles)
    ensures PositiveCloses(Sort(candles)) && |Sort(candles)| == |candles|
  {
    var sorted := Sort(candles);
    if candles != [] {
      SortLaw(candles, candles[0]);
    }
    assert |multiset(sorted)| == |multiset(candles)|;
    forall i | 0 <= i < |sorted|
      ensures sorted[i].close > 0.0
    {
      assert sorted[i] in multiset(candles);
    }
  }

  class BacktestRunner {
    const strategy: Strategy
    var trades: seq<Trade>

    constructor (strategy: Strategy)
      ensures this.strategy == strategy && trades == []
    {
      this.strategy := strategy;
      trades := [];
    }

    /** Runs over the loaded candles; `signals[k]` belongs to the k-th candle in processing order. */
    method Run(loaded: seq<Candle>, signals: seq<Signal>, adapter: MockExchangeAdapter) returns (completed: bool)
      requires PositiveCloses(loaded) && |signals| == |loaded|
      requires ValidEnv(strategy.env) && adapter.config == strategy.env.cfg
      modifies this, strategy, adapter
      ensures PositiveCloses(Sort(loaded)) && |Sort(loaded)| == |loaded|
      ensures var r := RunOver(strategy.env, old(strategy.State()), old(adapter.Snapshot()), Sort(loaded), signals);
              && strategy.State() == r.state && adapter.Snapshot() == r.ledger
              && trades == r.trades && completed == !r.threw
    {
      hide OnCandle, Sort;
      var sorted := Sort(loaded);
      PositiveClosesSorted(loaded);
      trades := [];
      completed := true;
      ghost var goal := RunOver(strategy.env, strategy.State(), adapter.Snapshot(), sorted, signals);
      var i := 0;
      assert sorted[0..] == sorted && signals[0..] == signals;
      while i < |sorted|
        invariant i <= |sorted|
        invariant var rest := RunOver(strategy.env, strategy.State(), adapter.Snapshot(), sorted[i..], signals[i..]);
                  goal.state == rest.state && goal.ledger == rest.ledger && goal.threw == rest.threw
                  && goal.trades == trades + rest.trades
      {
        assert sorted[i..][1..] == sorted[i + 1..] && signals[i..][1..] == signals[i + 1..];
        adapter.AdvanceTime(sorted[i].openTime);
        var closed, threw := strategy.OnCandleClose(sorted[i], signals[i], adapter);
        trades := trades + closed;
        if threw {
          completed := false;
          return;
        }
        i := i + 1;
      }
      assert sorted[i..] == [] && trades + [] == trades;
    }
  }
}
