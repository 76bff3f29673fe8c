/**
 What a whole backtest run promises: the strategy's copy of the position never drifts from
 the exchange's, the account balance is the initial balance plus the booked trades, trades
 follow each other in time, and no candle the clock has not reached can change anything.
 */
module BacktestLaws {
  import opened Core
  import opened MockAdapter
  import opened LedgerLaws
  import opened EvidenceGate
  import opened BacktestStrategy
  import opened BacktestEngine
  import Sizer

  function IsPending(): PendingOrder -> bool {
    (o: PendingOrder) => o.status == PENDING
  }

  function Pending(orders: seq<PendingOrder>): seq<PendingOrder> {
    Filter(orders, IsPending())
  }

  function PositionCopy(p: PositionState): Position {
    Position(p.direction, p.size, p.entryPrice, Cost(p.entryPrice, p.size))
  }

  /** The one pending order is the position's stop: opposite side, same size, reduce-only. */
  predicate IsStopOf(o: PendingOrder, p: PositionState, symbol: string) {
    && o.orderId == p.slOrderId && o.symbol == symbol && o.status == PENDING
    && o.side == CloseSide(p.direction) && o.size == p.size && o.reduceOnly
  }

  /**
   Strategy and exchange agree: both hold the same position and exactly one order, its
   stop, is pending; or neither holds one and no order is pending.
   */
  ghost predicate InSync(env: Env, st: StrategyState, l: Ledger) {
    && Solo(l, env.symbol)
    && match st.position
       case None => l.positions == map[] && Pending(l.orders) == []
       case Some(p) =>
         && l.positions == map[env.symbol := PositionCopy(p)]
         && |Pending(l.orders)| == 1 && IsStopOf(Pending(l.orders)[0], p, env.symbol)
  }

  function PnlSum(trades: seq<Trade>): real {
    if trades == [] then 0.0 else trades[0].pnl + PnlSum(trades[1..])
  }

  lemma {:induction false} PnlSumAppend(a: seq<Trade>, b: seq<Trade>)
    ensures PnlSum(a + b) == PnlSum(a) + PnlSum(b)
  {
    if a == [] {
      assert a + b == b;
    } else {
      PnlSumAppend(a[1..], b);
      assert (a + b)[1..] == a[1..] + b;
    }
  }

  // ---- Checking the stops ----

  function MarkFilled(orders: seq<PendingOrder>, candle: Candle): seq<PendingOrder> {
    seq(|orders|, k requires 0 <= k < |orders| =>
      if Triggered(orders[k], candle) then orders[k].(status := FILLED) else orders[k])
  }

  lemma CheckedOrders(cfg: Config, l: Ledger, candle: Candle)
    ensures Checked(cfg, l, candle).0.orders == MarkFilled(l.orders, candle)
  {
    CheckOrders(cfg, l, 0, candle);
  }

  lemma ConsSingleton<T>(head: T, tail: seq<T>, x: T)
    requires [head] + tail == [x]
    ensures head == x && tail == []
  {
    assert ([head] + tail)[0] == head;
    assert |[head] + tail| == 1;
  }

  /** Of the pending orders, a check leaves those that were not triggered. */
  lemma {:induction false} PendingAfterCheck(orders: seq<PendingOrder>, candle: Candle, o: PendingOrder)
    requires Pending(orders) == [o]
    ensures Pending(MarkFilled(orders, candle)) == if Triggered(o, candle) then [] else [o]
    ensures TriggeredOrders(orders, candle) == if Triggered(o, candle) then [o] else []
  {
    var marked := MarkFilled(orders, candle);
    assert marked[1..] == MarkFilled(orders[1..], candle);
    if orders[0].status == PENDING {
      ConsSingleton(orders[0], Pending(orders[1..]), o);
      NonePending(orders[1..], candle);
    } else {
      PendingAfterCheck(orders[1..], candle, o);
    }
  }

  lemma {:induction false} NonePending(orders: seq<PendingOrder>, candle: Candle)
    requires Pending(orders) == []
    ensures Pending(MarkFilled(orders, candle)) == [] && TriggeredOrders(orders, candle) == []
  {
    if orders != [] {
      assert MarkFilled(orders, candle)[1..] == MarkFilled(orders[1..], candle);
      NonePending(orders[1..], candle);
    }
  }

  /** When one order is due, the check moves the money of that one fill. */
  lemma {:induction false} CheckOneDue(cfg: Config, l: Ledger, i: nat, candle: Candle, o: PendingOrder)
    requires i <= |l.orders| && TriggeredOrders(l.orders[i..], candle) == [o] && o.reduceOnly
    ensures var l' := CheckedFrom(cfg, l, i, candle).0;
            var fill := Slipped(cfg.slippagePct, o.triggerPrice, o.side);
            l' == Closed(l, o.symbol, fill, o.size).0.(orders := l'.orders)
    decreases |l.orders| - i
  {
    hide Cost, Closed, Slipped;
    if i < |l.orders| {
      assert l.orders[i..] == [l.orders[i]] + l.orders[i + 1..];
      if Triggered(l.orders[i], candle) {
        ConsSingleton(l.orders[i], TriggeredOrders(l.orders[i + 1..], candle), o);
        var l1 := StopFilled(cfg, l, i, candle);
        assert l1.orders[i + 1..] == l.orders[i + 1..];
        CheckNoneDue(cfg, l1, i + 1, candle);
      } else {
        CheckOneDue(cfg, l, i + 1, candle, o);
      }
    }
  }

  lemma {:induction false} CheckNoneDue(cfg: Config, l: Ledger, i: nat, candle: Candle)
    requires i <= |l.orders| && TriggeredOrders(l.orders[i..], candle) == []
    ensures CheckedFrom(cfg, l, i, candle) == (l, [])
    decreases |l.orders| - i
  {
    if i < |l.orders| {
      assert l.orders[i..] == [l.orders[i]] + l.orders[i + 1..];
      CheckNoneDue(cfg, l, i + 1, candle);
    }
  }

  // ---- One candle ----

  /** The stop check either leaves everything alone or closes both copies and books their trade. */
  lemma MonitoringInSync(env: Env, st: StrategyState, l: Ledger, candle: Candle)
    requires InSync(env, st, l)
    ensures var (st', l', trades) := Monitored(env, st, l, candle);
      && InSync(env, st', l')
      && l'.total == l.total + PnlSum(trades)
      && l'.clock == l.clock
      && (if st.position.Some? && Triggered(Pending(l.orders)[0], candle) then
            && st'.position.None?
            && trades == [TradeOf(st.position.value,
                                  Slipped(env.cfg.slippagePct, Pending(l.orders)[0].triggerPrice,
                                          CloseSide(st.position.value.direction)),
                                  candle.openTime)]
          else st' == st && l' == l && trades == [])
  {
    hide Cost, Closed, Slipped, SumLocked;
    if st.position.Some? {
      var p, o := st.position.value, Pending(l.orders)[0];
      assert Pending(l.orders) == [o];
      assert l.orders[0..] == l.orders;
      PendingAfterCheck(l.orders, candle, o);
      CheckedOrders(env.cfg, l, candle);
      if Triggered(o, candle) {
        var fillPrice := Slipped(env.cfg.slippagePct, o.triggerPrice, o.side);
        CheckFills(env.cfg, l, 0, candle);
        CheckOneDue(env.cfg, l, 0, candle, o);
        SoloClose(l, env.symbol, fillPrice, o.size);
        CloseWhole(l, env.symbol, fillPrice, o.size);
        SoloAfter(env, Checked(env.cfg, l, candle).0, Closed(l, env.symbol, fillPrice, o.size).0, l.orders, candle);
      } else {
        CheckNoneDue(env.cfg, l, 0, candle);
      }
    }
  }

  lemma CloseWhole(l: Ledger, symbol: string, fillPrice: real, size: real)
    requires symbol in l.positions && l.positions[symbol].size == size && l.positions.Keys == {symbol}
    ensures Closed(l, symbol, fillPrice, size).0.positions == map[]
    ensures Closed(l, symbol, fillPrice, size).0.clock == l.clock
  {
  }

  lemma SoloAfter(env: Env, a: Ledger, b: Ledger, orders: seq<PendingOrder>, candle: Candle)
    requires Solo(b, env.symbol) && b.orders == orders && a == b.(orders := MarkFilled(orders, candle))
    ensures Solo(a, env.symbol)
  {
  }

  lemma EntrySize(env: Env, balance: real, e: Evidence)
    requires ValidEnv(env) && e.entryPrice > 0.0
    requires OrderSize(env, balance, e).1 >= env.info.minOrderSize
    ensures OrderSize(env, balance, e).1 > 0.0 && balance > 0.0
  {
    Sizer.QuotientBoundAbove(0.0, balance, e.entryPrice);
  }

  lemma PendingNew(orders: seq<PendingOrder>, o: PendingOrder)
    requires Pending(orders) == [] && o.status == PENDING
    ensures Pending(orders + [o]) == [o]
  {
    FilterAppend(orders, [o], IsPending());
  }

  /** A filled entry opens one position on the exchange, protected by one stop at the evidence's price. */
  lemma EnteringInSync(env: Env, st: StrategyState, l: Ledger, candle: Candle, e: Evidence, size: real)
    requires InSync(env, st, l) && st.position.None? && size > 0.0
    ensures var (st', l') := Placed(env, st, l, candle, e, size);
      && InSync(env, st', l') && l'.total == l.total && l'.clock == l.clock
      && st'.session == st.session
      && (st'.position.Some? ==>
            && st'.position.value.direction == e.direction
            && st'.position.value.size == size
            && st'.position.value.openedAt == candle.openTime
            && Pending(l'.orders)[0].triggerPrice == e.slPrice)
  {
    hide Cost, Slipped, Averaged, SumLocked;
    var params := EntryOrder(env, e, size);
    var l0 := l.(orderSeq := l.orderSeq + 1);
    assert Solo(l0, env.symbol);
    var (l1, entry) := Created(env.cfg, l, params);
    SoloStep(env.cfg, l, Create(params), env.symbol);
    assert Realised(env.cfg, l, Create(params)) == 0.0;
    if entry.Ok? {
      EntryLaw(l0, env.symbol, params.side, size, entry.value.filledPrice.value);
      var stop := StopOrder(env, e, size);
      SoloStep(env.cfg, l1, Create(stop), env.symbol);
      var l2 := Created(env.cfg, l1, stop).0;
      var p := l1.positions[env.symbol];
      assert l1.positions == map[env.symbol := p];
      PendingNew(l1.orders, l2.orders[|l2.orders| - 1]);
    }
  }

  /** After every candle strategy and exchange still agree, and the total moved by the trades booked. */
  lemma CandleInSync(env: Env, st: StrategyState, l: Ledger, candle: Candle, signal: Signal)
    requires ValidEnv(env) && InSync(env, st, l) && candle.close > 0.0
    ensures var r := OnCandle(env, st, l, candle, signal);
      && InSync(env, r.state, r.ledger)
      && r.ledger.total == l.total + PnlSum(r.trades)
      && r.ledger.clock == l.clock
      && |r.trades| <= 1
  {
    hide Placed, Booked, Checked, Solo;
    MonitoringInSync(env, st, l, candle);
    var (st1, l1, trades) := Monitored(env, st, l, candle);
    var st2 := SessionManaged(st1, candle, signal);
    assert InSync(env, st2, l1);
    var e := Actionable(st2, candle, signal);
    if e.Some? {
      var size := OrderSize(env, l1.available, e.value).1;
      if size >= env.info.minOrderSize {
        EntrySize(env, l1.available, e.value);
        EnteringInSync(env, st2, l1, candle, e.value, size);
      }
    }
  }

  // ---- Whole runs ----

  /**
   For any candles, in any order, and any decisions: after the run strategy and exchange
   agree, and the total balance is the starting one plus the gains of the recorded trades.
   A prefix of the candles is such a run too, so this holds after every candle.
   */
  lemma {:induction false} RunInSync(env: Env, st: StrategyState, l: Ledger, candles: seq<Candle>, signals: seq<Signal>)
    requires ValidEnv(env) && InSync(env, st, l) && PositiveCloses(candles) && |signals| == |candles|
    ensures var r := RunOver(env, st, l, candles, signals);
      InSync(env, r.state, r.ledger) && r.ledger.total == l.total + PnlSum(r.trades)
    decreases |candles|
  {
    hide OnCandle;
    if candles != [] {
      var l0 := l.(clock := candles[0].openTime);
      CandleInSync(env, st, l0, candles[0], signals[0]);
      var first := Tick(env, st, l, candles[0], signals[0]);
      if !first.threw {
        RunInSync(env, first.state, first.ledger, candles[1..], signals[1..]);
        PnlSumAppend(first.trades, RunOver(env, first.state, first.ledger, candles[1..], signals[1..]).trades);
      }
    }
  }

  /** A fresh strategy on a fresh adapter: what the runner leaves behind. */
  lemma BacktestBalances(env: Env, initialBalance: real, loaded: seq<Candle>, signals: seq<Signal>)
    requires ValidEnv(env) && PositiveCloses(loaded) && |signals| == |loaded|
    ensures PositiveCloses(Sort(loaded)) && |Sort(loaded)| == |loaded|
    ensures var r := RunOver(env, StrategyState(None, None), InitialLedger(initialBalance), Sort(loaded), signals);
      && InSync(env, r.state, r.ledger)
      && r.ledger.total == initialBalance + PnlSum(r.trades)
      && (r.state.position.None? ==> r.ledger.available == r.ledger.total)
  {
    PositiveClosesSorted(loaded);
    RunInSync(env, StrategyState(None, None), InitialLedger(initialBalance), Sort(loaded), signals);
    var r := RunOver(env, StrategyState(None, None), InitialLedger(initialBalance), Sort(loaded), signals);
    if r.state.position.None? {
      assert r.ledger.positions == map[];
    }
  }

  // ---- Time ----

  ghost predicate NonDecreasing(candles: seq<Candle>) {
    forall i, j :: 0 <= i < j < |candles| ==> candles[i].openTime <= candles[j].openTime
  }

  /** Trades close after they open and the next opens after the previous closed, all from `start` on. */
  ghost predicate Chronological(trades: seq<Trade>, start: int) {
    && (forall i :: 0 <= i < |trades| ==> start <= trades[i].openedAt <= trades[i].closedAt
                                          && trades[i].holdDurationSec >= 0)
    && (forall i, j :: 0 <= i < j < |trades| ==> trades[i].closedAt <= trades[j].openedAt)
  }

  /** One candle's part in the timeline: a trade closes a position opened before, a position opens now. */
  lemma CandleTimes(env: Env, st: StrategyState, l: Ledger, candle: Candle, signal: Signal)
    requires ValidEnv(env) && InSync(env, st, l) && candle.close > 0.0
    ensures var r := OnCandle(env, st, l, candle, signal);
      && (r.trades != [] ==>
            && st.position.Some? && |r.trades| == 1
            && r.trades[0].openedAt == st.position.value.openedAt
            && r.trades[0].closedAt == candle.openTime
            && r.trades[0].holdDurationSec == (candle.openTime - st.position.value.openedAt) / 1000)
      && (r.state.position.Some? ==>
            r.state.position.value.openedAt == candle.openTime || (r.trades == [] && r.state.position == st.position))
  {
    hide Placed, Booked, Checked, Solo;
    MonitoringInSync(env, st, l, candle);
    var (st1, l1, trades) := Monitored(env, st, l, candle);
    var st2 := SessionManaged(st1, candle, signal);
    var e := Actionable(st2, candle, signal);
    if e.Some? {
      var size := OrderSize(env, l1.available, e.value).1;
      if size >= env.info.minOrderSize {
        EntrySize(env, l1.available, e.value);
        EnteringInSync(env, st2, l1, candle, e.value, size);
      }
    }
  }

  lemma {:induction false} RunChronology(env: Env, st: StrategyState, l: Ledger, candles: seq<Candle>,
                                         signals: seq<Signal>, start: int)
    requires ValidEnv(env) && InSync(env, st, l) && PositiveCloses(candles) && |signals| == |candles|
    requires NonDecreasing(candles)
    requires st.position.Some? ==> start <= st.position.value.openedAt
    requires candles != [] ==> start <= candles[0].openTime
    requires candles != [] && st.position.Some? ==> st.position.value.openedAt <= candles[0].openTime
    ensures Chronological(RunOver(env, st, l, candles, signals).trades, start)
    decreases |candles|
  {
    hide OnCandle, InSync, Chronological;
    if candles == [] {
      NoTradesChronological(start);
    } else {
      var now := candles[0].openTime;
      ClockInSync(env, st, l, now);
      CandleInSync(env, st, l.(clock := now), candles[0], signals[0]);
      CandleTimes(env, st, l.(clock := now), candles[0], signals[0]);
      var first := Tick(env, st, l, candles[0], signals[0]);
      var next := if first.trades == [] then start else now;
      AtMostOneChronological(first.trades, start, now);
      if !first.threw {
        RunChronology(env, first.state, first.ledger, candles[1..], signals[1..], next);
        var later := RunOver(env, first.state, first.ledger, candles[1..], signals[1..]).trades;
        ChronologicalAppend(first.trades, later, start, now);
      }
    }
  }

  lemma NoTradesChronological(start: int)
    ensures Chronological([], start)
  {
  }

  lemma AtMostOneChronological(trades: seq<Trade>, start: int, now: int)
    requires |trades| <= 1
    requires trades != [] ==>
      start <= trades[0].openedAt <= trades[0].closedAt == now && trades[0].holdDurationSec >= 0
    ensures Chronological(trades, start)
  {
  }

  /** Trades closed by now, then trades from now on. */
  lemma ChronologicalAppend(first: seq<Trade>, later: seq<Trade>, start: int, now: int)
    requires Chronological(first, start) && Chronological(later, if first == [] then start else now)
    requires forall i :: 0 <= i < |first| ==> first[i].closedAt <= now
    requires start <= now
    ensures Chronological(first + later, start)
  {
    var all := first + later;
    forall i, j | 0 <= i < j < |all|
      ensures all[i].closedAt <= all[j].openedAt
    {
      if j >= |first| {
        assert all[j] == later[j - |first|];
      }
    }
  }

  lemma ClockInSync(env: Env, st: StrategyState, l: Ledger, clock: int)
    requires InSync(env, st, l)
    ensures InSync(env, st, l.(clock := clock))
  {
  }

  /**
   Whatever the loader's order, the recorded trades are in time order, do not overlap, and
   none is held for a negative time: the runner's sort makes it so.
   */
  lemma BacktestChronology(env: Env, initialBalance: real, loaded: seq<Candle>, signals: seq<Signal>)
    requires ValidEnv(env) && PositiveCloses(loaded) && |signals| == |loaded| && loaded != []
    ensures PositiveCloses(Sort(loaded)) && |Sort(loaded)| == |loaded|
    ensures var r := RunOver(env, StrategyState(None, None), InitialLedger(initialBalance), Sort(loaded), signals);
      Chronological(r.trades, Sort(loaded)[0].openTime)
  {
    PositiveClosesSorted(loaded);
    SortLaw(loaded, loaded[0]);
    RunChronology(env, StrategyState(None, None), InitialLedger(initialBalance), Sort(loaded), signals,
                  Sort(loaded)[0].openTime);
  }

  // ---- When a run aborts ----

  /** The callback throws exactly when it acts on a flat candle with money in the account. */
  lemma CandleThrows(env: Env, st: StrategyState, l: Ledger, candle: Candle, signal: Signal)
    requires ValidEnv(env) && WellFormed(candle) && candle.close > 0.0
    ensures var (st1, l1, _) := Monitored(env, st, l, candle);
      OnCandle(env, st, l, candle, signal).threw <==>
        Actionable(SessionManaged(st1, candle, signal), candle, signal).Some?
        && l1.available > 0.0 && candle.low == candle.high
  {
    hide Monitored, SessionManaged, Placed;
    var (st1, l1, trades) := Monitored(env, st, l, candle);
    var st2 := SessionManaged(st1, candle, signal);
    var e := Actionable(st2, candle, signal);
    if e.Some? {
      ActionableSizing(env, st2, candle, signal, l1.available);
    }
  }

  lemma ActionableSizing(env: Env, st: StrategyState, candle: Candle, signal: Signal, balance: real)
    requires ValidEnv(env) && WellFormed(candle) && candle.close > 0.0
    requires Actionable(st, candle, signal).Some?
    ensures Actionable(st, candle, signal).value.entryPrice == candle.close
    ensures OrderSize(env, balance, Actionable(st, candle, signal).value).0.Rejected?
       <==> balance > 0.0 && candle.low == candle.high
  {
    var e := Actionable(st, candle, signal).value;
    StopBeyondExtreme(candle, st.session.value);
    Sizer.RiskPctAntitone(balance, balance);
    Sizer.CalculateSizeLaw(balance, e.entryPrice, e.slPrice, e.direction, env.info, Sizer.GetRiskPct(balance));
  }

  /** A run over candles that all have a range completes. */
  lemma {:induction false} RunCompletes(env: Env, st: StrategyState, l: Ledger, candles: seq<Candle>,
                                        signals: seq<Signal>)
    requires ValidEnv(env) && PositiveCloses(candles) && |signals| == |candles|
    requires forall i :: 0 <= i < |candles| ==> WellFormed(candles[i]) && candles[i].low < candles[i].high
    ensures !RunOver(env, st, l, candles, signals).threw
    decreases |candles|
  {
    hide OnCandle;
    if candles != [] {
      CandleThrows(env, st, l.(clock := candles[0].openTime), candles[0], signals[0]);
      var first := Tick(env, st, l, candles[0], signals[0]);
      RunCompletes(env, first.state, first.ledger, candles[1..], signals[1..]);
    }
  }

  /** An order sized by the sizer risks at most the account's risk share on the evidence's stop. */
  lemma EntryWithinRisk(env: Env, balance: real, e: Evidence)
    requires ValidEnv(env) && e.entryPrice > 0.0 && OrderSize(env, balance, e).0.Sized?
    ensures var (_, size) := OrderSize(env, balance, e);
      Cost(Abs(e.entryPrice - e.slPrice), size) <= balance * Sizer.GetRiskPct(balance)
  {
    hide Cost, Sizer.CalculateSize, Sizer.GetRiskPct, Sizer.Allowed;
    var (sizing, size) := OrderSize(env, balance, e);
    Sizer.CalculateSizeLaw(balance, e.entryPrice, e.slPrice, e.direction, env.info, Sizer.GetRiskPct(balance));
    CostMonotone(Abs(e.entryPrice - e.slPrice), size, sizing.result.size);
  }

  lemma CostMonotone(price: real, a: real, b: real)
    requires price >= 0.0 && a <= b
    ensures Cost(price, a) <= Cost(price, b) == b * price
  {
  }

  // ---- No look-ahead ----

  function UpTo(clock: int): Candle -> bool {
    (c: Candle) => c.openTime <= clock
  }

  /** Two histories that agree on every candle opened by the given time. */
  ghost predicate SameUntil(a: Config, b: Config, clock: int) {
    a.slippagePct == b.slippagePct && Filter(a.candles, UpTo(clock)) == Filter(b.candles, UpTo(clock))
  }

  lemma {:induction false} VisibleByThen(candles: seq<Candle>, symbol: string, now: int, clock: int)
    requires now <= clock
    ensures Filter(candles, c => Visible(c, symbol, now))
         == Filter(Filter(candles, UpTo(clock)), c => Visible(c, symbol, now))
  {
    if candles != [] {
      VisibleByThen(candles[1..], symbol, now, clock);
    }
  }

  lemma SameCurrentCandle(a: Config, b: Config, symbol: string, now: int, clock: int)
    requires SameUntil(a, b, clock) && now <= clock
    ensures CurrentCandle(a.candles, symbol, now) == CurrentCandle(b.candles, symbol, now)
  {
    VisibleByThen(a.candles, symbol, now, clock);
    VisibleByThen(b.candles, symbol, now, clock);
  }

  lemma {:induction false} SameCheck(a: Config, b: Config, l: Ledger, i: nat, candle: Candle)
    requires a.slippagePct == b.slippagePct && i <= |l.orders|
    ensures CheckedFrom(a, l, i, candle) == CheckedFrom(b, l, i, candle)
    decreases |l.orders| - i
  {
    if i < |l.orders| {
      SameCheck(a, b, if Triggered(l.orders[i], candle) then StopFilled(a, l, i, candle) else l, i + 1, candle);
    }
  }

  lemma SameCandle(env: Env, other: Config, st: StrategyState, l: Ledger, candle: Candle, signal: Signal, clock: int)
    requires ValidEnv(env) && candle.close > 0.0
    requires SameUntil(env.cfg, other, clock) && l.clock <= clock
    ensures OnCandle(env, st, l, candle, signal) == OnCandle(env.(cfg := other), st, l, candle, signal)
    ensures OnCandle(env, st, l, candle, signal).ledger.clock == l.clock
  {
    hide Cost, Closed, Averaged, Slipped, Entered, Booked;
    SameCheck(env.cfg, other, l, 0, candle);
    CheckOrders(env.cfg, l, 0, candle);
    SameCurrentCandle(env.cfg, other, env.symbol, l.clock, clock);
    var (st1, l1, trades) := Monitored(env, st, l, candle);
    var st2 := SessionManaged(st1, candle, signal);
    SameEntering(env, other, st2, l1, candle, signal, clock);
  }

  lemma SameEntering(env: Env, other: Config, st: StrategyState, l: Ledger, candle: Candle, signal: Signal, clock: int)
    requires ValidEnv(env) && candle.close > 0.0
    requires SameUntil(env.cfg, other, clock) && l.clock <= clock
    ensures Entering(env, st, l, candle, signal) == Entering(env.(cfg := other), st, l, candle, signal)
    ensures Entering(env, st, l, candle, signal).1.clock == l.clock
  {
    hide Cost, Averaged, Slipped;
    var e := Actionable(st, candle, signal);
    if e.Some? {
      var (sizing, size) := OrderSize(env, l.available, e.value);
      assert OrderSize(env.(cfg := other), l.available, e.value) == (sizing, size);
      if !sizing.Rejected? && size >= env.info.minOrderSize {
        SamePlaced(env, other, st, l, candle, e.value, size, clock);
      }
    }
  }

  lemma SamePlaced(env: Env, other: Config, st: StrategyState, l: Ledger, candle: Candle, e: Evidence,
                   size: real, clock: int)
    requires size > 0.0
    requires SameUntil(env.cfg, other, clock) && l.clock <= clock
    ensures Placed(env, st, l, candle, e, size) == Placed(env.(cfg := other), st, l, candle, e, size)
    ensures Placed(env, st, l, candle, e, size).1.clock == l.clock
  {
    hide Cost, Averaged, Slipped;
    SameCurrentCandle(env.cfg, other, env.symbol, l.clock, clock);
  }

  /**
   Changing, adding or removing candles later than every candle processed changes nothing:
   not the account, not the strategy, not the trades.
   */
  lemma {:induction false} NoLookahead(env: Env, other: Config, st: StrategyState, l: Ledger,
                                       candles: seq<Candle>, signals: seq<Signal>, clock: int)
    requires ValidEnv(env) && PositiveCloses(candles) && |signals| == |candles|
    requires SameUntil(env.cfg, other, clock)
    requires forall i :: 0 <= i < |candles| ==> candles[i].openTime <= clock
    ensures RunOver(env, st, l, candles, signals) == RunOver(env.(cfg := other), st, l, candles, signals)
    decreases |candles|
  {
    hide OnCandle;
    if candles != [] {
      SameCandle(env, other, st, l.(clock := candles[0].openTime), candles[0], signals[0], clock);
      var first := Tick(env, st, l, candles[0], signals[0]);
      if !first.threw {
        NoLookahead(env, other, first.state, first.ledger, candles[1..], signals[1..], clock);
      }
    }
  }
}
