/**
 Where every trade of a backtest comes from, when it ends, and what it can lose: the candle
 that opened it, the first later candle that reaches its stop, and the loss in terms of the
 account's risk share, of slippage on both fills, and of the price the exchange quoted for the
 entry instead of the acting candle's.
 */
module BacktestRisk {
  import opened Core
  import opened MockAdapter
  import opened LedgerLaws
  import opened EvidenceGate
  import opened BacktestStrategy
  import opened BacktestEngine
  import opened BacktestLaws
  import Sizer

  // ---- Where a position comes from ----

  /**
   The exchange quotes a market order at the close of the last candle of the symbol, in the
   order supplied, that the clock has reached.
   */
  ghost predicate Quoted(env: Env, clock: int, quote: real) {
    exists i :: IsCurrent(env.cfg.candles, env.symbol, clock, i) && quote == env.cfg.candles[i].close
  }

  lemma QuoteUnique(env: Env, clock: int, a: real, b: real)
    requires Quoted(env, clock, a) && Quoted(env, clock, b)
    ensures a == b
  {
    var i :| IsCurrent(env.cfg.candles, env.symbol, clock, i) && a == env.cfg.candles[i].close;
    var j :| IsCurrent(env.cfg.candles, env.symbol, clock, j) && b == env.cfg.candles[j].close;
    assert i == j;
  }

  /**
   The position was opened on the candle with that much in the account: on a 5M or 1M candle
   that passed the safety check, whose evidence gave the direction and the stop, the sizing the
   size, and the exchange's quote the slipped entry price.
   */
  ghost predicate OpenedOn(env: Env, p: PositionState, trigger: real, balance: real, candle: Candle, signal: Signal)
    requires ValidEnv(env) && candle.close > 0.0
  {
    && candle.openTime == p.openedAt
    && (candle.timeframe == M5 || candle.timeframe == M1) && signal.safetyPassed
    && CheckEvidence(candle, signal.indicators, p.direction).Some?
    && var e := CheckEvidence(candle, signal.indicators, p.direction).value;
    && e.slPrice == trigger
    && !OrderSize(env, balance, e).0.Rejected?
    && p.size == OrderSize(env, balance, e).1 >= env.info.minOrderSize
    && exists quote :: Quoted(env, p.openedAt, quote)
                       && p.entryPrice == SlippedPrice(env.cfg, quote, EntrySide(p.direction))
  }

  /** The candle trades through a stop: down to it for a long position, up to it for a short one. */
  predicate Reaches(env: Env, candle: Candle, direction: Direction, stop: real) {
    candle.symbol == env.symbol && if direction == LONG then candle.low <= stop else candle.high >= stop
  }

  /** The trade that closes the position at its stop. */
  function StoppedOut(env: Env, p: PositionState, trigger: real, closedAt: int): Trade {
    TradeOf(p, SlippedPrice(env.cfg, trigger, CloseSide(p.direction)), closedAt)
  }

  // ---- One candle ----

  /** An accepted entry is filled at the slipped quote. */
  lemma PlacedAtQuote(env: Env, st: StrategyState, l: Ledger, candle: Candle, e: Evidence, size: real)
    requires size > 0.0 && st.position.None?
    ensures var p := Placed(env, st, l, candle, e, size).0.position;
      p.Some? ==> exists quote :: Quoted(env, l.clock, quote)
                                  && p.value.entryPrice == SlippedPrice(env.cfg, quote, EntrySide(e.direction))
  {
    var order := EntryOrder(env, e, size);
    MarketFillPrice(env.cfg, l, order);
    if Created(env.cfg, l, order).1.Ok? {
      hide Created, Slipped, SlippedPrice, IsCurrent;
      var price := Created(env.cfg, l, order).1.value.filledPrice.value;
      var i :| IsCurrent(env.cfg.candles, env.symbol, l.clock, i)
               && price == SlippedPrice(env.cfg, env.cfg.candles[i].close, order.side);
      assert Quoted(env, l.clock, env.cfg.candles[i].close);
    }
  }

  lemma FlatIsAvailable(env: Env, st: StrategyState, l: Ledger)
    requires InSync(env, st, l) && st.position.None?
    ensures l.available == l.total
  {
    assert l.positions == map[];
  }

  /** After the stop check: an entry on this candle leaves a position opened on it. */
  lemma EnteringOpens(env: Env, st: StrategyState, l: Ledger, candle: Candle, signal: Signal)
    requires ValidEnv(env) && InSync(env, st, l) && candle.close > 0.0 && l.clock == candle.openTime
    ensures var (st', l', threw) := Entering(env, st, l, candle, signal);
      && InSync(env, st', l') && l'.total == l.total && st'.session == st.session
      && (st.position.Some? ==> st' == st && l' == l && !threw)
      && (threw ==> st' == st)
      && (st.position.None? && st'.position.Some? ==>
            && st.session == Some(st'.position.value.direction)
            && OpenedOn(env, st'.position.value, Pending(l'.orders)[0].triggerPrice, l'.total, candle, signal))
  {
    hide Placed, Solo, Slipped, SlippedPrice, SlopeAgrees, CalcSlPrice, TouchesLower, TouchesUpper, Quoted;
    var e := Actionable(st, candle, signal);
    if e.Some? {
      FlatIsAvailable(env, st, l);
      var (sizing, size) := OrderSize(env, l.available, e.value);
      hide OrderSize;
      if !sizing.Rejected? && size >= env.info.minOrderSize {
        EntrySize(env, l.available, e.value);
        EnteringInSync(env, st, l, candle, e.value, size);
        PlacedAtQuote(env, st, l, candle, e.value, size);
      }
    }
  }

  /** The exchange fills an entry exactly when it has a quote and the balance pays for the order. */
  lemma PlacedIff(env: Env, st: StrategyState, l: Ledger, candle: Candle, e: Evidence, size: real)
    requires size > 0.0 && st.position.None?
    ensures Placed(env, st, l, candle, e, size).0.position.Some? <==>
      exists quote :: Quoted(env, l.clock, quote)
                      && Cost(SlippedPrice(env.cfg, quote, EntrySide(e.direction)), size) <= l.available
  {
    hide SlippedPrice, Slipped, Averaged, Cost;
    CurrentCandleIs(env.cfg.candles, env.symbol, l.clock);
    hide CurrentCandle;
    var current := CurrentCandle(env.cfg.candles, env.symbol, l.clock);
    if current.Some? {
      var i :| IsCurrent(env.cfg.candles, env.symbol, l.clock, i) && current == Some(env.cfg.candles[i]);
      assert Quoted(env, l.clock, current.value.close);
      SlippedIs(env.cfg, current.value.close, EntrySide(e.direction));
      forall quote | Quoted(env, l.clock, quote)
        ensures quote == current.value.close
      {
        QuoteUnique(env, l.clock, quote, current.value.close);
      }
    }
  }

  /**
   Exactly when a candle opens a position: a 5M or 1M candle, while watching and flat, with
   evidence for the watched direction and a passed safety check, whose size is not below the
   minimum, and which the balance pays for at the slipped quote.
   */
  lemma EntersIff(env: Env, st: StrategyState, l: Ledger, candle: Candle, signal: Signal)
    requires ValidEnv(env) && InSync(env, st, l) && candle.close > 0.0 && st.position.None?
    ensures OnCandle(env, st, l, candle, signal).state.position.Some? <==>
      && (candle.timeframe == M5 || candle.timeframe == M1)
      && st.session.Some? && signal.safetyPassed
      && CheckEvidence(candle, signal.indicators, st.session.value).Some?
      && var e := CheckEvidence(candle, signal.indicators, st.session.value).value;
         var (sizing, size) := OrderSize(env, l.total, e);
      && !sizing.Rejected? && size >= env.info.minOrderSize
      && exists quote :: Quoted(env, l.clock, quote)
                         && Cost(SlippedPrice(env.cfg, quote, EntrySide(e.direction)), size) <= l.total
  {
    hide Placed, InSync, Solo, SlippedPrice, SlopeAgrees, CalcSlPrice, TouchesLower, TouchesUpper, Quoted, Cost;
    hide Sizer.CalculateSize, Sizer.GetRiskPct;
    FlatIsAvailable(env, st, l);
    var e := Actionable(SessionManaged(st, candle, signal), candle, signal);
    if e.Some? {
      EvidenceKeeps(candle, signal.indicators, st.session.value);
      var (sizing, size) := OrderSize(env, l.total, e.value);
      hide OrderSize;
      if !sizing.Rejected? && size >= env.info.minOrderSize {
        PlacedIff(env, st, l, candle, e.value, size);
      }
    }
  }

  /** A stop order is due exactly when the candle reaches it. */
  lemma StopDueIff(env: Env, p: PositionState, o: PendingOrder, candle: Candle)
    requires IsStopOf(o, p, env.symbol)
    ensures Triggered(o, candle) <==> Reaches(env, candle, p.direction, o.triggerPrice)
    ensures Slipped(env.cfg.slippagePct, o.triggerPrice, CloseSide(p.direction))
         == SlippedPrice(env.cfg, o.triggerPrice, CloseSide(p.direction))
  {
    hide Slipped, SlippedPrice;
    SlippedIs(env.cfg, o.triggerPrice, CloseSide(p.direction));
  }

  /**
   One candle: a held position is stopped out exactly when the candle reaches its stop, and
   otherwise left alone; a position not held before was opened on the candle.
   */
  lemma CandleOpens(env: Env, st: StrategyState, l: Ledger, candle: Candle, signal: Signal)
    requires ValidEnv(env) && InSync(env, st, l) && candle.close > 0.0 && l.clock == candle.openTime
    ensures var r := OnCandle(env, st, l, candle, signal);
      var stopped := st.position.Some?
                     && Reaches(env, candle, st.position.value.direction, Pending(l.orders)[0].triggerPrice);
      && InSync(env, r.state, r.ledger)
      && r.trades == (if stopped
                      then [StoppedOut(env, st.position.value, Pending(l.orders)[0].triggerPrice, candle.openTime)]
                      else [])
      && (st.position.Some? && !stopped ==> r.state == st && r.ledger.orders == l.orders && r.ledger.total == l.total
                                            && !r.threw)
      && (r.threw ==> r.state.position.None?)
      && (r.state.position.Some? && (st.position.None? || stopped) ==>
            && SessionManaged(if stopped then StrategyState(None, None) else st, candle, signal).session
               == Some(r.state.position.value.direction)
            && OpenedOn(env, r.state.position.value, Pending(r.ledger.orders)[0].triggerPrice,
                        r.ledger.total, candle, signal))
      && (st.position.None? || stopped ==>
            r.state.session
            == SessionManaged(if stopped then StrategyState(None, None) else st, candle, signal).session)
  {
    hide Entering, Checked, Solo, OpenedOn, Slipped, SlippedPrice, TradeOf, Reaches, Triggered;
    MonitoringInSync(env, st, l, candle);
    MonitoredSession(env, st, l, candle);
    hide Booked;
    var (st1, l1, trades) := Monitored(env, st, l, candle);
    var st2 := SessionManaged(st1, candle, signal);
    assert InSync(env, st2, l1);
    EnteringOpens(env, st2, l1, candle, signal);
    if st.position.Some? {
      StopDueIff(env, st.position.value, Pending(l.orders)[0], candle);
    }
  }

  /** Booking a trade also ends the session. */
  lemma MonitoredSession(env: Env, st: StrategyState, l: Ledger, candle: Candle)
    ensures var (st', _, trades) := Monitored(env, st, l, candle);
      if trades == [] then st' == st else st' == StrategyState(None, None)
  {
    if st.position.Some? {
      BookedState(st, Checked(env.cfg, l, candle).1, candle);
    }
  }

  lemma {:induction false} BookedState(st: StrategyState, fills: seq<OrderResult>, candle: Candle)
    ensures var (st', trades) := Booked(st, fills, candle);
      if trades == [] then st' == st else st' == StrategyState(None, None)
  {
    if fills != [] {
      BookedState(st, fills[1..], candle);
    }
  }

  // ---- Whole runs ----

  /** An hourly candle before the n-th started watching this direction, and no later one up to there ended it. */
  ghost predicate WatchedSince(candles: seq<Candle>, signals: seq<Signal>, direction: Direction, n: int)
    requires |signals| == |candles|
  {
    exists h :: 0 <= h < n <= |candles|
      && candles[h].timeframe == H1 && signals[h].detected == Some(direction)
      && forall k :: h < k < n && candles[k].timeframe == H1 ==> !signals[k].invalidated
  }

  /** Opened on the j-th candle, while watching its direction; no later one before the n-th reached its stop. */
  ghost predicate HeldFrom(env: Env, p: PositionState, trigger: real, balance: real, candles: seq<Candle>,
                           signals: seq<Signal>, j: int, n: int)
    requires ValidEnv(env) && PositiveCloses(candles) && |signals| == |candles|
  {
    && 0 <= j < n <= |candles|
    && OpenedOn(env, p, trigger, balance, candles[j], signals[j])
    && WatchedSince(candles, signals, p.direction, j)
    && forall k :: j < k < n ==> !Reaches(env, candles[k], p.direction, trigger)
  }

  ghost predicate Held(env: Env, p: PositionState, trigger: real, balance: real, candles: seq<Candle>,
                       signals: seq<Signal>, n: int)
    requires ValidEnv(env) && PositiveCloses(candles) && |signals| == |candles|
  {
    exists j :: HeldFrom(env, p, trigger, balance, candles, signals, j, n)
  }

  /** The trade stopped out a position that was opened on one candle, on the first later one that reached its stop. */
  ghost predicate Traded(env: Env, trade: Trade, balance: real, candles: seq<Candle>, signals: seq<Signal>)
    requires ValidEnv(env) && PositiveCloses(candles) && |signals| == |candles|
  {
    exists p, trigger, c :: 0 <= c < |candles|
      && Held(env, p, trigger, balance, candles, signals, c)
      && Reaches(env, candles[c], p.direction, trigger)
      && trade == StoppedOut(env, p, trigger, candles[c].openTime)
  }

  ghost predicate AllTraded(env: Env, trades: seq<Trade>, total: real, candles: seq<Candle>, signals: seq<Signal>)
    requires ValidEnv(env) && PositiveCloses(candles) && |signals| == |candles|
  {
    forall i :: 0 <= i < |trades| ==> Traded(env, trades[i], total + PnlSum(trades[..i]), candles, signals)
  }

  lemma AllTradedAppend(env: Env, first: seq<Trade>, later: seq<Trade>, total: real, candles: seq<Candle>,
                        signals: seq<Signal>)
    requires ValidEnv(env) && PositiveCloses(candles) && |signals| == |candles|
    requires AllTraded(env, first, total, candles, signals)
    requires AllTraded(env, later, total + PnlSum(first), candles, signals)
    ensures AllTraded(env, first + later, total, candles, signals)
  {
    hide Traded, PnlSum, AllTraded;
    forall i | 0 <= i < |first + later|
      ensures Traded(env, (first + later)[i], total + PnlSum((first + later)[..i]), candles, signals)
    {
      if i < |first| {
        TradedAt(env, first, total, candles, signals, i);
        assert (first + later)[..i] == first[..i];
      } else {
        var k := i - |first|;
        TradedAt(env, later, total + PnlSum(first), candles, signals, k);
        PnlSumAppend(first, later[..k]);
        assert (first + later)[..i] == first + later[..k];
      }
    }
    TradedEverywhere(env, first + later, total, candles, signals);
  }

  lemma TradedAt(env: Env, trades: seq<Trade>, total: real, candles: seq<Candle>, signals: seq<Signal>, i: nat)
    requires ValidEnv(env) && PositiveCloses(candles) && |signals| == |candles| && i < |trades|
    requires AllTraded(env, trades, total, candles, signals)
    ensures Traded(env, trades[i], total + PnlSum(trades[..i]), candles, signals)
  {
    hide Traded, PnlSum;
  }

  lemma TradedEverywhere(env: Env, trades: seq<Trade>, total: real, candles: seq<Candle>, signals: seq<Signal>)
    requires ValidEnv(env) && PositiveCloses(candles) && |signals| == |candles|
    requires forall i :: 0 <= i < |trades| ==>
      Traded(env, trades[i], total + PnlSum(trades[..i]), candles, signals)
    ensures AllTraded(env, trades, total, candles, signals)
  {
    hide Traded, PnlSum;
  }

  lemma AtMostOneTraded(env: Env, trades: seq<Trade>, total: real, candles: seq<Candle>, signals: seq<Signal>)
    requires ValidEnv(env) && PositiveCloses(candles) && |signals| == |candles| && |trades| <= 1
    requires trades != [] ==> Traded(env, trades[0], total, candles, signals)
    ensures AllTraded(env, trades, total, candles, signals)
  {
    hide Traded;
    assert trades[..0] == [];
  }

  /** What is known of the strategy before the n-th candle. */
  ghost predicate Traced(env: Env, st: StrategyState, l: Ledger, candles: seq<Candle>, signals: seq<Signal>, n: int)
    requires ValidEnv(env) && InSync(env, st, l) && PositiveCloses(candles) && |signals| == |candles|
  {
    match st.position
    case Some(p) => Held(env, p, Pending(l.orders)[0].triggerPrice, l.total, candles, signals, n)
    case None => st.session.Some? ==> WatchedSince(candles, signals, st.session.value, n)
  }

  lemma SessionStep(candles: seq<Candle>, signals: seq<Signal>, st: StrategyState, n: nat)
    requires |signals| == |candles| && n < |candles| && st.position.None?
    requires st.session.Some? ==> WatchedSince(candles, signals, st.session.value, n)
    ensures var session := SessionManaged(st, candles[n], signals[n]).session;
      && (session.Some? ==> WatchedSince(candles, signals, session.value, n + 1))
      && (candles[n].timeframe != H1 && session.Some? ==> WatchedSince(candles, signals, session.value, n))
  {
    var session := SessionManaged(st, candles[n], signals[n]).session;
    if session.Some? {
      if session == st.session && !(candles[n].timeframe == H1 && signals[n].invalidated) {
        var h :| 0 <= h < n <= |candles|
                 && candles[h].timeframe == H1 && signals[h].detected == session
                 && forall k :: h < k < n && candles[k].timeframe == H1 ==> !signals[k].invalidated;
        assert candles[h].timeframe == H1;
      } else {
        assert candles[n].timeframe == H1 && signals[n].detected == session;
      }
    }
  }

  lemma HeldLonger(env: Env, p: PositionState, trigger: real, balance: real, candles: seq<Candle>,
                   signals: seq<Signal>, n: nat)
    requires ValidEnv(env) && PositiveCloses(candles) && |signals| == |candles| && n < |candles|
    requires Held(env, p, trigger, balance, candles, signals, n) && !Reaches(env, candles[n], p.direction, trigger)
    ensures Held(env, p, trigger, balance, candles, signals, n + 1)
  {
    hide OpenedOn, WatchedSince, Reaches;
    var j :| HeldFrom(env, p, trigger, balance, candles, signals, j, n);
    assert HeldFrom(env, p, trigger, balance, candles, signals, j, n + 1);
  }

  lemma HeldNow(env: Env, p: PositionState, trigger: real, balance: real, candles: seq<Candle>,
                signals: seq<Signal>, n: nat)
    requires ValidEnv(env) && PositiveCloses(candles) && |signals| == |candles| && n < |candles|
    requires OpenedOn(env, p, trigger, balance, candles[n], signals[n])
    requires WatchedSince(candles, signals, p.direction, n)
    ensures Held(env, p, trigger, balance, candles, signals, n + 1)
  {
    hide OpenedOn, WatchedSince, Reaches;
    assert HeldFrom(env, p, trigger, balance, candles, signals, n, n + 1);
  }

  lemma HasStop(env: Env, st: StrategyState, l: Ledger)
    requires InSync(env, st, l)
    ensures st.position.Some? ==> |Pending(l.orders)| == 1
  {
  }

  /** One candle of the run: its trade is accounted for, and the strategy is still traced after it. */
  lemma TraceStep(env: Env, st: StrategyState, l: Ledger, candles: seq<Candle>, signals: seq<Signal>, n: nat)
    requires ValidEnv(env) && InSync(env, st, l) && PositiveCloses(candles) && |signals| == |candles|
    requires n < |candles| && l.clock == candles[n].openTime && Traced(env, st, l, candles, signals, n)
    ensures var r := OnCandle(env, st, l, candles[n], signals[n]);
      && InSync(env, r.state, r.ledger)
      && |r.trades| <= 1 && (r.trades != [] ==> Traded(env, r.trades[0], l.total, candles, signals))
      && (r.threw ==> r.state.position.None?)
      && Traced(env, r.state, r.ledger, candles, signals, n + 1)
  {
    hide OnCandle, InSync, OpenedOn, StoppedOut, WatchedSince, Held, Reaches;
    CandleOpens(env, st, l, candles[n], signals[n]);
    var r := OnCandle(env, st, l, candles[n], signals[n]);
    HasStop(env, st, l);
    HasStop(env, r.state, r.ledger);
    var stopped := st.position.Some?
                   && Reaches(env, candles[n], st.position.value.direction, Pending(l.orders)[0].triggerPrice);
    if st.position.Some? && !stopped {
      HeldLonger(env, st.position.value, Pending(l.orders)[0].triggerPrice, l.total, candles, signals, n);
    } else {
      SessionStep(candles, signals, if stopped then StrategyState(None, None) else st, n);
      if r.state.position.Some? {
        OffTheHour(env, r.state.position.value, Pending(r.ledger.orders)[0].triggerPrice, r.ledger.total,
                   candles[n], signals[n]);
        HeldNow(env, r.state.position.value, Pending(r.ledger.orders)[0].triggerPrice, r.ledger.total,
                candles, signals, n);
      }
    }
  }

  lemma OffTheHour(env: Env, p: PositionState, trigger: real, balance: real, candle: Candle, signal: Signal)
    requires ValidEnv(env) && candle.close > 0.0 && OpenedOn(env, p, trigger, balance, candle, signal)
    ensures candle.timeframe != H1
  {
  }

  /**
   From the n-th candle on: every trade stopped out a position opened on some candle of the
   whole history, and what is held at the end of a completed run was never reached.
   */
  lemma {:induction false} RunTrades(env: Env, st: StrategyState, l: Ledger, candles: seq<Candle>,
                                     signals: seq<Signal>, n: nat)
    requires ValidEnv(env) && InSync(env, st, l) && PositiveCloses(candles) && |signals| == |candles|
    requires n <= |candles| && Traced(env, st, l, candles, signals, n)
    ensures PositiveCloses(candles[n..])
    ensures var r := RunOver(env, st, l, candles[n..], signals[n..]);
      && AllTraded(env, r.trades, l.total, candles, signals)
      && InSync(env, r.state, r.ledger)
      && (r.state.position.Some? ==> Held(env, r.state.position.value, Pending(r.ledger.orders)[0].triggerPrice,
                                          r.ledger.total, candles, signals, |candles|))
    decreases |candles| - n
  {
    hide OnCandle, InSync, Traded, AllTraded, Held, WatchedSince;
    if n == |candles| {
      AtMostOneTraded(env, [], l.total, candles, signals);
    } else {
      assert candles[n..][1..] == candles[n + 1..] && signals[n..][1..] == signals[n + 1..];
      var l0 := l.(clock := candles[n].openTime);
      ClockInSync(env, st, l, candles[n].openTime);
      TraceStep(env, st, l0, candles, signals, n);
      CandleInSync(env, st, l0, candles[n], signals[n]);
      var first := Tick(env, st, l, candles[n], signals[n]);
      AtMostOneTraded(env, first.trades, l.total, candles, signals);
      if !first.threw {
        RunTrades(env, first.state, first.ledger, candles, signals, n + 1);
        var later := RunOver(env, first.state, first.ledger, candles[n + 1..], signals[n + 1..]).trades;
        AllTradedAppend(env, first.trades, later, l.total, candles, signals);
      }
    }
  }

  /** A position that no candle reaches stays open, and nothing else happens. */
  lemma {:induction false} UnreachedStaysOpen(env: Env, st: StrategyState, l: Ledger, candles: seq<Candle>,
                                              signals: seq<Signal>)
    requires ValidEnv(env) && InSync(env, st, l) && PositiveCloses(candles) && |signals| == |candles|
    requires st.position.Some?
    requires forall k :: 0 <= k < |candles| ==>
      !Reaches(env, candles[k], st.position.value.direction, Pending(l.orders)[0].triggerPrice)
    ensures var r := RunOver(env, st, l, candles, signals);
      r.state == st && r.trades == [] && !r.threw && r.ledger.total == l.total
    decreases |candles|
  {
    hide OnCandle, InSync, Reaches, OpenedOn;
    if candles != [] {
      var l0 := l.(clock := candles[0].openTime);
      ClockInSync(env, st, l, candles[0].openTime);
      CandleOpens(env, st, l0, candles[0], signals[0]);
      var first := Tick(env, st, l, candles[0], signals[0]);
      assert !Reaches(env, candles[0], st.position.value.direction, Pending(l.orders)[0].triggerPrice);
      UnreachedStaysOpen(env, first.state, first.ledger, candles[1..], signals[1..]);
    }
  }

  // ---- What a trade can lose ----

  /** Cost of slipping by the configured percentage at both prices. */
  function SlippageCost(env: Env, quote: real, stop: real, size: real): real {
    Cost((quote + stop) * (env.cfg.slippagePct / 100.0), size)
  }

  /**
   The gain of a stopped-out position: that of the acting candle's close to the stop, less what
   the exchange's quote was worse than that close, less the slippage on both fills.
   */
  lemma StoppedOutGain(env: Env, p: PositionState, trigger: real, close: real, quote: real, closedAt: int)
    requires p.entryPrice == SlippedPrice(env.cfg, quote, EntrySide(p.direction))
    ensures StoppedOut(env, p, trigger, closedAt).pnl
         == Pnl(p.direction, close, trigger, p.size) - Pnl(p.direction, close, quote, p.size)
            - SlippageCost(env, quote, trigger, p.size)
  {
    var s, exit := env.cfg.slippagePct / 100.0, SlippedPrice(env.cfg, trigger, CloseSide(p.direction));
    SlippedBy(env.cfg, quote, EntrySide(p.direction));
    SlippedBy(env.cfg, trigger, CloseSide(p.direction));
    hide SlippedPrice;
    Distribute(quote, trigger, s);
    SplitCost(Unit(p.direction, p.entryPrice, exit), Unit(p.direction, close, trigger),
              Unit(p.direction, close, quote), (quote + trigger) * s, p.size);
  }

  lemma SlippedBy(cfg: Config, price: real, side: OrderSide)
    ensures SlippedPrice(cfg, price, side) == if side == BUY then price + price * (cfg.slippagePct / 100.0)
                                              else price - price * (cfg.slippagePct / 100.0)
  {
  }

  lemma Distribute(a: real, b: real, s: real)
    ensures (a + b) * s == a * s + b * s
  {
  }

  /** Gain per unit. */
  function Unit(direction: Direction, from: real, to: real): real {
    if direction == LONG then to - from else from - to
  }

  lemma SplitCost(whole: real, a: real, b: real, c: real, size: real)
    requires whole == a - b - c
    ensures Cost(whole, size) == Cost(a, size) - Cost(b, size) - Cost(c, size)
  {
  }

  /**
   The loss a trade opened with that balance may book: the risk share when the sizer gave the
   size, or else the minimum order's distance to its stop; plus a worse quote and the slippage.
   */
  ghost predicate WithinBudget(env: Env, trade: Trade, balance: real, e: Evidence, quote: real)
    requires ValidEnv(env) && e.entryPrice > 0.0
  {
    var beyond := Pnl(trade.direction, e.entryPrice, quote, trade.size)
                  + SlippageCost(env, quote, e.slPrice, trade.size);
    && (OrderSize(env, balance, e).0.Sized? ==> -trade.pnl <= balance * Sizer.GetRiskPct(balance) + beyond)
    && (!OrderSize(env, balance, e).0.Sized? ==>
          && trade.size == env.info.minOrderSize
          && -trade.pnl <= Cost(Abs(e.entryPrice - e.slPrice), trade.size) + beyond)
  }

  lemma OpenedWithinBudget(env: Env, p: PositionState, trigger: real, balance: real, candle: Candle, signal: Signal,
                           quote: real, closedAt: int)
    requires ValidEnv(env) && candle.close > 0.0 && OpenedOn(env, p, trigger, balance, candle, signal)
    requires p.entryPrice == SlippedPrice(env.cfg, quote, EntrySide(p.direction))
    ensures CheckEvidence(candle, signal.indicators, p.direction).value.entryPrice == candle.close
    ensures WithinBudget(env, StoppedOut(env, p, trigger, closedAt), balance,
                         CheckEvidence(candle, signal.indicators, p.direction).value, quote)
  {
    hide Sizer.CalculateSize, Sizer.GetRiskPct, SlippedPrice, CalcSlPrice, SlopeAgrees, TouchesLower, TouchesUpper;
    hide SlippageCost, Quoted;
    var e := CheckEvidence(candle, signal.indicators, p.direction).value;
    EvidenceKeeps(candle, signal.indicators, p.direction);
    StoppedOutGain(env, p, trigger, candle.close, quote, closedAt);
    AtMostAbs(p.direction, candle.close, trigger, p.size);
    if OrderSize(env, balance, e).0.Sized? {
      EntryWithinRisk(env, balance, e);
    }
  }

  lemma EvidenceKeeps(candle: Candle, indicators: Indicators, direction: Direction)
    ensures CheckEvidence(candle, indicators, direction).Some? ==>
      CheckEvidence(candle, indicators, direction).value.entryPrice == candle.close
  {
  }

  lemma AtMostAbs(direction: Direction, entry: real, exit: real, size: real)
    requires size >= 0.0
    ensures -Pnl(direction, entry, exit, size) <= Cost(Abs(entry - exit), size)
  {
    var gain := if direction == LONG then exit - entry else entry - exit;
    assert (Abs(entry - exit) + gain) * size >= 0.0;
  }

  /**
   The j-th candle's evidence accounts for the trade's entry, stop and size, the c-th is the
   first one after it that reaches the stop, and the loss is within the budget.
   */
  ghost predicate Accounted(env: Env, trade: Trade, balance: real, candles: seq<Candle>, signals: seq<Signal>,
                            j: int, c: int, quote: real)
    requires ValidEnv(env) && PositiveCloses(candles) && |signals| == |candles|
  {
    && 0 <= j < c < |candles|
    && candles[j].openTime == trade.openedAt && candles[c].openTime == trade.closedAt
    && (candles[j].timeframe == M5 || candles[j].timeframe == M1) && signals[j].safetyPassed
    && WatchedSince(candles, signals, trade.direction, j)
    && CheckEvidence(candles[j], signals[j].indicators, trade.direction).Some?
    && var e := CheckEvidence(candles[j], signals[j].indicators, trade.direction).value;
    && e.entryPrice == candles[j].close
    && trade.size == OrderSize(env, balance, e).1
    && Quoted(env, trade.openedAt, quote)
    && trade.entryPrice == SlippedPrice(env.cfg, quote, EntrySide(trade.direction))
    && trade.exitPrice == SlippedPrice(env.cfg, e.slPrice, CloseSide(trade.direction))
    && (forall k :: j < k < c ==> !Reaches(env, candles[k], trade.direction, e.slPrice))
    && Reaches(env, candles[c], trade.direction, e.slPrice)
    && WithinBudget(env, trade, balance, e, quote)
  }

  ghost predicate AccountedFor(env: Env, trade: Trade, balance: real, candles: seq<Candle>, signals: seq<Signal>)
    requires ValidEnv(env) && PositiveCloses(candles) && |signals| == |candles|
  {
    exists j, c, quote :: Accounted(env, trade, balance, candles, signals, j, c, quote)
  }

  /**
   In every run from a flat start, each booked trade was opened on one of the candles with the
   balance the earlier trades had left, closed on the first later candle whose low (long) or
   high (short) reached its stop, and lost at most its budget on that balance.
   */
  lemma TradesWithinBudget(env: Env, l: Ledger, candles: seq<Candle>, signals: seq<Signal>, i: nat)
    requires ValidEnv(env) && InSync(env, StrategyState(None, None), l)
    requires PositiveCloses(candles) && |signals| == |candles|
    requires i < |RunOver(env, StrategyState(None, None), l, candles, signals).trades|
    ensures var trades := RunOver(env, StrategyState(None, None), l, candles, signals).trades;
      AccountedFor(env, trades[i], l.total + PnlSum(trades[..i]), candles, signals)
  {
    hide OpenedOn, InSync, OnCandle, StoppedOut, Accounted, WatchedSince;
    assert candles[0..] == candles && signals[0..] == signals;
    RunTrades(env, StrategyState(None, None), l, candles, signals, 0);
    var trades := RunOver(env, StrategyState(None, None), l, candles, signals).trades;
    var balance := l.total + PnlSum(trades[..i]);
    assert Traded(env, trades[i], balance, candles, signals);
    var p, trigger, c :| 0 <= c < |candles|
      && Held(env, p, trigger, balance, candles, signals, c)
      && Reaches(env, candles[c], p.direction, trigger)
      && trades[i] == StoppedOut(env, p, trigger, candles[c].openTime);
    var j :| HeldFrom(env, p, trigger, balance, candles, signals, j, c);
    var quote := HeldAccounted(env, p, trigger, balance, candles, signals, j, c);
  }

  lemma HeldAccounted(env: Env, p: PositionState, trigger: real, balance: real, candles: seq<Candle>,
                      signals: seq<Signal>, j: int, c: int) returns (quote: real)
    requires ValidEnv(env) && PositiveCloses(candles) && |signals| == |candles| && 0 <= c < |candles|
    requires HeldFrom(env, p, trigger, balance, candles, signals, j, c)
    requires Reaches(env, candles[c], p.direction, trigger)
    ensures Accounted(env, StoppedOut(env, p, trigger, candles[c].openTime), balance, candles, signals, j, c, quote)
  {
    hide WithinBudget, OrderSize, SlippedPrice, CalcSlPrice, SlopeAgrees, TouchesLower, TouchesUpper, Quoted, Reaches;
    hide WatchedSince;
    quote :| Quoted(env, p.openedAt, quote) && p.entryPrice == SlippedPrice(env.cfg, quote, EntrySide(p.direction));
    OpenedWithinBudget(env, p, trigger, balance, candles[j], signals[j], quote, candles[c].openTime);
  }

  /** And a position held at the end of a completed run was opened the same way and never reached. */
  lemma OpenAtTheEnd(env: Env, l: Ledger, candles: seq<Candle>, signals: seq<Signal>)
    requires ValidEnv(env) && InSync(env, StrategyState(None, None), l)
    requires PositiveCloses(candles) && |signals| == |candles|
    ensures var r := RunOver(env, StrategyState(None, None), l, candles, signals);
      r.state.position.Some? ==>
        && |Pending(r.ledger.orders)| == 1
        && Held(env, r.state.position.value, Pending(r.ledger.orders)[0].triggerPrice, r.ledger.total,
                candles, signals, |candles|)
  {
    hide Held, OnCandle, AllTraded;
    assert candles[0..] == candles && signals[0..] == signals;
    RunTrades(env, StrategyState(None, None), l, candles, signals, 0);
  }
}
