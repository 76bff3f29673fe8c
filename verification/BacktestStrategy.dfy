/**
 The backtest strategy: a callback that runs once per candle, keeps its own copy of the
 open position, and trades through the in-memory exchange.

 Indicator values, the watching and invalidation decisions and the safety verdict are
 inputs (`Signal`); the evidence gate, the sizer and every order are modelled.
 */
module BacktestStrategy {
  import opened Core
  import opened MockAdapter
  import opened EvidenceGate
  import Sizer

  /** What the indicator-driven decisions say about one candle. */
  datatype Signal = Signal(
    invalidated: bool,
    detected: Option<Direction>,
    indicators: Indicators,
    safetyPassed: bool)

  datatype PositionState = PositionState(
    direction: Direction,
    entryPrice: real,
    size: real,
    openedAt: int,
    slOrderId: nat)

  datatype StrategyState = StrategyState(session: Option<Direction>, position: Option<PositionState>)

  datatype Trade = Trade(
    direction: Direction,
    entryPrice: real,
    exitPrice: real,
    size: real,
    pnl: real,
    pnlPct: real,
    holdDurationSec: int,
    result: TradeResult,
    openedAt: int,
    closedAt: int)

  /** The traded symbol, its exchange constraints and the adapter's configuration. */
  datatype Env = Env(symbol: string, info: Sizer.SymbolInfo, cfg: Config)

  ghost predicate ValidEnv(env: Env) {
    env.info.tickSize > 0.0 && env.info.minOrderSize > 0.0
  }

  // ---- What one candle does ----

  function TradeOf(p: PositionState, exitPrice: real, closedAt: int): Trade {
    var pnl := Pnl(p.direction, p.entryPrice, exitPrice, p.size);
    var cost := Cost(p.entryPrice, p.size);
    Trade(p.direction, p.entryPrice, exitPrice, p.size, pnl,
          if cost == 0.0 then 0.0 else pnl / cost * 100.0,
          (closedAt - p.openedAt) / 1000,
          if pnl >= 0.0 then WIN else LOSS,
          p.openedAt, closedAt)
  }

  /**
   A trade's gain, its share of the money put in, in percent, its whole seconds, and its label.
   A position that cost nothing reports no percentage.
   */
  lemma TradeLaw(p: PositionState, exitPrice: real, closedAt: int)
    ensures var t := TradeOf(p, exitPrice, closedAt);
      && t.pnl == (if p.direction == LONG then exitPrice - p.entryPrice else p.entryPrice - exitPrice) * p.size
      && t.pnlPct * (p.entryPrice * p.size) == (if p.entryPrice * p.size == 0.0 then 0.0 else 100.0 * t.pnl)
      && (p.entryPrice * p.size == 0.0 ==> t.pnlPct == 0.0)
      && 1000 * t.holdDurationSec <= closedAt - p.openedAt < 1000 * (t.holdDurationSec + 1)
      && (t.result == WIN <==> t.pnl >= 0.0) && t.result != TIME_EXIT
  {
    var t, cost := TradeOf(p, exitPrice, closedAt), p.entryPrice * p.size;
    if cost != 0.0 {
      assert t.pnl / cost * cost == t.pnl;
      assert t.pnl / cost * 100.0 * cost == 100.0 * (t.pnl / cost * cost);
    }
  }

  /** Books a trade for the first fill; later fills find no position. */
  function Booked(st: StrategyState, fills: seq<OrderResult>, candle: Candle): (StrategyState, seq<Trade>) {
    if fills == [] then (st, [])
    else if fills[0].status == FILLED && fills[0].filledPrice.Some? && st.position.Some? then
      (StrategyState(None, None), [TradeOf(st.position.value, fills[0].filledPrice.value, candle.openTime)])
    else Booked(st, fills[1..], candle)
  }

  function Monitored(env: Env, st: StrategyState, l: Ledger, candle: Candle): (StrategyState, Ledger, seq<Trade>)
  {
    if st.position.None? then (st, l, [])
    else
      var (l', fills) := Checked(env.cfg, l, candle);
      var (st', trades) := Booked(st, fills, candle);
      (st', l', trades)
  }

  function SessionManaged(st: StrategyState, candle: Candle, signal: Signal): StrategyState {
    if candle.timeframe != H1 || st.position.Some? then st
    else
      var kept := if st.session.Some? && signal.invalidated then None else st.session;
      st.(session := if kept.None? then signal.detected else kept)
  }

  /**
   Only an hourly candle without a position changes the session: a running one is kept unless
   it is invalidated, and otherwise this candle's detection, if any, starts the next.
   */
  lemma SessionLaw(st: StrategyState, candle: Candle, signal: Signal)
    ensures var st' := SessionManaged(st, candle, signal);
      && st'.position == st.position
      && (candle.timeframe != H1 || st.position.Some? ==> st'.session == st.session)
      && (candle.timeframe == H1 && st.position.None? && st.session.Some? && !signal.invalidated ==>
            st'.session == st.session)
      && (candle.timeframe == H1 && st.position.None? && (st.session.None? || signal.invalidated) ==>
            st'.session == signal.detected)
  {
  }

  /** The sizer's size, or the minimum order when it gives none, capped at 95% of the balance. */
  function OrderSize(env: Env, balance: real, e: Evidence): (Sizer.SizeOutcome, real)
    requires ValidEnv(env) && e.entryPrice != 0.0
  {
    var r := Sizer.CalculateSize(balance, e.entryPrice, e.slPrice, e.direction, env.info, Sizer.GetRiskPct(balance));
    var wanted := if r.Sized? then r.result.size else env.info.minOrderSize;
    (r, Min(wanted, balance / e.entryPrice * 0.95))
  }

  /** At most 95% of the balance is spent; below that the order is the sizer's, or else the minimum. */
  lemma OrderSizeLaw(env: Env, balance: real, e: Evidence)
    requires ValidEnv(env) && e.entryPrice > 0.0
    ensures var (sizing, size) := OrderSize(env, balance, e);
      var wanted := if sizing.Sized? then sizing.result.size else env.info.minOrderSize;
      && sizing == Sizer.CalculateSize(balance, e.entryPrice, e.slPrice, e.direction, env.info,
                                       Sizer.GetRiskPct(balance))
      && 100.0 * (size * e.entryPrice) <= 95.0 * balance && size <= wanted
      && (size == wanted || 100.0 * (size * e.entryPrice) == 95.0 * balance)
  {
    hide Sizer.CalculateSize, Sizer.GetRiskPct;
    var size := OrderSize(env, balance, e).1;
    var most := balance / e.entryPrice * 0.95;
    assert balance / e.entryPrice * e.entryPrice == balance;
    assert most * e.entryPrice == 0.95 * (balance / e.entryPrice * e.entryPrice);
    if size < most {
      assert size * e.entryPrice <= most * e.entryPrice;
    }
  }

  function EntryOrder(env: Env, e: Evidence, size: real): OrderParams {
    OrderParams(env.symbol, EntrySide(e.direction), Market, size, None, false)
  }

  function StopOrder(env: Env, e: Evidence, size: real): OrderParams {
    OrderParams(env.symbol, CloseSide(e.direction), StopMarket, size, Some(e.slPrice), true)
  }

  /** Orders the entry and, once it has filled, its stop; a refused entry is skipped. */
  function Placed(env: Env, st: StrategyState, l: Ledger, candle: Candle, e: Evidence,
                  size: real): (StrategyState, Ledger)
    requires size > 0.0
  {
    var (l1, entry) := Created(env.cfg, l, EntryOrder(env, e, size));
    if entry.Threw? then (st, l1)
    else
      var (l2, stop) := Created(env.cfg, l1, StopOrder(env, e, entry.value.filledSize.value));
      (st.(position := Some(PositionState(e.direction, entry.value.filledPrice.value, entry.value.filledSize.value,
                                          candle.openTime, stop.value.orderId))), l2)
  }

  /** The evidence that this candle lets the strategy act on, if any. */
  function Actionable(st: StrategyState, candle: Candle, signal: Signal): Option<Evidence> {
    if (candle.timeframe == M5 || candle.timeframe == M1) && st.session.Some? && st.position.None? then
      var e := CheckEvidence(candle, signal.indicators, st.session.value);
      if e.Some? && signal.safetyPassed then e else None
    else None
  }

  /** The entry pipeline. The flag tells that the sizer threw, which aborts the whole run. */
  function Entering(env: Env, st: StrategyState, l: Ledger, candle: Candle, signal: Signal): (StrategyState,
                    Ledger, bool)
    requires ValidEnv(env) && candle.close > 0.0
  {
    var e := Actionable(st, candle, signal);
    if e.None? then (st, l, false)
    else
      var (sizing, size) := OrderSize(env, l.available, e.value);
      if sizing.Rejected? then (st, l, true)
      else if size < env.info.minOrderSize then (st, l, false)
      else
        var (st', l') := Placed(env, st, l, candle, e.value, size);
        (st', l', false)
  }

  datatype CandleResult = CandleResult(state: StrategyState, ledger: Ledger, trades: seq<Trade>, threw: bool)

  function OnCandle(env: Env, st: StrategyState, l: Ledger, candle: Candle, signal: Signal): CandleResult
    requires ValidEnv(env) && candle.close > 0.0
  {
    var (st1, l1, trades) := Monitored(env, st, l, candle);
    var st2 := SessionManaged(st1, candle, signal);
    var (st3, l3, threw) := Entering(env, st2, l1, candle, signal);
    CandleResult(st3, l3, trades, threw)
  }

  // ---- The callback ----

  class Strategy {
    const env: Env
    var session: Option<Direction>
    var position: Option<PositionState>

    ghost function State(): StrategyState
      reads this
    {
      StrategyState(session, position)
    }

    constructor (env: Env)
      ensures this.env == env && State() == StrategyState(None, None)
    {
      this.env := env;
      session, position := None, None;
    }

    method OnCandleClose(candle: Candle, signal: Signal, adapter: MockExchangeAdapter)
      returns (trades: seq<Trade>, threw: bool)
      requires ValidEnv(env) && adapter.config == env.cfg && candle.close > 0.0
      modifies this, adapter
      ensures CandleResult(State(), adapter.Snapshot(), trades, threw)
           == OnCandle(env, old(State()), old(adapter.Snapshot()), candle, signal)
    {
      trades, threw := [], false;
      if position.Some? {
        var fills := adapter.CheckPendingOrders(candle);
        var i := 0;
        assert fills[0..] == fills;
        while i < |fills|
          invariant i <= |fills|
          invariant adapter.Snapshot() == Checked(env.cfg, old(adapter.Snapshot()), candle).0
          invariant Booked(old(State()), fills, candle).0 == Booked(State(), fills[i..], candle).0
          invariant Booked(old(State()), fills, candle).1 == trades + Booked(State(), fills[i..], candle).1
        {
          var fill := fills[i];
          assert fills[i..][0] == fill && fills[i..][1..] == fills[i + 1..];
          if fill.status == FILLED && fill.filledPrice.Some? && position.Some? {
            trades := trades + [TradeOf(position.value, fill.filledPrice.value, candle.openTime)];
            position, session := None, None;
            BookedEmpty(State(), fills[i + 1..], candle);
          }
          i := i + 1;
        }
        assert fills[i..] == [] && trades + [] == trades;
      }
      ghost var st1, l1 := State(), adapter.Snapshot();
      assert (st1, l1, trades) == Monitored(env, old(State()), old(adapter.Snapshot()), candle);

      if candle.timeframe == H1 {
        if session.Some? && position.None? {
          if signal.invalidated {
            session := None;
          }
        }
        if session.None? && position.None? {
          session := signal.detected;
        }
      }
      assert State() == SessionManaged(st1, candle, signal);

      if (candle.timeframe == M5 || candle.timeframe == M1) && session.Some? && position.None? {
        var evidence := CheckEvidence(candle, signal.indicators, session.value);
        if evidence.Some? && signal.safetyPassed {
          threw := EnterPosition(candle, evidence.value, adapter);
        }
      }
    }

    method EnterPosition(candle: Candle, e: Evidence, adapter: MockExchangeAdapter) returns (threw: bool)
      requires ValidEnv(env) && adapter.config == env.cfg && e.entryPrice > 0.0
      modifies this, adapter
      ensures var (sizing, size) := OrderSize(env, old(adapter.availableBalance), e);
              var (st, l) := (old(State()), old(adapter.Snapshot()));
              && threw == sizing.Rejected?
              && (State(), adapter.Snapshot()) == if sizing.Rejected? || size < env.info.minOrderSize then (st, l)
                                                  else Placed(env, st, l, candle, e, size)
    {
      threw := false;
      var balance := adapter.availableBalance;
      var riskPct := Sizer.GetRiskPct(balance);
      var sizeResult := Sizer.CalculateSize(balance, e.entryPrice, e.slPrice, e.direction, env.info, riskPct);
      if sizeResult.Rejected? {
        return true;
      }
      var size := if sizeResult.Sized? then sizeResult.result.size else env.info.minOrderSize;
      var maxSize := balance / e.entryPrice * 0.95;
      if size > maxSize {
        size := maxSize;
      }
      if size < env.info.minOrderSize {
        return;
      }
      var entryResult := adapter.CreateOrder(EntryOrder(env, e, size));
      if entryResult.Threw? {
        return;
      }
      var slResult := adapter.CreateOrder(StopOrder(env, e, entryResult.value.filledSize.value));
      position := Some(PositionState(e.direction, entryResult.value.filledPrice.value,
                                     entryResult.value.filledSize.value, candle.openTime, slResult.value.orderId));
    }
  }

  lemma {:induction false} BookedEmpty(st: StrategyState, fills: seq<OrderResult>, candle: Candle)
    requires st.position.None?
    ensures Booked(st, fills, candle) == (st, [])
  {
    if fills != [] {
      BookedEmpty(st, fills[1..], candle);
    }
  }
}
