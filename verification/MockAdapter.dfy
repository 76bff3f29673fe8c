/**
 The in-memory exchange of the backtester: a ledger of one quote balance, a map of
 positions, and stop orders that wait for a candle to reach their trigger.

 The first part defines what each operation does to a `Ledger` value. The class
 `MockExchangeAdapter` updates its fields in place and is proved against it. What the
 ledger operations promise is in module `LedgerLaws`.
 */
module MockAdapter {
  import opened Core

  datatype Position = Position(side: Direction, size: real, entryPrice: real, lockedCost: real)

  datatype PendingOrder = PendingOrder(
    orderId: nat,
    symbol: string,
    side: OrderSide,
    size: real,
    triggerPrice: real,
    reduceOnly: bool,
    placedAt: int,
    status: OrderStatus)

  datatype OrderType = Market | StopMarket | Limit

  datatype OrderParams = OrderParams(
    symbol: string,
    side: OrderSide,
    orderType: OrderType,
    size: real,
    price: Option<real>,
    reduceOnly: bool)

  datatype OrderResult = OrderResult(
    orderId: nat,
    status: OrderStatus,
    filledPrice: Option<real>,
    filledSize: Option<real>,
    timestamp: int)

  datatype AdapterError = InsufficientBalance | NoCandle | MissingTriggerPrice | NoSuchOrder

  datatype Outcome<+T> = Ok(value: T) | Threw(error: AdapterError)

  /** Candle history (in the order it was supplied) and slippage percentage. */
  datatype Config = Config(candles: seq<Candle>, slippagePct: real)

  datatype Ledger = Ledger(
    available: real,
    total: real,
    positions: map<string, Position>,
    orders: seq<PendingOrder>,
    orderSeq: nat,
    clock: int)

  // ---- What each operation does to the ledger ----

  function InitialLedger(balance: real): Ledger {
    Ledger(balance, balance, map[], [], 0, 0)
  }

  /** BUY fills above the quoted price, SELL fills below it. */
  function Slipped(pct: real, price: real, side: OrderSide): real {
    if pct == 0.0 then price
    else if side == BUY then price * (1.0 + pct / 100.0)
    else price * (1.0 - pct / 100.0)
  }

  predicate Visible(c: Candle, symbol: string, clock: int) {
    c.symbol == symbol && c.openTime <= clock
  }

  /** The last candle in the supplied order that the clock has reached. */
  function CurrentCandle(candles: seq<Candle>, symbol: string, clock: int): Option<Candle> {
    var visible := Filter(candles, c => Visible(c, symbol, clock));
    if visible == [] then None else Some(visible[|visible| - 1])
  }

  /** The part of the locked cost that a partial close frees. */
  function Released(p: Position, part: real): real {
    Cost(p.lockedCost, Ratio(part, p.size))
  }

  function Reduced(p: Position, part: real): Position {
    p.(size := p.size - part, lockedCost := p.lockedCost - Released(p, part))
  }

  /** Applies a reduce-only fill, capped at the position's size, and returns the size closed. */
  function Closed(l: Ledger, symbol: string, fillPrice: real, closeSize: real): (Ledger, real) {
    if symbol !in l.positions then (l, 0.0)
    else
      var p := l.positions[symbol];
      var actual := if closeSize > p.size then p.size else closeSize;
      var pnl := Pnl(p.side, p.entryPrice, fillPrice, actual);
      if actual == p.size then
        var available := l.available + p.lockedCost + pnl;
        (l.(available := available, total := available, positions := l.positions - {symbol}), actual)
      else
        var kept := Reduced(p, actual);
        var available := l.available + Released(p, actual) + pnl;
        (l.(available := available,
            total := available + kept.lockedCost,
            positions := l.positions[symbol := kept]), actual)
  }

  function Averaged(p: Position, fillPrice: real, size: real): Position {
    var totalSize := p.size + size;
    var totalCost := Cost(p.entryPrice, p.size) + Cost(fillPrice, size);
    Position(p.side, totalSize, Ratio(totalCost, totalSize), p.lockedCost + Cost(fillPrice, size))
  }

  /** Opens, averages or replaces the position; refuses when the cost exceeds the balance. */
  function Entered(l: Ledger, symbol: string, side: OrderSide, size: real, fillPrice: real): Outcome<Ledger> {
    var cost := Cost(fillPrice, size);
    if cost > l.available then Threw(InsufficientBalance)
    else
      var direction := if side == BUY then LONG else SHORT;
      var available := l.available - cost;
      if symbol in l.positions && l.positions[symbol].side == direction then
        Ok(l.(available := available,
              positions := l.positions[symbol := Averaged(l.positions[symbol], fillPrice, size)]))
      else
        var placed := Position(direction, size, fillPrice, cost);
        var released := if symbol in l.positions then l.positions[symbol].lockedCost else 0.0;
        Ok(l.(available := available + released, positions := l.positions[symbol := placed]))
  }

  /** Places an order; the order number is used up even when the call throws. */
  function Created(cfg: Config, l0: Ledger, params: OrderParams): (Ledger, Outcome<OrderResult>) {
    var id := l0.orderSeq + 1;
    var l := l0.(orderSeq := id);
    match params.orderType
    case StopMarket =>
      if params.price == None then (l, Threw(MissingTriggerPrice))
      else
        var order := PendingOrder(id, params.symbol, params.side, params.size, params.price.value,
                                  params.reduceOnly, l.clock, PENDING);
        (l.(orders := l.orders + [order]), Ok(OrderResult(id, PENDING, None, None, l.clock)))
    case Market =>
      var candle := CurrentCandle(cfg.candles, params.symbol, l.clock);
      if candle == None then (l, Threw(NoCandle))
      else
        var fillPrice := Slipped(cfg.slippagePct, candle.value.close, params.side);
        if params.reduceOnly then
          var (l', filled) := Closed(l, params.symbol, fillPrice, params.size);
          (l', Ok(OrderResult(id, FILLED, Some(fillPrice), Some(filled), l.clock)))
        else
          (match Entered(l, params.symbol, params.side, params.size, fillPrice)
           case Threw(e) => (l, Threw(e))
           case Ok(l') => (l', Ok(OrderResult(id, FILLED, Some(fillPrice), Some(params.size), l.clock))))
    case Limit =>
      (l, Ok(OrderResult(id, PENDING, None, None, l.clock)))
  }

  /** A stop is reached when the candle's low (SELL) or high (BUY) touches its trigger. */
  predicate Triggered(o: PendingOrder, candle: Candle) {
    && o.status == PENDING
    && o.symbol == candle.symbol
    && (if o.side == SELL then candle.low <= o.triggerPrice else candle.high >= o.triggerPrice)
  }

  function StopFill(cfg: Config, o: PendingOrder, candle: Candle): OrderResult {
    OrderResult(o.orderId, FILLED, Some(Slipped(cfg.slippagePct, o.triggerPrice, o.side)),
                Some(o.size), candle.openTime)
  }

  /** Fills the order at index `i`: a reduce-only stop closes, any other only changes status. */
  function StopFilled(cfg: Config, l: Ledger, i: nat, candle: Candle): Ledger
    requires i < |l.orders|
  {
    var o := l.orders[i];
    var fillPrice := Slipped(cfg.slippagePct, o.triggerPrice, o.side);
    var l' := if o.reduceOnly then Closed(l, o.symbol, fillPrice, o.size).0 else l;
    l'.(orders := l.orders[i := o.(status := FILLED)])
  }

  /** Checks the orders from index `i` on against a candle, in the order they were placed. */
  function CheckedFrom(cfg: Config, l: Ledger, i: nat, candle: Candle): (Ledger, seq<OrderResult>)
    requires i <= |l.orders|
    decreases |l.orders| - i
  {
    if i == |l.orders| then (l, [])
    else if Triggered(l.orders[i], candle) then
      var (l', fills) := CheckedFrom(cfg, StopFilled(cfg, l, i, candle), i + 1, candle);
      (l', [StopFill(cfg, l.orders[i], candle)] + fills)
    else CheckedFrom(cfg, l, i + 1, candle)
  }

  function Checked(cfg: Config, l: Ledger, candle: Candle): (Ledger, seq<OrderResult>) {
    CheckedFrom(cfg, l, 0, candle)
  }

  /** Index of the order with the given number, or the number of orders when there is none. */
  function IndexOf(orders: seq<PendingOrder>, orderId: nat): (i: nat)
    ensures i <= |orders|
    ensures i < |orders| ==> orders[i].orderId == orderId
    ensures forall k :: 0 <= k < i ==> orders[k].orderId != orderId
  {
    if orders == [] then 0
    else if orders[0].orderId == orderId then 0
    else 1 + IndexOf(orders[1..], orderId)
  }

  /** Cancelling overwrites whatever status the order had. */
  function Cancelled(l: Ledger, orderId: nat): Ledger {
    var i := IndexOf(l.orders, orderId);
    if i == |l.orders| then l
    else l.(orders := l.orders[i := l.orders[i].(status := CANCELLED)])
  }

  /** Only a pending order can be edited. */
  function Edited(l: Ledger, orderId: nat, price: Option<real>, size: Option<real>): Outcome<Ledger> {
    var i := IndexOf(l.orders, orderId);
    if i == |l.orders| || l.orders[i].status != PENDING then Threw(NoSuchOrder)
    else
      var o := l.orders[i];
      var o' := o.(triggerPrice := if price.Some? then price.value else o.triggerPrice,
                   size := if size.Some? then size.value else o.size);
      Ok(l.(orders := l.orders[i := o']))
  }

  // ---- The adapter ----

  class MockExchangeAdapter {
    const config: Config
    var currentTimestamp: int
    var totalBalance: real
    var availableBalance: real
    var positions: map<string, Position>
    var orderSeq: nat
    var pendingOrders: seq<PendingOrder>

    ghost function Snapshot(): Ledger
      reads this
    {
      Ledger(availableBalance, totalBalance, positions, pendingOrders, orderSeq, currentTimestamp)
    }

    constructor (config: Config, initialBalance: real)
      ensures this.config == config
      ensures Snapshot() == InitialLedger(initialBalance)
    {
      this.config := config;
      totalBalance, availableBalance := initialBalance, initialBalance;
      positions, pendingOrders, orderSeq, currentTimestamp := map[], [], 0, 0;
    }

    method AdvanceTime(timestamp: int)
      modifies this`currentTimestamp
      ensures Snapshot() == old(Snapshot()).(clock := timestamp)
    {
      currentTimestamp := timestamp;
    }

    method ClosePosition(symbol: string, fillPrice: real, closeSize: real) returns (actual: real)
      modifies this`totalBalance, this`availableBalance, this`positions
      ensures (Snapshot(), actual) == Closed(old(Snapshot()), symbol, fillPrice, closeSize)
    {
      if symbol !in positions {
        return 0.0;
      }
      var position := positions[symbol];
      actual := if closeSize > position.size then position.size else closeSize;
      var pnl := Pnl(position.side, position.entryPrice, fillPrice, actual);
      if actual == position.size {
        availableBalance := availableBalance + position.lockedCost + pnl;
        totalBalance := availableBalance;
        positions := positions - {symbol};
      } else {
        var releasedCost := position.lockedCost * Ratio(actual, position.size);
        availableBalance := availableBalance + releasedCost + pnl;
        totalBalance := availableBalance + (position.lockedCost - releasedCost);
        positions := positions[symbol := position.(size := position.size - actual,
                                                   lockedCost := position.lockedCost - releasedCost)];
      }
      ghost var spec := Closed(old(Snapshot()), symbol, fillPrice, closeSize);
      assert availableBalance == spec.0.available && totalBalance == spec.0.total;
      assert positions == spec.0.positions;
    }

    method FillMarketEntry(symbol: string, side: OrderSide, size: real, fillPrice: real) returns (ok: bool)
      modifies this`availableBalance, this`positions
      ensures match Entered(old(Snapshot()), symbol, side, size, fillPrice)
              case Ok(l) => ok && Snapshot() == l
              case Threw(_) => !ok && Snapshot() == old(Snapshot())
    {
      var cost := fillPrice * size;
      if cost > availableBalance {
        return false;
      }
      ok := true;
      availableBalance := availableBalance - cost;
      var direction := if side == BUY then LONG else SHORT;
      if symbol in positions && positions[symbol].side == direction {
        var existing := positions[symbol];
        var totalSize := existing.size + size;
        var totalCost := existing.entryPrice * existing.size + fillPrice * size;
        positions := positions[symbol := existing.(entryPrice := Ratio(totalCost, totalSize),
                                                   size := totalSize,
                                                   lockedCost := existing.lockedCost + cost)];
      } else {
        if symbol in positions {
          availableBalance := availableBalance + positions[symbol].lockedCost;
        }
        positions := positions[symbol := Position(direction, size, fillPrice, cost)];
      }
      ghost var spec := Entered(old(Snapshot()), symbol, side, size, fillPrice);
      assert availableBalance == spec.value.available;
      assert positions[symbol] == spec.value.positions[symbol];
      assert positions == spec.value.positions;
    }

    method CreateOrder(params: OrderParams) returns (r: Outcome<OrderResult>)
      modifies this
      ensures (Snapshot(), r) == Created(config, old(Snapshot()), params)
    {
      orderSeq := orderSeq + 1;
      var orderId := orderSeq;
      match params.orderType {
        case StopMarket =>
          if params.price == None {
            return Threw(MissingTriggerPrice);
          }
          var pending := PendingOrder(orderId, params.symbol, params.side, params.size, params.price.value,
                                      params.reduceOnly, currentTimestamp, PENDING);
          pendingOrders := pendingOrders + [pending];
          r := Ok(OrderResult(orderId, PENDING, None, None, currentTimestamp));
        case Market =>
          var candle := CurrentCandle(config.candles, params.symbol, currentTimestamp);
          if candle == None {
            return Threw(NoCandle);
          }
          var fillPrice := Slipped(config.slippagePct, candle.value.close, params.side);
          if params.reduceOnly {
            var filledSize := ClosePosition(params.symbol, fillPrice, params.size);
            r := Ok(OrderResult(orderId, FILLED, Some(fillPrice), Some(filledSize), currentTimestamp));
          } else {
            var ok := FillMarketEntry(params.symbol, params.side, params.size, fillPrice);
            if !ok {
              return Threw(InsufficientBalance);
            }
            r := Ok(OrderResult(orderId, FILLED, Some(fillPrice), Some(params.size), currentTimestamp));
          }
        case Limit =>
          r := Ok(OrderResult(orderId, PENDING, None, None, currentTimestamp));
      }
    }

    method CheckPendingOrders(candle: Candle) returns (results: seq<OrderResult>)
      modifies this
      ensures (Snapshot(), results) == Checked(config, old(Snapshot()), candle)
    {
      results := [];
      ghost var goal := Checked(config, Snapshot(), candle);
      var i := 0;
      while i < |pendingOrders|
        invariant i <= |pendingOrders|
        invariant goal.0 == CheckedFrom(config, Snapshot(), i, candle).0
        invariant goal.1 == results + CheckedFrom(config, Snapshot(), i, candle).1
        decreases |pendingOrders| - i
      {
        var pending := pendingOrders[i];
        if Triggered(pending, candle) {
          ghost var before := Snapshot();
          var fillPrice := Slipped(config.slippagePct, pending.triggerPrice, pending.side);
          if pending.reduceOnly {
            var _ := ClosePosition(pending.symbol, fillPrice, pending.size);
          }
          pendingOrders := pendingOrders[i := pending.(status := FILLED)];
          assert Snapshot() == StopFilled(config, before, i, candle);
          results := results + [StopFill(config, pending, candle)];
        }
        i := i + 1;
      }
      assert results + [] == results;
    }

    method CancelOrder(orderId: nat)
      modifies this`pendingOrders
      ensures Snapshot() == Cancelled(old(Snapshot()), orderId)
    {
      var i := IndexOf(pendingOrders, orderId);
      if i < |pendingOrders| {
        pendingOrders := pendingOrders[i := pendingOrders[i].(status := CANCELLED)];
      }
    }

    method EditOrder(orderId: nat, price: Option<real>, size: Option<real>) returns (ok: bool)
      modifies this`pendingOrders
      ensures match Edited(old(Snapshot()), orderId, price, size)
              case Ok(l) => ok && Snapshot() == l
              case Threw(_) => !ok && Snapshot() == old(Snapshot())
    {
      var i := IndexOf(pendingOrders, orderId);
      if i == |pendingOrders| || pendingOrders[i].status != PENDING {
        return false;
      }
      ok := true;
      if price.Some? {
        pendingOrders := pendingOrders[i := pendingOrders[i].(triggerPrice := price.value)];
      }
      if size.Some? {
        pendingOrders := pendingOrders[i := pendingOrders[i].(size := size.value)];
      }
    }
  }
}
