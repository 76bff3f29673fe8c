/**
 What the backtest ledger promises: where the money is after every operation, that a
 stop order fills at most once in any run, and that a run which only ever goes long
 cannot overdraw the account.
 */
module LedgerLaws {
  import opened Core
  import opened MockAdapter

  // ---- Money tied up in positions ----

  ghost function SumLocked(m: map<string, Position>): real
    decreases |m|
  {
    if m == map[] then 0.0
    else
      var k :| k in m;
      m[k].lockedCost + SumLocked(m - {k})
  }

  lemma {:induction false} SumLockedWithout(m: map<string, Position>, k: string)
    requires k in m
    ensures SumLocked(m) == m[k].lockedCost + SumLocked(m - {k})
    decreases |m|
  {
    var j :| j in m && SumLocked(m) == m[j].lockedCost + SumLocked(m - {j});
    if j != k {
      SumLockedWithout(m - {j}, k);
      SumLockedWithout(m - {k}, j);
      assert m - {j} - {k} == m - {k} - {j};
    }
  }

  /** Balance that neither the available amount nor a position accounts for. */
  ghost function Drift(l: Ledger): real {
    l.total - l.available - SumLocked(l.positions)
  }

  /** The position locks exactly its size at its entry price. */
  ghost predicate PricedAt(p: Position) {
    p.size > 0.0 && p.lockedCost == Cost(p.entryPrice, p.size)
  }

  ghost predicate Priced(l: Ledger) {
    forall s :: s in l.positions ==> PricedAt(l.positions[s])
  }

  /** Averaging keeps the price of what was bought: the new entry price is the size-weighted mean. */
  lemma AveragedPriced(p: Position, fillPrice: real, size: real)
    requires PricedAt(p)
    ensures size > 0.0 ==> PricedAt(Averaged(p, fillPrice, size))
    ensures Averaged(p, fillPrice, size).side == p.side && Averaged(p, fillPrice, size).size == p.size + size
    ensures Averaged(p, fillPrice, size).lockedCost == p.lockedCost + Cost(fillPrice, size)
  {
    var totalCost, totalSize := p.entryPrice * p.size + fillPrice * size, p.size + size;
    assert size > 0.0 ==> Ratio(totalCost, totalSize) * totalSize == totalCost;
  }

  /** A partial close frees the entry cost of the part closed and keeps the rest at its entry price. */
  lemma ReducedPriced(p: Position, part: real)
    requires PricedAt(p) && part < p.size
    ensures PricedAt(Reduced(p, part))
    ensures Released(p, part) == Cost(p.entryPrice, part)
  {
    var share := part / p.size;
    assert p.size * share == part;
    assert (p.entryPrice * p.size) * share == p.entryPrice * (p.size * share);
    assert p.entryPrice * (p.size - part) == p.entryPrice * p.size - p.entryPrice * part;
  }

  // ---- Entries ----

  /** The drift only depends on the money in the other symbols, this symbol and the balance. */
  lemma DriftAt(l: Ledger, symbol: string)
    requires symbol in l.positions
    ensures Drift(l) == l.total - l.available - l.positions[symbol].lockedCost - SumLocked(l.positions - {symbol})
  {
    SumLockedWithout(l.positions, symbol);
  }

  /**
   An entry of any size is refused exactly when it costs more than the available balance.
   Otherwise it moves money from available into the position and nowhere else: the total and
   the drift stay, an averaged position costs what both purchases cost, and other symbols are
   untouched. A positive size keeps the position priced.
   */
  lemma EntryLaw(l: Ledger, symbol: string, side: OrderSide, size: real, fillPrice: real)
    requires Priced(l)
    ensures Entered(l, symbol, side, size, fillPrice).Threw? <==> Cost(fillPrice, size) > l.available
    ensures Entered(l, symbol, side, size, fillPrice).Ok? ==>
      var l' := Entered(l, symbol, side, size, fillPrice).value;
      && (size > 0.0 ==> Priced(l')) && l'.total == l.total && Drift(l') == Drift(l)
      && l'.orders == l.orders && l'.orderSeq == l.orderSeq && l'.clock == l.clock
      && l'.positions.Keys == l.positions.Keys + {symbol}
      && l'.positions - {symbol} == l.positions - {symbol}
      && EntrySide(l'.positions[symbol].side) == side
      && (if symbol in l.positions && l.positions[symbol].side == l'.positions[symbol].side then
            && l'.positions[symbol].size == l.positions[symbol].size + size
            && l'.positions[symbol].lockedCost == l.positions[symbol].lockedCost + Cost(fillPrice, size)
            && l'.available == l.available - Cost(fillPrice, size)
          else
            l'.positions[symbol] == Position(l'.positions[symbol].side, size, fillPrice, Cost(fillPrice, size)))
  {
    hide Cost, Averaged, SumLocked;
    if Cost(fillPrice, size) <= l.available {
      var l' := Entered(l, symbol, side, size, fillPrice).value;
      assert l'.positions - {symbol} == l.positions - {symbol};
      DriftAt(l', symbol);
      if symbol in l.positions {
        DriftAt(l, symbol);
        assert PricedAt(l.positions[symbol]);
        AveragedPriced(l.positions[symbol], fillPrice, size);
      } else {
        assert l.positions - {symbol} == l.positions;
      }
      forall s | s in l'.positions && size > 0.0
        ensures PricedAt(l'.positions[s])
      {
        if s != symbol {
          assert l'.positions[s] == l.positions[s];
        }
      }
    }
  }

  // ---- Closes ----

  function ClosePnl(l: Ledger, symbol: string, fillPrice: real, closeSize: real): real {
    if symbol !in l.positions then 0.0
    else
      var p := l.positions[symbol];
      Pnl(p.side, p.entryPrice, fillPrice, Min(closeSize, p.size))
  }

  /**
   A close takes at most the position and keeps the rest at its entry price. The total
   afterwards only counts this symbol: it forgets the money in every other one.
   */
  lemma CloseLaw(l: Ledger, symbol: string, fillPrice: real, closeSize: real)
    requires Priced(l) && symbol in l.positions
    ensures var p := l.positions[symbol];
            var (l', actual) := Closed(l, symbol, fillPrice, closeSize);
            && actual == Min(closeSize, p.size)
            && Priced(l')
            && l'.orders == l.orders && l'.orderSeq == l.orderSeq && l'.clock == l.clock
            && l'.positions - {symbol} == l.positions - {symbol}
            && (symbol in l'.positions <==> closeSize < p.size)
            && (closeSize < p.size ==>
                  && l'.positions[symbol].side == p.side
                  && l'.positions[symbol].entryPrice == p.entryPrice
                  && l'.positions[symbol].size == p.size - closeSize)
            && Drift(l') == -SumLocked(l.positions - {symbol})
            && l'.total == l.total + ClosePnl(l, symbol, fillPrice, closeSize)
                         - Drift(l) - SumLocked(l.positions - {symbol})
  {
    hide Cost, SumLocked;
    if closeSize < l.positions[symbol].size {
      PartialClose(l, symbol, fillPrice, closeSize);
      PartialCloseBooks(l, symbol, fillPrice, closeSize);
    } else {
      FullClose(l, symbol, fillPrice, closeSize);
    }
  }

  /** What one unit pays back to the available balance when it is closed. */
  function Return(side: Direction, entry: real, fillPrice: real): real {
    if side == LONG then fillPrice else 2.0 * entry - fillPrice
  }

  /**
   A long returns what its units sold for; a short returns its entry cost less what the
   units cost above (or plus what they cost below) the entry price.
   */
  lemma CloseReturns(l: Ledger, symbol: string, fillPrice: real, closeSize: real)
    requires Priced(l) && symbol in l.positions
    ensures var p := l.positions[symbol];
            var (l', actual) := Closed(l, symbol, fillPrice, closeSize);
            l'.available == l.available + Cost(Return(p.side, p.entryPrice, fillPrice), actual)
  {
    hide Cost, Pnl, Return;
    var p := l.positions[symbol];
    assert PricedAt(p);
    if closeSize < p.size {
      PartialCloseBooks(l, symbol, fillPrice, closeSize);
      ReducedPriced(p, closeSize);
      CostPlusGain(p.side, p.entryPrice, fillPrice, closeSize);
    } else {
      CostPlusGain(p.side, p.entryPrice, fillPrice, p.size);
    }
  }

  lemma CostPlusGain(side: Direction, entry: real, fillPrice: real, size: real)
    ensures Cost(entry, size) + Pnl(side, entry, fillPrice, size) == Cost(Return(side, entry, fillPrice), size)
  {
    assert (fillPrice - entry) * size == fillPrice * size - entry * size;
    assert (2.0 * entry - fillPrice) * size == entry * size + (entry - fillPrice) * size;
  }

  lemma FullClose(l: Ledger, symbol: string, fillPrice: real, closeSize: real)
    requires Priced(l) && symbol in l.positions && closeSize >= l.positions[symbol].size
    ensures var p := l.positions[symbol];
            var gain := Pnl(p.side, p.entryPrice, fillPrice, p.size);
            var l' := Closed(l, symbol, fillPrice, closeSize).0;
            && Closed(l, symbol, fillPrice, closeSize).1 == p.size
            && Priced(l')
            && l'.positions == l.positions - {symbol}
            && l'.available == l.available + p.lockedCost + gain
            && Drift(l') == -SumLocked(l.positions - {symbol})
            && l'.total == l.total + gain - Drift(l) - SumLocked(l.positions - {symbol})
  {
    hide Cost, SumLocked;
    DriftAt(l, symbol);
    assert PricedAt(l.positions[symbol]);
    var l' := Closed(l, symbol, fillPrice, closeSize).0;
    forall s | s in l'.positions
      ensures PricedAt(l'.positions[s])
    {
      assert l'.positions[s] == l.positions[s];
    }
  }

  lemma PartialClose(l: Ledger, symbol: string, fillPrice: real, closeSize: real)
    requires Priced(l) && symbol in l.positions && closeSize < l.positions[symbol].size
    ensures var p := l.positions[symbol];
            var l' := Closed(l, symbol, fillPrice, closeSize).0;
            && Closed(l, symbol, fillPrice, closeSize).1 == closeSize
            && Priced(l')
            && l'.positions == l.positions[symbol := Reduced(p, closeSize)]
            && l'.positions - {symbol} == l.positions - {symbol}
  {
    hide Cost, SumLocked;
    var l' := Closed(l, symbol, fillPrice, closeSize).0;
    assert PricedAt(l.positions[symbol]);
    ReducedPriced(l.positions[symbol], closeSize);
    assert l'.positions - {symbol} == l.positions - {symbol};
    forall s | s in l'.positions
      ensures PricedAt(l'.positions[s])
    {
      if s != symbol {
        assert l'.positions[s] == l.positions[s];
      }
    }
  }

  lemma PartialCloseBooks(l: Ledger, symbol: string, fillPrice: real, closeSize: real)
    requires Priced(l) && symbol in l.positions && closeSize < l.positions[symbol].size
    ensures var p := l.positions[symbol];
            var gain := Pnl(p.side, p.entryPrice, fillPrice, closeSize);
            var l' := Closed(l, symbol, fillPrice, closeSize).0;
            && l'.available == l.available + Released(p, closeSize) + gain
            && Drift(l') == -SumLocked(l.positions - {symbol})
            && l'.total == l.total + gain - Drift(l) - SumLocked(l.positions - {symbol})
  {
    hide Cost, SumLocked;
    DriftAt(l, symbol);
    var l' := Closed(l, symbol, fillPrice, closeSize).0;
    assert l'.positions - {symbol} == l.positions - {symbol};
    DriftAt(l', symbol);
  }

  /** Without a position a close takes nothing and changes nothing. */
  lemma NothingToClose(l: Ledger, symbol: string, fillPrice: real, closeSize: real)
    requires symbol !in l.positions
    ensures Closed(l, symbol, fillPrice, closeSize) == (l, 0.0)
  {
  }

  /** With several symbols open, a close balances the books exactly when no other position holds money. */
  lemma CloseBalancesIff(l: Ledger, symbol: string, fillPrice: real, closeSize: real)
    requires Priced(l) && symbol in l.positions
    ensures Drift(Closed(l, symbol, fillPrice, closeSize).0) == 0.0 <==> SumLocked(l.positions - {symbol}) == 0.0
  {
    hide Closed, Cost, SumLocked;
    CloseLaw(l, symbol, fillPrice, closeSize);
  }

  function TwoSymbols(): Ledger {
    var p := Position(LONG, 1.0, 50.0, 50.0);
    Ledger(900.0, 1000.0, map["A" := p, "B" := p], [], 2, 0)
  }

  lemma TwoSymbolsBalanced()
    ensures Priced(TwoSymbols()) && Drift(TwoSymbols()) == 0.0
    ensures SumLocked(TwoSymbols().positions - {"A"}) == 50.0
  {
    var m := TwoSymbols().positions;
    SumLockedWithout(m, "A");
    var rest := m - {"A"};
    assert rest.Keys == {"B"};
    SumLockedWithout(rest, "B");
    assert rest - {"B"} == map[];
  }

  /** Two symbols held at once, the books balanced: closing one leaves the other's cost out of the total. */
  lemma TwoSymbolsDrift()
    ensures Priced(TwoSymbols()) && Drift(TwoSymbols()) == 0.0
    ensures Drift(Closed(TwoSymbols(), "A", 50.0, 1.0).0) == -50.0
  {
    hide Closed, Pnl, SumLocked;
    TwoSymbolsBalanced();
    CloseLaw(TwoSymbols(), "A", 50.0, 1.0);
  }

  /** Closing in two steps at one price leaves the same account as closing once. */
  lemma CloseInTwoSteps(l: Ledger, symbol: string, fillPrice: real, first: real, second: real)
    requires Priced(l) && symbol in l.positions
    requires 0.0 <= first && 0.0 <= second && first < l.positions[symbol].size
    ensures Closed(Closed(l, symbol, fillPrice, first).0, symbol, fillPrice, second).0
         == Closed(l, symbol, fillPrice, first + second).0
  {
    hide Closed, Cost, SumLocked;
    var p := l.positions[symbol];
    var a := Closed(l, symbol, fillPrice, first).0;
    CloseLaw(l, symbol, fillPrice, first);
    CloseLaw(a, symbol, fillPrice, second);
    CloseLaw(l, symbol, fillPrice, first + second);
    TwoStepReturns(l, symbol, fillPrice, first, second);
    var b := Closed(a, symbol, fillPrice, second).0;
    var c := Closed(l, symbol, fillPrice, first + second).0;
    SamePositions(b, c, symbol);
    assert Drift(b) == Drift(c);
    assert b.total - b.available == c.total - c.available;
  }

  lemma TwoStepReturns(l: Ledger, symbol: string, fillPrice: real, first: real, second: real)
    requires Priced(l) && symbol in l.positions
    requires 0.0 <= first && 0.0 <= second && first < l.positions[symbol].size
    ensures Closed(Closed(l, symbol, fillPrice, first).0, symbol, fillPrice, second).0.available
         == Closed(l, symbol, fillPrice, first + second).0.available
  {
    hide Closed, Cost, Return, SumLocked;
    var p := l.positions[symbol];
    var r := Return(p.side, p.entryPrice, fillPrice);
    CloseLaw(l, symbol, fillPrice, first);
    var a := Closed(l, symbol, fillPrice, first).0;
    var rest := Min(second, p.size - first);
    ReturnOf(l, symbol, fillPrice, first, r, first);
    ReturnOf(a, symbol, fillPrice, second, r, rest);
    ReturnOf(l, symbol, fillPrice, first + second, r, first + rest);
    Distribute(r, first, rest);
  }

  lemma Distribute(price: real, a: real, b: real)
    ensures Cost(price, a + b) == Cost(price, a) + Cost(price, b)
  {
  }

  lemma ReturnOf(l: Ledger, symbol: string, fillPrice: real, closeSize: real, r: real, part: real)
    requires Priced(l) && symbol in l.positions
    requires r == Return(l.positions[symbol].side, l.positions[symbol].entryPrice, fillPrice)
    requires part == Min(closeSize, l.positions[symbol].size)
    ensures Closed(l, symbol, fillPrice, closeSize).0.available == l.available + Cost(r, part)
  {
    hide Closed, Cost, Return, SumLocked;
    CloseReturns(l, symbol, fillPrice, closeSize);
    CloseLaw(l, symbol, fillPrice, closeSize);
  }

  /** Priced positions that agree on side, size and entry price agree on what they lock. */
  lemma SamePositions(b: Ledger, c: Ledger, symbol: string)
    requires Priced(b) && Priced(c)
    requires b.positions - {symbol} == c.positions - {symbol}
    requires symbol in b.positions <==> symbol in c.positions
    requires symbol in b.positions ==>
      && b.positions[symbol].side == c.positions[symbol].side
      && b.positions[symbol].size == c.positions[symbol].size
      && b.positions[symbol].entryPrice == c.positions[symbol].entryPrice
    ensures b.positions == c.positions
  {
    if symbol in b.positions {
      assert PricedAt(b.positions[symbol]) && PricedAt(c.positions[symbol]);
      assert b.positions[symbol] == c.positions[symbol];
      assert b.positions == (b.positions - {symbol})[symbol := b.positions[symbol]];
      assert c.positions == (c.positions - {symbol})[symbol := c.positions[symbol]];
    } else {
      assert b.positions == b.positions - {symbol};
      assert c.positions == c.positions - {symbol};
    }
  }

  // ---- Whole runs ----

  datatype Op =
    | Advance(timestamp: int)
    | Create(params: OrderParams)
    | Check(candle: Candle)
    | Cancel(orderId: nat)
    | Edit(editId: nat, price: Option<real>, size: Option<real>)

  function Step(cfg: Config, l: Ledger, op: Op): Ledger {
    match op
    case Advance(t) => l.(clock := t)
    case Create(params) => Created(cfg, l, params).0
    case Check(candle) => Checked(cfg, l, candle).0
    case Cancel(id) => Cancelled(l, id)
    case Edit(id, price, size) =>
      match Edited(l, id, price, size) {
        case Ok(l') => l'
        case Threw(_) => l
      }
  }

  /** Only a market entry needs a positive size: stops and reduce-only orders take any. */
  predicate Sized(params: OrderParams) {
    params.orderType == Market && !params.reduceOnly ==> params.size > 0.0
  }

  ghost predicate AllSized(ops: seq<Op>) {
    forall i :: 0 <= i < |ops| && ops[i].Create? ==> Sized(ops[i].params)
  }

  function Run(cfg: Config, l: Ledger, ops: seq<Op>): Ledger
    decreases |ops|
  {
    if ops == [] then l
    else
      Run(cfg, Step(cfg, l, ops[0]), ops[1..])
  }

  // ---- One symbol: the books always balance ----

  /** Order numbers are handed out in increasing order and never reused. */
  ghost predicate Numbered(l: Ledger) {
    && (forall i :: 0 <= i < |l.orders| ==> l.orders[i].orderId <= l.orderSeq)
    && (forall i, j :: 0 <= i < j < |l.orders| ==> l.orders[i].orderId < l.orders[j].orderId)
  }

  ghost predicate Solo(l: Ledger, symbol: string) {
    && Priced(l)
    && Drift(l) == 0.0
    && l.positions.Keys <= {symbol}
    && (forall i :: 0 <= i < |l.orders| ==> l.orders[i].symbol == symbol)
  }

  ghost predicate OnSymbol(op: Op, symbol: string) {
    op.Create? ==> op.params.symbol == symbol
  }

  function StopPnl(cfg: Config, l: Ledger, i: nat): real
    requires i < |l.orders|
  {
    var o := l.orders[i];
    if o.reduceOnly then ClosePnl(l, o.symbol, Slipped(cfg.slippagePct, o.triggerPrice, o.side), o.size) else 0.0
  }

  function CheckPnl(cfg: Config, l: Ledger, i: nat, candle: Candle): real
    requires i <= |l.orders|
    decreases |l.orders| - i
  {
    if i == |l.orders| then 0.0
    else if Triggered(l.orders[i], candle) then
      StopPnl(cfg, l, i) + CheckPnl(cfg, StopFilled(cfg, l, i, candle), i + 1, candle)
    else CheckPnl(cfg, l, i + 1, candle)
  }

  /** Gain that an operation realises: only reduce-only fills realise any. */
  function Realised(cfg: Config, l: Ledger, op: Op): real
  {
    match op
    case Create(params) =>
      var candle := CurrentCandle(cfg.candles, params.symbol, l.clock);
      if params.orderType == Market && params.reduceOnly && candle.Some?
      then ClosePnl(l, params.symbol, Slipped(cfg.slippagePct, candle.value.close, params.side), params.size)
      else 0.0
    case Check(candle) => CheckPnl(cfg, l, 0, candle)
    case _ => 0.0
  }

  function RealisedRun(cfg: Config, l: Ledger, ops: seq<Op>): real
    decreases |ops|
  {
    if ops == [] then 0.0
    else
      Realised(cfg, l, ops[0]) + RealisedRun(cfg, Step(cfg, l, ops[0]), ops[1..])
  }

  lemma SoloClose(l: Ledger, symbol: string, fillPrice: real, closeSize: real)
    requires Solo(l, symbol)
    ensures Solo(Closed(l, symbol, fillPrice, closeSize).0, symbol)
    ensures Closed(l, symbol, fillPrice, closeSize).0.total == l.total + ClosePnl(l, symbol, fillPrice, closeSize)
    ensures Closed(l, symbol, fillPrice, closeSize).0.orders == l.orders
  {
    hide Cost;
    if symbol in l.positions {
      CloseLaw(l, symbol, fillPrice, closeSize);
      assert l.positions - {symbol} == map[];
    }
  }

  lemma {:induction false} SoloCheck(cfg: Config, l: Ledger, i: nat, candle: Candle, symbol: string)
    requires Solo(l, symbol) && i <= |l.orders|
    ensures Solo(CheckedFrom(cfg, l, i, candle).0, symbol)
    ensures CheckedFrom(cfg, l, i, candle).0.total == l.total + CheckPnl(cfg, l, i, candle)
    decreases |l.orders| - i
  {
    hide Cost, Closed, SumLocked;
    if i < |l.orders| {
      if Triggered(l.orders[i], candle) {
        var o := l.orders[i];
        SoloClose(l, symbol, Slipped(cfg.slippagePct, o.triggerPrice, o.side), o.size);
        SoloCheck(cfg, StopFilled(cfg, l, i, candle), i + 1, candle, symbol);
      } else {
        SoloCheck(cfg, l, i + 1, candle, symbol);
      }
    }
  }

  lemma SoloStep(cfg: Config, l: Ledger, op: Op, symbol: string)
    requires Solo(l, symbol) && OnSymbol(op, symbol) && (op.Create? ==> Sized(op.params))
    ensures Solo(Step(cfg, l, op), symbol)
    ensures Step(cfg, l, op).total == l.total + Realised(cfg, l, op)
  {
    hide Cost, Closed, SumLocked, Entered;
    match op {
      case Advance(t) =>
      case Check(candle) =>
        SoloCheck(cfg, l, 0, candle, symbol);
      case Cancel(id) =>
      case Edit(id, price, size) =>
      case Create(params) =>
        var l1 := l.(orderSeq := l.orderSeq + 1);
        assert Solo(l1, symbol);
        var candle := CurrentCandle(cfg.candles, symbol, l.clock);
        if params.orderType == Market && candle.Some? {
          var fillPrice := Slipped(cfg.slippagePct, candle.value.close, params.side);
          if params.reduceOnly {
            SoloClose(l1, symbol, fillPrice, params.size);
          } else {
            EntryLaw(l1, symbol, params.side, params.size, fillPrice);
          }
        }
    }
  }

  /**
   In every run that trades one symbol, after every operation the available balance plus
   the entry cost of the position is the total, and the total moved by the realised gains
   and nothing else.
   */
  lemma {:induction false} SoloRun(cfg: Config, l: Ledger, ops: seq<Op>, symbol: string)
    requires Solo(l, symbol) && AllSized(ops)
    requires forall i :: 0 <= i < |ops| ==> OnSymbol(ops[i], symbol)
    ensures Solo(Run(cfg, l, ops), symbol)
    ensures Run(cfg, l, ops).total == l.total + RealisedRun(cfg, l, ops)
    decreases |ops|
  {
    if ops != [] {
      SoloStep(cfg, l, ops[0], symbol);
      SoloRun(cfg, Step(cfg, l, ops[0]), ops[1..], symbol);
    }
  }

  // ---- No order fills twice ----

  ghost predicate Settled(l: Ledger, id: nat) {
    exists i :: 0 <= i < |l.orders| && l.orders[i].orderId == id && l.orders[i].status != PENDING
  }

  function Ids(fills: seq<OrderResult>): seq<nat> {
    seq(|fills|, i requires 0 <= i < |fills| => fills[i].orderId)
  }

  /** Numbers of the stop orders that an operation reports as filled. */
  function StopFills(cfg: Config, l: Ledger, op: Op): seq<nat>
  {
    if op.Check? then Ids(Checked(cfg, l, op.candle).1) else []
  }

  function RunFills(cfg: Config, l: Ledger, ops: seq<Op>): seq<nat>
    decreases |ops|
  {
    if ops == [] then []
    else
      StopFills(cfg, l, ops[0]) + RunFills(cfg, Step(cfg, l, ops[0]), ops[1..])
  }

  ghost predicate Distinct(s: seq<nat>) {
    forall i, j :: 0 <= i < j < |s| ==> s[i] != s[j]
  }

  /** A check only turns the triggered orders it looks at into FILLED ones, each in its place. */
  lemma {:induction false} CheckOrders(cfg: Config, l: Ledger, i: nat, candle: Candle)
    requires i <= |l.orders|
    ensures var l' := CheckedFrom(cfg, l, i, candle).0;
      && |l'.orders| == |l.orders| && l'.orderSeq == l.orderSeq && l'.clock == l.clock
      && (forall k :: 0 <= k < |l.orders| ==>
            l'.orders[k] == if k >= i && Triggered(l.orders[k], candle)
                            then l.orders[k].(status := FILLED) else l.orders[k])
    decreases |l.orders| - i
  {
    hide Cost, Closed, Slipped;
    if i < |l.orders| {
      if Triggered(l.orders[i], candle) {
        var o := l.orders[i];
        ClosedKeepsOrders(l, o.symbol, Slipped(cfg.slippagePct, o.triggerPrice, o.side), o.size);
        CheckOrders(cfg, StopFilled(cfg, l, i, candle), i + 1, candle);
      } else {
        CheckOrders(cfg, l, i + 1, candle);
      }
    }
  }

  /** The candle's prices reach a stop: a sell stop from above, a buy stop from below. */
  ghost predicate Reached(o: PendingOrder, candle: Candle) {
    || (o.side == SELL && candle.low <= o.triggerPrice)
    || (o.side == BUY && candle.high >= o.triggerPrice)
  }

  /**
   After a check a pending order is filled exactly when it is of the candle's symbol and the
   candle's low fell to its trigger price, for a sell, or the high rose to it, for a buy.
   Nothing else about any order changes.
   */
  lemma CheckFillsIff(cfg: Config, l: Ledger, candle: Candle, k: nat)
    requires k < |l.orders|
    ensures var (before, orders) := (l.orders[k], Checked(cfg, l, candle).0.orders);
      && |orders| == |l.orders|
      && (before.status == PENDING ==>
            (orders[k].status == FILLED <==> before.symbol == candle.symbol && Reached(before, candle)))
      && (before.status != PENDING ==> orders[k] == before)
      && (orders[k].status != FILLED ==> orders[k] == before)
      && orders[k] == before.(status := orders[k].status)
  {
    CheckOrders(cfg, l, 0, candle);
  }

  function TriggeredOrders(orders: seq<PendingOrder>, candle: Candle): seq<PendingOrder> {
    Filter(orders, o => Triggered(o, candle))
  }

  /** The fills reported are those of the triggered orders, one each, in the order placed. */
  lemma {:induction false} CheckFills(cfg: Config, l: Ledger, i: nat, candle: Candle)
    requires i <= |l.orders|
    ensures var fills, due := CheckedFrom(cfg, l, i, candle).1, TriggeredOrders(l.orders[i..], candle);
      && |fills| == |due|
      && (forall k :: 0 <= k < |due| ==> fills[k] == StopFill(cfg, due[k], candle))
    decreases |l.orders| - i
  {
    hide Cost, Closed, Slipped;
    if i < |l.orders| {
      var o := l.orders[i];
      assert l.orders[i..] == [o] + l.orders[i + 1..];
      if Triggered(o, candle) {
        var l1 := StopFilled(cfg, l, i, candle);
        ClosedKeepsOrders(l, o.symbol, Slipped(cfg.slippagePct, o.triggerPrice, o.side), o.size);
        assert l1.orders[i + 1..] == l.orders[i + 1..];
        CheckFills(cfg, l1, i + 1, candle);
      } else {
        CheckFills(cfg, l, i + 1, candle);
      }
    }
  }

  /** A filtered list of increasing numbers is still increasing. */
  lemma {:induction false} DueIncreasing(orders: seq<PendingOrder>, candle: Candle)
    requires forall i, j :: 0 <= i < j < |orders| ==> orders[i].orderId < orders[j].orderId
    ensures var due := TriggeredOrders(orders, candle);
            forall i, j :: 0 <= i < j < |due| ==> due[i].orderId < due[j].orderId
  {
    if orders != [] {
      DueIncreasing(orders[1..], candle);
      var rest := TriggeredOrders(orders[1..], candle);
      forall o | o in rest
        ensures orders[0].orderId < o.orderId
      {
        FilterMember(orders[1..], o => Triggered(o, candle), o);
      }
    }
  }

  lemma ClosedKeepsOrders(l: Ledger, symbol: string, fillPrice: real, closeSize: real)
    ensures Closed(l, symbol, fillPrice, closeSize).0.orders == l.orders
    ensures Closed(l, symbol, fillPrice, closeSize).0.orderSeq == l.orderSeq
    ensures Closed(l, symbol, fillPrice, closeSize).0.clock == l.clock
  {
  }

  lemma NumberedStep(cfg: Config, l: Ledger, op: Op)
    requires Numbered(l)
    ensures Numbered(Step(cfg, l, op))
  {
    hide Cost, Averaged, Slipped, Closed, Entered, CurrentCandle;
    match op
    case Check(candle) => CheckOrders(cfg, l, 0, candle);
    case Create(params) => CreatedOrders(cfg, l, params);
    case _ =>
  }

  /** A created order takes the next number and leaves the others alone. */
  lemma CreatedOrders(cfg: Config, l: Ledger, params: OrderParams)
    ensures var l' := Created(cfg, l, params).0;
      && l'.orderSeq == l.orderSeq + 1
      && (l'.orders == l.orders
          || (|l'.orders| == |l.orders| + 1 && l'.orders[..|l.orders|] == l.orders
              && l'.orders[|l.orders|].orderId == l'.orderSeq))
  {
    hide Cost, Averaged, Slipped, CurrentCandle;
  }

  /**
   An order that is not filled at once moves no money and answers PENDING without a fill; a stop
   order with a trigger price joins the list, without one it throws, a limit order is forgotten.
   */
  lemma RestingOrders(cfg: Config, l: Ledger, params: OrderParams)
    requires params.orderType != Market
    ensures var (l', r) := Created(cfg, l, params);
      && l' == l.(orderSeq := l.orderSeq + 1, orders := l'.orders)
      && (r.Threw? <==> params.orderType == StopMarket && params.price.None?)
      && (r.Ok? ==> r.value == OrderResult(l'.orderSeq, PENDING, None, None, l.clock))
      && (r.Threw? ==> r.error == MissingTriggerPrice)
      && l'.orders == l.orders + (if params.orderType == StopMarket && params.price.Some?
                                  then [PendingOrder(l'.orderSeq, params.symbol, params.side, params.size,
                                                     params.price.value, params.reduceOnly, l.clock, PENDING)]
                                  else [])
  {
  }

  /** A fill settles its order, and one check reports an order once. */
  lemma FillsSettle(cfg: Config, l: Ledger, op: Op)
    requires Numbered(l)
    ensures Distinct(StopFills(cfg, l, op))
    ensures forall id :: id in StopFills(cfg, l, op) ==> Settled(Step(cfg, l, op), id)
  {
    if op.Check? {
      var candle, fills := op.candle, Checked(cfg, l, op.candle).1;
      var due := TriggeredOrders(l.orders, candle);
      assert l.orders[0..] == l.orders;
      CheckOrders(cfg, l, 0, candle);
      CheckFills(cfg, l, 0, candle);
      DueIncreasing(l.orders, candle);
      forall id | id in StopFills(cfg, l, op)
        ensures Settled(Step(cfg, l, op), id)
      {
        var k :| 0 <= k < |fills| && fills[k].orderId == id;
        FilterMember(l.orders, o => Triggered(o, candle), due[k]);
        var j :| 0 <= j < |l.orders| && l.orders[j] == due[k];
        assert Step(cfg, l, op).orders[j].status == FILLED;
      }
    }
  }

  /** With distinct order numbers: cancelling marks the order of that number, whatever it was, and no other. */
  lemma CancelLaw(l: Ledger, id: nat, k: nat)
    requires Numbered(l) && k < |l.orders|
    ensures var l' := Cancelled(l, id);
      && l' == l.(orders := l'.orders) && |l'.orders| == |l.orders|
      && l'.orders[k] == if l.orders[k].orderId == id then l.orders[k].(status := CANCELLED) else l.orders[k]
  {
  }

  /**
   With distinct order numbers: an edit fails exactly when no pending order has that number;
   otherwise that order takes the price and the size that are given, and no other changes.
   */
  lemma EditLaw(l: Ledger, id: nat, price: Option<real>, size: Option<real>)
    requires Numbered(l)
    ensures Edited(l, id, price, size).Threw? <==>
      forall k :: 0 <= k < |l.orders| && l.orders[k].orderId == id ==> l.orders[k].status != PENDING
    ensures Edited(l, id, price, size).Ok? ==>
      var l' := Edited(l, id, price, size).value;
      && l' == l.(orders := l'.orders) && |l'.orders| == |l.orders|
      && forall k :: 0 <= k < |l.orders| ==>
           var (before, after) := (l.orders[k], l'.orders[k]);
           && (before.orderId != id ==> after == before)
           && after == before.(triggerPrice := after.triggerPrice, size := after.size)
           && (before.orderId == id ==>
                 && after.triggerPrice == (if price.Some? then price.value else before.triggerPrice)
                 && after.size == (if size.Some? then size.value else before.size))
  {
    var i := IndexOf(l.orders, id);
    assert i < |l.orders| ==> l.orders[i].orderId == id;
  }

  /** No operation fills or revives a settled order, cancelling and editing included. */
  lemma SettledForever(cfg: Config, l: Ledger, op: Op, id: nat)
    requires Numbered(l) && Settled(l, id)
    ensures Settled(Step(cfg, l, op), id)
    ensures id !in StopFills(cfg, l, op)
  {
    hide Cost, Averaged, Slipped, Closed, Entered, CurrentCandle, Created;
    var i :| 0 <= i < |l.orders| && l.orders[i].orderId == id && l.orders[i].status != PENDING;
    var l' := Step(cfg, l, op);
    match op {
      case Check(candle) =>
        CheckOrders(cfg, l, 0, candle);
        assert l'.orders[i] == l.orders[i];
        FillNeedsPending(cfg, l, i, candle);
      case Create(params) =>
        CreatedOrders(cfg, l, params);
        assert l'.orders[i] == l.orders[i];
      case _ =>
        assert l'.orders[i].orderId == id && l'.orders[i].status != PENDING;
    }
  }

  lemma FillNeedsPending(cfg: Config, l: Ledger, i: nat, candle: Candle)
    requires Numbered(l) && i < |l.orders| && l.orders[i].status != PENDING
    ensures l.orders[i].orderId !in StopFills(cfg, l, Check(candle))
  {
    var due, fills := TriggeredOrders(l.orders, candle), Checked(cfg, l, candle).1;
    assert l.orders[0..] == l.orders;
    CheckFills(cfg, l, 0, candle);
    forall k | 0 <= k < |fills|
      ensures fills[k].orderId != l.orders[i].orderId
    {
      FilterMember(l.orders, o => Triggered(o, candle), due[k]);
      var j :| 0 <= j < |l.orders| && l.orders[j] == due[k];
      assert j != i;
    }
  }

  lemma {:induction false} SettledNeverFills(cfg: Config, l: Ledger, ops: seq<Op>, id: nat)
    requires Numbered(l) && Settled(l, id)
    ensures id !in RunFills(cfg, l, ops)
    decreases |ops|
  {
    if ops != [] {
      SettledForever(cfg, l, ops[0], id);
      NumberedStep(cfg, l, ops[0]);
      SettledNeverFills(cfg, Step(cfg, l, ops[0]), ops[1..], id);
    }
  }

  /** In every run of any operations on any symbols, no stop order is reported filled twice. */
  lemma {:induction false} NoDoubleFill(cfg: Config, l: Ledger, ops: seq<Op>)
    requires Numbered(l)
    ensures Distinct(RunFills(cfg, l, ops))
    decreases |ops|
  {
    if ops != [] {
      var l' := Step(cfg, l, ops[0]);
      var now, later := StopFills(cfg, l, ops[0]), RunFills(cfg, l', ops[1..]);
      NumberedStep(cfg, l, ops[0]);
      FillsSettle(cfg, l, ops[0]);
      NoDoubleFill(cfg, l', ops[1..]);
      forall i, j | 0 <= i < j < |now + later|
        ensures (now + later)[i] != (now + later)[j]
      {
        if i < |now| <= j {
          assert now[i] in now;
          SettledNeverFills(cfg, l', ops[1..], now[i]);
          assert (now + later)[j] in later;
        }
      }
    }
  }

  // ---- Runs that only go long cannot overdraw ----

  ghost predicate FairPrices(cfg: Config) {
    && -100.0 <= cfg.slippagePct <= 100.0
    && (forall i :: 0 <= i < |cfg.candles| ==> cfg.candles[i].close >= 0.0)
  }

  ghost predicate LongOp(op: Op) {
    match op
    case Create(p) =>
      && p.size >= 0.0
      && (p.price.Some? ==> p.price.value >= 0.0)
      && (p.orderType == Market && !p.reduceOnly ==> p.side == BUY)
    case Edit(_, price, size) =>
      && (price.Some? ==> price.value >= 0.0)
      && (size.Some? ==> size.value >= 0.0)
    case _ => true
  }

  ghost predicate LongBook(l: Ledger) {
    && Priced(l)
    && l.available >= 0.0
    && (forall s :: s in l.positions ==> l.positions[s].side == LONG)
    && (forall i :: 0 <= i < |l.orders| ==> l.orders[i].triggerPrice >= 0.0 && l.orders[i].size >= 0.0)
  }

  lemma SlippedNonNegative(pct: real, price: real, side: OrderSide)
    requires -100.0 <= pct <= 100.0 && price >= 0.0
    ensures Slipped(pct, price, side) >= 0.0
  {
    assert -1.0 <= pct / 100.0 <= 1.0;
    assert price * (1.0 + pct / 100.0) >= 0.0 && price * (1.0 - pct / 100.0) >= 0.0;
  }

  lemma CostNonNegative(price: real, size: real)
    requires price >= 0.0 && size >= 0.0
    ensures Cost(price, size) >= 0.0
  {
  }

  lemma LongClose(l: Ledger, symbol: string, fillPrice: real, closeSize: real)
    requires LongBook(l) && fillPrice >= 0.0 && closeSize >= 0.0
    ensures LongBook(Closed(l, symbol, fillPrice, closeSize).0)
    ensures Closed(l, symbol, fillPrice, closeSize).0.orders == l.orders
  {
    if symbol in l.positions {
      hide Closed, Cost, SumLocked;
      CloseLaw(l, symbol, fillPrice, closeSize);
      CloseReturns(l, symbol, fillPrice, closeSize);
      assert PricedAt(l.positions[symbol]);
      var (l', actual) := Closed(l, symbol, fillPrice, closeSize);
      CostNonNegative(fillPrice, actual);
      forall s | s in l'.positions
        ensures l'.positions[s].side == LONG
      {
        if s != symbol {
          assert s in l'.positions - {symbol};
          assert (l'.positions - {symbol})[s] == (l.positions - {symbol})[s];
        }
      }
    }
  }

  lemma {:induction false} LongCheck(cfg: Config, l: Ledger, i: nat, candle: Candle)
    requires LongBook(l) && FairPrices(cfg) && i <= |l.orders|
    ensures LongBook(CheckedFrom(cfg, l, i, candle).0)
    decreases |l.orders| - i
  {
    hide Cost, Closed, Slipped;
    if i < |l.orders| {
      if Triggered(l.orders[i], candle) {
        var o := l.orders[i];
        SlippedNonNegative(cfg.slippagePct, o.triggerPrice, o.side);
        LongClose(l, o.symbol, Slipped(cfg.slippagePct, o.triggerPrice, o.side), o.size);
        LongCheck(cfg, StopFilled(cfg, l, i, candle), i + 1, candle);
      } else {
        LongCheck(cfg, l, i + 1, candle);
      }
    }
  }

  /** The candle at the index is the last of its symbol, in the order supplied, that the clock has reached. */
  ghost predicate IsCurrent(candles: seq<Candle>, symbol: string, clock: int, i: int) {
    && 0 <= i < |candles| && candles[i].symbol == symbol && candles[i].openTime <= clock
    && forall k :: i < k < |candles| ==> !(candles[k].symbol == symbol && candles[k].openTime <= clock)
  }

  /** The current candle is the last one reached, and there is none exactly when none is reached. */
  lemma {:induction false} CurrentCandleIs(candles: seq<Candle>, symbol: string, clock: int)
    ensures CurrentCandle(candles, symbol, clock).None? <==>
      forall i :: 0 <= i < |candles| ==> !(candles[i].symbol == symbol && candles[i].openTime <= clock)
    ensures CurrentCandle(candles, symbol, clock).Some? ==>
      exists i :: IsCurrent(candles, symbol, clock, i) && CurrentCandle(candles, symbol, clock) == Some(candles[i])
  {
    if candles != [] {
      var before, last := candles[..|candles| - 1], candles[|candles| - 1];
      CurrentCandleIs(before, symbol, clock);
      CurrentCandlePush(before, symbol, clock, last);
      assert candles == before + [last];
      if last.symbol == symbol && last.openTime <= clock {
        assert IsCurrent(candles, symbol, clock, |candles| - 1);
      } else if CurrentCandle(before, symbol, clock).Some? {
        var i :| IsCurrent(before, symbol, clock, i) && CurrentCandle(before, symbol, clock) == Some(before[i]);
        assert IsCurrent(candles, symbol, clock, i);
      }
    }
  }

  lemma CurrentCandlePush(before: seq<Candle>, symbol: string, clock: int, last: Candle)
    ensures CurrentCandle(before + [last], symbol, clock) ==
      if last.symbol == symbol && last.openTime <= clock then Some(last) else CurrentCandle(before, symbol, clock)
  {
    FilterAppend(before, [last], c => Visible(c, symbol, clock));
    assert [last][1..] == [];
  }

  /** In a history in time order, that is the latest candle the clock has reached. */
  lemma CurrentIsLatest(candles: seq<Candle>, symbol: string, clock: int, i: int)
    requires forall a, b :: 0 <= a < b < |candles| ==> candles[a].openTime <= candles[b].openTime
    requires IsCurrent(candles, symbol, clock, i)
    ensures forall k :: 0 <= k < |candles| && candles[k].symbol == symbol && candles[k].openTime <= clock ==>
              candles[k].openTime <= candles[i].openTime
  {
  }

  /**
   A market order is answered with the close of that candle, raised or lowered by the slippage
   percentage, and throws for want of a candle exactly when there is none.
   */
  lemma MarketFillPrice(cfg: Config, l: Ledger, params: OrderParams)
    requires params.orderType == Market
    ensures var r := Created(cfg, l, params).1;
      && (r == Threw(NoCandle) <==> forall i :: 0 <= i < |cfg.candles| ==>
            !(cfg.candles[i].symbol == params.symbol && cfg.candles[i].openTime <= l.clock))
      && (r.Ok? ==>
            && r.value.status == FILLED && r.value.filledPrice.Some?
            && exists i :: (&& IsCurrent(cfg.candles, params.symbol, l.clock, i)
                            && r.value.filledPrice.value == SlippedPrice(cfg, cfg.candles[i].close, params.side)))
  {
    hide CurrentCandle, SlippedPrice, Slipped;
    CurrentCandleIs(cfg.candles, params.symbol, l.clock);
    MarketAnswer(cfg, l, params);
    if Created(cfg, l, params).1.Ok? {
      var i :| IsCurrent(cfg.candles, params.symbol, l.clock, i)
               && CurrentCandle(cfg.candles, params.symbol, l.clock) == Some(cfg.candles[i]);
      SlippedIs(cfg, cfg.candles[i].close, params.side);
    }
  }

  lemma MarketAnswer(cfg: Config, l: Ledger, params: OrderParams)
    requires params.orderType == Market
    ensures var (r, candle) := (Created(cfg, l, params).1, CurrentCandle(cfg.candles, params.symbol, l.clock));
      && (r == Threw(NoCandle) <==> candle.None?)
      && (r.Ok? ==> candle.Some? && r.value.status == FILLED
                    && r.value.filledPrice == Some(Slipped(cfg.slippagePct, candle.value.close, params.side)))
  {
    hide Averaged, Cost, CurrentCandle, Slipped, Closed;
  }

  /** A buy pays the slippage percentage more, a sell receives it less. */
  function SlippedPrice(cfg: Config, price: real, side: OrderSide): real {
    if side == BUY then price * (1.0 + cfg.slippagePct / 100.0) else price * (1.0 - cfg.slippagePct / 100.0)
  }

  lemma SlippedIs(cfg: Config, price: real, side: OrderSide)
    ensures Slipped(cfg.slippagePct, price, side) == SlippedPrice(cfg, price, side)
  {
    if cfg.slippagePct == 0.0 {
      assert price * (1.0 + 0.0 / 100.0) == price == price * (1.0 - 0.0 / 100.0);
    }
  }

  lemma CurrentCandleVisible(candles: seq<Candle>, symbol: string, clock: int)
    ensures var c := CurrentCandle(candles, symbol, clock);
            c.Some? ==> c.value in candles && Visible(c.value, symbol, clock)
  {
    var visible := Filter(candles, c => Visible(c, symbol, clock));
    if visible != [] {
      FilterMember(candles, c => Visible(c, symbol, clock), visible[|visible| - 1]);
    }
  }

  lemma LongStep(cfg: Config, l: Ledger, op: Op)
    requires LongBook(l) && FairPrices(cfg) && LongOp(op) && (op.Create? ==> Sized(op.params))
    ensures LongBook(Step(cfg, l, op))
  {
    hide Cost, Closed, Entered, Slipped;
    match op {
      case Advance(t) =>
      case Check(candle) => LongCheck(cfg, l, 0, candle);
      case Cancel(id) =>
      case Edit(id, price, size) =>
      case Create(p) =>
        var l1 := l.(orderSeq := l.orderSeq + 1);
        var candle := CurrentCandle(cfg.candles, p.symbol, l.clock);
        CurrentCandleVisible(cfg.candles, p.symbol, l.clock);
        if p.orderType == Market && candle.Some? {
          SlippedNonNegative(cfg.slippagePct, candle.value.close, p.side);
          var fillPrice := Slipped(cfg.slippagePct, candle.value.close, p.side);
          if p.reduceOnly {
            LongClose(l1, p.symbol, fillPrice, p.size);
          } else {
            EntryLaw(l1, p.symbol, p.side, p.size, fillPrice);
            if Entered(l1, p.symbol, p.side, p.size, fillPrice).Ok? {
              LongEntry(l1, p.symbol, p.size, fillPrice);
            }
          }
        }
    }
  }

  lemma LongEntry(l: Ledger, symbol: string, size: real, fillPrice: real)
    requires LongBook(l) && size > 0.0 && Entered(l, symbol, BUY, size, fillPrice).Ok?
    ensures LongBook(Entered(l, symbol, BUY, size, fillPrice).value)
  {
    EntryLaw(l, symbol, BUY, size, fillPrice);
  }

  /** No short entry and no negative price: the available balance never goes below zero. */
  lemma {:induction false} LongRunNeverOverdraws(cfg: Config, l: Ledger, ops: seq<Op>)
    requires LongBook(l) && FairPrices(cfg) && AllSized(ops)
    requires forall i :: 0 <= i < |ops| ==> LongOp(ops[i])
    ensures Run(cfg, l, ops).available >= 0.0
    decreases |ops|
  {
    if ops != [] {
      LongStep(cfg, l, ops[0]);
      LongRunNeverOverdraws(cfg, Step(cfg, l, ops[0]), ops[1..]);
    }
  }

  /**
   Exactly when a close at a fair price overdraws an account that was not: a short position,
   and less available than the closed units cost above twice their entry price.
   */
  lemma CloseOverdrawsIff(l: Ledger, symbol: string, fillPrice: real, closeSize: real)
    requires Priced(l) && symbol in l.positions && l.available >= 0.0 && fillPrice >= 0.0 && closeSize > 0.0
    ensures var p := l.positions[symbol];
      Closed(l, symbol, fillPrice, closeSize).0.available < 0.0 <==>
        p.side == SHORT && l.available < Cost(fillPrice - 2.0 * p.entryPrice, Min(closeSize, p.size))
  {
    hide Closed, SumLocked;
    var p := l.positions[symbol];
    assert PricedAt(p);
    CloseReturns(l, symbol, fillPrice, closeSize);
    CloseLaw(l, symbol, fillPrice, closeSize);
    CostSigns(fillPrice, p.entryPrice, Min(closeSize, p.size));
  }

  lemma CostSigns(fillPrice: real, entry: real, size: real)
    requires size > 0.0
    ensures fillPrice >= 0.0 ==> Cost(fillPrice, size) >= 0.0
    ensures Cost(2.0 * entry - fillPrice, size) == -Cost(fillPrice - 2.0 * entry, size)
  {
  }

  /** A short can: its loss is not bounded by what it locked. */
  lemma ShortCanOverdraw()
    ensures var l := Ledger(0.0, 100.0, map["A" := Position(SHORT, 1.0, 100.0, 100.0)], [], 1, 0);
            Priced(l) && Closed(l, "A", 250.0, 1.0).0.available == -50.0
  {
    var l := Ledger(0.0, 100.0, map["A" := Position(SHORT, 1.0, 100.0, 100.0)], [], 1, 0);
    CloseLaw(l, "A", 250.0, 1.0);
  }
}
