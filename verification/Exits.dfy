/**
 Exit checks and their execution: partial closes down the take-profit ladder, the time exit,
 and moving the stop by editing it or by cancelling and recreating it. The caller persists
 the returned updates, which `Tick` does.
 */
module Exits {
  import opened Core
  import opened Fsm
  import opened Venue

  const TIME_EXIT_THRESHOLD_MS := 60 * 3600 * 1000

  datatype ExitTicket = ExitTicket(
    direction: Direction,
    state: TicketState,
    entryPrice: real,
    tp1Price: Option<real>,
    tp2Price: Option<real>,
    size: real,
    remainingSize: real,
    openedAt: int,
    slOrderId: Option<nat>,
    currentSlPrice: Option<real>,
    trailingActive: bool,
    trailingPrice: Option<real>,
    maxProfit: Option<real>)

  datatype ActionType = TakeProfit1 | TakeProfit2 | TimeExit | NoAction

  datatype ExitAction = ExitAction(kind: ActionType, closeSize: real)

  // ---- Checking ----

  predicate IsTpHit(direction: Direction, price: real, tpPrice: real) {
    if direction == LONG then price >= tpPrice else price <= tpPrice
  }

  function CalcCloseSize(t: ExitTicket, kind: ActionType): real {
    match kind
    case TakeProfit1 => t.size * 0.5
    case TakeProfit2 => t.remainingSize / 2.0
    case TimeExit => t.remainingSize
    case NoAction => 0.0
  }

  function CheckExit(t: ExitTicket, price: real, now: int, timeframe: Option<Timeframe>): ExitAction {
    if t.state == CLOSED then ExitAction(NoAction, 0.0)
    else if now - t.openedAt > TIME_EXIT_THRESHOLD_MS then ExitAction(TimeExit, t.remainingSize)
    else if timeframe.Some? && timeframe.value != M5 then ExitAction(NoAction, 0.0)
    else if t.state == INITIAL && t.tp1Price.Some? && IsTpHit(t.direction, price, t.tp1Price.value)
    then ExitAction(TakeProfit1, CalcCloseSize(t, TakeProfit1))
    else if t.state == TP1_HIT && t.tp2Price.Some? && IsTpHit(t.direction, price, t.tp2Price.value)
    then ExitAction(TakeProfit2, CalcCloseSize(t, TakeProfit2))
    else ExitAction(NoAction, 0.0)
  }

  /** Gain per unit at a price, whatever the direction. */
  function Gain(t: ExitTicket, price: real): real {
    Pnl(t.direction, t.entryPrice, price, 1.0)
  }

  /** On a 5M close within the holding limit, a target is taken exactly when the price gains as much as it would. */
  lemma TargetTakenIff(t: ExitTicket, price: real, now: int, timeframe: Option<Timeframe>)
    requires now - t.openedAt <= 216000000 && (timeframe == None || timeframe == Some(M5))
    ensures CheckExit(t, price, now, timeframe).kind == TakeProfit1 <==>
              t.state == INITIAL && t.tp1Price.Some? && Gain(t, price) >= Gain(t, t.tp1Price.value)
    ensures CheckExit(t, price, now, timeframe).kind == TakeProfit2 <==>
              t.state == TP1_HIT && t.tp2Price.Some? && Gain(t, price) >= Gain(t, t.tp2Price.value)
  {
  }

  /**
   Sixty hours are 216000000 milliseconds. Past them an open ticket is closed whole, on any
   timeframe; within them only the take-profit rungs act, and off the 5M close nothing does.
   */
  lemma TimeExitIff(t: ExitTicket, price: real, now: int, timeframe: Option<Timeframe>)
    ensures var action := CheckExit(t, price, now, timeframe);
      && (action.kind == TimeExit <==> t.state != CLOSED && now - t.openedAt > 216000000)
      && (action.kind == TimeExit ==> action.closeSize == t.remainingSize)
      && (action.kind == TakeProfit1 ==> t.state == INITIAL && now - t.openedAt <= 216000000)
      && (action.kind == TakeProfit2 ==> t.state == TP1_HIT && now - t.openedAt <= 216000000)
      && (t.state != CLOSED && now - t.openedAt <= 216000000 && timeframe != None && timeframe != Some(M5) ==>
            action.kind == NoAction)
      && (t.state == TP2_HIT && now - t.openedAt <= 216000000 ==> action.kind == NoAction)
      && (action.kind == NoAction ==> action.closeSize == 0.0)
      && action.closeSize == CalcCloseSize(t, action.kind)
  {
  }

  function NewState(kind: ActionType): Option<TicketState> {
    match kind
    case TakeProfit1 => Some(TP1_HIT)
    case TakeProfit2 => Some(TP2_HIT)
    case TimeExit => Some(CLOSED)
    case NoAction => None
  }

  // ---- Moving the stop ----

  /** What the exchange would answer to each request of a move. */
  datatype MoveResponses = MoveResponses(edit: Response, cancel: Response, create: Response)

  predicate Edited(t: ExitTicket, supportsEdit: bool, r: MoveResponses) {
    t.slOrderId.Some? && supportsEdit && r.edit.Accepted?
  }

  /** Whether the move returns an order. */
  predicate Moved(t: ExitTicket, supportsEdit: bool, r: MoveResponses) {
    Edited(t, supportsEdit, r) || r.create.Accepted?
  }

  function NewStop(t: ExitTicket, newSl: real): Request {
    CreateOrder(CloseSide(t.direction), t.remainingSize, StopMarket, Some(newSl), None, true)
  }

  function MoveCalls(t: ExitTicket, newSl: real, supportsEdit: bool, r: MoveResponses, at: int): seq<Call> {
    (if t.slOrderId.Some? && supportsEdit then [Call(EditOrder(t.slOrderId.value, newSl), r.edit, at)] else [])
    + (if Edited(t, supportsEdit, r) then []
       else (if t.slOrderId.Some? then [Call(CancelOrder(t.slOrderId.value), r.cancel, at)] else [])
            + [Call(NewStop(t, newSl), r.create, at)])
  }

  /** The move's effect: the stop re-priced, or the old one gone and perhaps a new one. */
  function MovedBook(t: ExitTicket, newSl: real, supportsEdit: bool, r: MoveResponses, book: Book): Book {
    if Edited(t, supportsEdit, r) then
      var id := t.slOrderId.value;
      if id in book.stops then book.(stops := book.stops[id := book.stops[id].(price := newSl)]) else book
    else
      var cancelled :=
        if t.slOrderId.Some? && r.cancel.Accepted? then book.(stops := book.stops - {t.slOrderId.value}) else book;
      if r.create.Accepted?
      then WithStop(cancelled, Stop(CloseSide(t.direction), t.remainingSize, newSl))
      else cancelled
  }

  lemma OneMore(book: Book, calls: seq<Call>, call: Call)
    ensures Replay(book, calls + [call]) == Effect(Replay(book, calls), call)
    ensures Replay(book, []) == book
    ensures [] + [call] == [call]
  {
    ReplayPush(book, calls, call);
  }

  lemma MoveSlEffect(t: ExitTicket, newSl: real, supportsEdit: bool, r: MoveResponses, at: int, book: Book)
    ensures Replay(book, MoveCalls(t, newSl, supportsEdit, r, at)) == MovedBook(t, newSl, supportsEdit, r, book)
  {
    hide Replay;
    var calls := [];
    if t.slOrderId.Some? && supportsEdit {
      var edit := Call(EditOrder(t.slOrderId.value, newSl), r.edit, at);
      OneMore(book, calls, edit);
      calls := calls + [edit];
    }
    if !Edited(t, supportsEdit, r) {
      if t.slOrderId.Some? {
        var cancel := Call(CancelOrder(t.slOrderId.value), r.cancel, at);
        OneMore(book, calls, cancel);
        calls := calls + [cancel];
      }
      var create := Call(NewStop(t, newSl), r.create, at);
      OneMore(book, calls, create);
      calls := calls + [create];
    }
    assert calls == MoveCalls(t, newSl, supportsEdit, r, at);
  }

  method MoveSl(adapter: ExchangeAdapter, t: ExitTicket, newSl: real, supportsEdit: bool)
    returns (moved: bool, ghost r: MoveResponses)
    modifies adapter
    ensures Made(adapter, MoveCalls(t, newSl, supportsEdit, r, old(adapter.lastReading)))
    ensures moved <==> Moved(t, supportsEdit, r)
    ensures adapter.lastReading == old(adapter.lastReading)
  {
    hide Effect, Replay;
    var edit, cancel, create := Threw, Threw, Threw;
    var at := adapter.lastReading;
    ghost var calls := [];
    if t.slOrderId.Some? && supportsEdit {
      edit := adapter.Send(EditOrder(t.slOrderId.value, newSl));
      OneMore(old(adapter.book), calls, Call(EditOrder(t.slOrderId.value, newSl), edit, at));
      calls := calls + [Call(EditOrder(t.slOrderId.value, newSl), edit, at)];
      if edit.Accepted? {
        r := MoveResponses(edit, cancel, create);
        assert calls == MoveCalls(t, newSl, supportsEdit, r, at);
        return true, r;
      }
    }
    if t.slOrderId.Some? {
      cancel := adapter.Send(CancelOrder(t.slOrderId.value));
      OneMore(old(adapter.book), calls, Call(CancelOrder(t.slOrderId.value), cancel, at));
      calls := calls + [Call(CancelOrder(t.slOrderId.value), cancel, at)];
    }
    create := adapter.Send(NewStop(t, newSl));
    OneMore(old(adapter.book), calls, Call(NewStop(t, newSl), create, at));
    calls := calls + [Call(NewStop(t, newSl), create, at)];
    r := MoveResponses(edit, cancel, create);
    assert calls == MoveCalls(t, newSl, supportsEdit, r, at);
    return create.Accepted?, r;
  }

  /** A returned order means a stop rests at the new price, at least as large as the old or the remaining size. */
  lemma MovedMeansStopped(t: ExitTicket, newSl: real, supportsEdit: bool, r: MoveResponses, book: Book)
    requires Moved(t, supportsEdit, r)
    requires t.slOrderId.Some? ==> t.slOrderId.value in book.stops
    ensures var after := MovedBook(t, newSl, supportsEdit, r, book);
      exists id :: id in after.stops && after.stops[id].price == newSl
        && (|| after.stops[id].size == t.remainingSize
            || (id in book.stops && after.stops[id].size == book.stops[id].size))
  {
    var after := MovedBook(t, newSl, supportsEdit, r, book);
    var id := if Edited(t, supportsEdit, r) then t.slOrderId.value else book.nextId;
    assert id in after.stops && after.stops[id].price == newSl;
  }

  /** Nothing is created, and every stop that rested is the row's own and is cancelled; an edit takes none away. */
  predicate NoStopLeft(t: ExitTicket, supportsEdit: bool, r: MoveResponses, stops: map<nat, Stop>) {
    if Edited(t, supportsEdit, r) then stops == map[]
    else r.create.Threw? && forall id :: id in stops ==> t.slOrderId == Some(id) && r.cancel.Accepted?
  }

  /** And when no order is returned, the move added and re-priced nothing. */
  lemma NotMovedAddsNothing(t: ExitTicket, newSl: real, supportsEdit: bool, r: MoveResponses, book: Book)
    requires !Moved(t, supportsEdit, r)
    ensures var after := MovedBook(t, newSl, supportsEdit, r, book);
      forall id :: id in after.stops ==> id in book.stops && after.stops[id] == book.stops[id]
  {
  }

  /**
   Exactly when no stop rests after a move: nothing was created, and every stop that rested was
   the row's own, cancelled without a replacement. A row without a stop order number takes none
   away, so then none rested before.
   */
  lemma LeftWithoutStopIff(t: ExitTicket, newSl: real, supportsEdit: bool, r: MoveResponses, book: Book)
    ensures MovedBook(t, newSl, supportsEdit, r, book).stops == map[] <==> NoStopLeft(t, supportsEdit, r, book.stops)
    ensures t.slOrderId.None? ==>
      (NoStopLeft(t, supportsEdit, r, book.stops) <==> book.stops == map[] && r.create.Threw?)
    ensures t.slOrderId.Some? && book.stops.Keys == {t.slOrderId.value} ==>
      (NoStopLeft(t, supportsEdit, r, book.stops) <==>
       !(supportsEdit && r.edit.Accepted?) && r.cancel.Accepted? && r.create.Threw?)
  {
    var after := MovedBook(t, newSl, supportsEdit, r, book);
    if Edited(t, supportsEdit, r) {
      assert after.stops.Keys == book.stops.Keys;
    } else if r.create.Accepted? {
      assert book.nextId in after.stops;
    } else {
      assert forall id :: id in after.stops <==> id in book.stops && !(t.slOrderId == Some(id) && r.cancel.Accepted?);
    }
    OnlyStop(t, book);
  }

  lemma OnlyStop(t: ExitTicket, book: Book)
    ensures t.slOrderId.Some? && book.stops.Keys == {t.slOrderId.value} ==>
      t.slOrderId.value in book.stops && forall id :: id in book.stops ==> t.slOrderId == Some(id)
  {
    assert forall id :: id in book.stops <==> id in book.stops.Keys;
  }

  // ---- Executing an exit ----

  datatype ExitResponses = ExitResponses(close: Response, move: MoveResponses)

  datatype TicketUpdates = TicketUpdates(remainingSize: real, trailingActive: Option<bool>,
                                         currentSlPrice: Option<real>)

  datatype ExitResult = ExitResult(
    success: bool,
    slMoved: bool,
    newState: Option<TicketState>,
    ticketUpdates: Option<TicketUpdates>)

  function ReduceRequest(t: ExitTicket, closeSize: real): Request {
    CreateOrder(CloseSide(t.direction), closeSize, Market, None, None, true)
  }

  function ExitCalls(t: ExitTicket, action: ExitAction, supportsEdit: bool, r: ExitResponses, at: int): seq<Call> {
    if action.kind == NoAction then []
    else
      [Call(ReduceRequest(t, action.closeSize), r.close, at)]
      + if r.close.Accepted? && action.kind == TakeProfit1
        then MoveCalls(t, t.entryPrice, supportsEdit, r.move, at) else []
  }

  function ExitOutcome(t: ExitTicket, action: ExitAction, supportsEdit: bool, r: ExitResponses): ExitResult {
    if action.kind == NoAction then ExitResult(true, false, None, None)
    else if r.close.Threw? then ExitResult(false, false, None, None)
    else
      var remaining := t.remainingSize - action.closeSize;
      if action.kind == TakeProfit1
      then ExitResult(true, Moved(t, supportsEdit, r.move), Some(TP1_HIT),
                      Some(TicketUpdates(remaining, Some(true), Some(t.entryPrice))))
      else ExitResult(true, false, NewState(action.kind), Some(TicketUpdates(remaining, None, None)))
  }

  /** An exit succeeds unless its close is rejected; it reports the rung reached, and whether the stop was moved. */
  lemma OutcomeIff(t: ExitTicket, action: ExitAction, supportsEdit: bool, r: ExitResponses)
    ensures var o := ExitOutcome(t, action, supportsEdit, r);
      && (o.success <==> action.kind == NoAction || r.close.Accepted?)
      && (o.slMoved <==> action.kind == TakeProfit1 && r.close.Accepted? && Moved(t, supportsEdit, r.move))
      && (o.newState.Some? <==> action.kind != NoAction && r.close.Accepted?)
      && (o.newState.Some? ==>
            && Rung(o.newState.value) == (match action.kind case TakeProfit1 => 1 case TakeProfit2 => 2 case _ => 3)
            && o.ticketUpdates.Some? && o.ticketUpdates.value.remainingSize == t.remainingSize - action.closeSize)
  {
  }

  /** Every order of an exit is on the closing side and can only reduce the position. */
  lemma ExitsOnlyReduce(t: ExitTicket, action: ExitAction, supportsEdit: bool, r: ExitResponses, at: int)
    ensures forall call :: call in ExitCalls(t, action, supportsEdit, r, at) && call.request.CreateOrder? ==>
      call.request.reduceOnly && call.request.side == (if t.direction == LONG then SELL else BUY)
  {
  }

  method ProcessExit(adapter: ExchangeAdapter, t: ExitTicket, action: ExitAction, supportsEditOrder: Option<bool>)
    returns (result: ExitResult, ghost r: ExitResponses)
    modifies adapter
    ensures Made(adapter, ExitCalls(t, action, supportsEditOrder != Some(false), r, old(adapter.lastReading)))
    ensures result == ExitOutcome(t, action, supportsEditOrder != Some(false), r)
  {
    hide Effect, Replay, MoveCalls;
    var supportsEdit := if supportsEditOrder.Some? then supportsEditOrder.value else true;
    r := ExitResponses(Threw, MoveResponses(Threw, Threw, Threw));
    ghost var at := adapter.lastReading;
    if action.kind == NoAction {
      NothingReplayed(adapter.book);
      return ExitResult(true, false, None, None), r;
    }
    var request := ReduceRequest(t, action.closeSize);
    var response := adapter.Send(request);
    OneMore(old(adapter.book), [], Call(request, response, at));
    r := r.(close := response);
    assert [Call(request, response, at)] + [] == [Call(request, response, at)];
    if response.Threw? {
      return ExitResult(false, false, None, None), r;
    }
    var newRemaining := t.remainingSize - action.closeSize;
    var newState := NewState(action.kind);
    if action.kind == TakeProfit1 {
      var moved;
      ghost var move;
      moved, move := MoveSl(adapter, t, t.entryPrice, supportsEdit);
      r := r.(move := move);
      ReplayAppend(
        old(adapter.book), [Call(request, response, at)], MoveCalls(t, t.entryPrice, supportsEdit, move, at));
      return ExitResult(true, moved, newState, Some(TicketUpdates(newRemaining, Some(true), Some(t.entryPrice)))), r;
    }
    return ExitResult(true, false, newState, Some(TicketUpdates(newRemaining, None, None))), r;
  }

  // ---- A ticket's whole life ----

  /** One check at a price and time, with what the exchange answers. */
  datatype Event = Event(price: real, now: int, timeframe: Option<Timeframe>, responses: ExitResponses, at: int)

  function Persisted(t: ExitTicket, result: ExitResult): ExitTicket {
    if result.ticketUpdates.None? || result.newState.None? then t
    else
      var u := result.ticketUpdates.value;
      t.(state := result.newState.value, remainingSize := u.remainingSize,
         trailingActive := if u.trailingActive.Some? then u.trailingActive.value else t.trailingActive,
         currentSlPrice := if u.currentSlPrice.Some? then u.currentSlPrice else t.currentSlPrice)
  }

  function ActionAt(t: ExitTicket, e: Event): ExitAction {
    CheckExit(t, e.price, e.now, e.timeframe)
  }

  function Tick(t: ExitTicket, supportsEdit: bool, e: Event): ExitTicket {
    Persisted(t, ExitOutcome(t, ActionAt(t, e), supportsEdit, e.responses))
  }

  function BookAfter(t: ExitTicket, supportsEdit: bool, e: Event, book: Book): Book {
    Replay(book, ExitCalls(t, ActionAt(t, e), supportsEdit, e.responses, e.at))
  }

  /** Size closed by an event: that of an accepted close. */
  function ClosedAt(t: ExitTicket, e: Event): real {
    if ActionAt(t, e).kind != NoAction && e.responses.close.Accepted? then ActionAt(t, e).closeSize else 0.0
  }

  function Run(t: ExitTicket, supportsEdit: bool, events: seq<Event>): ExitTicket
    decreases |events|
  {
    if events == [] then t else Run(Tick(t, supportsEdit, events[0]), supportsEdit, events[1..])
  }

  function RunBook(t: ExitTicket, supportsEdit: bool, events: seq<Event>, book: Book): Book
    decreases |events|
  {
    if events == [] then book
    else
      RunBook(Tick(t, supportsEdit, events[0]), supportsEdit, events[1..],
              BookAfter(t, supportsEdit, events[0], book))
  }

  function RunClosed(t: ExitTicket, supportsEdit: bool, events: seq<Event>): real
    decreases |events|
  {
    if events == [] then 0.0
    else ClosedAt(t, events[0]) + RunClosed(Tick(t, supportsEdit, events[0]), supportsEdit, events[1..])
  }

  function RunExits(t: ExitTicket, supportsEdit: bool, events: seq<Event>): nat
    decreases |events|
  {
    if events == [] then 0
    else (if Tick(t, supportsEdit, events[0]).state != t.state then 1 else 0)
         + RunExits(Tick(t, supportsEdit, events[0]), supportsEdit, events[1..])
  }

  /** What remains open on each rung: all, a half, a quarter, nothing. */
  function RemainingOn(state: TicketState, size: real): real {
    match state
    case INITIAL => size
    case TP1_HIT => size / 2.0
    case TP2_HIT => size / 4.0
    case CLOSED => 0.0
  }

  ghost predicate OnLadder(t: ExitTicket) {
    t.remainingSize == RemainingOn(t.state, t.size)
  }

  /** One event: an allowed transition down the ladder, or nothing at all. */
  lemma TickOnLadder(t: ExitTicket, supportsEdit: bool, e: Event)
    requires OnLadder(t)
    ensures var t' := Tick(t, supportsEdit, e);
      && OnLadder(t') && t'.size == t.size && t'.direction == t.direction
      && (t'.state != t.state ==> CanTransition(t.state, t'.state) && Rung(t.state) < Rung(t'.state))
      && (t'.state == t.state ==> t' == t)
      && t.remainingSize == ClosedAt(t, e) + t'.remainingSize
  {
  }

  /** The book after an event: the position reduced, then for the first target the stop moved. */
  function ExitedBook(t: ExitTicket, supportsEdit: bool, e: Event, book: Book): Book {
    var action := ActionAt(t, e);
    if action.kind == NoAction || e.responses.close.Threw? then book
    else
      var reduced := book.(position := ReducedBy(book.position, CloseSide(t.direction), action.closeSize));
      if action.kind == TakeProfit1
      then MovedBook(t, t.entryPrice, supportsEdit, e.responses.move, reduced)
      else reduced
  }

  lemma BookAfterIs(t: ExitTicket, supportsEdit: bool, e: Event, book: Book)
    ensures BookAfter(t, supportsEdit, e, book) == ExitedBook(t, supportsEdit, e, book)
  {
    hide Replay, MoveCalls, MovedBook, CheckExit, ReducedBy;
    var action := ActionAt(t, e);
    NothingReplayed(book);
    if action.kind != NoAction {
      var close := Call(ReduceRequest(t, action.closeSize), e.responses.close, e.at);
      OneMore(book, [], close);
      var moves := if e.responses.close.Accepted? && action.kind == TakeProfit1
                   then MoveCalls(t, t.entryPrice, supportsEdit, e.responses.move, e.at) else [];
      ReplayAppend(book, [close], moves);
      NothingReplayed(Replay(book, [close]));
      MoveSlEffect(t, t.entryPrice, supportsEdit, e.responses.move, e.at, Replay(book, [close]));
    }
  }

  /** The exchange's position follows the remaining size. */
  lemma TickKeepsPosition(t: ExitTicket, supportsEdit: bool, e: Event, book: Book)
    requires OnLadder(t) && t.size > 0.0
    requires book.position == Signed(EntrySide(t.direction), t.remainingSize)
    ensures BookAfter(t, supportsEdit, e, book).position
            == Signed(EntrySide(t.direction), Tick(t, supportsEdit, e).remainingSize)
  {
    hide BookAfter;
    BookAfterIs(t, supportsEdit, e, book);
    TickOnLadder(t, supportsEdit, e);
    assert 0.0 <= ActionAt(t, e).closeSize <= t.remainingSize;
  }

  /**
   Over any prices, times, timeframes and failures: closed plus remaining is the whole size,
   the remaining size is the rung's, and the position on the exchange equals it.
   */
  lemma {:induction false} Ladder(t: ExitTicket, supportsEdit: bool, events: seq<Event>, book: Book)
    requires OnLadder(t) && t.size > 0.0
    requires book.position == Signed(EntrySide(t.direction), t.remainingSize)
    ensures var t' := Run(t, supportsEdit, events);
      && t'.remainingSize == RemainingOn(t'.state, t.size)
      && RunClosed(t, supportsEdit, events) + t'.remainingSize == t.remainingSize
      && RunBook(t, supportsEdit, events, book).position == Signed(EntrySide(t.direction), t'.remainingSize)
    decreases |events|
  {
    hide Tick, BookAfter, ClosedAt, Signed;
    if events != [] {
      TickOnLadder(t, supportsEdit, events[0]);
      TickKeepsPosition(t, supportsEdit, events[0], book);
      Ladder(Tick(t, supportsEdit, events[0]), supportsEdit, events[1..], BookAfter(t, supportsEdit, events[0], book));
    }
  }

  /** At most three exits succeed, however many events there are. */
  lemma {:induction false} AtMostThreeExits(t: ExitTicket, supportsEdit: bool, events: seq<Event>)
    requires OnLadder(t)
    ensures RunExits(t, supportsEdit, events) <= Rung(Run(t, supportsEdit, events).state) - Rung(t.state) <= 3
    decreases |events|
  {
    hide Tick;
    if events != [] {
      TickOnLadder(t, supportsEdit, events[0]);
      AtMostThreeExits(Tick(t, supportsEdit, events[0]), supportsEdit, events[1..]);
    }
  }

  /**
   What an event stores: the first target turns trailing on and puts the stored stop at the
   entry price, whether or not the stop was moved; every other exit leaves both alone.
   */
  lemma StoredByTick(t: ExitTicket, supportsEdit: bool, e: Event)
    ensures var t' := Tick(t, supportsEdit, e);
      && (t.state == INITIAL && t'.state == TP1_HIT ==> t'.trailingActive && t'.currentSlPrice == Some(t.entryPrice))
      && (!(t.state == INITIAL && t'.state == TP1_HIT) ==>
            t'.trailingActive == t.trailingActive && t'.currentSlPrice == t.currentSlPrice)
      && t' == t.(state := t'.state, remainingSize := t'.remainingSize,
                  trailingActive := t'.trailingActive, currentSlPrice := t'.currentSlPrice)
  {
  }

  /** A ticket past its holding limit closes at the next event whose close order is accepted, on any timeframe. */
  lemma TimeExitCloses(t: ExitTicket, supportsEdit: bool, e: Event)
    requires t.state != CLOSED && OnLadder(t)
    ensures Tick(t, supportsEdit, e).state == CLOSED <==>
      e.now - t.openedAt > 216000000 && e.responses.close.Accepted?
    ensures e.now - t.openedAt <= 216000000 && e.timeframe != None && e.timeframe != Some(M5) ==>
      Tick(t, supportsEdit, e) == t && ExitCalls(t, ActionAt(t, e), supportsEdit, e.responses, e.at) == []
  {
  }

  /**
   The first take-profit reports success even when no stop rests afterwards, for any row and
   book: exactly when its close was accepted and its move left no stop. Where only the row's
   stop rested, that means it was cancelled and the create rejected; with no stop order number
   in the row, that none rested before and the create was rejected.
   */
  lemma SuccessWithoutStopIff(t: ExitTicket, supportsEdit: bool, e: Event, book: Book)
    requires ActionAt(t, e).kind == TakeProfit1
    ensures var (r, after) := (e.responses, BookAfter(t, supportsEdit, e, book));
      var lost := ExitOutcome(t, ActionAt(t, e), supportsEdit, r).success && after.stops == map[];
      && (lost <==> r.close.Accepted? && NoStopLeft(t, supportsEdit, r.move, book.stops))
      && (t.slOrderId.None? ==> (lost <==> r.close.Accepted? && book.stops == map[] && r.move.create.Threw?))
      && (t.slOrderId.Some? && book.stops.Keys == {t.slOrderId.value} ==>
            (lost <==> r.close.Accepted? && !(supportsEdit && r.move.edit.Accepted?)
                       && r.move.cancel.Accepted? && r.move.create.Threw?))
  {
    hide BookAfter, MovedBook, CheckExit, ReducedBy;
    var action := ActionAt(t, e);
    BookAfterIs(t, supportsEdit, e, book);
    var reduced := book.(position := ReducedBy(book.position, CloseSide(t.direction), action.closeSize));
    LeftWithoutStopIff(t, t.entryPrice, supportsEdit, e.responses.move, reduced);
  }
}
