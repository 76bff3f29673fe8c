/**
 The entry protocol against an exchange that may reject any request: mode and spread guards,
 bracket or plain entry, slippage check, stop registration with retries, emergency close.
 */
module Executor {
  import opened Core
  import opened Venue

  const SL_MAX_RETRIES := 3
  const SL_TIMEOUT_MS := 3000

  datatype ExecutionMode = Analysis | Alert | Live

  datatype SpreadCheck = SpreadCheck(bid: real, ask: real, maxSpreadPct: real)

  datatype EntryParams = EntryParams(
    mode: ExecutionMode,
    direction: Direction,
    entryPrice: real,
    slPrice: real,
    size: real,
    leverage: int,
    maxSlippagePct: real,
    spreadCheck: Option<SpreadCheck>,
    supportsOneStepOrder: Option<bool>)

  datatype OrderType = ENTRY | SL | PANIC_CLOSE

  datatype OrderRecord = OrderRecord(
    orderType: OrderType,
    status: OrderStatus,
    side: OrderSide,
    size: real,
    price: Option<real>,
    filledPrice: Option<real>,
    slippage: Option<real>)

  datatype ThrownError = ExecutionModeError | ZeroMidPrice | SetLeverageFailed | ZeroExpectedPrice

  datatype AbortReason = SpreadTooWide | EntryOrderFailed | SlippageExceeded | SlTimedOut | SlRetriesExhausted

  datatype Outcome =
    | Thrown(error: ThrownError)
    | Aborted(reason: AbortReason, entryOrder: Option<OrderRecord>)
    | Entered(entryOrder: Option<OrderRecord>, slOrder: OrderRecord)

  // ---- Pure checks ----

  /** Spread relative to the mid price; none when the mid price is zero, which throws. */
  function SpreadPct(check: SpreadCheck): Option<real> {
    var mid := (check.ask + check.bid) / 2.0;
    if mid == 0.0 then None else Some((check.ask - check.bid) / mid)
  }

  function SlippagePct(expectedPrice: real, filledPrice: real): Option<real> {
    if expectedPrice == 0.0 then None else Some(Abs(filledPrice - expectedPrice) / expectedPrice)
  }

  // ---- Requests ----

  function BracketRequest(p: EntryParams): Request {
    CreateOrder(EntrySide(p.direction), p.size, Market, None, Some(p.slPrice), false)
  }

  function PlainRequest(p: EntryParams): Request {
    CreateOrder(EntrySide(p.direction), p.size, Market, None, None, false)
  }

  function StopRequest(p: EntryParams): Request {
    CreateOrder(CloseSide(p.direction), p.size, StopMarket, Some(p.slPrice), None, true)
  }

  function CloseRequest(p: EntryParams): Request {
    CreateOrder(CloseSide(p.direction), p.size, Market, None, None, true)
  }

  // ---- Order records ----

  function Recorded(orderType: OrderType, response: Response, side: OrderSide, size: real,
                    price: Option<real>, expectedPrice: Option<real>): OrderRecord {
    if response.Threw? then OrderRecord(orderType, FAILED, side, size, price, None, None)
    else OrderRecord(orderType, response.status, side, size, price, response.filledPrice,
                     if response.filledPrice.Some? && expectedPrice.Some?
                     then Some(response.filledPrice.value - expectedPrice.value) else None)
  }

  function EntryRecord(p: EntryParams, response: Response): Option<OrderRecord> {
    Some(Recorded(ENTRY, response, EntrySide(p.direction), p.size, None, Some(p.entryPrice)))
  }

  function StopRecord(p: EntryParams, status: OrderStatus): OrderRecord {
    OrderRecord(SL, status, CloseSide(p.direction), p.size, Some(p.slPrice), None, None)
  }

  // ---- The protocol as a relation ----

  /** The requests of one entry, by stage, and the clock readings after the fill and while registering the stop. */
  datatype Trace = Trace(
    leverage: seq<Call>,
    entry: seq<Call>,
    fillTime: int,
    readings: seq<int>,
    stops: seq<Call>,
    close: seq<Call>)

  function AllCalls(t: Trace): seq<Call> {
    t.leverage + t.entry + t.stops + t.close
  }

  predicate NoneAfterLeverage(t: Trace) {
    t.entry == [] && t.readings == [] && t.stops == [] && t.close == []
  }

  predicate OneCall(calls: seq<Call>, request: Request) {
    |calls| == 1 && calls[0].request == request
  }

  /** A bracket where supported, and a plain order when the bracket throws or is not supported. */
  predicate EntryStage(p: EntryParams, entry: seq<Call>) {
    if p.supportsOneStepOrder == Some(true) then
      || (OneCall(entry, BracketRequest(p)) && entry[0].response.Accepted?)
      || (|entry| == 2 && entry[0].request == BracketRequest(p) && entry[0].response.Threw?
          && entry[1].request == PlainRequest(p))
    else OneCall(entry, PlainRequest(p))
  }

  predicate Late(reading: int, fillTime: int) {
    reading - fillTime > SL_TIMEOUT_MS
  }

  /**
   A reading before each try and one after each rejected try; no request follows a late
   reading or an accepted try, and there are at most three.
   */
  predicate StopStage(p: EntryParams, stops: seq<Call>, readings: seq<int>, fillTime: int) {
    && |stops| <= SL_MAX_RETRIES
    && 2 * |stops| - 1 <= |readings| <= 2 * |stops| + 1
    && (forall i :: 0 <= i < |stops| ==>
          stops[i].request == StopRequest(p) && stops[i].at == readings[2 * i] && !Late(readings[2 * i], fillTime))
    && (forall i :: 0 <= i < |stops| - 1 ==> stops[i].response.Threw?)
    && (forall k :: 0 <= k < |readings| - 1 ==> !Late(readings[k], fillTime))
  }

  /** Registering the stop ends with an accepted try, */
  predicate StopPlaced(stops: seq<Call>, readings: seq<int>) {
    LastAccepted(stops) && |readings| == 2 * |stops| - 1
  }

  /** or with a late reading before or after a try, */
  predicate StopTimedOut(stops: seq<Call>, readings: seq<int>, fillTime: int) {
    && !LastAccepted(stops)
    && readings != [] && Late(readings[|readings| - 1], fillTime)
    && (|readings| == 2 * |stops| || (|readings| == 2 * |stops| + 1 && |stops| < SL_MAX_RETRIES))
  }

  /** or after three rejected tries, none of them late. */
  predicate StopExhausted(stops: seq<Call>, readings: seq<int>, fillTime: int) {
    && !LastAccepted(stops) && |stops| == SL_MAX_RETRIES && |readings| == 2 * SL_MAX_RETRIES
    && !Late(readings[|readings| - 1], fillTime)
  }

  predicate LastAccepted(calls: seq<Call>) {
    calls != [] && calls[|calls| - 1].response.Accepted?
  }

  function Fill(t: Trace): Call
    requires LastAccepted(t.entry)
  {
    t.entry[|t.entry| - 1]
  }

  /** After an accepted entry: the slippage check, then the stop or the close. */
  predicate AfterFill(p: EntryParams, fill: Response, bracket: bool,
                      stops: seq<Call>, close: seq<Call>, readings: seq<int>, fillTime: int, o: Outcome)
    requires fill.Accepted?
  {
    if fill.filledPrice.Some? && p.entryPrice == 0.0 then
      readings == [] && stops == [] && close == [] && o == Thrown(ZeroExpectedPrice)
    else if fill.filledPrice.Some? && SlippagePct(p.entryPrice, fill.filledPrice.value).value > p.maxSlippagePct then
      && readings == [] && stops == [] && OneCall(close, CloseRequest(p))
      && o == Aborted(SlippageExceeded, EntryRecord(p, fill))
    else if bracket then
      readings == [] && stops == [] && close == [] && o == Entered(EntryRecord(p, fill), StopRecord(p, FILLED))
    else
      && StopStage(p, stops, readings, fillTime)
      && if StopPlaced(stops, readings) then
           close == [] && o == Entered(EntryRecord(p, fill), StopRecord(p, stops[|stops| - 1].response.status))
         else
           && OneCall(close, CloseRequest(p))
           && (|| (StopTimedOut(stops, readings, fillTime) && o == Aborted(SlTimedOut, EntryRecord(p, fill)))
               || (StopExhausted(stops, readings, fillTime) && o == Aborted(SlRetriesExhausted, EntryRecord(p, fill))))
  }

  /** The guards before any request: live mode only, and a spread within its limit. */
  function Refusal(p: EntryParams): Option<Outcome> {
    if p.mode != Live then Some(Thrown(ExecutionModeError))
    else if p.spreadCheck.None? then None
    else
      match SpreadPct(p.spreadCheck.value)
      case None => Some(Thrown(ZeroMidPrice))
      case Some(spreadPct) =>
        if spreadPct > p.spreadCheck.value.maxSpreadPct then Some(Aborted(SpreadTooWide, None)) else None
  }

  /** Which requests an entry makes under the given responses, and how it ends. */
  predicate Follows(p: EntryParams, t: Trace, o: Outcome) {
    if Refusal(p).Some? then t.leverage == [] && NoneAfterLeverage(t) && o == Refusal(p).value
    else
      && OneCall(t.leverage, SetLeverage(p.leverage))
      && if t.leverage[0].response.Threw? then NoneAfterLeverage(t) && o == Thrown(SetLeverageFailed)
         else
           && EntryStage(p, t.entry)
           && if LastAccepted(t.entry) then AfterFill(p, Fill(t).response, Fill(t).request == BracketRequest(p),
                                                     t.stops, t.close, t.readings, t.fillTime, o)
              else
                && t.readings == [] && t.stops == [] && t.close == []
                && o == Aborted(EntryOrderFailed, EntryRecord(p, t.entry[|t.entry| - 1].response))
  }

  // ---- The procedure ----

  method EmergencyClose(adapter: ExchangeAdapter, p: EntryParams) returns (order: OrderRecord, ghost calls: seq<Call>)
    modifies adapter
    ensures Made(adapter, calls) && OneCall(calls, CloseRequest(p))
    ensures order == Recorded(PANIC_CLOSE, calls[0].response, CloseSide(p.direction), p.size, None, None)
    ensures adapter.readings == old(adapter.readings)
  {
    var response := adapter.Send(CloseRequest(p));
    calls := [Call(CloseRequest(p), response, adapter.lastReading)];
    ReplayPush(old(adapter.book), [], calls[0]);
    assert [] + calls == calls;
    order := Recorded(PANIC_CLOSE, response, CloseSide(p.direction), p.size, None, None);
  }

  method AttemptEntry(adapter: ExchangeAdapter, p: EntryParams)
    returns (response: Response, bracketWorked: bool, ghost calls: seq<Call>)
    modifies adapter
    ensures Made(adapter, calls) && EntryStage(p, calls) && calls != [] && response == calls[|calls| - 1].response
    ensures bracketWorked <==> calls[|calls| - 1].request == BracketRequest(p)
    ensures bracketWorked ==> response.Accepted?
    ensures adapter.readings == old(adapter.readings)
  {
    hide Effect, Replay;
    calls := [];
    bracketWorked := false;
    NothingReplayed(adapter.book);
    if p.supportsOneStepOrder == Some(true) {
      response := adapter.Send(BracketRequest(p));
      ReplayPush(old(adapter.book), calls, Call(BracketRequest(p), response, adapter.lastReading));
      calls := calls + [Call(BracketRequest(p), response, adapter.lastReading)];
      if response.Accepted? {
        bracketWorked := true;
        return;
      }
    }
    response := adapter.Send(PlainRequest(p));
    ReplayPush(old(adapter.book), calls, Call(PlainRequest(p), response, adapter.lastReading));
    calls := calls + [Call(PlainRequest(p), response, adapter.lastReading)];
  }

  /** The next readings of the adapter's clock. */
  twostate predicate Read(adapter: ExchangeAdapter, readings: seq<int>)
    reads adapter
  {
    && adapter.readings == old(adapter.readings) + |readings|
    && forall k :: 0 <= k < |readings| ==> readings[k] == adapter.clock(old(adapter.readings) + k)
  }

  method AttemptSlRegistration(adapter: ExchangeAdapter, p: EntryParams, startTime: int)
    returns (result: Option<Response>, timedOut: bool, ghost calls: seq<Call>, ghost readings: seq<int>)
    modifies adapter
    ensures Made(adapter, calls) && Read(adapter, readings) && StopStage(p, calls, readings, startTime)
    ensures if result.Some? then StopPlaced(calls, readings) && result.value == calls[|calls| - 1].response
            else if timedOut then StopTimedOut(calls, readings, startTime)
            else StopExhausted(calls, readings, startTime)
  {
    hide Effect, Replay;
    calls, readings := [], [];
    NothingReplayed(adapter.book);
    for attempt := 1 to SL_MAX_RETRIES + 1
      invariant |calls| == attempt - 1 && |readings| == 2 * |calls|
      invariant StopStage(p, calls, readings, startTime) && Made(adapter, calls) && Read(adapter, readings)
      invariant forall i :: 0 <= i < |calls| ==> calls[i].response.Threw?
      invariant forall k :: 0 <= k < |readings| ==> !Late(readings[k], startTime)
    {
      var now := adapter.Now();
      readings := readings + [now];
      if now - startTime > SL_TIMEOUT_MS {
        return None, true, calls, readings;
      }
      var response := adapter.Send(StopRequest(p));
      ReplayPush(old(adapter.book), calls, Call(StopRequest(p), response, adapter.lastReading));
      calls := calls + [Call(StopRequest(p), response, adapter.lastReading)];
      if response.Accepted? {
        return Some(response), false, calls, readings;
      }
      now := adapter.Now();
      readings := readings + [now];
      if now - startTime > SL_TIMEOUT_MS {
        return None, true, calls, readings;
      }
    }
    return None, false, calls, readings;
  }

  /** Slippage check, then stop registration; every failing path ends in an emergency close. */
  method CompleteEntry(adapter: ExchangeAdapter, p: EntryParams, entryResult: Response, bracketWorked: bool,
                       entryFillTime: int)
    returns (outcome: Outcome, ghost stops: seq<Call>, ghost close: seq<Call>, ghost readings: seq<int>)
    requires entryResult.Accepted?
    modifies adapter
    ensures Made(adapter, stops + close) && Read(adapter, readings)
    ensures AfterFill(p, entryResult, bracketWorked, stops, close, readings, entryFillTime, outcome)
  {
    hide Effect, Replay, StopStage, StopTimedOut, StopExhausted, Recorded, Abs;
    stops, close, readings := [], [], [];
    NothingReplayed(adapter.book);
    var entryOrder := EntryRecord(p, entryResult);
    if entryResult.filledPrice.Some? {
      var slippagePct := SlippagePct(p.entryPrice, entryResult.filledPrice.value);
      if slippagePct.None? {
        return Thrown(ZeroExpectedPrice), stops, close, readings;
      }
      if slippagePct.value > p.maxSlippagePct {
        var order;
        order, close := EmergencyClose(adapter, p);
        assert stops + close == close;
        return Aborted(SlippageExceeded, entryOrder), stops, close, readings;
      }
    }
    if bracketWorked {
      return Entered(entryOrder, StopRecord(p, FILLED)), stops, close, readings;
    }
    var result, timedOut;
    result, timedOut, stops, readings := AttemptSlRegistration(adapter, p, entryFillTime);
    assert stops + close == stops;
    if result.Some? {
      return Entered(entryOrder, StopRecord(p, result.value.status)), stops, close, readings;
    }
    NotPlaced(stops, readings, entryFillTime);
    var order;
    order, close := EmergencyClose(adapter, p);
    ReplayAppend(old(adapter.book), stops, close);
    return Aborted(if timedOut then SlTimedOut else SlRetriesExhausted, entryOrder), stops, close, readings;
  }

  lemma NotPlaced(stops: seq<Call>, readings: seq<int>, fillTime: int)
    ensures StopTimedOut(stops, readings, fillTime) || StopExhausted(stops, readings, fillTime) ==>
              !StopPlaced(stops, readings)
  {
  }

  lemma OneReplayed(book: Book, call: Call)
    ensures Replay(book, [call]) == Effect(book, call)
  {
    ReplayPush(book, [], call);
    assert [] + [call] == [call];
  }

  /** Leverage, then the entry order; no response when setting the leverage threw. */
  method OpenPosition(adapter: ExchangeAdapter, p: EntryParams)
    returns (response: Option<Response>, bracketWorked: bool, ghost leverage: seq<Call>, ghost entry: seq<Call>)
    modifies adapter
    ensures Made(adapter, leverage + entry) && adapter.readings == old(adapter.readings)
    ensures OneCall(leverage, SetLeverage(p.leverage))
    ensures if response.None? then leverage[0].response.Threw? && entry == []
            else
              && leverage[0].response.Accepted? && EntryStage(p, entry)
              && entry != [] && response.value == entry[|entry| - 1].response
              && (bracketWorked <==> entry[|entry| - 1].request == BracketRequest(p))
  {
    hide Effect, Replay, EntryStage, BracketRequest, PlainRequest;
    entry := [];
    var answer := adapter.Send(SetLeverage(p.leverage));
    leverage := [Call(SetLeverage(p.leverage), answer, adapter.lastReading)];
    OneReplayed(old(adapter.book), leverage[0]);
    assert leverage + entry == leverage;
    if answer.Threw? {
      return None, false, leverage, entry;
    }
    var result;
    result, bracketWorked, entry := AttemptEntry(adapter, p);
    ReplayAppend(old(adapter.book), leverage, entry);
    response := Some(result);
  }

  lemma TwoPhases(t: Trace)
    ensures AllCalls(t) == (t.leverage + t.entry) + (t.stops + t.close)
    ensures t.stops == [] && t.close == [] ==> AllCalls(t) == t.leverage + t.entry
  {
  }

  method ExecuteEntry(adapter: ExchangeAdapter, p: EntryParams) returns (outcome: Outcome, ghost trace: Trace)
    modifies adapter
    ensures Made(adapter, AllCalls(trace))
    ensures Follows(p, trace, outcome)
    ensures LastAccepted(trace.entry) ==> Read(adapter, [trace.fillTime] + trace.readings)
  {
    hide Effect, Replay, AfterFill, EntryStage, EntryRecord, Refusal, AllCalls, BracketRequest;
    trace := Trace([], [], 0, [], [], []);
    NothingReplayed(adapter.book);
    TwoPhases(trace);
    var refusal := Refusal(p);
    if refusal.Some? {
      return refusal.value, trace;
    }
    var response, bracketWorked;
    ghost var leverage, entry;
    response, bracketWorked, leverage, entry := OpenPosition(adapter, p);
    trace := Trace(leverage, entry, 0, [], [], []);
    TwoPhases(trace);
    if response.None? {
      return Thrown(SetLeverageFailed), trace;
    }
    if response.value.Threw? {
      return Aborted(EntryOrderFailed, EntryRecord(p, response.value)), trace;
    }
    var entryFillTime := adapter.Now();
    ghost var stops, close, readings;
    outcome, stops, close, readings := CompleteEntry(adapter, p, response.value, bracketWorked, entryFillTime);
    ReplayAppend(old(adapter.book), leverage + entry, stops + close);
    trace := Trace(leverage, entry, entryFillTime, readings, stops, close);
    TwoPhases(trace);
  }

  // ---- What following the protocol guarantees ----

  predicate IsOrder(call: Call) {
    call.request.CreateOrder?
  }

  /** At most six orders, and none unless mode, spread and leverage passed. */
  lemma AtMostSixOrders(p: EntryParams, t: Trace, o: Outcome)
    requires Follows(p, t, o)
    ensures |Filter(AllCalls(t), IsOrder)| <= 6
    ensures p.mode != Live ==> AllCalls(t) == []
    ensures p.spreadCheck.Some?
            && !(SpreadPct(p.spreadCheck.value).Some?
                 && SpreadPct(p.spreadCheck.value).value <= p.spreadCheck.value.maxSpreadPct)
            ==> AllCalls(t) == []
  {
    var orders := t.entry + t.stops + t.close;
    assert |orders| <= 6;
    if t.leverage == [] {
      assert AllCalls(t) == [];
    } else {
      assert AllCalls(t) == t.leverage + orders;
      FilterAppend(t.leverage, orders, IsOrder);
      assert t.leverage[1..] == [];
      FilterBound(orders);
    }
  }

  lemma {:induction false} FilterBound(calls: seq<Call>)
    ensures |Filter(calls, IsOrder)| <= |calls|
  {
    if calls != [] {
      FilterBound(calls[1..]);
    }
  }

  /** The sum of the stages' effects. */
  lemma StageByStage(book: Book, t: Trace)
    ensures Replay(book, AllCalls(t)) == Replay(Replay(Replay(Replay(book, t.leverage), t.entry), t.stops), t.close)
  {
    hide Replay;
    ReplayAppend(book, t.leverage, t.entry);
    ReplayAppend(book, t.leverage + t.entry, t.stops);
    ReplayAppend(book, t.leverage + t.entry + t.stops, t.close);
  }

  lemma LeverageHasNoEffect(p: EntryParams, t: Trace, o: Outcome, book: Book)
    requires Follows(p, t, o)
    ensures Replay(book, t.leverage) == book
  {
    hide Replay, EntryStage, AfterFill;
    NothingReplayed(book);
    if t.leverage != [] {
      OneReplayed(book, t.leverage[0]);
      assert t.leverage == [t.leverage[0]];
    }
  }

  function Opened(p: EntryParams, book: Book): Book {
    book.(position := book.position + Signed(EntrySide(p.direction), p.size))
  }

  /** The opened position with a stop of its full size at the stop price. */
  function Covered(p: EntryParams, book: Book): Book {
    WithStop(Opened(p, book), Stop(CloseSide(p.direction), p.size, p.slPrice))
  }

  /** What each request does when it is the last of its stage and those before it threw. */
  lemma LastCallDecides(book: Book, calls: seq<Call>)
    requires calls != [] && forall i :: 0 <= i < |calls| - 1 ==> calls[i].response.Threw?
    ensures Replay(book, calls) == if LastAccepted(calls) then Effect(book, calls[|calls| - 1]) else book
  {
    hide Replay, Effect;
    var rest, last := calls[..|calls| - 1], calls[|calls| - 1];
    assert calls == rest + [last];
    ThrownHaveNoEffect(book, rest);
    ReplayPush(book, rest, last);
    ThrownEffect(book, last);
  }

  lemma ThrownEffect(book: Book, call: Call)
    ensures call.response.Threw? ==> Effect(book, call) == book
  {
  }

  lemma RequestEffects(p: EntryParams, book: Book, call: Call)
    requires call.response.Accepted?
    ensures call.request == BracketRequest(p) ==> Effect(book, call) == Covered(p, book)
    ensures call.request == PlainRequest(p) ==> Effect(book, call) == Opened(p, book)
    ensures call.request == StopRequest(p) ==>
              Effect(book, call) == WithStop(book, Stop(CloseSide(p.direction), p.size, p.slPrice))
    ensures call.request == CloseRequest(p) ==>
              Effect(book, call) == book.(position := ReducedBy(book.position, CloseSide(p.direction), p.size))
  {
    hide ReducedBy;
  }

  /** An accepted entry adds the full size, and a bracket also its stop. */
  lemma EntryEffect(p: EntryParams, entry: seq<Call>, book: Book)
    requires EntryStage(p, entry)
    ensures var after := Replay(book, entry);
            if !LastAccepted(entry) then after == book
            else if entry[|entry| - 1].request == BracketRequest(p) then after == Covered(p, book)
            else after == Opened(p, book)
  {
    hide Replay, Effect, Covered, Opened, BracketRequest, PlainRequest;
    LastCallDecides(book, entry);
    if LastAccepted(entry) {
      RequestEffects(p, book, entry[|entry| - 1]);
    }
  }

  lemma StopEffect(p: EntryParams, stops: seq<Call>, readings: seq<int>, fillTime: int, book: Book)
    requires StopStage(p, stops, readings, fillTime)
    ensures Replay(book, stops) ==
      if LastAccepted(stops) then WithStop(book, Stop(CloseSide(p.direction), p.size, p.slPrice)) else book
  {
    hide Replay, Effect, WithStop, StopRequest;
    if stops == [] {
      NothingReplayed(book);
    } else {
      LastCallDecides(book, stops);
      if LastAccepted(stops) {
        RequestEffects(p, book, stops[|stops| - 1]);
      }
    }
  }

  lemma CloseEffect(p: EntryParams, close: seq<Call>, book: Book)
    requires close == [] || OneCall(close, CloseRequest(p))
    ensures Replay(book, close) ==
      if LastAccepted(close)
      then book.(position := ReducedBy(book.position, CloseSide(p.direction), p.size))
      else book
  {
    hide Replay, Effect, ReducedBy, CloseRequest;
    if close == [] {
      NothingReplayed(book);
    } else {
      LastCallDecides(book, close);
      if LastAccepted(close) {
        RequestEffects(p, book, close[0]);
      }
    }
  }

  predicate StopAccepted(p: EntryParams, t: Trace) {
    LastAccepted(t.stops) || (LastAccepted(t.entry) && Fill(t).request == BracketRequest(p))
  }

  /** The book after a whole run of the protocol, from any book. */
  lemma FinalBook(p: EntryParams, t: Trace, o: Outcome, book: Book)
    requires Follows(p, t, o)
    ensures
      var entered := if !LastAccepted(t.entry) then book
                     else if StopAccepted(p, t) then Covered(p, book) else Opened(p, book);
      Replay(book, AllCalls(t)) ==
      if LastAccepted(t.close)
      then entered.(position := ReducedBy(entered.position, CloseSide(p.direction), p.size))
      else entered
  {
    hide Replay, ReducedBy, WithStop;
    StageByStage(book, t);
    LeverageHasNoEffect(p, t, o, book);
    NothingReplayed(book);
    if t.entry == [] {
      CloseEffect(p, t.close, book);
    } else {
      EntryEffect(p, t.entry, book);
      var filled := Replay(book, t.entry);
      StopsEmptyOrStaged(p, t, o);
      StopEffect(p, t.stops, t.readings, t.fillTime, filled);
      CloseEffect(p, t.close, Replay(filled, t.stops));
    }
  }

  lemma StopsEmptyOrStaged(p: EntryParams, t: Trace, o: Outcome)
    requires Follows(p, t, o) && t.entry != []
    ensures EntryStage(p, t.entry) && StopStage(p, t.stops, t.readings, t.fillTime)
    ensures t.close == [] || OneCall(t.close, CloseRequest(p))
    ensures LastAccepted(t.stops) ==> LastAccepted(t.entry) && Fill(t).request != BracketRequest(p)
  {
  }

  /** Success means the position grew by the full size and a stop at the stop price covers all of it. */
  lemma SuccessIsCovered(p: EntryParams, t: Trace, o: Outcome, book: Book)
    requires Follows(p, t, o) && o.Entered?
    ensures Replay(book, AllCalls(t)) == Covered(p, book)
  {
    hide Replay, ReducedBy, WithStop;
    FinalBook(p, t, o, book);
  }

  /** In numbers: a long entry adds its size and a sell stop, a short one takes it off and adds a buy stop. */
  lemma SuccessInNumbers(p: EntryParams, t: Trace, o: Outcome, book: Book)
    requires Follows(p, t, o) && o.Entered?
    ensures var after := Replay(book, AllCalls(t));
      && after.position == (if p.direction == LONG then book.position + p.size else book.position - p.size)
      && after.stops == book.stops[book.nextId := Stop(if p.direction == LONG then SELL else BUY, p.size, p.slPrice)]
  {
    hide Replay, Follows;
    SuccessIsCovered(p, t, o, book);
  }

  /**
   What is recorded: every attempted entry with its side, whole size, answer and deviation from
   the expected price, a rejected one as FAILED; and on success the stop at its price.
   */
  lemma RecordsTell(p: EntryParams, t: Trace, o: Outcome)
    requires Follows(p, t, o) && t.entry != [] && !o.Thrown?
    ensures o.entryOrder.Some?
    ensures var (order, answer) := (o.entryOrder.value, t.entry[|t.entry| - 1].response);
      && order.orderType == ENTRY && order.side == (if p.direction == LONG then BUY else SELL) && order.size == p.size
      && order.status == (if answer.Accepted? then answer.status else FAILED)
      && order.filledPrice == (if answer.Accepted? then answer.filledPrice else None)
      && (if answer.Accepted? && answer.filledPrice.Some?
          then order.slippage == Some(answer.filledPrice.value - p.entryPrice) else order.slippage.None?)
    ensures o.Entered? ==>
      && o.slOrder.orderType == SL && o.slOrder.side == (if p.direction == LONG then SELL else BUY)
      && o.slOrder.size == p.size && o.slOrder.price == Some(p.slPrice)
      && o.slOrder.status == (if t.stops == [] then FILLED else t.stops[|t.stops| - 1].response.status)
    ensures (o.Aborted? && o.reason == EntryOrderFailed) <==> t.entry[|t.entry| - 1].response.Threw?
  {
    hide Abs;
  }

  /**
   Only the entry orders can add to a position. The first carries the stop exactly where the
   exchange takes both in one step, and a second one follows exactly when that was rejected.
   */
  lemma OnlyEntriesAdd(p: EntryParams, t: Trace, o: Outcome)
    requires Follows(p, t, o)
    ensures forall call :: call in t.entry ==> call.request.CreateOrder? && !call.request.reduceOnly
    ensures forall call :: call in t.stops + t.close ==> call.request.CreateOrder? && call.request.reduceOnly
    ensures t.entry != [] ==>
      && (t.entry[0].request.stopLoss == Some(p.slPrice) <==> p.supportsOneStepOrder == Some(true))
      && (|t.entry| == 2 <==> p.supportsOneStepOrder == Some(true) && t.entry[0].response.Threw?)
      && (|t.entry| == 2 ==> t.entry[1].request.stopLoss.None?)
  {
    assert forall call :: call in t.stops + t.close ==> call in t.stops || call in t.close;
  }

  /** An accepted stop request after the fill always ends in success. */
  lemma StopMeansSuccess(p: EntryParams, t: Trace, o: Outcome, k: nat)
    requires Follows(p, t, o) && k < |t.stops| && t.stops[k].response.Accepted?
    ensures o.Entered?
  {
  }

  /**
   Failure after a fill: the last request is a reduce-only close of the full size, unless the
   expected price was zero; if it is accepted, a position not opposed before is back where it was.
   */
  lemma FailureCloses(p: EntryParams, t: Trace, o: Outcome, book: Book)
    requires Follows(p, t, o) && LastAccepted(t.entry) && !o.Entered? && p.entryPrice != 0.0
    ensures t.close != [] && AllCalls(t)[|AllCalls(t)| - 1].request == CloseRequest(p)
    ensures LastAccepted(t.close) && p.size > 0.0 && Signed(EntrySide(p.direction), book.position) >= 0.0 ==>
      Replay(book, AllCalls(t)).position == book.position
  {
    hide Replay;
    FinalBook(p, t, o, book);
  }

  /**
   After an accepted emergency close the whole book is as before exactly when the entry was not
   a bracket: a bracket was aborted for its slippage, and its stop still rests on the exchange.
   */
  lemma ClosedRestoresBookIff(p: EntryParams, t: Trace, o: Outcome, book: Book)
    requires Follows(p, t, o) && LastAccepted(t.close)
    requires p.size > 0.0 && Signed(EntrySide(p.direction), book.position) >= 0.0
    ensures LastAccepted(t.entry) && !o.Entered?
    ensures Replay(book, AllCalls(t)) == book <==> Fill(t).request != BracketRequest(p)
    ensures Fill(t).request == BracketRequest(p) ==>
      && o.Aborted? && o.reason == SlippageExceeded
      && Replay(book, AllCalls(t)) == WithStop(book, Stop(CloseSide(p.direction), p.size, p.slPrice))
  {
    hide Replay;
    FinalBook(p, t, o, book);
  }

  /** The position grew and no stop came with it. */
  predicate Uncovered(before: Book, after: Book) {
    after.position != before.position && after.stops == before.stops
  }

  /**
   Exactly when an entry leaves an open position without a stop: no stop was accepted after
   the fill, and either the close call was rejected too or the zero expected price made the
   slippage check throw before any close.
   */
  lemma UncoveredIff(p: EntryParams, t: Trace, o: Outcome, book: Book)
    requires Follows(p, t, o)
    requires p.size > 0.0 && Signed(EntrySide(p.direction), book.position) >= 0.0 && book.nextId !in book.stops
    ensures Uncovered(book, Replay(book, AllCalls(t))) <==>
      LastAccepted(t.entry) && !StopAccepted(p, t)
      && ((p.entryPrice == 0.0 && Fill(t).response.filledPrice.Some?) || (t.close != [] && t.close[0].response.Threw?))
  {
    hide Replay;
    FinalBook(p, t, o, book);
    var stop := Stop(CloseSide(p.direction), p.size, p.slPrice);
    assert book.nextId in book.stops[book.nextId := stop];
  }

  lemma QuotientAbove(n: real, d: real, bound: real)
    requires d != 0.0
    ensures n / d > bound <==> if d > 0.0 then n > bound * d else n < bound * d
  {
    assert n / d * d == n;
    if d > 0.0 {
      assert (n / d > bound) ==> (n / d - bound) * d > 0.0;
      assert !(n / d > bound) ==> (bound - n / d) * d >= 0.0;
    } else {
      assert (n / d > bound) ==> (n / d - bound) * -d > 0.0;
      assert !(n / d > bound) ==> (bound - n / d) * -d >= 0.0;
    }
  }

  /**
   An accepted entry is aborted for its slippage exactly when a fill price was reported that
   is further from the expected price, up or down, than the allowed share of that price.
   */
  lemma SlippageAbortsIff(p: EntryParams, t: Trace, o: Outcome)
    requires Follows(p, t, o) && LastAccepted(t.entry) && p.entryPrice > 0.0
    ensures o.Aborted? && o.reason == SlippageExceeded <==>
      && Fill(t).response.filledPrice.Some?
      && var price := Fill(t).response.filledPrice.value;
         || price > p.entryPrice * (1.0 + p.maxSlippagePct)
         || price < p.entryPrice * (1.0 - p.maxSlippagePct)
  {
    if Fill(t).response.filledPrice.Some? {
      var price := Fill(t).response.filledPrice.value;
      QuotientAbove(Abs(price - p.entryPrice), p.entryPrice, p.maxSlippagePct);
      Around(p.entryPrice, p.maxSlippagePct);
    }
  }

  lemma Around(price: real, share: real)
    ensures price * (1.0 + share) == price + share * price && price * (1.0 - share) == price - share * price
  {
  }

  /**
   A live entry is refused for its spread exactly when ask less bid is more than the allowed
   share of their mean, which then sends nothing; when they add up to zero it throws.
   */
  lemma SpreadRefusesIff(p: EntryParams, t: Trace, o: Outcome)
    requires Follows(p, t, o) && p.mode == Live && p.spreadCheck.Some?
    ensures var (bid, ask, max) := (p.spreadCheck.value.bid, p.spreadCheck.value.ask, p.spreadCheck.value.maxSpreadPct);
      && (bid + ask > 0.0 ==>
            (o == Aborted(SpreadTooWide, None) <==> 2.0 * (ask - bid) > max * (bid + ask)))
      && (o == Thrown(ZeroMidPrice) <==> bid + ask == 0.0)
      && (o == Aborted(SpreadTooWide, None) || o == Thrown(ZeroMidPrice) ==> AllCalls(t) == [])
  {
    var (bid, ask, max) := (p.spreadCheck.value.bid, p.spreadCheck.value.ask, p.spreadCheck.value.maxSpreadPct);
    if bid + ask > 0.0 {
      QuotientAbove(ask - bid, (ask + bid) / 2.0, max);
    }
  }

  /** The throw after a fill happens exactly for a zero expected price and a reported fill price. */
  lemma ThrowsAfterFillIff(p: EntryParams, t: Trace, o: Outcome)
    requires Follows(p, t, o) && LastAccepted(t.entry)
    ensures o.Thrown? <==> p.entryPrice == 0.0 && Fill(t).response.filledPrice.Some?
    ensures o.Thrown? ==> t.close == [] && t.stops == []
  {
  }

  /** No try at registering the stop begins more than three seconds after the fill. */
  lemma StopTriesAreTimely(p: EntryParams, t: Trace, o: Outcome)
    requires Follows(p, t, o)
    ensures |t.stops| <= 3
    ensures forall call :: call in t.stops ==> call.at - t.fillTime <= 3000 && call.request == StopRequest(p)
  {
  }

  /**
   The entry gives up on the stop for being late exactly when some reading is more than three
   seconds after the fill, and for lack of tries exactly when three were rejected and none was late.
   */
  lemma GivesUpIff(p: EntryParams, t: Trace, o: Outcome)
    requires Follows(p, t, o)
    ensures (o.Aborted? && o.reason == SlTimedOut) <==>
            exists k :: 0 <= k < |t.readings| && t.readings[k] - t.fillTime > 3000
    ensures (o.Aborted? && o.reason == SlRetriesExhausted) <==>
            && |t.stops| == 3 && (forall call :: call in t.stops ==> call.response.Threw?)
            && forall k :: 0 <= k < |t.readings| ==> t.readings[k] - t.fillTime <= 3000
  {
    if LastAccepted(t.stops) {
      assert t.stops[|t.stops| - 1] in t.stops;
    }
    if o.Aborted? && o.reason == SlTimedOut {
      assert t.readings[|t.readings| - 1] - t.fillTime > 3000;
    }
  }
}
