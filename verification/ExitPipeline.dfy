/**
 What the daemon does with a ticket on each candle: an exit check and, on the hourly candle,
 a trailing update, both from the row it has just read. It passes no stop order number with
 the row, and only logs or drops the two results.
 */
module ExitPipeline {
  import opened Core
  import opened Venue
  import opened Exits
  import opened Trailing

  /** One candle: the row as read, the exit check's event and what the exchange answers to a trailing move. */
  datatype CandleStep = CandleStep(row: ExitTicket, event: Event, trailing: MoveResponses)

  /** The trailing stop moves on hourly candles only. */
  function TrailingMove(step: CandleStep): Option<TrailingUpdate> {
    if step.event.timeframe == Some(H1) then UpdateAt(step.row, step.event.price) else None
  }

  function StepBook(supportsEdit: bool, step: CandleStep, book: Book): Book {
    var exited := BookAfter(step.row, supportsEdit, step.event, book);
    match TrailingMove(step)
    case None => exited
    case Some(u) => MovedBook(step.row, u.newTrailingPrice, supportsEdit, step.trailing, exited)
  }

  /** How many new stop orders the exchange accepted during a candle. */
  function CreatesAccepted(step: CandleStep): nat {
    (if ActionAt(step.row, step.event).kind == TakeProfit1 && step.event.responses.close.Accepted?
        && step.event.responses.move.create.Accepted? then 1 else 0)
    + (if TrailingMove(step).Some? && step.trailing.create.Accepted? then 1 else 0)
  }

  function PipelineBook(supportsEdit: bool, steps: seq<CandleStep>, book: Book): Book
    decreases |steps|
  {
    if steps == [] then book else PipelineBook(supportsEdit, steps[1..], StepBook(supportsEdit, steps[0], book))
  }

  function AllCreatesAccepted(steps: seq<CandleStep>): nat
    decreases |steps|
  {
    if steps == [] then 0 else CreatesAccepted(steps[0]) + AllCreatesAccepted(steps[1..])
  }

  ghost predicate FreshIds(book: Book) {
    forall id :: id in book.stops ==> id < book.nextId
  }

  /** Every stop of the one book rests unchanged in the other. */
  ghost predicate StopsKept(before: Book, after: Book) {
    forall id :: id in before.stops ==> id in after.stops && after.stops[id] == before.stops[id]
  }

  /** Without a stop order number a move neither edits nor cancels: it adds a stop if its create is accepted. */
  lemma MoveOnlyAdds(t: ExitTicket, newSl: real, supportsEdit: bool, r: MoveResponses, book: Book)
    requires t.slOrderId.None? && FreshIds(book)
    ensures var after := MovedBook(t, newSl, supportsEdit, r, book);
      && FreshIds(after) && StopsKept(book, after)
      && |after.stops| == |book.stops| + if r.create.Accepted? then 1 else 0
  {
    if r.create.Accepted? {
      var after := MovedBook(t, newSl, supportsEdit, r, book);
      assert book.nextId !in book.stops;
      assert after.stops.Keys == book.stops.Keys + {book.nextId};
      assert |after.stops.Keys| == |after.stops| && |book.stops.Keys| == |book.stops|;
    }
  }

  lemma StepOnlyAdds(supportsEdit: bool, step: CandleStep, book: Book)
    requires step.row.slOrderId.None? && FreshIds(book)
    ensures var after := StepBook(supportsEdit, step, book);
      && FreshIds(after) && StopsKept(book, after)
      && |after.stops| == |book.stops| + CreatesAccepted(step)
  {
    hide BookAfter, MovedBook, UpdateAt, ReducedBy, CheckExit;
    var t, e := step.row, step.event;
    BookAfterIs(t, supportsEdit, e, book);
    var reduced := book.(position := ReducedBy(book.position, CloseSide(t.direction), ActionAt(t, e).closeSize));
    MoveOnlyAdds(t, t.entryPrice, supportsEdit, e.responses.move, reduced);
    var u := TrailingMove(step);
    if u.Some? {
      MoveOnlyAdds(t, u.value.newTrailingPrice, supportsEdit, step.trailing, BookAfter(t, supportsEdit, e, book));
    }
  }

  /**
   A candle moves the stop at most once: targets are taken on the 5M candle only, and the stop
   trails on the hourly one only, where within sixty hours nothing else happens.
   */
  lemma OneMovePerCandle(supportsEdit: bool, step: CandleStep, book: Book)
    requires step.event.timeframe.Some?
    ensures CreatesAccepted(step) <= 1
    ensures step.event.timeframe != Some(H1) ==>
      StepBook(supportsEdit, step, book) == BookAfter(step.row, supportsEdit, step.event, book)
    ensures step.event.timeframe == Some(H1) && step.event.now - step.row.openedAt <= 216000000 ==>
      StepBook(supportsEdit, step, book)
      == match UpdateAt(step.row, step.event.price)
         case None => book
         case Some(u) => MovedBook(step.row, u.newTrailingPrice, supportsEdit, step.trailing, book)
  {
    hide BookAfter, MovedBook, UpdateAt;
    BookAfterIs(step.row, supportsEdit, step.event, book);
  }

  /**
   Over any candles, rows and failures no resting stop is ever removed or re-priced, and their
   number grows by exactly the accepted stop orders: each accepted move leaves the old stop behind.
   */
  lemma {:induction false} StopsPileUp(supportsEdit: bool, steps: seq<CandleStep>, book: Book)
    requires FreshIds(book) && forall i :: 0 <= i < |steps| ==> steps[i].row.slOrderId.None?
    ensures var after := PipelineBook(supportsEdit, steps, book);
      StopsKept(book, after) && |after.stops| == |book.stops| + AllCreatesAccepted(steps)
    decreases |steps|
  {
    if steps != [] {
      hide StepBook, CreatesAccepted;
      StepOnlyAdds(supportsEdit, steps[0], book);
      StopsPileUp(supportsEdit, steps[1..], StepBook(supportsEdit, steps[0], book));
    }
  }
}
