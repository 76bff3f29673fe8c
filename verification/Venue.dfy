/**
 A failing exchange: every request is accepted or throws, as an oracle decides. A throw has
 no effect; an accepted market order is filled at once.
 */
module Venue {
  import opened Core

  datatype OrderKind = Market | StopMarket

  datatype Request =
    | SetLeverage(leverage: int)
    | CreateOrder(side: OrderSide, size: real, kind: OrderKind, price: Option<real>,
                  stopLoss: Option<real>, reduceOnly: bool)
    | EditOrder(orderId: nat, newPrice: real)
    | CancelOrder(orderId: nat)

  datatype Response = Threw | Accepted(status: OrderStatus, filledPrice: Option<real>)

  /** A request, its response, and the last clock reading before it. */
  datatype Call = Call(request: Request, response: Response, at: int)

  datatype Stop = Stop(side: OrderSide, size: real, price: real)

  /** The signed position and the stop orders resting for one symbol. */
  datatype Book = Book(position: real, stops: map<nat, Stop>, nextId: nat)

  function Opposite(side: OrderSide): OrderSide {
    if side == BUY then SELL else BUY
  }

  function Signed(side: OrderSide, size: real): real {
    if side == BUY then size else -size
  }

  /** A reduce-only order moves the position towards zero and not past it. */
  function ReducedBy(position: real, side: OrderSide, size: real): real {
    if side == SELL && position > 0.0 then Max(position - size, 0.0)
    else if side == BUY && position < 0.0 then Min(position + size, 0.0)
    else position
  }

  /** It only ever takes: the part of the size that is there, and nothing on the position's own side. */
  lemma ReduceOnlyLaw(position: real, side: OrderSide, size: real)
    requires size >= 0.0
    ensures var after := ReducedBy(position, side, size);
      && (side == SELL && position <= 0.0 ==> after == position)
      && (side == BUY && position >= 0.0 ==> after == position)
      && (side == SELL && 0.0 < position <= size ==> after == 0.0)
      && (side == SELL && position > size ==> after == position - size)
      && (side == BUY && -size <= position < 0.0 ==> after == 0.0)
      && (side == BUY && position < -size ==> after == position + size)
  {
  }

  function WithStop(book: Book, stop: Stop): Book {
    book.(stops := book.stops[book.nextId := stop], nextId := book.nextId + 1)
  }

  function Effect(book: Book, call: Call): Book {
    if call.response.Threw? then book
    else match call.request
      case SetLeverage(_) => book
      case CreateOrder(side, size, StopMarket, price, _, _) =>
        if price.Some? then WithStop(book, Stop(side, size, price.value)) else book
      case CreateOrder(side, size, Market, _, stopLoss, reduceOnly) =>
        if reduceOnly then book.(position := ReducedBy(book.position, side, size))
        else
          var filled := book.(position := book.position + Signed(side, size));
          if stopLoss.Some? then WithStop(filled, Stop(Opposite(side), size, stopLoss.value)) else filled
      case EditOrder(id, newPrice) =>
        if id in book.stops then book.(stops := book.stops[id := book.stops[id].(price := newPrice)]) else book
      case CancelOrder(id) => book.(stops := book.stops - {id})
  }

  function Replay(book: Book, calls: seq<Call>): Book {
    if calls == [] then book else Effect(Replay(book, calls[..|calls| - 1]), calls[|calls| - 1])
  }

  lemma NothingReplayed(book: Book)
    ensures Replay(book, []) == book
  {
  }

  lemma ReplayPush(book: Book, calls: seq<Call>, call: Call)
    ensures Replay(book, calls + [call]) == Effect(Replay(book, calls), call)
  {
    assert (calls + [call])[..|calls|] == calls;
  }

  lemma {:induction false} ReplayAppend(book: Book, a: seq<Call>, b: seq<Call>)
    ensures Replay(book, a + b) == Replay(Replay(book, a), b)
  {
    hide Effect;
    if b == [] {
      assert a + b == a;
    } else {
      var rest, last := b[..|b| - 1], b[|b| - 1];
      assert a + b == (a + rest) + [last] && b == rest + [last];
      hide Replay;
      ReplayAppend(book, a, rest);
      ReplayPush(book, a + rest, last);
      ReplayPush(Replay(book, a), rest, last);
    }
  }

  lemma {:induction false} ThrownHaveNoEffect(book: Book, calls: seq<Call>)
    requires forall i :: 0 <= i < |calls| ==> calls[i].response.Threw?
    ensures Replay(book, calls) == book
  {
    if calls != [] {
      ThrownHaveNoEffect(book, calls[..|calls| - 1]);
    }
  }

  class ExchangeAdapter {
    /** What the exchange answers to its nth request, and the nth reading of the clock. */
    const respond: nat -> Response
    const clock: nat -> int
    var calls: seq<Call>
    var book: Book
    var readings: nat
    var lastReading: int

    constructor (respond: nat -> Response, clock: nat -> int, book: Book)
      ensures this.respond == respond && this.clock == clock && this.book == book
      ensures calls == [] && readings == 0
    {
      this.respond, this.clock, this.book := respond, clock, book;
      calls, readings, lastReading := [], 0, 0;
    }

    method Now() returns (time: int)
      modifies `readings, `lastReading
      ensures time == lastReading == clock(old(readings)) && readings == old(readings) + 1
    {
      time := clock(readings);
      lastReading := time;
      readings := readings + 1;
    }

    method Send(request: Request) returns (response: Response)
      modifies `calls, `book
      ensures response == respond(|old(calls)|)
      ensures calls == old(calls) + [Call(request, response, lastReading)]
      ensures book == Effect(old(book), Call(request, response, lastReading))
    {
      response := respond(|calls|);
      calls := calls + [Call(request, response, lastReading)];
      book := Effect(book, Call(request, response, lastReading));
    }
  }

  /** The caller-visible effect of some calls on the adapter. */
  twostate predicate Made(adapter: ExchangeAdapter, calls: seq<Call>)
    reads adapter
  {
    adapter.calls == old(adapter.calls) + calls && adapter.book == Replay(old(adapter.book), calls)
  }
}
