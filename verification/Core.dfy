/**
 The vocabulary every component shares: order directions, order statuses and a few
 helpers over sequences. Prices, sizes and balances are exact reals.
 */
module Core {
  datatype Option<+T> = None | Some(value: T)

  datatype Direction = LONG | SHORT

  datatype OrderSide = BUY | SELL

  datatype OrderStatus = PENDING | FILLED | PARTIALLY_FILLED | CANCELLED | FAILED

  datatype TradeResult = WIN | LOSS | TIME_EXIT

  datatype Timeframe = D1 | H1 | M5 | M1

  datatype Candle = Candle(
    symbol: string,
    timeframe: Timeframe,
    openTime: int,
    open: real,
    high: real,
    low: real,
    close: real)

  /** The side that opens a position in the given direction. */
  function EntrySide(direction: Direction): OrderSide {
    if direction == LONG then BUY else SELL
  }

  /** The side that closes a position in the given direction. */
  function CloseSide(direction: Direction): OrderSide {
    if direction == LONG then SELL else BUY
  }

  /** What `size` units cost at `price`. */
  function Cost(price: real, size: real): real {
    price * size
  }

  /** Gain of `size` units held from `entry` to `exit` in the given direction. */
  function Pnl(direction: Direction, entry: real, exit: real, size: real): real {
    Cost(if direction == LONG then exit - entry else entry - exit, size)
  }

  /** The quotient. Dividing by zero gives no finite number; it reads as zero here, and no law speaks of it. */
  function Ratio(x: real, y: real): real {
    if y == 0.0 then 0.0 else x / y
  }

  function Max(a: real, b: real): real {
    if a >= b then a else b
  }

  function Min(a: real, b: real): real {
    if a <= b then a else b
  }

  function Abs(a: real): real {
    if a < 0.0 then -a else a
  }

  /** The elements of `s` that satisfy `keep`, in order. */
  function Filter<T>(s: seq<T>, keep: T -> bool): seq<T> {
    if s == [] then []
    else if keep(s[0]) then [s[0]] + Filter(s[1..], keep)
    else Filter(s[1..], keep)
  }

  lemma {:induction false} FilterAppend<T>(a: seq<T>, b: seq<T>, keep: T -> bool)
    ensures Filter(a + b, keep) == Filter(a, keep) + Filter(b, keep)
  {
    if a == [] {
      assert a + b == b;
    } else {
      FilterAppend(a[1..], b, keep);
      assert (a + b)[1..] == a[1..] + b;
    }
  }

  lemma {:induction false} FilterMember<T>(s: seq<T>, keep: T -> bool, x: T)
    ensures x in Filter(s, keep) <==> x in s && keep(x)
  {
    if s != [] {
      FilterMember(s[1..], keep, x);
      assert s == [s[0]] + s[1..];
    }
  }
}
