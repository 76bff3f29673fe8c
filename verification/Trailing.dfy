/**
 The trailing stop: half of the best profit so far, moved only in the favourable direction.
 A step that does not move the stop also drops the new maximum profit.
 */
module Trailing {
  import opened Core
  import opened Venue
  import opened Exits

  const DEFAULT_TRAILING_RATIO := 0.5

  function CalcMaxProfit(entryPrice: real, price: real, direction: Direction): real {
    Max(0.0, if direction == LONG then price - entryPrice else entryPrice - price)
  }

  function CalculateTrailingSl(entryPrice: real, maxProfit: real, direction: Direction): real {
    if direction == LONG then entryPrice + maxProfit * DEFAULT_TRAILING_RATIO
    else entryPrice - maxProfit * DEFAULT_TRAILING_RATIO
  }

  predicate ShouldUpdateTrailingSl(currentSl: real, newSl: real, direction: Direction) {
    if direction == LONG then newSl > currentSl else newSl < currentSl
  }

  /** Missing fields default to no profit and to the entry price. */
  function MaxProfitOf(t: ExitTicket): real {
    if t.maxProfit.Some? then t.maxProfit.value else 0.0
  }

  function TrailingPriceOf(t: ExitTicket): real {
    if t.trailingPrice.Some? then t.trailingPrice.value else t.entryPrice
  }

  datatype TrailingUpdate = TrailingUpdate(newTrailingPrice: real, newMaxProfit: real)

  /** The update of one step; none when trailing is off or the stop would not move favourably. */
  function UpdateAt(t: ExitTicket, price: real): Option<TrailingUpdate> {
    if !t.trailingActive then None
    else
      var newMaxProfit := Max(MaxProfitOf(t), CalcMaxProfit(t.entryPrice, price, t.direction));
      var newSl := CalculateTrailingSl(t.entryPrice, newMaxProfit, t.direction);
      if ShouldUpdateTrailingSl(TrailingPriceOf(t), newSl, t.direction) then Some(TrailingUpdate(newSl, newMaxProfit))
      else None
  }

  method ProcessTrailing(adapter: ExchangeAdapter, t: ExitTicket, price: real, supportsEditOrder: Option<bool>)
    returns (update: Option<TrailingUpdate>, slMoved: bool, ghost r: MoveResponses)
    modifies adapter
    ensures update == UpdateAt(t, price)
    ensures slMoved <==> update.Some? && Moved(t, supportsEditOrder != Some(false), r)
    ensures Made(adapter, if update.None? then []
                          else MoveCalls(t, update.value.newTrailingPrice, supportsEditOrder != Some(false), r,
                                         old(adapter.lastReading)))
  {
    hide Replay, MoveCalls, Moved;
    NothingReplayed(adapter.book);
    r := MoveResponses(Threw, Threw, Threw);
    var supportsEdit := if supportsEditOrder.Some? then supportsEditOrder.value else true;
    if !t.trailingActive {
      return None, false, r;
    }
    var prevMaxProfit := MaxProfitOf(t);
    var currentTrailingPrice := TrailingPriceOf(t);
    var currentMaxProfit := CalcMaxProfit(t.entryPrice, price, t.direction);
    var newMaxProfit := Max(prevMaxProfit, currentMaxProfit);
    var newTrailingSl := CalculateTrailingSl(t.entryPrice, newMaxProfit, t.direction);
    if !ShouldUpdateTrailingSl(currentTrailingPrice, newTrailingSl, t.direction) {
      return None, false, r;
    }
    slMoved, r := MoveSl(adapter, t, newTrailingSl, supportsEdit);
    update := Some(TrailingUpdate(newTrailingSl, newMaxProfit));
  }

  // ---- Folding over prices ----

  function Trail(t: ExitTicket, price: real): ExitTicket {
    match UpdateAt(t, price)
    case None => t
    case Some(u) => t.(trailingPrice := Some(u.newTrailingPrice), maxProfit := Some(u.newMaxProfit))
  }

  function TrailAll(t: ExitTicket, prices: seq<real>): ExitTicket {
    if prices == [] then t else Trail(TrailAll(t, prices[..|prices| - 1]), prices[|prices| - 1])
  }

  /** Whether `a` is at least as favourable a stop as `b`. */
  predicate AsFavourable(a: real, b: real, direction: Direction) {
    if direction == LONG then a >= b else a <= b
  }

  /** The best of the starting profit and every price's favourable excursion, clamped at zero. */
  ghost predicate IsBestProfit(best: real, start: real, t: ExitTicket, prices: seq<real>) {
    && best >= start
    && (forall i :: 0 <= i < |prices| ==> best >= CalcMaxProfit(t.entryPrice, prices[i], t.direction))
    && (best == start || exists i :: 0 <= i < |prices| && best == CalcMaxProfit(t.entryPrice, prices[i], t.direction))
  }

  /** The stored stop is the one its stored maximum profit calls for. */
  ghost predicate InStep(t: ExitTicket) {
    && MaxProfitOf(t) >= 0.0
    && TrailingPriceOf(t) == CalculateTrailingSl(t.entryPrice, MaxProfitOf(t), t.direction)
  }

  lemma TrailKeeps(t: ExitTicket, price: real)
    requires t.trailingActive
    ensures var t' := Trail(t, price);
      && t'.trailingActive && t'.entryPrice == t.entryPrice && t'.direction == t.direction
      && AsFavourable(TrailingPriceOf(t'), TrailingPriceOf(t), t.direction)
      && (InStep(t) ==> InStep(t')
                        && MaxProfitOf(t') == Max(MaxProfitOf(t), CalcMaxProfit(t.entryPrice, price, t.direction)))
  {
  }

  /**
   Starting in step, the stored maximum profit is the best excursion so far although steps
   that do not move the stop drop theirs, and the stop is entry plus or minus half of it.
   */
  lemma {:induction false} TrailingInStep(t: ExitTicket, prices: seq<real>)
    requires t.trailingActive && InStep(t)
    ensures var t' := TrailAll(t, prices);
      && IsBestProfit(MaxProfitOf(t'), MaxProfitOf(t), t, prices)
      && TrailingPriceOf(t') == t.entryPrice + (if t.direction == LONG then 0.5 else -0.5) * MaxProfitOf(t')
      && AsFavourable(TrailingPriceOf(t'), t.entryPrice, t.direction)
      && t'.trailingActive && t'.entryPrice == t.entryPrice && t'.direction == t.direction && InStep(t')
  {
    if prices != [] {
      hide Trail, CalcMaxProfit;
      var before, last := prices[..|prices| - 1], prices[|prices| - 1];
      TrailingInStep(t, before);
      TrailKeeps(TrailAll(t, before), last);
      var best, profit := MaxProfitOf(TrailAll(t, before)), CalcMaxProfit(t.entryPrice, last, t.direction);
      BestGrows(best, MaxProfitOf(t), t, before, last);
      assert before + [last] == prices;
    }
  }

  /** The gain per unit at a price, in the ticket's favour. */
  lemma ProfitAt(t: ExitTicket, price: real)
    ensures var profit := CalcMaxProfit(t.entryPrice, price, t.direction);
      && profit >= 0.0
      && (t.direction == LONG ==> profit >= price - t.entryPrice && (profit == 0.0 || profit == price - t.entryPrice))
      && (t.direction == SHORT ==> profit >= t.entryPrice - price && (profit == 0.0 || profit == t.entryPrice - price))
  {
  }

  /**
   In prices alone, from a ticket whose stop is half of its stored maximum: after any prices the
   stored maximum is the largest of the starting one and every price's distance from the entry
   on the gaining side, and the stop lies half of it on that side.
   */
  lemma TrailingInPrices(t: ExitTicket, prices: seq<real>)
    requires t.trailingActive && MaxProfitOf(t) >= 0.0
    requires t.direction == LONG ==> TrailingPriceOf(t) == t.entryPrice + MaxProfitOf(t) / 2.0
    requires t.direction == SHORT ==> TrailingPriceOf(t) == t.entryPrice - MaxProfitOf(t) / 2.0
    ensures var (m, stop) := (MaxProfitOf(TrailAll(t, prices)), TrailingPriceOf(TrailAll(t, prices)));
      && m >= MaxProfitOf(t)
      && (t.direction == LONG ==>
            && stop == t.entryPrice + m / 2.0
            && (forall i :: 0 <= i < |prices| ==> m >= prices[i] - t.entryPrice)
            && (m == MaxProfitOf(t) || exists i :: 0 <= i < |prices| && m == prices[i] - t.entryPrice))
      && (t.direction == SHORT ==>
            && stop == t.entryPrice - m / 2.0
            && (forall i :: 0 <= i < |prices| ==> m >= t.entryPrice - prices[i])
            && (m == MaxProfitOf(t) || exists i :: 0 <= i < |prices| && m == t.entryPrice - prices[i]))
  {
    TrailingInStep(t, prices);
    hide CalcMaxProfit, TrailAll, MaxProfitOf, TrailingPriceOf;
    var m := MaxProfitOf(TrailAll(t, prices));
    forall i | 0 <= i < |prices|
      ensures t.direction == LONG ==> m >= prices[i] - t.entryPrice
      ensures t.direction == SHORT ==> m >= t.entryPrice - prices[i]
    {
      ProfitAt(t, prices[i]);
    }
    if m != MaxProfitOf(t) {
      var i :| 0 <= i < |prices| && m == CalcMaxProfit(t.entryPrice, prices[i], t.direction);
      ProfitAt(t, prices[i]);
    }
  }

  /** A row without the two fields counts as no profit so far, and a stop at the entry price. */
  lemma MissingFields(t: ExitTicket)
    ensures MaxProfitOf(t) == (if t.maxProfit.Some? then t.maxProfit.value else 0.0)
    ensures TrailingPriceOf(t) == (if t.trailingPrice.Some? then t.trailingPrice.value else t.entryPrice)
  {
  }

  /**
   When one step moves the stop, in prices: exactly when half of the price's gain, half of the
   stored maximum or no gain at all is already beyond where the stop is. So a stop that is in
   step moves only while the price is beyond the entry by more than ever before.
   */
  lemma StepMovesIff(t: ExitTicket, price: real)
    requires t.trailingActive && t.maxProfit.Some? && t.trailingPrice.Some?
    ensures var (entry, stop, m) := (t.entryPrice, t.trailingPrice.value, t.maxProfit.value);
      && (t.direction == LONG ==>
            (UpdateAt(t, price).Some? <==>
               entry + (price - entry) / 2.0 > stop || entry + m / 2.0 > stop || entry > stop))
      && (t.direction == SHORT ==>
            (UpdateAt(t, price).Some? <==>
               entry + (price - entry) / 2.0 < stop || entry - m / 2.0 < stop || entry < stop))
      && (t.direction == LONG && m >= 0.0 && stop == entry + m / 2.0 ==>
            (UpdateAt(t, price).Some? <==> price > entry + m))
      && (t.direction == SHORT && m >= 0.0 && stop == entry - m / 2.0 ==>
            (UpdateAt(t, price).Some? <==> price < entry - m))
  {
  }

  lemma BestGrows(best: real, start: real, t: ExitTicket, prices: seq<real>, last: real)
    requires IsBestProfit(best, start, t, prices)
    ensures IsBestProfit(Max(best, CalcMaxProfit(t.entryPrice, last, t.direction)), start, t, prices + [last])
  {
    hide CalcMaxProfit;
    var longer := prices + [last];
    if best >= CalcMaxProfit(t.entryPrice, last, t.direction) {
      if best != start {
        var i :| 0 <= i < |prices| && best == CalcMaxProfit(t.entryPrice, prices[i], t.direction);
        assert longer[i] == prices[i];
      }
    } else {
      assert longer[|prices|] == last;
    }
  }

  function MoreFavourable(a: real, b: real, direction: Direction): real {
    if direction == LONG then Max(a, b) else Min(a, b)
  }

  /**
   The ticket after some prices with the given best profit: the stop is the more favourable of
   where it was and of half the best profit; the stored maximum is the best profit if that
   moved the stop, and otherwise still the one it was.
   */
  ghost predicate TrailedTo(t: ExitTicket, t': ExitTicket, best: real) {
    var sl := CalculateTrailingSl(t.entryPrice, best, t.direction);
    && t'.trailingActive && t'.entryPrice == t.entryPrice && t'.direction == t.direction
    && TrailingPriceOf(t') == MoreFavourable(TrailingPriceOf(t), sl, t.direction)
    && MaxProfitOf(t')
       == if ShouldUpdateTrailingSl(TrailingPriceOf(t), sl, t.direction) then best else MaxProfitOf(t)
  }

  lemma TrailedStep(t: ExitTicket, t': ExitTicket, best: real, price: real)
    requires TrailedTo(t, t', best) && best >= MaxProfitOf(t)
    ensures TrailedTo(t, Trail(t', price), Max(best, CalcMaxProfit(t.entryPrice, price, t.direction)))
  {
    hide CalcMaxProfit;
  }

  lemma TrailedFirst(t: ExitTicket, price: real)
    requires t.trailingActive
    ensures TrailedTo(t, Trail(t, price), Max(MaxProfitOf(t), CalcMaxProfit(t.entryPrice, price, t.direction)))
  {
    hide CalcMaxProfit;
  }

  lemma BestFromStart(best: real, start: real, t: ExitTicket, prices: seq<real>)
    requires IsBestProfit(best, start, t, prices)
    ensures best >= start
  {
  }

  /**
   From any ticket over any prices: with trailing off nothing changes; otherwise stop and
   stored maximum are determined by the best profit, although every step that does not move
   the stop drops the maximum it saw.
   */
  lemma {:induction false} TrailingLaw(t: ExitTicket, prices: seq<real>)
    requires prices != []
    ensures !t.trailingActive ==> TrailAll(t, prices) == t
    ensures t.trailingActive ==>
              exists best :: IsBestProfit(best, MaxProfitOf(t), t, prices) && TrailedTo(t, TrailAll(t, prices), best)
  {
    hide CalcMaxProfit, Trail, TrailedTo, IsBestProfit;
    var before, last := prices[..|prices| - 1], prices[|prices| - 1];
    assert before + [last] == prices;
    if before != [] {
      TrailingLaw(t, before);
    } else {
      assert TrailAll(t, before) == t;
    }
    if !t.trailingActive {
      TrailingOff(t, last);
    } else if before == [] {
      NoProfitYet(t);
      BestGrows(MaxProfitOf(t), MaxProfitOf(t), t, before, last);
      TrailedFirst(t, last);
    } else {
      var best :| IsBestProfit(best, MaxProfitOf(t), t, before) && TrailedTo(t, TrailAll(t, before), best);
      BestFromStart(best, MaxProfitOf(t), t, before);
      BestGrows(best, MaxProfitOf(t), t, before, last);
      TrailedStep(t, TrailAll(t, before), best, last);
    }
  }

  lemma TrailingOff(t: ExitTicket, price: real)
    requires !t.trailingActive
    ensures Trail(t, price) == t
  {
  }

  /** There is one best profit, so the law determines the ticket's stop and maximum. */
  lemma BestProfitUnique(a: real, b: real, start: real, t: ExitTicket, prices: seq<real>)
    requires IsBestProfit(a, start, t, prices) && IsBestProfit(b, start, t, prices)
    ensures a == b
  {
    hide CalcMaxProfit;
  }

  lemma NoProfitYet(t: ExitTicket)
    ensures IsBestProfit(MaxProfitOf(t), MaxProfitOf(t), t, [])
  {
  }

  /** The stop never moves back, from any ticket and between any two moments. */
  lemma {:induction false} StopNeverRetreats(t: ExitTicket, prices: seq<real>, i: nat)
    requires i <= |prices|
    ensures AsFavourable(TrailingPriceOf(TrailAll(t, prices)), TrailingPriceOf(TrailAll(t, prices[..i])), t.direction)
    ensures TrailAll(t, prices).direction == t.direction
  {
    if i == |prices| {
      assert prices[..i] == prices;
      TrailAllKeepsDirection(t, prices);
    } else {
      hide AsFavourable;
      var before := prices[..|prices| - 1];
      assert before[..i] == prices[..i];
      StopNeverRetreats(t, before, i);
      StepForward(TrailAll(t, before), prices[|prices| - 1]);
      Chain(TrailingPriceOf(TrailAll(t, prices)), TrailingPriceOf(TrailAll(t, before)),
            TrailingPriceOf(TrailAll(t, prices[..i])), t.direction);
    }
  }

  lemma StepForward(t: ExitTicket, price: real)
    ensures AsFavourable(TrailingPriceOf(Trail(t, price)), TrailingPriceOf(t), t.direction)
    ensures Trail(t, price).direction == t.direction
  {
  }

  lemma Chain(a: real, b: real, c: real, direction: Direction)
    requires AsFavourable(a, b, direction) && AsFavourable(b, c, direction)
    ensures AsFavourable(a, c, direction)
  {
  }

  lemma {:induction false} TrailAllKeepsDirection(t: ExitTicket, prices: seq<real>)
    ensures TrailAll(t, prices).direction == t.direction
  {
    if prices != [] {
      TrailAllKeepsDirection(t, prices[..|prices| - 1]);
    }
  }

  // ---- LONG and SHORT are mirror images ----

  function Reflect(entryPrice: real, price: real): real {
    2.0 * entryPrice - price
  }

  function Mirror(t: ExitTicket): ExitTicket {
    t.(direction := if t.direction == LONG then SHORT else LONG,
       trailingPrice := if t.trailingPrice.Some? then Some(Reflect(t.entryPrice, t.trailingPrice.value)) else None)
  }

  lemma MirrorStep(t: ExitTicket, price: real)
    ensures Trail(Mirror(t), Reflect(t.entryPrice, price)) == Mirror(Trail(t, price))
    ensures Trail(t, price).entryPrice == t.entryPrice
  {
  }

  /** A short ticket trails reflected prices exactly as a long one trails the prices themselves. */
  lemma {:induction false} MirrorImage(t: ExitTicket, prices: seq<real>)
    ensures TrailAll(Mirror(t), seq(|prices|, i requires 0 <= i < |prices| => Reflect(t.entryPrice, prices[i])))
            == Mirror(TrailAll(t, prices))
    ensures TrailAll(t, prices).entryPrice == t.entryPrice
  {
    if prices != [] {
      hide Trail, Mirror, Reflect;
      var before := prices[..|prices| - 1];
      var reflected := seq(|prices|, i requires 0 <= i < |prices| => Reflect(t.entryPrice, prices[i]));
      MirrorImage(t, before);
      assert reflected[..|prices| - 1]
          == seq(|before|, i requires 0 <= i < |before| => Reflect(t.entryPrice, before[i]));
      MirrorStep(TrailAll(t, before), prices[|prices| - 1]);
    }
  }
}
