/**
 The position sizer: how many units to buy so that the stop costs at most the risk budget
 and the exchange's leverage limit holds.
 */
module Sizer {
  import opened Core

  const HARD_CAP_LEVERAGE := 38.0
  const TIER_LOW_BALANCE := 300000.0
  const TIER_HIGH_BALANCE := 30000000.0
  const TIER_LOW_RISK := 0.03
  const TIER_HIGH_RISK := 0.01

  datatype SymbolInfo = SymbolInfo(tickSize: real, minOrderSize: real, maxLeverage: real)

  datatype SizeResult = SizeResult(
    size: real,
    leverage: int,
    riskAmount: real,
    maxLoss: real,
    adjustedForLevCap: bool)

  datatype SizeError = NegativeRisk | ZeroStopDistance | StopOnWrongSide | DivisionByZero

  datatype SizeOutcome = Sized(result: SizeResult) | NoSize | Rejected(error: SizeError)

  /** Share of the balance to risk: 3% for small accounts, 1% for large ones, linear between. */
  function GetRiskPct(balance: real): real {
    if balance <= TIER_LOW_BALANCE then TIER_LOW_RISK
    else if balance >= TIER_HIGH_BALANCE then TIER_HIGH_RISK
    else
      var ratio := (TIER_HIGH_BALANCE - balance) / (TIER_HIGH_BALANCE - TIER_LOW_BALANCE);
      TIER_HIGH_RISK + (TIER_LOW_RISK - TIER_HIGH_RISK) * ratio
  }

  /** The risk share stays within its two tiers, reaches both, and never grows with the balance. */
  lemma RiskPctAntitone(a: real, b: real)
    requires a <= b
    ensures TIER_HIGH_RISK <= GetRiskPct(b) <= GetRiskPct(a) <= TIER_LOW_RISK
    ensures GetRiskPct(TIER_LOW_BALANCE) == TIER_LOW_RISK && GetRiskPct(TIER_HIGH_BALANCE) == TIER_HIGH_RISK
  {
  }

  /** Three percent up to 300000, one percent from 30000000 on, and on the straight line between. */
  lemma RiskPctTiers(balance: real)
    ensures balance <= 300000.0 ==> GetRiskPct(balance) == 0.03
    ensures balance >= 30000000.0 ==> GetRiskPct(balance) == 0.01
    ensures 300000.0 <= balance <= 30000000.0 ==>
      (GetRiskPct(balance) - 0.01) * 29700000.0 == 0.02 * (30000000.0 - balance)
  {
  }

  function Multiple(k: int, tick: real): real {
    k as real * tick
  }

  function RoundDownToTick(size: real, tick: real): real
    requires tick > 0.0
  {
    Multiple((size / tick).Floor, tick)
  }

  /** Rounding down gives the largest multiple of the tick that does not exceed the size. */
  lemma RoundDownIsLargest(size: real, tick: real, k: int)
    requires tick > 0.0
    ensures RoundDownToTick(size, tick) <= size
    ensures Multiple(k, tick) <= size ==> Multiple(k, tick) <= RoundDownToTick(size, tick)
  {
    var steps := (size / tick).Floor;
    assert size / tick * tick == size;
    assert steps as real * tick <= size / tick * tick;
    if Multiple(k, tick) <= size {
      QuotientBound(k as real, size, tick);
      assert k <= steps;
      assert k as real * tick <= steps as real * tick;
    }
  }

  function Cap(info: SymbolInfo): real {
    Min(HARD_CAP_LEVERAGE, info.maxLeverage)
  }

  function Ceil(x: real): int {
    -((-x).Floor)
  }

  /** The position's value over the balance, rounded up so that the exchange accepts it. */
  function LeverageFor(size: real, entryPrice: real, balance: real): int
    requires balance != 0.0
  {
    Ceil(size * entryPrice / balance)
  }

  /** The size before rounding: the risk budget over the stop distance, or the leverage cap. */
  function RawSize(balance: real, entryPrice: real, slDistance: real, cap: real, riskPct: real): Option<(real, bool)>
    requires balance != 0.0 && slDistance != 0.0
  {
    var rawSize := balance * riskPct / slDistance;
    if rawSize * entryPrice / balance > cap then
      if entryPrice == 0.0 then None else Some((balance * cap / entryPrice, true))
    else Some((rawSize, false))
  }

  function CalculateSize(balance: real, entryPrice: real, slPrice: real, direction: Direction,
                         info: SymbolInfo, riskPct: real): SizeOutcome
    requires info.tickSize > 0.0
  {
    if riskPct < 0.0 then Rejected(NegativeRisk)
    else if riskPct == 0.0 || balance <= 0.0 then NoSize
    else
      var slDistance := Abs(entryPrice - slPrice);
      if slDistance == 0.0 then Rejected(ZeroStopDistance)
      else if direction == LONG && !(entryPrice > slPrice) then Rejected(StopOnWrongSide)
      else if direction == SHORT && !(entryPrice < slPrice) then Rejected(StopOnWrongSide)
      else
        var raw := RawSize(balance, entryPrice, slDistance, Cap(info), riskPct);
        if raw == None then Rejected(DivisionByZero)
        else
          var size := RoundDownToTick(raw.value.0, info.tickSize);
          if size < info.minOrderSize then NoSize
          else Sized(SizeResult(size, LeverageFor(size, entryPrice, balance), balance * riskPct,
                                size * slDistance, raw.value.1))
  }

  // ---- What a size promises ----

  predicate WithinRisk(size: real, balance: real, slDistance: real, riskPct: real) {
    size * slDistance <= balance * riskPct
  }

  predicate WithinLeverage(size: real, balance: real, entryPrice: real, cap: real) {
    size * entryPrice <= balance * cap
  }

  lemma QuotientBound(x: real, n: real, d: real)
    requires d > 0.0
    ensures x <= n / d <==> x * d <= n
  {
    assert n / d * d == n;
    if x <= n / d {
      assert x * d <= n / d * d;
    } else {
      assert x * d > n / d * d;
    }
  }

  /** The unrounded size meets both bounds, and is the largest that does. */
  lemma RawSizeIsLargest(balance: real, entryPrice: real, slDistance: real, cap: real, riskPct: real, x: real)
    requires balance > 0.0 && entryPrice > 0.0 && slDistance > 0.0
    ensures var raw := RawSize(balance, entryPrice, slDistance, cap, riskPct);
      && raw.Some?
      && (x <= raw.value.0 <==>
            WithinRisk(x, balance, slDistance, riskPct) && WithinLeverage(x, balance, entryPrice, cap))
  {
    var rawSize, capSize := balance * riskPct / slDistance, balance * cap / entryPrice;
    QuotientBound(x, balance * riskPct, slDistance);
    QuotientBound(x, balance * cap, entryPrice);
    QuotientBound(rawSize, balance * cap, entryPrice);
    assert rawSize * entryPrice / balance > cap <==> rawSize > capSize by {
      QuotientBoundAbove(cap, rawSize * entryPrice, balance);
    }
  }

  lemma QuotientBoundAbove(x: real, n: real, d: real)
    requires d > 0.0
    ensures n / d > x <==> n > d * x
  {
    QuotientBoundBelow(x, n, d);
  }

  lemma QuotientBoundBelow(x: real, n: real, d: real)
    requires d > 0.0
    ensures n / d <= x <==> n <= d * x
  {
    assert n / d * d == n;
    if n / d <= x {
      assert n / d * d <= x * d;
    } else {
      assert n / d * d > x * d;
    }
  }

  /** A tick multiple that the risk budget and the leverage cap both allow. */
  ghost predicate Allowed(k: int, balance: real, entryPrice: real, slPrice: real, info: SymbolInfo, riskPct: real) {
    && WithinRisk(Multiple(k, info.tickSize), balance, Abs(entryPrice - slPrice), riskPct)
    && WithinLeverage(Multiple(k, info.tickSize), balance, entryPrice, Cap(info))
  }

  predicate StopOnLosingSide(direction: Direction, entryPrice: real, slPrice: real) {
    if direction == LONG then slPrice < entryPrice else slPrice > entryPrice
  }

  /** The rounded size is allowed, and no allowed multiple exceeds it. */
  lemma RoundedSizeIsLargest(balance: real, entryPrice: real, slPrice: real, info: SymbolInfo, riskPct: real, k: int)
    requires balance > 0.0 && entryPrice > 0.0 && entryPrice != slPrice && info.tickSize > 0.0
    ensures var raw := RawSize(balance, entryPrice, Abs(entryPrice - slPrice), Cap(info), riskPct);
      && raw.Some?
      && Allowed((raw.value.0 / info.tickSize).Floor, balance, entryPrice, slPrice, info, riskPct)
      && (Allowed(k, balance, entryPrice, slPrice, info, riskPct) ==>
            Multiple(k, info.tickSize) <= RoundDownToTick(raw.value.0, info.tickSize))
  {
    hide RawSize, WithinRisk, WithinLeverage, Multiple;
    var distance := Abs(entryPrice - slPrice);
    RawSizeIsLargest(balance, entryPrice, distance, Cap(info), riskPct, Multiple(k, info.tickSize));
    var raw := RawSize(balance, entryPrice, distance, Cap(info), riskPct).value.0;
    var steps := (raw / info.tickSize).Floor;
    RoundDownIsLargest(raw, info.tickSize, k);
    RawSizeIsLargest(balance, entryPrice, distance, Cap(info), riskPct, Multiple(steps, info.tickSize));
  }

  /**
   A size is the largest tick multiple that both the risk budget and the leverage cap allow,
   so losing the stop distance on it costs at most the budget. No size means that there is
   nothing to risk or that the largest allowed multiple is below the exchange's minimum.
   An error means a negative risk share or a stop that is not on the losing side.
   */
  lemma CalculateSizeLaw(balance: real, entryPrice: real, slPrice: real, direction: Direction,
                         info: SymbolInfo, riskPct: real)
    requires info.tickSize > 0.0 && entryPrice > 0.0
    ensures var r := CalculateSize(balance, entryPrice, slPrice, direction, info, riskPct);
      && (r.Rejected? <==> riskPct < 0.0 || (riskPct > 0.0 && balance > 0.0
                                             && !StopOnLosingSide(direction, entryPrice, slPrice)))
      && (r.NoSize? <==> riskPct == 0.0 || (riskPct > 0.0 && balance <= 0.0)
                         || (riskPct > 0.0 && StopOnLosingSide(direction, entryPrice, slPrice)
                             && forall k :: Allowed(k, balance, entryPrice, slPrice, info, riskPct)
                                            ==> Multiple(k, info.tickSize) < info.minOrderSize))
      && (r.Sized? ==>
            && r.result.size >= info.minOrderSize
            && r.result.maxLoss == r.result.size * Abs(entryPrice - slPrice) <= balance * riskPct
            && (exists k :: Allowed(k, balance, entryPrice, slPrice, info, riskPct)
                            && Multiple(k, info.tickSize) == r.result.size)
            && (forall k :: Allowed(k, balance, entryPrice, slPrice, info, riskPct)
                            ==> Multiple(k, info.tickSize) <= r.result.size))
  {
    if riskPct > 0.0 && balance > 0.0 && StopOnLosingSide(direction, entryPrice, slPrice) {
      hide RawSize, WithinLeverage, Multiple;
      var raw := RawSize(balance, entryPrice, Abs(entryPrice - slPrice), Cap(info), riskPct);
      forall k
        ensures raw.Some?
        ensures Allowed(k, balance, entryPrice, slPrice, info, riskPct) ==>
                  Multiple(k, info.tickSize) <= RoundDownToTick(raw.value.0, info.tickSize)
      {
        RoundedSizeIsLargest(balance, entryPrice, slPrice, info, riskPct, k);
      }
      RoundedSizeIsLargest(balance, entryPrice, slPrice, info, riskPct, 0);
      assert Allowed((raw.value.0 / info.tickSize).Floor, balance, entryPrice, slPrice, info, riskPct);
    }
  }

  /**
   What else a size reports, and which error it is: the budget, whether the leverage limit cut
   the size, a negative share before anything else, and a stop at the entry before one beyond it.
   */
  lemma SizeDetails(balance: real, entryPrice: real, slPrice: real, direction: Direction,
                    info: SymbolInfo, riskPct: real)
    requires info.tickSize > 0.0 && entryPrice > 0.0
    ensures var r := CalculateSize(balance, entryPrice, slPrice, direction, info, riskPct);
      && (r.Sized? ==> r.result.riskAmount == balance * riskPct && r.result.size >= info.minOrderSize)
      && (r.Sized? ==>
            (r.result.adjustedForLevCap <==>
               balance * riskPct * entryPrice > Abs(entryPrice - slPrice) * (balance * Min(38.0, info.maxLeverage))))
      && (r.Rejected? ==>
            r.error == if riskPct < 0.0 then NegativeRisk
                       else if entryPrice == slPrice then ZeroStopDistance else StopOnWrongSide)
  {
    var distance := Abs(entryPrice - slPrice);
    if riskPct > 0.0 && balance > 0.0 && distance > 0.0 {
      CutByLeverage(balance, entryPrice, distance, Cap(info), riskPct);
    }
  }

  lemma CutByLeverage(balance: real, entryPrice: real, distance: real, cap: real, riskPct: real)
    requires balance > 0.0 && entryPrice > 0.0 && distance > 0.0
    ensures var raw := RawSize(balance, entryPrice, distance, cap, riskPct);
      raw.Some? && (raw.value.1 <==> balance * riskPct * entryPrice > distance * (balance * cap))
  {
    var risk := balance * riskPct;
    var size := risk / distance;
    assert size * distance == risk;
    QuotientBoundAbove(cap, size * entryPrice, balance);
    ProductOrder(size * entryPrice, balance * cap, distance);
    assert size * entryPrice * distance == risk * entryPrice;
  }

  lemma ProductOrder(a: real, b: real, x: real)
    requires x > 0.0
    ensures a > b <==> a * x > b * x
  {
  }

  /** Rounding a quotient up: within one of it, and within any bound the quotient meets. */
  lemma LeverageRoundsUp(size: real, entryPrice: real, balance: real, cap: real)
    requires balance > 0.0 && WithinLeverage(size, balance, entryPrice, cap)
    ensures var lev := LeverageFor(size, entryPrice, balance);
      (lev - 1) as real * balance < size * entryPrice <= lev as real * balance && lev <= Ceil(cap)
  {
    var n, d := size * entryPrice, balance;
    var q := n / d;
    assert q * d == n;
    CeilBounds(q);
    assert (Ceil(q) - 1) as real * d < q * d <= Ceil(q) as real * d;
    QuotientBoundBelow(cap, n, d);
    CeilMonotone(q, cap);
  }

  lemma SizedLeverage(balance: real, entryPrice: real, slPrice: real, direction: Direction,
                      info: SymbolInfo, riskPct: real)
    requires info.tickSize > 0.0 && entryPrice > 0.0
    requires CalculateSize(balance, entryPrice, slPrice, direction, info, riskPct).Sized?
    ensures var r := CalculateSize(balance, entryPrice, slPrice, direction, info, riskPct).result;
      && balance > 0.0
      && r.leverage == LeverageFor(r.size, entryPrice, balance)
      && WithinLeverage(r.size, balance, entryPrice, Cap(info))
  {
    hide RawSize, RoundDownToTick, Multiple, WithinLeverage, WithinRisk, LeverageFor;
    CalculateSizeLaw(balance, entryPrice, slPrice, direction, info, riskPct);
  }

  /**
   The leverage is the position's leverage rounded up to a whole number. It stays within the
   cap when the cap is a whole number, and within the cap rounded up otherwise.
   */
  lemma LeverageLaw(balance: real, entryPrice: real, slPrice: real, direction: Direction,
                    info: SymbolInfo, riskPct: real)
    requires info.tickSize > 0.0 && entryPrice > 0.0
    requires CalculateSize(balance, entryPrice, slPrice, direction, info, riskPct).Sized?
    ensures var r := CalculateSize(balance, entryPrice, slPrice, direction, info, riskPct).result;
      && (r.leverage - 1) as real * balance < r.size * entryPrice <= r.leverage as real * balance
      && r.leverage <= Ceil(Cap(info))
      && (Cap(info) == Cap(info).Floor as real ==> r.leverage as real <= Min(38.0, info.maxLeverage))
  {
    hide CalculateSize, LeverageFor, WithinLeverage;
    var r := CalculateSize(balance, entryPrice, slPrice, direction, info, riskPct).result;
    SizedLeverage(balance, entryPrice, slPrice, direction, info, riskPct);
    LeverageRoundsUp(r.size, entryPrice, balance, Cap(info));
    FloorBounds(Cap(info));
    CeilWithin(Cap(info), Cap(info));
  }

  /** In numbers: never above 38, less than one above the exchange's limit, and the cost within both exactly. */
  lemma LeverageBounds(balance: real, entryPrice: real, slPrice: real, direction: Direction,
                       info: SymbolInfo, riskPct: real)
    requires info.tickSize > 0.0 && entryPrice > 0.0
    requires CalculateSize(balance, entryPrice, slPrice, direction, info, riskPct).Sized?
    ensures var r := CalculateSize(balance, entryPrice, slPrice, direction, info, riskPct).result;
      && r.leverage <= 38 && (r.leverage - 1) as real < info.maxLeverage
      && r.size * entryPrice <= balance * 38.0 && r.size * entryPrice <= balance * info.maxLeverage
  {
    hide CalculateSize, LeverageFor, Ceil;
    var r := CalculateSize(balance, entryPrice, slPrice, direction, info, riskPct).result;
    SizedLeverage(balance, entryPrice, slPrice, direction, info, riskPct);
    LeverageLaw(balance, entryPrice, slPrice, direction, info, riskPct);
    CeilBounds(Cap(info));
    OrderedProducts(balance, Cap(info), 38.0);
    OrderedProducts(balance, Cap(info), info.maxLeverage);
  }

  lemma OrderedProducts(x: real, a: real, b: real)
    requires x >= 0.0 && a <= b
    ensures x * a <= x * b
  {
  }

  lemma CeilBounds(x: real)
    ensures (Ceil(x) - 1) as real < x <= Ceil(x) as real
  {
  }

  lemma CeilMonotone(x: real, y: real)
    requires x <= y
    ensures Ceil(x) <= Ceil(y)
  {
    CeilBounds(x);
    CeilBounds(y);
    hide Ceil;
    assert (Ceil(x) - 1) as real < Ceil(y) as real;
  }

  /** Rounding up stays within a bound exactly when the number is within the bound rounded down. */
  lemma CeilWithin(x: real, bound: real)
    ensures Ceil(x) as real <= bound <==> x <= bound.Floor as real
  {
    CeilBounds(x);
    FloorBounds(bound);
    hide Ceil;
    assert Ceil(x) as real <= bound <==> Ceil(x) <= bound.Floor;
  }

  lemma FloorBounds(x: real)
    ensures x.Floor as real <= x < (x.Floor + 1) as real
  {
  }

  /** Per call: the leverage is within the cap exactly when the position is within the cap rounded down. */
  lemma LeverageWithinCapIff(balance: real, entryPrice: real, slPrice: real, direction: Direction,
                             info: SymbolInfo, riskPct: real)
    requires info.tickSize > 0.0 && entryPrice > 0.0
    requires CalculateSize(balance, entryPrice, slPrice, direction, info, riskPct).Sized?
    ensures var r := CalculateSize(balance, entryPrice, slPrice, direction, info, riskPct).result;
      r.leverage as real <= Cap(info) <==> r.size * entryPrice <= Cap(info).Floor as real * balance
  {
    hide CalculateSize, LeverageFor, WithinLeverage;
    var r := CalculateSize(balance, entryPrice, slPrice, direction, info, riskPct).result;
    SizedLeverage(balance, entryPrice, slPrice, direction, info, riskPct);
    LeverageForWithin(r.size, entryPrice, balance, Cap(info));
  }

  lemma LeverageForWithin(size: real, entryPrice: real, balance: real, cap: real)
    requires balance > 0.0
    ensures LeverageFor(size, entryPrice, balance) as real <= cap <==> size * entryPrice <= cap.Floor as real * balance
  {
    hide Ceil;
    var n := size * entryPrice;
    CeilWithin(n / balance, cap);
    QuotientBoundBelow(cap.Floor as real, n, balance);
  }

  // ---- The leverage limit holds for every call exactly when the cap is whole ----

  ghost predicate LimitHolds(info: SymbolInfo)
    requires info.tickSize > 0.0
  {
    forall balance: real, entryPrice: real, slPrice: real, direction: Direction, riskPct: real ::
      var outcome := CalculateSize(balance, entryPrice, slPrice, direction, info, riskPct);
      entryPrice > 0.0 && outcome.Sized? ==> outcome.result.leverage as real <= Cap(info)
  }

  /** The returned leverage never exceeds min(38, maxLeverage) if and only if that is a whole number. */
  lemma WholeCapIff(info: SymbolInfo)
    requires info.tickSize > 0.0 && info.maxLeverage > 0.0
    ensures Cap(info) == Cap(info).Floor as real <==> LimitHolds(info)
  {
    hide CalculateSize, Ceil;
    if Cap(info) == Cap(info).Floor as real {
      forall balance, entryPrice, slPrice, direction, riskPct
        | entryPrice > 0.0 && CalculateSize(balance, entryPrice, slPrice, direction, info, riskPct).Sized?
        ensures var outcome := CalculateSize(balance, entryPrice, slPrice, direction, info, riskPct);
                outcome.result.leverage as real <= Cap(info)
      {
        LeverageLaw(balance, entryPrice, slPrice, direction, info, riskPct);
      }
    } else {
      CapPositive(info);
      var steps := StepsFor(info);
      var balance := Multiple(steps, info.tickSize) / Cap(info);
      CappedCall(info, steps);
      CeilWithin(Cap(info), Cap(info));
      FloorBounds(Cap(info));
      assert CalculateSize(balance, 1.0, 0.5, LONG, info, Cap(info)).result.leverage as real > Cap(info);
    }
  }

  lemma CapPositive(info: SymbolInfo)
    requires info.maxLeverage > 0.0
    ensures Cap(info) > 0.0
  {
  }

  /** Enough ticks for the exchange's minimum order. */
  function StepsFor(info: SymbolInfo): int
    requires info.tickSize > 0.0
  {
    var steps := Ceil(info.minOrderSize / info.tickSize);
    if steps < 1 then 1 else steps
  }

  lemma StepsSuffice(info: SymbolInfo)
    requires info.tickSize > 0.0
    ensures StepsFor(info) >= 1 && Multiple(StepsFor(info), info.tickSize) >= info.minOrderSize
  {
    hide Ceil;
    var q := info.minOrderSize / info.tickSize;
    CeilBounds(q);
    assert q * info.tickSize == info.minOrderSize;
    assert q <= StepsFor(info) as real;
    assert q * info.tickSize <= StepsFor(info) as real * info.tickSize;
  }

  /** A call whose size the cap decides: the whole balance times the cap, at a price of one. */
  lemma CappedCall(info: SymbolInfo, steps: int)
    requires info.tickSize > 0.0 && Cap(info) > 0.0 && steps == StepsFor(info)
    ensures var balance := Multiple(steps, info.tickSize) / Cap(info);
            var r := CalculateSize(balance, 1.0, 0.5, LONG, info, Cap(info));
            r.Sized? && r.result.leverage == Ceil(Cap(info))
  {
    hide Ceil, Cap, StepsFor;
    var cap, size := Cap(info), Multiple(steps, info.tickSize);
    var balance := size / cap;
    StepsSuffice(info);
    PositiveMultiple(steps, info.tickSize);
    assert balance * cap == size;
    PositiveQuotient(size, cap);
    CappedRaw(balance, cap, size);
    WholeTicks(steps, info.tickSize);
    Requotient(size, cap);
  }

  lemma PositiveMultiple(steps: int, tick: real)
    requires steps >= 1 && tick > 0.0
    ensures Multiple(steps, tick) > 0.0
  {
  }

  lemma PositiveQuotient(x: real, y: real)
    requires x > 0.0 && y > 0.0
    ensures x / y > 0.0
  {
  }

  lemma CappedRaw(balance: real, cap: real, size: real)
    requires balance > 0.0 && cap > 0.0 && size == balance * cap
    ensures RawSize(balance, 1.0, 0.5, cap, cap) == Some((size, true))
  {
    var rawSize := balance * cap / 0.5;
    assert rawSize == 2.0 * size;
    assert rawSize * 1.0 / balance > cap by {
      QuotientBoundAbove(cap, rawSize * 1.0, balance);
    }
  }

  lemma WholeTicks(steps: int, tick: real)
    requires tick > 0.0
    ensures RoundDownToTick(Multiple(steps, tick), tick) == Multiple(steps, tick)
  {
    assert Multiple(steps, tick) / tick == steps as real;
  }

  lemma Requotient(x: real, y: real)
    requires x > 0.0 && y > 0.0
    ensures x / y != 0.0 && x * 1.0 / (x / y) == y
  {
    PositiveQuotient(x, y);
    assert x / y * y == x;
  }

  /** A fractional exchange limit lets the rounded-up leverage exceed it. */
  lemma FractionalCapExceeded()
    ensures var r := CalculateSize(100.0, 10.0, 9.99, LONG, SymbolInfo(0.1, 0.1, 12.5), 0.03);
            r.Sized? && r.result.leverage == 13
  {
    var info := SymbolInfo(0.1, 0.1, 12.5);
    var raw := RawSize(100.0, 10.0, Abs(10.0 - 9.99), Cap(info), 0.03);
    assert raw == Some((125.0, true));
    assert (125.0 / 0.1).Floor == 1250;
  }
}
