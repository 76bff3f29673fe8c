/**
 The evidence gate: whether a candle that touches a Bollinger band is an entry signal for
 the watch session, and where its stop goes.
 */
module EvidenceGate {
  import opened Core
  import Sizer

  datatype Band = Band(upper: real, lower: real)

  datatype Indicators = Indicators(
    bb4: Option<Band>,
    bb20: Option<Band>,
    bb4OneHour: Option<Band>,
    sma20: Option<real>,
    prevSma20: Option<real>)

  datatype SignalType = DOUBLE_B | ONE_B

  datatype Evidence = Evidence(
    signalType: SignalType,
    direction: Direction,
    entryPrice: real,
    slPrice: real,
    aGrade: bool)

  predicate WellFormed(c: Candle) {
    c.low <= c.open <= c.high && c.low <= c.close <= c.high
  }

  /** Stop price: 15% of the tail beyond the candle's extreme, of the range when there is no tail. */
  function CalcSlPrice(c: Candle, direction: Direction): real {
    var range := c.high - c.low;
    if direction == LONG then
      var tail := Min(c.open, c.close) - c.low;
      var buffer := if tail == 0.0 then range * 0.15 else tail * 0.15;
      if buffer == 0.0 then c.close else c.low - buffer
    else
      var tail := c.high - Max(c.open, c.close);
      var buffer := if tail == 0.0 then range * 0.15 else tail * 0.15;
      if buffer == 0.0 then c.close else c.high + buffer
  }

  predicate TouchesLower(c: Candle, band: Option<Band>) {
    band.Some? && c.low <= band.value.lower
  }

  predicate TouchesUpper(c: Candle, band: Option<Band>) {
    band.Some? && c.high >= band.value.upper
  }

  /** The direction of the touch; the lower band is looked at first. */
  function TouchDirection(c: Candle, indicators: Indicators): Option<Direction> {
    if TouchesLower(c, indicators.bb4) then Some(LONG)
    else if TouchesUpper(c, indicators.bb4) then Some(SHORT)
    else None
  }

  /** A one-band signal needs the moving average to slope its way, when the slope is known. */
  predicate SlopeAgrees(indicators: Indicators, direction: Direction) {
    indicators.sma20.None? || indicators.prevSma20.None? ||
    (if direction == LONG then indicators.sma20.value > indicators.prevSma20.value
     else !(indicators.sma20.value > indicators.prevSma20.value)
          && indicators.sma20.value != indicators.prevSma20.value)
  }

  function CheckEvidence(c: Candle, indicators: Indicators, session: Direction): Option<Evidence> {
    if indicators.bb4.None? then None
    else
      var touch := TouchDirection(c, indicators);
      if touch.None? || touch.value != session then None
      else
        var direction := touch.value;
        var signalType :=
          if (direction == LONG && TouchesLower(c, indicators.bb20))
             || (direction == SHORT && TouchesUpper(c, indicators.bb20)) then DOUBLE_B
          else ONE_B;
        if signalType == ONE_B && !SlopeAgrees(indicators, direction) then None
        else
          var aGrade := if direction == LONG then TouchesLower(c, indicators.bb4OneHour)
                        else TouchesUpper(c, indicators.bb4OneHour);
          Some(Evidence(signalType, direction, c.close, CalcSlPrice(c, direction), aGrade))
  }

  /**
   On a well-formed candle the stop lies beyond the candle's extreme, so on the losing side
   of the close and out of the candle's own reach, exactly when the candle has a range. On a
   flat candle it is the close itself.
   */
  lemma StopBeyondExtreme(c: Candle, direction: Direction)
    requires WellFormed(c)
    ensures c.low < c.high <==> Sizer.StopOnLosingSide(direction, c.close, CalcSlPrice(c, direction))
    ensures c.low < c.high ==> if direction == LONG then CalcSlPrice(c, direction) < c.low
                               else CalcSlPrice(c, direction) > c.high
    ensures c.low == c.high ==> CalcSlPrice(c, direction) == c.close
  {
  }

  /**
   How far: fifteen percent of the tail between the extreme and the nearer of open and close,
   or of the whole range where there is no tail.
   */
  lemma StopDistance(c: Candle, direction: Direction)
    requires WellFormed(c) && c.low < c.high
    ensures var sl := CalcSlPrice(c, direction);
      && (direction == LONG && c.low < c.open && c.low < c.close ==>
            20.0 * (c.low - sl) == 3.0 * ((if c.open < c.close then c.open else c.close) - c.low))
      && (direction == LONG && (c.low == c.open || c.low == c.close) ==> 20.0 * (c.low - sl) == 3.0 * (c.high - c.low))
      && (direction == SHORT && c.open < c.high && c.close < c.high ==>
            20.0 * (sl - c.high) == 3.0 * (c.high - (if c.open > c.close then c.open else c.close)))
      && (direction == SHORT && (c.high == c.open || c.high == c.close) ==>
            20.0 * (sl - c.high) == 3.0 * (c.high - c.low))
  {
  }

  /**
   Which candles are evidence for a session: the inner band must be touched on the session's side,
   and for a short one not on both; then either the outer band is touched as well or
   the moving average, where its slope is known, slopes that way.
   */
  lemma EvidenceIff(c: Candle, indicators: Indicators, session: Direction)
    requires indicators.bb4.Some?
    ensures var (low4, high4) := (c.low <= indicators.bb4.value.lower, c.high >= indicators.bb4.value.upper);
      var outer := indicators.bb20.Some? && if session == LONG then c.low <= indicators.bb20.value.lower
                                            else c.high >= indicators.bb20.value.upper;
      var slope := indicators.sma20.Some? && indicators.prevSma20.Some? ==>
                     if session == LONG then indicators.sma20.value > indicators.prevSma20.value
                     else indicators.sma20.value < indicators.prevSma20.value;
      var e := CheckEvidence(c, indicators, session);
      && (e.Some? <==> (if session == LONG then low4 else high4 && !low4) && (outer || slope))
      && (e.Some? ==>
            && (e.value.signalType == DOUBLE_B <==> outer)
            && e.value.slPrice == CalcSlPrice(c, session)
            && (e.value.aGrade <==> indicators.bb4OneHour.Some?
                                    && if session == LONG then c.low <= indicators.bb4OneHour.value.lower
                                       else c.high >= indicators.bb4OneHour.value.upper))
  {
  }

  lemma NoBandNoEvidence(c: Candle, indicators: Indicators, session: Direction)
    ensures indicators.bb4.None? ==> CheckEvidence(c, indicators, session).None?
  {
  }

  /** With the risk share of the account and a positive balance, only a flat candle makes the sizer throw. */
  lemma EvidenceIsSizable(c: Candle, indicators: Indicators, session: Direction, balance: real, info: Sizer.SymbolInfo)
    requires WellFormed(c) && c.close > 0.0 && info.tickSize > 0.0 && balance > 0.0
    requires CheckEvidence(c, indicators, session).Some?
    ensures var e := CheckEvidence(c, indicators, session).value;
      && e.direction == session && e.entryPrice == c.close
      && (Sizer.CalculateSize(balance, e.entryPrice, e.slPrice, e.direction, info, Sizer.GetRiskPct(balance)).Rejected?
          <==> c.low == c.high)
  {
    var e := CheckEvidence(c, indicators, session).value;
    StopBeyondExtreme(c, session);
    Sizer.RiskPctAntitone(balance, balance);
    Sizer.CalculateSizeLaw(balance, e.entryPrice, e.slPrice, e.direction, info, Sizer.GetRiskPct(balance));
  }

  // ---- Long and short are mirror images ----

  function MirrorCandle(c: Candle): Candle {
    c.(open := -c.open, high := -c.low, low := -c.high, close := -c.close)
  }

  function MirrorBand(b: Option<Band>): Option<Band> {
    if b.None? then None else Some(Band(-b.value.lower, -b.value.upper))
  }

  function MirrorValue(v: Option<real>): Option<real> {
    if v.None? then None else Some(-v.value)
  }

  function Mirror(i: Indicators): Indicators {
    Indicators(MirrorBand(i.bb4), MirrorBand(i.bb20), MirrorBand(i.bb4OneHour),
               MirrorValue(i.sma20), MirrorValue(i.prevSma20))
  }

  /**
   Turning every price upside down turns a long signal into the short signal with the
   mirrored entry and stop, and no signal into none, as long as one candle does not touch
   both bands: then the lower band wins.
   */
  lemma LongShortMirror(c: Candle, indicators: Indicators)
    requires !(TouchesLower(c, indicators.bb4) && TouchesUpper(c, indicators.bb4))
    ensures CheckEvidence(MirrorCandle(c), Mirror(indicators), SHORT)
         == match CheckEvidence(c, indicators, LONG)
            case None => None
            case Some(e) => Some(e.(direction := SHORT, entryPrice := -e.entryPrice, slPrice := -e.slPrice))
  {
    assert CalcSlPrice(MirrorCandle(c), SHORT) == -CalcSlPrice(c, LONG);
  }

  /** A candle that touches both bands is long evidence or none, whatever the session waits for. */
  lemma BothBandsFavourLong(c: Candle, indicators: Indicators)
    requires TouchesLower(c, indicators.bb4) && TouchesUpper(c, indicators.bb4)
    ensures CheckEvidence(c, indicators, SHORT).None?
    ensures CheckEvidence(c, indicators, LONG).None? <==>
              !TouchesLower(c, indicators.bb20) && !SlopeAgrees(indicators, LONG)
  {
  }
}
