/**
 The candle collector's handling of one incoming candle: reconnection detection per
 subscription and deduplication of close notifications through a bounded FIFO cache.
 */
module Collector {
  import opened Core
  import opened Keys
  import GapDetection

  const MAX_RECENT_CLOSES := 1000
  const RECONNECT_MULTIPLIER := 3

  datatype Arrival = Arrival(symbol: string, exchange: Exchange, timeframe: Timeframe, openTime: int, isClosed: bool)

  function DedupKey(candle: Arrival): string {
    Join(Join(Join(candle.symbol, ExchangeName(candle.exchange)), TimeframeName(candle.timeframe)),
         IntText(candle.openTime))
  }

  /** The concatenated key tells candles apart exactly by symbol, exchange, timeframe and open time. */
  lemma DedupKeyInjective(a: Arrival, b: Arrival)
    ensures DedupKey(a) == DedupKey(b) <==>
      a.symbol == b.symbol && a.exchange == b.exchange && a.timeframe == b.timeframe && a.openTime == b.openTime
  {
    hide Join, NoColon, ExchangeName, TimeframeName, IntText;
    var (ea, eb) := (Join(a.symbol, ExchangeName(a.exchange)), Join(b.symbol, ExchangeName(b.exchange)));
    var (ta, tb) := (Join(ea, TimeframeName(a.timeframe)), Join(eb, TimeframeName(b.timeframe)));
    JoinInjective(ta, IntText(a.openTime), tb, IntText(b.openTime));
    JoinInjective(ea, TimeframeName(a.timeframe), eb, TimeframeName(b.timeframe));
    JoinInjective(a.symbol, ExchangeName(a.exchange), b.symbol, ExchangeName(b.exchange));
    IntTextInjective(a.openTime, b.openTime);
    TimeframeNameInjective(a.timeframe, b.timeframe);
    ExchangeNameInjective(a.exchange, b.exchange);
  }

  // ---- What is notified ----

  /** The last thousand notifications, which is what the cache must hold. */
  function Recent(log: seq<string>): seq<string> {
    if |log| <= MAX_RECENT_CLOSES then log else log[|log| - MAX_RECENT_CLOSES..]
  }

  /** Keys notified over a whole run: a closed candle unless its key is among the recent ones. */
  function Notified(arrivals: seq<Arrival>): seq<string> {
    if arrivals == [] then []
    else
      var log, candle := Notified(arrivals[..|arrivals| - 1]), arrivals[|arrivals| - 1];
      if candle.isClosed && DedupKey(candle) !in Recent(log) then log + [DedupKey(candle)] else log
  }

  /** Any two of a thousand and one consecutive notifications differ. */
  ghost predicate FarApart(log: seq<string>) {
    forall i, j :: 0 <= i < j < |log| && j - i <= 1000 ==> log[i] != log[j]
  }

  /**
   Hence between two notifications of one key at least a thousand others happened, all of
   pairwise distinct other keys among the last thousand.
   */
  lemma {:induction false} RepeatsAreFarApart(arrivals: seq<Arrival>)
    ensures FarApart(Notified(arrivals))
  {
    hide DedupKey, Recent;
    if arrivals != [] {
      RepeatsAreFarApart(arrivals[..|arrivals| - 1]);
      var log, key := Notified(arrivals[..|arrivals| - 1]), DedupKey(arrivals[|arrivals| - 1]);
      if key !in Recent(log) {
        FarApartPush(log, key);
      }
    }
  }

  lemma FarApartPush(log: seq<string>, key: string)
    requires FarApart(log) && key !in Recent(log)
    ensures FarApart(log + [key])
  {
    hide Recent;
    forall i | 0 <= i < |log| && |log| - i <= MAX_RECENT_CLOSES
      ensures log[i] != key
    {
      InRecent(log, i);
    }
  }

  lemma RecentBounded(log: seq<string>)
    ensures |Recent(log)| <= MAX_RECENT_CLOSES
  {
  }

  lemma InRecent(log: seq<string>, i: nat)
    requires i < |log| && |log| - i <= MAX_RECENT_CLOSES
    ensures log[i] in Recent(log)
  {
    if |log| > MAX_RECENT_CLOSES {
      assert Recent(log)[i - (|log| - MAX_RECENT_CLOSES)] == log[i];
    }
  }

  /** Adding to the cache and evicting its oldest entry keeps the last thousand. */
  lemma RecentPush(log: seq<string>, key: string)
    ensures var pushed := Recent(log) + [key];
            Recent(log + [key]) == if |pushed| > MAX_RECENT_CLOSES then pushed[1..] else pushed
  {
    if |log| >= MAX_RECENT_CLOSES {
      assert Recent(log) == log[|log| - MAX_RECENT_CLOSES..];
      assert Recent(log + [key]) == (log + [key])[|log| + 1 - MAX_RECENT_CLOSES..];
    }
  }

  /** No closed candle is lost: right after it arrives its key is among the last thousand notified. */
  lemma ClosedCandleIsNotified(arrivals: seq<Arrival>)
    requires arrivals != [] && arrivals[|arrivals| - 1].isClosed
    ensures DedupKey(arrivals[|arrivals| - 1]) in Recent(Notified(arrivals))
  {
    hide DedupKey;
    var log, key := Notified(arrivals[..|arrivals| - 1]), DedupKey(arrivals[|arrivals| - 1]);
    if key !in Recent(log) {
      InRecent(log + [key], |log|);
    }
  }

  /**
   And none is held back for longer: a closed candle is notified exactly when its key is not
   among the last thousand notified.
   */
  lemma NotifiedIff(arrivals: seq<Arrival>, candle: Arrival)
    requires candle.isClosed
    ensures var (log, key) := (Notified(arrivals), DedupKey(candle));
      Notified(arrivals + [candle]) != log <==>
        forall i :: 0 <= i < |log| && |log| - i <= 1000 ==> log[i] != key
  {
    hide DedupKey;
    var (log, key) := (Notified(arrivals), DedupKey(candle));
    NotifiedPush(arrivals, candle);
    assert |log + [key]| != |log|;
    if key in Recent(log) {
      var i :| 0 <= i < |Recent(log)| && Recent(log)[i] == key;
      assert log[|log| - |Recent(log)| + i] == key;
    } else {
      forall i | 0 <= i < |log| && |log| - i <= 1000
        ensures log[i] != key
      {
        InRecent(log, i);
      }
    }
  }

  lemma NotifiedPush(arrivals: seq<Arrival>, candle: Arrival)
    ensures var log := Notified(arrivals);
      Notified(arrivals + [candle]) ==
      if candle.isClosed && DedupKey(candle) !in Recent(log) then log + [DedupKey(candle)] else log
  {
    hide DedupKey, Recent;
    assert (arrivals + [candle])[..|arrivals|] == arrivals;
  }

  // ---- The collector ----

  class CandleCollector {
    var lastReceivedAt: Option<int>
    var lastReceivedPerSub: map<string, int>
    /** An insertion-ordered set: distinct keys, oldest first. */
    var recentCloses: seq<string>
    /** Everything received so far. */
    ghost var received: seq<Arrival>

    ghost predicate Valid()
      reads this
    {
      recentCloses == Recent(Notified(received))
    }

    constructor ()
      ensures Valid() && received == [] && lastReceivedPerSub == map[] && lastReceivedAt == None
    {
      lastReceivedAt, lastReceivedPerSub, recentCloses, received := None, map[], [], [];
    }

    /** Returns whether the reconnect and the close callbacks fire. */
    method HandleCandle(candle: Arrival, key: string, timeframe: Timeframe, now: int)
      returns (reconnected: bool, notified: bool)
      requires Valid()
      modifies this
      ensures Valid() && received == old(received) + [candle] && |recentCloses| <= MAX_RECENT_CLOSES
      ensures Notified(received) == Notified(old(received)) + (if notified then [DedupKey(candle)] else [])
      ensures reconnected == (key in old(lastReceivedPerSub)
                              && now - old(lastReceivedPerSub)[key] > 3 * GapDetection.Duration(timeframe))
      ensures lastReceivedPerSub == old(lastReceivedPerSub)[key := now] && lastReceivedAt == Some(now)
    {
      hide DedupKey, Recent, Notified, GapDetection.Duration;
      RecentBounded(Notified(received));
      NotifiedPush(received, candle);
      reconnected, notified := false, false;
      if key in lastReceivedPerSub {
        var gap := now - lastReceivedPerSub[key];
        reconnected := gap > GapDetection.Duration(timeframe) * RECONNECT_MULTIPLIER;
      }
      lastReceivedAt := Some(now);
      lastReceivedPerSub := lastReceivedPerSub[key := now];
      if candle.isClosed {
        var dedupKey := DedupKey(candle);
        if dedupKey !in recentCloses {
          RecentPush(Notified(received), dedupKey);
          recentCloses := recentCloses + [dedupKey];
          if |recentCloses| > MAX_RECENT_CLOSES {
            recentCloses := recentCloses[1..];
          }
          notified := true;
        }
      }
      received := received + [candle];
    }
  }
}
