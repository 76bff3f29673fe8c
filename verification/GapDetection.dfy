/**
 Detection of missing candles from the open times of the stored ones. Times are
 milliseconds; the stored open times arrive in increasing order without repetition.
 */
module GapDetection {
  import opened Core

  datatype CandleGap = CandleGap(from: int, to: int, expectedCount: int)

  function Duration(timeframe: Timeframe): (d: int)
    ensures d > 0
  {
    match timeframe
    case D1 => 86400000
    case H1 => 3600000
    case M5 => 300000
    case M1 => 60000
  }

  /** A minute, five of them, an hour and a day, in milliseconds. */
  lemma Durations()
    ensures Duration(M1) == 60 * 1000 && Duration(M5) == 5 * Duration(M1)
    ensures Duration(H1) == 60 * Duration(M1) && Duration(D1) == 24 * Duration(H1)
  {
  }

  /** `Math.round(p / q)`: to the nearest integer, halves upwards. */
  function Round(p: int, q: int): (r: int)
    requires q > 0
  {
    (2 * p + q) / (2 * q)
  }

  lemma RoundIsNearest(p: int, q: int)
    requires q > 0
    ensures 2 * p - q < 2 * (Round(p, q) * q) <= 2 * p + q
  {
    var r := Round(p, q);
    assert 2 * p + q == (2 * q) * r + (2 * p + q) % (2 * q);
    assert (2 * q) * r == 2 * (r * q);
  }

  lemma Scale(y: int, a: int, b: int)
    requires y > 0
    ensures y * a < y * b <==> a < b
  {
  }

  lemma Quotient(x: int, y: int, k: int)
    requires y > 0 && y * k <= x < y * k + y
    ensures x / y == k
  {
    Scale(y, x / y, k + 1);
    Scale(y, k, x / y + 1);
  }

  predicate Increasing(ts: seq<int>) {
    forall i, j :: 0 <= i < j < |ts| ==> ts[i] < ts[j]
  }

  predicate OnGrid(ts: seq<int>, d: int)
    requires d > 0
  {
    forall i :: 0 <= i < |ts| ==> Slot(ts[i], ts[0], d)
  }

  /** A whole number of durations from the origin. */
  predicate Slot(t: int, origin: int, d: int)
    requires d > 0
  {
    (t - origin) % d == 0
  }

  // ---- The gaps between neighbours ----

  /** Neighbours more than one and a half durations apart have a gap between them. */
  function Between(a: int, b: int, d: int): seq<CandleGap>
    requires d > 0
  {
    if 2 * (b - a) > 3 * d then [CandleGap(a + d, b - d, Round(b - a - d, d))] else []
  }

  function Gaps(ts: seq<int>, d: int): seq<CandleGap>
    requires d > 0
  {
    if |ts| <= 1 then []
    else Gaps(ts[..|ts| - 1], d) + Between(ts[|ts| - 2], ts[|ts| - 1], d)
  }

  // ---- Merging ----

  predicate Adjacent(prev: CandleGap, curr: CandleGap, d: int) {
    2 * (curr.from - prev.to) <= 3 * d
  }

  /** Absorbs each gap that starts within the threshold after the last merged one. */
  function Merged(gaps: seq<CandleGap>, d: int): (merged: seq<CandleGap>)
    ensures gaps != [] ==> merged != []
  {
    if |gaps| <= 1 then gaps
    else
      var before := Merged(gaps[..|gaps| - 1], d);
      var prev, curr := before[|before| - 1], gaps[|gaps| - 1];
      if Adjacent(prev, curr, d)
      then before[|before| - 1 := prev.(to := curr.to, expectedCount := prev.expectedCount + curr.expectedCount)]
      else before + [curr]
  }

  function TotalExpected(gaps: seq<CandleGap>): int {
    if gaps == [] then 0 else TotalExpected(gaps[..|gaps| - 1]) + gaps[|gaps| - 1].expectedCount
  }

  /** Merging keeps the number of missing candles and the outer ends. */
  lemma {:induction false} MergingConserves(gaps: seq<CandleGap>, d: int)
    ensures TotalExpected(Merged(gaps, d)) == TotalExpected(gaps)
    ensures gaps != [] ==>
      var merged := Merged(gaps, d);
      merged[0].from == gaps[0].from && merged[|merged| - 1].to == gaps[|gaps| - 1].to
  {
    if |gaps| > 1 {
      MergingConserves(gaps[..|gaps| - 1], d);
      var before, merged := Merged(gaps[..|gaps| - 1], d), Merged(gaps, d);
      if Adjacent(before[|before| - 1], gaps[|gaps| - 1], d) {
        assert merged[..|merged| - 1] == before[..|before| - 1];
      } else {
        assert merged[..|merged| - 1] == before;
      }
    }
  }

  ghost predicate NoneAdjacent(gaps: seq<CandleGap>, d: int) {
    forall i :: 0 <= i < |gaps| - 1 ==> !Adjacent(gaps[i], gaps[i + 1], d)
  }

  lemma NoneAdjacentPush(gaps: seq<CandleGap>, d: int)
    requires |gaps| > 1
    ensures NoneAdjacent(gaps, d) <==>
      NoneAdjacent(gaps[..|gaps| - 1], d) && !Adjacent(gaps[|gaps| - 2], gaps[|gaps| - 1], d)
  {
    hide Adjacent;
    var shorter := gaps[..|gaps| - 1];
    assert forall i :: 0 <= i < |shorter| ==> shorter[i] == gaps[i];
    if NoneAdjacent(gaps, d) {
      assert !Adjacent(gaps[|gaps| - 2], gaps[|gaps| - 2 + 1], d);
    }
  }

  lemma {:induction false} MergingShortens(gaps: seq<CandleGap>, d: int)
    ensures |Merged(gaps, d)| <= |gaps|
  {
    hide Adjacent;
    if |gaps| > 1 {
      MergingShortens(gaps[..|gaps| - 1], d);
    }
  }

  /** Merging changes nothing exactly when no two neighbouring gaps are adjacent. */
  lemma {:induction false} MergingIsIdentityIff(gaps: seq<CandleGap>, d: int)
    ensures Merged(gaps, d) == gaps <==> NoneAdjacent(gaps, d)
  {
    hide Adjacent, NoneAdjacent;
    if |gaps| <= 1 {
      ShortHasNoneAdjacent(gaps, d);
    } else {
      var shorter, last := gaps[..|gaps| - 1], gaps[|gaps| - 1];
      assert gaps == shorter + [last];
      MergingIsIdentityIff(shorter, d);
      MergingShortens(shorter, d);
      NoneAdjacentPush(gaps, d);
      var merged := Merged(shorter, d);
      if merged == shorter {
        assert merged[|merged| - 1] == gaps[|gaps| - 2];
      } else if !Adjacent(merged[|merged| - 1], last, d) {
        assert (merged + [last])[..|merged|] == merged;
        assert |merged| == |shorter| ==> gaps[..|merged|] == shorter;
      }
    }
  }

  lemma ShortHasNoneAdjacent(gaps: seq<CandleGap>, d: int)
    requires |gaps| <= 1
    ensures NoneAdjacent(gaps, d)
  {
  }

  /** Every gap lies strictly inside the stored range, and a stored candle separates two gaps. */
  lemma {:induction false} GapsApart(ts: seq<int>, d: int)
    requires d > 0 && Increasing(ts)
    ensures forall g :: g in Gaps(ts, d) ==> ts[0] + d <= g.from && g.to <= ts[|ts| - 1] - d
    ensures forall i :: 0 <= i < |Gaps(ts, d)| - 1 ==> Gaps(ts, d)[i + 1].from - Gaps(ts, d)[i].to >= 2 * d
  {
    if |ts| > 1 {
      GapsApart(ts[..|ts| - 1], d);
    }
  }

  /** So merging never changes what was found between stored candles. */
  lemma MergingFindsNothing(ts: seq<int>, d: int)
    requires d > 0 && Increasing(ts)
    ensures Merged(Gaps(ts, d), d) == Gaps(ts, d)
  {
    hide Gaps, Merged;
    GapsApart(ts, d);
    MergingIsIdentityIff(Gaps(ts, d), d);
  }

  // ---- The procedure ----

  /** What the procedure reports for a requested range. */
  function Detected(ts: seq<int>, d: int, from: int, to: int): seq<CandleGap>
    requires d > 0
  {
    if ts == [] then
      var n := Round(to - from, d);
      [CandleGap(from, to, if n < 1 then 1 else n)]
    else Gaps(ts, d)
  }

  lemma GapsStep(ts: seq<int>, i: nat, d: int)
    requires d > 0 && i + 1 < |ts|
    ensures Gaps(ts[..i + 2], d) == Gaps(ts[..i + 1], d) + Between(ts[i], ts[i + 1], d)
  {
    hide Between;
    assert ts[..i + 2][..i + 1] == ts[..i + 1];
  }

  lemma MergedStep(gaps: seq<CandleGap>, i: nat, d: int)
    requires 1 <= i < |gaps|
    ensures Merged(gaps[..1], d) == [gaps[0]]
    ensures
      var before := Merged(gaps[..i], d);
      var prev := before[|before| - 1];
      Merged(gaps[..i + 1], d) ==
      if Adjacent(prev, gaps[i], d)
      then before[|before| - 1 := prev.(to := gaps[i].to, expectedCount := prev.expectedCount + gaps[i].expectedCount)]
      else before + [gaps[i]]
  {
    hide Adjacent;
    assert gaps[..i + 1][..i] == gaps[..i];
    assert gaps[..1] == [gaps[0]];
  }

  method DetectGaps(timestamps: seq<int>, timeframe: Timeframe, from: int, to: int) returns (merged: seq<CandleGap>)
    requires Increasing(timestamps)
    ensures merged == Detected(timestamps, Duration(timeframe), from, to)
  {
    hide Duration, Round, Gaps, Merged, Increasing, Adjacent;
    var d := Duration(timeframe);
    if |timestamps| == 0 {
      var expectedCount := Round(to - from, d);
      return [CandleGap(from, to, if 1 < expectedCount then expectedCount else 1)];
    }
    var gaps := [];
    SingleHasNoGap(timestamps, d);
    for i := 0 to |timestamps| - 1
      invariant gaps == Gaps(timestamps[..i + 1], d)
    {
      var diff := timestamps[i + 1] - timestamps[i];
      GapsStep(timestamps, i, d);
      if 2 * diff > 3 * d {
        gaps := gaps + [CandleGap(timestamps[i] + d, timestamps[i + 1] - d, Round(diff - d, d))];
      }
    }
    assert timestamps[..|timestamps|] == timestamps;
    MergingFindsNothing(timestamps, d);
    if |gaps| <= 1 {
      return gaps;
    }
    merged := [gaps[0]];
    MergedStep(gaps, 1, d);
    for i := 1 to |gaps|
      invariant |merged| >= 1 && merged == Merged(gaps[..i], d)
    {
      var prev, curr := merged[|merged| - 1], gaps[i];
      MergedStep(gaps, i, d);
      if Adjacent(prev, curr, d) {
        var grown := prev.(to := curr.to, expectedCount := prev.expectedCount + curr.expectedCount);
        merged := merged[|merged| - 1 := grown];
      } else {
        merged := merged + [curr];
      }
    }
    assert gaps[..|gaps|] == gaps;
  }

  lemma SingleHasNoGap(ts: seq<int>, d: int)
    requires d > 0 && ts != []
    ensures Gaps(ts[..1], d) == []
  {
  }

  // ---- What the gaps are in durations ----

  /**
   Neighbours have a gap exactly when they are more than one and a half durations apart. It runs
   from one duration after the first to one before the second, and counts the candles that fit
   in between to the nearest whole, halves upwards.
   */
  lemma BetweenIff(a: int, b: int, d: int)
    requires d > 0
    ensures Between(a, b, d) == [] <==> (b - a) as real <= 1.5 * d as real
    ensures Between(a, b, d) != [] ==>
      var gap := Between(a, b, d)[0];
      && |Between(a, b, d)| == 1 && gap.from == a + d && gap.to == b - d
      && 2 * (b - a - d) - d < 2 * (gap.expectedCount * d) <= 2 * (b - a - d) + d
  {
    RoundIsNearest(b - a - d, d);
    hide Round;
    assert (b - a) as real <= 1.5 * d as real <==> 2 * (b - a) <= 3 * d;
  }

  /** With nothing stored the whole range is one gap of at least one candle, counted the same way. */
  lemma NothingStored(d: int, from: int, to: int)
    requires d > 0
    ensures var gaps := Detected([], d, from, to);
      && |gaps| == 1 && gaps[0].from == from && gaps[0].to == to && gaps[0].expectedCount >= 1
      && (gaps[0].expectedCount > 1 ==> 2 * (gaps[0].expectedCount * d) <= 2 * (to - from) + d)
      && 2 * (to - from) - d < 2 * (gaps[0].expectedCount * d)
  {
    RoundIsNearest(to - from, d);
    AtLeastOne(Round(to - from, d), d);
  }

  lemma AtLeastOne(n: int, d: int)
    requires d > 0
    ensures n < 1 ==> n * d <= 1 * d
  {
    Scale(d, n, 1);
    assert n * d == d * n;
  }

  /** Two gaps are merged exactly when at most one and a half durations lie between them. */
  lemma AdjacentIff(prev: CandleGap, curr: CandleGap, d: int)
    ensures Adjacent(prev, curr, d) <==> (curr.from - prev.to) as real <= 1.5 * d as real
  {
  }

  // ---- What the gaps mean on the grid ----

  lemma SlotsApart(a: int, b: int, origin: int, d: int)
    requires d > 0 && Slot(a, origin, d) && Slot(b, origin, d) && a < b
    ensures a + d <= b && (b - a) % d == 0
    ensures (b - origin) / d == (a - origin) / d + (b - a) / d
  {
    var i, j := (a - origin) / d, (b - origin) / d;
    assert a - origin == d * i && b - origin == d * j;
    Scale(d, i, j);
    Scale(d, i + 1, j + 1);
    assert d * (j - i) == b - a;
    assert j - i >= 1 && d * 1 <= d * (j - i) by { Scale(d, j - i, 1); }
    Quotient(b - a, d, j - i);
  }

  ghost predicate Reported(s: int, gaps: seq<CandleGap>) {
    exists g :: g in gaps && g.from <= s <= g.to
  }

  lemma ReportedAppend(s: int, a: seq<CandleGap>, b: seq<CandleGap>)
    ensures Reported(s, a + b) <==> Reported(s, a) || Reported(s, b)
  {
    assert forall g :: g in a + b <==> g in a || g in b;
  }

  lemma ReportedBetween(s: int, a: int, b: int, d: int)
    requires d > 0
    ensures Reported(s, Between(a, b, d)) <==> 2 * (b - a) > 3 * d && a + d <= s <= b - d
  {
    hide Round;
    if 2 * (b - a) > 3 * d {
      assert CandleGap(a + d, b - d, Round(b - a - d, d)) in Between(a, b, d);
    }
  }

  /** On the timeframe's grid, the gaps contain exactly the slots without a candle. */
  lemma {:induction false} GapsAreMissingSlots(ts: seq<int>, d: int, s: int)
    requires d > 0 && |ts| > 0 && Increasing(ts) && OnGrid(ts, d)
    requires ts[0] <= s <= ts[|ts| - 1] && Slot(s, ts[0], d)
    ensures Reported(s, Gaps(ts, d)) <==> s !in ts
  {
    hide Slot, Between, Reported, Gaps;
    var n := |ts|;
    if n == 1 {
      NoneReported(s, ts, d);
    } else {
      var before, a, b := ts[..n - 1], ts[n - 2], ts[n - 1];
      assert ts == before + [b];
      LastGaps(ts, d);
      ReportedAppend(s, Gaps(before, d), Between(a, b, d));
      ReportedBetween(s, a, b, d);
      if s <= a {
        GapsAreMissingSlots(before, d, s);
      } else {
        NoneReported(s, before, d);
        assert s !in before;
        SlotsApart(a, s, ts[0], d);
        if s < b {
          SlotsApart(s, b, ts[0], d);
        }
      }
    }
  }

  lemma LastGaps(ts: seq<int>, d: int)
    requires d > 0 && |ts| > 1
    ensures Gaps(ts, d) == Gaps(ts[..|ts| - 1], d) + Between(ts[|ts| - 2], ts[|ts| - 1], d)
  {
  }

  ghost predicate Missing(s: int, ts: seq<int>, from: int, to: int, origin: int, d: int)
    requires d > 0
  {
    from <= s <= to && Slot(s, origin, d) && s !in ts
  }

  /**
   Every missing slot of the requested range is reported exactly when nothing is stored, or the
   range's first and last slots are: slots before the first and after the last candle never are.
   */
  lemma RangeReportedIff(ts: seq<int>, d: int, from: int, to: int, origin: int)
    requires d > 0 && Increasing(ts)
    requires forall i :: 0 <= i < |ts| ==> from <= ts[i] <= to && Slot(ts[i], origin, d)
    ensures (forall s :: Missing(s, ts, from, to, origin, d) ==> Reported(s, Detected(ts, d, from, to))) <==>
            ts == [] || (ts[0] - d < from && to < ts[|ts| - 1] + d)
  {
    hide Slot, Reported, Gaps, Round;
    if ts == [] {
      forall s | from <= s <= to
        ensures Reported(s, Detected(ts, d, from, to))
      {
        WholeRangeReported(s, d, from, to);
      }
    } else {
      var first, last := ts[0], ts[|ts| - 1];
      SlotShifts(first, origin, d);
      SlotShifts(last, origin, d);
      if first - d >= from {
        NoneReported(first - d, ts, d);
        assert Missing(first - d, ts, from, to, origin, d);
      }
      if last + d <= to {
        NoneReported(last + d, ts, d);
        assert Missing(last + d, ts, from, to, origin, d);
      }
      if first - d < from && to < last + d {
        forall s | Missing(s, ts, from, to, origin, d)
          ensures Reported(s, Gaps(ts, d))
        {
          InnerMissingReported(ts, d, s, origin);
        }
      }
    }
  }

  lemma WholeRangeReported(s: int, d: int, from: int, to: int)
    requires d > 0 && from <= s <= to
    ensures Reported(s, Detected([], d, from, to))
  {
    hide Round;
    assert Detected([], d, from, to)[0] in Detected([], d, from, to);
  }

  lemma SlotShifts(t: int, origin: int, d: int)
    requires d > 0 && Slot(t, origin, d)
    ensures Slot(t - d, origin, d) && Slot(t + d, origin, d)
  {
    var k := (t - origin) / d;
    assert t - origin == d * k;
    assert t - d - origin == d * (k - 1) && t + d - origin == d * (k + 1);
    Multiple(t - d - origin, d, k - 1);
    Multiple(t + d - origin, d, k + 1);
  }

  lemma Multiple(x: int, d: int, k: int)
    requires d > 0 && x == d * k
    ensures x % d == 0
  {
    Quotient(x, d, k);
  }

  lemma SlotFrom(t: int, a: int, origin: int, d: int)
    requires d > 0 && Slot(t, origin, d) && Slot(a, origin, d)
    ensures Slot(t, a, d)
  {
    var i, j := (t - origin) / d, (a - origin) / d;
    assert t - origin == d * i && a - origin == d * j;
    Multiple(t - a, d, i - j);
  }

  lemma InnerMissingReported(ts: seq<int>, d: int, s: int, origin: int)
    requires d > 0 && ts != [] && Increasing(ts) && Slot(s, origin, d) && s !in ts
    requires forall i :: 0 <= i < |ts| ==> Slot(ts[i], origin, d)
    requires ts[0] - d < s < ts[|ts| - 1] + d
    ensures Reported(s, Gaps(ts, d))
  {
    hide Slot, Reported, Gaps;
    var first, last := ts[0], ts[|ts| - 1];
    if s < first {
      SlotsApart(s, first, origin, d);
    } else if s > last {
      SlotsApart(last, s, origin, d);
    }
    forall i | 0 <= i < |ts|
      ensures Slot(ts[i], first, d)
    {
      SlotFrom(ts[i], first, origin, d);
    }
    SlotFrom(s, first, origin, d);
    GapsAreMissingSlots(ts, d, s);
  }

  lemma NoneReported(s: int, ts: seq<int>, d: int)
    requires d > 0 && |ts| > 0 && Increasing(ts) && (s >= ts[|ts| - 1] || s <= ts[0])
    ensures !Reported(s, Gaps(ts, d))
  {
    hide Gaps;
    GapsApart(ts, d);
  }

  /** And their expected counts add up to the number of those slots. */
  lemma {:induction false} ExpectedCountsAddUp(ts: seq<int>, d: int)
    requires d > 0 && |ts| > 0 && Increasing(ts) && OnGrid(ts, d)
    ensures TotalExpected(Gaps(ts, d)) == (ts[|ts| - 1] - ts[0]) / d + 1 - |ts|
  {
    hide Slot, Between;
    var n := |ts|;
    if n == 1 {
      Quotient(0, d, 0);
    } else {
      var before, a, b := ts[..n - 1], ts[n - 2], ts[n - 1];
      ExpectedCountsAddUp(before, d);
      LastGaps(ts, d);
      hide Gaps, TotalExpected;
      SlotsApart(a, b, ts[0], d);
      AppendBetween(Gaps(before, d), a, b, d);
    }
  }

  lemma AppendBetween(gaps: seq<CandleGap>, a: int, b: int, d: int)
    requires d > 0 && a < b && (b - a) % d == 0
    ensures TotalExpected(gaps + Between(a, b, d)) == TotalExpected(gaps) + (b - a) / d - 1
  {
    hide Round;
    StepCount(a, b, d);
    if 2 * (b - a) > 3 * d {
      assert (gaps + Between(a, b, d))[..|gaps|] == gaps;
    } else {
      assert gaps + [] == gaps;
    }
  }

  lemma StepCount(a: int, b: int, d: int)
    requires d > 0 && a < b && (b - a) % d == 0
    ensures if 2 * (b - a) > 3 * d then Round(b - a - d, d) == (b - a) / d - 1 else (b - a) / d == 1
  {
    var k := (b - a) / d;
    assert b - a == d * k;
    Scale(d, 0, k);
    assert b - a - d == d * (k - 1);
    if k > 1 {
      assert d * k >= d * 2 by { Scale(d, k, 2); }
      assert 2 * (d * (k - 1)) == 2 * d * (k - 1);
      Quotient(2 * (b - a - d) + d, 2 * d, k - 1);
    }
  }

  /** Off the grid a gap reports at least one candle, even when it ends before it begins. */
  lemma OffGridGap(a: int, b: int, d: int)
    requires d > 0 && Between(a, b, d) != []
    ensures var gap := Between(a, b, d)[0];
            gap.expectedCount >= 1 && (gap.to < gap.from <==> b - a < 2 * d)
  {
    RoundIsNearest(b - a - d, d);
    Scale(d, 0, Round(b - a - d, d));
    assert Round(b - a - d, d) * d == d * Round(b - a - d, d);
  }
}
