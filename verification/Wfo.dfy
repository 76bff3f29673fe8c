/**
 Rolling in-sample / out-of-sample windows for walk-forward optimisation. Times are
 milliseconds; adding months keeps the day of the month and may overflow into the next one.
 */
module Wfo {
  import opened Calendar

  datatype WfoConfig = WfoConfig(isMonths: int, oosMonths: int, rollMonths: int, start: int, end: int)

  datatype WfoWindow = WfoWindow(isStart: int, isEnd: int, oosStart: int, oosEnd: int, windowIndex: nat)

  /** `setUTCMonth(getUTCMonth() + months)`. */
  function AddMonths(t: int, months: int): int {
    MakeDay(FullYear(t), MonthIndex(t) + months, Date(t)) * MS_PER_DAY + TimeInDay(t)
  }

  function IsStart(cfg: WfoConfig, k: nat): int {
    AddMonths(cfg.start, k * cfg.rollMonths)
  }

  function OosStart(cfg: WfoConfig, k: nat): int {
    AddMonths(IsStart(cfg, k), cfg.isMonths)
  }

  function OosEnd(cfg: WfoConfig, k: nat): int {
    AddMonths(OosStart(cfg, k), cfg.oosMonths)
  }

  function WindowAt(cfg: WfoConfig, k: nat): WfoWindow {
    WfoWindow(IsStart(cfg, k), OosStart(cfg, k), OosStart(cfg, k), OosEnd(cfg, k), k)
  }

  // ---- Month arithmetic ----

  /** The time is on the given date, or that date does not exist and it overflowed by at most three days. */
  ghost predicate Near(t: int, month: int, date: int) {
    || (MonthOf(Day(t)) == month && Date(t) == date)
    || (date >= 29 && MonthOf(Day(t)) == month + 1 && 1 <= Date(t) <= 3)
  }

  lemma AddMonthsDate(t: int, months: int)
    ensures Day(AddMonths(t, months)) == FirstDay(MonthOf(Day(t)) + months) + Date(t) - 1
    ensures TimeInDay(AddMonths(t, months)) == TimeInDay(t)
    ensures var month := MonthOf(Day(t)) + months;
            if Date(t) <= Length(month)
            then MonthOf(Day(AddMonths(t, months))) == month && Date(AddMonths(t, months)) == Date(t)
            else MonthOf(Day(AddMonths(t, months))) == month + 1
                 && Date(AddMonths(t, months)) == Date(t) - Length(month) <= 3
  {
    hide FirstDay, Length, MonthOf;
    var month := MonthOf(Day(t)) + months;
    assert 12 * FullYear(t) + (MonthIndex(t) + months) == month;
    TimeSplits(t);
    TimeJoins(FirstDay(month) + Date(t) - 1, TimeInDay(t));
    DateOfDay(Day(t));
    MonthsTile(MonthOf(Day(t)));
    MonthsTile(month);
    MonthsTile(month + 1);
    if Date(t) <= Length(month) {
      MonthOfUnique(FirstDay(month) + Date(t) - 1, month);
    } else {
      MonthOfUnique(FirstDay(month) + Date(t) - 1, month + 1);
    }
  }

  lemma NearAdded(t: int, month: int, date: int, months: int)
    requires Near(t, month, date)
    ensures Near(AddMonths(t, months), month + months, date)
  {
    hide FirstDay, Length, MonthOf, AddMonths, Day, Date;
    AddMonthsDate(t, months);
    MonthsTile(month + months);
    MonthsTile(month + months + 1);
    DateInMonth(t);
    DateInMonth(AddMonths(t, months));
  }

  lemma DateInMonth(t: int)
    ensures 1 <= Date(t) <= Length(MonthOf(Day(t))) <= 31
    ensures FirstDay(MonthOf(Day(t))) + Date(t) - 1 == Day(t)
  {
    hide FirstDay, Length, MonthOf;
    DateOfDay(Day(t));
    MonthsTile(MonthOf(Day(t)));
  }

  /** Where a window's times lie. */
  lemma WindowNear(cfg: WfoConfig, k: nat)
    ensures var (m, d) := (MonthOf(Day(cfg.start)) + k * cfg.rollMonths, Date(cfg.start));
      && Near(IsStart(cfg, k), m, d)
      && Near(OosStart(cfg, k), m + cfg.isMonths, d)
      && Near(OosEnd(cfg, k), m + cfg.isMonths + cfg.oosMonths, d)
    ensures TimeInDay(IsStart(cfg, k)) == TimeInDay(OosStart(cfg, k)) == TimeInDay(OosEnd(cfg, k))
         == TimeInDay(cfg.start)
  {
    hide FirstDay, Length, MonthOf, AddMonths, Day, Date, TimeInDay;
    var (m, d) := (MonthOf(Day(cfg.start)), Date(cfg.start));
    assert Near(cfg.start, m, d);
    NearAdded(cfg.start, m, d, k * cfg.rollMonths);
    NearAdded(IsStart(cfg, k), m + k * cfg.rollMonths, d, cfg.isMonths);
    NearAdded(OosStart(cfg, k), m + k * cfg.rollMonths + cfg.isMonths, d, cfg.oosMonths);
    AddMonthsDate(cfg.start, k * cfg.rollMonths);
    AddMonthsDate(IsStart(cfg, k), cfg.isMonths);
    AddMonthsDate(OosStart(cfg, k), cfg.oosMonths);
  }

  /** Near the same date of a later month is later, overflow or not. */
  lemma NearLater(a: int, month: int, b: int, month': int, date: int)
    requires Near(a, month, date) && Near(b, month', date) && month < month'
    ensures Day(a) < Day(b)
  {
    hide FirstDay, Length, MonthOf, Day, Date;
    DateInMonth(a);
    DateInMonth(b);
    MonthsTile(month);
    MonthsTile(month');
    LaterMonth(month, month');
    LaterMonth(month + 1, month');
    LaterMonth(month + 1, month' + 1);
  }

  lemma DayDecides(a: int, b: int)
    requires Day(a) < Day(b)
    ensures a < b
  {
  }

  lemma SplitEqual(a: int, b: int)
    requires Day(a) == Day(b) && TimeInDay(a) == TimeInDay(b)
    ensures a == b
  {
    TimeSplits(a);
    TimeSplits(b);
  }

  lemma LaterWindow(j: nat, k: nat, roll: int)
    requires j < k && roll > 0
    ensures j * roll < k * roll
  {
  }

  /** Later windows end later, for every start day of the month. */
  lemma OosEndsIncrease(cfg: WfoConfig, j: nat, k: nat)
    requires cfg.rollMonths > 0 && j < k
    ensures OosEnd(cfg, j) < OosEnd(cfg, k)
  {
    hide FirstDay, Length, MonthOf, AddMonths, Day, Date, TimeInDay, OosEnd, IsStart, OosStart;
    WindowNear(cfg, j);
    WindowNear(cfg, k);
    LaterWindow(j, k, cfg.rollMonths);
    var m := MonthOf(Day(cfg.start)) + cfg.isMonths + cfg.oosMonths;
    NearLater(OosEnd(cfg, j), m + j * cfg.rollMonths, OosEnd(cfg, k), m + k * cfg.rollMonths, Date(cfg.start));
    DayDecides(OosEnd(cfg, j), OosEnd(cfg, k));
  }

  /** A window whose end month is past the range's last month does not fit. */
  lemma EndMonthBound(cfg: WfoConfig, k: nat)
    requires OosEnd(cfg, k) <= cfg.end
    ensures MonthOf(Day(cfg.start)) + k * cfg.rollMonths + cfg.isMonths + cfg.oosMonths <= MonthOf(Day(cfg.end))
  {
    hide FirstDay, Length, MonthOf, AddMonths, OosEnd, IsStart, OosStart;
    WindowNear(cfg, k);
    assert Day(OosEnd(cfg, k)) <= Day(cfg.end);
    MonthsInOrder(Day(OosEnd(cfg, k)), Day(cfg.end));
  }

  lemma MonthsInOrder(a: int, b: int)
    requires a <= b
    ensures MonthOf(a) <= MonthOf(b)
  {
    hide FirstDay, Length, MonthOf;
    if MonthOf(b) < MonthOf(a) {
      LaterMonth(MonthOf(b) + 1, MonthOf(a));
    }
  }

  /** Without a forward roll, once the first window fits all do: the loop would never stop. */
  lemma BackwardRollNeverStops(cfg: WfoConfig, k: nat)
    requires cfg.rollMonths <= 0 && OosEnd(cfg, 0) <= cfg.end
    ensures OosEnd(cfg, k) <= cfg.end
  {
    hide FirstDay, Length, MonthOf, AddMonths, Day, Date, TimeInDay, OosEnd, IsStart, OosStart;
    WindowNear(cfg, 0);
    WindowNear(cfg, k);
    var m := MonthOf(Day(cfg.start)) + cfg.isMonths + cfg.oosMonths;
    if k * cfg.rollMonths < 0 {
      NearLater(OosEnd(cfg, k), m + k * cfg.rollMonths, OosEnd(cfg, 0), m, Date(cfg.start));
      DayDecides(OosEnd(cfg, k), OosEnd(cfg, 0));
    } else {
      NoRoll(k, cfg.rollMonths);
      SameOosEnd(cfg, k);
    }
  }

  lemma NoRoll(k: nat, roll: int)
    requires roll <= 0
    ensures k * roll <= 0
  {
  }

  lemma SameOosEnd(cfg: WfoConfig, k: nat)
    requires k * cfg.rollMonths == 0
    ensures OosEnd(cfg, k) == OosEnd(cfg, 0)
  {
    hide AddMonths;
    assert 0 * cfg.rollMonths == 0;
  }

  /**
   Exactly the windows whose out-of-sample end is within the range, in order: stopping at
   the first one that does not fit loses none. The loop stops exactly when the roll is
   positive or not even the first window fits.
   */
  method GenerateWfoWindows(cfg: WfoConfig) returns (windows: seq<WfoWindow>)
    requires cfg.rollMonths > 0 || OosEnd(cfg, 0) > cfg.end
    ensures cfg.rollMonths > 0 ==> forall k: nat :: k < |windows| <==> OosEnd(cfg, k) <= cfg.end
    ensures cfg.rollMonths <= 0 ==> windows == []
    ensures forall k :: 0 <= k < |windows| ==> windows[k] == WindowAt(cfg, k)
  {
    hide AddMonths, MonthOf, Day, Date;
    windows := [];
    var windowStart := cfg.start;
    var windowIndex := 0;
    StartIsZeroMonthsOn(cfg);
    while true
      invariant windowIndex == |windows| && windowStart == IsStart(cfg, windowIndex)
      invariant forall k :: 0 <= k < |windows| ==> windows[k] == WindowAt(cfg, k) && OosEnd(cfg, k) <= cfg.end
      decreases MonthOf(Day(cfg.end)) - (MonthOf(Day(cfg.start)) + windowIndex * cfg.rollMonths
                                         + cfg.isMonths + cfg.oosMonths)
    {
      var isStart := windowStart;
      var isEnd := AddMonths(isStart, cfg.isMonths);
      var oosStart := isEnd;
      var oosEnd := AddMonths(oosStart, cfg.oosMonths);
      if oosEnd > cfg.end {
        break;
      }
      windows := windows + [WfoWindow(isStart, isEnd, oosStart, oosEnd, windowIndex)];
      EndMonthBound(cfg, windowIndex);
      LaterWindow(windowIndex, windowIndex + 1, cfg.rollMonths);
      windowIndex := windowIndex + 1;
      windowStart := AddMonths(cfg.start, windowIndex * cfg.rollMonths);
    }
    forall k: nat | cfg.rollMonths > 0
      ensures k < |windows| <==> OosEnd(cfg, k) <= cfg.end
    {
      if k > windowIndex {
        OosEndsIncrease(cfg, windowIndex, k);
      }
    }
  }

  lemma StartIsZeroMonthsOn(cfg: WfoConfig)
    ensures IsStart(cfg, 0) == cfg.start
  {
    hide FirstDay, Length, MonthOf;
    AddMonthsDate(cfg.start, 0);
    DateInMonth(cfg.start);
    SplitEqual(AddMonths(cfg.start, 0), cfg.start);
  }

  // ---- Holes between out-of-sample periods ----

  function Excess(date: int, month: int): int {
    if date > Length(month) then date - Length(month) else 0
  }

  /** By how many days a date overflows the first of the given months that is too short for it; zero if none is. */
  function Over(date: int, months: seq<int>): int {
    if months == [] then 0
    else if date > Length(months[0]) then date - Length(months[0])
    else Over(date, months[1..])
  }

  /** On the date of the month, or `over` days into the next one once a month on the way was too short. */
  ghost predicate Lands(t: int, month: int, date: int, over: int) {
    if over == 0 then MonthOf(Day(t)) == month && Date(t) == date
    else MonthOf(Day(t)) == month + 1 && Date(t) == over
  }

  /** Once overflowed, a date of at most three exists in every month, so only the first overflow counts. */
  lemma LandsAdded(t: int, month: int, date: int, over: int, months: int)
    requires Lands(t, month, date, over) && 0 <= over <= 3
    ensures var over' := if over > 0 then over else Excess(date, month + months);
      0 <= over' <= 3 && Lands(AddMonths(t, months), month + months, date, over')
  {
    hide FirstDay, Length, MonthOf, AddMonths, Day, Date;
    AddMonthsDate(t, months);
    MonthsTile(month + months);
    MonthsTile(month + months + 1);
    DateInMonth(t);
  }

  /** The months a window passes through on its way from the schedule's start. */
  function IsMonth(cfg: WfoConfig, k: nat): int {
    MonthOf(Day(cfg.start)) + k * cfg.rollMonths
  }

  lemma WindowLands(cfg: WfoConfig, k: nat)
    ensures var (m, d) := (IsMonth(cfg, k), Date(cfg.start));
      var months := [m, m + cfg.isMonths];
      && Lands(OosStart(cfg, k), m + cfg.isMonths, d, Over(d, months))
      && Lands(OosEnd(cfg, k), m + cfg.isMonths + cfg.oosMonths, d,
               Over(d, months + [m + cfg.isMonths + cfg.oosMonths]))
  {
    hide FirstDay, Length, MonthOf, AddMonths, Day, Date, Lands;
    var (m, d) := (IsMonth(cfg, k), Date(cfg.start));
    StartLands(cfg);
    LandsAdded(cfg.start, MonthOf(Day(cfg.start)), d, 0, k * cfg.rollMonths);
    var first := Excess(d, m);
    LandsAdded(IsStart(cfg, k), m, d, first, cfg.isMonths);
    var second := if first > 0 then first else Excess(d, m + cfg.isMonths);
    LandsAdded(OosStart(cfg, k), m + cfg.isMonths, d, second, cfg.oosMonths);
    OverTwo(d, m, m + cfg.isMonths);
    OverThree(d, m, m + cfg.isMonths, m + cfg.isMonths + cfg.oosMonths);
  }

  lemma StartLands(cfg: WfoConfig)
    ensures Lands(cfg.start, MonthOf(Day(cfg.start)), Date(cfg.start), 0)
  {
  }

  lemma OverTwo(date: int, a: int, b: int)
    ensures Over(date, [a, b]) == if date > Length(a) then date - Length(a) else Excess(date, b)
  {
    hide Length;
    assert [a, b][1..] == [b] && [b][1..] == [];
    assert Over(date, [b]) == Excess(date, b);
  }

  lemma OverThree(date: int, a: int, b: int, c: int)
    ensures Over(date, [a, b] + [c]) ==
      if date > Length(a) then date - Length(a)
      else if date > Length(b) then date - Length(b)
      else Excess(date, c)
  {
    hide Length;
    assert ([a, b] + [c])[1..] == [b, c];
    OverTwo(date, b, c);
  }

  /**
   Exactly when no hole lies between two consecutive out-of-sample periods, for every schedule
   and start day: a roll other than the out-of-sample period decides alone; rolling by exactly
   that period, the next one must not overflow further than the last one did.
   */
  lemma NoHoleIff(cfg: WfoConfig, k: nat)
    ensures var d, sample, oos := Date(cfg.start), cfg.isMonths, cfg.oosMonths;
      var current, next := IsMonth(cfg, k), IsMonth(cfg, k + 1);
      OosStart(cfg, k + 1) <= OosEnd(cfg, k) <==>
      || cfg.rollMonths < oos
      || (cfg.rollMonths == oos
          && Over(d, [next, next + sample]) <= Over(d, [current, current + sample] + [next + sample]))
  {
    hide FirstDay, Length, MonthOf, AddMonths, Day, Date, TimeInDay, OosEnd, IsStart, OosStart, Over, Lands, Near;
    var d := Date(cfg.start);
    var next, end := IsMonth(cfg, k + 1) + cfg.isMonths, IsMonth(cfg, k) + cfg.isMonths + cfg.oosMonths;
    assert (k + 1) * cfg.rollMonths == k * cfg.rollMonths + cfg.rollMonths;
    var a, b := OosStart(cfg, k + 1), OosEnd(cfg, k);
    WindowNear(cfg, k);
    WindowNear(cfg, k + 1);
    if next < end {
      NearLater(a, next, b, end, d);
      DayDecides(a, b);
    } else if end < next {
      NearLater(b, end, a, next, d);
      DayDecides(b, a);
    } else {
      WindowLands(cfg, k);
      WindowLands(cfg, k + 1);
      OverRange(d, [IsMonth(cfg, k + 1), next]);
      OverRange(d, [IsMonth(cfg, k), IsMonth(cfg, k) + cfg.isMonths] + [end]);
      SameTargetInOrder(a, b, next, d, Over(d, [IsMonth(cfg, k + 1), next]),
                        Over(d, [IsMonth(cfg, k), IsMonth(cfg, k) + cfg.isMonths] + [end]));
    }
  }

  lemma {:induction false} OverRange(date: int, months: seq<int>)
    ensures Over(date, months) >= 0
    ensures date <= 28 ==> Over(date, months) == 0
  {
    hide Length;
    if months != [] {
      MonthsTile(months[0]);
      OverRange(date, months[1..]);
    }
  }

  lemma SameTargetInOrder(a: int, b: int, month: int, date: int, overA: int, overB: int)
    requires Lands(a, month, date, overA) && Lands(b, month, date, overB) && overA >= 0 && overB >= 0
    requires TimeInDay(a) == TimeInDay(b)
    ensures a <= b <==> overA <= overB
  {
    hide FirstDay, Length, MonthOf, Day, Date, TimeInDay;
    DateInMonth(a);
    DateInMonth(b);
    MonthsTile(month);
    if Day(a) < Day(b) {
      DayDecides(a, b);
    } else if Day(b) < Day(a) {
      DayDecides(b, a);
    } else {
      SplitEqual(a, b);
    }
  }

  ghost predicate HoleFree(cfg: WfoConfig) {
    forall k: nat :: OosStart(cfg, k + 1) <= OosEnd(cfg, k)
  }

  /** Midnight of the given day of January 2023, two months in sample, one out of sample, rolled by one. */
  function LateJanuary(date: int): WfoConfig {
    WfoConfig(2, 1, 1, (FirstDay(12 * 2023) + date - 1) * MS_PER_DAY, 0)
  }

  /** Days 29 to 31 overflow February, so the second out-of-sample period starts after the first ends. */
  lemma LateJanuaryHole(date: int)
    requires 29 <= date <= 31
    ensures Date(LateJanuary(date).start) == date
    ensures OosStart(LateJanuary(date), 1) > OosEnd(LateJanuary(date), 0)
  {
    hide FirstDay, MonthOf, AddMonths, Day, Date, TimeInDay, Length;
    var cfg := LateJanuary(date);
    var jan := 12 * 2023;
    JanuaryDate(date);
    StartIsZeroMonthsOn(cfg);
    MonthsOf2023();
    AddMonthsDate(cfg.start, 2);
    AddMonthsDate(OosStart(cfg, 0), 1);
    AddMonthsDate(cfg.start, 1);
    AddMonthsDate(IsStart(cfg, 1), 2);
    MonthsTile(jan + 3);
    MonthsTile(jan + 4);
    DayDecides(OosEnd(cfg, 0), OosStart(cfg, 1));
  }

  lemma MonthsOf2023()
    ensures Length(12 * 2023) == Length(12 * 2023 + 2) == Length(12 * 2023 + 4) == 31
    ensures Length(12 * 2023 + 1) == 28 && Length(12 * 2023 + 3) == 30
  {
  }

  lemma JanuaryDate(date: int)
    requires 1 <= date <= 31
    ensures MonthOf(Day(LateJanuary(date).start)) == 12 * 2023 && Date(LateJanuary(date).start) == date
  {
    hide FirstDay, MonthOf;
    TimeJoins(FirstDay(12 * 2023) + date - 1, 0);
    MonthOfUnique(FirstDay(12 * 2023) + date - 1, 12 * 2023);
  }

  /** So exactly the start days up to 28 keep every schedule that rolls no further than it tests free of holes. */
  lemma HoleFreeStartDays(date: int)
    requires 1 <= date <= 31
    ensures date <= 28 <==>
      forall cfg: WfoConfig :: Date(cfg.start) == date && 0 < cfg.rollMonths <= cfg.oosMonths ==> HoleFree(cfg)
  {
    hide AddMonths, OosEnd, OosStart, Date, LateJanuary, Over, IsMonth;
    if date <= 28 {
      forall cfg: WfoConfig, k: nat | Date(cfg.start) == date && 0 < cfg.rollMonths <= cfg.oosMonths
        ensures OosStart(cfg, k + 1) <= OosEnd(cfg, k)
      {
        NoHoleIff(cfg, k);
        OverRange(date, [IsMonth(cfg, k + 1), IsMonth(cfg, k + 1) + cfg.isMonths]);
        OverRange(date, [IsMonth(cfg, k), IsMonth(cfg, k) + cfg.isMonths] + [IsMonth(cfg, k + 1) + cfg.isMonths]);
      }
    } else {
      LateJanuaryHole(date);
      var cfg := LateJanuary(date);
      assert OosStart(cfg, 0 + 1) > OosEnd(cfg, 0);
      assert !HoleFree(cfg);
      LateJanuaryRolls(date);
    }
  }

  lemma LateJanuaryRolls(date: int)
    ensures 0 < LateJanuary(date).rollMonths <= LateJanuary(date).oosMonths
  {
  }
}
