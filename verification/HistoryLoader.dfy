/**
 Which archive files cover a date range: one monthly file for every month that lies wholly
 in the range, daily files for the rest.
 */
module HistoryLoader {
  import opened Calendar

  /** Months count from 1. */
  datatype Segment = Monthly(year: int, month: int) | Daily(year: int, month: int, day: int)

  /** The consecutive day numbers from `first` up to, not including, `end`. */
  function DayRange(first: int, end: int): seq<int>
    requires first <= end
  {
    seq(end - first, i => first + i)
  }

  function MonthNumber(year: int, month: int): int {
    12 * year + month - 1
  }

  function LengthIsNatural(month: int): (n: nat)
    ensures n == Length(month)
  {
    Length(month)
  }

  /** The days whose candles a file holds. */
  function Expand(s: Segment): seq<int> {
    match s
    case Monthly(year, month) =>
      var first := FirstDay(MonthNumber(year, month));
      DayRange(first, first + LengthIsNatural(MonthNumber(year, month)))
    case Daily(year, month, day) => [FirstDay(MonthNumber(year, month)) + day - 1]
  }

  function ExpandAll(segments: seq<Segment>): seq<int> {
    if segments == [] then []
    else ExpandAll(segments[..|segments| - 1]) + Expand(segments[|segments| - 1])
  }

  lemma ExpandOneMore(segments: seq<Segment>, s: Segment)
    ensures ExpandAll(segments + [s]) == ExpandAll(segments) + Expand(s)
  {
    assert (segments + [s])[..|segments|] == segments;
  }

  lemma RangeGrows(a: int, b: int, c: int)
    requires a <= b <= c
    ensures DayRange(a, b) + DayRange(b, c) == DayRange(a, c)
  {
  }

  lemma {:induction false} ExpandMember(segments: seq<Segment>, day: int)
    requires day in ExpandAll(segments)
    ensures exists s :: s in segments && day in Expand(s)
  {
    var last := segments[|segments| - 1];
    if day in Expand(last) {
      assert last in segments;
    } else {
      ExpandMember(segments[..|segments| - 1], day);
      var s :| s in segments[..|segments| - 1] && day in Expand(s);
      assert s in segments;
    }
  }

  /** The last second of a month, in milliseconds. */
  function LastSecond(month: int): int {
    (FirstDay(month) + Length(month) - 1) * MS_PER_DAY + 86399000
  }

  /** The month lies in the range: from the first date on, through its last second. */
  predicate WholeMonthIn(year: int, month: int, from: int, to: int) {
    && 1 <= month <= 12
    && Day(from) <= FirstDay(MonthNumber(year, month))
    && LastSecond(MonthNumber(year, month)) <= to
  }

  /** The range keeps clear of the years that `Date.UTC` shifts into the twentieth century. */
  predicate NoTwoDigitYear(from: int, to: int) {
    FullYear(from) >= 100 || FullYear(to) < 0
  }

  /** The first day of the range that is not before the year 0. */
  function Anchor(from: int): int {
    if Day(from) < FirstDay(0) then FirstDay(0) else Day(from)
  }

  /** 1999-12-31T23:59:59Z. */
  const END_OF_1999 := 946684799000

  /** Enters the years 0 to 99 on the first of a month and does not end before 1999 does. */
  predicate MonthlyThrough(from: int, to: int) {
    DayOfMonth(Anchor(from)) == 1 && to >= END_OF_1999
  }

  /** The range avoids the years 0 to 99, ends on its first day there, or passes them by whole months. */
  predicate CalendarSafe(from: int, to: int) {
    NoTwoDigitYear(from, to) || Day(to) == Anchor(from) || MonthlyThrough(from, to)
  }

  /** Dates compare like their day numbers. */
  lemma DateOrder(month: int, day: int, month': int, day': int)
    requires 1 <= day <= Length(month) && 1 <= day' <= Length(month')
    ensures month < month' || (month == month' && day <= day')
       <==> FirstDay(month) + day - 1 <= FirstDay(month') + day' - 1
  {
    hide FirstDay, Length;
    if month < month' {
      LaterMonth(month, month');
    } else if month' < month {
      LaterMonth(month', month);
    }
  }

  /** `Date.UTC` on an ordinary year is the calendar's own arithmetic. */
  lemma UtcPlain(year: int, month: int, date: int, seconds: int)
    requires !(0 <= year <= 99)
    ensures Utc(year, month, date, seconds) == (FirstDay(12 * year + month) + date - 1) * MS_PER_DAY + seconds * 1000
  {
  }

  /** What the state of the walk means: which day it has reached, and that it is a real date. */
  ghost predicate At(year: int, month: int, day: int, reached: int) {
    && 1 <= month <= 12
    && 1 <= day <= Length(MonthNumber(year, month))
    && reached == FirstDay(MonthNumber(year, month)) + day - 1
  }

  /** Every segment so far is the right kind for its days. */
  ghost predicate RightKind(s: Segment, from: int, to: int) {
    match s
    case Monthly(year, month) => WholeMonthIn(year, month, from, to)
    case Daily(year, month, day) =>
      && 1 <= month <= 12 && 1 <= day <= Length(MonthNumber(year, month))
      && (day == 1 ==> LastSecond(MonthNumber(year, month)) > to)
  }

  lemma DateAt(reached: int)
    ensures At(MonthOf(reached) / 12, MonthOf(reached) % 12 + 1, DayOfMonth(reached), reached)
  {
    hide FirstDay, Length, MonthOf;
    DateOfDay(reached);
  }

  lemma DateOfTime(t: int, day: int)
    requires Day(t) == day
    ensures At(FullYear(t), MonthIndex(t) + 1, Date(t), day)
  {
    DateAt(day);
  }

  /** Day 0 of the next month is the last of this one, in the year `Date.UTC` takes it for. */
  lemma LastOfMonth(year: int, month: int)
    requires 1 <= month <= 12
    ensures var fullYear := if 0 <= year <= 99 then 1900 + year else year;
            DayOfMonth(Day(Utc(year, month, 0, 0))) == Length(MonthNumber(fullYear, month))
  {
    hide FirstDay, Length, MonthOf;
    var fullYear := if 0 <= year <= 99 then 1900 + year else year;
    var m := MonthNumber(fullYear, month);
    MonthsTile(m);
    assert 12 * fullYear + month == m + 1;
    TimeJoins(FirstDay(m + 1) - 1, 0);
    MonthOfUnique(FirstDay(m + 1) - 1, m);
  }

  lemma EndOfMonth(year: int, month: int)
    requires 1 <= month <= 12 && !(0 <= year <= 99)
    ensures DayOfMonth(Day(Utc(year, month, 0, 0))) == Length(MonthNumber(year, month))
    ensures Utc(year, month - 1, Length(MonthNumber(year, month)), 86399) == LastSecond(MonthNumber(year, month))
  {
    hide FirstDay, Length, MonthOf, DayOfMonth, Day;
    LastOfMonth(year, month);
    UtcPlain(year, month - 1, Length(MonthNumber(year, month)), 86399);
  }

  lemma NextMonthAt(year: int, month: int, day: int, reached: int)
    requires At(year, month, day, reached)
    ensures var (y, m) := if month == 12 then (year + 1, 1) else (year, month + 1);
            At(y, m, 1, FirstDay(MonthNumber(year, month) + 1))
    ensures FirstDay(MonthNumber(year, month) + 1) > reached
  {
    hide FirstDay, Length;
    MonthsTile(MonthNumber(year, month));
    MonthsTile(MonthNumber(year, month) + 1);
  }

  /** The day after, by `Date.UTC`: the next day in an ordinary year, a later one in any. */
  lemma NextDayAt(year: int, month: int, day: int, reached: int)
    requires At(year, month, day, reached)
    ensures var next := Day(Utc(year, month - 1, day + 1, 0));
            && next > reached
            && (0 <= year <= 99 ==> FullYear(Utc(year, month - 1, day + 1, 0)) >= 1900)
            && (!(0 <= year <= 99) ==> next == reached + 1)
  {
    hide FirstDay, Length, MonthOf;
    var fullYear := if 0 <= year <= 99 then 1900 + year else year;
    TimeJoins(FirstDay(MonthNumber(fullYear, month)) + day, 0);
    var next := Day(Utc(year, month - 1, day + 1, 0));
    assert next == FirstDay(MonthNumber(fullYear, month)) + day;
    if 0 <= year <= 99 {
      MonthsTile(MonthNumber(year, month));
      LaterMonth(MonthNumber(year, month), MonthNumber(fullYear, month));
      MonthOfAtLeast(next, 12 * 1900, MonthNumber(fullYear, month));
    }
  }

  lemma MonthOfAtLeast(day: int, low: int, month: int)
    requires low <= month && FirstDay(month) <= day
    ensures MonthOf(day) >= low
  {
    hide FirstDay, Length, MonthOf;
    if MonthOf(day) < low {
      LaterMonth(MonthOf(day) + 1, month);
    }
  }

  /** Years do not decrease along the days. */
  lemma YearsAlong(year: int, month: int, day: int, reached: int, t: int)
    requires At(year, month, day, reached)
    ensures Day(t) <= reached ==> FullYear(t) <= year
    ensures reached <= Day(t) ==> year <= FullYear(t)
  {
    hide FirstDay, Length, MonthOf;
    DateOfDay(Day(t));
    DateOrder(MonthNumber(year, month), day, MonthOf(Day(t)), DayOfMonth(Day(t)));
    DateOrder(MonthOf(Day(t)), DayOfMonth(Day(t)), MonthNumber(year, month), day);
  }

  /** The end of the month as the loop computes it. */
  function ComputedEnd(year: int, month: int): int {
    Utc(year, month - 1, DayOfMonth(Day(Utc(year, month, 0, 0))), 86399)
  }

  lemma EndOf1999()
    ensures LastSecond(12 * 1999 + 11) == END_OF_1999
  {
    hide FirstDay;
    FirstDayIsClosedForm(12 * 1999 + 11);
  }

  /** In the years 0 to 99 that end lies between 1900 and the end of 1999, past the real end. */
  lemma ShiftedMonthEnd(year: int, month: int, to: int)
    requires 0 <= year <= 99 && 1 <= month <= 12
    ensures LastSecond(MonthNumber(year, month)) <= ComputedEnd(year, month) <= END_OF_1999
    ensures year == 99 && month == 12 ==> ComputedEnd(year, month) == END_OF_1999
    ensures ComputedEnd(year, month) <= to ==> FullYear(to) >= 1900
  {
    hide FirstDay, Length, MonthOf, DayOfMonth;
    var m := MonthNumber(1900 + year, month);
    LastOfMonth(year, month);
    assert ComputedEnd(year, month) == LastSecond(m);
    MonthsTile(m);
    MonthsTile(MonthNumber(year, month));
    LaterMonth(MonthNumber(year, month), m);
    LaterMonth(m, 12 * 1999 + 11);
    MonthsTile(12 * 1999 + 11);
    EndOf1999();
    LaterMonth(12 * 1900, m);
    MonthsTile(MonthOf(Day(to)));
    if FullYear(to) < 1900 {
      LaterMonth(MonthOf(Day(to)) + 1, 12 * 1900);
    }
  }

  /** A plain year's computed end is the real one. */
  lemma PlainMonthEnd(year: int, month: int)
    requires !(0 <= year <= 99) && 1 <= month <= 12
    ensures ComputedEnd(year, month) == LastSecond(MonthNumber(year, month))
  {
    hide FirstDay, Length, MonthOf, DayOfMonth, Utc, LastSecond;
    EndOfMonth(year, month);
  }

  // ---- One step of the walk ----

  ghost predicate Covered(segments: seq<Segment>, from: int, to: int, reached: int) {
    && Day(from) <= reached <= Day(to) + 1
    && ExpandAll(segments) == DayRange(Day(from), reached)
    && (forall s :: s in segments ==> RightKind(s, from, to))
  }

  lemma NothingCovered(from: int, to: int)
    requires from < to
    ensures Covered([], from, to, Day(from)) && Day(from) <= Day(to)
  {
  }

  lemma LastSecondDay(month: int, to: int)
    requires LastSecond(month) <= to
    ensures FirstDay(month) + Length(month) - 1 <= Day(to)
  {
    hide FirstDay, Length;
    TimeSplits(to);
  }

  lemma MonthlyStep(segments: seq<Segment>, from: int, to: int, year: int, month: int, reached: int)
    requires Covered(segments, from, to, reached) && At(year, month, 1, reached)
    requires LastSecond(MonthNumber(year, month)) <= to
    ensures Covered(segments + [Monthly(year, month)], from, to, FirstDay(MonthNumber(year, month) + 1))
  {
    hide FirstDay, Length, MonthOf, ExpandAll;
    var m := MonthNumber(year, month);
    MonthsTile(m);
    ExpandOneMore(segments, Monthly(year, month));
    RangeGrows(Day(from), reached, FirstDay(m + 1));
    LastSecondDay(m, to);
  }

  lemma DailyStep(segments: seq<Segment>, from: int, to: int, year: int, month: int, day: int, reached: int)
    requires Covered(segments, from, to, reached) && At(year, month, day, reached) && reached <= Day(to)
    requires day == 1 ==> LastSecond(MonthNumber(year, month)) > to
    ensures Covered(segments + [Daily(year, month, day)], from, to, reached + 1)
  {
    hide FirstDay, Length, MonthOf;
    ExpandOneMore(segments, Daily(year, month, day));
    RangeGrows(Day(from), reached, reached + 1);
    assert DayRange(reached, reached + 1) == [reached];
  }

  /** When all days are covered with segments of the right kind, each month that fits has its file. */
  lemma MonthlyExactly(segments: seq<Segment>, from: int, to: int, year: int, month: int)
    requires Covered(segments, from, to, Day(to) + 1)
    ensures Monthly(year, month) in segments <==> WholeMonthIn(year, month, from, to)
  {
    hide FirstDay, Length, MonthOf;
    if Monthly(year, month) in segments {
      assert RightKind(Monthly(year, month), from, to);
    }
    if WholeMonthIn(year, month, from, to) {
      var m := MonthNumber(year, month);
      MonthsTile(m);
      assert FirstDay(m) <= Day(to);
      assert FirstDay(m) == DayRange(Day(from), Day(to) + 1)[FirstDay(m) - Day(from)];
      ExpandMember(segments, FirstDay(m));
      var s :| s in segments && FirstDay(m) in Expand(s);
      SegmentOfFirstDay(s, year, month, from, to);
    }
  }

  lemma AllCovered(segments: seq<Segment>, from: int, to: int, reached: int)
    requires Covered(segments, from, to, reached) && reached > Day(to)
    ensures Day(from) <= Day(to) + 1 && ExpandAll(segments) == DayRange(Day(from), Day(to) + 1)
    ensures forall year, month :: Monthly(year, month) in segments <==> WholeMonthIn(year, month, from, to)
  {
    hide WholeMonthIn;
    forall year, month
      ensures Monthly(year, month) in segments <==> WholeMonthIn(year, month, from, to)
    {
      MonthlyExactly(segments, from, to, year, month);
    }
  }

  lemma SegmentOfFirstDay(s: Segment, year: int, month: int, from: int, to: int)
    requires 1 <= month <= 12 && FirstDay(MonthNumber(year, month)) in Expand(s) && RightKind(s, from, to)
    ensures s == Monthly(year, month) || (s == Daily(year, month, 1) && LastSecond(MonthNumber(year, month)) > to)
  {
    hide FirstDay, Length, MonthOf;
    var m, n := MonthNumber(year, month), MonthNumber(s.year, s.month);
    MonthsTile(m);
    MonthOfUnique(FirstDay(m), m);
    MonthsTile(n);
    MonthOfUnique(FirstDay(m), n);
  }

  /** The file for the date reached and the date after it. */
  function Next(year: int, month: int, day: int, to: int): (Segment, int, int, int) {
    if day == 1 && ComputedEnd(year, month) <= to then
      if month + 1 > 12 then (Monthly(year, month), year + 1, 1, 1) else (Monthly(year, month), year, month + 1, 1)
    else
      var nextDate := Utc(year, month - 1, day + 1, 0);
      (Daily(year, month, day), FullYear(nextDate), MonthIndex(nextDate) + 1, Date(nextDate))
  }

  function DayReached(year: int, month: int, day: int): int {
    FirstDay(MonthNumber(year, month)) + day - 1
  }

  /** How far a walk that skipped nothing has come through the years 0 to 99. */
  ghost predicate Passed(from: int, to: int, year: int, day: int, reached: int) {
    && (MonthlyThrough(from, to) && 0 <= year <= 99 ==> day == 1)
    && (reached > Anchor(from) ==> DayOfMonth(Anchor(from)) == 1)
    && (reached > Anchor(from) && year <= 99 ==> FullYear(to) >= 1900)
    && (year >= 100 ==> to >= END_OF_1999)
  }

  /** Everything up to the day reached is covered. */
  ghost predicate Sound(segments: seq<Segment>, from: int, to: int, year: int, day: int, reached: int) {
    && Covered(segments, from, to, reached)
    && (!NoTwoDigitYear(from, to) ==> Passed(from, to, year, day, reached))
  }

  ghost predicate Complete(segments: seq<Segment>, from: int, to: int) {
    Covered(segments, from, to, Day(to) + 1) && CalendarSafe(from, to)
  }

  /** A day of the range was jumped over and stays without a file. */
  ghost predicate Broken(segments: seq<Segment>, from: int, to: int, reached: int) {
    && !CalendarSafe(from, to)
    && exists missing :: Day(from) <= missing <= Day(to) && missing < reached && missing !in ExpandAll(segments)
  }

  /** What the walk keeps. */
  ghost predicate Walking(segments: seq<Segment>, from: int, to: int, year: int, month: int, day: int) {
    var reached := DayReached(year, month, day);
    && At(year, month, day, reached)
    && (|| Sound(segments, from, to, year, day, reached)
        || (reached > Day(to) && Complete(segments, from, to))
        || Broken(segments, from, to, reached))
  }

  // ---- Where the years 0 to 99 lie ----

  lemma YearOf(year: int, month: int, day: int, reached: int, y: int)
    requires At(year, month, day, reached)
    ensures year < y <==> reached < FirstDay(12 * y)
    ensures reached == FirstDay(12 * y) ==> day == 1
  {
    hide FirstDay, Length, MonthOf;
    MonthsTile(12 * y);
    MonthsTile(MonthNumber(year, month));
    if year < y {
      LaterMonth(MonthNumber(year, month), 12 * y);
    } else {
      LaterMonth(12 * y, MonthNumber(year, month));
    }
  }

  lemma YearOfTime(t: int, y: int)
    ensures FullYear(t) < y <==> Day(t) < FirstDay(12 * y)
  {
    hide FirstDay, Length, MonthOf, Date, MonthIndex, FullYear, Day;
    DateOfTime(t, Day(t));
    YearOf(FullYear(t), MonthIndex(t) + 1, Date(t), Day(t), y);
  }

  /** A range that touches those years has its anchor in or before them, within the range. */
  lemma AnchorInRange(from: int, to: int)
    requires from < to && !NoTwoDigitYear(from, to)
    ensures Day(from) <= Anchor(from) <= Day(to) && FirstDay(0) <= Anchor(from) < FirstDay(1200)
  {
    hide FirstDay, Length, MonthOf, FullYear;
    YearOfTime(from, 100);
    YearOfTime(to, 0);
    LaterMonth(0, 1200);
    assert Day(from) <= Day(to);
  }

  lemma TwoDigitTouched(from: int, to: int, year: int, month: int, day: int, reached: int)
    requires At(year, month, day, reached) && 0 <= year <= 99 && Day(from) <= reached <= Day(to)
    ensures !NoTwoDigitYear(from, to) && Anchor(from) <= reached
  {
    hide FirstDay, Length, MonthOf;
    YearsAlong(year, month, day, reached, from);
    YearsAlong(year, month, day, reached, to);
    YearOf(year, month, day, reached, 0);
  }

  /** The date of a day number is the one the walk holds. */
  lemma DateIs(year: int, month: int, day: int, reached: int)
    requires At(year, month, day, reached)
    ensures DayOfMonth(reached) == day && MonthOf(reached) == MonthNumber(year, month)
  {
    hide FirstDay, Length, MonthOf;
    MonthOfUnique(reached, MonthNumber(year, month));
  }

  // ---- The steps ----

  lemma WalkStarts(from: int, to: int)
    requires from < to
    ensures Walking([], from, to, FullYear(from), MonthIndex(from) + 1, Date(from))
  {
    hide FirstDay, Length, MonthOf, END_OF_1999;
    DateOfTime(from, Day(from));
    NothingCovered(from, to);
    YearOfTime(from, 0);
    YearOfTime(from, 100);
  }

  /** Outside the years 0 to 99 a step covers exactly its file's days. */
  lemma PlainStepCovers(segments: seq<Segment>, from: int, to: int, year: int, month: int, day: int, reached: int)
    requires At(year, month, day, reached) && Covered(segments, from, to, reached) && reached <= Day(to)
    requires !(0 <= year <= 99)
    ensures var (s, year', month', day') := Next(year, month, day, to);
      && At(year', month', day', DayReached(year', month', day'))
      && reached < DayReached(year', month', day')
      && (year < 0 ==> DayReached(year', month', day') <= FirstDay(0))
      && Covered(segments + [s], from, to, DayReached(year', month', day'))
  {
    hide FirstDay, Length, MonthOf, DayOfMonth, Covered, Utc, LastSecond, FullYear, Date, MonthIndex, ComputedEnd;
    PlainMonthEnd(year, month);
    YearOf(year, month, day, reached, 0);
    if MonthNumber(year, month) < 0 {
      LaterMonth(MonthNumber(year, month) + 1, 0);
    }
    if Next(year, month, day, to).0.Monthly? {
      NextMonthAt(year, month, day, reached);
      MonthlyStep(segments, from, to, year, month, reached);
    } else {
      NextDayAt(year, month, day, reached);
      var nextDate := Utc(year, month - 1, day + 1, 0);
      DateOfTime(nextDate, Day(nextDate));
      DailyStep(segments, from, to, year, month, day, reached);
    }
  }

  lemma PlainStep(segments: seq<Segment>, from: int, to: int, year: int, month: int, day: int, reached: int)
    requires from < to && At(year, month, day, reached) && Sound(segments, from, to, year, day, reached)
    requires reached <= Day(to)
    requires !(0 <= year <= 99)
    ensures var (s, year', month', day') := Next(year, month, day, to);
      && At(year', month', day', DayReached(year', month', day'))
      && reached < DayReached(year', month', day')
      && Sound(segments + [s], from, to, year', day', DayReached(year', month', day'))
  {
    hide FirstDay, Length, MonthOf, DayOfMonth, Covered, FullYear, Next, Day, DayReached, END_OF_1999;
    var (s, year', month', day') := Next(year, month, day, to);
    var reached' := DayReached(year', month', day');
    PlainStepCovers(segments, from, to, year, month, day, reached);
    if !NoTwoDigitYear(from, to) {
      AnchorInRange(from, to);
      PlainPasses(from, to, year, month, day, reached, year', month', day', reached');
    }
  }

  lemma PlainPasses(from: int, to: int, year: int, month: int, day: int, reached: int,
                    year': int, month': int, day': int, reached': int)
    requires At(year, month, day, reached) && At(year', month', day', reached') && reached < reached'
    requires !(0 <= year <= 99) && Passed(from, to, year, day, reached)
    requires year < 0 ==> reached' <= FirstDay(0)
    requires FirstDay(0) <= Anchor(from) < FirstDay(1200)
    ensures Passed(from, to, year', day', reached')
  {
    hide FirstDay, Length, MonthOf, DayOfMonth, FullYear, Day, END_OF_1999, Anchor;
    YearOf(year, month, day, reached, 0);
    YearOf(year, month, day, reached, 100);
    YearOf(year', month', day', reached', 0);
    YearOf(year', month', day', reached', 100);
  }

  /** In the years 0 to 99 a step by a whole month goes on, and needs a range that reaches 1900. */
  lemma ShiftedMonthlyStep(segments: seq<Segment>, from: int, to: int, year: int, month: int, reached: int)
    requires from < to && At(year, month, 1, reached) && Sound(segments, from, to, year, 1, reached)
    requires reached <= Day(to)
    requires 0 <= year <= 99 && ComputedEnd(year, month) <= to
    ensures var (s, year', month', day') := Next(year, month, 1, to);
      && At(year', month', day', DayReached(year', month', day'))
      && reached < DayReached(year', month', day')
      && Sound(segments + [s], from, to, year', day', DayReached(year', month', day'))
  {
    hide FirstDay, Length, MonthOf, DayOfMonth, Covered, Utc, LastSecond, FullYear, ComputedEnd, END_OF_1999,
         Anchor, NoTwoDigitYear;
    ShiftedMonthEnd(year, month, to);
    NextMonthAt(year, month, 1, reached);
    MonthlyStep(segments, from, to, year, month, reached);
    CoveredStart(segments, from, to, reached);
    TwoDigitTouched(from, to, year, month, 1, reached);
    DateIs(year, month, 1, reached);
  }

  lemma CoveredStart(segments: seq<Segment>, from: int, to: int, reached: int)
    requires Covered(segments, from, to, reached)
    ensures Day(from) <= reached
  {
  }

  /** A daily file there is the end of the walk: the next date lies in the twentieth century. */
  lemma ShiftedDailyStep(segments: seq<Segment>, from: int, to: int, year: int, month: int, day: int, reached: int)
    requires from < to && At(year, month, day, reached) && Sound(segments, from, to, year, day, reached)
    requires reached <= Day(to)
    requires 0 <= year <= 99 && !(day == 1 && ComputedEnd(year, month) <= to)
    ensures var (s, year', month', day') := Next(year, month, day, to);
      var reached' := DayReached(year', month', day');
      && At(year', month', day', reached')
      && reached < reached'
      && (if reached == Day(to) then reached' > Day(to) && Complete(segments + [s], from, to)
          else Broken(segments + [s], from, to, reached'))
  {
    hide FirstDay, Length, MonthOf, DayOfMonth, Covered, Utc, LastSecond, ComputedEnd, END_OF_1999, Anchor,
         FullYear, Date,
         MonthIndex, Sound, Complete, Broken, Day;
    NextDayAt(year, month, day, reached);
    var nextDate := Utc(year, month - 1, day + 1, 0);
    DateOfTime(nextDate, Day(nextDate));
    LeapOverCentury(year, month, day, reached, nextDate);
    if reached == Day(to) {
      LastDayStep(segments, from, to, year, month, day, reached);
    } else {
      JumpStep(segments, from, to, year, month, day, reached, Day(nextDate));
    }
  }

  lemma LeapOverCentury(year: int, month: int, day: int, reached: int, nextDate: int)
    requires At(year, month, day, reached) && year <= 99 && FullYear(nextDate) >= 1900
    ensures Day(nextDate) > reached + 1
  {
    hide FirstDay, Length, MonthOf, FullYear, Day;
    YearOf(year, month, day, reached, 100);
    YearOfTime(nextDate, 1900);
    LaterMonth(1200, 12 * 1900);
    MonthsTile(1200);
  }

  lemma LastDayStep(segments: seq<Segment>, from: int, to: int, year: int, month: int, day: int, reached: int)
    requires from < to && At(year, month, day, reached) && Sound(segments, from, to, year, day, reached)
    requires reached == Day(to)
    requires 0 <= year <= 99
    ensures Complete(segments + [Daily(year, month, day)], from, to)
  {
    hide FirstDay, Length, MonthOf, DayOfMonth, Covered, END_OF_1999, Anchor, FullYear, LastSecond;
    CoveredStart(segments, from, to, reached);
    TwoDigitTouched(from, to, year, month, day, reached);
    YearsAlong(year, month, day, reached, to);
    FirstDayIsNotLast(month, year, to);
    DailyStep(segments, from, to, year, month, day, reached);
  }

  lemma FirstDayIsNotLast(month: int, year: int, to: int)
    ensures Day(to) == FirstDay(MonthNumber(year, month)) ==> LastSecond(MonthNumber(year, month)) > to
  {
    hide FirstDay, Length;
    MonthsTile(MonthNumber(year, month));
    TimeSplits(to);
  }

  lemma JumpStep(segments: seq<Segment>, from: int, to: int, year: int, month: int, day: int, reached: int,
                 reached': int)
    requires from < to && At(year, month, day, reached) && Sound(segments, from, to, year, day, reached)
    requires reached < Day(to) && reached + 1 < reached'
    requires 0 <= year <= 99 && !(day == 1 && ComputedEnd(year, month) <= to)
    ensures Broken(segments + [Daily(year, month, day)], from, to, reached')
  {
    hide FirstDay, Length, MonthOf, DayOfMonth, END_OF_1999, Anchor, FullYear, LastSecond, ComputedEnd,
         ExpandAll, Expand;
    TwoDigitTouched(from, to, year, month, day, reached);
    ShiftedMonthEnd(year, month, to);
    ExpandOneMore(segments, Daily(year, month, day));
    OnlyThatDay(year, month, day, reached);
    assert reached + 1 !in ExpandAll(segments + [Daily(year, month, day)]);
  }

  lemma OnlyThatDay(year: int, month: int, day: int, reached: int)
    requires At(year, month, day, reached)
    ensures Expand(Daily(year, month, day)) == [reached]
  {
  }

  /** After a jump every further file lies beyond the missing day. */
  lemma BrokenStep(segments: seq<Segment>, from: int, to: int, year: int, month: int, day: int, reached: int)
    requires At(year, month, day, reached) && Broken(segments, from, to, reached) && reached <= Day(to)
    ensures var (s, year', month', day') := Next(year, month, day, to);
      var reached' := DayReached(year', month', day');
      At(year', month', day', reached') && reached < reached' && Broken(segments + [s], from, to, reached')
  {
    hide FirstDay, Length, MonthOf, DayOfMonth, Utc, CalendarSafe, FullYear, Date, MonthIndex, ComputedEnd,
         ExpandAll, Expand, Day;
    var (s, year', month', day') := Next(year, month, day, to);
    if s.Monthly? {
      NextMonthAt(year, month, day, reached);
    } else {
      NextDayAt(year, month, day, reached);
      var nextDate := Utc(year, month - 1, day + 1, 0);
      DateOfTime(nextDate, Day(nextDate));
    }
    var missing :| Day(from) <= missing <= Day(to) && missing < reached && missing !in ExpandAll(segments);
    ExpandOneMore(segments, s);
    FileFrom(s, year, month, day, reached, missing);
    assert missing !in ExpandAll(segments + [s]);
  }

  lemma FileFrom(s: Segment, year: int, month: int, day: int, reached: int, missing: int)
    requires At(year, month, day, reached) && missing < reached
    requires s == Daily(year, month, day) || (s == Monthly(year, month) && day == 1)
    ensures missing !in Expand(s)
  {
    hide FirstDay, Length;
  }

  lemma Walked(segments: seq<Segment>, from: int, to: int, year: int, month: int, day: int)
    requires from < to && Walking(segments, from, to, year, month, day) && DayReached(year, month, day) <= Day(to)
    ensures var (s, year', month', day') := Next(year, month, day, to);
            && Walking(segments + [s], from, to, year', month', day')
            && DayReached(year, month, day) < DayReached(year', month', day')
  {
    hide Next, At, Sound, Complete, Broken, DayReached, Day;
    var reached := DayReached(year, month, day);
    if !Sound(segments, from, to, year, day, reached) {
      BrokenStep(segments, from, to, year, month, day, reached);
    } else if !(0 <= year <= 99) {
      PlainStep(segments, from, to, year, month, day, reached);
    } else if day == 1 && ComputedEnd(year, month) <= to {
      ShiftedMonthlyStep(segments, from, to, year, month, reached);
    } else {
      ShiftedDailyStep(segments, from, to, year, month, day, reached);
    }
  }

  /** A walk that skipped nothing to the end was a safe one. */
  lemma SoundEnds(segments: seq<Segment>, from: int, to: int, year: int, month: int, day: int, reached: int)
    requires from < to && At(year, month, day, reached) && Sound(segments, from, to, year, day, reached)
    requires reached > Day(to)
    ensures Complete(segments, from, to)
  {
    hide FirstDay, Length, MonthOf, DayOfMonth, END_OF_1999, Anchor, FullYear, ExpandAll;
    if !NoTwoDigitYear(from, to) {
      AnchorInRange(from, to);
      YearsAlong(year, month, day, reached, to);
    }
  }

  lemma WalkEnds(segments: seq<Segment>, from: int, to: int, year: int, month: int, day: int)
    requires from < to && Walking(segments, from, to, year, month, day) && DayReached(year, month, day) > Day(to)
    ensures Day(from) <= Day(to)
    ensures ExpandAll(segments) == DayRange(Day(from), Day(to) + 1) <==> CalendarSafe(from, to)
    ensures CalendarSafe(from, to) ==>
              forall year, month :: Monthly(year, month) in segments <==> WholeMonthIn(year, month, from, to)
  {
    hide FirstDay, Length, MonthOf, WholeMonthIn, ExpandAll, CalendarSafe, At, Sound, DayReached;
    var reached := DayReached(year, month, day);
    if Sound(segments, from, to, year, day, reached) {
      SoundEnds(segments, from, to, year, month, day, reached);
    }
    if Complete(segments, from, to) {
      AllCovered(segments, from, to, Day(to) + 1);
    } else {
      NotAllCovered(segments, from, to, reached);
    }
  }

  lemma NotAllCovered(segments: seq<Segment>, from: int, to: int, reached: int)
    requires from < to && Broken(segments, from, to, reached)
    ensures Day(from) <= Day(to) && ExpandAll(segments) != DayRange(Day(from), Day(to) + 1)
  {
    hide CalendarSafe, ExpandAll;
    assert Day(from) <= Day(to);
    var missing :| Day(from) <= missing <= Day(to) && missing < reached && missing !in ExpandAll(segments);
    assert DayRange(Day(from), Day(to) + 1)[missing - Day(from)] == missing;
  }

  /** The loop guard compares dates: it holds exactly while the day reached is in the range. */
  lemma InRange(to: int, year: int, month: int, day: int)
    requires At(year, month, day, DayReached(year, month, day))
    ensures BeforeOrOn(year, month, day, FullYear(to), MonthIndex(to) + 1, Date(to))
       <==> DayReached(year, month, day) <= Day(to)
  {
    hide FirstDay, Length, MonthOf;
    DateOfTime(to, Day(to));
    DateOrder(MonthNumber(year, month), day, MonthNumber(FullYear(to), MonthIndex(to) + 1), Date(to));
  }

  predicate BeforeOrOn(year: int, month: int, day: int, year': int, month': int, day': int) {
    year < year' || (year == year' && month < month') || (year == year' && month == month' && day <= day')
  }

  /**
   The files cover each day of the range once and in order exactly when the range is safe from
   `Date.UTC`'s reading of the years 0 to 99; and then monthly files are used exactly where
   they fit.
   */
  method BuildSegments(from: int, to: int) returns (segments: seq<Segment>)
    ensures from >= to ==> segments == []
    ensures from < to ==>
              Day(from) <= Day(to)
              && (ExpandAll(segments) == DayRange(Day(from), Day(to) + 1) <==> CalendarSafe(from, to))
    ensures from < to && CalendarSafe(from, to) ==>
              forall year, month :: Monthly(year, month) in segments <==> WholeMonthIn(year, month, from, to)
  {
    if from >= to {
      return [];
    }
    hide *;
    segments := [];
    var currentYear, currentMonth, currentDay := FullYear(from), MonthIndex(from) + 1, Date(from);
    var endYear, endMonth, endDay := FullYear(to), MonthIndex(to) + 1, Date(to);
    WalkStarts(from, to);
    WalkIsAt(segments, from, to, currentYear, currentMonth, currentDay);
    while BeforeOrOn(currentYear, currentMonth, currentDay, endYear, endMonth, endDay)
      invariant Walking(segments, from, to, currentYear, currentMonth, currentDay)
      invariant At(currentYear, currentMonth, currentDay, DayReached(currentYear, currentMonth, currentDay))
      decreases Day(to) + 1 - DayReached(currentYear, currentMonth, currentDay)
    {
      ghost var before, next := segments, Next(currentYear, currentMonth, currentDay, to);
      InRange(to, currentYear, currentMonth, currentDay);
      Walked(segments, from, to, currentYear, currentMonth, currentDay);
      var daysInMonth := DayOfMonth(Day(Utc(currentYear, currentMonth, 0, 0)));
      var isFirstDayOfMonth := currentDay == 1;
      var monthEnd := Utc(currentYear, currentMonth - 1, daysInMonth, 86399);
      var isFullMonthInRange := isFirstDayOfMonth && monthEnd <= to;
      NextIs(currentYear, currentMonth, currentDay, to);
      if isFullMonthInRange {
        segments := segments + [Monthly(currentYear, currentMonth)];
        currentMonth := currentMonth + 1;
        if currentMonth > 12 {
          currentMonth := 1;
          currentYear := currentYear + 1;
        }
        currentDay := 1;
      } else {
        segments := segments + [Daily(currentYear, currentMonth, currentDay)];
        var nextDate := Utc(currentYear, currentMonth - 1, currentDay + 1, 0);
        currentYear, currentMonth, currentDay := FullYear(nextDate), MonthIndex(nextDate) + 1, Date(nextDate);
      }
      assert next.1 == currentYear && next.2 == currentMonth && next.3 == currentDay;
      assert segments == before + [next.0];
      WalkIsAt(segments, from, to, currentYear, currentMonth, currentDay);
    }
    InRange(to, currentYear, currentMonth, currentDay);
    WalkEnds(segments, from, to, currentYear, currentMonth, currentDay);
  }

  /** From the fifth to the seventh of January of the year 50: the days after the first are lost. */
  lemma UnsafeRange()
    ensures var first := FirstDay(12 * 50) + 4;
      !CalendarSafe(first * MS_PER_DAY, (first + 2) * MS_PER_DAY)
  {
    hide FirstDay, Length, MonthOf;
    var first := FirstDay(12 * 50) + 4;
    MonthsTile(12 * 50);
    TimeJoins(first, 0);
    TimeJoins(first + 2, 0);
    MonthOfUnique(first, 12 * 50);
    MonthOfUnique(first + 2, 12 * 50);
    LaterMonth(0, 12 * 50);
  }

  lemma WalkIsAt(segments: seq<Segment>, from: int, to: int, year: int, month: int, day: int)
    requires Walking(segments, from, to, year, month, day)
    ensures At(year, month, day, DayReached(year, month, day))
  {
  }

  lemma NextIs(year: int, month: int, day: int, to: int)
    ensures Next(year, month, day, to) ==
      if day == 1 && Utc(year, month - 1, DayOfMonth(Day(Utc(year, month, 0, 0))), 86399) <= to then
        (Monthly(year, month), if month + 1 > 12 then year + 1 else year, if month + 1 > 12 then 1 else month + 1, 1)
      else
        (Daily(year, month, day), FullYear(Utc(year, month - 1, day + 1, 0)),
         MonthIndex(Utc(year, month - 1, day + 1, 0)) + 1, Date(Utc(year, month - 1, day + 1, 0)))
  {
    hide Utc, DayOfMonth, Day, FullYear, MonthIndex, Date;
  }
}
