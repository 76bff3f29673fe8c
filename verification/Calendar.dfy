/**
 The proleptic Gregorian calendar of ECMA-262 section 21.4.1: day numbers count from
 1970-01-01, times are milliseconds, and a month is numbered `12 * year + month` with
 months counted from zero.
 */
module Calendar {
  const MS_PER_DAY := 86400000

  predicate Leap(year: int) {
    year % 4 == 0 && (year % 100 != 0 || year % 400 == 0)
  }

  /** Number of days in a month. */
  function Length(month: int): int {
    var m := month % 12;
    if m == 1 then (if Leap(month / 12) then 29 else 28)
    else if m == 3 || m == 5 || m == 8 || m == 10 then 30
    else 31
  }

  /** Day number of the first day of a month, counted month by month from the epoch. */
  function FirstDay(month: int): int
    decreases if month < 12 * 1970 then 12 * 1970 - month else month - 12 * 1970
  {
    if month == 12 * 1970 then 0
    else if month > 12 * 1970 then FirstDay(month - 1) + Length(month - 1)
    else FirstDay(month + 1) - Length(month)
  }

  lemma MonthsTile(month: int)
    ensures FirstDay(month + 1) == FirstDay(month) + Length(month)
    ensures 28 <= Length(month) <= 31
  {
  }

  // ---- The closed form of the standard ----

  function DayFromYear(year: int): int {
    365 * (year - 1970) + (year - 1969) / 4 - (year - 1901) / 100 + (year - 1601) / 400
  }

  /** Days of the year before the given month (0 to 11). */
  function DaysBefore(month: int, leap: bool): int {
    var extra := if leap && month > 1 then 1 else 0;
    extra + (match month
             case 0 => 0
             case 1 => 31
             case 2 => 59
             case 3 => 90
             case 4 => 120
             case 5 => 151
             case 6 => 181
             case 7 => 212
             case 8 => 243
             case 9 => 273
             case 10 => 304
             case _ => 334)
  }

  function ClosedForm(month: int): int {
    DayFromYear(month / 12) + DaysBefore(month % 12, Leap(month / 12))
  }

  lemma FourthYears(year: int)
    ensures (year - 1968) / 4 - (year - 1969) / 4 == if year % 4 == 0 then 1 else 0
  {
  }

  lemma HundredthYears(year: int)
    ensures (year - 1900) / 100 - (year - 1901) / 100 == if year % 100 == 0 then 1 else 0
  {
  }

  lemma FourHundredthYears(year: int)
    ensures (year - 1600) / 400 - (year - 1601) / 400 == if year % 400 == 0 then 1 else 0
  {
  }

  lemma HundredsAmongFourHundreds(year: int)
    ensures year % 400 == 0 ==> year % 100 == 0
  {
  }

  lemma FoursAmongHundreds(year: int)
    ensures year % 100 == 0 ==> year % 4 == 0
  {
  }

  lemma YearLength(year: int)
    ensures DayFromYear(year + 1) - DayFromYear(year) == if Leap(year) then 366 else 365
  {
    FourthYears(year);
    HundredthYears(year);
    FourHundredthYears(year);
    HundredsAmongFourHundreds(year);
    FoursAmongHundreds(year);
    assert year + 1 - 1969 == year - 1968 && year + 1 - 1901 == year - 1900 && year + 1 - 1601 == year - 1600;
  }

  lemma ClosedFormStep(month: int)
    ensures ClosedForm(month + 1) == ClosedForm(month) + Length(month)
  {
    hide DayFromYear, Leap;
    var year, m := month / 12, month % 12;
    assert month == 12 * year + m;
    if m == 11 {
      assert (month + 1) / 12 == year + 1 && (month + 1) % 12 == 0;
      YearLength(year);
    } else {
      assert (month + 1) / 12 == year && (month + 1) % 12 == m + 1;
    }
  }

  lemma ClosedFormOfEpoch()
    ensures ClosedForm(12 * 1970) == 0
  {
  }

  /** Counting months and the closed form agree on every month, before the epoch too. */
  lemma {:induction false} FirstDayIsClosedForm(month: int)
    ensures FirstDay(month) == ClosedForm(month)
    decreases if month < 12 * 1970 then 12 * 1970 - month else month - 12 * 1970
  {
    hide ClosedForm, Length;
    if month == 12 * 1970 {
      ClosedFormOfEpoch();
    } else if month > 12 * 1970 {
      FirstDayIsClosedForm(month - 1);
      ClosedFormStep(month - 1);
    } else {
      FirstDayIsClosedForm(month + 1);
      ClosedFormStep(month);
    }
  }

  lemma {:induction false} LaterMonth(a: int, b: int)
    requires a <= b
    ensures FirstDay(a) + 28 * (b - a) <= FirstDay(b)
    ensures a < b ==> FirstDay(a) + Length(a) <= FirstDay(b)
    decreases b - a
  {
    hide FirstDay, Length;
    if a < b {
      MonthsTile(b - 1);
      LaterMonth(a, b - 1);
    }
  }

  // ---- From a day number back to a date ----

  /** Moves from a guess to the month that contains the day. */
  function MonthNear(day: int, guess: int): (month: int)
    ensures FirstDay(month) <= day < FirstDay(month + 1)
    decreases if day < FirstDay(guess) then FirstDay(guess) - day
              else if day >= FirstDay(guess + 1) then day - FirstDay(guess) else 0
  {
    hide FirstDay, Length;
    MonthsTile(guess);
    MonthsTile(guess - 1);
    MonthsTile(guess + 1);
    if day < FirstDay(guess) then MonthNear(day, guess - 1)
    else if day >= FirstDay(guess + 1) then MonthNear(day, guess + 1)
    else guess
  }

  function MonthOf(day: int): (month: int)
    ensures FirstDay(month) <= day < FirstDay(month + 1)
  {
    hide FirstDay, Length;
    MonthNear(day, 12 * 1970)
  }

  function DayOfMonth(day: int): int {
    day - FirstDay(MonthOf(day)) + 1
  }

  /** Only one month contains a day, so a date and its day number determine each other. */
  lemma MonthOfUnique(day: int, month: int)
    requires FirstDay(month) <= day < FirstDay(month) + Length(month)
    ensures MonthOf(day) == month && DayOfMonth(day) == day - FirstDay(month) + 1
  {
    hide FirstDay, Length, MonthOf;
    MonthsTile(month);
    if month < MonthOf(day) {
      LaterMonth(month + 1, MonthOf(day));
    } else if MonthOf(day) < month {
      LaterMonth(MonthOf(day) + 1, month);
    }
  }

  /** Every day is some day of its month. */
  lemma DateOfDay(day: int)
    ensures 1 <= DayOfMonth(day) <= Length(MonthOf(day))
    ensures FirstDay(MonthOf(day)) + DayOfMonth(day) - 1 == day
  {
    hide FirstDay, Length, MonthOf;
    MonthsTile(MonthOf(day));
  }

  // ---- Times ----

  function Day(t: int): int {
    t / MS_PER_DAY
  }

  function TimeInDay(t: int): int {
    t % MS_PER_DAY
  }

  function FullYear(t: int): int {
    MonthOf(Day(t)) / 12
  }

  /** Months counted from zero. */
  function MonthIndex(t: int): int {
    MonthOf(Day(t)) % 12
  }

  function Date(t: int): int {
    DayOfMonth(Day(t))
  }

  function MakeDay(year: int, month: int, date: int): int {
    FirstDay(12 * year + month) + date - 1
  }

  /** `Date.UTC`: years 0 to 99 mean 1900 to 1999. */
  function Utc(year: int, month: int, date: int, seconds: int): int {
    var fullYear := if 0 <= year <= 99 then 1900 + year else year;
    MakeDay(fullYear, month, date) * MS_PER_DAY + seconds * 1000
  }

  lemma TimeSplits(t: int)
    ensures t == Day(t) * MS_PER_DAY + TimeInDay(t) && 0 <= TimeInDay(t) < MS_PER_DAY
  {
  }

  lemma TimeJoins(day: int, ms: int)
    requires 0 <= ms < MS_PER_DAY
    ensures Day(day * MS_PER_DAY + ms) == day && TimeInDay(day * MS_PER_DAY + ms) == ms
  {
  }
}
