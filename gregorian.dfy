/**
 * Proleptic Gregorian calendar dates as (year, month, day) triples: the part
 * of date-fns that the calendar view relies on (start and end of a month,
 * the day after a date, adding months with clamping, the weekday name).
 * Time of day and time zones are not represented.
 */
module Gregorian {

  datatype Date = Date(year: int, month: int, day: int)

  /** The Gregorian leap-year rule: every fourth year, except centuries
      that are not multiples of 400. */
  predicate IsLeapYear(y: int)
    ensures IsLeapYear(y) ==> y % 4 == 0
    ensures y % 4 == 0 && y % 100 != 0 ==> IsLeapYear(y)
    ensures y % 100 == 0 ==> (IsLeapYear(y) <==> y % 400 == 0)
  {
    DivisorChain(y);
    y % 4 == 0 && (y % 100 != 0 || y % 400 == 0)
  }

  /** The leap-year rule repeats every 400 years. */
  lemma LeapYearPeriod(y: int)
    ensures IsLeapYear(y + 400) == IsLeapYear(y)
  {
    assert (y + 400) % 4 == y % 4 && (y + 400) % 100 == y % 100 && (y + 400) % 400 == y % 400;
  }

  function DaysInMonth(y: int, m: int): (n: int)
    requires 1 <= m <= 12
    ensures m == 2 && IsLeapYear(y) ==> n == 29
    ensures m == 2 && !IsLeapYear(y) ==> n == 28
    ensures m in {4, 6, 9, 11} ==> n == 30
    ensures m in {1, 3, 5, 7, 8, 10, 12} ==> n == 31
  {
    if m == 2 then (if IsLeapYear(y) then 29 else 28)
    else if m == 4 || m == 6 || m == 9 || m == 11 then 30
    else 31
  }

  function YearLength(y: int): int {
    if IsLeapYear(y) then 366 else 365
  }

  /** A date that exists on the calendar. */
  predicate ValidDate(d: Date) {
    1 <= d.month <= 12 && 1 <= d.day <= DaysInMonth(d.year, d.month)
  }

  /** date-fns isSameMonth: two dates of the same month count the same
      number of months from year 0. */
  predicate IsSameMonth(a: Date, b: Date)
    ensures 1 <= a.month <= 12 && 1 <= b.month <= 12 ==>
      (IsSameMonth(a, b) <==> MonthIndex(a) == MonthIndex(b))
  {
    a.year == b.year && a.month == b.month
  }

  /** Number of days from 0001-01-01 to January 1 of year y. */
  function DaysBeforeYear(y: int): int {
    365 * (y - 1) + (y - 1) / 4 - (y - 1) / 100 + (y - 1) / 400
  }

  /** Number of days in year y before the first of month m. */
  function DaysBeforeMonth(y: int, m: int): (n: int)
    requires 1 <= m <= 12
    ensures 0 <= n <= 31 * (m - 1)
    decreases m
  {
    if m == 1 then 0 else DaysBeforeMonth(y, m - 1) + DaysInMonth(y, m - 1)
  }

  /** Days elapsed since 0001-01-01 (a Monday), which has number 0. */
  function DayNumber(d: Date): (n: int)
    requires 1 <= d.month <= 12
    ensures ValidDate(d) ==>
      DaysBeforeYear(d.year) <= n < DaysBeforeYear(d.year) + YearLength(d.year)
  {
    DaysBeforeMonthBound(d.year, d.month);
    DaysBeforeDecember(d.year);
    DaysBeforeYear(d.year) + DaysBeforeMonth(d.year, d.month) + d.day - 1
  }

  /** The date one day later. */
  function NextDay(d: Date): (r: Date)
    requires ValidDate(d)
    ensures ValidDate(r)
    ensures r.year == d.year || (r.year == d.year + 1 && r.month == 1 && r.day == 1)
  {
    if d.day < DaysInMonth(d.year, d.month) then Date(d.year, d.month, d.day + 1)
    else if d.month < 12 then Date(d.year, d.month + 1, 1)
    else Date(d.year + 1, 1, 1)
  }

  /** y / 4 - (y - 1) / 4 is 1 exactly when 4 divides y. */
  lemma FloorStep4(y: int)
    ensures y / 4 - (y - 1) / 4 == if y % 4 == 0 then 1 else 0
  {
    var q, r := (y - 1) / 4, (y - 1) % 4;
    assert y - 1 == 4 * q + r && 0 <= r < 4;
    if r == 3 {
      assert y == 4 * (q + 1) + 0;
    } else {
      assert y == 4 * q + (r + 1);
    }
  }

  /** y / 100 - (y - 1) / 100 is 1 exactly when 100 divides y. */
  lemma FloorStep100(y: int)
    ensures y / 100 - (y - 1) / 100 == if y % 100 == 0 then 1 else 0
  {
    var q, r := (y - 1) / 100, (y - 1) % 100;
    assert y - 1 == 100 * q + r && 0 <= r < 100;
    if r == 99 {
      assert y == 100 * (q + 1) + 0;
    } else {
      assert y == 100 * q + (r + 1);
    }
  }

  /** y / 400 - (y - 1) / 400 is 1 exactly when 400 divides y. */
  lemma FloorStep400(y: int)
    ensures y / 400 - (y - 1) / 400 == if y % 400 == 0 then 1 else 0
  {
    var q, r := (y - 1) / 400, (y - 1) % 400;
    assert y - 1 == 400 * q + r && 0 <= r < 400;
    if r == 399 {
      assert y == 400 * (q + 1) + 0;
    } else {
      assert y == 400 * q + (r + 1);
    }
  }

  /** A multiple of 400 is a multiple of 100, and a multiple of 100 is a
      multiple of 4. */
  lemma DivisorChain(y: int)
    ensures y % 400 == 0 ==> y % 100 == 0
    ensures y % 100 == 0 ==> y % 4 == 0
  {
    if y % 400 == 0 {
      var q := y / 400;
      assert y == 100 * (4 * q);
    }
    if y % 100 == 0 {
      var q := y / 100;
      assert y == 4 * (25 * q);
    }
  }

  /** A year's first day number plus its length is the next year's. */
  lemma DaysBeforeNextYear(y: int)
    ensures DaysBeforeYear(y + 1) == DaysBeforeYear(y) + YearLength(y)
  {
    var a, b, c := y / 4 - (y - 1) / 4, y / 100 - (y - 1) / 100, y / 400 - (y - 1) / 400;
    assert DaysBeforeYear(y + 1) - DaysBeforeYear(y) == 365 + a - b + c;
    FloorStep4(y);
    FloorStep100(y);
    FloorStep400(y);
    DivisorChain(y);
  }

  lemma {:induction false} DaysBeforeDecember(y: int)
    ensures DaysBeforeMonth(y, 12) + 31 == YearLength(y)
  {
    assert DaysBeforeMonth(y, 2) == 31;
    assert DaysBeforeMonth(y, 3) == 31 + DaysInMonth(y, 2);
  }

  /** The days before month m plus that month's length never pass December 31. */
  lemma {:induction false} DaysBeforeMonthBound(y: int, m: int)
    requires 1 <= m <= 12
    ensures DaysBeforeMonth(y, m) + DaysInMonth(y, m) <= DaysBeforeMonth(y, 12) + 31
    decreases 12 - m
  {
    if m < 12 {
      DaysBeforeMonthBound(y, m + 1);
    }
  }

  /** The day after a date is numbered one higher: NextDay walks the day line. */
  lemma NextDayNumber(d: Date)
    requires ValidDate(d)
    ensures DayNumber(NextDay(d)) == DayNumber(d) + 1
  {
    if d.day == DaysInMonth(d.year, d.month) && d.month == 12 {
      DaysBeforeNextYear(d.year);
      DaysBeforeDecember(d.year);
    }
  }

  /** Within one month, day numbers are consecutive. */
  lemma SameMonthNumber(a: Date, b: Date)
    requires ValidDate(a) && ValidDate(b) && IsSameMonth(a, b)
    ensures DayNumber(b) - DayNumber(a) == b.day - a.day
  {
  }

  // ---------------------------------------------------------------------
  // Weekdays

  /** Weekday abbreviations in Monday-first order, as date-fns formats
      pattern 'E' in the English locale. */
  const WeekdayNames: seq<string> := ["Mon", "Tue", "Wed", "Thu", "Fri", "Sat", "Sun"]

  /** 0 for Monday up to 6 for Sunday. */
  function Weekday(d: Date): (w: nat)
    requires 1 <= d.month <= 12
    ensures w < 7
  {
    DayNumber(d) % 7
  }

  /** The three-letter English weekday name of d. */
  function WeekdayName(d: Date): (s: string)
    requires 1 <= d.month <= 12
    ensures |s| == 3
    ensures s in WeekdayNames
  {
    WeekdayNames[Weekday(d)]
  }

  /** Remainders mod 7 advance by one, wrapping from 6 to 0. */
  lemma ModSevenStep(n: int)
    ensures (n + 1) % 7 == (n % 7 + 1) % 7
  {
    var q, r := n / 7, n % 7;
    assert n == 7 * q + r && 0 <= r < 7;
    if r == 6 {
      assert n + 1 == 7 * (q + 1) + 0;
    } else {
      assert n + 1 == 7 * q + (r + 1);
    }
  }

  /** Weekdays cycle: the day after a date falls on the following weekday. */
  lemma NextDayWeekday(d: Date)
    requires ValidDate(d)
    ensures Weekday(NextDay(d)) == (Weekday(d) + 1) % 7
  {
    NextDayNumber(d);
    ModSevenStep(DayNumber(d));
  }

  /** Weekday names cycle: the day after a date gets the next name in
      Mon..Sun order, wrapping from Sun to Mon. */
  lemma NextDayWeekdayName(d: Date, i: nat)
    requires ValidDate(d) && i < 7 && WeekdayName(d) == WeekdayNames[i]
    ensures WeekdayName(NextDay(d)) == WeekdayNames[(i + 1) % 7]
  {
    NextDayWeekday(d);
  }

  /** The cycle is anchored to the calendar: March 4, 2024 is named Mon. */
  lemma WeekdayNameAnchor()
    ensures WeekdayName(Date(2024, 3, 4)) == "Mon"
  {
    assert DaysBeforeYear(2024) == 738885;
    assert DaysBeforeMonth(2024, 3) == 60;
  }

  // ---------------------------------------------------------------------
  // Month arithmetic (date-fns addMonths / subMonths)

  /** Months elapsed since January of year 0. */
  function MonthIndex(d: Date): int {
    d.year * 12 + d.month - 1
  }

  function Min(a: int, b: int): int {
    if a <= b then a else b
  }

  /** The same day-of-month n months later, clamped to the length of the
      target month (date-fns addMonths; a negative n moves backwards). */
  function AddMonths(d: Date, n: int): (r: Date)
    requires ValidDate(d)
    ensures ValidDate(r)
    ensures MonthIndex(r) == MonthIndex(d) + n
    ensures r.day <= d.day
    ensures r.day == d.day || r.day == DaysInMonth(r.year, r.month)
    ensures d.day <= DaysInMonth(r.year, r.month) ==> r.day == d.day
  {
    var target := MonthIndex(d) + n;
    var y, m := target / 12, target % 12 + 1;
    Date(y, m, Min(d.day, DaysInMonth(y, m)))
  }

  /** date-fns subMonths. */
  function SubMonths(d: Date, n: int): (r: Date)
    requires ValidDate(d)
    ensures ValidDate(r)
    ensures MonthIndex(r) == MonthIndex(d) - n
    ensures r.day <= d.day
    ensures r.day == d.day || r.day == DaysInMonth(r.year, r.month)
    ensures d.day <= DaysInMonth(r.year, r.month) ==> r.day == d.day
  {
    AddMonths(d, -n)
  }

  /** The month index determines year and month of a valid date. */
  lemma MonthIndexInjective(a: Date, b: Date)
    requires 1 <= a.month <= 12 && 1 <= b.month <= 12
    requires MonthIndex(a) == MonthIndex(b)
    ensures a.year == b.year && a.month == b.month
  {
  }

  /** Moving one month forward keeps the day when it fits and otherwise clamps
      it to the last day; December rolls into January of the next year. */
  lemma NextMonthShape(d: Date)
    requires ValidDate(d)
    ensures var r := AddMonths(d, 1);
      (if d.month == 12 then r.year == d.year + 1 && r.month == 1
       else r.year == d.year && r.month == d.month + 1)
      && r.day == Min(d.day, DaysInMonth(r.year, r.month))
  {
    var r := AddMonths(d, 1);
    var e := if d.month == 12 then Date(d.year + 1, 1, 1) else Date(d.year, d.month + 1, 1);
    MonthIndexInjective(r, e);
  }

  /** Moving one month back keeps the day when it fits and otherwise clamps
      it to the last day; January rolls into December of the previous year. */
  lemma PreviousMonthShape(d: Date)
    requires ValidDate(d)
    ensures var r := SubMonths(d, 1);
      (if d.month == 1 then r.year == d.year - 1 && r.month == 12
       else r.year == d.year && r.month == d.month - 1)
      && r.day == Min(d.day, DaysInMonth(r.year, r.month))
  {
    var r := SubMonths(d, 1);
    var e := if d.month == 1 then Date(d.year - 1, 12, 1) else Date(d.year, d.month - 1, 1);
    MonthIndexInjective(r, e);
  }

  /** Going back a month and then forward again returns to the original month,
      with a day no later than the original, and the same day exactly when
      the previous month was long enough to hold it. */
  lemma PreviousThenNext(d: Date)
    requires ValidDate(d)
    ensures var p := SubMonths(d, 1);
      var r := AddMonths(p, 1);
      IsSameMonth(r, d) && r.day <= d.day
      && (r.day == d.day <==> d.day <= DaysInMonth(p.year, p.month))
  {
    var p := SubMonths(d, 1);
    var r := AddMonths(p, 1);
    PreviousMonthShape(d);
    NextMonthShape(p);
    MonthIndexInjective(r, d);
  }

  /** Symmetrically, forward then back. */
  lemma NextThenPrevious(d: Date)
    requires ValidDate(d)
    ensures var n := AddMonths(d, 1);
      var r := SubMonths(n, 1);
      IsSameMonth(r, d) && r.day <= d.day
      && (r.day == d.day <==> d.day <= DaysInMonth(n.year, n.month))
  {
    var n := AddMonths(d, 1);
    var r := SubMonths(n, 1);
    NextMonthShape(d);
    PreviousMonthShape(n);
    MonthIndexInjective(r, d);
  }
}
