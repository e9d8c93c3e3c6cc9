/**
 * The calendar view's day grid: every date of the month of a reference date,
 * from the first to the last, built as date-fns does it from startOfMonth,
 * endOfMonth and eachDayOfInterval. The grid is not padded to whole weeks.
 */
module MonthGrid {
  import opened Gregorian

  /** date-fns startOfMonth: the earliest date of d's month. */
  function StartOfMonth(d: Date): (r: Date)
    requires ValidDate(d)
    ensures ValidDate(r) && IsSameMonth(r, d)
    ensures forall e :: ValidDate(e) && IsSameMonth(e, d) ==> r.day <= e.day
  {
    Date(d.year, d.month, 1)
  }

  /** date-fns endOfMonth: the latest date of d's month; the day after it
      belongs to another month. */
  function EndOfMonth(d: Date): (r: Date)
    requires ValidDate(d)
    ensures ValidDate(r) && IsSameMonth(r, d)
    ensures forall e :: ValidDate(e) && IsSameMonth(e, d) ==> e.day <= r.day
    ensures !IsSameMonth(NextDay(r), d)
  {
    Date(d.year, d.month, DaysInMonth(d.year, d.month))
  }

  /** date-fns eachDayOfInterval: every date from start to end inclusive, one
      day apart, in ascending order. */
  function EachDayOfInterval(start: Date, end: Date): (r: seq<Date>)
    requires ValidDate(start) && ValidDate(end)
    requires DayNumber(start) <= DayNumber(end)
    ensures |r| == DayNumber(end) - DayNumber(start) + 1
    ensures r[0] == start && r[|r| - 1] == end
    ensures forall i :: 0 <= i < |r| ==> ValidDate(r[i]) && DayNumber(r[i]) == DayNumber(start) + i
    decreases DayNumber(end) - DayNumber(start)
  {
    if DayNumber(start) == DayNumber(end) then
      DayNumberInjective(start, end);
      [start]
    else
      NextDayNumber(start);
      [start] + EachDayOfInterval(NextDay(start), end)
  }

  /** Calendar.tsx computes `days` for the current date: the month grid. */
  function Days(current: Date): (r: seq<Date>)
    requires ValidDate(current)
    ensures |r| == DaysInMonth(current.year, current.month)
    ensures r[0] == Date(current.year, current.month, 1)
    ensures r[|r| - 1] == Date(current.year, current.month, DaysInMonth(current.year, current.month))
  {
    var monthStart := StartOfMonth(current);
    var monthEnd := EndOfMonth(current);
    SameMonthNumber(monthStart, monthEnd);
    EachDayOfInterval(monthStart, monthEnd)
  }

  /** Distinct valid dates have distinct day numbers. */
  lemma DayNumberInjective(a: Date, b: Date)
    requires ValidDate(a) && ValidDate(b)
    requires DayNumber(a) == DayNumber(b)
    ensures a == b
  {
    if a.year != b.year {
      if a.year < b.year { DayNumberYearBound(a, b); } else { DayNumberYearBound(b, a); }
    } else if a.month != b.month {
      if a.month < b.month { DayNumberMonthBound(a, b); } else { DayNumberMonthBound(b, a); }
    }
  }

  /** Every date of an earlier year is numbered lower. */
  lemma DayNumberYearBound(a: Date, b: Date)
    requires ValidDate(a) && ValidDate(b) && a.year < b.year
    ensures DayNumber(a) < DayNumber(b)
  {
    DaysBeforeMonthBound(a.year, a.month);
    DaysBeforeYearMonotone(a.year + 1, b.year);
    DaysBeforeNextYear(a.year);
    DaysBeforeDecember(a.year);
  }

  lemma {:induction false} DaysBeforeYearMonotone(x: int, y: int)
    requires x <= y
    ensures DaysBeforeYear(x) <= DaysBeforeYear(y)
    decreases y - x
  {
    if x < y {
      DaysBeforeNextYear(x);
      DaysBeforeYearMonotone(x + 1, y);
    }
  }

  /** Every date of an earlier month of the same year is numbered lower. */
  lemma {:induction false} DayNumberMonthBound(a: Date, b: Date)
    requires ValidDate(a) && ValidDate(b) && a.year == b.year && a.month < b.month
    ensures DayNumber(a) < DayNumber(b)
    decreases b.month - a.month
  {
    if a.month + 1 < b.month {
      DayNumberMonthBound(Date(a.year, a.month + 1, 1), b);
    }
  }

  // ---------------------------------------------------------------------
  // Properties of the grid

  /** The grid lists exactly the dates of the reference month: cell i is day
      i + 1, so it starts on the 1st, ends on the last day, and its length is
      the month's length. */
  lemma {:induction false} DaysAreTheMonth(current: Date)
    requires ValidDate(current)
    ensures |Days(current)| == DaysInMonth(current.year, current.month)
    ensures forall i :: 0 <= i < |Days(current)| ==>
      Days(current)[i] == Date(current.year, current.month, i + 1)
  {
    var r := Days(current);
    forall i | 0 <= i < |r|
      ensures r[i] == Date(current.year, current.month, i + 1)
    {
      var e := Date(current.year, current.month, i + 1);
      SameMonthNumber(StartOfMonth(current), EndOfMonth(current));
      SameMonthNumber(StartOfMonth(current), e);
      DayNumberInjective(r[i], e);
    }
  }

  /** No cell comes from an adjacent month, and every date of the month has a
      cell: a valid date is in the grid exactly when it shares year and month
      with the reference date. */
  lemma DaysMembership(current: Date, d: Date)
    requires ValidDate(current) && ValidDate(d)
    ensures d in Days(current) <==> IsSameMonth(d, current)
  {
    DaysAreTheMonth(current);
    var r := Days(current);
    if IsSameMonth(d, current) {
      assert r[d.day - 1] == d;
    }
  }

  /** Every cell is one day after the one before it, so the grid is strictly
      increasing. */
  lemma DaysConsecutive(current: Date)
    requires ValidDate(current)
    ensures forall i :: 0 < i < |Days(current)| ==>
      Days(current)[i] == NextDay(Days(current)[i - 1])
    ensures forall i, j :: 0 <= i < j < |Days(current)| ==>
      DayNumber(Days(current)[i]) < DayNumber(Days(current)[j])
  {
    DaysAreTheMonth(current);
  }

  /** Calendar.tsx styles a cell as out-of-month when isSameMonth(day,
      currentDate) fails; for every cell of the grid it holds, so that styling
      is never applied. */
  lemma NoOutOfMonthCells(current: Date)
    requires ValidDate(current)
    ensures forall d :: d in Days(current) ==> IsSameMonth(d, current)
  {
    forall d | d in Days(current)
      ensures IsSameMonth(d, current)
    {
      DaysMembership(current, d);
    }
  }

  /** For any reference date in February 2024 (a leap year) the grid has 29
      cells, from February 1 to February 29. */
  lemma LeapFebruaryGrid(current: Date)
    requires ValidDate(current) && current.year == 2024 && current.month == 2
    ensures |Days(current)| == 29
    ensures Days(current)[0] == Date(2024, 2, 1) && Days(current)[28] == Date(2024, 2, 29)
  {
    assert IsLeapYear(2024);
    DaysAreTheMonth(current);
  }

  /** February 1900 is not a leap month (divisible by 100, not by 400), so its
      grid has 28 cells; February 2000 (divisible by 400) has 29. */
  lemma CenturyFebruaryGrids(a: Date, b: Date)
    requires ValidDate(a) && a.year == 1900 && a.month == 2
    requires ValidDate(b) && b.year == 2000 && b.month == 2
    ensures |Days(a)| == 28
    ensures |Days(b)| == 29
  {
    assert !IsLeapYear(1900) && IsLeapYear(2000);
    DaysAreTheMonth(a);
    DaysAreTheMonth(b);
  }

  /** For any reference date in March 2024 the grid has 31 cells. */
  lemma MarchGrid(current: Date)
    requires ValidDate(current) && current.year == 2024 && current.month == 3
    ensures |Days(current)| == 31
  {
    DaysAreTheMonth(current);
  }
}
