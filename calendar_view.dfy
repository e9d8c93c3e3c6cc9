/**
 * The state of the calendar view (src/components/Calendar.tsx): the date
 * whose month is displayed, which the previous/next buttons replace, and the
 * fixed list of events.
 */
module CalendarView {
  import opened Gregorian
  import opened MonthGrid
  import opened Events

  /** The event list the view starts with. */
  const KarateClass := Event(1, "Little Tigers Karate", "3:00 PM - 4:00 PM",
    "34 West 15th Street, NY", "25 out of 30", ["Mon", "Thu"], Weekly, None)

  const InitialEvents: seq<Event> := [KarateClass]

  class Calendar {
    /** The reference date whose month is shown. */
    var currentDate: Date
    /** The events; the view never changes them. */
    const events: seq<Event>

    ghost predicate Valid()
      reads this
    {
      ValidDate(currentDate)
    }

    /** The view opens on `today`, the wall-clock date passed in. */
    constructor (today: Date)
      requires ValidDate(today)
      ensures Valid()
      ensures currentDate == today && events == InitialEvents
    {
      currentDate := today;
      events := InitialEvents;
    }

    /** Show the month before: the same day-of-month one month earlier,
        clamped to that month's length. */
    method PreviousMonth()
      requires Valid()
      modifies this
      ensures Valid()
      ensures currentDate == SubMonths(old(currentDate), 1)
      ensures MonthIndex(currentDate) == MonthIndex(old(currentDate)) - 1
      ensures currentDate.day == Min(old(currentDate).day, DaysInMonth(currentDate.year, currentDate.month))
    {
      PreviousMonthShape(currentDate);
      currentDate := SubMonths(currentDate, 1);
    }

    /** Show the month after: the same day-of-month one month later, clamped
        to that month's length. */
    method NextMonth()
      requires Valid()
      modifies this
      ensures Valid()
      ensures currentDate == AddMonths(old(currentDate), 1)
      ensures MonthIndex(currentDate) == MonthIndex(old(currentDate)) + 1
      ensures currentDate.day == Min(old(currentDate).day, DaysInMonth(currentDate.year, currentDate.month))
    {
      NextMonthShape(currentDate);
      currentDate := AddMonths(currentDate, 1);
    }
  }

  // ---------------------------------------------------------------------
  // Scenarios

  /** Navigating forward from January 31, 2024 clamps to February 29. */
  lemma January31NextMonth()
    ensures AddMonths(Date(2024, 1, 31), 1) == Date(2024, 2, 29)
  {
    NextMonthShape(Date(2024, 1, 31));
  }

  /** From March 31, 2024, back then forward lands on March 29, not the
      31st: February 2024 has only 29 days. From March 15 it is exact. */
  lemma March2024RoundTrips()
    ensures AddMonths(SubMonths(Date(2024, 3, 31), 1), 1) == Date(2024, 3, 29)
    ensures AddMonths(SubMonths(Date(2024, 3, 15), 1), 1) == Date(2024, 3, 15)
  {
    PreviousMonthShape(Date(2024, 3, 31));
    NextMonthShape(Date(2024, 2, 29));
    PreviousMonthShape(Date(2024, 3, 15));
    NextMonthShape(Date(2024, 2, 15));
  }

  /** March 1, 2024 has day number 738945, which is 4 mod 7: a Friday. */
  lemma March2024Weekday(k: int)
    requires 1 <= k <= 31
    ensures Weekday(Date(2024, 3, k)) == (k + 3) % 7
  {
    assert DaysBeforeYear(2024) == 738885;
    assert DaysBeforeMonth(2024, 3) == 60;
  }

  /** The weekday names listed by the karate class name weekdays 0 and 3. */
  lemma MonThuNames(w: nat)
    requires w < 7
    ensures WeekdayNames[w] in KarateClass.days <==> w == 0 || w == 3
  {
    assert KarateClass.days == ["Mon", "Thu"];
    assert WeekdayNames[w] == ["Mon", "Tue", "Wed", "Thu", "Fri", "Sat", "Sun"][w];
  }

  /** The karate class is shown on a date of March 2024 exactly when that
      date is a Monday or a Thursday. */
  lemma KarateOnMarch2024Day(d: Date)
    requires ValidDate(d) && d.year == 2024 && d.month == 3
    ensures EventsForDay(d, InitialEvents) ==
      (if d.day in {4, 7, 11, 14, 18, 21, 25, 28} then InitialEvents else [])
  {
    var k := d.day;
    assert d == Date(2024, 3, k);
    March2024Weekday(k);
    var w := Weekday(d);
    MonThuNames(w);
    assert (w == 0 || w == 3) <==> k in {4, 7, 11, 14, 18, 21, 25, 28};
    assert Substring(WeekdayName(d), 3) == WeekdayNames[w];
    assert InitialEvents[1..] == [];
    assert EventsForDay(d, InitialEvents[1..]) == [];
  }

  /** Whatever day of March 2024 the view shows, the karate class (Mondays
      and Thursdays) appears in the grid exactly on Mondays 4, 11, 18, 25 and
      Thursdays 7, 14, 21, 28. */
  lemma KarateInMarch2024(current: Date)
    requires ValidDate(current) && current.year == 2024 && current.month == 3
    ensures |Days(current)| == 31
    ensures forall d :: d in Days(current) ==>
      EventsForDay(d, InitialEvents) ==
        (if d.day in {4, 7, 11, 14, 18, 21, 25, 28} then InitialEvents else [])
  {
    DaysAreTheMonth(current);
    forall d | d in Days(current)
      ensures EventsForDay(d, InitialEvents) ==
        (if d.day in {4, 7, 11, 14, 18, 21, 25, 28} then InitialEvents else [])
    {
      DaysMembership(current, d);
      KarateOnMarch2024Day(d);
    }
  }
}
