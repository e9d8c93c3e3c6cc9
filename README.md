# Calendar view of the events dashboard — a Dafny model

The dashboard shows one month of a calendar. Under each day it lists the events
that occur on that day. This project models the logic behind that view:

- **The month grid** (`days`): every date from the first to the last day of the
  month of the current date, in ascending order. It is not padded to whole
  weeks.
- **Month navigation** (`previousMonth`, `nextMonth`): these replace the current
  date with the same day-of-month one month earlier or later. The day is clamped
  to the length of the target month, as date-fns `subMonths` and `addMonths` do.
- **The occurrence matcher** (`getEventsForDay`): this filters the event list
  down to the weekly events whose `days` contain the three-letter English
  weekday name of the date. Events typed `monthly` or `once` are never shown.

The view calls date-fns, a date library from outside this repository. The
functions it uses are modelled on proleptic Gregorian `(year, month, day)` triples:
`startOfMonth`, `endOfMonth`, `eachDayOfInterval`, `addMonths`, `subMonths`,
`isSameMonth` and `format(date, 'E')`. The model includes the leap-year rule
and month lengths. It also has a day number, which counts days from
0001-01-01 (a Monday). The weekday of a date is its day number mod 7.

Modules:

- `Gregorian` (gregorian.dfy): dates, month lengths, day numbers, weekdays,
  and month addition with clamping.
- `MonthGrid` (month_grid.dfy): start and end of a month, the interval of
  days, the grid, and the grid's properties.
- `Events` (events.dfy): the `Event` record of `src/types.ts` and the matcher.
  The source field `type` is called `kind` because `type` is a Dafny keyword.
- `CalendarView` (calendar_view.dfy): the view's state. The class `Calendar`
  holds the current date, which `PreviousMonth` and `NextMonth` update in
  place, and the event list, which never changes. It also holds concrete
  scenarios over the view's own event list.

## Model

| member | source | states |
|---|---|---|
| Gregorian.IsLeapYear | src/components/Calendar.tsx:25 | Every leap year is a multiple of 4. A multiple of 4 that is not a century year is a leap year. A century year is a leap year exactly when it is a multiple of 400. |
| Gregorian.LeapYearPeriod | src/components/Calendar.tsx:25 | The leap-year rule repeats every 400 years. |
| Gregorian.DaysInMonth | src/components/Calendar.tsx:25 | February has 29 days in a leap year and 28 otherwise. April, June, September and November have 30. January, March, May, July, August, October and December have 31. |
| Gregorian.IsSameMonth | src/components/Calendar.tsx:140-147 | For dates with valid months, isSameMonth holds exactly when both dates have the same month index, that is, the same number of months since year 0. |
| Gregorian.DayNumber | src/components/Calendar.tsx:26 | A valid date's day number lies within its year: at least the number of that year's first day, and below the next year's first day. |
| Gregorian.NextDay | src/components/Calendar.tsx:26 | The day after a valid date is valid. It is in the same year, or it is January 1 of the next year. |
| Gregorian.Weekday | src/components/Calendar.tsx:39 | The weekday of a date is a number from 0 (Monday) to 6 (Sunday). |
| Gregorian.NextDayNumber | src/components/Calendar.tsx:26 | The day after a valid date has a day number one higher, also across month and year ends. |
| Gregorian.NextDayWeekday | src/components/Calendar.tsx:39 | The day after a date falls on the next weekday, wrapping from Sunday to Monday. |
| Gregorian.WeekdayName | src/components/Calendar.tsx:39 | The weekday name of a date is one of the seven three-letter names Mon..Sun. |
| Gregorian.NextDayWeekdayName | src/components/Calendar.tsx:39 | The day after a date gets the next name in Mon..Sun order, wrapping from Sun to Mon. |
| Gregorian.WeekdayNameAnchor | src/components/Calendar.tsx:39 | March 4, 2024 is named Mon. With the cycle lemma, this fixes the name of every date. |
| Gregorian.AddMonths | src/components/Calendar.tsx:33 | The result is a valid date exactly n months later. Its day is the original day when that fits the target month and otherwise the target month's last day. It is never later in its month than the original day. |
| Gregorian.SubMonths | src/components/Calendar.tsx:29 | The result is a valid date exactly n months earlier. Its day is the original day when that fits the target month and otherwise the target month's last day. It is never later in its month than the original day. |
| Gregorian.NextMonthShape | src/components/Calendar.tsx:32-34 | One month forward: December rolls into January of the next year, and any other month into the following month of the same year. The day becomes min(day, length of the target month). |
| Gregorian.PreviousMonthShape | src/components/Calendar.tsx:28-30 | One month back: January rolls into December of the previous year, and any other month into the preceding month of the same year. The day becomes min(day, length of the target month). |
| Gregorian.PreviousThenNext | src/components/Calendar.tsx:28-34 | Previous then next returns to the original year and month, with a day no later than the original. The day is unchanged exactly when the previous month holds it. |
| Gregorian.NextThenPrevious | src/components/Calendar.tsx:28-34 | Next then previous returns to the original year and month, with a day no later than the original. The day is unchanged exactly when the next month holds it. |
| MonthGrid.StartOfMonth | src/components/Calendar.tsx:24 | The result is a valid date in the same month, and no date of that month is earlier. |
| MonthGrid.EndOfMonth | src/components/Calendar.tsx:25 | The result is a valid date in the same month, and no date of that month is later. The day after it lies in another month. |
| MonthGrid.EachDayOfInterval | src/components/Calendar.tsx:26 | The result starts at start and ends at end, and has one entry per day. Entry i is a valid date whose day number is start's plus i. |
| MonthGrid.Days | src/components/Calendar.tsx:24-26 | The grid has one cell per day of the current month. It starts on the 1st and ends on the month's last day. |
| MonthGrid.DayNumberInjective | src/components/Calendar.tsx:26 | Two valid dates with the same day number are the same date, so stepping through day numbers visits each date once. |
| MonthGrid.DaysAreTheMonth | src/components/Calendar.tsx:24-26 | The grid has as many cells as the month has days, and cell i is day i+1 of the current month. So it starts on the 1st and ends on the last day. |
| MonthGrid.DaysMembership | src/components/Calendar.tsx:24-26 | A valid date is in the grid exactly when it has the current date's year and month. No cell comes from an adjacent month, and no day of the month is missing. |
| MonthGrid.DaysConsecutive | src/components/Calendar.tsx:26 | Each cell is the day after the previous one, and cells are strictly increasing. |
| MonthGrid.NoOutOfMonthCells | src/components/Calendar.tsx:140-147 | isSameMonth(day, currentDate) holds for every grid cell, so the greyed out-of-month styling never applies. |
| MonthGrid.LeapFebruaryGrid | src/components/Calendar.tsx:24-26 | For any reference date in February 2024, the grid has 29 cells, from February 1 to February 29. |
| MonthGrid.CenturyFebruaryGrids | src/components/Calendar.tsx:24-26 | For reference dates in February, the grid has 28 cells in 1900 and 29 in 2000. |
| MonthGrid.MarchGrid | src/components/Calendar.tsx:24-26 | For any reference date in March 2024, the grid has 31 cells. |
| Events.Substring | src/components/Calendar.tsx:39 | JavaScript substring(0, n): a prefix of the string, of length min(n, length). |
| Events.ShownOn | src/components/Calendar.tsx:37-43 | The filter callback accepts an event exactly when the event is weekly and its days contain the date's weekday name. The substring(0, 3) step leaves the three-letter name unchanged. |
| Events.EventsForDay | src/components/Calendar.tsx:36-44 | The result is a subsequence of the events, in their order. A weekly event whose days name the date's weekday occurs in it as often as in the list. Every other event does not occur. |
| Events.NonWeeklyNeverShown | src/components/Calendar.tsx:38-42 | An event of type monthly or once is never shown, on any date. |
| Events.WeeklyShownIff | src/components/Calendar.tsx:38-40 | A weekly event of the list is shown on a date exactly when its days contain the date's weekday name. |
| Events.ShownAreFromList | src/components/Calendar.tsx:37 | The result is no longer than the list. Every shown event is a weekly event of the list. |
| CalendarView.Calendar.constructor | src/components/Calendar.tsx:11-22 | The view starts on the given date with the single karate-class event. |
| CalendarView.Calendar.PreviousMonth | src/components/Calendar.tsx:28-30 | The current date becomes subMonths(current, 1): one month earlier, with the day clamped to that month. The date stays valid. |
| CalendarView.Calendar.NextMonth | src/components/Calendar.tsx:32-34 | The current date becomes addMonths(current, 1): one month later, with the day clamped to that month. The date stays valid. |
| CalendarView.January31NextMonth | src/components/Calendar.tsx:32-34 | Next month from January 31, 2024 gives February 29, 2024. |
| CalendarView.March2024RoundTrips | src/components/Calendar.tsx:28-34 | Previous then next from March 31, 2024 gives March 29. From March 15 it gives March 15. |
| CalendarView.March2024Weekday | src/components/Calendar.tsx:39 | March k, 2024 has weekday (k+3) mod 7 with Monday as 0. So March 1 is a Friday and March 4 a Monday. |
| CalendarView.KarateOnMarch2024Day | src/components/Calendar.tsx:36-44 | The karate class (Mon, Thu) is shown on a date of March 2024 exactly when its day is 4, 7, 11, 14, 18, 21, 25 or 28. |
| CalendarView.KarateInMarch2024 | src/components/Calendar.tsx:12-44 | For any reference date in March 2024, the grid has 31 cells, and the karate class appears exactly under the Mondays and Thursdays. |

## Left out

- Rendering: JSX, styling classes, icons, the `format(currentDate, 'MMMM yyyy')` heading, and the alignment of cells under the MON..SUN header. None of these compute anything the view depends on.
- `isToday` (src/components/Calendar.tsx:132): it compares with the wall clock. The initial `new Date()` (line 11) is likewise a parameter of the `Calendar` constructor.
- `isSelected = dayIdx === 14` (line 133): a fixed display constant.
- Time of day, time zones, locales, and the finite range of JavaScript `Date`. Years are unbounded integers on the proleptic Gregorian calendar.
- MonthGrid.EachDayOfInterval: requires start not after end. The view only calls it with the start and end of one month. date-fns's behaviour for a reversed interval differs between versions and is not modelled.
- `format(date, 'E')` is modelled as the fixed English abbreviations Mon..Sun. Other locales are not modelled.
- `Event.layout` is kept as an optional string and plays no part in the logic.
- src/App.tsx, src/components/Sidebar.tsx and src/components/EventDetails.tsx: selection state, navigation callbacks and the event detail panel. They hold no logic beyond forwarding values. The "Edit Event" button in src/components/EventDetails.tsx (line 61) has no handler, and the code never writes an edited event back. So there is no editing or saving, and no edit round trip to prove.
- Per-cell `inCurrentMonth` and `isToday` flags: the code computes no such record. The only in-month test is the styling condition at lines 140 and 147, covered by MonthGrid.NoOutOfMonthCells.
