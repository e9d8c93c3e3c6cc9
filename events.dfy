/**
 * Events (src/types.ts) and the calendar view's occurrence matcher: which
 * events are shown under a day cell. Only weekly events are implemented; an
 * event of any other recurrence type never occurs.
 */
module Events {
  import opened Gregorian

  /** The recurrence type, written `type` in the source. */
  datatype EventType = Weekly | Monthly | Once

  datatype Option<T> = None | Some(value: T)

  datatype Event = Event(
    id: int,
    title: string,
    time: string,
    location: string,
    members: string,
    days: seq<string>,
    kind: EventType,
    layout: Option<string>)

  /** JavaScript's s.substring(0, n) for 0 <= n. */
  function Substring(s: string, n: nat): (r: string)
    ensures |r| == if |s| <= n then |s| else n
    ensures r <= s
  {
    if |s| <= n then s else s[..n]
  }

  /** The predicate handed to `events.filter` for a given date. */
  predicate ShownOn(e: Event, date: Date)
    requires 1 <= date.month <= 12
    ensures ShownOn(e, date) <==> e.kind == Weekly && WeekdayName(date) in e.days
  {
    if e.kind == Weekly then
      var dayName := Substring(WeekdayName(date), 3);
      dayName in e.days
    else
      false
  }

  /** a is obtained from b by deleting elements; order is kept. */
  predicate IsSubsequence<T(==)>(a: seq<T>, b: seq<T>)
    decreases |b|
  {
    if a == [] then true
    else if b == [] then false
    else if a[0] == b[0] then IsSubsequence(a[1..], b[1..])
    else IsSubsequence(a, b[1..])
  }

  /** getEventsForDay: the events shown under the cell of `date`, kept in
      their order in `events`. Each weekly event whose days name the date's
      weekday is kept as often as it occurs in `events`; every other event is
      dropped. */
  function EventsForDay(date: Date, events: seq<Event>): (r: seq<Event>)
    requires 1 <= date.month <= 12
    ensures IsSubsequence(r, events)
    ensures forall e :: multiset(r)[e] ==
                        (if e.kind == Weekly && WeekdayName(date) in e.days then multiset(events)[e] else 0)
  {
    if events == [] then []
    else
      var rest := EventsForDay(date, events[1..]);
      assert events == [events[0]] + events[1..];
      if ShownOn(events[0], date) then [events[0]] + rest else rest
  }

  /** Events of type monthly or once are never shown, on any date. */
  lemma NonWeeklyNeverShown(date: Date, events: seq<Event>, e: Event)
    requires 1 <= date.month <= 12
    requires e.kind != Weekly
    ensures e !in EventsForDay(date, events)
  {
    assert multiset(EventsForDay(date, events))[e] == 0;
  }

  /** A weekly event of the list is shown on a date exactly when its days
      name that date's weekday. */
  lemma WeeklyShownIff(date: Date, events: seq<Event>, e: Event)
    requires 1 <= date.month <= 12
    requires e in events && e.kind == Weekly
    ensures e in EventsForDay(date, events) <==> WeekdayName(date) in e.days
  {
    assert multiset(events)[e] > 0;
    assert e in EventsForDay(date, events) <==> multiset(EventsForDay(date, events))[e] > 0;
  }

  /** The result never holds more events than the list, and never an event
      the list does not hold. */
  lemma ShownAreFromList(date: Date, events: seq<Event>)
    requires 1 <= date.month <= 12
    ensures |EventsForDay(date, events)| <= |events|
    ensures forall e :: e in EventsForDay(date, events) ==> e in events && e.kind == Weekly
  {
    var r := EventsForDay(date, events);
    assert multiset(r) <= multiset(events);
    forall e | e in r
      ensures e in events && e.kind == Weekly
    {
      assert multiset(r)[e] > 0;
    }
  }
}
