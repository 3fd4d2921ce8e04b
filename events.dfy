/**
 * Matching events to days (jquery.simple-calendar.js, isSameday and the
 * filter that selects the events of a grid cell).
 *
 * A JavaScript Date object seen through its local-time getters is a calendar
 * day together with a time of day; `Moment` is that pair. An event carries
 * the two moments obtained from its start and end date strings.
 */
module Events {
  import opened Dates

  const MS_PER_DAY := 86400000

  datatype Moment = Moment(date: Date, msOfDay: int) {
    predicate Valid() {
      date.Valid() && 0 <= msOfDay < MS_PER_DAY
    }
  }

  /** The moment a grid cell stands for: local midnight of its day. */
  function AtMidnight(d: Date): (m: Moment)
    requires d.Valid()
    ensures m.Valid() && m.date == d
  {
    Moment(d, 0)
  }

  datatype Event = Event(startDate: Moment, endDate: Moment)

  /** isSameday: same full year, same month, same day of month; the time of day plays no part. */
  predicate IsSameDay(d1: Moment, d2: Moment): (same: bool)
    ensures same <==> d1.date == d2.date
  {
    d1.date.year == d2.date.year && d1.date.month == d2.date.month && d1.date.day == d2.date.day
  }

  /** The filter's callback: the event starts or ends on the given day. */
  predicate OnBoundary(e: Event, day: Moment) {
    IsSameDay(e.startDate, day) || IsSameDay(e.endDate, day)
  }

  /** `events.filter(...)`: the events that start or end on `day`, in their original order. */
  function EventsOn(events: seq<Event>, day: Moment): (r: seq<Event>)
    ensures |r| <= |events|
    ensures forall i :: 0 <= i < |r| ==> OnBoundary(r[i], day)
    ensures events == [] ==> r == []
  {
    if events == [] then []
    else if OnBoundary(events[0], day) then [events[0]] + EventsOn(events[1..], day)
    else EventsOn(events[1..], day)
  }

  /**
   * The filter keeps exactly the events that start or end on the day, and
   * keeps all of them only when every event does.
   */
  lemma {:induction false} EventsOnMembers(events: seq<Event>, day: Moment)
    ensures forall e :: e in EventsOn(events, day) <==> e in events && OnBoundary(e, day)
    ensures |EventsOn(events, day)| == |events| <==> forall i :: 0 <= i < |events| ==> OnBoundary(events[i], day)
  {
    if events != [] {
      EventsOnMembers(events[1..], day);
      assert forall e :: e in events <==> e == events[0] || e in events[1..];
      if !OnBoundary(events[0], day) {
        assert |EventsOn(events, day)| < |events|;
      } else {
        assert forall i :: 1 <= i < |events| ==> events[i] == events[1..][i - 1];
      }
    }
  }

  /** `todayEvents.length` is truthy: the day is flagged has-event. */
  predicate HasEvent(events: seq<Event>, day: Moment) {
    |EventsOn(events, day)| > 0
  }

  /** isSameday compares calendar days, ignoring the time of day, and is an equivalence. */
  lemma SameDayIsDayEquality(a: Moment, b: Moment, c: Moment)
    ensures IsSameDay(a, b) <==> a.date == b.date
    ensures IsSameDay(a, a)
    ensures IsSameDay(a, b) ==> IsSameDay(b, a)
    ensures IsSameDay(a, b) && IsSameDay(b, c) ==> IsSameDay(a, c)
    ensures IsSameDay(a, b) <==> IsSameDay(Moment(a.date, 0), Moment(b.date, c.msOfDay))
  {
  }

  /** A day is flagged exactly when some event starts or ends on it; no events flag nothing. */
  lemma HasEventIff(events: seq<Event>, day: Moment)
    ensures HasEvent(events, day) <==>
      exists i :: 0 <= i < |events| && (IsSameDay(events[i].startDate, day) || IsSameDay(events[i].endDate, day))
    ensures events == [] ==> !HasEvent(events, day)
  {
    var r := EventsOn(events, day);
    EventsOnMembers(events, day);
    if HasEvent(events, day) {
      assert r[0] in r;
    } else {
      forall i | 0 <= i < |events|
        ensures !OnBoundary(events[i], day)
      {
        assert events[i] in events;
      }
    }
  }

  /**
   * Days strictly inside every event's span are not flagged: only the two
   * boundary days of a multi-day event are.
   */
  lemma InteriorDaysNotFlagged(events: seq<Event>, day: Moment)
    requires day.Valid()
    requires forall i :: 0 <= i < |events| ==>
      events[i].startDate.Valid() && events[i].endDate.Valid() &&
      DayNumber(events[i].startDate.date) < DayNumber(day.date) < DayNumber(events[i].endDate.date)
    ensures !HasEvent(events, day)
  {
    HasEventIff(events, day);
  }

  /** 10 to 12 March 2024: the 10th and the 12th are flagged, the 11th is not. */
  lemma MarchScenario()
    ensures var e := [Event(Moment(Date(2024, 2, 10), 0), Moment(Date(2024, 2, 12), 0))];
      HasEvent(e, AtMidnight(Date(2024, 2, 10)))
      && !HasEvent(e, AtMidnight(Date(2024, 2, 11)))
      && HasEvent(e, AtMidnight(Date(2024, 2, 12)))
  {
    var e := [Event(Moment(Date(2024, 2, 10), 0), Moment(Date(2024, 2, 12), 0))];
    HasEventIff(e, AtMidnight(Date(2024, 2, 10)));
    HasEventIff(e, AtMidnight(Date(2024, 2, 11)));
    HasEventIff(e, AtMidnight(Date(2024, 2, 12)));
  }
}
