/**
 * The calendar queries the engine makes: the event-window filter used to
 * collect busy intervals and to count a day's events, and the conflict test
 * run before a booking. Calendar-library times are compared as integers;
 * comparing an unreadable date fails the way a thrown error does.
 */
module CalendarService {
  import opened Models

  /**
   * `a.compare(b)`: -1, 0 or 1, or `None` when either date cannot be read
   * and the comparison throws.
   */
  function Compare(a: Time, b: Time): (c: Option<int>)
    ensures c.Some? <==> a.At? && b.At?
    ensures c.Some? ==> (c.value < 0 <==> a.ms < b.ms) && (c.value > 0 <==> a.ms > b.ms)
  {
    if a.Invalid? || b.Invalid? then None
    else if a.ms < b.ms then Some(-1)
    else if a.ms > b.ms then Some(1)
    else Some(0)
  }

  /** The test `c >= 0` on a comparison that may have thrown. */
  function AtLeastZero(c: Option<int>): Option<bool> {
    if c.None? then None else Some(c.value >= 0)
  }

  function AtMostZero(c: Option<int>): Option<bool> {
    if c.None? then None else Some(c.value <= 0)
  }

  function AboveZero(c: Option<int>): Option<bool> {
    if c.None? then None else Some(c.value > 0)
  }

  function BelowZero(c: Option<int>): Option<bool> {
    if c.None? then None else Some(c.value < 0)
  }

  /** JavaScript `x && y`, evaluated left to right; `None` is a throw. */
  function And(x: Option<bool>, y: Option<bool>): Option<bool> {
    if x.None? then None else if !x.value then Some(false) else y
  }

  /** JavaScript `x || y`, evaluated left to right; `None` is a throw. */
  function Or(x: Option<bool>, y: Option<bool>): Option<bool> {
    if x.None? then None else if x.value then Some(true) else y
  }

  /**
   * The filter callback of `getEventsByDateRange`, before its `catch`. With
   * no end date an event qualifies when it ends at or after the start date;
   * with one, when it starts or ends inside the closed window or strictly
   * spans it.
   */
  function WindowTest(e: CalendarEvent, startDate: Time, endDate: Option<Time>): (keep: Option<bool>)
    ensures startDate.Invalid? ==> keep.None?
    ensures endDate.None? ==>
              (keep.Some? <==> e.endDate.At? && startDate.At?)
              && (keep.Some? ==> (keep.value <==> e.endDate.ms >= startDate.ms))
    ensures endDate.Some? && e.startDate.At? && e.endDate.At? && startDate.At? && endDate.value.At? ==>
              var s, t, es, ee := startDate.ms, endDate.value.ms, e.startDate.ms, e.endDate.ms;
              keep == Some((s <= es <= t) || (s <= ee <= t) || (es < s && ee > t))
  {
    match endDate
    case None => AtLeastZero(Compare(e.endDate, startDate))
    case Some(endTime) =>
      Or(Or(And(AtLeastZero(Compare(e.startDate, startDate)), AtMostZero(Compare(e.startDate, endTime))),
            And(AtLeastZero(Compare(e.endDate, startDate)), AtMostZero(Compare(e.endDate, endTime)))),
         And(BelowZero(Compare(e.startDate, startDate)), AboveZero(Compare(e.endDate, endTime))))
  }

  /** Whether the filter keeps `e`: a comparison that throws is caught and drops the event. */
  function InDateRange(e: CalendarEvent, startDate: Time, endDate: Option<Time>): (kept: bool)
    ensures kept ==> startDate.At?
    ensures kept && endDate.None? ==> e.endDate.At?
    ensures kept && endDate.Some? ==> e.startDate.At? && endDate.value.At?
  {
    WindowTest(e, startDate, endDate) == Some(true)
  }

  /** `a` is `b` with some elements left out, the rest in their original order. */
  predicate SubsequenceOf<T(==)>(a: seq<T>, b: seq<T>) {
    if |a| == 0 then true
    else if |b| == 0 then false
    else if a[0] == b[0] then SubsequenceOf(a[1..], b[1..])
    else SubsequenceOf(a, b[1..])
  }

  /** Every element of a subsequence is an element of the whole. */
  lemma {:induction false} SubsequenceMembers<T>(a: seq<T>, b: seq<T>)
    requires SubsequenceOf(a, b)
    ensures forall x :: x in a ==> x in b
  {
    if |a| > 0 {
      if a[0] == b[0] {
        SubsequenceMembers(a[1..], b[1..]);
        assert a == [a[0]] + a[1..] && b == [b[0]] + b[1..];
      } else {
        SubsequenceMembers(a, b[1..]);
        assert b == [b[0]] + b[1..];
      }
    }
  }

  /**
   * `getEventsByDateRange`: the events the window test keeps, in calendar
   * order.
   */
  function GetEventsByDateRange(events: seq<CalendarEvent>, startDate: Time, endDate: Option<Time>)
    : (r: seq<CalendarEvent>)
    ensures SubsequenceOf(r, events)
    ensures forall i :: 0 <= i < |r| ==> InDateRange(r[i], startDate, endDate)
    ensures forall i :: 0 <= i < |events| && InDateRange(events[i], startDate, endDate) ==> events[i] in r
  {
    if |events| == 0 then []
    else
      var rest := GetEventsByDateRange(events[1..], startDate, endDate);
      if InDateRange(events[0], startDate, endDate) then [events[0]] + rest else rest
  }

  /**
   * The filter judges each event on its own: an event that is dropped,
   * because it is outside the window or because comparing it threw, does
   * not affect what is kept of the others.
   */
  lemma {:induction false} GetEventsByDateRangeAppend(a: seq<CalendarEvent>, b: seq<CalendarEvent>,
                                                      startDate: Time, endDate: Option<Time>)
    ensures GetEventsByDateRange(a + b, startDate, endDate)
         == GetEventsByDateRange(a, startDate, endDate) + GetEventsByDateRange(b, startDate, endDate)
  {
    if |a| > 0 {
      assert (a + b)[1..] == a[1..] + b;
      GetEventsByDateRangeAppend(a[1..], b, startDate, endDate);
    } else {
      assert a + b == b;
    }
  }

  /**
   * With a closed window `[s, t]`, the three-clause test keeps exactly the
   * events whose closed interval meets the window, so events that only touch
   * the window's boundary are counted.
   */
  lemma ClosedWindowIsClosedOverlap(e: CalendarEvent, s: int, t: int)
    requires e.startDate.At? && e.endDate.At? && e.startDate.ms <= e.endDate.ms
    requires s <= t
    ensures InDateRange(e, At(s), Some(At(t))) <==> e.startDate.ms <= t && s <= e.endDate.ms
  {
  }

  /** Without an end date, only the event's end is examined. */
  lemma OpenEndedWindow(e: CalendarEvent, s: int)
    ensures InDateRange(e, At(s), None) <==> e.endDate.At? && e.endDate.ms >= s
  {
  }

  /** An event whose start cannot be read is dropped from any closed window. */
  lemma UnreadableStartDropped(e: CalendarEvent, startDate: Time, endTime: Time)
    requires e.startDate.Invalid?
    ensures !InDateRange(e, startDate, Some(endTime))
  {
  }

  /**
   * `events.filter(test).length == 0` where `test` may throw: `None` when
   * some event's test throws, else whether no event passes the test.
   */
  function NoneMatch(events: seq<CalendarEvent>, test: CalendarEvent -> Option<bool>): (r: Option<bool>)
    ensures r.Some? <==> forall i :: 0 <= i < |events| ==> test(events[i]).Some?
    ensures r == Some(true) <==> forall i :: 0 <= i < |events| ==> test(events[i]) == Some(false)
  {
    if |events| == 0 then Some(true)
    else
      var head := test(events[0]);
      var rest := NoneMatch(events[1..], test);
      if head.None? || rest.None? then None
      else Some(!head.value && rest.value)
  }

  /**
   * The conflict test of `checkAvailability`, as written: the event starts
   * strictly inside the request, ends strictly inside it, or strictly spans
   * it.
   */
  function StrictConflictTest(e: CalendarEvent, startTime: Time, endTime: Time): (conflict: Option<bool>)
    ensures e.startDate.Invalid? || startTime.Invalid? ==> conflict.None?
    ensures e.startDate.At? && e.endDate.At? && startTime.At? && endTime.At? ==>
              var s, t, es, ee := startTime.ms, endTime.ms, e.startDate.ms, e.endDate.ms;
              conflict == Some((s < es < t) || (s < ee < t) || (es < s && ee > t))
  {
    Or(Or(And(AboveZero(Compare(e.startDate, startTime)), BelowZero(Compare(e.startDate, endTime))),
          And(AboveZero(Compare(e.endDate, startTime)), BelowZero(Compare(e.endDate, endTime)))),
       And(BelowZero(Compare(e.startDate, startTime)), AboveZero(Compare(e.endDate, endTime))))
  }

  /**
   * `checkAvailability` as written: `Some(true)` when no event passes the
   * strict test, `None` when a comparison throws (nothing catches it).
   */
  function CheckAvailability(events: seq<CalendarEvent>, startTime: Time, endTime: Time): (r: Option<bool>)
    ensures r == Some(true) <==>
              forall i :: 0 <= i < |events| ==> StrictConflictTest(events[i], startTime, endTime) == Some(false)
    ensures r.None? <==>
              exists i :: 0 <= i < |events| && StrictConflictTest(events[i], startTime, endTime).None?
  {
    NoneMatch(events, e => StrictConflictTest(e, startTime, endTime))
  }

  /**
   * For a non-empty event and request, the strict test finds every
   * half-open overlap except those where the event shares the request's
   * start or end.
   */
  lemma StrictTestMissesSharedEndpoints(e: CalendarEvent, s: int, t: int)
    requires WellFormedEvent(e) && s < t
    ensures HalfOpenOverlap(e.startDate.ms, e.endDate.ms, s, t) <==>
              StrictConflictTest(e, At(s), At(t)) == Some(true) || e.startDate.ms == s || e.endDate.ms == t
  {
  }

  /** An event occupying exactly the requested window is not reported as a conflict. */
  lemma IdenticalWindowNotAConflict(s: int, t: int)
    requires s < t
    ensures CheckAvailability([CalendarEvent(At(s), At(t))], At(s), At(t)) == Some(true)
  {
    var e := CalendarEvent(At(s), At(t));
    assert StrictConflictTest(e, At(s), At(t)) == Some(false);
  }

  /** The canonical conflict test: the event and the request overlap half-open. */
  function OverlapTest(e: CalendarEvent, startTime: Time, endTime: Time): Option<bool> {
    And(BelowZero(Compare(e.startDate, endTime)), AboveZero(Compare(e.endDate, startTime)))
  }

  /**
   * `checkAvailability` with the canonical half-open test: on readable dates,
   * `Some(true)` exactly when no event overlaps the request.
   */
  function CheckAvailabilityHalfOpen(events: seq<CalendarEvent>, startTime: Time, endTime: Time)
    : (r: Option<bool>)
    ensures r == Some(true) <==>
              forall i :: 0 <= i < |events| ==> OverlapTest(events[i], startTime, endTime) == Some(false)
  {
    NoneMatch(events, e => OverlapTest(e, startTime, endTime))
  }

  /** On well-formed events the corrected check is the half-open overlap test. */
  lemma {:induction false} HalfOpenCheckIsOverlap(events: seq<CalendarEvent>, s: int, t: int)
    requires forall i :: 0 <= i < |events| ==> WellFormedEvent(events[i])
    ensures CheckAvailabilityHalfOpen(events, At(s), At(t)).Some?
    ensures CheckAvailabilityHalfOpen(events, At(s), At(t)) == Some(true) <==>
              forall i :: 0 <= i < |events| ==>
                !EventOverlaps(events[i], s, t)
  {
    var test := e => OverlapTest(e, At(s), At(t));
    assert forall i :: 0 <= i < |events| ==> test(events[i]).Some?;
  }

  /** The corrected check rejects a request that exactly matches an event. */
  lemma IdenticalWindowIsAConflict(s: int, t: int)
    requires s < t
    ensures CheckAvailabilityHalfOpen([CalendarEvent(At(s), At(t))], At(s), At(t)) == Some(false)
  {
    HalfOpenCheckIsOverlap([CalendarEvent(At(s), At(t))], s, t);
  }

  /** On well-formed events, whatever the corrected check admits the original admits too. */
  lemma {:induction false} HalfOpenCheckIsStricter(events: seq<CalendarEvent>, s: int, t: int)
    requires forall i :: 0 <= i < |events| ==> WellFormedEvent(events[i])
    requires s < t
    requires CheckAvailabilityHalfOpen(events, At(s), At(t)) == Some(true)
    ensures CheckAvailability(events, At(s), At(t)) == Some(true)
  {
    HalfOpenCheckIsOverlap(events, s, t);
    forall i | 0 <= i < |events|
      ensures StrictConflictTest(events[i], At(s), At(t)) == Some(false)
    {
      StrictTestMissesSharedEndpoints(events[i], s, t);
    }
  }
}
