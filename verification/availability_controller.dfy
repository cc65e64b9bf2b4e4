/**
 * The two availability endpoints, reduced to what they compute from their
 * query parameters: the slot length chosen by event type, the look-ahead
 * default, and the calls into the availability engine. Parameters that are
 * absent from the query are `None`.
 */
module AvailabilityController {
  import opened Models
  import opened Strings
  import opened DateUtil
  import opened WorkSchedule
  import opened Slots
  import opened OptimalDays

  /** The look-ahead used when the query does not name one. */
  const DEFAULT_LOOK_AHEAD_DAYS: nat := 7

  /**
   * `getDurationForEventType`: a call takes 15 minutes, a showing an hour,
   * and a meeting, any other type or no type at all 30 minutes.
   */
  function DurationForEventType(eventType: Option<string>): (minutes: nat)
    ensures minutes == 15 <==> eventType == Some("call")
    ensures minutes == 60 <==> eventType == Some("showing")
    ensures minutes == 30 <==> eventType != Some("call") && eventType != Some("showing")
  {
    match eventType
    case Some("call") => 15
    case Some("meeting") => 30
    case Some("showing") => 60
    case _ => 30
  }

  /** Every event type is given a slot length the slot loop can tile with. */
  lemma DurationIsPositive(eventType: Option<string>)
    ensures DurationForEventType(eventType) > 0
    ensures DurationForEventType(eventType) * MS_PER_MINUTE >= 15 * MS_PER_MINUTE
  {
  }

  /**
   * `lookAheadDays ? Number(lookAheadDays) : 7`: an absent or empty parameter
   * gives the default, any other is read as a number; `None` is NaN.
   */
  function LookAheadDays(lookAheadDays: Option<string>): (days: Option<nat>)
    ensures lookAheadDays.None? || lookAheadDays == Some("") ==> days == Some(DEFAULT_LOOK_AHEAD_DAYS)
    ensures lookAheadDays.Some? && lookAheadDays.value != "" ==> days == NumberOf(lookAheadDays.value)
  {
    match lookAheadDays
    case None => Some(DEFAULT_LOOK_AHEAD_DAYS)
    case Some(s) => if s == "" then Some(DEFAULT_LOOK_AHEAD_DAYS) else NumberOf(s)
  }

  /** A look-ahead written in decimal is read back as written. */
  lemma LookAheadDaysOfShowNat(n: nat)
    ensures LookAheadDays(Some(ShowNat(n))) == Some(n)
  {
    NumberOfShowNat(n);
  }

  /**
   * `GET /optimal-days`: rank the look-ahead window. A NaN look-ahead makes
   * the loop condition `day < NaN` false at once, so no day is ranked.
   */
  function OptimalDaysRequest(now: int, lookAheadDays: Option<string>, schedule: Schedule,
                              calendar: seq<CalendarEvent>): (days: seq<int>)
    ensures |days| <= MAX_DAYS
    ensures LookAheadDays(lookAheadDays).None? ==> days == []
  {
    match LookAheadDays(lookAheadDays)
    case None => []
    case Some(n) => FindOptimalDays(now, n, schedule, calendar)
  }

  /**
   * Without a look-ahead parameter the ranking covers the seven days from
   * today: every day returned is one of them and has a schedule entry.
   */
  lemma DefaultLooksAheadOneWeek(now: int, schedule: Schedule, calendar: seq<CalendarEvent>)
    ensures var days := OptimalDaysRequest(now, None, schedule, calendar);
            forall i :: 0 <= i < |days| ==>
              0 <= days[i] - DayNumber(now) < DEFAULT_LOOK_AHEAD_DAYS && WeekdayOfDay(days[i]) in schedule
  {
    OptimalDaysInWindow(now, DEFAULT_LOOK_AHEAD_DAYS, schedule, calendar);
  }

  /** `GET /`: the available slots for the event type's duration. */
  function SlotsRequest(timeRanges: string, eventType: Option<string>, parse: string -> Time,
                        schedule: Schedule, calendar: seq<CalendarEvent>): (r: Result<seq<TimeRange>>)
    ensures r.Err? <==> TimeRanges.BuildTimeRanges(timeRanges, parse).Err?
  {
    DurationIsPositive(eventType);
    AvailableSlots(timeRanges, parse, schedule, calendar, DurationForEventType(eventType))
  }

  /**
   * Every slot offered for an event type is exactly as long as that type's
   * appointment, inside one of the requested ranges and a scheduled day's
   * work hours, and clear of every well-formed calendar event.
   */
  lemma SlotsRequestSound(timeRanges: string, eventType: Option<string>, parse: string -> Time,
                          schedule: Schedule, calendar: seq<CalendarEvent>)
    ensures var r := SlotsRequest(timeRanges, eventType, parse, schedule, calendar);
            r.Ok? ==>
              forall s :: s in r.value ==>
                && s.end - s.start == DurationForEventType(eventType) * MS_PER_MINUTE
                && InSomeRange(s, TimeRanges.BuildTimeRanges(timeRanges, parse).value)
                && InWorkHours(s, schedule)
                && AvoidsCalendar(s, calendar)
  {
    DurationIsPositive(eventType);
    AvailableSlotsSound(timeRanges, parse, schedule, calendar, DurationForEventType(eventType));
  }

  /**
   * No free time is hidden from the caller: for every requested range and
   * every UTC day it touches, each candidate of that day's work-hours piece
   * on the event type's grid that clashes with none of the piece's busy
   * slots is offered.
   */
  lemma SlotsRequestComplete(timeRanges: string, eventType: Option<string>, parse: string -> Time,
                             schedule: Schedule, calendar: seq<CalendarEvent>, step: int, ranges: seq<TimeRange>,
                             i: int, d: int, c: TimeRange, x: int)
    requires step == DurationForEventType(eventType) * MS_PER_MINUTE
    requires TimeRanges.BuildTimeRanges(timeRanges, parse) == Ok(ranges)
    requires 0 <= i < |ranges| && StartOfDay(ranges[i].start) <= StartOfDay(d) <= ranges[i].end
    requires c in ClipDay(d, ranges[i], schedule)
    requires FreeCandidate(c, calendar, step, x)
    ensures SlotsRequest(timeRanges, eventType, parse, schedule, calendar).Ok?
    ensures TimeRange(x, x + step) in SlotsRequest(timeRanges, eventType, parse, schedule, calendar).value
  {
    DurationIsPositive(eventType);
    AvailableSlotsComplete(timeRanges, parse, schedule, calendar, DurationForEventType(eventType), step, ranges, i, d, c, x);
  }

  /**
   * With every schedule entry's times readable and within the day, each slot
   * offered lies between the valid start and end of one scheduled day.
   */
  lemma SlotsRequestInValidWorkHours(timeRanges: string, eventType: Option<string>, parse: string -> Time,
                                     schedule: Schedule, calendar: seq<CalendarEvent>)
    requires WellFormedSchedule(schedule)
    ensures var r := SlotsRequest(timeRanges, eventType, parse, schedule, calendar);
            r.Ok? ==> forall s :: s in r.value ==> InValidWorkHours(s, schedule)
  {
    DurationIsPositive(eventType);
    AvailableSlotsInValidWorkHours(timeRanges, parse, schedule, calendar, DurationForEventType(eventType));
  }
}
