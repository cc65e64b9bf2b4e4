/**
 * Value types shared by the availability engine: optional values, JavaScript
 * `Date` values reduced to UTC millisecond timestamps, time ranges, busy
 * slots and calendar events.
 */
module Models {

  /** A value that may be absent (an `undefined` field or query parameter). */
  datatype Option<+T> = None | Some(value: T)

  const MS_PER_MINUTE: int := 60000
  const MS_PER_HOUR: int := 3600000
  const MS_PER_DAY: int := 86400000

  /**
   * A JavaScript `Date`: either a UTC millisecond timestamp or the invalid
   * date, whose time value is NaN.
   */
  datatype Time = At(ms: int) | Invalid

  /** `a < b` on two Dates: false as soon as either time value is NaN. */
  predicate Lt(a: Time, b: Time) {
    a.At? && b.At? && a.ms < b.ms
  }

  /** `a <= b` on two Dates: false as soon as either time value is NaN. */
  predicate Le(a: Time, b: Time) {
    a.At? && b.At? && a.ms <= b.ms
  }

  /** A validated request window or a bookable slot, `{ start, end }`. */
  datatype TimeRange = TimeRange(start: int, end: int)

  /** The busy interval `{ startTime, endTime }` taken from one calendar event. */
  datatype TimeSlot = TimeSlot(startTime: Time, endTime: Time)

  /**
   * A calendar event as the calendar collaborator hands it over. A date that
   * is missing or cannot be read is `Invalid`; comparing it fails.
   */
  datatype CalendarEvent = CalendarEvent(startDate: Time, endDate: Time)

  /** An event whose two dates are readable and which is not empty. */
  predicate WellFormedEvent(e: CalendarEvent) {
    e.startDate.At? && e.endDate.At? && e.startDate.ms < e.endDate.ms
  }

  /** The canonical half-open overlap of `[s1, e1)` and `[s2, e2)`. */
  predicate HalfOpenOverlap(s1: int, e1: int, s2: int, e2: int) {
    s1 < e2 && s2 < e1
  }

  /** Event `e` has readable dates and overlaps `[s, t)` half-open. */
  predicate EventOverlaps(e: CalendarEvent, s: int, t: int) {
    e.startDate.At? && e.endDate.At? && HalfOpenOverlap(e.startDate.ms, e.endDate.ms, s, t)
  }
}
