/**
 * Date helpers: the range validation every request window goes through, and
 * the UTC calendar-day arithmetic (start of day, weekday) the engine uses.
 */
module DateUtil {
  import opened Models

  /** The two errors `validateTimeRange` throws. */
  datatype DateError = InvalidDateFormat | StartNotBeforeEnd

  /** A value, or the date error thrown while computing it. */
  datatype Result<+T> = Ok(value: T) | Err(error: DateError)

  /** Returning normally, or throwing one of the date errors. */
  datatype Outcome = Pass | Fail(error: DateError)

  /**
   * `validateTimeRange`: both dates must be valid, and the start must come
   * strictly before the end. An invalid date is reported before the
   * ordering.
   */
  function ValidateTimeRange(startTime: Time, endTime: Time): (r: Outcome)
    ensures r.Pass? <==> startTime.At? && endTime.At? && startTime.ms < endTime.ms
    ensures r == Fail(InvalidDateFormat) <==> startTime.Invalid? || endTime.Invalid?
    ensures r == Fail(StartNotBeforeEnd) <==>
              startTime.At? && endTime.At? && startTime.ms >= endTime.ms
  {
    if startTime.Invalid? || endTime.Invalid? then Fail(InvalidDateFormat)
    else if startTime.ms >= endTime.ms then Fail(StartNotBeforeEnd)
    else Pass
  }

  /** Days of the week, in the order `Date.prototype.getDay` numbers them. */
  datatype Weekday = Sunday | Monday | Tuesday | Wednesday | Thursday | Friday | Saturday

  /** The number `getDay()` gives a weekday. */
  function WeekdayIndex(wd: Weekday): nat {
    match wd
    case Sunday => 0
    case Monday => 1
    case Tuesday => 2
    case Wednesday => 3
    case Thursday => 4
    case Friday => 5
    case Saturday => 6
  }

  /** `getDayOfWeek`: 0 is Sunday, 6 is Saturday. */
  function DayOfWeek(n: int): (wd: Weekday)
    requires 0 <= n < 7
    ensures WeekdayIndex(wd) == n
  {
    [Sunday, Monday, Tuesday, Wednesday, Thursday, Friday, Saturday][n]
  }

  /** The UTC day number of `t`: whole days since 1970-01-01, rounded down. */
  function DayNumber(t: int): int {
    t / MS_PER_DAY
  }

  /** UTC midnight of the day holding `t` (`setUTCHours(0, 0, 0, 0)`). */
  function StartOfDay(t: int): (d: int)
    ensures d <= t < d + MS_PER_DAY
    ensures d % MS_PER_DAY == 0
  {
    DayNumber(t) * MS_PER_DAY
  }

  /** UTC midnight of the day after the one holding `t`. */
  function NextDay(t: int): (d: int)
    ensures t < d <= t + MS_PER_DAY
    ensures DayNumber(d) == DayNumber(t) + 1
  {
    StartOfDay(t) + MS_PER_DAY
  }

  /** `getDay()` read in UTC: 1970-01-01 was a Thursday. */
  function WeekdayOf(t: int): (wd: Weekday)
    ensures DayNumber(t) % 7 == 0 ==> wd == Thursday
  {
    DayOfWeek((DayNumber(t) + 4) % 7)
  }

  /** Each UTC day's weekday follows the previous day's, Saturday wrapping to Sunday. */
  lemma {:induction false} WeekdayOfNextDay(t: int)
    ensures WeekdayIndex(WeekdayOf(NextDay(t))) == (WeekdayIndex(WeekdayOf(t)) + 1) % 7
  {
    var n := DayNumber(t);
    assert DayNumber(NextDay(t)) == n + 1;
    assert (n + 1 + 4) % 7 == ((n + 4) % 7 + 1) % 7;
  }

  /** Every instant of one UTC day has the same start of day. */
  lemma SameDay(t: int, u: int)
    requires StartOfDay(t) <= u < StartOfDay(t) + MS_PER_DAY
    ensures StartOfDay(u) == StartOfDay(t)
    ensures WeekdayOf(u) == WeekdayOf(t)
  {
    var d := DayNumber(t);
    assert d * MS_PER_DAY <= u < (d + 1) * MS_PER_DAY;
    assert DayNumber(u) == d;
  }
}
