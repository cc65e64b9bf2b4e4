/**
 * An agent's weekly work hours and the clipping of request ranges to them
 * (`getWorkdayTimeRange` and `getAdjustedTimeRanges`). Days are UTC days.
 */
module WorkSchedule {
  import opened Models
  import opened Strings
  import opened DateUtil

  /** One weekday's `{ startTime, endTime }`, each an `"HH:MM"` string. */
  datatype WorkHours = WorkHours(startTime: string, endTime: string)

  /** The agent's schedule: weekdays without an entry are days off. */
  type Schedule = map<Weekday, WorkHours>

  /**
   * `s.split(':').map(Number)` read as `[hour, minute]`: `None` when either
   * number is NaN, including a missing minute field.
   */
  function ParseClock(s: string): (clock: Option<(nat, nat)>)
    ensures ':' !in s ==> clock.None?
  {
    var fields := Split(s, ':');
    CountZero(s, ':');
    var hour := NumberOf(fields[0]);
    var minute := if |fields| >= 2 then NumberOf(fields[1]) else None;
    if |fields| < 2 then None
    else if hour.None? || minute.None? then None
    else Some((hour.value, minute.value))
  }

  /**
   * `date.setUTCHours(hour, minute, 0, 0)`: the time `hour:minute` counted
   * from the UTC midnight of `date`'s day (an hour past 23 runs into the next
   * day); NaN arguments give the invalid date.
   */
  function SetUTCHours(date: int, clock: Option<(nat, nat)>): (t: Time)
    ensures clock.Some? ==> t.At? && t.ms - StartOfDay(date) == clock.value.0 * MS_PER_HOUR + clock.value.1 * MS_PER_MINUTE
    ensures clock.None? ==> t.Invalid?
  {
    match clock
    case None => Invalid
    case Some((hour, minute)) => At(StartOfDay(date) + hour * MS_PER_HOUR + minute * MS_PER_MINUTE)
  }

  /** The work window of one day, `{ workStartTime, workEndTime }`. */
  datatype WorkdayWindow = WorkdayWindow(workStartTime: Time, workEndTime: Time)

  /** `getWorkdayTimeRange`: `date`'s day at the schedule's start and end times. */
  function GetWorkdayTimeRange(date: int, hours: WorkHours): (w: WorkdayWindow)
    ensures w.workStartTime.At? <==> ParseClock(hours.startTime).Some?
    ensures w.workEndTime.At? <==> ParseClock(hours.endTime).Some?
    ensures w.workStartTime.At? ==> StartOfDay(date) <= w.workStartTime.ms
    ensures w.workEndTime.At? ==> StartOfDay(date) <= w.workEndTime.ms
    ensures ClockWithinDay(hours.startTime) ==> w.workStartTime.At? && w.workStartTime.ms <= NextDay(date)
    ensures ClockWithinDay(hours.endTime) ==> w.workEndTime.At? && w.workEndTime.ms <= NextDay(date)
  {
    WorkdayWindow(SetUTCHours(date, ParseClock(hours.startTime)), SetUTCHours(date, ParseClock(hours.endTime)))
  }

  /** A two-digit rendering, `"09"` for 9. */
  function Pad2(n: nat): (s: string)
    requires n < 100
    ensures forall i :: 0 <= i < |s| ==> IsDigit(s[i])
  {
    if n < 10 then "0" + ShowNat(n) else ShowNat(n)
  }

  /** The `"HH:MM"` rendering of a time of day. */
  function FormatClock(hour: nat, minute: nat): string
    requires hour < 24 && minute < 60
  {
    Pad2(hour) + ":" + Pad2(minute)
  }

  lemma {:induction false} ParseFormatClock(hour: nat, minute: nat)
    requires hour < 24 && minute < 60
    ensures ParseClock(FormatClock(hour, minute)) == Some((hour, minute))
  {
    var h, m := Pad2(hour), Pad2(minute);
    NumberOfPad2(hour);
    NumberOfPad2(minute);
    SplitJoin([h, m], ':');
    assert Join([h, m], ':') == FormatClock(hour, minute);
  }

  lemma NumberOfPad2(n: nat)
    requires n < 100
    ensures NumberOf(Pad2(n)) == Some(n)
    ensures ':' !in Pad2(n)
  {
    NumberOfShowNat(n);
    if n < 10 {
      LeadingZero(ShowNat(n));
    }
    assert forall i :: 0 <= i < |Pad2(n)| ==> IsDigit(Pad2(n)[i]);
  }

  /**
   * For a schedule entry written `"HH:MM"`, the window is that day at
   * `HH:MM:00.000` UTC, for the start and for the end, and both fall inside
   * `date`'s day.
   */
  lemma WorkdayTimeRangeOfClock(date: int, sh: nat, sm: nat, eh: nat, em: nat)
    requires sh < 24 && sm < 60 && eh < 24 && em < 60
    ensures var w := GetWorkdayTimeRange(date, WorkHours(FormatClock(sh, sm), FormatClock(eh, em)));
            && w.workStartTime == At(StartOfDay(date) + sh * MS_PER_HOUR + sm * MS_PER_MINUTE)
            && w.workEndTime == At(StartOfDay(date) + eh * MS_PER_HOUR + em * MS_PER_MINUTE)
            && StartOfDay(w.workStartTime.ms) == StartOfDay(date)
            && StartOfDay(w.workEndTime.ms) == StartOfDay(date)
  {
    ClockOnDay(date, sh, sm);
    ClockOnDay(date, eh, em);
  }

  /** A clock written `"HH:MM"` sets that time on `date`'s own day. */
  lemma ClockOnDay(date: int, hour: nat, minute: nat)
    requires hour < 24 && minute < 60
    ensures SetUTCHours(date, ParseClock(FormatClock(hour, minute)))
         == At(StartOfDay(date) + hour * MS_PER_HOUR + minute * MS_PER_MINUTE)
    ensures StartOfDay(StartOfDay(date) + hour * MS_PER_HOUR + minute * MS_PER_MINUTE) == StartOfDay(date)
  {
    ParseFormatClock(hour, minute);
    SameDay(date, StartOfDay(date) + hour * MS_PER_HOUR + minute * MS_PER_MINUTE);
  }

  /** `t` lies in the closed range `[r.start, r.end]`. */
  predicate Contains(r: TimeRange, t: int) {
    r.start <= t <= r.end
  }

  /** `t` respects each bound of the window that is a valid date. */
  predicate InWindow(w: WorkdayWindow, t: int) {
    && (w.workStartTime.At? ==> w.workStartTime.ms <= t)
    && (w.workEndTime.At? ==> t <= w.workEndTime.ms)
  }

  /**
   * The adjustment of one range to one day's window: the later of the two
   * starts and the earlier of the two ends. A bound that is an invalid date
   * never wins a comparison, so the range's own bound is kept.
   */
  function ClipToWindow(r: TimeRange, w: WorkdayWindow): (c: TimeRange)
    ensures forall t :: Contains(c, t) <==> Contains(r, t) && InWindow(w, t)
  {
    var adjustedStart := if Lt(At(r.start), w.workStartTime) then w.workStartTime.ms else r.start;
    var adjustedEnd := if Lt(w.workEndTime, At(r.end)) then w.workEndTime.ms else r.end;
    TimeRange(adjustedStart, adjustedEnd)
  }

  /** `c` is non-empty and lies in the work window of `date`'s weekday. */
  predicate InWorkHoursOn(c: TimeRange, date: int, schedule: Schedule) {
    && WeekdayOf(date) in schedule
    && var w := GetWorkdayTimeRange(date, schedule[WeekdayOf(date)]);
       InWindow(w, c.start) && InWindow(w, c.end)
  }

  /** `c` lies in the work window of some day from `lo` to `hi`. */
  ghost predicate InWorkHoursBetween(c: TimeRange, schedule: Schedule, lo: int, hi: int) {
    exists d :: lo <= d <= hi && InWorkHoursOn(c, d, schedule)
  }

  /** `c` lies in the work window of some day. */
  ghost predicate InWorkHours(c: TimeRange, schedule: Schedule) {
    exists d :: InWorkHoursOn(c, d, schedule)
  }

  /** `c` is a non-empty piece of `r`. */
  predicate PieceOf(c: TimeRange, r: TimeRange) {
    r.start <= c.start < c.end <= r.end
  }

  /** One step of the day walk: the day of `date` contributes at most one range. */
  function ClipDay(date: int, r: TimeRange, schedule: Schedule): (out: seq<TimeRange>)
    ensures |out| <= 1
    ensures WeekdayOf(date) !in schedule ==> out == []
    ensures forall i :: 0 <= i < |out| ==> PieceOf(out[i], r) && InWorkHoursOn(out[i], date, schedule)
    ensures WeekdayOf(date) in schedule ==>
              var c := ClipToWindow(r, GetWorkdayTimeRange(date, schedule[WeekdayOf(date)]));
              c.start < c.end ==> out == [c]
  {
    var weekday := WeekdayOf(date);
    if weekday !in schedule then []
    else
      var c := ClipToWindow(r, GetWorkdayTimeRange(date, schedule[weekday]));
      assert Contains(c, c.start) && Contains(c, c.end) ==> Contains(r, c.start) && Contains(r, c.end);
      if c.start < c.end then [c] else []
  }

  /** A clock that parses and is at most `24:00`. */
  predicate ClockWithinDay(s: string) {
    var clock := ParseClock(s);
    clock.Some? && clock.value.0 * 60 + clock.value.1 <= 24 * 60
  }

  /** Every entry's start and end time parse and fall within the day. */
  predicate WellFormedSchedule(schedule: Schedule) {
    forall wd :: wd in schedule ==> ClockWithinDay(schedule[wd].startTime) && ClockWithinDay(schedule[wd].endTime)
  }

  /** Under a well-formed schedule a day's window lies within that day. */
  lemma WindowWithinDay(date: int, schedule: Schedule)
    requires WellFormedSchedule(schedule) && WeekdayOf(date) in schedule
    ensures var w := GetWorkdayTimeRange(date, schedule[WeekdayOf(date)]);
            && w.workStartTime.At? && w.workEndTime.At?
            && StartOfDay(date) <= w.workStartTime.ms <= NextDay(date)
            && StartOfDay(date) <= w.workEndTime.ms <= NextDay(date)
  {
  }

  /**
   * `c` lies between the start and the end of window `w`, both of which are
   * valid dates, and `w` lies within the UTC day of `date`.
   */
  predicate WithinWindowOfDay(c: TimeRange, w: WorkdayWindow, date: int) {
    && w.workStartTime.At? && w.workEndTime.At?
    && StartOfDay(date) <= w.workStartTime.ms <= c.start
    && c.end <= w.workEndTime.ms <= NextDay(date)
  }

  /** `c` lies inside one scheduled day's work window, both of whose bounds are valid. */
  ghost predicate InValidWorkHours(c: TimeRange, schedule: Schedule) {
    exists d :: WeekdayOf(d) in schedule && WithinWindowOfDay(c, GetWorkdayTimeRange(d, schedule[WeekdayOf(d)]), d)
  }

  /**
   * Under a well-formed schedule no bound of a work window is ignored: a
   * range in a day's work hours lies between that day's valid start and end.
   */
  lemma WellFormedWorkHours(c: TimeRange, schedule: Schedule)
    requires WellFormedSchedule(schedule)
    requires InWorkHours(c, schedule)
    ensures InValidWorkHours(c, schedule)
  {
    var d :| InWorkHoursOn(c, d, schedule);
    WindowWithinDay(d, schedule);
    assert WithinWindowOfDay(c, GetWorkdayTimeRange(d, schedule[WeekdayOf(d)]), d);
  }

  /**
   * The inner loop of `getAdjustedTimeRanges`: from `date`, visit one UTC day
   * at a time while the cursor has not passed the range's end, each day
   * after the first starting at midnight.
   */
  function WalkDays(date: int, r: TimeRange, schedule: Schedule): (out: seq<TimeRange>)
    decreases r.end - date
    ensures forall i :: 0 <= i < |out| ==> PieceOf(out[i], r)
    ensures forall i :: 0 <= i < |out| ==> InWorkHoursBetween(out[i], schedule, date, r.end)
  {
    if date > r.end then []
    else
      var here := ClipDay(date, r, schedule);
      var rest := WalkDays(NextDay(date), r, schedule);
      assert forall i :: 0 <= i < |here| ==> InWorkHoursOn(here[i], date, schedule);
      assert forall i :: 0 <= i < |rest| ==> InWorkHoursBetween(rest[i], schedule, date, r.end);
      here + rest
  }

  /** Pieces clipped to days on or after `date`'s day. */
  predicate FromDay(out: seq<TimeRange>, date: int) {
    forall i :: 0 <= i < |out| ==> StartOfDay(date) <= out[i].start
  }

  /** Pieces in increasing order, none overlapping the next. */
  predicate Disjoint(out: seq<TimeRange>) {
    forall i, j :: 0 <= i < j < |out| ==> out[i].end <= out[j].start
  }

  /** Under a well-formed schedule a day's piece lies within that day. */
  lemma ClipDayWithinDay(date: int, r: TimeRange, schedule: Schedule)
    requires WellFormedSchedule(schedule)
    ensures forall i :: 0 <= i < |ClipDay(date, r, schedule)| ==>
              StartOfDay(date) <= ClipDay(date, r, schedule)[i].start
              && ClipDay(date, r, schedule)[i].end <= NextDay(date)
  {
    if WeekdayOf(date) in schedule {
      WindowWithinDay(date, schedule);
    }
  }

  /** Under a well-formed schedule the day walk yields pieces from `date`'s day on. */
  lemma {:induction false} WalkDaysFromDay(date: int, r: TimeRange, schedule: Schedule)
    requires WellFormedSchedule(schedule)
    decreases r.end - date
    ensures FromDay(WalkDays(date, r, schedule), date)
  {
    if date <= r.end {
      var here := ClipDay(date, r, schedule);
      var rest := WalkDays(NextDay(date), r, schedule);
      WalkDaysFromDay(NextDay(date), r, schedule);
      ClipDayWithinDay(date, r, schedule);
      assert StartOfDay(NextDay(date)) == NextDay(date);
      assert WalkDays(date, r, schedule) == here + rest;
    }
  }

  /** A piece ending before every later piece starts keeps the list disjoint. */
  lemma ConsDisjoint(here: seq<TimeRange>, rest: seq<TimeRange>)
    requires |here| <= 1
    requires Disjoint(rest)
    requires forall i, j :: 0 <= i < |here| && 0 <= j < |rest| ==> here[i].end <= rest[j].start
    ensures Disjoint(here + rest)
  {
  }

  /**
   * Under a well-formed schedule the day walk yields pieces in increasing
   * order and pairwise disjoint, since each day's window lies within that day.
   */
  lemma {:induction false} WalkDaysOrdered(date: int, r: TimeRange, schedule: Schedule)
    requires WellFormedSchedule(schedule)
    decreases r.end - date
    ensures Disjoint(WalkDays(date, r, schedule))
  {
    if date <= r.end {
      var here := ClipDay(date, r, schedule);
      var rest := WalkDays(NextDay(date), r, schedule);
      WalkDaysOrdered(NextDay(date), r, schedule);
      WalkDaysFromDay(NextDay(date), r, schedule);
      ClipDayWithinDay(date, r, schedule);
      assert StartOfDay(NextDay(date)) == NextDay(date);
      ConsDisjoint(here, rest);
      assert WalkDays(date, r, schedule) == here + rest;
    }
  }

  /** The step of the day walk depends only on the UTC day it visits. */
  lemma ClipDayOfDay(d: int, e: int, r: TimeRange, schedule: Schedule)
    requires StartOfDay(d) == StartOfDay(e)
    ensures ClipDay(d, r, schedule) == ClipDay(e, r, schedule)
  {
    assert DayNumber(d) == DayNumber(e);
  }

  /**
   * The day walk from `date` visits every UTC day from `date`'s own up to the
   * one holding the range's end, so each such day's piece is in its output.
   */
  lemma {:induction false} WalkDaysComplete(date: int, r: TimeRange, schedule: Schedule, d: int, c: TimeRange)
    requires date <= r.end
    requires StartOfDay(date) <= StartOfDay(d) <= r.end
    requires c in ClipDay(d, r, schedule)
    decreases r.end - date
    ensures c in WalkDays(date, r, schedule)
  {
    var here := ClipDay(date, r, schedule);
    var rest := WalkDays(NextDay(date), r, schedule);
    assert WalkDays(date, r, schedule) == here + rest;
    if StartOfDay(d) == StartOfDay(date) {
      ClipDayOfDay(d, date, r, schedule);
    } else {
      assert DayNumber(date) < DayNumber(d);
      assert StartOfDay(NextDay(date)) == NextDay(date) <= StartOfDay(d);
      WalkDaysComplete(NextDay(date), r, schedule, d, c);
    }
  }

  /** Day-walking one range per input range, concatenated in input order. */
  function GetAdjustedTimeRanges(timeRanges: seq<TimeRange>, schedule: Schedule): (out: seq<TimeRange>)
    ensures forall i :: 0 <= i < |out| ==> out[i].start < out[i].end
    ensures forall i :: 0 <= i < |out| ==> InWorkHours(out[i], schedule)
  {
    if |timeRanges| == 0 then []
    else
      var here := WalkDays(timeRanges[0].start, timeRanges[0], schedule);
      var rest := GetAdjustedTimeRanges(timeRanges[1..], schedule);
      assert forall i :: 0 <= i < |here| ==> InWorkHours(here[i], schedule);
      here + rest
  }

  /** `c` lies inside one of `ranges`. */
  ghost predicate InSomeRange(c: TimeRange, ranges: seq<TimeRange>) {
    exists k :: 0 <= k < |ranges| && PieceOf(c, ranges[k])
  }

  /** Every adjusted range is a piece of one of the input ranges. */
  lemma {:induction false} AdjustedPiecesOrigin(timeRanges: seq<TimeRange>, schedule: Schedule)
    ensures forall i :: 0 <= i < |GetAdjustedTimeRanges(timeRanges, schedule)| ==>
              InSomeRange(GetAdjustedTimeRanges(timeRanges, schedule)[i], timeRanges)
  {
    if |timeRanges| > 0 {
      var here := WalkDays(timeRanges[0].start, timeRanges[0], schedule);
      var rest := GetAdjustedTimeRanges(timeRanges[1..], schedule);
      AdjustedPiecesOrigin(timeRanges[1..], schedule);
      assert GetAdjustedTimeRanges(timeRanges, schedule) == here + rest;
      forall i | 0 <= i < |here| + |rest|
        ensures InSomeRange((here + rest)[i], timeRanges)
      {
        if i < |here| {
          assert PieceOf(here[i], timeRanges[0]);
        } else {
          assert InSomeRange(rest[i - |here|], timeRanges[1..]);
          var k :| 0 <= k < |timeRanges[1..]| && PieceOf(rest[i - |here|], timeRanges[1..][k]);
          assert PieceOf(rest[i - |here|], timeRanges[k + 1]);
        }
      }
    }
  }

  /**
   * Clipping loses no scheduled time: for every input range and every UTC
   * day from the one holding its start to the one holding its end, that
   * day's piece of the range is among the adjusted ranges.
   */
  lemma {:induction false} AdjustedComplete(timeRanges: seq<TimeRange>, schedule: Schedule, i: int, d: int, c: TimeRange)
    requires 0 <= i < |timeRanges|
    requires StartOfDay(timeRanges[i].start) <= StartOfDay(d) <= timeRanges[i].end
    requires c in ClipDay(d, timeRanges[i], schedule)
    ensures c in GetAdjustedTimeRanges(timeRanges, schedule)
  {
    var r := timeRanges[0];
    var here := WalkDays(r.start, r, schedule);
    var rest := GetAdjustedTimeRanges(timeRanges[1..], schedule);
    assert GetAdjustedTimeRanges(timeRanges, schedule) == here + rest;
    if i == 0 {
      if r.start <= r.end {
        WalkDaysComplete(r.start, r, schedule, d, c);
      } else {
        // An empty range has no pieces on any day.
        assert false;
      }
    } else {
      assert timeRanges[1..][i - 1] == timeRanges[i];
      AdjustedComplete(timeRanges[1..], schedule, i - 1, d, c);
    }
  }

  /** The adjusted ranges of a list are those of its parts, in order. */
  lemma {:induction false} GetAdjustedTimeRangesAppend(a: seq<TimeRange>, b: seq<TimeRange>, schedule: Schedule)
    ensures GetAdjustedTimeRanges(a + b, schedule)
         == GetAdjustedTimeRanges(a, schedule) + GetAdjustedTimeRanges(b, schedule)
  {
    if |a| > 0 {
      assert (a + b)[1..] == a[1..] + b;
      GetAdjustedTimeRangesAppend(a[1..], b, schedule);
    } else {
      assert a + b == b;
    }
  }

  /**
   * A range inside one UTC day is clipped to that day's window, or dropped
   * when its weekday has no entry or the clip is empty.
   */
  lemma SingleDayRange(r: TimeRange, schedule: Schedule)
    requires r.start <= r.end < NextDay(r.start)
    ensures GetAdjustedTimeRanges([r], schedule) == ClipDay(r.start, r, schedule)
  {
    assert WalkDays(NextDay(r.start), r, schedule) == [];
  }
}
