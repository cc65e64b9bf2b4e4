/**
 * Ranking the coming days by how busy they are (`findOptimalDays`): for each
 * of the next `lookAheadDays` days that has a schedule entry, count the
 * calendar events in that day's work window, then return the four least busy
 * days, ties going to the earlier day. The current time, the calendar and the
 * schedule are parameters. A day is named by its UTC day number.
 */
module OptimalDays {
  import opened Models
  import opened DateUtil
  import opened CalendarService
  import opened WorkSchedule

  /** How many days the ranking returns at most. */
  const MAX_DAYS: nat := 4

  /** One entry of `dayBusyCounts`: a UTC day and its number of events. */
  datatype DayCount = DayCount(day: int, count: nat)

  /** The weekday of UTC day number `day`. */
  function WeekdayOfDay(day: int): Weekday {
    DayOfWeek((day + 4) % 7)
  }

  /** Moving a time by whole days moves its day number by as many. */
  lemma DayShift(t: int, k: int)
    ensures DayNumber(t + k * MS_PER_DAY) == DayNumber(t) + k
    ensures WeekdayOf(t + k * MS_PER_DAY) == WeekdayOfDay(DayNumber(t) + k)
  {
  }

  /**
   * The number of events of `calendar` in the work window of `date`'s day
   * under `hours`; it is the length of the list `getEventsByDateRange`
   * returns for that window (`BusyCountIsEventsLength`).
   */
  function BusyCount(date: int, hours: WorkHours, calendar: seq<CalendarEvent>): (count: nat)
    ensures count <= |calendar|
    ensures ParseClock(hours.startTime).None? ==> count == 0
  {
    var w := GetWorkdayTimeRange(date, hours);
    CountInDateRange(calendar, w.workStartTime, Some(w.workEndTime))
  }

  /** The events of `events` the window test keeps, counted. */
  function CountInDateRange(events: seq<CalendarEvent>, startDate: Time, endDate: Option<Time>): (n: nat)
    ensures n <= |events|
    ensures startDate.Invalid? ==> n == 0
  {
    if |events| == 0 then 0
    else CountInDateRange(events[1..], startDate, endDate) + if InDateRange(events[0], startDate, endDate) then 1 else 0
  }

  /** Counting the kept events gives the length of the filtered list. */
  lemma {:induction false} CountInDateRangeIsLength(events: seq<CalendarEvent>, startDate: Time, endDate: Option<Time>)
    ensures CountInDateRange(events, startDate, endDate) == |GetEventsByDateRange(events, startDate, endDate)|
  {
    if |events| > 0 {
      CountInDateRangeIsLength(events[1..], startDate, endDate);
    }
  }

  /** `dayEvents.length`, for the window of `date`'s day under `hours`. */
  lemma BusyCountIsEventsLength(date: int, hours: WorkHours, calendar: seq<CalendarEvent>)
    ensures var w := GetWorkdayTimeRange(date, hours);
            BusyCount(date, hours, calendar) == |GetEventsByDateRange(calendar, w.workStartTime, Some(w.workEndTime))|
  {
    var w := GetWorkdayTimeRange(date, hours);
    CountInDateRangeIsLength(calendar, w.workStartTime, Some(w.workEndTime));
  }

  /** The per-day count the loop records: `BusyCount` against `calendar`. */
  function Busy(calendar: seq<CalendarEvent>): (int, WorkHours) -> nat {
    (date, hours) => BusyCount(date, hours, calendar)
  }

  /**
   * What one pass of the loop records for the day `k` days after `now`:
   * nothing when its weekday has no schedule entry, else the day with the
   * count `busy` gives for that date and entry. The weekday is read off the
   * day number, which is the weekday of the shifted date (`DayEntryWeekday`).
   */
  function EntryOf(now: int, k: int, schedule: Schedule, busy: (int, WorkHours) -> nat): (x: Option<DayCount>)
    ensures x.Some? <==> WeekdayOfDay(DayNumber(now) + k) in schedule
    ensures x.Some? ==> x.value.day == DayNumber(now) + k
  {
    var day := DayNumber(now) + k;
    var weekday := WeekdayOfDay(day);
    if weekday !in schedule then None
    else Some(DayCount(day, busy(now + k * MS_PER_DAY, schedule[weekday])))
  }

  /** The entry the loop records against `calendar`. */
  function DayEntry(now: int, k: int, schedule: Schedule, calendar: seq<CalendarEvent>): Option<DayCount> {
    EntryOf(now, k, schedule, Busy(calendar))
  }

  /**
   * The entry is keyed by the weekday and day number of the date `k` days
   * after `now`, as `getDay()` and `toISOString()` read them, and counts the
   * events in that date's work window.
   */
  lemma DayEntryWeekday(now: int, k: int, schedule: Schedule, calendar: seq<CalendarEvent>)
    ensures var date := now + k * MS_PER_DAY;
            var x := DayEntry(now, k, schedule, calendar);
            && (x.Some? <==> WeekdayOf(date) in schedule)
            && (x.Some? ==> x.value.day == DayNumber(date)
                            && x.value.count == BusyCount(date, schedule[WeekdayOf(date)], calendar))
  {
    DayShift(now, k);
  }

  /**
   * The loop of `findOptimalDays` from offset `k` on, one pass per day up to
   * `lookAhead`. The recorded days lie in the window, in day order.
   */
  function CountDaysFrom(now: int, k: int, lookAhead: int, schedule: Schedule, busy: (int, WorkHours) -> nat)
    : (counts: seq<DayCount>)
    decreases lookAhead - k
    ensures forall i :: 0 <= i < |counts| ==> DayNumber(now) + k <= counts[i].day < DayNumber(now) + lookAhead
    ensures AscendingDays(counts)
  {
    if k >= lookAhead then []
    else
      var rest := CountDaysFrom(now, k + 1, lookAhead, schedule, busy);
      match EntryOf(now, k, schedule, busy)
      case None => rest
      case Some(x) => [x] + rest
  }

  /** The recorded days of the whole look-ahead window. */
  function CountDays(now: int, lookAhead: int, schedule: Schedule, calendar: seq<CalendarEvent>): seq<DayCount> {
    CountDaysFrom(now, 0, lookAhead, schedule, Busy(calendar))
  }

  /** Each recorded entry is what the loop records for the day it names. */
  lemma {:induction false} CountDaysFromRecorded(now: int, k: int, lookAhead: int, schedule: Schedule,
                                                 busy: (int, WorkHours) -> nat, x: DayCount)
    requires x in CountDaysFrom(now, k, lookAhead, schedule, busy)
    decreases lookAhead - k
    ensures k <= x.day - DayNumber(now) < lookAhead
    ensures EntryOf(now, x.day - DayNumber(now), schedule, busy) == Some(x)
  {
    var rest := CountDaysFrom(now, k + 1, lookAhead, schedule, busy);
    match EntryOf(now, k, schedule, busy)
    case None =>
      assert CountDaysFrom(now, k, lookAhead, schedule, busy) == rest;
      CountDaysFromRecorded(now, k + 1, lookAhead, schedule, busy, x);
    case Some(y) =>
      assert CountDaysFrom(now, k, lookAhead, schedule, busy) == [y] + rest;
      if x in rest {
        CountDaysFromRecorded(now, k + 1, lookAhead, schedule, busy, x);
      }
  }

  /**
   * Each recorded entry is a scheduled day of the look-ahead window, with
   * what the loop records for it.
   */
  lemma CountDaysRecorded(now: int, lookAhead: int, schedule: Schedule, calendar: seq<CalendarEvent>, x: DayCount)
    requires x in CountDays(now, lookAhead, schedule, calendar)
    ensures 0 <= x.day - DayNumber(now) < lookAhead
    ensures WeekdayOfDay(x.day) in schedule
    ensures DayEntry(now, x.day - DayNumber(now), schedule, calendar) == Some(x)
  {
    CountDaysFromRecorded(now, 0, lookAhead, schedule, Busy(calendar), x);
  }

  /** Every scheduled day in the look-ahead window gets an entry. */
  lemma {:induction false} CountDaysFromComplete(now: int, k: int, lookAhead: int, schedule: Schedule,
                                                 busy: (int, WorkHours) -> nat, j: int)
    requires k <= j < lookAhead
    requires WeekdayOfDay(DayNumber(now) + j) in schedule
    ensures EntryOf(now, j, schedule, busy).value in CountDaysFrom(now, k, lookAhead, schedule, busy)
    decreases lookAhead - k
  {
    var rest := CountDaysFrom(now, k + 1, lookAhead, schedule, busy);
    match EntryOf(now, k, schedule, busy)
    case None =>
      CountDaysFromComplete(now, k + 1, lookAhead, schedule, busy, j);
      assert CountDaysFrom(now, k, lookAhead, schedule, busy) == rest;
    case Some(x) =>
      assert CountDaysFrom(now, k, lookAhead, schedule, busy) == [x] + rest;
      if j == k {
        assert EntryOf(now, j, schedule, busy).value == x == ([x] + rest)[0];
      } else {
        CountDaysFromComplete(now, k + 1, lookAhead, schedule, busy, j);
      }
  }

  /** Every scheduled day of the look-ahead window is recorded. */
  lemma CountDaysComplete(now: int, lookAhead: int, schedule: Schedule, calendar: seq<CalendarEvent>, j: int)
    requires 0 <= j < lookAhead
    requires WeekdayOfDay(DayNumber(now) + j) in schedule
    ensures DayEntry(now, j, schedule, calendar).Some?
    ensures DayEntry(now, j, schedule, calendar).value in CountDays(now, lookAhead, schedule, calendar)
  {
    CountDaysFromComplete(now, 0, lookAhead, schedule, Busy(calendar), j);
  }

  /** Non-decreasing by count. */
  predicate SortedByCount(s: seq<DayCount>) {
    forall i, j :: 0 <= i < j < |s| ==> s[i].count <= s[j].count
  }

  /** Ordered by count, and by day among equal counts. */
  predicate LeastBusyFirst(s: seq<DayCount>) {
    forall i, j :: 0 <= i < j < |s| ==>
      s[i].count < s[j].count || (s[i].count == s[j].count && s[i].day < s[j].day)
  }

  /** Strictly increasing by day. */
  predicate AscendingDays(s: seq<DayCount>) {
    forall i, j :: 0 <= i < j < |s| ==> s[i].day < s[j].day
  }

  /**
   * One step of a stable sort by count: `x` goes before the first entry whose
   * count is not smaller, so it stays ahead of the entries it ties with.
   */
  function Insert(x: DayCount, s: seq<DayCount>): (r: seq<DayCount>)
    ensures multiset(r) == multiset(s) + multiset{x}
  {
    if |s| == 0 then [x]
    else if x.count <= s[0].count then [x] + s
    else
      assert s == [s[0]] + s[1..];
      [s[0]] + Insert(x, s[1..])
  }

  /** An entry of `Insert(x, s)` is `x` or an entry of `s`. */
  lemma InsertFrom(x: DayCount, s: seq<DayCount>, i: int)
    requires 0 <= i < |Insert(x, s)|
    ensures Insert(x, s)[i] == x || Insert(x, s)[i] in s
  {
    assert Insert(x, s)[i] in multiset(Insert(x, s));
  }

  /** Putting an entry no busier than the rest in front keeps the order by count. */
  lemma ConsSorted(h: DayCount, t: seq<DayCount>)
    requires SortedByCount(t)
    requires forall i :: 0 <= i < |t| ==> h.count <= t[i].count
    ensures SortedByCount([h] + t)
  {
  }

  /** Inserting into a list sorted by count keeps it sorted. */
  lemma {:induction false} InsertSorted(x: DayCount, s: seq<DayCount>)
    requires SortedByCount(s)
    ensures SortedByCount(Insert(x, s))
  {
    if |s| > 0 && x.count > s[0].count {
      var rest := Insert(x, s[1..]);
      InsertSorted(x, s[1..]);
      forall i | 0 <= i < |rest|
        ensures s[0].count <= rest[i].count
      {
        InsertFrom(x, s[1..], i);
      }
      ConsSorted(s[0], rest);
    }
  }

  /**
   * `Array.prototype.sort` with the comparator `countA - countB`, which is
   * stable: ascending by count, equal counts kept in their input order.
   */
  function SortByCount(xs: seq<DayCount>): (r: seq<DayCount>)
    ensures multiset(r) == multiset(xs)
    ensures SortedByCount(r)
  {
    if |xs| == 0 then []
    else
      assert xs == [xs[0]] + xs[1..];
      var sorted := SortByCount(xs[1..]);
      InsertSorted(xs[0], sorted);
      Insert(xs[0], sorted)
  }

  /** Putting an entry ahead of the rest by count then day keeps that order. */
  lemma ConsLeastBusy(h: DayCount, t: seq<DayCount>)
    requires LeastBusyFirst(t)
    requires forall i :: 0 <= i < |t| ==> h.count < t[i].count || (h.count == t[i].count && h.day < t[i].day)
    ensures LeastBusyFirst([h] + t)
  {
  }

  /** Inserting an entry dated before every other keeps the order by count then day. */
  lemma {:induction false} InsertEarliest(x: DayCount, s: seq<DayCount>)
    requires LeastBusyFirst(s)
    requires forall i :: 0 <= i < |s| ==> x.day < s[i].day
    ensures LeastBusyFirst(Insert(x, s))
  {
    if |s| == 0 {
    } else if x.count <= s[0].count {
      ConsLeastBusy(x, s);
    } else {
      var rest := Insert(x, s[1..]);
      InsertEarliest(x, s[1..]);
      forall i | 0 <= i < |rest|
        ensures s[0].count < rest[i].count || (s[0].count == rest[i].count && s[0].day < rest[i].day)
      {
        InsertFrom(x, s[1..], i);
      }
      ConsLeastBusy(s[0], rest);
    }
  }

  /**
   * On entries already in day order, the stable sort puts the least busy
   * day first and breaks ties by the earlier day.
   */
  lemma {:induction false} SortByCountOrdersDays(xs: seq<DayCount>)
    requires AscendingDays(xs)
    ensures LeastBusyFirst(SortByCount(xs))
  {
    if |xs| > 0 {
      SortByCountOrdersDays(xs[1..]);
      var sorted := SortByCount(xs[1..]);
      forall i | 0 <= i < |sorted|
        ensures xs[0].day < sorted[i].day
      {
        assert sorted[i] in multiset(xs[1..]);
        var j :| 0 <= j < |xs[1..]| && xs[1..][j] == sorted[i];
        assert xs[j + 1] == sorted[i];
      }
      InsertEarliest(xs[0], sorted);
    }
  }

  /** The first four entries of the stable sort by count, or all when fewer. */
  function TopDays(counts: seq<DayCount>): (top: seq<DayCount>)
    ensures |top| == if |counts| < MAX_DAYS then |counts| else MAX_DAYS
  {
    var sorted := SortByCount(counts);
    assert |sorted| == |multiset(sorted)| == |counts|;
    sorted[..if |sorted| < MAX_DAYS then |sorted| else MAX_DAYS]
  }

  /** Membership in a sequence is membership in its multiset. */
  lemma SameElements(a: seq<DayCount>, b: seq<DayCount>)
    requires multiset(a) == multiset(b)
    ensures forall x :: x in a <==> x in b
  {
    forall x ensures x in a <==> x in b {
      assert x in a <==> x in multiset(a);
      assert x in b <==> x in multiset(b);
    }
  }

  /**
   * On entries in day order, the kept entries are the least busy ones: they
   * come from the input, ordered by count and then by day, and every entry
   * left out is busier than each kept one, or as busy and later.
   */
  lemma {:induction false} TopDaysAreLeastBusy(counts: seq<DayCount>)
    requires AscendingDays(counts)
    ensures LeastBusyFirst(TopDays(counts))
    ensures forall x :: x in TopDays(counts) ==> x in counts
    ensures forall x, y :: x in counts && x !in TopDays(counts) && y in TopDays(counts) ==>
              y.count < x.count || (y.count == x.count && y.day < x.day)
  {
    var sorted := SortByCount(counts);
    var top := TopDays(counts);
    SortByCountOrdersDays(counts);
    SameElements(sorted, counts);
    assert forall i :: 0 <= i < |top| ==> top[i] == sorted[i];
    forall x, y | x in counts && x !in top && y in top
      ensures y.count < x.count || (y.count == x.count && y.day < x.day)
    {
      var j :| 0 <= j < |sorted| && sorted[j] == x;
      assert j >= |top|;
      var i :| 0 <= i < |top| && top[i] == y;
      assert sorted[i] == y;
    }
  }

  /** The entries `findOptimalDays` keeps for the look-ahead window. */
  function RankDays(now: int, lookAhead: int, schedule: Schedule, calendar: seq<CalendarEvent>)
    : (ranked: seq<DayCount>)
    ensures |ranked| <= MAX_DAYS
  {
    TopDays(CountDays(now, lookAhead, schedule, calendar))
  }

  /** The day of every entry, in order. */
  function Days(s: seq<DayCount>): (days: seq<int>)
    ensures |days| == |s|
    ensures forall i :: 0 <= i < |s| ==> days[i] == s[i].day
  {
    seq(|s|, i requires 0 <= i < |s| => s[i].day)
  }

  /** `findOptimalDays`: the days of the ranked entries. */
  function FindOptimalDays(now: int, lookAhead: int, schedule: Schedule, calendar: seq<CalendarEvent>)
    : (days: seq<int>)
    ensures |days| <= MAX_DAYS
    ensures lookAhead <= 0 ==> days == []
  {
    Days(RankDays(now, lookAhead, schedule, calendar))
  }

  /**
   * The ranking of the look-ahead window holds `min(4, n)` of the `n`
   * recorded days, ordered by count and then by day, and every recorded day
   * left out is busier than the kept ones, or as busy and later.
   */
  lemma RankDaysAreLeastBusy(now: int, lookAhead: int, schedule: Schedule, calendar: seq<CalendarEvent>)
    ensures var counts := CountDays(now, lookAhead, schedule, calendar);
            var ranked := RankDays(now, lookAhead, schedule, calendar);
            && |ranked| == (if |counts| < MAX_DAYS then |counts| else MAX_DAYS)
            && LeastBusyFirst(ranked)
            && (forall x :: x in ranked ==> x in counts)
            && (forall x, y :: x in counts && x !in ranked && y in ranked ==>
                  y.count < x.count || (y.count == x.count && y.day < x.day))
  {
    TopDaysAreLeastBusy(CountDays(now, lookAhead, schedule, calendar));
  }

  /**
   * Every day the ranking returns is a scheduled day of the look-ahead
   * window, and every scheduled day of the window is ranked or busier than
   * every ranked day (or as busy and later).
   */
  lemma OptimalDaysInWindow(now: int, lookAhead: int, schedule: Schedule, calendar: seq<CalendarEvent>)
    ensures var days := FindOptimalDays(now, lookAhead, schedule, calendar);
            forall i :: 0 <= i < |days| ==>
              && 0 <= days[i] - DayNumber(now) < lookAhead
              && WeekdayOfDay(days[i]) in schedule
  {
    var counts := CountDays(now, lookAhead, schedule, calendar);
    var ranked := RankDays(now, lookAhead, schedule, calendar);
    RankDaysAreLeastBusy(now, lookAhead, schedule, calendar);
    forall i | 0 <= i < |ranked|
      ensures 0 <= ranked[i].day - DayNumber(now) < lookAhead && WeekdayOfDay(ranked[i].day) in schedule
    {
      assert ranked[i] in counts;
      CountDaysRecorded(now, lookAhead, schedule, calendar, ranked[i]);
    }
  }

  /**
   * A scheduled day of the window that is not returned is at least as busy
   * as every returned day; when it ties, the returned day is the earlier.
   */
  lemma SkippedDayIsBusier(now: int, lookAhead: int, schedule: Schedule, calendar: seq<CalendarEvent>, j: int)
    requires 0 <= j < lookAhead
    requires WeekdayOfDay(DayNumber(now) + j) in schedule
    ensures var x := DayEntry(now, j, schedule, calendar).value;
            x.day !in FindOptimalDays(now, lookAhead, schedule, calendar) ==>
              forall y :: y in RankDays(now, lookAhead, schedule, calendar) ==>
                y.count < x.count || (y.count == x.count && y.day < x.day)
  {
    var counts := CountDays(now, lookAhead, schedule, calendar);
    var ranked := RankDays(now, lookAhead, schedule, calendar);
    var days := FindOptimalDays(now, lookAhead, schedule, calendar);
    var x := DayEntry(now, j, schedule, calendar).value;
    CountDaysComplete(now, lookAhead, schedule, calendar, j);
    RankDaysAreLeastBusy(now, lookAhead, schedule, calendar);
    forall y | y in ranked
      ensures y.day in days
    {
      var m :| 0 <= m < |ranked| && ranked[m] == y;
      assert days[m] == y.day;
    }
  }
}
