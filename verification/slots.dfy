/**
 * Slot tiling (`findAvailableSlots` and `isOverlapping`): each clipped range
 * is cut into back-to-back slots of the requested duration, and a slot is
 * offered unless it clashes with a busy slot taken from the calendar.
 */
module Slots {
  import opened Models
  import opened DateUtil
  import opened CalendarService
  import opened TimeRanges
  import opened WorkSchedule

  /**
   * The test `isOverlapping` applies to one busy slot and the candidate
   * `[cs, ce]`: the candidate starts inside the busy slot, ends inside it,
   * or covers it.
   */
  function BusyClash(busy: TimeSlot, cs: int, ce: int): (clash: bool)
    ensures busy.startTime.Invalid? || busy.endTime.Invalid? ==> !clash
    ensures clash && cs <= ce && busy.startTime.At? && busy.endTime.At? && busy.startTime.ms <= busy.endTime.ms ==>
              busy.startTime.ms <= ce && cs <= busy.endTime.ms
  {
    || (Le(busy.startTime, At(cs)) && Lt(At(cs), busy.endTime))
    || (Lt(busy.startTime, At(ce)) && Le(At(ce), busy.endTime))
    || (Le(At(cs), busy.startTime) && Le(busy.endTime, At(ce)))
  }

  /** `isOverlapping`: `busySlots.some(...)`, scanning the busy slots in order. */
  function IsOverlapping(busySlots: seq<TimeSlot>, cs: int, ce: int): (overlapping: bool)
    ensures overlapping <==> exists i :: 0 <= i < |busySlots| && BusyClash(busySlots[i], cs, ce)
  {
    if |busySlots| == 0 then false
    else if BusyClash(busySlots[0], cs, ce) then true
    else
      var rest := IsOverlapping(busySlots[1..], cs, ce);
      assert forall i :: 0 < i < |busySlots| ==> busySlots[1..][i - 1] == busySlots[i];
      rest
  }

  /**
   * For a non-empty candidate and a non-empty busy slot, the three clauses
   * amount to half-open overlap: a candidate that only touches the busy slot
   * does not clash.
   */
  lemma ThreeClauseIsHalfOpen(busy: TimeSlot, cs: int, ce: int)
    requires cs < ce
    requires busy.startTime.At? && busy.endTime.At? && busy.startTime.ms < busy.endTime.ms
    ensures BusyClash(busy, cs, ce) <==> HalfOpenOverlap(cs, ce, busy.startTime.ms, busy.endTime.ms)
  {
  }

  /** A zero-length busy slot clashes with every candidate that holds its instant, ends included. */
  lemma PointBusySlot(p: int, cs: int, ce: int)
    requires cs < ce
    ensures BusyClash(TimeSlot(At(p), At(p)), cs, ce) <==> cs <= p <= ce
  {
  }

  /** The busy slots of a list of events, one per event. */
  function BusySlots(events: seq<CalendarEvent>): seq<TimeSlot> {
    seq(|events|, i requires 0 <= i < |events| => TimeSlot(events[i].startDate, events[i].endDate))
  }

  lemma {:induction false} MulAtLeast(a: int, m: int)
    requires a >= 1 && m > 0
    ensures a * m >= m
  {
    if a > 1 {
      MulAtLeast(a - 1, m);
      assert a * m == (a - 1) * m + m;
    }
  }

  /** Euclidean remainders are unique. */
  lemma ModUnique(x: int, m: int, q: int, r: int)
    requires m > 0 && 0 <= r < m && x == q * m + r
    ensures x % m == r
  {
    var q', r' := x / m, x % m;
    assert x == q' * m + r';
    assert (q' - q) * m == r - r' by {
      assert q' * m - q * m == (q' - q) * m;
    }
    if q' > q {
      MulAtLeast(q' - q, m);
    } else if q' < q {
      MulAtLeast(q - q', m);
    }
  }

  lemma ModStep(a: int, step: int)
    requires step > 0
    ensures (a + step) % step == a % step
  {
    var q, r := a / step, a % step;
    assert a == q * step + r;
    assert a + step == (q + 1) * step + r;
    ModUnique(a + step, step, q + 1, r);
  }

  /**
   * The slot loop of `findAvailableSlots` from cursor `current` over a range
   * ending at `end`: a candidate `[current, current + step]` is proposed
   * while it fits, kept when it does not clash, and the cursor always
   * advances by `step`.
   */
  function SlotsFrom(current: int, end: int, step: int, busySlots: seq<TimeSlot>): (slots: seq<TimeRange>)
    requires step > 0
    decreases end - current
    ensures forall i :: 0 <= i < |slots| ==> slots[i].end - slots[i].start == step
    ensures forall i :: 0 <= i < |slots| ==> current <= slots[i].start && slots[i].end <= end
  {
    if current >= end then []
    else
      var currentEnd := current + step;
      if currentEnd > end then []
      else
        var here := if IsOverlapping(busySlots, current, currentEnd) then [] else [TimeRange(current, currentEnd)];
        here + SlotsFrom(currentEnd, end, step, busySlots)
  }

  /** What the slot loop offers: clash-free candidates of the grid `current + k * step`. */
  predicate GridSlot(s: TimeRange, current: int, end: int, step: int, busySlots: seq<TimeSlot>)
    requires step > 0
  {
    && s.end - s.start == step
    && current <= s.start && s.end <= end
    && (s.start - current) % step == 0
    && !IsOverlapping(busySlots, s.start, s.end)
  }

  /**
   * Every offered slot is exactly `step` long, lies on the grid inside
   * `[current, end]`, and clashes with no busy slot; the slots come in
   * increasing order without overlapping one another.
   */
  lemma {:induction false} SlotsFromSound(current: int, end: int, step: int, busySlots: seq<TimeSlot>)
    requires step > 0
    decreases end - current
    ensures forall s :: s in SlotsFrom(current, end, step, busySlots) ==> GridSlot(s, current, end, step, busySlots)
    ensures Ordered(SlotsFrom(current, end, step, busySlots))
  {
    var currentEnd := current + step;
    if current < end && currentEnd <= end {
      SlotsFromSound(currentEnd, end, step, busySlots);
      var rest := SlotsFrom(currentEnd, end, step, busySlots);
      forall s | s in rest
        ensures GridSlot(s, current, end, step, busySlots)
      {
        assert GridSlot(s, currentEnd, end, step, busySlots);
        ModStep(s.start - currentEnd, step);
      }
      assert (current - current) % step == 0;
      var here := if IsOverlapping(busySlots, current, currentEnd) then [] else [TimeRange(current, currentEnd)];
      assert SlotsFrom(current, end, step, busySlots) == here + rest;
      forall i, j | 0 <= i < j < |here + rest|
        ensures (here + rest)[i].end <= (here + rest)[j].start
      {
        if i < |here| {
          assert (here + rest)[j] in rest;
        }
      }
    }
  }

  /** The slots come in increasing order without overlapping one another. */
  predicate Ordered(slots: seq<TimeRange>) {
    forall i, j :: 0 <= i < j < |slots| ==> slots[i].end <= slots[j].start
  }

  /**
   * Every candidate on the grid `current + k * step` that fits in the range
   * and clashes with no busy slot is offered.
   */
  lemma {:induction false} SlotsFromComplete(current: int, end: int, step: int, busySlots: seq<TimeSlot>, x: int)
    requires step > 0
    requires current <= x && x + step <= end && (x - current) % step == 0
    requires !IsOverlapping(busySlots, x, x + step)
    ensures TimeRange(x, x + step) in SlotsFrom(current, end, step, busySlots)
    decreases end - current
  {
    var rest := SlotsFrom(current + step, end, step, busySlots);
    if x > current {
      if x - current < step {
        ModUnique(x - current, step, 0, x - current);
      }
      ModStep(x - current - step, step);
      SlotsFromComplete(current + step, end, step, busySlots, x);
      var here := if IsOverlapping(busySlots, current, current + step) then [] else [TimeRange(current, current + step)];
      assert SlotsFrom(current, end, step, busySlots) == here + rest;
    } else {
      assert SlotsFrom(current, end, step, busySlots) == [TimeRange(x, x + step)] + rest;
    }
  }

  /**
   * The busy slots of one clipped range: the events of the closed window
   * `[range.start, range.end]`.
   */
  function BusySlotsOf(range: TimeRange, calendar: seq<CalendarEvent>): seq<TimeSlot> {
    BusySlots(GetEventsByDateRange(calendar, At(range.start), Some(At(range.end))))
  }

  /** The slots of one clipped range. */
  function TileOne(range: TimeRange, calendar: seq<CalendarEvent>, step: int): seq<TimeRange>
    requires step > 0
  {
    SlotsFrom(range.start, range.end, step, BusySlotsOf(range, calendar))
  }

  /** The slots of every clipped range, concatenated in range order. */
  function SlotsForRanges(adjusted: seq<TimeRange>, calendar: seq<CalendarEvent>, step: int): (slots: seq<TimeRange>)
    requires step > 0
  {
    if |adjusted| == 0 then []
    else
      TileOne(adjusted[0], calendar, step) + SlotsForRanges(adjusted[1..], calendar, step)
  }

  /**
   * The availability query: parse the list, clip it to the schedule, and
   * tile every clipped range into slots of `duration` minutes.
   */
  function AvailableSlots(timeRangeList: string, parse: string -> Time, schedule: Schedule,
                          calendar: seq<CalendarEvent>, duration: int): (r: Result<seq<TimeRange>>)
    requires duration > 0
    ensures r.Err? <==> BuildTimeRanges(timeRangeList, parse).Err?
    ensures r.Err? ==> r.error == BuildTimeRanges(timeRangeList, parse).error
  {
    match BuildTimeRanges(timeRangeList, parse)
    case Err(e) => Err(e)
    case Ok(ranges) =>
      Ok(SlotsForRanges(GetAdjustedTimeRanges(ranges, schedule), calendar, duration * MS_PER_MINUTE))
  }

  /**
   * A slot inside a clipped range never overlaps a well-formed calendar
   * event: the event would fall in the range's closed window, become one of
   * the range's busy slots, and make the slot clash.
   */
  lemma SlotAvoidsEvent(range: TimeRange, calendar: seq<CalendarEvent>, step: int, s: TimeRange, e: CalendarEvent)
    requires step > 0
    requires s in SlotsFrom(range.start, range.end, step, BusySlotsOf(range, calendar))
    requires e in calendar && WellFormedEvent(e)
    ensures !EventOverlaps(e, s.start, s.end)
  {
    var kept := GetEventsByDateRange(calendar, At(range.start), Some(At(range.end)));
    var busy := BusySlotsOf(range, calendar);
    SlotsFromSound(range.start, range.end, step, busy);
    assert range.start <= s.start && s.end <= range.end && s.start < s.end;
    ClosedWindowIsClosedOverlap(e, range.start, range.end);
    assert EventOverlaps(e, s.start, s.end) ==> e in kept;
    if e in kept {
      var j :| 0 <= j < |kept| && kept[j] == e;
      assert busy[j] == TimeSlot(e.startDate, e.endDate);
      ThreeClauseIsHalfOpen(busy[j], s.start, s.end);
      assert EventOverlaps(e, s.start, s.end) ==> IsOverlapping(busy, s.start, s.end);
    }
  }

  /** `s` overlaps no well-formed event of the calendar. */
  ghost predicate AvoidsCalendar(s: TimeRange, calendar: seq<CalendarEvent>) {
    forall e :: e in calendar && WellFormedEvent(e) ==> !EventOverlaps(e, s.start, s.end)
  }

  /** `s` is one of the slots tiled from one of the clipped ranges. */
  ghost predicate TiledFrom(s: TimeRange, adjusted: seq<TimeRange>, calendar: seq<CalendarEvent>, step: int)
    requires step > 0
  {
    exists k :: 0 <= k < |adjusted|
      && s in SlotsFrom(adjusted[k].start, adjusted[k].end, step, BusySlotsOf(adjusted[k], calendar))
  }

  /** Every slot of the concatenation comes from one of the clipped ranges. */
  lemma {:induction false} SlotsForRangesOrigin(adjusted: seq<TimeRange>, calendar: seq<CalendarEvent>, step: int)
    requires step > 0
    ensures forall s :: s in SlotsForRanges(adjusted, calendar, step) ==> TiledFrom(s, adjusted, calendar, step)
  {
    if |adjusted| > 0 {
      var range := adjusted[0];
      var here := SlotsFrom(range.start, range.end, step, BusySlotsOf(range, calendar));
      SlotsForRangesOrigin(adjusted[1..], calendar, step);
      forall s | s in SlotsForRanges(adjusted, calendar, step)
        ensures TiledFrom(s, adjusted, calendar, step)
      {
        if s in here {
          assert adjusted[0] == range;
        } else {
          assert TiledFrom(s, adjusted[1..], calendar, step);
          var k :| 0 <= k < |adjusted[1..]|
            && s in SlotsFrom(adjusted[1..][k].start, adjusted[1..][k].end, step, BusySlotsOf(adjusted[1..][k], calendar));
          assert adjusted[1..][k] == adjusted[k + 1];
        }
      }
    }
  }

  /**
   * A slot tiled from a clipped range has the requested length, lies inside
   * the range and in the range's work window, and overlaps no well-formed
   * calendar event.
   */
  lemma SlotOfRangeSound(range: TimeRange, schedule: Schedule, calendar: seq<CalendarEvent>, step: int, s: TimeRange)
    requires step > 0
    requires InWorkHours(range, schedule)
    requires s in SlotsFrom(range.start, range.end, step, BusySlotsOf(range, calendar))
    ensures s.end - s.start == step
    ensures PieceOf(s, range)
    ensures InWorkHours(s, schedule)
    ensures AvoidsCalendar(s, calendar)
  {
    SlotsFromSound(range.start, range.end, step, BusySlotsOf(range, calendar));
    var d :| InWorkHoursOn(range, d, schedule);
    assert InWorkHoursOn(s, d, schedule);
    forall e | e in calendar && WellFormedEvent(e)
      ensures !EventOverlaps(e, s.start, s.end)
    {
      SlotAvoidsEvent(range, calendar, step, s, e);
    }
  }

  /**
   * A slot tiled from one of the clipped ranges has the requested length,
   * lies inside one of the requested ranges and in a scheduled day's work
   * window, and overlaps no well-formed calendar event.
   */
  lemma TiledSlotSound(ranges: seq<TimeRange>, schedule: Schedule, calendar: seq<CalendarEvent>, step: int, s: TimeRange)
    requires step > 0
    requires TiledFrom(s, GetAdjustedTimeRanges(ranges, schedule), calendar, step)
    ensures s.end - s.start == step
    ensures InSomeRange(s, ranges)
    ensures InWorkHours(s, schedule)
    ensures AvoidsCalendar(s, calendar)
  {
    var adjusted := GetAdjustedTimeRanges(ranges, schedule);
    var k :| 0 <= k < |adjusted|
      && s in SlotsFrom(adjusted[k].start, adjusted[k].end, step, BusySlotsOf(adjusted[k], calendar));
    SlotOfRangeSound(adjusted[k], schedule, calendar, step, s);
    AdjustedPiecesOrigin(ranges, schedule);
    assert InSomeRange(adjusted[k], ranges);
    var m :| 0 <= m < |ranges| && PieceOf(adjusted[k], ranges[m]);
    assert PieceOf(s, ranges[m]);
  }

  /**
   * End to end: every slot the query returns is exactly `duration` minutes
   * long, lies inside one of the requested ranges and inside a scheduled
   * day's work window, and overlaps no well-formed calendar event.
   */
  lemma AvailableSlotsSound(timeRangeList: string, parse: string -> Time, schedule: Schedule,
                            calendar: seq<CalendarEvent>, duration: int)
    requires duration > 0
    ensures var r := AvailableSlots(timeRangeList, parse, schedule, calendar, duration);
            r.Ok? ==>
              forall s :: s in r.value ==>
                && s.end - s.start == duration * MS_PER_MINUTE
                && InSomeRange(s, BuildTimeRanges(timeRangeList, parse).value)
                && InWorkHours(s, schedule)
                && AvoidsCalendar(s, calendar)
  {
    var r := AvailableSlots(timeRangeList, parse, schedule, calendar, duration);
    if r.Ok? {
      var ranges := BuildTimeRanges(timeRangeList, parse).value;
      var adjusted := GetAdjustedTimeRanges(ranges, schedule);
      var step := duration * MS_PER_MINUTE;
      assert r.value == SlotsForRanges(adjusted, calendar, step);
      SlotsForRangesOrigin(adjusted, calendar, step);
      forall s | s in r.value
        ensures s.end - s.start == step
        ensures InSomeRange(s, ranges)
        ensures InWorkHours(s, schedule)
        ensures AvoidsCalendar(s, calendar)
      {
        TiledSlotSound(ranges, schedule, calendar, step, s);
      }
    }
  }

  /**
   * Under a well-formed schedule every slot the query returns lies between
   * the valid start and end of one scheduled day's work window.
   */
  lemma AvailableSlotsInValidWorkHours(timeRangeList: string, parse: string -> Time, schedule: Schedule,
                                       calendar: seq<CalendarEvent>, duration: int)
    requires duration > 0
    requires WellFormedSchedule(schedule)
    ensures var r := AvailableSlots(timeRangeList, parse, schedule, calendar, duration);
            r.Ok? ==> forall s :: s in r.value ==> InValidWorkHours(s, schedule)
  {
    var r := AvailableSlots(timeRangeList, parse, schedule, calendar, duration);
    if r.Ok? {
      AvailableSlotsSound(timeRangeList, parse, schedule, calendar, duration);
      forall s | s in r.value
        ensures InValidWorkHours(s, schedule)
      {
        WellFormedWorkHours(s, schedule);
      }
    }
  }

  /**
   * On a calendar of well-formed events, a grid candidate of a clipped piece
   * that overlaps no event is one the slot loop keeps: being free of the
   * calendar and passing the program's own clash test agree.
   */
  lemma AvoidsCalendarIsFree(c: TimeRange, calendar: seq<CalendarEvent>, step: int, x: int)
    requires step > 0
    requires forall e :: e in calendar ==> WellFormedEvent(e)
    requires c.start <= x && x + step <= c.end && (x - c.start) % step == 0
    requires AvoidsCalendar(TimeRange(x, x + step), calendar)
    ensures FreeCandidate(c, calendar, step, x)
  {
    var kept := GetEventsByDateRange(calendar, At(c.start), Some(At(c.end)));
    var busy := BusySlotsOf(c, calendar);
    SubsequenceMembers(kept, calendar);
    if IsOverlapping(busy, x, x + step) {
      var j :| 0 <= j < |busy| && BusyClash(busy[j], x, x + step);
      var e := kept[j];
      assert busy[j] == TimeSlot(e.startDate, e.endDate);
      assert e in calendar;
      ThreeClauseIsHalfOpen(busy[j], x, x + step);
      assert false;
    }
  }

  /**
   * End to end in the caller's terms: on a calendar of well-formed events,
   * every grid candidate of a touched day's piece that overlaps no event is
   * offered.
   */
  lemma AvailableSlotsOffersFreeSlots(timeRangeList: string, parse: string -> Time, schedule: Schedule,
                                      calendar: seq<CalendarEvent>, duration: int, step: int, ranges: seq<TimeRange>,
                                      i: int, d: int, c: TimeRange, x: int)
    requires duration > 0 && step == duration * MS_PER_MINUTE
    requires forall e :: e in calendar ==> WellFormedEvent(e)
    requires BuildTimeRanges(timeRangeList, parse) == Ok(ranges)
    requires 0 <= i < |ranges| && StartOfDay(ranges[i].start) <= StartOfDay(d) <= ranges[i].end
    requires c in ClipDay(d, ranges[i], schedule)
    requires c.start <= x && x + step <= c.end && (x - c.start) % step == 0
    requires AvoidsCalendar(TimeRange(x, x + step), calendar)
    ensures AvailableSlots(timeRangeList, parse, schedule, calendar, duration).Ok?
    ensures TimeRange(x, x + step) in AvailableSlots(timeRangeList, parse, schedule, calendar, duration).value
  {
    AvoidsCalendarIsFree(c, calendar, step, x);
    AvailableSlotsComplete(timeRangeList, parse, schedule, calendar, duration, step, ranges, i, d, c, x);
  }

  /** Every slot tiled from one of the clipped ranges is in the concatenation. */
  lemma {:induction false} TileOneInSlotsForRanges(adjusted: seq<TimeRange>, calendar: seq<CalendarEvent>, step: int,
                                                   c: TimeRange, s: TimeRange)
    requires step > 0
    requires c in adjusted && s in TileOne(c, calendar, step)
    ensures s in SlotsForRanges(adjusted, calendar, step)
  {
    var here := TileOne(adjusted[0], calendar, step);
    var rest := SlotsForRanges(adjusted[1..], calendar, step);
    assert SlotsForRanges(adjusted, calendar, step) == here + rest;
    if adjusted[0] != c {
      assert c in adjusted[1..];
      TileOneInSlotsForRanges(adjusted[1..], calendar, step, c, s);
    }
  }

  /**
   * `x` is a candidate the slot loop over piece `c` proposes (on the `step`
   * grid from the piece's start, fitting in the piece) and none of the
   * piece's busy slots clashes with it.
   */
  predicate FreeCandidate(c: TimeRange, calendar: seq<CalendarEvent>, step: int, x: int)
    requires step > 0
  {
    && c.start <= x && x + step <= c.end && (x - c.start) % step == 0
    && !IsOverlapping(BusySlotsOf(c, calendar), x, x + step)
  }

  /** A free candidate of any clipped range is among the tiled slots. */
  lemma SlotsForRangesComplete(adjusted: seq<TimeRange>, calendar: seq<CalendarEvent>, step: int, c: TimeRange, x: int)
    requires step > 0
    requires c in adjusted && FreeCandidate(c, calendar, step, x)
    ensures TimeRange(x, x + step) in SlotsForRanges(adjusted, calendar, step)
  {
    SlotsFromComplete(c.start, c.end, step, BusySlotsOf(c, calendar), x);
    TileOneInSlotsForRanges(adjusted, calendar, step, c, TimeRange(x, x + step));
  }

  /**
   * Nothing free is lost in clipping and tiling: for every range and every
   * UTC day it touches, each free candidate of that day's piece is among
   * the tiled slots.
   */
  lemma TiledSlotComplete(ranges: seq<TimeRange>, schedule: Schedule, calendar: seq<CalendarEvent>, step: int,
                          i: int, d: int, c: TimeRange, x: int)
    requires step > 0
    requires 0 <= i < |ranges| && StartOfDay(ranges[i].start) <= StartOfDay(d) <= ranges[i].end
    requires c in ClipDay(d, ranges[i], schedule)
    requires FreeCandidate(c, calendar, step, x)
    ensures TimeRange(x, x + step) in SlotsForRanges(GetAdjustedTimeRanges(ranges, schedule), calendar, step)
  {
    AdjustedComplete(ranges, schedule, i, d, c);
    SlotsForRangesComplete(GetAdjustedTimeRanges(ranges, schedule), calendar, step, c, x);
  }

  /**
   * End to end, nothing free is lost: for every requested range and every
   * UTC day it touches, each candidate of that day's piece on the grid of
   * `duration` minutes from the piece's start that fits in the piece and
   * clashes with none of the piece's busy slots is offered.
   */
  lemma AvailableSlotsComplete(timeRangeList: string, parse: string -> Time, schedule: Schedule,
                               calendar: seq<CalendarEvent>, duration: int, step: int, ranges: seq<TimeRange>,
                               i: int, d: int, c: TimeRange, x: int)
    requires duration > 0 && step == duration * MS_PER_MINUTE
    requires BuildTimeRanges(timeRangeList, parse) == Ok(ranges)
    requires 0 <= i < |ranges| && StartOfDay(ranges[i].start) <= StartOfDay(d) <= ranges[i].end
    requires c in ClipDay(d, ranges[i], schedule)
    requires FreeCandidate(c, calendar, step, x)
    ensures AvailableSlots(timeRangeList, parse, schedule, calendar, duration).Ok?
    ensures TimeRange(x, x + step) in AvailableSlots(timeRangeList, parse, schedule, calendar, duration).value
  {
    TiledSlotComplete(ranges, schedule, calendar, step, i, d, c, x);
    AvailableSlotsOfRanges(timeRangeList, parse, schedule, calendar, duration, ranges);
  }

  /** A list that parses is answered with the tiling of its clipped ranges. */
  lemma AvailableSlotsOfRanges(timeRangeList: string, parse: string -> Time, schedule: Schedule,
                               calendar: seq<CalendarEvent>, duration: int, ranges: seq<TimeRange>)
    requires duration > 0
    requires BuildTimeRanges(timeRangeList, parse) == Ok(ranges)
    ensures AvailableSlots(timeRangeList, parse, schedule, calendar, duration)
         == Ok(SlotsForRanges(GetAdjustedTimeRanges(ranges, schedule), calendar, duration * MS_PER_MINUTE))
  {
  }

  /**
   * The inner slot loop of `findAvailableSlots` over one clipped range:
   * exactly the slots the recursive definition tiles.
   */
  method SlotLoop(range: TimeRange, step: int, busySlots: seq<TimeSlot>) returns (found: seq<TimeRange>)
    requires step > 0
    ensures found == SlotsFrom(range.start, range.end, step, busySlots)
  {
    var current := range.start;
    found := [];
    while current < range.end
      invariant found + SlotsFrom(current, range.end, step, busySlots)
             == SlotsFrom(range.start, range.end, step, busySlots)
      decreases range.end - current
    {
      var currentEnd := current + step;
      if currentEnd > range.end {
        break;
      }
      ghost var rest := SlotsFrom(currentEnd, range.end, step, busySlots);
      if !IsOverlapping(busySlots, current, currentEnd) {
        assert SlotsFrom(current, range.end, step, busySlots) == [TimeRange(current, currentEnd)] + rest;
        found := found + [TimeRange(current, currentEnd)];
      } else {
        assert SlotsFrom(current, range.end, step, busySlots) == rest;
      }
      current := currentEnd;
    }
  }

  /** Tiling the ranges from `n` on is tiling range `n`, then the rest. */
  lemma SlotsForRangesStep(adjusted: seq<TimeRange>, calendar: seq<CalendarEvent>, step: int, n: int)
    requires step > 0 && 0 <= n < |adjusted|
    ensures SlotsForRanges(adjusted[n..], calendar, step)
         == TileOne(adjusted[n], calendar, step) + SlotsForRanges(adjusted[n + 1..], calendar, step)
  {
    assert adjusted[n..][0] == adjusted[n] && adjusted[n..][1..] == adjusted[n + 1..];
  }

  lemma NonEmptyStep(adjusted: seq<TimeRange>, n: int)
    requires 0 <= n < |adjusted|
    requires AllNonEmpty(adjusted[..n]) && adjusted[n].start < adjusted[n].end
    ensures AllNonEmpty(adjusted[..n + 1])
  {
    assert adjusted[..n + 1] == adjusted[..n] + [adjusted[n]];
  }

  /** Every range is non-empty. */
  predicate AllNonEmpty(ranges: seq<TimeRange>) {
    forall i :: 0 <= i < |ranges| ==> ranges[i].start < ranges[i].end
  }

  /**
   * The outer loop of `findAvailableSlots`: each range is validated (a failure
   * throws out of the whole query) and then tiled by the slot loop.
   */
  method TileRanges(adjusted: seq<TimeRange>, calendar: seq<CalendarEvent>, step: int)
    returns (r: Result<seq<TimeRange>>)
    requires step > 0
    ensures r.Ok? <==> AllNonEmpty(adjusted)
    ensures r.Ok? ==> r.value == SlotsForRanges(adjusted, calendar, step)
    ensures r.Err? ==> r.error == StartNotBeforeEnd
  {
    var availableSlots: seq<TimeRange> := [];
    var n := 0;
    while n < |adjusted|
      invariant 0 <= n <= |adjusted|
      invariant AllNonEmpty(adjusted[..n])
      invariant availableSlots + SlotsForRanges(adjusted[n..], calendar, step)
             == SlotsForRanges(adjusted, calendar, step)
    {
      var range := adjusted[n];
      var check := ValidateTimeRange(At(range.start), At(range.end));
      if check.Fail? {
        assert !AllNonEmpty(adjusted) by {
          assert !(adjusted[n].start < adjusted[n].end);
        }
        return Err(check.error);
      }
      NonEmptyStep(adjusted, n);
      var found := SlotLoop(range, step, BusySlotsOf(range, calendar));
      SlotsForRangesStep(adjusted, calendar, step, n);
      availableSlots := availableSlots + found;
      n := n + 1;
    }
    assert adjusted[n..] == [];
    assert adjusted[..n] == adjusted;
    r := Ok(availableSlots);
  }

  /**
   * `findAvailableSlots` as written; the calendar and the schedule are passed
   * in. The clipped ranges are never empty, so the validation inside the
   * loop never throws and the method computes the availability query.
   */
  method FindAvailableSlots(timeRangeList: string, parse: string -> Time, schedule: Schedule,
                            calendar: seq<CalendarEvent>, duration: int) returns (r: Result<seq<TimeRange>>)
    requires duration > 0
    ensures r == AvailableSlots(timeRangeList, parse, schedule, calendar, duration)
  {
    var timeRanges := BuildTimeRanges(timeRangeList, parse);
    if timeRanges.Err? {
      return Err(timeRanges.error);
    }
    var adjusted := GetAdjustedTimeRanges(timeRanges.value, schedule);
    assert AllNonEmpty(adjusted);
    r := TileRanges(adjusted, calendar, duration * MS_PER_MINUTE);
  }
}
