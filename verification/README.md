# hwScheduler availability engine, in Dafny

A model of the scheduling core of hwScheduler, a small service that answers
"when is this agent free?". Its parts:

- An agent has a weekly work schedule: for each weekday an `HH:MM` start
  and end, or no entry (a day off). An iCalendar feed holds their busy
  events.
- The availability query (`GET /`) takes a list of request ranges
  `"start|end,start|end"` and an event type. It works in four steps:
  - it parses and validates the ranges (`buildTimeRanges`, `parseDate`,
    `validateTimeRange`);
  - it clips each range to the work window of every day it touches
    (`getAdjustedTimeRanges`, `getWorkdayTimeRange`);
  - it tiles each clipped range into back-to-back slots of the event type's
    duration (15, 30 or 60 minutes);
  - it drops every slot that clashes with a busy slot taken from the
    calendar (`findAvailableSlots`, `isOverlapping`, `getEventsByDateRange`).
- The optimal-days query (`GET /optimal-days`) scores each scheduled day of
  the next `lookAheadDays` days (default 7) by the number of calendar events
  in its work window. It returns the four least busy days
  (`findOptimalDays`).
- The booking check (`checkAvailability`) reports whether a requested window
  is free of conflicting events.

The model is a set of pure functions over immutable values, plus the two
loops of `findAvailableSlots` written as methods. Modules:

| module | file | what it holds |
|---|---|---|
| `Models` | models.dfy | Dates as UTC milliseconds or the invalid date, ranges, busy slots, calendar events, the half-open overlap predicate |
| `Strings` | strings.dfy | JavaScript `split` with its exact edge cases, `Number` on digit strings, decimal rendering |
| `DateUtil` | date_util.dfy | `validateTimeRange`, UTC day arithmetic, weekdays |
| `CalendarService` | calendar_service.dfy | The event-window filter, the booking conflict check, and its corrected variant |
| `TimeRanges` | time_ranges.dfy | `buildTimeRanges` and a renderer it inverts |
| `WorkSchedule` | work_schedule.dfy | Clock parsing, `getWorkdayTimeRange`, the day walk of `getAdjustedTimeRanges` |
| `Slots` | slots.dfy | `isOverlapping`, the slot loop and `findAvailableSlots` |
| `OptimalDays` | optimal_days.dfy | Day scoring, the stable sort by count, the top-four cut |
| `AvailabilityController` | availability_controller.dfy | Durations by event type, the look-ahead default, the two endpoints |

Conventions:
- A JavaScript `Date` is `Time`: `At(ms)` or `Invalid`, the date whose time
  value is NaN. As in JavaScript, `<` and `<=` on dates are false when either
  side is NaN.
- All calendar arithmetic is UTC.
- Reading a date-time literal is a parameter `parse: string -> Time`.
- The current time, the calendar and the schedule are passed in.
- Calendar-library times are compared as integers. A comparison involving an
  unreadable date is modelled as one that throws: `getEventsByDateRange`
  catches it and drops the event, and `checkAvailability` lets it escape
  (`None`).
- The optimal-days ranking names a day by its UTC day number.

Behaviour a reader may not expect:
- The booking check uses a strict test that misses events sharing an
  endpoint with the request. It is not an inclusive one (see Findings).
- `isOverlapping` uses a three-clause test. It equals half-open overlap for
  non-empty busy slots (`Slots.ThreeClauseIsHalfOpen`) but differs for
  zero-length ones (`Slots.PointBusySlot`).
- A negative look-ahead is not rejected. It yields no days.
- A schedule clock that does not parse, such as `9am`, makes that bound of
  the day's work window the invalid date. Every comparison with it is false,
  so clipping ignores that bound (`WorkSchedule.ClipToWindow`). The
  soundness rows below therefore say "within each valid bound" of a work
  window. When every entry's clocks parse and lie within the day, slots lie
  between a valid start and end (`Slots.AvailableSlotsInValidWorkHours`).
- The model treats converting the invalid date to an `ical.js` time as a
  comparison that throws, and the window test catches that throw per event.
  So in the model a day whose start clock does not parse counts zero events
  (`OptimalDays.BusyCount`). In the program that conversion happens at
  src/services/calendar.service.ts:97 and :100-102, before the `try` at
  :106-128. What it does with an invalid `Date` depends on `ical.js`, which
  is not part of this model (see Left out).

## Model

| member | source | states |
|---|---|---|
| DateUtil.ValidateTimeRange | src/util/date.util.ts:1-11 | Passes exactly when both dates are valid and start < end. An invalid date is reported as `Invalid date format` before the ordering is checked; `Start date must be before end date` exactly when both are valid and start >= end |
| DateUtil.StartOfDay | src/services/availability.service.ts:158-159 | UTC midnight of a time's day: at or before it, less than a day before it, a whole multiple of a day |
| DateUtil.NextDay | src/services/availability.service.ts:158-159 | The next UTC midnight: strictly after the time, at most a day later, and on the following day number |
| DateUtil.SameDay | src/services/availability.service.ts:133 | Instants of one UTC day share its midnight and weekday |
| DateUtil.DayOfWeek | src/services/availability.service.ts:133 | The weekday named by `getDay()`-style number n is the one numbered n, Sunday being 0 |
| DateUtil.WeekdayOf | src/services/availability.service.ts:133 | `getDay()` in UTC: every day a multiple of seven days after 1970-01-01 is a Thursday |
| DateUtil.WeekdayOfNextDay | src/services/availability.service.ts:133 | The next UTC day has the next weekday, Saturday wrapping to Sunday |
| Strings.Split | src/services/availability.service.ts:297-299 | `split` yields one more piece than there are separators, and no piece holds the separator |
| Strings.JoinSplit | src/services/availability.service.ts:297-299 | Joining the pieces of a split gives the input back |
| Strings.CountZero | src/services/availability.service.ts:299 | A separator occurs in a string exactly when its count is positive, so a piece without one splits into a single field |
| Strings.SplitJoin | src/services/availability.service.ts:297-299 | Splitting the join of separator-free pieces gives the pieces back |
| Strings.SplitPrefix | src/services/availability.service.ts:297-299 | A separator-free prefix before a separator is the first piece; the rest splits on its own |
| Strings.FirstPiece | src/services/availability.service.ts:299 | The first piece of a split is the longest separator-free prefix of the string |
| Strings.NumberOf | src/services/availability.service.ts:248-253 | `Number` is defined exactly on strings of digits |
| Strings.NumberOfShowNat | src/services/availability.service.ts:248-253 | Reading back the decimal rendering of n gives n |
| Strings.LeadingZero | src/services/availability.service.ts:248-253 | A leading zero does not change a digit string's value |
| TimeRanges.EndField | src/services/availability.service.ts:299 | The end field is missing exactly when the piece has no `\|` |
| TimeRanges.StartField | src/services/availability.service.ts:299 | The start field holds no `\|` and is the part of the piece before its first `\|`, or the whole piece |
| TimeRanges.ParseField | src/services/availability.service.ts:299-302 | A missing field is parsed to the invalid date |
| TimeRanges.RangeOfPiece | src/services/availability.service.ts:299-312 | A piece yields a range exactly when its first two fields parse to valid dates in increasing order; otherwise it yields the validation error |
| TimeRanges.RangesOfPieces | src/services/availability.service.ts:298-313 | Succeeds exactly when every piece is valid, with one range per piece, in order |
| TimeRanges.RangesOfPiecesFirstError | src/services/availability.service.ts:298-313 | A failed list reports the error of its first invalid piece, every earlier piece being valid |
| TimeRanges.BuildTimeRanges | src/services/availability.service.ts:296-316 | One validated, non-empty range per comma-separated piece, in input order, or the first piece's error |
| TimeRanges.MissingSeparatorFails | src/services/availability.service.ts:299-304 | A piece without `\|` fails as an invalid date |
| TimeRanges.ExtraFieldsIgnored | src/services/availability.service.ts:299 | Fields after the second are never read |
| TimeRanges.BarredFields | src/services/availability.service.ts:299 | In `a\|rest` with `a` free of `\|`, the start field is `a` and the end field is the first field of `rest` |
| TimeRanges.SoleField | src/services/availability.service.ts:299 | A string without `\|` splits into itself alone |
| TimeRanges.BuildFormatRoundTrip | src/services/availability.service.ts:296-330 | Parsing a rendered list of valid ranges gives the ranges back |
| WorkSchedule.ParseClock | src/services/availability.service.ts:248-253 | A clock without `:` does not parse |
| WorkSchedule.SetUTCHours | src/services/availability.service.ts:255-256 | A parsed clock gives that many hours and minutes after the day's UTC midnight; NaN gives the invalid date |
| WorkSchedule.GetWorkdayTimeRange | src/services/availability.service.ts:241-258 | Each bound of the window is a valid date exactly when its clock parses; a valid bound is on or after the date's UTC midnight, and a clock of at most 24:00 puts it no later than the next midnight |
| WorkSchedule.ParseFormatClock | src/services/availability.service.ts:248-253 | Parsing an `HH:MM` rendering gives the hour and minute back |
| WorkSchedule.NumberOfPad2 | src/services/availability.service.ts:248-253 | A zero-padded two-digit field reads back as its number |
| WorkSchedule.WorkdayTimeRangeOfClock | src/services/availability.service.ts:241-258 | For `HH:MM` entries the window is the date's day at those clock times, both inside that day |
| WorkSchedule.ClockOnDay | src/services/availability.service.ts:248-256 | An `HH:MM` clock sets that time on the date's own day |
| WorkSchedule.ClipToWindow | src/services/availability.service.ts:143-150 | An instant is in the clipped range exactly when it is in the range and within each bound of the window that is a valid date; a bound that failed to parse is ignored |
| WorkSchedule.ClipDay | src/services/availability.service.ts:133-155 | A day contributes at most one range; nothing on a day off; what it contributes is a non-empty piece of the request within each valid bound of that day's window; and when the weekday is scheduled and the clipped range is non-empty, the day contributes exactly that clipped range |
| WorkSchedule.WindowWithinDay | src/services/availability.service.ts:241-258 | Under a well-formed schedule a day's window is valid and lies within that day |
| WorkSchedule.WalkDays | src/services/availability.service.ts:132-160 | Every clipped piece is inside the request and within each valid bound of the work window of a day the walk visits |
| WorkSchedule.ClipDayWithinDay | src/services/availability.service.ts:133-155 | Under a well-formed schedule a day's piece lies within that day |
| WorkSchedule.WalkDaysFromDay | src/services/availability.service.ts:132-160 | Under a well-formed schedule every piece starts on or after the first visited day |
| WorkSchedule.WalkDaysOrdered | src/services/availability.service.ts:132-160 | Under a well-formed schedule the pieces are in increasing order and pairwise disjoint |
| WorkSchedule.GetAdjustedTimeRanges | src/services/availability.service.ts:122-164 | Every adjusted range is non-empty and lies within each valid bound of some scheduled day's work window |
| WorkSchedule.AdjustedPiecesOrigin | src/services/availability.service.ts:122-164 | Every adjusted range lies inside one of the input ranges |
| WorkSchedule.GetAdjustedTimeRangesAppend | src/services/availability.service.ts:128-161 | Each input range is adjusted independently, in order |
| WorkSchedule.SingleDayRange | src/services/availability.service.ts:132-160 | A range inside one day is exactly that day's clip |
| WorkSchedule.ClipDayOfDay | src/services/availability.service.ts:133-150 | What a day contributes depends only on which UTC day it is |
| WorkSchedule.WalkDaysComplete | src/services/availability.service.ts:132-160 | The walk visits every UTC day from its first to the one holding the range's end, and each such day's piece is in its output |
| WorkSchedule.AdjustedComplete | src/services/availability.service.ts:122-164 | Clipping loses no scheduled time: for each input range and each UTC day it touches, that day's piece is among the adjusted ranges |
| WorkSchedule.WellFormedWorkHours | src/services/availability.service.ts:241-258 | When every schedule entry's clocks parse and lie within the day, a range in work hours lies between the valid start and end of one scheduled day's window, inside that day |
| CalendarService.Compare | src/services/calendar.service.ts:119-123 | The comparison exists exactly when both dates are readable, and its sign is the order of the two times |
| CalendarService.WindowTest | src/services/calendar.service.ts:105-128 | The filter test throws when the start date is unreadable; without an end date it is defined exactly when both dates it compares are readable and then keeps events ending at or after the start; on readable dates with an end date it is the three-clause closed-window test |
| CalendarService.InDateRange | src/services/calendar.service.ts:105-128 | A kept event has a readable window start; without an end date its end is readable; with one, its start and the window end are readable |
| CalendarService.SubsequenceMembers | src/services/calendar.service.ts:105-129 | Every event the filter keeps comes from the calendar |
| CalendarService.GetEventsByDateRange | src/services/calendar.service.ts:88-130 | The kept events are a subsequence of the calendar; each passes the window test; every event that passes is kept |
| CalendarService.GetEventsByDateRangeAppend | src/services/calendar.service.ts:105-129 | Each event is judged on its own, and a throwing comparison drops only that event |
| CalendarService.ClosedWindowIsClosedOverlap | src/services/calendar.service.ts:118-124 | With both bounds, an event is kept exactly when its closed interval meets the closed window |
| CalendarService.OpenEndedWindow | src/services/calendar.service.ts:112-115 | Without an end date, an event is kept exactly when it ends at or after the start date |
| CalendarService.UnreadableStartDropped | src/services/calendar.service.ts:118-128 | An event whose start cannot be read is dropped from a closed window |
| CalendarService.NoneMatch | src/services/calendar.service.ts:68-79 | Defined exactly when no test throws; true exactly when every test is false |
| CalendarService.StrictConflictTest | src/services/calendar.service.ts:72-77 | The conflict test throws when the event start or the request start is unreadable; on readable dates it is: starts strictly inside, ends strictly inside, or strictly spans the request |
| CalendarService.CheckAvailability | src/services/calendar.service.ts:55-80 | Available exactly when every event's strict test is false; fails exactly when some event's comparison throws |
| CalendarService.StrictTestMissesSharedEndpoints | src/services/calendar.service.ts:72-77 | On well-formed events, half-open overlap is the strict test or a shared start or end |
| CalendarService.IdenticalWindowNotAConflict | src/services/calendar.service.ts:72-79 | An event occupying exactly the requested window is not reported |
| CalendarService.CheckAvailabilityHalfOpen | src/services/calendar.service.ts:68-79 | The corrected check: available exactly when no event passes the half-open test |
| CalendarService.HalfOpenCheckIsOverlap | src/services/calendar.service.ts:68-79 | On well-formed events the corrected check never throws, and it is true exactly when no event overlaps the request |
| CalendarService.IdenticalWindowIsAConflict | src/services/calendar.service.ts:72-79 | The corrected check rejects an exact match |
| CalendarService.HalfOpenCheckIsStricter | src/services/calendar.service.ts:68-79 | Whatever the corrected check admits, the original admits too |
| Slots.ThreeClauseIsHalfOpen | src/services/availability.service.ts:271-285 | For non-empty candidate and busy slot, the three-clause test is half-open overlap |
| Slots.PointBusySlot | src/services/availability.service.ts:279-283 | A zero-length busy slot clashes with every candidate that holds its instant, ends included |
| Slots.BusyClash | src/services/availability.service.ts:277-283 | A busy slot with an unreadable bound never clashes; a clash of an ordered candidate with an ordered busy slot means their closed intervals meet |
| Slots.IsOverlapping | src/services/availability.service.ts:271-285 | The scan over the busy slots answers true exactly when some busy slot clashes with the candidate |
| Slots.SlotsFrom | src/services/availability.service.ts:73-104 | Every slot of the loop is exactly one step long and lies between the cursor and the range end |
| Slots.SlotsFromSound | src/services/availability.service.ts:73-104 | Each offered slot is exactly one step long, on the grid, inside the range, and clear of every busy slot; slots are ordered and disjoint |
| Slots.SlotsFromComplete | src/services/availability.service.ts:73-104 | Every clash-free grid candidate that fits is offered |
| Slots.AvailableSlots | src/services/availability.service.ts:30-108 | Fails exactly when the range list fails to parse, with the same error |
| Slots.SlotAvoidsEvent | src/services/availability.service.ts:65-70 | A slot never overlaps a well-formed calendar event, because any such event is among the range's busy slots |
| Slots.SlotsForRangesOrigin | src/services/availability.service.ts:59-105 | Every slot comes from the tiling of one clipped range |
| Slots.SlotOfRangeSound | src/services/availability.service.ts:59-105 | A slot of a clipped range has the duration, lies in the range and within each valid bound of its work window, and avoids the calendar |
| Slots.TiledSlotSound | src/services/availability.service.ts:30-108 | A slot tiled from any clipped range has the duration, lies in a requested range and within each valid bound of a scheduled day's work window, and avoids the calendar |
| Slots.AvailableSlotsSound | src/services/availability.service.ts:30-108 | Every slot returned has the requested length, lies in a requested range and within each valid bound of a scheduled day's work window, and overlaps no well-formed event |
| Slots.AvailableSlotsInValidWorkHours | src/services/availability.service.ts:30-164 | When every schedule entry's clocks parse and lie within the day, every slot returned lies between the valid start and end of one scheduled day's work window |
| Slots.TileOneInSlotsForRanges | src/services/availability.service.ts:59-105 | Every slot tiled from a clipped range is in the outer loop's result |
| Slots.SlotsForRangesComplete | src/services/availability.service.ts:59-105 | A clash-free grid candidate of any clipped range is in the outer loop's result |
| Slots.TiledSlotComplete | src/services/availability.service.ts:59-164 | For every range and UTC day it touches, each clash-free grid candidate of that day's piece is tiled |
| Slots.AvailableSlotsOfRanges | src/services/availability.service.ts:30-108 | A list that parses is answered with the tiling of its clipped ranges |
| Slots.AvailableSlotsComplete | src/services/availability.service.ts:30-164 | Nothing free is lost: for every requested range and UTC day it touches, each grid candidate of that day's piece that fits and clashes with none of the piece's busy slots is returned |
| Slots.AvoidsCalendarIsFree | src/services/availability.service.ts:65-104 | On well-formed events, a grid candidate of a piece that overlaps no calendar event passes the slot loop's clash test against the piece's busy slots |
| Slots.AvailableSlotsOffersFreeSlots | src/services/availability.service.ts:30-164 | On well-formed events, every grid candidate of a touched day's piece that overlaps no calendar event is returned |
| Slots.SlotLoop | src/services/availability.service.ts:73-104 | The inner while loop computes the recursive tiling |
| Slots.TileRanges | src/services/availability.service.ts:59-105 | The outer loop fails exactly when some range is empty, and otherwise returns the concatenated tilings |
| Slots.FindAvailableSlots | src/services/availability.service.ts:30-108 | The method computes the availability query; the in-loop validation never throws |
| OptimalDays.DayShift | src/services/availability.service.ts:199-201 | Moving by k days moves the day number by k and the weekday accordingly |
| OptimalDays.CountInDateRange | src/services/calendar.service.ts:105-129 | The count of kept events is at most the number of events; under the model's throwing-comparison convention it is zero when the window start is invalid |
| OptimalDays.BusyCount | src/services/availability.service.ts:210-221 | A day's count is at most the number of calendar events; under the model's throwing-comparison convention it is zero when the schedule's start clock does not parse |
| OptimalDays.CountInDateRangeIsLength | src/services/availability.service.ts:215-221 | Counting the events the window test keeps gives the length of the filtered list |
| OptimalDays.BusyCountIsEventsLength | src/services/availability.service.ts:210-221 | A day's count is `dayEvents.length` for that day's work window |
| OptimalDays.EntryOf | src/services/availability.service.ts:199-221 | An offset is recorded exactly when its weekday has an entry, under the day k days after today |
| OptimalDays.DayEntryWeekday | src/services/availability.service.ts:200-221 | The entry is keyed by the weekday and day number of the date k days after today, with the number of events in that date's work window |
| OptimalDays.CountDaysFrom | src/services/availability.service.ts:199-222 | Recorded days lie in the window, in strictly increasing order |
| OptimalDays.CountDaysFromRecorded | src/services/availability.service.ts:199-222 | Each recorded entry is what the loop records for the day it names |
| OptimalDays.CountDaysRecorded | src/services/availability.service.ts:199-222 | Each recorded entry is a scheduled day of the window, with that day's count |
| OptimalDays.CountDaysFromComplete | src/services/availability.service.ts:199-222 | From any offset on, every scheduled day up to the look-ahead is recorded |
| OptimalDays.CountDaysComplete | src/services/availability.service.ts:199-222 | Every scheduled day of the window is recorded |
| OptimalDays.Insert | src/services/availability.service.ts:224-225 | Insertion keeps the elements |
| OptimalDays.InsertFrom | src/services/availability.service.ts:224-225 | Every entry after insertion is the inserted one or an old one |
| OptimalDays.InsertSorted | src/services/availability.service.ts:224-225 | Insertion keeps the order by count |
| OptimalDays.SortByCount | src/services/availability.service.ts:224-225 | The sort is a permutation ordered by count |
| OptimalDays.InsertEarliest | src/services/availability.service.ts:224-225 | Inserting an earlier-dated entry keeps the order by count and then day |
| OptimalDays.SortByCountOrdersDays | src/services/availability.service.ts:224-225 | The stable sort of day-ordered entries orders by count and then day |
| OptimalDays.TopDays | src/services/availability.service.ts:224-227 | Keeps min(4, n) entries |
| OptimalDays.TopDaysAreLeastBusy | src/services/availability.service.ts:224-227 | The kept entries are least busy first, come from the input, and beat every dropped entry on count and then day |
| OptimalDays.RankDays | src/services/availability.service.ts:224-227 | At most four days are ranked |
| OptimalDays.FindOptimalDays | src/services/availability.service.ts:177-230 | At most four days; none for a look-ahead of zero or less |
| OptimalDays.RankDaysAreLeastBusy | src/services/availability.service.ts:177-230 | The ranking holds min(4, n) of the recorded days, least busy first, and every dropped day is busier or as busy and later |
| OptimalDays.OptimalDaysInWindow | src/services/availability.service.ts:199-207 | Every returned day is a scheduled day of the look-ahead window |
| OptimalDays.SkippedDayIsBusier | src/services/availability.service.ts:199-227 | A scheduled day not returned is at least as busy as every returned one, and later on a tie |
| AvailabilityController.DurationForEventType | src/controllers/availability.controller.ts:46-57 | 15 minutes exactly for a call, 60 exactly for a showing, 30 for everything else |
| AvailabilityController.DurationIsPositive | src/controllers/availability.controller.ts:18-22 | Every event type gets a positive duration of at least 15 minutes |
| AvailabilityController.LookAheadDays | src/controllers/availability.controller.ts:34 | An absent or empty parameter gives 7; otherwise the parameter's number |
| AvailabilityController.LookAheadDaysOfShowNat | src/controllers/availability.controller.ts:34 | A decimal look-ahead is read as written |
| AvailabilityController.OptimalDaysRequest | src/controllers/availability.controller.ts:29-44 | At most four days; none when the look-ahead is NaN |
| AvailabilityController.DefaultLooksAheadOneWeek | src/controllers/availability.controller.ts:34 | Without a parameter, every returned day is a scheduled day of the next seven |
| AvailabilityController.SlotsRequest | src/controllers/availability.controller.ts:12-27 | Fails exactly when the range list fails to parse |
| AvailabilityController.SlotsRequestSound | src/controllers/availability.controller.ts:12-27 | Every offered slot is as long as the event type's appointment, lies in a requested range and within each valid bound of a scheduled day's work window, and avoids the calendar |
| AvailabilityController.SlotsRequestComplete | src/controllers/availability.controller.ts:12-27 | Every clash-free candidate of every scheduled day's piece on the event type's grid is offered |
| AvailabilityController.SlotsRequestInValidWorkHours | src/controllers/availability.controller.ts:12-27 | With a well-formed schedule, every slot offered lies between the valid start and end of one scheduled day |

## Left out

- HTTP routing, the key-value store and reading the `.ics` file are left out. The schedule and the calendar are parameters.
- iCalendar parsing is left out. Events arrive as two UTC times each, and `ical.js` comparison is integer comparison.
- Time zones are left out. `parseDate` subtracts the host's time-zone offset, and the model takes the host to be on UTC, so the subtraction is the identity. Parsing a date-time literal is the parameter `parse`.
- `Date`'s range limit of ±8.64e15 ms is not modelled: times are unbounded integers.
- `getTimeSlotsForEvents` and `getDayOfWeek` are not part of this model. `getTimeSlotsForEvents` is called at src/services/availability.service.ts:70 but not defined in src/services/calendar.service.ts, and `getDayOfWeek` is imported from src/util/date.util.ts, which does not define it:
  - a busy slot is taken to be the event's start and end;
  - the weekday is taken to be numbered 0 = Sunday to 6 = Saturday.
- The optimal-days result names each day by its UTC day number, not by its `YYYY-MM-DD` string. Since the scored days are distinct, the keys of `dayBusyCounts` never collide.
- The current time is read once, as `now`. The second `new Date()` of each loop pass is taken to be the same instant.
- `Strings.NumberOf` covers only `Number` on strings of ASCII digits. Whitespace, signs, fractions, exponents and hexadecimal are left out; they are NaN in the model. Because of this:
  - a fractional `lookAheadDays` is not modelled;
  - a negative one reads as NaN, which gives the same empty result.
- `ical.js` converting an invalid `Date` is modelled as a throwing comparison.
- OptimalDays.CountInDateRange: the zero count for an invalid window start follows from the model's convention, not from the program. The conversion at src/services/calendar.service.ts:97 and :100-102 runs outside the `try` at :106-128, so if `ical.js` threw there the whole query would fail instead of counting zero. `ical.js` is not part of this model.
- OptimalDays.BusyCount: for the same reason, a day whose start clock does not parse counts zero in the model; in the program the outcome depends on `ical.js`'s conversion of an invalid `Date`, which is not modelled.
- A missing schedule record (`.value` of an absent key, which crashes the request) is not modelled. The schedule is always present.
- Appointment booking (`addEvent`, random UIDs, the appointment controller and repository) is not part of this model.

## Findings

| source | as written | input that shows it | evidently intended | confidence | as-written member | corrected member |
|---|---|---|---|---|---|---|
| src/services/calendar.service.ts:72-77 | The conflict test uses strict comparisons on both ends, so an event that shares its start or its end with the request is not a conflict, not even an event occupying exactly the requested window | A request for 10:00-11:00 against an existing event 10:00-11:00 (or 10:00-12:00): `checkAvailability` reports the window as free | Report a conflict whenever the event and the request overlap half-open | not executed | CalendarService.IdenticalWindowNotAConflict | CalendarService.IdenticalWindowIsAConflict |
