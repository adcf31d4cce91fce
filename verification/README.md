# Calendar grid core, modelled in Dafny

This project models the pure helpers behind the weekly schedule calendar
component (`src/components/Calendar/Calendar.tsx`). The component shows a
grid: one column per visible day (1, 3 or 7 days), one row per time slot of
a chosen granularity, green cells where a tutor's availability window
intersects the slot, and lessons placed over the cells by grid column and
row span. The helpers modelled here are:

- the slot generator `generateTimeSlots`, with the row count `getRowsCount`
  and the interval split `handleIntervalChange`;
- the availability marker `markSlots` with its rule `dateIntersect`;
- the row selection `getSlotsRow`;
- the lesson placement `getLessonColumn` and `getLessonRows`, with
  `minutesIntersect`;
- the date helpers `parseDateWithoutTimezone`,
  `parseDateWithoutTimezoneDateOnly`, `fixedDateOnly` and `addDay`;
- the view helpers `getDaysCount`, `generateNumbers` and the paging
  `navigation`.

Modules:

- `JsMath` (`js_math.dfy`): JavaScript numbers as the core meets them. A
  number is an integer or NaN, and every comparison with NaN is false. The
  module also has `Math.min`, `Math.max`, and `Math.ceil` of a quotient.
- `Intervals` (`intervals.dfy`): the one half-open intersection rule.
  `dateIntersect` and `minutesIntersect` share it.
- `WallClock` (`wall_clock.dfy`): dates.
  - A calendar day is a day number, and a local Date is a field tuple with a
    time value.
  - An ISO timestamp is reduced to its UTC instant in milliseconds, or to a
    string that does not parse.
  - The offset-stripping parse keeps the UTC fields as local fields.
- `Navigation` (`navigation.dfy`): day counts per view, calendar-day
  arithmetic, paging, and the day-offset list.
- `Slots` (`slots.dfy`): the slot record, the generator, the row count, and
  the interval split.
- `Marking` (`marking.dfy`): marking slots available in place, and
  selecting one row's cells ordered by day.
- `Placement` (`placement.dfy`): a lesson's grid column and grid row span.

Behaviours of the code that the model keeps:

- An unparsable timestamp gives the Invalid Date, and every comparison
  involving it is false. The `isValidDate` guards at `Calendar.tsx:145` and
  `Calendar.tsx:158` never fire: they test the function object, not its
  result.
- A slot's end minute may be 60: the end hour carries only when the minutes
  exceed 60, while the running start minute carries at 60 (lines 98-100 and
  111).
- The generator stops at the first start not below `hourEnd*60 - 1`. With a
  one-minute width this leaves one grid row more than there are slots.
- The row filter of `getSlotsRow` includes the day `addDay(date, days)`,
  one past the last visible day.
- Lesson rows are counted from `ceil(hourStart*60 / width)` on widths
  `[id*width, (id+1)*width)`. With a zero width the result is `[-1, -1]`
  whenever the scan ends: the starting id and the bound are NaN or
  ±Infinity, and the scan never runs unless the start is negative (a
  starting id of -Infinity) and the end positive.

## Model

| member | source | states |
|---|---|---|
| Intervals.Intersect | src/components/Calendar/Calendar.tsx:34-39 | an interval with a NaN start intersects nothing; on non-empty finite intervals the result holds exactly when the later start is before the earlier end |
| Intervals.IntersectSymmetric | src/components/Calendar/Calendar.tsx:203-208 | swapping the two intervals never changes the answer, NaN operands included |
| Intervals.TouchingIntervalsDoNotIntersect | src/components/Calendar/Calendar.tsx:203-208 | intervals are half-open: [s, t) and [t, u) do not intersect, in either order |
| Intervals.NaNEndOfLaterIntervalIsIgnored | src/components/Calendar/Calendar.tsx:34-39 | when B starts inside A, B intersects A even if B's end is NaN |
| WallClock.GetTime | src/components/Calendar/Calendar.tsx:195 | `getTime()` is NaN exactly on the Invalid Date; for in-range fields its whole days are the day field and its remainder the seconds of the time of day |
| WallClock.DayOf | src/components/Calendar/Calendar.tsx:136-140 | the day a Date falls on is the one whose midnight is at or before it and less than a day before it |
| WallClock.DayOfNormal | src/components/Calendar/Calendar.tsx:136-140 | a Date with in-range fields falls on the day its day field names |
| WallClock.ParseWithoutTimezone | src/components/Calendar/Calendar.tsx:155-167 | an unparsable stamp gives the Invalid Date, and a parsable one a Date with in-range fields whose time, in whole seconds, is the stamp's UTC instant truncated to the second |
| WallClock.NormalFieldsUnique | src/components/Calendar/Calendar.tsx:160-166 | in-range fields are determined by the time value they make |
| WallClock.ParseRecoversUtcFields | src/components/Calendar/Calendar.tsx:155-167 | a stamp whose UTC fields are p parses to local fields exactly p, whatever its milliseconds |
| WallClock.ParseDateOnly | src/components/Calendar/Calendar.tsx:149-153 | the parse with its time zeroed: the midnight of the parsed day, invalid exactly when the stamp is |
| WallClock.MidnightsEqual | src/components/Calendar/Calendar.tsx:195 | two midnights have the same time value exactly when they are the same day |
| JsMath.CeilDiv | src/components/Calendar/Calendar.tsx:119 | `Math.ceil(a / b)` for a positive `b`: the rational quotient lies in `(c - 1, c]` |
| Navigation.DaysCount | src/components/Calendar/Calendar.tsx:264-274 | 1 exactly for "day", 3 exactly for "3days", 7 for "week" and every other token |
| Navigation.AddDay | src/components/Calendar/Calendar.tsx:175-179 | the result is a midnight, `days` calendar days after the day of the input |
| Navigation.AddDayComposes | src/components/Calendar/Calendar.tsx:175-179 | moving by a days and then by b days is moving by a + b days |
| Navigation.Navigate | src/components/Calendar/Calendar.tsx:326-328 | the new start is a midnight, the view's day count times `direction` days after the old start's day |
| Navigation.NavigateForwardThenBack | src/components/Calendar/Calendar.tsx:326-328 | paging forward then back returns to the start day with its time zeroed |
| Navigation.WeekPageIsSevenDays | src/components/Calendar/Calendar.tsx:326-328 | one page forward in the week view is seven calendar days |
| Navigation.GenerateNumbers | src/components/Calendar/Calendar.tsx:124-130 | the list 0, 1, ..., num - 1, empty when num <= 0 |
| Slots.SplitInterval | src/components/Calendar/Calendar.tsx:330-334 | whole hours times 60 plus the minutes give back the value; the minutes are in [0, 60); a non-negative value gives a valid granularity |
| Slots.MenuIntervalsDivideAnHour | src/components/Calendar/SelectInterval/SelectInterval.tsx:19-23 | every menu value (60, 30, 15, 10, 5) splits into a valid granularity whose width is that value and divides an hour |
| Slots.SlotEnd | src/components/Calendar/Calendar.tsx:98-100 | the end is one width after the start, clipped at 24:00; the end hour is at most 24, with minute 0 at 24; the end minute is 60 exactly when start minute plus minute interval is 60 and one width after the start is not past 24:00 |
| Slots.HalfHourSlotEndsAtMinuteSixty | src/components/Calendar/Calendar.tsx:98-100 | at a 30-minute width the 0:30 slot ends at hour 0, minute 60, and the 23:30 slot at hour 23, minute 60 |
| Slots.SlotCountIsFirstStartPastEnd | src/components/Calendar/Calendar.tsx:97-113 | the run length is the index of the first start at or after `hourEnd*60 - 1` |
| Slots.GenerateTimeSlots | src/components/Calendar/Calendar.tsx:75-115 | zero granularity gives the single 0:00-24:00 slot; otherwise slot k has id k, is untagged, lies on the given day, starts k widths after `hourStart`:00 below `hourEnd*60 - 1`, and ends as `SlotEnd` says; the count is the first start past the end |
| Slots.WorkdaySlots | src/components/Calendar/Calendar.tsx:75-115 | 9 to 17 at 60 minutes gives eight 60-minute slots, 9:00 first and 16:00-17:00 last |
| Slots.RowsCount | src/components/Calendar/Calendar.tsx:117-122 | at least one row; one when the width is not positive or the range is empty; otherwise the fewest rows of that width covering the range |
| Slots.RowsCountMatchesSlotCount | src/components/Calendar/Calendar.tsx:117-122 | when the width is at least 2 and divides the range, the grid reserves exactly as many rows as the generator emits slots |
| Slots.OneMinuteWidthLeavesAnEmptyRow | src/components/Calendar/Calendar.tsx:97 | at a one-minute width, hour 0 to 1 reserves 60 rows but the generator emits 59 slots |
| Slots.ZeroGranularityHasOneRow | src/components/Calendar/Calendar.tsx:117-122 | zero granularity reserves one row, matching its one slot |
| Marking.FindCoveringWindow | src/components/Calendar/Calendar.tsx:45-69 | the scan reports a hit exactly when some window of the schedule intersects the slot |
| Marking.MarkSlots | src/components/Calendar/Calendar.tsx:41-72 | in place, each slot becomes itself tagged available when some window intersects it and stays as it was otherwise; length and order unchanged |
| Marking.SlotStartDate | src/components/Calendar/Calendar.tsx:49-55 | the slot's start Date has the time value of its day's midnight plus its start minutes, fields out of range included |
| Marking.SlotEndDate | src/components/Calendar/Calendar.tsx:56-62 | the slot's end Date has the time value of its day's midnight plus its end minutes, so 23:60 and 24:00 reach the next midnight |
| Marking.Covers | src/components/Calendar/Calendar.tsx:46-64 | a window with an unparsable start covers nothing; between non-empty parsed intervals, covering is overlap of the window and the slot on the wall clock |
| Marking.Marked | src/components/Calendar/Calendar.tsx:64-70 | marking changes no field but the tag, and the tag is available exactly when the slot is bookable or already was available |
| Marking.SlotEndingAtWindowStartIsNotCovered | src/components/Calendar/Calendar.tsx:56-64 | a slot ending exactly where a window starts is not marked by it |
| Marking.UnparsableStartCoversNothing | src/components/Calendar/Calendar.tsx:46-47 | a window whose start does not parse marks no slot |
| Marking.SampleWindowMarksHalfHours | src/components/Calendar/defaultData.ts:5-6 | the first sample window marks 22:30-23:00 of its first day and 2:00-2:30 of the next, and neither 22:00-22:30 nor 2:30-3:00 |
| Marking.InRow | src/components/Calendar/Calendar.tsx:182-186 | the filter keeps a slot exactly when it starts at the given hour and minute and its day is 0 to `days` days after the first visible day, both ends included |
| Marking.RowCells | src/components/Calendar/Calendar.tsx:182-186 | a slot is selected exactly when it is in the input and starts at the row's time on a day from the first visible day up to and including `addDay(date, days)`; each selected slot occurs as often as in the input, and nothing else occurs |
| Marking.FilterOnDay | src/components/Calendar/Calendar.tsx:182-186 | the filter keeps input order: one day's selected slots are that day's input slots, filtered |
| Marking.InsertByDayMultiset | src/components/Calendar/Calendar.tsx:187 | inserting adds exactly the one slot |
| Marking.InsertByDaySorted | src/components/Calendar/Calendar.tsx:187 | inserting into a day-sorted list keeps it sorted |
| Marking.InsertByDayOnDay | src/components/Calendar/Calendar.tsx:187 | inserting keeps each day's slots in their order, the new one last on its day |
| Marking.SortByDay | src/components/Calendar/Calendar.tsx:187 | the sort orders by day and is a permutation of its input |
| Marking.SortByDayIsStable | src/components/Calendar/Calendar.tsx:187 | the sort keeps each day's slots in input order |
| Marking.SlotsRow | src/components/Calendar/Calendar.tsx:181-188 | filter, then a stable sort by day: the row is ordered by day and a permutation of the filtered slots |
| Marking.SlotsRowIsSortedSelection | src/components/Calendar/Calendar.tsx:181-188 | the row holds exactly the slots passing the filter, and its slots of each day are that day's input slots, filtered, in input order |
| Marking.RowIncludesDayAfterLastVisible | src/components/Calendar/Calendar.tsx:186 | a slot on the day `days` after the first visible day still passes the filter |
| Placement.FixedDateOnly | src/components/Calendar/Calendar.tsx:136-140 | a valid Date at 0:00:00 with in-range fields, no later than the input and less than a day before it |
| Placement.LessonColumn | src/components/Calendar/Calendar.tsx:190-201 | 2 plus the lesson day's offset from the first visible day when that offset is in [0, daysCount), and -1 otherwise (always -1 for an unparsable start) |
| Placement.SampleLessonColumn | src/components/Calendar/defaultData.ts:47 | the sample lesson of 2025-08-30 is in column 7 of the week from 2025-08-25 and hidden in the 3-day view from then |
| Placement.LessonMinutes | src/components/Calendar/Calendar.tsx:220-226 | NaN exactly for the Invalid Date; otherwise the whole minutes since the date's local midnight, a minute of the day, which is `hour * 60 + minute` when the fields are in range |
| Placement.LessonRows | src/components/Calendar/Calendar.tsx:210-262 | both -1 exactly when no row in the range meets the lesson, always with zero width; otherwise the first row that meets it and the first later row that does not, or the row just past the range |
| Placement.ScanEndsInRowSpan | src/components/Calendar/Calendar.tsx:258-260 | when the scan stops, an empty scan has passed the whole range, and a span still open closes at the row just past the range |
| Placement.RowSpanUnique | src/components/Calendar/Calendar.tsx:210-262 | the contract of `LessonRows` determines its result |
| Placement.RowsAlignWithGeneratedSlots | src/components/Calendar/Calendar.tsx:232 | when the width divides the start of the range, row id `first + k` starts where slot k starts; when it is at least 2 and divides the end too, the row is in range exactly when slot k is generated |
| Placement.SampleLessonMinutes | src/components/Calendar/defaultData.ts:47-48 | the sample lesson runs from minute 810 to minute 869 of its day |
| Placement.SampleRowsForced | src/components/Calendar/Calendar.tsx:210-262 | on 30-minute rows from midnight, minutes 810 to 869 can only occupy grid lines 29 to 31 |
| Placement.SampleLessonRows | src/components/Calendar/defaultData.ts:47-48 | the sample lesson on 30-minute rows from midnight to midnight occupies grid lines 29 to 31 |

## Left out

- The React component itself is not modelled: its state hooks, its rendering
  and its CSS grid placement strings.
- The per-day slot build at `Calendar.tsx:301-305`, which concatenates
  `generateTimeSlots` for each visible day and then calls `markSlots`, is
  not modelled.
- The resize listener, the click handlers and the context menu are not
  modelled.
- `formattedDate` and `withZero` produce locale-dependent display text only.
- The React state that `navigation` and `handleIntervalChange` write into is
  left out. `Navigation.Navigate` and `Slots.SplitInterval` return the value
  that would be stored.
- Calendar fields are not modelled: year, month and day-of-month, and the
  parsing and printing of date strings. A date is a day number, and a stamp
  is its UTC instant. `addDay`'s round trip through `toString()` and back is
  taken as exact.
- Time zones with daylight-saving shifts are not modelled. Local wall-clock
  arithmetic is plain carry arithmetic, so every local day has 86400
  seconds.
- Milliseconds below a second are dropped, as the parse drops them. Time
  values are in seconds.
- Number width is not modelled. Integers are unbounded: the values involved
  are far below 2^53.
- `parseInt` of a non-numeric menu value (NaN) is not modelled.
  `Slots.SplitInterval` takes an integer.
- Marking.MarkSlots: the source mutates shared slot objects, and the model
  replaces array elements. Aliasing between the marked list and the input
  list is not captured.
- Slots.GenerateTimeSlots and Placement.LessonRows require a
  non-negative hour interval and a minute interval in [0, 60). That is what
  `handleIntervalChange` yields for the menu's values. Negative or other
  fractional granularities are not modelled.
- Placement.LessonRows also requires a positive width, a non-negative
  `hourStart` or a non-positive `hourEnd`. With a zero width, a negative
  start and a positive end, the source's scan starts at -Infinity below an
  Infinity bound and never ends.
- WallClock.ParseWithoutTimezone, WallClock.ParseRecoversUtcFields,
  Marking.SlotStartDate and Marking.SlotEndDate do not model the year mapping
  of the `Date` constructor: a year from 0 to 99 becomes 1900 to 1999 when
  `parseDateWithoutTimezone` rebuilds the date
  (src/components/Calendar/Calendar.tsx:166) and when `markSlots` builds a
  slot's start and end (src/components/Calendar/Calendar.tsx:49-62). The
  model keeps the year as it is, which matches the source for every year
  from 100 on.
- Placement.LessonColumn and Marking.InRow take the visible start date
  already parsed. An unparsable `startDate` prop is not modelled.
- Unparsable slot dates are not modelled. A slot's `date` is a day number.
  The slots that are marked and filtered
  (src/components/Calendar/Calendar.tsx:301-305) carry `addDay` dates. The
  time-axis run at src/components/Calendar/Calendar.tsx:452 passes `''` as
  the date, and only its start fields and ids are read.
