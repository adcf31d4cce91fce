/**
 * The grid geometry resolver: the column of the day a lesson falls on, and the
 * span of grid rows its time of day covers. Column 1 holds the time axis and
 * row 1 the day headers, so days start at column 2 and slots at row 2; -1
 * means "not in this view".
 */
module Placement {
  import opened JsMath
  import opened Intervals
  import opened WallClock
  import opened Slots
  import opened Navigation

  /**
   * `fixedDateOnly` of a local date: a valid Date at 0:00:00 with in-range
   * fields, no later than `p` and less than a day before it.
   */
  function FixedDateOnly(p: TimePoint): (d: Date)
    ensures d.Date? && Normal(d.at) && d.at.hour == 0 && d.at.minute == 0 && d.at.second == 0
    ensures Seconds(d.at) <= Seconds(p) < Seconds(d.at) + SecondsPerDay
  {
    Date(Midnight(DayOf(p)))
  }

  /**
   * `getLessonColumn`: scan the visible days in order and return the column
   * of the first one whose midnight has the same time value as the lesson's
   * date-only start. So the column is 2 plus the lesson day's offset from the
   * first visible day when that offset is below `daysCount`, and -1 otherwise,
   * which includes every unparsable start and every `daysCount` <= 0.
   */
  method LessonColumn(startTime: Stamp, dateStart: TimePoint, daysCount: int) returns (column: int)
    ensures startTime.Unparsable? || daysCount <= 0 ==> column == -1
    ensures startTime.Utc? ==>
      var offset := ParseWithoutTimezone(startTime).at.day - DayOf(dateStart);
      column == if 0 <= offset < daysCount then offset + 2 else -1
    ensures column == -1 || 2 <= column < daysCount + 2
  {
    var lessonDate := ParseDateOnly(startTime);
    var i := 0;
    while i < daysCount
      invariant 0 <= i
      invariant daysCount >= 0 ==> i <= daysCount
      invariant startTime.Utc? ==>
        !(0 <= ParseWithoutTimezone(startTime).at.day - DayOf(dateStart) < i)
    {
      if StrictEq(GetTime(FixedDateOnly(AddDay(dateStart, i))), GetTime(lessonDate)) {
        MidnightsEqual(DayOf(dateStart) + i, ParseWithoutTimezone(startTime).at.day);
        return i + 2;
      }
      if startTime.Utc? {
        MidnightsEqual(DayOf(dateStart) + i, ParseWithoutTimezone(startTime).at.day);
      }
      i := i + 1;
    }
    return -1;
  }

  /**
   * A lesson end point's minutes of the day, `getHours() * 60 + getMinutes()`:
   * the whole minutes since the local midnight of the date, which are the
   * hour and minute fields when those are in range.
   */
  function LessonMinutes(d: Date): (m: Num)
    ensures d.InvalidDate? <==> m.NaN?
    ensures d.Date? ==> 0 <= m.value < MinutesPerDay
    ensures d.Date? ==> m.value == (Seconds(d.at) - Seconds(Midnight(DayOf(d.at)))) / 60
    ensures d.Date? && Normal(d.at) ==> m.value == d.at.hour * 60 + d.at.minute
  {
    if d.InvalidDate? then NaN
    else
      var elapsed := Seconds(d.at) - Seconds(Midnight(DayOf(d.at)));
      assert Normal(d.at) ==> elapsed == (d.at.hour * 60 + d.at.minute) * 60 + d.at.second by {
        if Normal(d.at) {
          DayOfNormal(d.at);
        }
      }
      Finite(elapsed / 60)
  }

  /** Row `id` spans minutes [id * width, (id + 1) * width) and meets the lesson. */
  predicate RowHits(id: int, width: int, lessonStart: Num, lessonEnd: Num) {
    Intersect(Finite(id * width), Finite(id * width + width), lessonStart, lessonEnd)
  }

  /** The id of the first row from `hourStart`: ceil(hourStart * 60 / width). */
  function FirstRowId(hourStart: int, width: int): int
    requires width > 0
  {
    CeilDiv(hourStart * 60, width)
  }

  /** No row from `first` on, within the hour range, meets the lesson. */
  ghost predicate NoRowHits(first: int, width: int, hourEnd: int, ls: Num, le: Num) {
    forall id :: first <= id && id * width < hourEnd * 60 ==> !RowHits(id, width, ls, le)
  }

  /** Row `s` is the first row from `first` on that meets the lesson, within the range. */
  ghost predicate IsFirstHit(s: int, first: int, width: int, hourEnd: int, ls: Num, le: Num) {
    && first <= s
    && s * width < hourEnd * 60
    && RowHits(s, width, ls, le)
    && forall id :: first <= id < s ==> !RowHits(id, width, ls, le)
  }

  /**
   * Row `e` closes the span opened at `s`: every row strictly between them is
   * within the range and meets the lesson, and `e` is past the range or does
   * not meet it.
   */
  ghost predicate IsSpanEnd(s: int, e: int, width: int, hourEnd: int, ls: Num, le: Num) {
    && s < e
    && (forall id :: s < id < e ==> id * width < hourEnd * 60 && RowHits(id, width, ls, le))
    && (e * width >= hourEnd * 60 || !RowHits(e, width, ls, le))
  }

  /**
   * The rows a lesson occupies, as grid lines counted from the first row
   * `first`: both -1 exactly when no row within the range meets the lesson;
   * otherwise `rowStart` is the first row that does and `rowEnd` closes its
   * span.
   */
  ghost predicate RowSpan(rowStart: int, rowEnd: int, first: int, width: int, hourEnd: int, ls: Num, le: Num) {
    && (rowStart == -1 <==> rowEnd == -1)
    && (rowStart == -1 <==> NoRowHits(first, width, hourEnd, ls, le))
    && (rowStart != -1 ==>
          && 2 <= rowStart < rowEnd
          && IsFirstHit(first + rowStart - 2, first, width, hourEnd, ls, le)
          && IsSpanEnd(first + rowStart - 2, first + rowEnd - 2, width, hourEnd, ls, le))
  }

  /**
   * `getLessonRows`: both -1 when no row within the hour range meets the
   * lesson's minutes (always so with a zero width); otherwise `rowStart` is
   * the grid line of the first row that meets them and `rowEnd` that of the
   * first row after it that does not, or of the row just past the range.
   */
  method LessonRows(
    startTime: Stamp,
    endTime: Stamp,
    hourInterval: int,
    minuteInterval: int,
    hourStart: int,
    hourEnd: int)
    returns (rowStart: int, rowEnd: int)
    requires ValidGranularity(hourInterval, minuteInterval)
    // With a zero width, a negative start and a positive end the first id is
    // -Infinity, which stays below the Infinity bound forever: the scan would
    // not end.
    requires Width(hourInterval, minuteInterval) > 0 || hourStart >= 0 || hourEnd <= 0
    ensures (rowStart == -1) == (rowEnd == -1)
    ensures Width(hourInterval, minuteInterval) == 0 ==> rowStart == -1
    ensures Width(hourInterval, minuteInterval) > 0 ==>
      var w := Width(hourInterval, minuteInterval);
      RowSpan(rowStart, rowEnd, FirstRowId(hourStart, w), w, hourEnd,
              LessonMinutes(ParseWithoutTimezone(startTime)),
              LessonMinutes(ParseWithoutTimezone(endTime)))
  {
    var lessonStart := ParseWithoutTimezone(startTime);
    var lessonEnd := ParseWithoutTimezone(endTime);
    var ls := LessonMinutes(lessonStart);
    var le := LessonMinutes(lessonEnd);
    var w := hourInterval * 60 + minuteInterval;
    rowStart, rowEnd := -1, -1;
    if w == 0 {
      // The starting id and the bound are NaN or +-Infinity, and the bound is
      // never above the starting id here: the scan never runs.
      return;
    }
    var first := CeilDiv(hourStart * 60, w);
    var current := first;
    // `current < hourEnd * 60 / w` on rationals, with w > 0.
    while current * w < hourEnd * 60 && (rowStart == -1 || rowEnd == -1)
      invariant first <= current
      invariant rowStart == -1 ==> rowEnd == -1 && forall id :: first <= id < current ==> !RowHits(id, w, ls, le)
      invariant rowStart != -1 ==>
        first + rowStart - 2 < current && IsFirstHit(first + rowStart - 2, first, w, hourEnd, ls, le)
      invariant rowStart != -1 && rowEnd == -1 ==>
        forall id :: first + rowStart - 2 < id < current ==> id * w < hourEnd * 60 && RowHits(id, w, ls, le)
      invariant rowEnd != -1 ==>
        rowStart != -1 && first + rowEnd - 2 < current &&
        IsSpanEnd(first + rowStart - 2, first + rowEnd - 2, w, hourEnd, ls, le)
      decreases hourEnd * 60 - current * w
    {
      if rowStart == -1 {
        if Intersect(Finite(current * w), Finite(current * w + w), ls, le) {
          rowStart := current - first + 2;
        }
      } else if rowEnd == -1 {
        if !Intersect(Finite(current * w), Finite(current * w + w), ls, le) {
          rowEnd := current - first + 2;
        }
      }
      assert (current + 1) * w == current * w + w;
      current := current + 1;
    }
    if rowStart != -1 && rowEnd == -1 {
      rowEnd := current - first + 2;
    }
    ScanEndsInRowSpan(rowStart, rowEnd, first, current, w, hourEnd, ls, le);
  }

  /**
   * Once the scan stops, its state describes the lesson's rows: a scan that
   * found no row has run past the range, so no row in it meets the lesson; a
   * span still open at the end of the range closes at the row just past it.
   */
  lemma ScanEndsInRowSpan(
    rowStart: int, rowEnd: int, first: int, current: int, w: int, hourEnd: int, ls: Num, le: Num)
    requires w > 0 && first <= current
    requires rowStart == -1 ==>
      rowEnd == -1 && current * w >= hourEnd * 60 &&
      forall id :: first <= id < current ==> !RowHits(id, w, ls, le)
    requires rowStart != -1 ==>
      first + rowStart - 2 < current && IsFirstHit(first + rowStart - 2, first, w, hourEnd, ls, le)
    requires rowStart != -1 && rowEnd == current - first + 2 ==>
      current * w >= hourEnd * 60 &&
      forall id :: first + rowStart - 2 < id < current ==> id * w < hourEnd * 60 && RowHits(id, w, ls, le)
    requires rowStart != -1 && rowEnd != current - first + 2 ==>
      first + rowEnd - 2 < current && IsSpanEnd(first + rowStart - 2, first + rowEnd - 2, w, hourEnd, ls, le)
    ensures RowSpan(rowStart, rowEnd, first, w, hourEnd, ls, le)
  {
    if rowStart == -1 {
      forall id | first <= id && id * w < hourEnd * 60 ensures !RowHits(id, w, ls, le) {
        if id >= current {
          MulMonotone(current, id, w);
        }
      }
    }
  }

  /**
   * When the width divides the start of the hour range, row `first + k` is the
   * `k`-th generated slot: the same start minute, and, when the width is at
   * least two minutes and divides the end too, inside the range exactly when
   * the generator emits that slot. So grid line `k + 2` is slot `k`.
   */
  lemma {:induction false} RowsAlignWithGeneratedSlots(hourStart: int, hourEnd: int, width: int, k: int)
    requires width >= 2
    requires (hourStart * 60) % width == 0 && (hourEnd * 60) % width == 0
    ensures (FirstRowId(hourStart, width) + k) * width == RowStart(hourStart, width, k)
    ensures (FirstRowId(hourStart, width) + k) * width < hourEnd * 60 <==>
              RowStart(hourStart, width, k) < hourEnd * 60 - 1
  {
    var q := (hourStart * 60) / width;
    assert hourStart * 60 == q * width;
    CeilDivExact(q, width);
    assert (q + k) * width == q * width + k * width;
    var r := (hourEnd * 60) / width;
    assert hourEnd * 60 == r * width;
    var x := q + k;
    if x * width < hourEnd * 60 {
      assert x < r by {
        if x >= r { MulMonotone(r, x, width); }
      }
      MulMonotone(x, r - 1, width);
      assert (r - 1) * width == r * width - width;
    }
  }

  /**
   * The rows a lesson occupies are determined: two results that both meet
   * the contract of `LessonRows` are the same result.
   */
  lemma RowSpanUnique(
    rowStart: int, rowEnd: int, otherStart: int, otherEnd: int,
    first: int, width: int, hourEnd: int, ls: Num, le: Num)
    requires RowSpan(rowStart, rowEnd, first, width, hourEnd, ls, le)
    requires RowSpan(otherStart, otherEnd, first, width, hourEnd, ls, le)
    ensures rowStart == otherStart && rowEnd == otherEnd
  {
    if rowStart != -1 {
      var s, t := first + rowStart - 2, first + otherStart - 2;
      assert first <= s < t ==> !RowHits(s, width, ls, le);
      assert first <= t < s ==> !RowHits(t, width, ls, le);
      var e, f := first + rowEnd - 2, first + otherEnd - 2;
      assert s < e < f ==> e * width < hourEnd * 60 && RowHits(e, width, ls, le);
      assert s < f < e ==> f * width < hourEnd * 60 && RowHits(f, width, ls, le);
    }
  }

  /** The sample lesson runs from minute 810 (13:30) to minute 869 (14:29) of its day. */
  lemma SampleLessonMinutes()
    ensures LessonMinutes(ParseWithoutTimezone(Utc(1756560600000))) == Finite(810)
    ensures LessonMinutes(ParseWithoutTimezone(Utc(1756564199000))) == Finite(869)
  {
    ParseRecoversUtcFields(TimePoint(20330, 13, 30, 0), 0);
    ParseRecoversUtcFields(TimePoint(20330, 14, 29, 59), 0);
  }

  /**
   * The sample lesson's minutes 810 to 869 (13:30 to 14:29), on 30-minute rows
   * from midnight to midnight, first meet row 27 (13:30-14:00) and the span
   * closes at row 29: the only result `LessonRows` can give is grid lines 29
   * and 31, the rows 13:30-14:00 and 14:00-14:30.
   */
  lemma SampleRowsForced(rowStart: int, rowEnd: int, first: int, width: int, ls: Num, le: Num)
    requires first == 0 && width == 30 && ls == Finite(810) && le == Finite(869)
    requires RowSpan(rowStart, rowEnd, first, width, 24, ls, le)
    ensures rowStart == 29 && rowEnd == 31
  {
    assert !NoRowHits(0, 30, 24, ls, le) by {
      assert 27 * 30 < 24 * 60 && RowHits(27, 30, ls, le);
    }
    var s := rowStart - 2;
    assert IsFirstHit(s, 0, 30, 24, ls, le);
    assert 27 <= s <= 28;
    assert 0 <= 27 < s ==> !RowHits(27, 30, ls, le);
    assert RowHits(28, 30, ls, le) && !RowHits(29, 30, ls, le);
    var e := rowEnd - 2;
    assert IsSpanEnd(27, e, 30, 24, ls, le);
    assert 27 < 29 < e ==> RowHits(29, 30, ls, le);
    assert e == 28 ==> e * 30 < 24 * 60 && RowHits(e, 30, ls, le);
  }

  /**
   * `LessonRows` on the sample lesson, 30-minute rows from midnight to
   * midnight: grid lines 29 to 31.
   */
  method SampleLessonRows() returns (rowStart: int, rowEnd: int)
    ensures rowStart == 29 && rowEnd == 31
  {
    var startTime, endTime := Utc(1756560600000), Utc(1756564199000);
    SampleLessonMinutes();
    rowStart, rowEnd := LessonRows(startTime, endTime, 0, 30, 0, 24);
    SampleRowsForced(rowStart, rowEnd, FirstRowId(0, Width(0, 30)), Width(0, 30),
      LessonMinutes(ParseWithoutTimezone(startTime)), LessonMinutes(ParseWithoutTimezone(endTime)));
  }

  /**
   * The same lesson in a week view starting 2025-08-25 (day 20325) lands in
   * column 7, the sixth visible day; in a 3-day view from then it is hidden.
   */
  method SampleLessonColumn() returns (inWeek: int, inThreeDays: int)
    ensures inWeek == 7 && inThreeDays == -1
  {
    var startTime := Utc(1756560600000);
    assert ParseWithoutTimezone(startTime) == Date(TimePoint(20330, 13, 30, 0)) by {
      ParseRecoversUtcFields(TimePoint(20330, 13, 30, 0), 0);
    }
    DayOfNormal(Midnight(20325));
    inWeek := LessonColumn(startTime, Midnight(20325), DaysCount("week"));
    inThreeDays := LessonColumn(startTime, Midnight(20325), DaysCount("3days"));
  }
}
