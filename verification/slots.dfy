/**
 * The slot generator: the rows of the grid for one day, the number of rows the
 * grid reserves for them, and the split of the chosen interval (in minutes)
 * into the hour and minute granularity both of them take.
 */
module Slots {
  import opened JsMath

  /** A slot's tag: the source's 'na' until marking finds a window, then 'available'. */
  datatype SlotType = Na | Available

  /** One row candidate of one day; `date` is the day number. */
  datatype Slot = Slot(
    intervalId: int,
    slotType: SlotType,
    date: int,
    hourStart: int,
    minuteStart: int,
    hourEnd: int,
    minuteEnd: int)

  const MinutesPerDay := 1440

  /** Start of a slot, in minutes of its day. */
  function StartMinutes(s: Slot): int {
    s.hourStart * 60 + s.minuteStart
  }

  /** End of a slot, in minutes of its day (hour 24 and minute 60 carry). */
  function EndMinutes(s: Slot): int {
    s.hourEnd * 60 + s.minuteEnd
  }

  /** A row's duration in minutes. */
  function Width(hourInterval: int, minuteInterval: int): int {
    hourInterval * 60 + minuteInterval
  }

  /** Start, in minutes of the day, of the `k`-th row from `hourStart`:00. */
  function RowStart(hourStart: int, width: int, k: int): int {
    hourStart * 60 + k * width
  }

  /** The granularities the interval menu can produce (see `SplitInterval`). */
  predicate ValidGranularity(hourInterval: int, minuteInterval: int) {
    hourInterval >= 0 && 0 <= minuteInterval < 60
  }

  /**
   * `handleIntervalChange`: a whole number of minutes split into whole hours
   * (rounded down) and the minutes left over.
   */
  function SplitInterval(value: int): (g: (int, int))
    ensures g.0 * 60 + g.1 == value
    ensures 0 <= g.1 < 60
    ensures value >= 0 ==> ValidGranularity(g.0, g.1)
  {
    var hours := value / 60;
    (hours, value - hours * 60)
  }

  /**
   * What the `k`-th slot of a non-degenerate run is: its id is `k`, it is
   * untagged, it lies on `day`, it starts `k` widths after `hourStart`:00 with
   * its minute below 60, and it ends one width later, clipped at 24:00, with
   * its end hour never above 24 and a zero end minute at 24. The end minute
   * is 60, rather than carried into the hour, exactly when the start minute and
   * `minuteInterval` add up to 60 and one width after the start is not past
   * 24:00.
   */
  predicate IsRow(s: Slot, k: int, day: int, hourStart: int, hourInterval: int, minuteInterval: int)
  {
    var width := Width(hourInterval, minuteInterval);
    && s.intervalId == k
    && s.slotType == Na
    && s.date == day
    && StartMinutes(s) == RowStart(hourStart, width, k)
    && 0 <= s.minuteStart < 60
    && EndMinutes(s) == Min(MinutesPerDay, StartMinutes(s) + width)
    && s.hourEnd <= 24
    && 0 <= s.minuteEnd <= 60
    && (s.hourEnd == 24 ==> s.minuteEnd == 0)
    && (s.minuteEnd == 60 <==>
          StartMinutes(s) + width <= MinutesPerDay && s.minuteStart + minuteInterval == 60)
  }

  /**
   * The number of rows a non-degenerate run emits: every start below
   * `hourEnd`*60 - 1.
   */
  function SlotCount(hourStart: int, hourEnd: int, width: int): (n: int)
    requires width > 0
    ensures n >= 0
  {
    var limit := hourEnd * 60 - 1;
    if hourStart * 60 < limit then CeilDiv(limit - hourStart * 60, width) else 0
  }

  /** The run stops at the first start that reaches `hourEnd`*60 - 1. */
  lemma {:induction false} SlotCountIsFirstStartPastEnd(hourStart: int, hourEnd: int, width: int, n: int)
    requires width > 0 && n >= 0
    requires n == 0 || RowStart(hourStart, width, n - 1) < hourEnd * 60 - 1
    requires RowStart(hourStart, width, n) >= hourEnd * 60 - 1
    ensures n == SlotCount(hourStart, hourEnd, width)
  {
    var limit := hourEnd * 60 - 1;
    if n == 0 {
      assert hourStart * 60 >= limit;
    } else {
      assert (n - 1) * width < limit - hourStart * 60 <= n * width;
      CeilDivUnique(limit - hourStart * 60, width, n);
    }
  }

  /**
   * The end hour and minute `generateTimeSlots` gives the slot starting at
   * `hourCurrent`:`minuteCurrent`: one width later, clipped at 24:00. The
   * minute carries into the hour only past 60, so 60 is a possible end minute.
   */
  function SlotEnd(hourCurrent: int, minuteCurrent: int, hourInterval: int, minuteInterval: int): (end: (int, int))
    requires ValidGranularity(hourInterval, minuteInterval) && 0 <= minuteCurrent < 60
    ensures end.0 * 60 + end.1 == Min(MinutesPerDay, hourCurrent * 60 + minuteCurrent + Width(hourInterval, minuteInterval))
    ensures end.0 <= 24 && 0 <= end.1 <= 60
    ensures end.0 == 24 ==> end.1 == 0
    ensures end.1 == 60 <==>
              hourCurrent * 60 + minuteCurrent + Width(hourInterval, minuteInterval) <= MinutesPerDay &&
              minuteCurrent + minuteInterval == 60
  {
    var carry := minuteCurrent + minuteInterval > 60;
    var hourEnd := Min(24, hourCurrent + hourInterval + (if carry then 1 else 0));
    var minuteEnd := if hourEnd < 24 then minuteCurrent + minuteInterval - (if carry then 60 else 0) else 0;
    (hourEnd, minuteEnd)
  }

  /**
   * `generateTimeSlots`: with no granularity, one whole-day slot 0:00-24:00;
   * otherwise the rows from `hourStart`:00 in steps of the width, while the
   * start stays below `hourEnd`*60 - 1.
   */
  method GenerateTimeSlots(hourInterval: int, minuteInterval: int, day: int, hourStart: int, hourEnd: int)
    returns (slots: seq<Slot>)
    requires ValidGranularity(hourInterval, minuteInterval)
    ensures hourInterval == 0 && minuteInterval == 0 ==> slots == [Slot(0, Na, day, 0, 0, 24, 0)]
    ensures Width(hourInterval, minuteInterval) > 0 ==>
      && |slots| == SlotCount(hourStart, hourEnd, Width(hourInterval, minuteInterval))
      && (forall k :: 0 <= k < |slots| ==>
            IsRow(slots[k], k, day, hourStart, hourInterval, minuteInterval) &&
            StartMinutes(slots[k]) < hourEnd * 60 - 1)
  {
    slots := [];
    var hourCurrent := hourStart;
    var minuteCurrent := 0;
    var counter := 0;
    if hourInterval == 0 && minuteInterval == 0 {
      return [Slot(0, Na, day, 0, 0, 24, 0)];
    }
    ghost var width := Width(hourInterval, minuteInterval);
    while hourCurrent * 60 + minuteCurrent < hourEnd * 60 - 1
      invariant counter == |slots|
      invariant 0 <= minuteCurrent < 60
      invariant hourCurrent * 60 + minuteCurrent == RowStart(hourStart, width, counter)
      invariant counter == 0 || RowStart(hourStart, width, counter - 1) < hourEnd * 60 - 1
      invariant forall k :: 0 <= k < counter ==>
        IsRow(slots[k], k, day, hourStart, hourInterval, minuteInterval) && StartMinutes(slots[k]) < hourEnd * 60 - 1
      decreases hourEnd * 60 - (hourCurrent * 60 + minuteCurrent)
    {
      var (slotHourEnd, slotMinuteEnd) := SlotEnd(hourCurrent, minuteCurrent, hourInterval, minuteInterval);
      slots := slots + [Slot(counter, Na, day, hourCurrent, minuteCurrent, slotHourEnd, slotMinuteEnd)];
      counter := counter + 1;
      minuteCurrent := minuteCurrent + minuteInterval;
      if minuteCurrent >= 60 {
        minuteCurrent := minuteCurrent - 60;
        hourCurrent := hourCurrent + 1;
      }
      hourCurrent := hourCurrent + hourInterval;
      assert RowStart(hourStart, width, counter) == RowStart(hourStart, width, counter - 1) + width;
    }
    SlotCountIsFirstStartPastEnd(hourStart, hourEnd, width, counter);
  }

  /**
   * `getRowsCount`: at least one row; with a positive width, the fewest rows
   * of that width that cover `hourStart`..`hourEnd`.
   */
  function RowsCount(hourInterval: int, minuteInterval: int, hourStart: int, hourEnd: int): (r: int)
    ensures r >= 1
    ensures Width(hourInterval, minuteInterval) <= 0 ==> r == 1
    ensures Width(hourInterval, minuteInterval) > 0 && hourEnd <= hourStart ==> r == 1
    ensures Width(hourInterval, minuteInterval) > 0 && hourEnd > hourStart ==>
      var w := Width(hourInterval, minuteInterval);
      (r - 1) * w < (hourEnd - hourStart) * 60 <= r * w
  {
    var w := hourInterval * 60 + minuteInterval;
    if w > 0 then
      if hourEnd <= hourStart then
        assert CeilDiv((hourEnd - hourStart) * 60, w) <= 0 by {
          if CeilDiv((hourEnd - hourStart) * 60, w) > 0 {
            MulMonotone(1, CeilDiv((hourEnd - hourStart) * 60, w), w);
            MulMonotone(0, CeilDiv((hourEnd - hourStart) * 60, w) - 1, w);
          }
        }
        Max(1, CeilDiv((hourEnd - hourStart) * 60, w))
      else
        assert CeilDiv((hourEnd - hourStart) * 60, w) >= 1 by {
          if CeilDiv((hourEnd - hourStart) * 60, w) < 1 {
            MulMonotone(CeilDiv((hourEnd - hourStart) * 60, w), 0, w);
          }
        }
        Max(1, CeilDiv((hourEnd - hourStart) * 60, w))
    else
      1
  }

  /**
   * The grid reserves as many rows as the generator emits slots whenever the
   * width is at least two minutes and divides the hour range, and in the
   * single whole-day mode.
   */
  lemma {:induction false} RowsCountMatchesSlotCount(hourInterval: int, minuteInterval: int, hourStart: int, hourEnd: int)
    requires ValidGranularity(hourInterval, minuteInterval)
    requires hourStart < hourEnd
    requires Width(hourInterval, minuteInterval) >= 2
    requires ((hourEnd - hourStart) * 60) % Width(hourInterval, minuteInterval) == 0
    ensures RowsCount(hourInterval, minuteInterval, hourStart, hourEnd)
         == SlotCount(hourStart, hourEnd, Width(hourInterval, minuteInterval))
  {
    var w := Width(hourInterval, minuteInterval);
    var span := (hourEnd - hourStart) * 60;
    var q := span / w;
    assert span == q * w;
    assert q >= 1 by {
      if q < 1 { MulMonotone(q, 0, w); }
    }
    CeilDivExact(q, w);
    assert RowsCount(hourInterval, minuteInterval, hourStart, hourEnd) == q;
    assert (q - 1) * w == q * w - w;
    CeilDivUnique(span - 1, w, q);
  }

  /**
   * With a one-minute width the two disagree: hour 0..1 reserves 60 rows, but
   * the start 0:59 is not below 60 - 1, so only 59 slots are emitted.
   */
  lemma OneMinuteWidthLeavesAnEmptyRow()
    ensures RowsCount(0, 1, 0, 1) == 60
    ensures SlotCount(0, 1, Width(0, 1)) == 59
  {
  }

  /** The whole-day mode reserves one row for its one slot. */
  lemma ZeroGranularityHasOneRow(hourStart: int, hourEnd: int)
    ensures RowsCount(0, 0, hourStart, hourEnd) == 1
  {
  }

  /**
   * A menu choice of `value` minutes gives a valid granularity whose width
   * divides an hour.
   */
  predicate DividesAnHour(value: int) {
    var g := SplitInterval(value);
    ValidGranularity(g.0, g.1) && Width(g.0, g.1) == value && value > 0 && 60 % value == 0
  }

  /** Every choice of the interval menu (60, 30, 15, 10 and 5 minutes) divides an hour. */
  lemma MenuIntervalsDivideAnHour()
    ensures DividesAnHour(60) && DividesAnHour(30) && DividesAnHour(15)
    ensures DividesAnHour(10) && DividesAnHour(5)
  {
    assert SplitInterval(60) == (1, 0);
    assert SplitInterval(30) == (0, 30);
    assert SplitInterval(15) == (0, 15);
    assert SplitInterval(10) == (0, 10);
    assert SplitInterval(5) == (0, 5);
  }

  /**
   * The example of a working day: 9 to 17 at 60 minutes gives eight slots,
   * the first from 9:00 to 10:00 and the last from 16:00 to 17:00.
   */
  method WorkdaySlots(day: int) returns (slots: seq<Slot>)
    ensures |slots| == 8
    ensures slots[0].hourStart == 9 && slots[0].minuteStart == 0
    ensures slots[7].hourStart == 16 && slots[7].hourEnd == 17 && slots[7].minuteEnd == 0
    ensures forall k :: 0 <= k < 8 ==> EndMinutes(slots[k]) - StartMinutes(slots[k]) == 60
  {
    slots := GenerateTimeSlots(1, 0, day, 9, 17);
    assert SlotCount(9, 17, 60) == 8;
    assert IsRow(slots[0], 0, day, 9, 1, 0);
    assert IsRow(slots[7], 7, day, 9, 1, 0);
  }

  /**
   * Minute 60 is a possible end minute: at a 30-minute width the 0:30 slot
   * ends at hour 0, minute 60, because the end carries only past 60, and so
   * does the last slot of the day, 23:30, whose end reaches 24:00 exactly.
   */
  lemma HalfHourSlotEndsAtMinuteSixty()
    ensures SlotEnd(0, 30, 0, 30) == (0, 60)
    ensures SlotEnd(23, 30, 0, 30) == (23, 60)
  {
  }
}
