/**
 * The availability marker and the selection of one grid row's cells: tagging
 * slots that some schedule window intersects, then picking the slots of one
 * start time across the visible days and ordering them by day.
 */
module Marking {
  import opened JsMath
  import opened Intervals
  import opened WallClock
  import opened Slots
  import opened Navigation

  /** An availability window, as its two ISO timestamps. */
  datatype ScheduleElement = ScheduleElement(startTime: Stamp, endTime: Stamp)

  /**
   * The local Date built from a slot's day and its start fields: its time
   * value is the day's midnight plus the start minutes, whether or not the
   * fields are in range.
   */
  function SlotStartDate(s: Slot): (p: TimePoint)
    ensures Seconds(p) == Seconds(Midnight(s.date)) + (s.hourStart * 60 + s.minuteStart) * 60
  {
    TimePoint(s.date, s.hourStart, s.minuteStart, 0)
  }

  /**
   * The local Date built from a slot's day and its end fields, so that an end
   * of 23:60 or 24:00 lands on the next midnight.
   */
  function SlotEndDate(s: Slot): (p: TimePoint)
    ensures Seconds(p) == Seconds(Midnight(s.date)) + (s.hourEnd * 60 + s.minuteEnd) * 60
  {
    TimePoint(s.date, s.hourEnd, s.minuteEnd, 0)
  }

  /**
   * One test of the marking loop: the window, both ends parsed without their
   * time zone, intersects the slot's [start, end) on the same wall clock. A
   * window with an unparsable start covers nothing; between non-empty parsed
   * intervals this is overlap on the wall clock, in seconds.
   */
  predicate Covers(window: ScheduleElement, s: Slot): (r: bool)
    ensures r ==> window.startTime.Utc?
    ensures window.startTime.Utc? && window.endTime.Utc? ==>
      var ws, we := Seconds(ParseWithoutTimezone(window.startTime).at), Seconds(ParseWithoutTimezone(window.endTime).at);
      var ss, se := Seconds(SlotStartDate(s)), Seconds(SlotEndDate(s));
      ws < we && ss < se ==> (r <==> Max(ws, ss) < Min(we, se))
  {
    Intersect(
      GetTime(ParseWithoutTimezone(window.startTime)),
      GetTime(ParseWithoutTimezone(window.endTime)),
      Finite(Seconds(SlotStartDate(s))),
      Finite(Seconds(SlotEndDate(s))))
  }

  /** Some window of the schedule intersects the slot. */
  predicate Bookable(s: Slot, schedule: seq<ScheduleElement>) {
    exists i :: 0 <= i < |schedule| && Covers(schedule[i], s)
  }

  /**
   * The slot as marking leaves it: tagged available when bookable, otherwise
   * as it was. Marking changes the tag and nothing else.
   */
  function Marked(s: Slot, schedule: seq<ScheduleElement>): (m: Slot)
    ensures m.(slotType := s.slotType) == s
    ensures m.slotType == Available <==> Bookable(s, schedule) || s.slotType == Available
  {
    if Bookable(s, schedule) then s.(slotType := Available) else s
  }

  /**
   * The inner loop of `markSlots`: scan the windows in order and stop at the
   * first one that intersects the slot.
   */
  method FindCoveringWindow(s: Slot, schedule: seq<ScheduleElement>) returns (marked: bool)
    ensures marked <==> Bookable(s, schedule)
  {
    marked := false;
    var i := 0;
    while !marked && i < |schedule|
      invariant 0 <= i <= |schedule|
      invariant marked <==> i > 0 && Covers(schedule[i - 1], s)
      invariant forall j :: 0 <= j < i - 1 ==> !Covers(schedule[j], s)
      invariant !marked ==> forall j :: 0 <= j < i ==> !Covers(schedule[j], s)
    {
      if Covers(schedule[i], s) {
        marked := true;
      }
      i := i + 1;
    }
  }

  /**
   * `markSlots`: every slot that some window intersects is tagged available,
   * in place; no other field and no other slot changes, and neither does the
   * order or the number of slots.
   */
  method MarkSlots(slots: array<Slot>, schedule: seq<ScheduleElement>)
    modifies slots
    ensures forall k :: 0 <= k < slots.Length ==> slots[k] == Marked(old(slots[k]), schedule)
  {
    var k := 0;
    while k < slots.Length
      invariant 0 <= k <= slots.Length
      invariant forall j :: 0 <= j < k ==> slots[j] == Marked(old(slots[j]), schedule)
      invariant forall j :: k <= j < slots.Length ==> slots[j] == old(slots[j])
    {
      var marked := FindCoveringWindow(slots[k], schedule);
      if marked {
        slots[k] := slots[k].(slotType := Available);
      }
      k := k + 1;
    }
  }

  /**
   * A slot that ends exactly when a window begins is not covered by it, on
   * the wall clock of the window's own day.
   */
  lemma SlotEndingAtWindowStartIsNotCovered(window: ScheduleElement, s: Slot)
    requires window.startTime.Utc?
    requires Seconds(SlotStartDate(s)) < Seconds(SlotEndDate(s))
    requires Seconds(ParseWithoutTimezone(window.startTime).at) == Seconds(SlotEndDate(s))
    ensures !Covers(window, s)
  {
  }

  /** A window whose start cannot be parsed covers no slot. */
  lemma UnparsableStartCoversNothing(window: ScheduleElement, s: Slot)
    requires window.startTime.Unparsable?
    ensures !Covers(window, s)
  {
  }

  /**
   * The first sample window, 2025-08-23T22:30:00Z to 2025-08-24T02:29:59Z
   * (day 20323 is 2025-08-23), marks the 22:30-23:00 slot of 2025-08-23 and
   * the 2:00-2:30 slot of the next day, but not 22:00-22:30 nor 2:30-3:00.
   * The slots are the ones a 30-minute run generates (ending at minute 60
   * where the start minute is 30).
   */
  lemma SampleWindowMarksHalfHours()
    ensures Covers(SampleWindow(), Slot(45, Na, 20323, 22, 30, 22, 60))
    ensures !Covers(SampleWindow(), Slot(44, Na, 20323, 22, 0, 22, 30))
    ensures Covers(SampleWindow(), Slot(4, Na, 20324, 2, 0, 2, 30))
    ensures !Covers(SampleWindow(), Slot(5, Na, 20324, 2, 30, 2, 60))
  {
    var w := SampleWindow();
    assert ParseWithoutTimezone(w.startTime) == Date(TimePoint(20323, 22, 30, 0)) by {
      ParseRecoversUtcFields(TimePoint(20323, 22, 30, 0), 0);
    }
    assert ParseWithoutTimezone(w.endTime) == Date(TimePoint(20324, 2, 29, 59)) by {
      ParseRecoversUtcFields(TimePoint(20324, 2, 29, 59), 0);
    }
  }

  /** The first availability window of the sample data. */
  function SampleWindow(): ScheduleElement {
    ScheduleElement(Utc(1755988200000), Utc(1756002599000))
  }

  // ---- Selecting one row of cells -------------------------------------------

  /**
   * The filter of `getSlotsRow`: the slot starts at `hour`:`minute` and its day
   * lies from the first visible day up to and including `addDay(date, days)`.
   */
  predicate InRow(s: Slot, date: TimePoint, days: int, hour: int, minute: int): (r: bool)
    ensures r <==> s.hourStart == hour && s.minuteStart == minute && 0 <= s.date - DayOf(date) <= days
  {
    && s.hourStart == hour
    && s.minuteStart == minute
    && s.date >= DayOf(date)
    && s.date <= DayOf(AddDay(date, days))
  }

  /**
   * The slots that pass the filter, in their original order: each passing
   * slot as often as it occurs, and no other.
   */
  function RowCells(slots: seq<Slot>, date: TimePoint, days: int, hour: int, minute: int): (cells: seq<Slot>)
    ensures forall s :: s in cells <==> s in slots && InRow(s, date, days, hour, minute)
    ensures forall s :: multiset(cells)[s] == if InRow(s, date, days, hour, minute) then multiset(slots)[s] else 0
    ensures |cells| <= |slots|
  {
    if slots == [] then []
    else
      var rest := RowCells(slots[..|slots| - 1], date, days, hour, minute);
      var last := slots[|slots| - 1];
      assert slots == slots[..|slots| - 1] + [last];
      if InRow(last, date, days, hour, minute) then rest + [last] else rest
  }

  /** Ordered by day, earliest first. */
  predicate SortedByDay(s: seq<Slot>) {
    forall i, j :: 0 <= i < j < |s| ==> s[i].date <= s[j].date
  }

  /** The slots of `s` that lie on day `d`, in order. */
  function OnDay(s: seq<Slot>, d: int): seq<Slot> {
    if s == [] then []
    else if s[|s| - 1].date == d then OnDay(s[..|s| - 1], d) + [s[|s| - 1]]
    else OnDay(s[..|s| - 1], d)
  }

  /** Insert `x` after every element of `sorted` on the same day or earlier. */
  function InsertByDay(x: Slot, sorted: seq<Slot>): seq<Slot> {
    if sorted == [] || sorted[|sorted| - 1].date <= x.date then sorted + [x]
    else InsertByDay(x, sorted[..|sorted| - 1]) + [sorted[|sorted| - 1]]
  }

  /**
   * The `sort` of `getSlotsRow`: ascending by day and stable, as JavaScript's
   * `Array.prototype.sort` is. The result is ordered by day and holds the
   * same slots, each as often.
   */
  function SortByDay(s: seq<Slot>): (sorted: seq<Slot>)
    ensures SortedByDay(sorted)
    ensures multiset(sorted) == multiset(s)
  {
    if s == [] then []
    else
      var init, x := s[..|s| - 1], s[|s| - 1];
      assert s == init + [x];
      InsertByDaySorted(x, SortByDay(init));
      InsertByDayMultiset(x, SortByDay(init));
      InsertByDay(x, SortByDay(init))
  }

  /**
   * `getSlotsRow`: the cells of one row, left to right by day; a permutation
   * of the slots that pass the filter.
   */
  function SlotsRow(slots: seq<Slot>, date: TimePoint, days: int, hour: int, minute: int): (row: seq<Slot>)
    ensures SortedByDay(row)
    ensures multiset(row) == multiset(RowCells(slots, date, days, hour, minute))
  {
    SortByDay(RowCells(slots, date, days, hour, minute))
  }

  lemma {:induction false} InsertByDayMultiset(x: Slot, sorted: seq<Slot>)
    ensures multiset(InsertByDay(x, sorted)) == multiset(sorted) + multiset{x}
  {
    if !(sorted == [] || sorted[|sorted| - 1].date <= x.date) {
      var init, y := sorted[..|sorted| - 1], sorted[|sorted| - 1];
      assert sorted == init + [y];
      InsertByDayMultiset(x, init);
    }
  }

  lemma {:induction false} InsertByDaySorted(x: Slot, sorted: seq<Slot>)
    requires SortedByDay(sorted)
    ensures SortedByDay(InsertByDay(x, sorted))
  {
    var r := InsertByDay(x, sorted);
    if !(sorted == [] || sorted[|sorted| - 1].date <= x.date) {
      var init, y := sorted[..|sorted| - 1], sorted[|sorted| - 1];
      assert sorted == init + [y];
      InsertByDaySorted(x, init);
      InsertByDayMultiset(x, init);
      var r' := InsertByDay(x, init);
      assert r == r' + [y];
      forall i | 0 <= i < |r'| ensures r'[i].date <= y.date {
        assert r'[i] in multiset(init) + multiset{x};
        if r'[i] != x {
          var t :| 0 <= t < |init| && init[t] == r'[i];
          assert sorted[t] == init[t];
        }
      }
    }
  }

  lemma {:induction false} InsertByDayOnDay(x: Slot, sorted: seq<Slot>, d: int)
    ensures OnDay(InsertByDay(x, sorted), d) ==
              if x.date == d then OnDay(sorted, d) + [x] else OnDay(sorted, d)
  {
    var r := InsertByDay(x, sorted);
    if sorted == [] || sorted[|sorted| - 1].date <= x.date {
      assert r[..|r| - 1] == sorted;
    } else {
      var init, y := sorted[..|sorted| - 1], sorted[|sorted| - 1];
      assert sorted == init + [y];
      InsertByDayOnDay(x, init, d);
      assert r[..|r| - 1] == InsertByDay(x, init);
    }
  }

  /** Sorting is stable: it keeps each day's slots in their input order. */
  lemma {:induction false} SortByDayIsStable(s: seq<Slot>)
    ensures forall d :: OnDay(SortByDay(s), d) == OnDay(s, d)
  {
    if s != [] {
      var init, x := s[..|s| - 1], s[|s| - 1];
      assert s == init + [x];
      SortByDayIsStable(init);
      forall d ensures OnDay(SortByDay(s), d) == OnDay(s, d) {
        InsertByDayOnDay(x, SortByDay(init), d);
      }
    }
  }

  /** Filtering commutes with taking one day's slots. */
  lemma {:induction false} FilterOnDay(slots: seq<Slot>, date: TimePoint, days: int, hour: int, minute: int, d: int)
    ensures OnDay(RowCells(slots, date, days, hour, minute), d) ==
            RowCells(OnDay(slots, d), date, days, hour, minute)
  {
    if slots != [] {
      var init, x := slots[..|slots| - 1], slots[|slots| - 1];
      FilterOnDay(init, date, days, hour, minute, d);
      var rest := RowCells(init, date, days, hour, minute);
      if InRow(x, date, days, hour, minute) {
        assert (rest + [x])[..|rest + [x]| - 1] == rest;
      }
      if x.date == d {
        var onDay := OnDay(init, d);
        assert (onDay + [x])[..|onDay + [x]| - 1] == onDay;
      }
    }
  }

  /**
   * The row's cells are exactly the slots that pass the filter, with the
   * slots of each day in their original order: one day's cells are that
   * day's input slots, filtered.
   */
  lemma SlotsRowIsSortedSelection(slots: seq<Slot>, date: TimePoint, days: int, hour: int, minute: int)
    ensures forall s :: s in SlotsRow(slots, date, days, hour, minute) <==>
              s in slots && InRow(s, date, days, hour, minute)
    ensures forall d :: OnDay(SlotsRow(slots, date, days, hour, minute), d) ==
              OnDay(RowCells(slots, date, days, hour, minute), d)
    ensures forall d :: OnDay(SlotsRow(slots, date, days, hour, minute), d) ==
              RowCells(OnDay(slots, d), date, days, hour, minute)
  {
    var cells := RowCells(slots, date, days, hour, minute);
    SortByDayIsStable(cells);
    forall d ensures OnDay(cells, d) == RowCells(OnDay(slots, d), date, days, hour, minute) {
      FilterOnDay(slots, date, days, hour, minute, d);
    }
    forall s ensures s in SlotsRow(slots, date, days, hour, minute) <==> s in cells {
      assert s in SortByDay(cells) <==> s in multiset(SortByDay(cells));
    }
  }

  /**
   * The filter's upper bound is inclusive: a slot on day `date + days`, one
   * past the last visible day, is still selected.
   */
  lemma RowIncludesDayAfterLastVisible(s: Slot, date: TimePoint, days: int)
    requires days >= 0
    requires s.date == DayOf(date) + days
    ensures InRow(s, date, days, s.hourStart, s.minuteStart)
  {
  }
}
