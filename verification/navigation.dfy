/**
 * The view navigator: how many days a view shows, calendar-day paging of the
 * visible start date, and the list of day offsets behind the day headers.
 */
module Navigation {
  import opened WallClock

  /**
   * `getDaysCount`: the view token's number of visible days. "day" and
   * "3days" have their own counts; "week" and every other token show 7.
   */
  function DaysCount(view: string): (n: int)
    ensures n == 1 <==> view == "day"
    ensures n == 3 <==> view == "3days"
    ensures n == 7 <==> view != "day" && view != "3days"
  {
    match view
    case "day" => 1
    case "3days" => 3
    case _ => 7
  }

  /**
   * `addDay`: the date with its time zeroed, moved by `days` calendar days.
   * Day arithmetic, not elapsed-time arithmetic: the result is a midnight.
   */
  function AddDay(date: TimePoint, days: int): (r: TimePoint)
    ensures Normal(r) && r == Midnight(r.day)
    ensures DayOf(r) == DayOf(date) + days
  {
    var r := Midnight(DayOf(date) + days);
    DayOfNormal(r);
    r
  }

  /** Moving by `a` days and then by `b` days is moving by `a + b` days. */
  lemma AddDayComposes(date: TimePoint, a: int, b: int)
    ensures AddDay(AddDay(date, a), b) == AddDay(date, a + b)
  {
  }

  /**
   * `navigation`: the new visible start after paging `direction` pages of the
   * view's day count.
   */
  function Navigate(dateStart: TimePoint, view: string, direction: int): (r: TimePoint)
    ensures r == Midnight(r.day)
    ensures DayOf(r) == DayOf(dateStart) + DaysCount(view) * direction
  {
    AddDay(dateStart, DaysCount(view) * direction)
  }

  /** Paging forward and then back returns to the start day, time zeroed. */
  lemma NavigateForwardThenBack(dateStart: TimePoint, view: string)
    requires Normal(dateStart)
    ensures Navigate(Navigate(dateStart, view, 1), view, -1) == Midnight(dateStart.day)
  {
    AddDayComposes(dateStart, DaysCount(view), -DaysCount(view));
    DayOfNormal(dateStart);
  }

  /** Paging forward in the week view advances the start by seven calendar days. */
  lemma WeekPageIsSevenDays(dateStart: TimePoint)
    requires Normal(dateStart)
    ensures Navigate(dateStart, "week", 1) == Midnight(dateStart.day + 7)
  {
    DayOfNormal(dateStart);
  }

  /** `generateNumbers`: the offsets 0, 1, ..., num - 1, in order. */
  method GenerateNumbers(num: int) returns (numbers: seq<int>)
    ensures |numbers| == if num > 0 then num else 0
    ensures forall i :: 0 <= i < |numbers| ==> numbers[i] == i
  {
    numbers := [];
    var i := 0;
    while i < num
      invariant 0 <= i <= (if num > 0 then num else 0)
      invariant |numbers| == i
      invariant forall j :: 0 <= j < i ==> numbers[j] == j
    {
      numbers := numbers + [i];
      i := i + 1;
    }
  }
}
