/**
 * Wall-clock dates. A calendar day is an integer day number (days since
 * 1970-01-01); a local Date is a field tuple on that day. The host time zone
 * is taken to have no daylight-saving shifts, so local Date arithmetic is the
 * plain carry arithmetic of `Seconds`.
 */
module WallClock {
  import opened JsMath

  const SecondsPerDay := 86400

  /** Local Date fields: day number, hours, minutes, seconds. */
  datatype TimePoint = TimePoint(day: int, hour: int, minute: int, second: int)

  /**
   * The time value, in seconds, of `new Date(y, mo, d, h, mi, s)`: fields
   * outside their range carry into the next one (hour 24 is midnight of the
   * next day, minute 60 the next hour).
   */
  function Seconds(p: TimePoint): int {
    ((p.day * 24 + p.hour) * 60 + p.minute) * 60 + p.second
  }

  /** Fields as a Date reports them back: every one within its range. */
  predicate Normal(p: TimePoint) {
    0 <= p.hour < 24 && 0 <= p.minute < 60 && 0 <= p.second < 60
  }

  /** Midnight of a day: a date with its time zeroed (`setHours(0, 0, 0, 0)`). */
  function Midnight(day: int): TimePoint {
    TimePoint(day, 0, 0, 0)
  }

  /** The calendar day a (possibly un-normalised) local Date falls on. */
  function DayOf(p: TimePoint): (d: int)
    ensures Seconds(Midnight(d)) <= Seconds(p) < Seconds(Midnight(d)) + SecondsPerDay
  {
    Seconds(p) / SecondsPerDay
  }

  /** A Date object: valid with its fields, or the Invalid Date. */
  datatype Date = Date(at: TimePoint) | InvalidDate

  /**
   * `getTime()`, in seconds: NaN on the Invalid Date. A date with in-range
   * fields counts whole days up to its own and the seconds of its time of day.
   */
  function GetTime(d: Date): (t: Num)
    ensures t.NaN? <==> d.InvalidDate?
    ensures d.Date? && Normal(d.at) ==>
              t.value / SecondsPerDay == d.at.day &&
              t.value % SecondsPerDay == (d.at.hour * 60 + d.at.minute) * 60 + d.at.second
  {
    if d.InvalidDate? then NaN
    else
      var r := (d.at.hour * 60 + d.at.minute) * 60 + d.at.second;
      assert Seconds(d.at) == d.at.day * SecondsPerDay + r;
      Finite(Seconds(d.at))
  }

  /**
   * An ISO-8601 timestamp string, reduced to what parsing it yields: its UTC
   * instant in milliseconds since the epoch, or a string `new Date` rejects.
   */
  datatype Stamp = Utc(millis: int) | Unparsable

  /**
   * `parseDateWithoutTimezone`: the UTC fields of the instant, down to whole
   * seconds, become the local fields of a new Date. An unparsable string gives
   * the Invalid Date (the validity test in the source never fires).
   */
  function ParseWithoutTimezone(s: Stamp): (d: Date)
    ensures s.Unparsable? <==> d.InvalidDate?
    ensures s.Utc? ==> Normal(d.at)
    ensures s.Utc? ==> Seconds(d.at) * 1000 <= s.millis < Seconds(d.at) * 1000 + 1000
  {
    match s
    case Unparsable => InvalidDate
    case Utc(ms) =>
      var secs := ms / 1000;
      var rem := secs % SecondsPerDay;
      var p := TimePoint(secs / SecondsPerDay, rem / 3600, rem % 3600 / 60, rem % 60);
      assert rem == (rem / 3600) * 3600 + (rem % 3600 / 60) * 60 + rem % 60;
      assert secs == p.day * SecondsPerDay + rem;
      Date(p)
  }

  /** Normal fields are determined by their time value. */
  lemma {:induction false} NormalFieldsUnique(p: TimePoint, q: TimePoint)
    requires Normal(p) && Normal(q) && Seconds(p) == Seconds(q)
    ensures p == q
  {
    var dp := p.hour * 3600 + p.minute * 60 + p.second;
    var dq := q.hour * 3600 + q.minute * 60 + q.second;
    assert 0 <= dp < SecondsPerDay && 0 <= dq < SecondsPerDay;
    assert Seconds(p) == p.day * SecondsPerDay + dp;
    assert Seconds(q) == q.day * SecondsPerDay + dq;
    assert (p.day - q.day) * SecondsPerDay == dq - dp;
    assert p.day == q.day;
    var mp, mq := p.minute * 60 + p.second, q.minute * 60 + q.second;
    assert (p.hour - q.hour) * 3600 == mq - mp && 0 <= mp < 3600 && 0 <= mq < 3600;
    assert p.hour == q.hour;
    assert (p.minute - q.minute) * 60 == q.second - p.second;
  }

  /**
   * Offset stripping round-trips: a timestamp whose UTC fields are `p` parses to
   * a Date whose local fields are exactly `p`, whatever its milliseconds.
   */
  lemma ParseRecoversUtcFields(p: TimePoint, ms: int)
    requires Normal(p) && 0 <= ms < 1000
    ensures ParseWithoutTimezone(Utc(Seconds(p) * 1000 + ms)) == Date(p)
  {
    var d := ParseWithoutTimezone(Utc(Seconds(p) * 1000 + ms));
    assert Seconds(d.at) == Seconds(p);
    NormalFieldsUnique(d.at, p);
  }

  /** `parseDateWithoutTimezoneDateOnly`: the parsed Date with its time zeroed. */
  function ParseDateOnly(s: Stamp): (d: Date)
    ensures s.Unparsable? <==> d.InvalidDate?
    ensures s.Utc? ==> d.at == Midnight(ParseWithoutTimezone(s).at.day)
    ensures s.Utc? ==> Seconds(d.at) <= Seconds(ParseWithoutTimezone(s).at) < Seconds(d.at) + SecondsPerDay
  {
    match ParseWithoutTimezone(s)
    case InvalidDate => InvalidDate
    case Date(p) => Date(Midnight(p.day))
  }

  /** Two midnights have the same time value exactly when they are the same day. */
  lemma MidnightsEqual(d1: int, d2: int)
    ensures Seconds(Midnight(d1)) == Seconds(Midnight(d2)) <==> d1 == d2
  {
  }

  /** A normal Date lies on the day its day field names. */
  lemma DayOfNormal(p: TimePoint)
    requires Normal(p)
    ensures DayOf(p) == p.day
  {
    var r := p.hour * 3600 + p.minute * 60 + p.second;
    assert Seconds(p) == p.day * SecondsPerDay + r && 0 <= r < SecondsPerDay;
  }
}
