/**
 * The half-open interval intersection rule shared by `dateIntersect` (on Date
 * time values) and `minutesIntersect` (on minutes of the day). Both take
 * JavaScript numbers, so an invalid Date reaches them as NaN.
 */
module Intervals {
  import opened JsMath

  /**
   * `dateIntersect` / `minutesIntersect`: A = [aStart, aEnd) and
   * B = [bStart, bEnd) intersect when one starts inside the other.
   */
  predicate Intersect(aStart: Num, aEnd: Num, bStart: Num, bEnd: Num): (r: bool)
    // A NaN start never intersects anything.
    ensures r ==> aStart.Finite? && bStart.Finite?
    // On non-empty finite intervals this is the usual overlap test.
    ensures aStart.Finite? && aEnd.Finite? && bStart.Finite? && bEnd.Finite? &&
            aStart.value < aEnd.value && bStart.value < bEnd.value ==>
              (r <==> Max(aStart.value, bStart.value) < Min(aEnd.value, bEnd.value))
  {
    || (Le(aStart, bStart) && Gt(aEnd, bStart))
    || (Le(bStart, aStart) && Gt(bEnd, aStart))
  }

  /** The rule is symmetric, whatever the operands, NaN included. */
  lemma IntersectSymmetric(aStart: Num, aEnd: Num, bStart: Num, bEnd: Num)
    ensures Intersect(aStart, aEnd, bStart, bEnd) == Intersect(bStart, bEnd, aStart, aEnd)
  {
  }

  /**
   * Intervals that only touch do not intersect: a non-empty [s, t) and a
   * [t, u) that starts where it ends, in either order.
   */
  lemma TouchingIntervalsDoNotIntersect(s: int, t: int, u: int)
    requires s < t
    ensures !Intersect(Finite(s), Finite(t), Finite(t), Finite(u))
    ensures !Intersect(Finite(t), Finite(u), Finite(s), Finite(t))
  {
  }

  /**
   * Only the end of the interval that starts first matters: an invalid end of
   * the later-starting interval does not stop an intersection.
   */
  lemma NaNEndOfLaterIntervalIsIgnored(aStart: int, aEnd: int, bStart: int)
    requires aStart <= bStart < aEnd
    ensures Intersect(Finite(aStart), Finite(aEnd), Finite(bStart), NaN)
  {
  }
}
