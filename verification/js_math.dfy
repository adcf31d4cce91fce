/**
 * The slice of JavaScript's number semantics that the calendar core relies on:
 * integer values, the NaN an invalid Date produces, comparisons that are false
 * whenever NaN is involved, and the `Math.min`, `Math.max` and `Math.ceil`
 * helpers on integer arguments.
 */
module JsMath {

  /** A JavaScript number as the core meets it: an integer, or NaN. */
  datatype Num = Finite(value: int) | NaN

  /** `a <= b`: false as soon as either side is NaN. */
  predicate Le(a: Num, b: Num) {
    a.Finite? && b.Finite? && a.value <= b.value
  }

  /** `a > b`: false as soon as either side is NaN. */
  predicate Gt(a: Num, b: Num) {
    a.Finite? && b.Finite? && a.value > b.value
  }

  /** `a === b`: NaN equals nothing, not even NaN. */
  predicate StrictEq(a: Num, b: Num) {
    a.Finite? && b.Finite? && a.value == b.value
  }

  function Min(a: int, b: int): int {
    if a <= b then a else b
  }

  function Max(a: int, b: int): int {
    if a >= b then a else b
  }

  /**
   * `Math.ceil(a / b)` for a positive divisor. Dafny's `/` rounds down here.
   * The rational quotient `a / b` lies in `(c - 1, c]`.
   */
  function CeilDiv(a: int, b: int): (c: int)
    requires b > 0
    ensures (c - 1) * b < a <= c * b
  {
    var q, r := (-a) / b, (-a) % b;
    assert -a == q * b + r && 0 <= r < b;
    assert (-q) * b == -(q * b);
    assert (-q - 1) * b == -(q * b) - b;
    -q
  }

  /** Those bounds determine the quotient. */
  lemma CeilDivUnique(a: int, b: int, c: int)
    requires b > 0
    requires (c - 1) * b < a <= c * b
    ensures c == CeilDiv(a, b)
  {
    var d := CeilDiv(a, b);
    if c < d {
      MulMonotone(c, d - 1, b);
    } else if d < c {
      MulMonotone(d, c - 1, b);
    }
  }

  /** A multiple of `b` divides exactly. */
  lemma CeilDivExact(q: int, b: int)
    requires b > 0
    ensures CeilDiv(q * b, b) == q
  {
    assert (q - 1) * b == q * b - b;
    CeilDivUnique(q * b, b, q);
  }

  lemma MulMonotone(x: int, y: int, b: int)
    requires b > 0 && x <= y
    ensures x * b <= y * b
  {
    assert y * b - x * b == (y - x) * b;
  }
}
