/** Python's `round(x, 2)` and `round(x, 4)`, taken over exact reals: the
    nearest multiple of 0.01 (or 0.0001), ties going to the even multiple. */
module Rounding {

  /** The integer nearest to `y`; a tie goes to the even neighbour. */
  function RoundHalfEven(y: real): (n: int)
    ensures -0.5 <= n as real - y <= 0.5
    ensures n as real - y == 0.5 || y - n as real == 0.5 ==> n % 2 == 0
    ensures y.Floor as real == y ==> n as real == y
  {
    var f := y.Floor;
    var gap := y - f as real;
    if gap < 0.5 then f else if gap > 0.5 then f + 1 else if f % 2 == 0 then f else f + 1
  }

  /** A value less than half from a whole number rounds to it. */
  lemma RoundHalfEvenNear(y: real, k: int)
    requires -0.5 < y - k as real < 0.5
    ensures RoundHalfEven(y) == k
  {
  }

  /** `x` is a whole number of cents. */
  predicate OnCents(x: real) {
    (x * 100.0).Floor as real == x * 100.0
  }

  /** `x` is a whole number of units of 0.0001. */
  predicate OnTenThousandths(x: real) {
    (x * 10000.0).Floor as real == x * 10000.0
  }

  /** `round(x, 2)`. */
  function Round2(x: real): (r: real)
    ensures OnCents(r)
    ensures -0.005 <= r - x <= 0.005
    ensures OnCents(x) ==> r == x
  {
    var n := RoundHalfEven(x * 100.0);
    assert (n as real).Floor == n;
    n as real / 100.0
  }

  /** `round(x, 4)`. */
  function Round4(x: real): (r: real)
    ensures OnTenThousandths(r)
    ensures -0.00005 <= r - x <= 0.00005
    ensures OnTenThousandths(x) ==> r == x
  {
    var n := RoundHalfEven(x * 10000.0);
    assert (n as real).Floor == n;
    n as real / 10000.0
  }

  /** Equal arguments round alike (stated for the solver's benefit when the
      arguments are products). */
  lemma Round2Congruent(x: real, y: real)
    requires x == y
    ensures Round2(x) == Round2(y)
  {
  }
}
