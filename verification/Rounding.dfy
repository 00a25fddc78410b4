/** Python's `round`, on exact reals. */
module Rounding {

  /** Python's `round` to a whole number: ties go to the even neighbour. */
  function RoundHalfEven(y: real): int {
    var below := y.Floor;
    var excess := y - below as real;
    if excess < 0.5 || (excess == 0.5 && below % 2 == 0) then below else below + 1
  }

  function Round4(x: real): real {
    RoundHalfEven(x * 10000.0) as real / 10000.0
  }

  lemma RoundingError(y: real)
    ensures -0.5 <= RoundHalfEven(y) as real - y <= 0.5
  {
  }

  /** The rounded number is the nearest whole one, or of the two nearest the even one. */
  lemma RoundingIsNearest(y: real, n: int)
    ensures n == RoundHalfEven(y) <==>
            -0.5 < n as real - y < 0.5 || ((n as real - y == 0.5 || n as real - y == -0.5) && n % 2 == 0)
  {
    RoundingError(y);
  }

  lemma RoundingIsMonotone(x: real, y: real)
    requires x <= y
    ensures RoundHalfEven(x) <= RoundHalfEven(y)
  {
    RoundingError(x);
    RoundingError(y);
  }

  lemma Round4Error(x: real)
    ensures -0.00005 <= Round4(x) - x <= 0.00005
  {
    RoundingError(x * 10000.0);
  }

  /** Four decimals, and of two candidates the one whose last digit is even. */
  lemma Round4IsNearest(x: real, n: int)
    ensures Round4(x) == n as real / 10000.0 <==>
            -0.00005 < n as real / 10000.0 - x < 0.00005
            || ((n as real / 10000.0 - x == 0.00005 || n as real / 10000.0 - x == -0.00005) && n % 2 == 0)
  {
    RoundingIsNearest(x * 10000.0, n);
  }

  lemma Round4IsMonotone(x: real, y: real)
    requires x <= y
    ensures Round4(x) <= Round4(y)
  {
    RoundingIsMonotone(x * 10000.0, y * 10000.0);
  }
}
