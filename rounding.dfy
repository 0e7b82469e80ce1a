/**
 * Python 3's built-in `round(x)` with no digit count: the nearest integer,
 * ties going to the even neighbour ("banker's rounding").
 */
module Rounding {

  /** `n` is a nearest integer to `x`, and an exact tie is settled towards the even one. */
  ghost predicate IsHalfEvenRounding(x: real, n: int) {
    && x - 0.5 <= n as real <= x + 0.5
    && ((n as real - x == 0.5 || x - n as real == 0.5) ==> n % 2 == 0)
  }

  function RoundHalfEven(x: real): (n: int)
    ensures IsHalfEvenRounding(x, n)
  {
    var f := x.Floor;
    var d := x - f as real;
    if d < 0.5 then f
    else if d > 0.5 then f + 1
    else if f % 2 == 0 then f
    else f + 1
  }

  /** The two clauses above leave no choice: they define Python's rounding. */
  lemma RoundHalfEvenUnique(x: real, n: int)
    requires IsHalfEvenRounding(x, n)
    ensures n == RoundHalfEven(x)
  {
    var r := RoundHalfEven(x);
    assert -1 <= n - r <= 1;
  }

  /** Shifting the input by an even integer shifts the result by the same amount. */
  lemma RoundShiftEven(x: real, m: int)
    requires m % 2 == 0
    ensures RoundHalfEven(x + m as real) == RoundHalfEven(x) + m
  {
    var r := RoundHalfEven(x);
    assert (r + m) % 2 == 0 <==> r % 2 == 0;
    RoundHalfEvenUnique(x + m as real, r + m);
  }

  /** Half-to-even rounding is symmetric about zero (half-up rounding is not). */
  lemma RoundOdd(x: real)
    ensures RoundHalfEven(-x) == -RoundHalfEven(x)
  {
    var r := RoundHalfEven(x);
    assert (-r) % 2 == 0 <==> r % 2 == 0;
    RoundHalfEvenUnique(-x, -r);
  }

  /** An input closer than one half to an integer rounds to that integer. */
  lemma RoundNear(x: real, k: int)
    requires k as real - 0.5 < x < k as real + 0.5
    ensures RoundHalfEven(x) == k
  {
    RoundHalfEvenUnique(x, k);
  }

  /** Ties: 0.5 and -0.5 go to 0, 1.5 and 2.5 both go to 2. */
  lemma RoundTies()
    ensures RoundHalfEven(0.5) == 0 && RoundHalfEven(-0.5) == 0
    ensures RoundHalfEven(1.5) == 2 && RoundHalfEven(2.5) == 2
    ensures RoundHalfEven(-1.5) == -2
  {
  }
}
