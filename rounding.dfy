/** Two-decimal rounding of a percent change, as Python's `round(x, 2)`
    does it: to the nearest multiple of 0.01, ties to the even hundredth.
    Prices and changes are exact reals here, so the binary representation
    error of floats does not arise. */
module Rounding {

  /** The integer nearest to `x`, ties going to the even neighbour. */
  function RoundHalfEven(x: real): (k: int)
    ensures -0.5 <= k as real - x <= 0.5
  {
    var n := x.Floor;
    var frac := x - n as real;
    if frac < 0.5 then n
    else if frac > 0.5 then n + 1
    else if n % 2 == 0 then n
    else n + 1
  }

  /** `x` rounded to two decimal places. */
  function Round2(x: real): (r: real)
    ensures -0.005 <= r - x <= 0.005
    ensures IsHundredths(r)
  {
    var k := RoundHalfEven(x * 100.0);
    assert (k as real / 100.0) * 100.0 == k as real;
    assert ((k as real / 100.0) * 100.0).Floor == k;
    assert k as real / 100.0 - x == (k as real - x * 100.0) / 100.0;
    k as real / 100.0
  }

  /** `r` is a whole number of hundredths. */
  predicate IsHundredths(r: real) {
    (r * 100.0).Floor as real == r * 100.0
  }

  lemma RoundHalfEvenMonotone(x: real, y: real)
    requires x <= y
    ensures RoundHalfEven(x) <= RoundHalfEven(y)
  {
    var nx, ny := x.Floor, y.Floor;
    assert nx <= ny;
    if nx < ny {
      assert RoundHalfEven(x) <= nx + 1 <= ny <= RoundHalfEven(y);
    } else {
      assert x - nx as real <= y - ny as real;
    }
  }

  /** Rounding never reverses the order of two changes, so ranking by the
      rounded change agrees with ranking by the exact change except that
      changes within half a hundredth of each other may become ties. */
  lemma Round2Monotone(x: real, y: real)
    requires x <= y
    ensures Round2(x) <= Round2(y)
  {
    RoundHalfEvenMonotone(x * 100.0, y * 100.0);
  }

  lemma RoundHalfEvenOfInt(k: int)
    ensures RoundHalfEven(k as real) == k
  {
    assert (k as real).Floor == k;
  }

  /** Whole numbers have two decimals. */
  lemma WholeIsHundredths(k: int)
    ensures IsHundredths(k as real)
  {
    assert k as real * 100.0 == (k * 100) as real;
    assert ((k * 100) as real).Floor == k * 100;
  }

  /** A value that already has two decimals is left as it is. */
  lemma Round2Exact(x: real)
    requires IsHundredths(x)
    ensures Round2(x) == x
  {
    var k := (x * 100.0).Floor;
    RoundHalfEvenOfInt(k);
  }

  /** Rounding twice is rounding once. */
  lemma Round2Idempotent(x: real)
    ensures Round2(Round2(x)) == Round2(x)
  {
    Round2Exact(Round2(x));
  }

  /** A non-negative change never rounds to a negative one, and a
      non-positive change never rounds to a positive one. */
  lemma Round2KeepsSign(x: real)
    ensures x >= 0.0 ==> Round2(x) >= 0.0
    ensures x <= 0.0 ==> Round2(x) <= 0.0
  {
    Round2Exact(0.0);
    if x >= 0.0 {
      Round2Monotone(0.0, x);
    } else {
      Round2Monotone(x, 0.0);
    }
  }
}
