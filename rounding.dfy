/** Python 3's built-in `round` to an integer, applied to the exact rational
    `num / den`: the nearest integer, and the even one of the two when the
    value lies exactly halfway ("banker's rounding"). */
module Rounding {

  /** `r` is a nearest integer to `num / den`, and even when `num / den` is a
      tie. `2 * num - 2 * r * den` is `2 * den` times the rounding error. */
  predicate IsHalfEvenRounding(r: int, num: int, den: int)
    requires den > 0
  {
    var twiceError := 2 * num - 2 * r * den;
    -den <= twiceError <= den && (twiceError == den || twiceError == -den ==> r % 2 == 0)
  }

  /** `round(num / den)` for non-negative `num` and positive `den`. */
  function RoundHalfEven(num: nat, den: nat): (r: nat)
    requires den > 0
    ensures IsHalfEvenRounding(r, num, den)
  {
    var q, rest := num / den, num % den;
    assert 2 * num - 2 * q * den == 2 * rest;
    if 2 * rest < den then q
    else if 2 * rest > den then q + 1
    else if q % 2 == 0 then q
    else q + 1
  }

  /** `(k + 1) * den` exceeds `k * den` by `den`; a product with a factor of
      at least one (two) is at least `den` (`2 * den`). */
  lemma ProductBounds(k: int, den: int)
    requires den > 0
    ensures k >= 1 ==> k * den >= den
    ensures k >= 2 ==> k * den >= 2 * den
    ensures k <= -1 ==> k * den <= -den
    ensures k <= -2 ==> k * den <= -2 * den
  {
  }

  /** The rounding of a rational is unique: the nearest-integer condition and
      the tie rule leave no choice. */
  lemma RoundingUnique(r1: int, r2: int, num: int, den: int)
    requires den > 0
    requires IsHalfEvenRounding(r1, num, den) && IsHalfEvenRounding(r2, num, den)
    ensures r1 == r2
  {
    ProductBounds(r2 - r1, den);
    assert (2 * num - 2 * r1 * den) - (2 * num - 2 * r2 * den) == 2 * ((r2 - r1) * den);
  }

  lemma RoundHalfEvenOfInteger(k: nat, den: nat)
    requires den > 0
    ensures RoundHalfEven(k * den, den) == k
  {
    assert IsHalfEvenRounding(k, k * den, den);
    RoundingUnique(RoundHalfEven(k * den, den), k, k * den, den);
  }

  /** Roundings of a smaller and a larger rational are in the same order. */
  lemma RoundingOrdered(ra: int, rb: int, a: int, b: int, den: int)
    requires den > 0 && a < b
    requires IsHalfEvenRounding(ra, a, den) && IsHalfEvenRounding(rb, b, den)
    ensures ra <= rb
  {
    ProductBounds(ra - rb, den);
    assert 2 * ra * den - 2 * rb * den == 2 * ((ra - rb) * den);
  }

  /** Rounding is monotone in the numerator. */
  lemma RoundHalfEvenMonotone(a: nat, b: nat, den: nat)
    requires den > 0 && a <= b
    ensures RoundHalfEven(a, den) <= RoundHalfEven(b, den)
  {
    if a < b {
      RoundingOrdered(RoundHalfEven(a, den), RoundHalfEven(b, den), a, b, den);
    }
  }

  /** Exact halves go to the even neighbour: 1/8 and 3/8 of 100 are 12.5
      and 37.5, which round to 12 and 38; 2/3 of 100 rounds to 67. */
  lemma HalfEvenExamples()
    ensures RoundHalfEven(100, 8) == 12
    ensures RoundHalfEven(300, 8) == 38
    ensures RoundHalfEven(50, 4) == 12
    ensures RoundHalfEven(200, 3) == 67
  {
  }
}
