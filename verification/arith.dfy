/**
 * Integer helpers shared by the other modules: `min`/`max`, and facts about
 * multiples that the solver does not find by itself, used by the rounding in
 * `align` and the tile grid arithmetic.
 */
module Arith {

  function MaxInt(a: int, b: int): int {
    if a < b then b else a
  }

  function MinInt(a: int, b: int): int {
    if a < b then a else b
  }

  lemma MulSign(a: int, b: int)
    ensures a >= 0 && b >= 0 ==> a * b >= 0
  {
  }

  /** Multiplying by a positive factor keeps a strict order, so it can be cancelled. */
  lemma CancelFactor(x: int, y: int, t: int)
    requires t > 0 && x * t < y * t
    ensures x < y
  {
    if x >= y {
      MulSign(x - y, t);
    }
  }

  /** The only multiple of `b` strictly between `-b` and `b` is zero. */
  lemma ZeroMultiple(d: int, b: int)
    requires b > 0 && -b < d * b < b
    ensures d == 0
  {
    MulSign(d - 1, b);
    MulSign(-d - 1, b);
  }

  /** A multiple of `b` leaves no remainder. */
  lemma MultipleMod(k: int, b: int)
    requires b > 0
    ensures (k * b) % b == 0
  {
    var a := k * b;
    ZeroMultiple(k - a / b, b);
  }

  /** Two distinct multiples of `b` are at least `b` apart. */
  lemma MultiplesApart(n: int, r: int, b: int)
    requires b > 0 && n < r && n % b == 0 && r % b == 0
    ensures r >= n + b
  {
    var d := r / b - n / b;
    assert r - n == d * b;
    MulSign(d - 1, b);
    MulSign(-d, b);
  }
}
