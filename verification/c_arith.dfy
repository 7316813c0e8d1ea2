/**
 C integer semantics the watch face relies on.

 Dafny's `/` on `int` is Euclidean (the remainder is never negative), while
 C99 `/` truncates toward zero. The two differ exactly when the dividend is
 negative and the division is inexact, which is the case for the `(m-14)/12`
 term of the Julian day formula.
 */
module CArith {

  /** C99 integer division by a positive divisor: the quotient is truncated toward zero. */
  function TruncDiv(n: int, d: int): (q: int)
    requires d > 0
    // the remainder n - d*q takes the sign of the dividend and is smaller than the divisor
    ensures n >= 0 ==> 0 <= n - d * q < d
    ensures n < 0 ==> -d < n - d * q <= 0
  {
    if n >= 0 then
      assert n == d * (n / d) + n % d;
      n / d
    else
      var p := (-n) / d;
      assert -n == d * p + (-n) % d;
      assert d * (-p) == -(d * p);
      -p
  }

  /** For a non-negative dividend, C division and Dafny's Euclidean division agree. */
  lemma TruncDivOfNonNegative(n: int, d: int)
    requires n >= 0 && d > 0
    ensures TruncDiv(n, d) == n / d
  {
  }

  /** The quotient is unique: any q leaving a remainder of the dividend's sign, below the divisor, is it. */
  lemma TruncDivUnique(n: int, d: int, q: int)
    requires d > 0
    requires n >= 0 ==> 0 <= n - d * q < d
    requires n < 0 ==> -d < n - d * q <= 0
    ensures TruncDiv(n, d) == q
  {
    var t := TruncDiv(n, d);
    if t < q {
      MulGap(d, t, q);
    } else if t > q {
      MulGap(d, q, t);
    }
  }

  /** Multiples of a positive d with different factors are at least d apart. */
  lemma MulGap(d: int, a: int, b: int)
    requires d > 0 && a < b
    ensures d * a + d <= d * b
  {
    var k := b - a - 1;
    assert k >= 0;
    assert d * k >= 0;
    assert d * b == d * a + d + d * k;
  }

  /** Reading quotient and remainder off a decomposition x == d*q + r. */
  lemma DivModOf(x: int, d: int, q: int, r: int)
    requires d > 0 && x == d * q + r && 0 <= r < d
    ensures x / d == q && x % d == r
  {
    var q', r' := x / d, x % d;
    assert x == d * q' + r';
    if q' < q {
      MulGap(d, q', q);
    } else if q' > q {
      MulGap(d, q, q');
    }
  }

  /** 32-bit signed range: the width of `int` on the watch. */
  predicate IsInt32(x: int) {
    -0x8000_0000 <= x < 0x8000_0000
  }
}
