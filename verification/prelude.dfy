/**
 Shared vocabulary of the editor model: optional values (the `T | null` state
 slots of the components) and the JavaScript `Math` operations and `%`
 operator the components apply to times, stated over exact reals.
 */
module Prelude {

  /** A value that may be absent (`null` in the components' state). */
  datatype Option<+T> = None | Some(value: T)

  /** `Math.min` on two numbers. */
  function Min(a: real, b: real): (r: real)
    ensures r <= a && r <= b
    ensures r == a || r == b
  {
    if a <= b then a else b
  }

  /** `Math.max` on two numbers. */
  function Max(a: real, b: real): (r: real)
    ensures r >= a && r >= b
    ensures r == a || r == b
  {
    if a >= b then a else b
  }

  /** `Math.abs`. */
  function Abs(x: real): (r: real)
    ensures r >= 0.0
    ensures r == x || r == -x
  {
    if x >= 0.0 then x else -x
  }

  /** `Math.floor`: the greatest integer not above `x`. */
  function Floor(x: real): (r: int)
    ensures r as real <= x < r as real + 1.0
  {
    x.Floor
  }

  lemma MulLeft(a: real, b: real, c: real)
    requires a <= b && 0.0 <= c
    ensures c * a <= c * b
  {
    assert c * b - c * a == c * (b - a);
  }

  lemma MulLeftStrict(a: real, b: real, c: real)
    requires a < b && 0.0 < c
    ensures c * a < c * b
  {
    assert c * b - c * a == c * (b - a);
  }

  lemma DivLeft(a: real, b: real, w: real)
    requires a <= b && 0.0 < w
    ensures a / w <= b / w
  {
    assert b / w - a / w == (b - a) / w;
  }

  lemma DivLeftStrict(a: real, b: real, w: real)
    requires a < b && 0.0 < w
    ensures a / w < b / w
  {
    assert b / w - a / w == (b - a) / w;
  }

  /** Bounds on `x - m*q` when `q <= x/m < q + 1`, stated without division. */
  lemma BetweenMultiples(x: real, m: real, y: real, q: real)
    requires m > 0.0 && x == m * y && q <= y < q + 1.0
    ensures 0.0 <= x - m * q < m
  {
    var d := y - q;
    assert 0.0 <= d < 1.0;
    assert x - m * q == m * d;
    MulLeftStrict(d, 1.0, m);
    assert m * d < m;
    assert 0.0 <= m * d;
  }

  /** The floored remainder of a non-negative dividend lies in `[0, m)`. */
  lemma FlooredRemainder(x: real, m: real)
    requires m > 0.0
    ensures 0.0 <= x - m * Floor(x / m) as real < m
  {
    BetweenMultiples(x, m, x / m, Floor(x / m) as real);
  }

  /** A whole multiple of `m`, divided by `m`, is a whole number. */
  lemma WholeQuotient(k: int, m: real)
    requires m > 0.0
    ensures ((m * k as real) / m).Floor as real == (m * k as real) / m
  {
    assert (m * k as real) / m == k as real;
  }

  /**
   JavaScript's `%` on numbers with a positive divisor: the quotient is rounded
   toward zero, so the remainder takes the sign of the dividend, is smaller
   than the divisor in magnitude, and differs from the dividend by a whole
   multiple of the divisor.
   */
  function Rem(x: real, m: real): (r: real)
    requires m > 0.0
    ensures 0.0 <= x ==> 0.0 <= r < m
    ensures x < 0.0 ==> -m < r <= 0.0
    ensures ((x - r) / m).Floor as real == (x - r) / m
    decreases if x < 0.0 then 1 else 0
  {
    if x >= 0.0 then
      var k := Floor(x / m);
      var r := x - m * k as real;
      FlooredRemainder(x, m);
      WholeQuotient(k, m);
      assert x - r == m * k as real;
      r
    else
      var r := Rem(-x, m);
      NegatedWholeQuotient(x, r, m);
      -r
  }

  /** A whole quotient stays whole when dividend and remainder change sign. */
  lemma NegatedWholeQuotient(x: real, r: real, m: real)
    requires m > 0.0
    requires ((-x - r) / m).Floor as real == (-x - r) / m
    ensures ((x - -r) / m).Floor as real == (x - -r) / m
  {
    var k := ((-x - r) / m).Floor;
    assert (x - -r) / m == -((-x - r) / m);
    assert (x - -r) / m == (-k) as real;
  }

  /** For a non-negative dividend, `%` agrees with the floored remainder. */
  lemma RemOfNonNegative(x: real, m: real)
    requires 0.0 <= x && m > 0.0
    ensures Rem(x, m) == x - m * Floor(x / m) as real
  {
  }

  /** Moving a real by a whole number moves its floor by the same amount. */
  lemma FloorShift(x: real, k: int)
    ensures Floor(x - k as real) == Floor(x) - k
  {
  }
}
