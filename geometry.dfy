/**
 * Pixel positions, colours and the integer arithmetic the rasteriser relies on.
 *
 * The drawing program keeps vertex positions as floats. The line routine and the
 * snapping truncate them to `int` before use; the fill reads them untruncated.
 * Positions here are integer pixels, which is exact wherever the stored
 * coordinates are whole numbers.
 */
module Geometry {

  /** A pixel position on the canvas. */
  datatype Pos = Pos(x: int, y: int)

  /** An RGBA colour with one 0..255 channel each. */
  datatype Color = Color(r: int, g: int, b: int, a: int)

  /** raylib's RAYWHITE, the colour of an empty vertex slot. */
  const RayWhite := Color(245, 245, 245, 255)

  function Abs(v: int): nat
  {
    if v < 0 then -v else v
  }

  function Min(a: int, b: int): int
  {
    if a <= b then a else b
  }

  function Max(a: int, b: int): int
  {
    if a <= b then b else a
  }

  /** `v` lies on the closed interval spanned by `a` and `b`, in either order. */
  predicate Between(a: int, v: int, b: int)
  {
    Min(a, b) <= v <= Max(a, b)
  }

  /**
   * The index after `i` in a cycle of `n` indices: `i + 1`, or 0 after the last.
   * The source writes it `(i + 1) % n`.
   */
  function Succ(i: nat, n: nat): nat
  {
    if i + 1 == n then 0 else i + 1
  }

  lemma ModSmall(a: int, n: int)
    requires 0 <= a < n
    ensures a % n == a
  {
  }

  lemma ModSelf(n: int)
    requires 0 < n
    ensures n % n == 0
  {
  }

  lemma ModSucc(i: int, n: int)
    requires 0 <= i < n
    ensures (i + 1) % n == Succ(i, n)
  {
    if i + 1 < n {
      ModSmall(i + 1, n);
    } else {
      ModSelf(n);
    }
  }

  /**
   * The quotient n / d rounded toward zero, as C's `(int)` cast of a real quotient
   * gives it. Dafny's own `/` is Euclidean, which differs for negative operands.
   */
  function TruncDiv(n: int, d: int): (q: int)
    requires d != 0
    ensures Abs(q) == Abs(n) / Abs(d)
    ensures q < 0 ==> (n < 0) != (d < 0)
    ensures q > 0 ==> (n < 0) == (d < 0)
    decreases if d < 0 then 1 else 0
  {
    if d < 0 then TruncDiv(-n, -d)
    else if n >= 0 then n / d
    else -((-n) / d)
  }

  lemma MulLessCancel(a: int, b: int, d: int)
    requires d > 0 && a * d < b * d
    ensures a < b
  {
  }

  /** For a positive divisor, the truncated quotient is within one of the exact one on either side. */
  lemma TruncDivBracket(n: int, d: int)
    requires d > 0
    ensures (TruncDiv(n, d) - 1) * d < n < (TruncDiv(n, d) + 1) * d
  {
    var q := TruncDiv(n, d);
    if n >= 0 {
      assert q == n / d;
      assert n == d * q + n % d;
    } else {
      var m := (-n) / d;
      assert q == -m;
      assert -n == d * m + (-n) % d;
    }
  }

  /**
   * A truncated quotient whose exact value lies between two integers lies between
   * them too.
   */
  lemma TruncDivBetween(n: int, d: int, lo: int, hi: int)
    requires d > 0 && lo * d <= n <= hi * d
    ensures lo <= TruncDiv(n, d) <= hi
  {
    var q := TruncDiv(n, d);
    TruncDivBracket(n, d);
    MulLessCancel(lo, q + 1, d);
    MulLessCancel(q - 1, hi, d);
  }

  /**
   * A weighted mean a + (t/d) * (b - a) with 0 <= t <= d, scaled by d, lies
   * between a and b, scaled by d.
   */
  lemma ScaledInterpolationBetween(a: int, b: int, t: int, d: int)
    requires 0 <= t <= d
    ensures Min(a, b) * d <= a * d + t * (b - a) <= Max(a, b) * d
  {
    if a <= b {
      assert t * (b - a) >= 0;
      assert b * d - (a * d + t * (b - a)) == (b - a) * (d - t);
      assert (b - a) * (d - t) >= 0;
    } else {
      assert a * d + t * (b - a) - b * d == (a - b) * (d - t);
      assert (a - b) * (d - t) >= 0;
      assert t * (a - b) >= 0;
    }
  }
}
