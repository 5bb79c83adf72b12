/** Real-number helpers shared by the snapping model: absolute value, numpy's
    `rint` (round half to even) and the laws of the square root that the
    distance computations rely on. */
module Numeric {

  /** `np.absolute` / `abs` on one real. */
  function Abs(x: real): (r: real)
    ensures 0.0 <= r
    ensures r == x || r == -x
  {
    if x < 0.0 then -x else x
  }

  /** `np.rint`: the nearest integer, with exact halves going to the even
      neighbour (so 2.5 rounds to 2 and 3.5 to 4). */
  function Rint(x: real): (n: int)
    ensures -0.5 <= n as real - x <= 0.5
    ensures n as real - x == 0.5 || n as real - x == -0.5 ==> n % 2 == 0
  {
    var f := x.Floor;
    var d := x - f as real;
    if d < 0.5 then f
    else if d > 0.5 then f + 1
    else if f % 2 == 0 then f
    else f + 1
  }

  /** The two properties in Rint's contract single out one integer: any
      integer within half a unit of `x`, and even on a tie, is `Rint(x)`. */
  lemma RintUnique(x: real, n: int)
    requires -0.5 <= n as real - x <= 0.5
    requires n as real - x == 0.5 || n as real - x == -0.5 ==> n % 2 == 0
    ensures n == Rint(x)
  {
    var m := Rint(x);
    assert -1.0 <= (n - m) as real <= 1.0;
  }

  lemma SquarePositive(x: real)
    requires x != 0.0
    ensures 0.0 < x * x
  {
    if x < 0.0 {
      calc { x * x; == (-x) * (-x); > 0.0; }
    }
  }

  /** A square root on the non-negative reals, as `**0.5` and
      `numpy.linalg.norm` use it. */
  ghost predicate IsSqrt(sqrt: real -> real) {
    forall x: real :: 0.0 <= x ==> 0.0 <= sqrt(x) && sqrt(x) * sqrt(x) == x
  }

  lemma SqrtZeroIff(sqrt: real -> real, x: real)
    requires IsSqrt(sqrt)
    requires 0.0 <= x
    ensures sqrt(x) == 0.0 <==> x == 0.0
  {
    var s := sqrt(x);
    assert 0.0 <= s && s * s == x;
    if s == 0.0 {
      calc { x; == s * s; == 0.0; }
    } else {
      calc { x; == s * s; > 0.0; }
    }
  }

  lemma SqrtMonotone(sqrt: real -> real, x: real, y: real)
    requires IsSqrt(sqrt)
    requires 0.0 <= x <= y
    ensures sqrt(x) <= sqrt(y)
  {
    var sx, sy := sqrt(x), sqrt(y);
    assert 0.0 <= sx && sx * sx == x;
    assert 0.0 <= sy && sy * sy == y;
    if sy < sx {
      calc {
        y;
        == sy * sy;
        <= sx * sy;
        < sx * sx;
        == x;
      }
    }
  }

  /** The square root of a square is the absolute value. */
  lemma SqrtOfSquare(sqrt: real -> real, a: real)
    requires IsSqrt(sqrt)
    ensures sqrt(a * a) == Abs(a)
  {
    var s, b := sqrt(a * a), Abs(a);
    assert 0.0 <= s && s * s == a * a;
    assert b * b == a * a;
    if s < b {
      calc { s * s; <= s * b; < b * b; }
    } else if b < s {
      calc { b * b; <= b * s; < s * s; }
    }
  }

  lemma SquareNonNegative(x: real)
    ensures 0.0 <= x * x
  {
  }

  lemma SumOfSquaresPositive(a: real, b: real)
    requires a != 0.0 || b != 0.0
    ensures 0.0 < a * a + b * b
  {
    SquareNonNegative(a);
    SquareNonNegative(b);
    if a != 0.0 {
      SquarePositive(a);
      calc { a * a + b * b; >= a * a; > 0.0; }
    } else {
      SquarePositive(b);
      calc { a * a + b * b; >= b * b; > 0.0; }
    }
  }

  lemma SqrtPositive(sqrt: real -> real, x: real)
    requires IsSqrt(sqrt)
    requires 0.0 < x
    ensures 0.0 < sqrt(x)
  {
    SqrtZeroIff(sqrt, x);
  }

  /** The Euclidean length of the vector `(dx, dy)`, as `numpy.linalg.norm`
      and `(dx**2 + dy**2)**(0.5)` compute it: never negative and zero
      exactly for the zero vector (its square is the subject of
      `NormSquared`). */
  function Norm(dx: real, dy: real, sqrt: real -> real): (n: real)
    requires IsSqrt(sqrt)
    ensures 0.0 <= n
    ensures dx == 0.0 && dy == 0.0 ==> n == 0.0
    ensures dx != 0.0 || dy != 0.0 ==> 0.0 < n
  {
    var x := dx * dx + dy * dy;
    if dx == 0.0 && dy == 0.0 then
      assert x == 0.0 by {
        calc { x; == 0.0 * 0.0 + 0.0 * 0.0; == 0.0; }
      }
      SqrtZeroIff(sqrt, x);
      sqrt(x)
    else
      assert 0.0 < x by {
        SumOfSquaresPositive(dx, dy);
        calc { x; == dx * dx + dy * dy; > 0.0; }
      }
      SqrtPositive(sqrt, x);
      sqrt(x)
  }

  /** The square of a norm is the sum of the squared components. */
  lemma NormSquared(dx: real, dy: real, sqrt: real -> real)
    requires IsSqrt(sqrt)
    ensures Norm(dx, dy, sqrt) * Norm(dx, dy, sqrt) == dx * dx + dy * dy
  {
    var x := dx * dx + dy * dy;
    assert 0.0 <= x by {
      SquareNonNegative(dx);
      SquareNonNegative(dy);
    }
    assert Norm(dx, dy, sqrt) == sqrt(x);
  }

  /** A norm is at least the absolute value of each component. */
  lemma NormAtLeastComponents(dx: real, dy: real, sqrt: real -> real)
    requires IsSqrt(sqrt)
    ensures Abs(dx) <= Norm(dx, dy, sqrt) && Abs(dy) <= Norm(dx, dy, sqrt)
  {
    var x, a, b := dx * dx + dy * dy, dx * dx, dy * dy;
    SquareNonNegative(dx);
    SquareNonNegative(dy);
    assert Norm(dx, dy, sqrt) == sqrt(x);
    assert 0.0 <= a <= x by { calc { x; == a + b; >= a; } }
    assert 0.0 <= b <= x by { calc { x; == a + b; >= b; } }
    SqrtMonotone(sqrt, a, x);
    SqrtMonotone(sqrt, b, x);
    SqrtOfSquare(sqrt, dx);
    SqrtOfSquare(sqrt, dy);
  }

  /** The norm of a vector along one axis is the absolute value of its
      component. */
  lemma NormOnAxis(d: real, sqrt: real -> real)
    requires IsSqrt(sqrt)
    ensures Norm(d, 0.0, sqrt) == Abs(d) && Norm(0.0, d, sqrt) == Abs(d)
  {
    var a := d * d;
    assert d * d + 0.0 * 0.0 == a && 0.0 * 0.0 + d * d == a;
    assert Norm(d, 0.0, sqrt) == sqrt(a);
    assert Norm(0.0, d, sqrt) == sqrt(a);
    SqrtOfSquare(sqrt, d);
  }
}
