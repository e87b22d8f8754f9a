/** Plane geometry used by the tracker to judge whether a detection is a plausible
    next position of a vehicle: the displacement vector between two points as a
    (distance, angle) pair, and the direction-dependent acceptance radius.

    Coordinates are image pixels, y grows downwards.  The square root and the
    arc tangent (converted to degrees) are transcendental library functions; they
    are parameters here, so every branch of the vector computation is modelled
    exactly and the lemmas state what they need of those two functions. */
module Geometry {

  /** An image point (x, y); y increases downwards. */
  datatype Point = Point(x: int, y: int)

  /** A displacement: Euclidean length and direction in degrees, 0 pointing down,
      growing clockwise. */
  datatype Vector = Vector(distance: real, angle: real)

  /** `sqrt` behaves as the non-negative square root on non-negative arguments. */
  ghost predicate IsSqrt(sqrt: real -> real)
  {
    forall s :: s >= 0.0 ==> sqrt(s) >= 0.0 && sqrt(s) * sqrt(s) == s
  }

  /** `atanDeg` behaves as the arc tangent in degrees as far as its range and sign go. */
  ghost predicate IsAtanDeg(atanDeg: real -> real)
  {
    (forall t :: -90.0 < atanDeg(t) < 90.0) &&
    (forall t :: t > 0.0 ==> atanDeg(t) > 0.0) &&
    (forall t :: t < 0.0 ==> atanDeg(t) < 0.0) &&
    atanDeg(0.0) == 0.0
  }

  /** The length of `b - a`, squared. */
  function SquaredDistance(a: Point, b: Point): real
  {
    ((b.x - a.x) * (b.x - a.x) + (b.y - a.y) * (b.y - a.y)) as real
  }

  /** The absolute value of an integer, as a real. */
  function Abs(n: int): real
  {
    if n < 0 then (-n) as real else n as real
  }

  /** The vector from `a` to `b`.  The branch on the sign of dy (and of dx when the
      ratio cannot be taken) is the one the tracker's acceptance constants were tuned
      against: it divides before taking the arc tangent rather than using a
      two-argument arc tangent. */
  function GetVector(a: Point, b: Point, sqrt: real -> real, atanDeg: real -> real): Vector
  {
    var dx := (b.x - a.x) as real;
    var dy := (b.y - a.y) as real;
    var distance := sqrt(SquaredDistance(a, b));
    var angle :=
      if dy > 0.0 then atanDeg(-dx / dy)
      else if dy == 0.0 then
        (if dx < 0.0 then 90.0 else if dx > 0.0 then -90.0 else 0.0)
      else if dx < 0.0 then 180.0 - atanDeg(dx / dy)
      else if dx > 0.0 then -180.0 - atanDeg(dx / dy)
      else 180.0;
    Vector(distance, angle)
  }

  /** With a genuine arc tangent the angle lies in (-180, 180], and each half-plane of
      motion lands in its own quarter of that range. */
  lemma AngleRange(a: Point, b: Point, sqrt: real -> real, atanDeg: real -> real)
    requires IsAtanDeg(atanDeg)
    ensures var v := GetVector(a, b, sqrt, atanDeg);
      && -180.0 < v.angle <= 180.0
      && (b.y > a.y ==> -90.0 < v.angle < 90.0)
      && (b.y < a.y && b.x < a.x ==> 90.0 < v.angle < 180.0)
      && (b.y < a.y && b.x > a.x ==> -180.0 < v.angle < -90.0)
  {
    var dx := (b.x - a.x) as real;
    var dy := (b.y - a.y) as real;
    if dy < 0.0 && dx != 0.0 {
      assert dx < 0.0 ==> dx / dy > 0.0;
      assert dx > 0.0 ==> dx / dy < 0.0;
    }
  }

  /** The product of two positive reals is positive. */
  lemma MulPositive(p: real, q: real)
    requires p > 0.0 && q > 0.0
    ensures p * q > 0.0
  {
  }

  /** Squaring is strictly monotone on the non-negative reals. */
  lemma SquareLess(x: real, y: real)
    requires 0.0 <= x < y
    ensures x * x < y * y
  {
    assert y * y - x * x == (y - x) * (y + x);
    MulPositive(y - x, y + x);
  }

  /** The non-negative square root of a square is the absolute value. */
  lemma SquareRootOfSquare(r: real, d: real)
    requires r >= 0.0 && d >= 0.0 && r * r == d * d
    ensures r == d
  {
    if r < d {
      SquareLess(r, d);
    } else if r > d {
      SquareLess(d, r);
    }
  }

  /** Along the axes the vector is exact: straight down is (|dy|, 0), straight up is
      (|dy|, 180), sideways is (|dx|, -90) to the right and (|dx|, 90) to the left,
      and no motion at all is (0, 0). */
  lemma AxisVectors(a: Point, b: Point, sqrt: real -> real, atanDeg: real -> real)
    requires IsSqrt(sqrt) && atanDeg(0.0) == 0.0
    requires a.x == b.x || a.y == b.y
    ensures var v := GetVector(a, b, sqrt, atanDeg);
      && (a.y == b.y ==> v.distance == Abs(b.x - a.x))
      && (a.x == b.x ==> v.distance == Abs(b.y - a.y))
      && (a.y == b.y && b.x < a.x ==> v.angle == 90.0)
      && (a.y == b.y && b.x > a.x ==> v.angle == -90.0)
      && (a.y == b.y && b.x == a.x ==> v.angle == 0.0)
      && (a.x == b.x && b.y > a.y ==> v.angle == 0.0)
      && (a.x == b.x && b.y < a.y ==> v.angle == 180.0)
  {
    var n := if a.y == b.y then b.x - a.x else b.y - a.y;
    assert SquaredDistance(a, b) == (n * n) as real;
    assert (n * n) as real == Abs(n) * Abs(n);
    SquareRootOfSquare(sqrt(SquaredDistance(a, b)), Abs(n));
    if a.x == b.x && b.y > a.y {
      assert -((b.x - a.x) as real) / ((b.y - a.y) as real) == 0.0;
    }
  }

  /** The acceptance radius for a displacement at `angle` degrees:
      the larger of 10 and the downward parabola -0.008 a^2 + 0.4 a + 25. */
  function Threshold(angle: real): (t: real)
    ensures 10.0 <= t <= 30.0
    ensures t == 10.0 <==> angle <= -25.0 || angle >= 75.0
    ensures t == 30.0 <==> angle == 25.0
  {
    var q := -0.008 * angle * angle + 0.4 * angle + 25.0;
    var e := angle - 25.0;
    assert q == 30.0 - 0.008 * (e * e);
    assert e * e >= 0.0;
    assert e * e == 0.0 <==> e == 0.0 by {
      if e > 0.0 {
        SquareLess(0.0, e);
      } else if e < 0.0 {
        SquareLess(0.0, -e);
      }
    }
    assert e * e <= 2500.0 <==> -50.0 <= e <= 50.0 by {
      if e > 50.0 {
        assert e * e > 50.0 * e > 2500.0;
      } else if e < -50.0 {
        assert e * e > -50.0 * e > 2500.0;
      } else if e >= 0.0 {
        assert e * e <= 50.0 * e <= 2500.0;
      } else {
        assert e * e <= -50.0 * e <= 2500.0;
      }
    }
    assert q <= 10.0 <==> e * e >= 2500.0;
    assert e * e >= 2500.0 <==> e <= -50.0 || e >= 50.0 by {
      if -50.0 < e < 50.0 {
        if e >= 0.0 {
          assert e * e <= 50.0 * e < 2500.0;
        } else {
          assert e * e <= -50.0 * e < 2500.0;
        }
      }
    }
    if q > 10.0 then q else 10.0
  }

  /** A displacement is plausible when it is no longer than the acceptance radius for
      its direction.  Whatever the angle, up to 10 pixels is always accepted and
      more than 30 pixels never is; outside the angles (-25, 75) the radius is exactly 10. */
  function IsValidVector(v: Vector): (ok: bool)
    ensures v.distance <= 10.0 ==> ok
    ensures v.distance > 30.0 ==> !ok
    ensures v.angle <= -25.0 || v.angle >= 75.0 ==> (ok <==> v.distance <= 10.0)
  {
    v.distance <= Threshold(v.angle)
  }

  /** Whether `b` is an acceptable next position for something last seen at `a`. */
  function Accepts(a: Point, b: Point, sqrt: real -> real, atanDeg: real -> real): bool
  {
    IsValidVector(GetVector(a, b, sqrt, atanDeg))
  }

  /** With a genuine square root, a detection within 10 pixels is always accepted
      and one more than 30 pixels away never is, whatever arc tangent is used. */
  lemma AcceptsByDistance(a: Point, b: Point, sqrt: real -> real, atanDeg: real -> real)
    requires IsSqrt(sqrt)
    ensures SquaredDistance(a, b) <= 100.0 ==> Accepts(a, b, sqrt, atanDeg)
    ensures SquaredDistance(a, b) > 900.0 ==> !Accepts(a, b, sqrt, atanDeg)
  {
    var r := sqrt(SquaredDistance(a, b));
    assert SquaredDistance(a, b) >= 0.0;
    assert r >= 0.0 && r * r == SquaredDistance(a, b);
    if r > 10.0 {
      SquareLess(10.0, r);
    }
    if r <= 30.0 {
      if r < 30.0 {
        SquareLess(r, 30.0);
      }
    }
  }
}
