/**
 * Plane geometry shared by the grid, the orbit and the environment:
 * points of the flat body-centred plane, the distance test used by the
 * tile query, and the trigonometry the orbit model is parameterised by.
 */
module Geometry {

  /** An (x, y) coordinate in kilometres. */
  datatype Point = Point(x: real, y: real)

  function Sq(v: real): (s: real)
    ensures s >= 0.0
  {
    v * v
  }

  /**
   * The boundary-inclusive distance test `sqrt(dx² + dy²) <= r`, stated
   * without a square root: a negative radius contains nothing.
   */
  predicate Within(t: Point, centre: Point, r: real)
  {
    r >= 0.0 && Sq(t.x - centre.x) + Sq(t.y - centre.y) <= Sq(r)
  }

  /**
   * `Within` is the source's test `dist <= r` with `dist = sqrt(dx² + dy²)`:
   * for the non-negative d whose square is dx² + dy², the tile is within
   * distance r exactly when d <= r (boundary included; never for r < 0).
   */
  lemma WithinIsDistance(t: Point, centre: Point, r: real, d: real)
    requires d >= 0.0 && Sq(d) == Sq(t.x - centre.x) + Sq(t.y - centre.y)
    ensures Within(t, centre, r) <==> d <= r
  {
    if 0.0 <= r && d <= r {
      SqMono(d, r);
    } else if 0.0 <= r {
      SqStrict(r, d);
    }
  }

  /** Squaring is monotone on the non-negative reals. */
  lemma SqMono(a: real, b: real)
    requires 0.0 <= a <= b
    ensures Sq(a) <= Sq(b)
  {
    calc {
      Sq(a);
      a * a;
    <= { MulLe(a, a, b); }
      a * b;
    <= { MulLe(b, a, b); }
      b * b;
      Sq(b);
    }
  }

  /** Squaring is strictly monotone on the non-negative reals. */
  lemma SqStrict(a: real, b: real)
    requires 0.0 <= a < b
    ensures Sq(a) < Sq(b)
  {
    calc {
      Sq(a);
      a * a;
    <= { MulLe(a, a, b); }
      a * b;
    < { MulLt(b, a, b); }
      b * b;
      Sq(b);
    }
  }

  lemma MulLe(c: real, a: real, b: real)
    requires 0.0 <= c && a <= b
    ensures c * a <= c * b
  {
    assert c * b - c * a == c * (b - a);
  }

  lemma MulLt(c: real, a: real, b: real)
    requires 0.0 < c && a < b
    ensures c * a < c * b
  {
    assert c * b - c * a == c * (b - a);
  }

  /**
   * Cosine and sine taking an angle in DEGREES (that is, cosine after the
   * degrees-to-radians conversion). They are parameters of the model:
   * nothing is assumed about them except where a lemma asks for `Unit`.
   */
  datatype Trig = Trig(cosDeg: real -> real, sinDeg: real -> real)

  /** The Pythagorean identity cos² + sin² = 1 at every angle. */
  ghost predicate Unit(trig: Trig)
  {
    forall a: real :: Sq(trig.cosDeg(a)) + Sq(trig.sinDeg(a)) == 1.0
  }
}
