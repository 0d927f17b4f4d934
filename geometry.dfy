/**
  The fixed counting line and the centroid of a detection box (app.py and
  apple.py both hard-code the same diagonal line).

  Image coordinates grow downwards, so "below the line" means a larger y.
  The source tests `cy > m * cx + c` with a floating-point slope `m` and
  intercept `c`; the model uses the exact integer cross-multiplication and
  proves it agrees with the slope/intercept form over the reals.
 */
module Geometry {

  /** A line through (x1, y1) and (x2, y2), in pixels. */
  datatype Line = Line(x1: int, y1: int, x2: int, y2: int)

  /** The diagonal counting line (21, 238)-(763, 352). */
  const COUNTING_LINE: Line := Line(21, 238, 763, 352)

  datatype Point = Point(x: int, y: int)

  /** A detection box as the tracker reports it: float corner coordinates. */
  datatype Box = Box(x1: real, y1: real, x2: real, y2: real)

  /** Python's `int()` on a float: truncation toward zero. */
  function Trunc(x: real): (n: int)
    ensures 0.0 <= x ==> n as real <= x < n as real + 1.0
    ensures x < 0.0 ==> n as real - 1.0 < x <= n as real
  {
    if x >= 0.0 then x.Floor else -((-x).Floor)
  }

  /** The centroid `((x1 + x2) // 2, (y1 + y2) // 2)` of the truncated box;
      Python's `//` floors, which for the divisor 2 is Dafny's `/`. */
  function Centroid(b: Box): (p: Point)
    ensures 2 * p.x <= Trunc(b.x1) + Trunc(b.x2) <= 2 * p.x + 1
    ensures 2 * p.y <= Trunc(b.y1) + Trunc(b.y2) <= 2 * p.y + 1
  {
    Point((Trunc(b.x1) + Trunc(b.x2)) / 2, (Trunc(b.y1) + Trunc(b.y2)) / 2)
  }

  /** The point lies strictly below the line (for x1 < x2), stated without division. */
  predicate Below(l: Line, p: Point) {
    (p.y - l.y1) * (l.x2 - l.x1) > (l.y2 - l.y1) * (p.x - l.x1)
  }

  function Slope(l: Line): real
    requires l.x1 != l.x2
  {
    (l.y2 - l.y1) as real / (l.x2 - l.x1) as real
  }

  function Intercept(l: Line): real
    requires l.x1 != l.x2
  {
    l.y1 as real - Slope(l) * l.x1 as real
  }

  /** For a line whose endpoints are given left to right, the
      cross-multiplied test is the source's `cy > m * cx + c` evaluated exactly. */
  lemma BelowIffSlopeForm(l: Line, p: Point)
    requires l.x1 < l.x2
    ensures Below(l, p) <==> p.y as real > Slope(l) * p.x as real + Intercept(l)
  {
    var dx := (l.x2 - l.x1) as real;
    var dy := (l.y2 - l.y1) as real;
    var m := Slope(l);
    var u := (p.x - l.x1) as real;
    var v := (p.y - l.y1) as real;
    assert m * dx == dy;
    assert Slope(l) * p.x as real + Intercept(l) == l.y1 as real + m * u;
    assert ((p.y - l.y1) * (l.x2 - l.x1)) as real == v * dx;
    assert ((l.y2 - l.y1) * (p.x - l.x1)) as real == dy * u;
    assert dy * u == (m * u) * dx;
    if v > m * u {
      assert v * dx > (m * u) * dx;
    } else {
      assert v * dx <= (m * u) * dx;
    }
  }

  /** The source's line is not vertical, so its test is the slope form. */
  lemma CountingLineTest(p: Point)
    ensures Below(COUNTING_LINE, p) <==> p.y as real > Slope(COUNTING_LINE) * p.x as real + Intercept(COUNTING_LINE)
  {
    BelowIffSlopeForm(COUNTING_LINE, p);
  }
}
