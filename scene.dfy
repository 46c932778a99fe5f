/** Scene space of the editor canvas: the square [-1, 1] x [-1, 1] with its
    origin in the centre and +y pointing up, the conversion from widget pixels
    (origin top-left, +y down) into it, and the squared distance used to pick a
    control point. Coordinates are exact reals; the widget computes with 32-bit
    floats. */
module Scene {

  datatype Point = Point(x: real, y: real)

  /** p lies on the visible canvas. Points outside it are allowed in a net;
      they are simply drawn off the edge. */
  predicate InCanvas(p: Point) {
    -1.0 <= p.x <= 1.0 && -1.0 <= p.y <= 1.0
  }

  /** a * b, kept as a function so that the solver treats a product of two
      coordinate differences as one term. */
  function Times(a: real, b: real): real {
    a * b
  }

  lemma TimesPositive(a: real, b: real)
    requires a > 0.0 && b > 0.0
    ensures Times(a, b) > 0.0
  {
  }

  /** The widget's `sq`: the square of r, zero exactly when r is. */
  function Sq(r: real): (s: real)
    ensures s >= 0.0
    ensures s > 0.0 <==> r != 0.0
  {
    SquareSign(r);
    Times(r, r)
  }

  lemma SquareSign(r: real)
    ensures Times(r, r) >= 0.0
    ensures Times(r, r) > 0.0 <==> r != 0.0
  {
    if r > 0.0 {
      TimesPositive(r, r);
    } else if r < 0.0 {
      TimesPositive(-r, -r);
      assert Times(-r, -r) == Times(r, r);
    }
  }

  /** Squared Euclidean distance from p to the query point q, as findClosest
      computes it with `pow(., 2)` on each axis. */
  function SqDist(p: Point, q: Point): (d: real)
    ensures d >= 0.0
    ensures d > 0.0 <==> p != q
  {
    Sq(p.x - q.x) + Sq(p.y - q.y)
  }

  /** Position along an axis of `extent` pixels as a fraction of that extent. */
  function Ratio(pos: int, extent: int): real
    requires extent > 0
  {
    pos as real / extent as real
  }

  /** Pixel (px, py) of a width x height widget, in scene coordinates:
      x blends from -1 at the left edge to 1 at the right edge, y from 1 at
      the top edge to -1 at the bottom edge. */
  function ToScene(px: int, py: int, width: int, height: int): (s: Point)
    requires width > 0 && height > 0
    ensures 0 <= px <= width ==> -1.0 <= s.x <= 1.0
    ensures 0 <= py <= height ==> -1.0 <= s.y <= 1.0
    ensures 0 <= px <= width && 0 <= py <= height ==> InCanvas(s)
  {
    var xRatio := Ratio(px, width);
    var yRatio := Ratio(py, height);
    RatioBounds(px, width);
    RatioBounds(py, height);
    Point((1.0 - xRatio) * -1.0 + xRatio * 1.0, yRatio * -1.0 + (1.0 - yRatio) * 1.0)
  }

  lemma RatioBounds(pos: int, extent: int)
    requires extent > 0
    ensures 0 <= pos <= extent ==> 0.0 <= Ratio(pos, extent) <= 1.0
  {
    if 0 <= pos <= extent {
      assert Ratio(pos, extent) * extent as real == pos as real;
    }
  }

  /** Where a scene point is drawn in a width x height widget, in (possibly
      fractional) pixels: the inverse of ToScene. */
  function ToPixel(s: Point, width: int, height: int): (real, real)
    requires width > 0 && height > 0
  {
    (Times((s.x + 1.0) / 2.0, width as real), Times((1.0 - s.y) / 2.0, height as real))
  }

  /** Converting a pixel to the scene and back gives the same pixel. */
  lemma ToSceneRoundTrip(px: int, py: int, width: int, height: int)
    requires width > 0 && height > 0
    ensures ToPixel(ToScene(px, py, width, height), width, height) == (px as real, py as real)
  {
    var s := ToScene(px, py, width, height);
    var xr, yr := Ratio(px, width), Ratio(py, height);
    assert s == Point(2.0 * xr - 1.0, 1.0 - 2.0 * yr);
    assert (s.x + 1.0) / 2.0 == xr && (1.0 - s.y) / 2.0 == yr;
    assert Times(xr, width as real) == px as real;
    assert Times(yr, height as real) == py as real;
  }

  /** Distinct pixels land on distinct scene points. */
  lemma ToSceneInjective(px: int, py: int, qx: int, qy: int, width: int, height: int)
    requires width > 0 && height > 0
    requires ToScene(px, py, width, height) == ToScene(qx, qy, width, height)
    ensures px == qx && py == qy
  {
    ToSceneRoundTrip(px, py, width, height);
    ToSceneRoundTrip(qx, qy, width, height);
  }

  /** The top-left corner is (-1, 1), the bottom-right corner (1, -1) and the
      centre pixel the scene origin. */
  lemma ToSceneLandmarks(width: int, height: int)
    requires width > 0 && height > 0
    ensures ToScene(0, 0, width, height) == Point(-1.0, 1.0)
    ensures ToScene(width, height, width, height) == Point(1.0, -1.0)
    ensures width % 2 == 0 && height % 2 == 0 ==>
              ToScene(width / 2, height / 2, width, height) == Point(0.0, 0.0)
  {
    assert Ratio(width, width) == 1.0;
    assert Ratio(height, height) == 1.0;
    if width % 2 == 0 && height % 2 == 0 {
      assert Ratio(width / 2, width) == 0.5;
      assert Ratio(height / 2, height) == 0.5;
    }
  }

  /** Moving right increases x; moving down decreases y (the vertical flip). */
  lemma ToSceneOrientation(px: int, py: int, qx: int, qy: int, width: int, height: int)
    requires width > 0 && height > 0
    requires px < qx && py < qy
    ensures ToScene(px, py, width, height).x < ToScene(qx, qy, width, height).x
    ensures ToScene(px, py, width, height).y > ToScene(qx, qy, width, height).y
  {
    assert Ratio(px, width) < Ratio(qx, width);
    assert Ratio(py, height) < Ratio(qy, height);
  }
}
