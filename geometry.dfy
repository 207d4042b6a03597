/** Points of the screen and the distance measure the tour heuristics compare. */
module Geometry {

  /** A screen point with integer coordinates (android.graphics.Point). */
  datatype Point = Point(x: int, y: int)

  /** A distance measure between two points. The source measures the Euclidean
      distance with Math.sqrt; Dafny has no square root, so the tour takes the
      measure as a function value and its properties are proved for any measure
      (or for every measure with the properties a lemma names). */
  type Metric = (Point, Point) -> real

  function Abs(r: real): (a: real)
    ensures a >= 0.0 && (a == r || a == -r)
  {
    if r < 0.0 then -r else r
  }

  /** The squared Euclidean distance, (y1-y2)^2 + (x1-x2)^2. */
  function SquaredDistance(a: Point, b: Point): (d: int)
    ensures d >= 0
    ensures d == 0 <==> a == b
  {
    (a.y - b.y) * (a.y - b.y) + (a.x - b.x) * (a.x - b.x)
  }

  ghost predicate NonNegative(dist: Metric)
  {
    forall a, b :: dist(a, b) >= 0.0
  }

  ghost predicate TriangleAt(dist: Metric, a: Point, b: Point, c: Point)
  {
    dist(a, c) <= dist(a, b) + dist(b, c)
  }

  /** The detour through b is never shorter than the direct way from a to c. */
  ghost predicate Triangle(dist: Metric)
  {
    forall a, b, c :: TriangleAt(dist, a, b, c)
  }

  /** dist is the Euclidean distance: the non-negative root of the squared distance. */
  ghost predicate Euclidean(dist: Metric)
  {
    forall a, b :: dist(a, b) >= 0.0 && dist(a, b) * dist(a, b) == SquaredDistance(a, b) as real
  }

  /** Of two non-negative reals the one with the smaller square is the smaller. */
  lemma SquareOrder(u: real, v: real)
    requires u >= 0.0 && v >= 0.0
    ensures u * u < v * v <==> u < v
  {
    if u < v {
      var d := v - u;
      assert v * v == u * u + 2.0 * u * d + d * d;
      assert u * d >= 0.0;
      assert d * d > 0.0;
    } else {
      var d := u - v;
      assert u * u == v * v + 2.0 * v * d + d * d;
      assert v * d >= 0.0;
      assert d * d >= 0.0;
    }
  }

  /** The Euclidean measure orders points by their squared distances. */
  lemma EuclideanOrder(dist: Metric, a: Point, b: Point, c: Point, d: Point)
    requires Euclidean(dist)
    ensures dist(a, b) < dist(c, d) <==> SquaredDistance(a, b) < SquaredDistance(c, d)
  {
    SquareOrder(dist(a, b), dist(c, d));
  }

  /** Under the Euclidean measure a distance is pinned down by its square:
      the non-negative r with r * r equal to the squared distance. */
  lemma EuclideanValue(dist: Metric, a: Point, b: Point, r: real)
    requires Euclidean(dist)
    requires r >= 0.0 && r * r == SquaredDistance(a, b) as real
    ensures dist(a, b) == r
  {
    SquareOrder(dist(a, b), r);
    SquareOrder(r, dist(a, b));
  }
}
