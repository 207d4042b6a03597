/** Worked runs of the tour on concrete points, each checked against what the
    operations promise. */
module Scenarios {
  import opened Geometry
  import opened TourSpec
  import opened Ring
  import opened CircularList

  /** Under the Euclidean measure the right triangle A(0,0), B(10,0), C(10,10)
      has perimeter 20 + sqrt(200), between 34.14 and 34.15. */
  lemma TrianglePerimeter(dist: Metric)
    requires Euclidean(dist)
    ensures var a, b, c := Point(0, 0), Point(10, 0), Point(10, 10);
      34.14 < TourLength(dist, [c, b, a]) < 34.15
  {
    var a, b, c := Point(0, 0), Point(10, 0), Point(10, 10);
    EuclideanValue(dist, c, b, 10.0);
    EuclideanValue(dist, b, a, 10.0);
    var h := dist(a, c);
    SquareOrder(14.14, h);
    SquareOrder(h, 14.15);
    PathLengthSnoc(dist, [c], b);
    assert [c] + [b] == [c, b];
    PathLengthSnoc(dist, [c, b], a);
    assert [c, b] + [a] == [c, b, a];
  }

  /** insertBeginning of A, B, C visits C, B, A; the tour is the triangle's
      perimeter and size counts the three calls. */
  method InsertBeginningScenario(dist: Metric) returns (points: seq<Point>, total: real, size: int)
    requires Euclidean(dist)
    ensures points == [Point(10, 10), Point(10, 0), Point(0, 0)]
    ensures 34.14 < total < 34.15
    ensures size == 3
  {
    var a, b, c := Point(0, 0), Point(10, 0), Point(10, 10);
    var list := new CircularLinkedList(dist);
    list.InsertBeginning(a);
    list.InsertBeginning(b);
    list.InsertBeginning(c);
    points := list.Points();
    total := list.TotalDistance();
    size := list.GetSize();
    TrianglePerimeter(dist);
  }

  /** insertNearest of A(0,0), B(100,0), C(1,1): C lands right after A, its
      nearest point, and size stays 0 because only insertBeginning counts. */
  method InsertNearestScenario(dist: Metric) returns (points: seq<Point>, size: int)
    requires Euclidean(dist)
    ensures points == [Point(0, 0), Point(1, 1), Point(100, 0)]
    ensures size == 0
  {
    var a, b, c := Point(0, 0), Point(100, 0), Point(1, 1);
    var list := new CircularLinkedList(dist);
    list.InsertNearest(a);
    list.InsertNearest(b);
    EuclideanOrder(dist, b, c, a, c);
    assert NearestIndex(dist, [a, b], c) == 0;
    list.InsertNearest(c);
    points := list.Points();
    size := list.GetSize();
  }

  /** insertBeginning of C, B, A gives the tour A(0,0), B(10,0), C(10,10). */
  method TriangleTour(dist: Metric) returns (list: CircularLinkedList)
    ensures fresh(list) && list.Valid() && list.dist == dist
    ensures list.order == [Point(0, 0), Point(10, 0), Point(10, 10)]
  {
    list := new CircularLinkedList(dist);
    list.InsertBeginning(Point(10, 10));
    list.InsertBeginning(Point(10, 0));
    list.InsertBeginning(Point(0, 0));
  }

  /** insertSmallest of p(5,5) into the tour A, B, C goes after A, because
      the scan skips the closing edge from C back to A on which p lies; the
      resulting tour is longer than the one through the closing edge. */
  method InsertSmallestScenario(dist: Metric) returns (points: seq<Point>, total: real)
    requires Euclidean(dist)
    ensures points == [Point(0, 0), Point(5, 5), Point(10, 0), Point(10, 10)]
    ensures total > TourLength(dist, [Point(0, 0), Point(10, 0), Point(10, 10), Point(5, 5)])
  {
    var a, b, c, p := Point(0, 0), Point(10, 0), Point(10, 10), Point(5, 5);
    var list := TriangleTour(dist);
    ghost var s := [a, b, c];
    ghost var longer := InsertAfter(s, 0, p);
    assert CheapestIndex(dist, s, p) == 0
        && TourLength(dist, longer) > TourLength(dist, [a, b, c, p]) by {
      ClosingEdgeCounterexample(dist);
      assert s + [p] == [a, b, c, p];
    }
    list.InsertSmallest(p);
    assert list.order == longer;
    points := list.Points();
    total := list.TotalDistance();
  }

  /** After reset the tour is empty and has length 0, while size keeps counting
      the earlier insertBeginning calls. */
  method ResetScenario(dist: Metric) returns (points: seq<Point>, total: real, size: int)
    ensures points == [] && total == 0.0
    ensures size == 2
  {
    var list := new CircularLinkedList(dist);
    list.InsertBeginning(Point(0, 0));
    list.InsertBeginning(Point(3, 4));
    list.Reset();
    total := list.TotalDistance();
    points := list.Points();
    size := list.GetSize();
  }
}
