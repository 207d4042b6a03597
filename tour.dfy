/** What the tour operations compute, stated on the visiting order alone
    (a sequence of points starting at the head of the ring). */
module TourSpec {
  import opened Geometry
  import opened Ring

  /** Index of the FIRST strict minimum among c[0..n): the left-to-right scan that
      keeps its candidate unless a later value is strictly smaller. */
  function FirstMin(c: seq<real>, n: nat): (k: nat)
    requires 0 < n <= |c|
    ensures k < n
  {
    if n == 1 then 0
    else
      var k := FirstMin(c, n - 1);
      if c[n - 1] < c[k] then n - 1 else k
  }

  /** k is a minimum of c[0..n) and no earlier index reaches it. */
  ghost predicate IsFirstMin(c: seq<real>, n: nat, k: nat)
    requires n <= |c|
  {
    k < n &&
    (forall j :: 0 <= j < n ==> c[k] <= c[j]) &&
    (forall j :: 0 <= j < k ==> c[j] > c[k])
  }

  lemma {:induction false} FirstMinIsFirstMinimum(c: seq<real>, n: nat)
    requires 0 < n <= |c|
    ensures IsFirstMin(c, n, FirstMin(c, n))
  {
    if n > 1 {
      FirstMinIsFirstMinimum(c, n - 1);
    }
  }

  /** The first strict minimum is unique, so FirstMin is the only index with that property. */
  lemma FirstMinUnique(c: seq<real>, n: nat, k: nat)
    requires 0 < n <= |c|
    ensures IsFirstMin(c, n, k) <==> k == FirstMin(c, n)
  {
    FirstMinIsFirstMinimum(c, n);
  }

  /** Distance from every point of the tour to p, in visiting order. */
  function NearCosts(dist: Metric, s: seq<Point>, p: Point): (c: seq<real>)
    ensures |c| == |s|
    ensures forall i :: 0 <= i < |s| ==> c[i] == dist(s[i], p)
  {
    if s == [] then []
    else NearCosts(dist, s[..|s| - 1], p) + [dist(s[|s| - 1], p)]
  }

  /** Index of the first point of s whose distance to p is least. */
  function NearestIndex(dist: Metric, s: seq<Point>, p: Point): (k: nat)
    requires |s| > 0
    ensures k < |s|
  {
    FirstMin(NearCosts(dist, s, p), |s|)
  }

  lemma NearestIndexIsFirstNearest(dist: Metric, s: seq<Point>, p: Point)
    requires |s| > 0
    ensures forall j :: 0 <= j < |s| ==> dist(s[NearestIndex(dist, s, p)], p) <= dist(s[j], p)
    ensures forall j :: 0 <= j < NearestIndex(dist, s, p) ==> dist(s[j], p) > dist(s[NearestIndex(dist, s, p)], p)
  {
    FirstMinIsFirstMinimum(NearCosts(dist, s, p), |s|);
  }

  /** |d(a,p) + d(p,b) - d(a,b)|: how much inserting p between a and b changes the length. */
  function InsertionDelta(dist: Metric, a: Point, b: Point, p: Point): real
  {
    Abs(dist(a, p) + dist(p, b) - dist(a, b))
  }

  /** The delta of every edge (s[i], s[i+1]) with i < |s| - 1: the closing edge
      from the last point back to the head is not among them. */
  function EdgeCosts(dist: Metric, s: seq<Point>, p: Point): (c: seq<real>)
    requires |s| >= 1
    ensures |c| == |s| - 1
    ensures forall i :: 0 <= i < |s| - 1 ==> c[i] == InsertionDelta(dist, s[i], s[i + 1], p)
  {
    if |s| == 1 then []
    else EdgeCosts(dist, s[..|s| - 1], p) + [InsertionDelta(dist, s[|s| - 2], s[|s| - 1], p)]
  }

  /** Index of the start of the first edge with the least delta. */
  function CheapestIndex(dist: Metric, s: seq<Point>, p: Point): (k: nat)
    requires |s| >= 2
    ensures k < |s| - 1
  {
    FirstMin(EdgeCosts(dist, s, p), |s| - 1)
  }

  lemma CheapestIndexIsFirstCheapest(dist: Metric, s: seq<Point>, p: Point)
    requires |s| >= 2
    ensures var k := CheapestIndex(dist, s, p);
      (forall j :: 0 <= j < |s| - 1 ==>
        InsertionDelta(dist, s[k], s[k + 1], p) <= InsertionDelta(dist, s[j], s[j + 1], p)) &&
      (forall j :: 0 <= j < k ==>
        InsertionDelta(dist, s[j], s[j + 1], p) > InsertionDelta(dist, s[k], s[k + 1], p))
  {
    FirstMinIsFirstMinimum(EdgeCosts(dist, s, p), |s| - 1);
  }

  /** The cheapest-insertion position never opens the closing edge: the head
      and the point before it stay at the two ends of the tour. */
  lemma CheapestKeepsEnds(dist: Metric, s: seq<Point>, p: Point)
    requires |s| >= 2
    ensures var t := InsertAfter(s, CheapestIndex(dist, s, p), p);
      t[0] == s[0] && t[|t| - 1] == s[|s| - 1]
  {
  }

  /** Sum of the distances between consecutive points, accumulated from the front. */
  function PathLength(dist: Metric, s: seq<Point>): real
  {
    if |s| <= 1 then 0.0
    else PathLength(dist, s[..|s| - 1]) + dist(s[|s| - 2], s[|s| - 1])
  }

  /** Length of the closed tour: the open path plus the edge from the last point back to the head. */
  function TourLength(dist: Metric, s: seq<Point>): real
  {
    if |s| <= 1 then 0.0
    else PathLength(dist, s) + dist(s[|s| - 1], s[0])
  }

  /** The prefix one longer is the prefix followed by the next element. */
  lemma PrefixSnoc<T>(s: seq<T>, i: nat)
    requires i < |s|
    ensures s[..i + 1] == s[..i] + [s[i]]
  {
  }

  /** Extending the path by one point adds the edge into it. */
  lemma PathLengthSnoc(dist: Metric, s: seq<Point>, x: Point)
    ensures PathLength(dist, s + [x]) == if s == [] then 0.0 else PathLength(dist, s) + dist(s[|s| - 1], x)
  {
    assert (s + [x])[..|s|] == s;
  }

  lemma {:induction false} PathLengthNonNegative(dist: Metric, s: seq<Point>)
    requires NonNegative(dist)
    ensures PathLength(dist, s) >= 0.0
  {
    if |s| > 1 {
      PathLengthNonNegative(dist, s[..|s| - 1]);
    }
  }

  lemma TourLengthNonNegative(dist: Metric, s: seq<Point>)
    requires NonNegative(dist)
    ensures TourLength(dist, s) >= 0.0
  {
    PathLengthNonNegative(dist, s);
  }

  /** Every edge of the open path is part of its length. */
  lemma {:induction false} PathLengthCoversEdge(dist: Metric, s: seq<Point>, k: nat)
    requires NonNegative(dist)
    requires k + 1 < |s|
    ensures PathLength(dist, s) >= dist(s[k], s[k + 1])
  {
    var front := s[..|s| - 1];
    PathLengthNonNegative(dist, front);
    if k + 2 < |s| {
      PathLengthCoversEdge(dist, front, k);
    }
  }

  /** A point that differs from the head is reached by a step between two different points. */
  lemma {:induction false} ChangingStep(s: seq<Point>, i: nat) returns (k: nat)
    requires i < |s| && s[i] != s[0]
    ensures k + 1 < |s| && k < i && s[k] != s[k + 1]
  {
    if s[i - 1] != s[i] {
      k := i - 1;
    } else {
      k := ChangingStep(s, i - 1);
    }
  }

  /** A tour through two different points has positive length under the Euclidean measure. */
  lemma TourLengthPositive(dist: Metric, s: seq<Point>, i: nat, j: nat)
    requires Euclidean(dist)
    requires i < |s| && j < |s| && s[i] != s[j]
    ensures TourLength(dist, s) > 0.0
  {
    assert NonNegative(dist);
    var k := ChangingStep(s, if s[i] != s[0] then i else j);
    PathLengthCoversEdge(dist, s, k);
    SquareOrder(0.0, dist(s[k], s[k + 1]));
    assert dist(s[k], s[|s| - 1]) >= 0.0;
    assert dist(s[|s| - 1], s[0]) >= 0.0;
  }

  /** Joining two paths adds the edge between them. */
  lemma {:induction false} PathLengthAppend(dist: Metric, a: seq<Point>, b: seq<Point>)
    requires |a| > 0 && |b| > 0
    ensures PathLength(dist, a + b) == PathLength(dist, a) + dist(a[|a| - 1], b[0]) + PathLength(dist, b)
  {
    var ab := a + b;
    if |b| == 1 {
      assert ab[..|ab| - 1] == a;
    } else {
      var b' := b[..|b| - 1];
      assert ab[..|ab| - 1] == a + b';
      assert b'[0] == b[0];
      PathLengthAppend(dist, a, b');
    }
  }

  /** Inserting p after position k replaces the edge (s[k], next) by the detour
      through p; every other edge of the tour stays. */
  lemma InsertAfterLength(dist: Metric, s: seq<Point>, k: nat, p: Point)
    requires |s| >= 2 && k < |s|
    ensures var next := if k + 1 < |s| then s[k + 1] else s[0];
      TourLength(dist, InsertAfter(s, k, p)) ==
        TourLength(dist, s) + dist(s[k], p) + dist(p, next) - dist(s[k], next)
  {
    var t := InsertAfter(s, k, p);
    if k + 1 == |s| {
      assert t == s + [p];
      PathLengthAppend(dist, s, [p]);
    } else {
      var front, back := s[..k + 1], s[k + 1..];
      assert s == front + back;
      assert t == (front + [p]) + back;
      PathLengthAppend(dist, front, back);
      PathLengthAppend(dist, front + [p], back);
      PathLengthAppend(dist, front, [p]);
    }
  }

  /** Under the triangle inequality the absolute value in the delta changes
      nothing, and the edge the cheapest-insertion scan picks gives a tour no
      longer than inserting p into any other edge the scan considers. */
  lemma CheapestIsShortest(dist: Metric, s: seq<Point>, p: Point, j: nat)
    requires Triangle(dist)
    requires |s| >= 2 && j < |s| - 1
    ensures TourLength(dist, InsertAfter(s, CheapestIndex(dist, s, p), p)) <=
            TourLength(dist, InsertAfter(s, j, p))
  {
    var k := CheapestIndex(dist, s, p);
    CheapestIndexIsFirstCheapest(dist, s, p);
    assert TriangleAt(dist, s[k], p, s[k + 1]);
    assert TriangleAt(dist, s[j], p, s[j + 1]);
    InsertAfterLength(dist, s, k, p);
    InsertAfterLength(dist, s, j, p);
  }

  /** The distances of the counterexample below, pinned down by their
      squares: every point is sqrt(50) from p(5,5), the legs are 10 and the
      hypotenuse is twice sqrt(50). */
  lemma CounterexampleDistances(dist: Metric)
    requires Euclidean(dist)
    ensures var a, b, c, p := Point(0, 0), Point(10, 0), Point(10, 10), Point(5, 5);
      var x := dist(a, p);
      x > 5.0 && dist(p, a) == x && dist(p, b) == x && dist(b, p) == x &&
      dist(p, c) == x && dist(c, p) == x &&
      dist(a, b) == 10.0 && dist(b, c) == 10.0 && dist(c, a) == 2.0 * x
  {
    var a, b, c, p := Point(0, 0), Point(10, 0), Point(10, 10), Point(5, 5);
    var x := dist(a, p);
    EuclideanValue(dist, p, a, x);
    EuclideanValue(dist, p, b, x);
    EuclideanValue(dist, b, p, x);
    EuclideanValue(dist, p, c, x);
    EuclideanValue(dist, c, p, x);
    EuclideanValue(dist, a, b, 10.0);
    EuclideanValue(dist, b, c, 10.0);
    EuclideanValue(dist, c, a, 2.0 * x);
    SquareOrder(5.0, x);
  }

  /** The scan never looks at the closing edge, so its choice can make the
      tour longer than closing it through p would: with A(0,0), B(10,0),
      C(10,10) and p(5,5) on the segment from C back to A, both scanned edges
      cost 2*sqrt(50) - 10 > 0, the closing edge costs nothing, and the scan
      inserts p after A. */
  lemma ClosingEdgeCounterexample(dist: Metric)
    requires Euclidean(dist)
    ensures var s, p := [Point(0, 0), Point(10, 0), Point(10, 10)], Point(5, 5);
      CheapestIndex(dist, s, p) == 0 &&
      TourLength(dist, InsertAfter(s, CheapestIndex(dist, s, p), p)) > TourLength(dist, s + [p])
  {
    CounterexampleDistances(dist);
    var a, b, c, p := Point(0, 0), Point(10, 0), Point(10, 10), Point(5, 5);
    var s := [a, b, c];
    var x := dist(a, p);
    var costs := EdgeCosts(dist, s, p);
    assert costs[0] == costs[1];
    assert CheapestIndex(dist, s, p) == 0;
    var t := InsertAfter(s, 0, p);
    assert t == [a, p, b, c];
    assert TourLength(dist, t) == x + x + 10.0 + 2.0 * x by {
      PathLengthSnoc(dist, [a], p);
      assert [a] + [p] == [a, p];
      PathLengthSnoc(dist, [a, p], b);
      assert [a, p] + [b] == [a, p, b];
      PathLengthSnoc(dist, [a, p, b], c);
      assert [a, p, b] + [c] == t;
    }
    var u := s + [p];
    assert u == [a, b, c, p];
    assert TourLength(dist, u) == 10.0 + 10.0 + x + x by {
      PathLengthSnoc(dist, [a], b);
      assert [a] + [b] == [a, b];
      PathLengthSnoc(dist, [a, b], c);
      assert [a, b] + [c] == s;
      PathLengthSnoc(dist, s, p);
    }
  }
}
