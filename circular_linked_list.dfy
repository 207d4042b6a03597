/** The tour itself: a circular doubly linked ring of points, its three insertion
    heuristics, its length and its one-lap iterator. Nodes live in an arena of
    three parallel sequences (point, next, prev) and are named by their slot;
    -1 plays the part of null. Rewiring a node's link updates its slot. */
module CircularList {
  import opened Geometry
  import opened TourSpec
  import opened Ring

  datatype Option<T> = None | Some(value: T)

  /** What Iterator.remove does: it always throws UnsupportedOperationException. */
  datatype RemoveOutcome = Removed | UnsupportedOperation

  class CircularLinkedList {
    /** The distance the heuristics compare (distanceBetween). */
    const dist: Metric

    // the arena: slot k holds a node's point, next and prev
    var pts: seq<Point>
    var nxt: seq<int>
    var prv: seq<int>

    var head: int
    var size: int

    /** Slots of the ring in visiting order, starting at head. */
    ghost var nodes: seq<int>
    /** Points of the ring in visiting order, starting at head. */
    ghost var order: seq<Point>
    /** How many times InsertBeginning has run. It only mirrors size
        (WellLinked ties the two together); the mutators' clauses on size
        carry the promise that GetSize counts InsertBeginning calls. */
    ghost var headInserts: nat

    /** The ring is circular and doubly linked through distinct slots of the
        arena that carry the points of order, head is its first node (-1 when
        it is empty), and size counts the calls of InsertBeginning. */
    ghost predicate WellLinked()
      reads this
    {
      RingShape(nodes, order, head, pts, nxt, prv) && size == headInserts
    }

    /** WellLinked, and every slot of the arena belongs to the ring. */
    ghost predicate Valid()
      reads this
    {
      WellLinked() && |nodes| == |pts|
    }

    constructor (dist: Metric)
      ensures Valid() && this.dist == dist
      ensures order == [] && head == -1 && size == 0 && headInserts == 0
    {
      this.dist := dist;
      pts, nxt, prv := [], [], [];
      head := -1;
      size := 0;
      nodes, order := [], [];
      headInserts := 0;
    }

    /** new Node(p, null, null): a fresh slot holding p, linked nowhere yet. */
    method AllocNode(p: Point) returns (c: int)
      requires Valid()
      modifies this
      ensures WellLinked() && c == |old(pts)| && Within(nodes, c)
      ensures pts == old(pts) + [p] && nxt == old(nxt) + [-1] && prv == old(prv) + [-1]
      ensures nodes == old(nodes) && order == old(order) && head == old(head)
      ensures size == old(size) && headInserts == old(headInserts)
    {
      c := |pts|;
      AllocShape(nodes, order, head, pts, nxt, prv, p);
      pts, nxt, prv := pts + [p], nxt + [-1], prv + [-1];
    }

    /** The new point becomes the head, spliced in between the old last node and
        the old head; size grows by one. */
    method InsertBeginning(p: Point)
      requires Valid()
      modifies this
      ensures Valid()
      ensures order == [p] + old(order) && nodes[1..] == old(nodes)
      ensures size == old(size) + 1 && headInserts == old(headInserts) + 1
    {
      var newNode := AllocNode(p);
      size := size + 1;
      headInserts := headInserts + 1;
      if head == -1 {
        SingletonShape(newNode, pts, nxt, prv);
        head := newNode;
        nxt, prv := nxt[head := head], prv[head := head];
        nodes, order := [newNode], [p];
        return;
      }
      PrependShape(nodes, order, head, pts, nxt, prv, newNode);
      SelfLinkedIffSingleton(nodes, nxt, prv);
      var nx, pv := nxt, prv;
      if nx[head] == head {
        var oldHead := head;
        nx := nx[newNode := oldHead];
        pv := pv[newNode := oldHead];
        pv := pv[oldHead := newNode];
        nx := nx[oldHead := newNode];
      } else {
        var lastNode := pv[head];
        var oldHead := head;
        nx := nx[lastNode := newNode];
        nx := nx[newNode := oldHead];
        pv := pv[newNode := lastNode];
        pv := pv[oldHead := newNode];
      }
      nxt, prv, head := nx, pv, newNode;
      nodes, order := [newNode] + nodes, [p] + order;
    }

    /** On two or more nodes, p goes right after the first node nearest to it;
        on fewer it is appended. head and size do not change (except that p
        becomes the head of an empty ring). */
    method InsertNearest(newPoint: Point)
      requires Valid()
      modifies this
      ensures Valid()
      ensures |old(order)| <= 1 ==> order == old(order) + [newPoint]
      ensures |old(order)| >= 2 ==>
        order == InsertAfter(old(order), NearestIndex(dist, old(order), newPoint), newPoint) &&
        nodes == InsertAfter(old(nodes), NearestIndex(dist, old(order), newPoint), |old(pts)|)
      ensures old(head) != -1 ==> head == old(head)
      ensures size == old(size) && headInserts == old(headInserts)
    {
      var newNode := AllocNode(newPoint);
      if head == -1 {
        SingletonShape(newNode, pts, nxt, prv);
        head := newNode;
        nxt, prv := nxt[head := head], prv[head := head];
        nodes, order := [newNode], [newPoint];
        return;
      }
      SelfLinkedIffSingleton(nodes, nxt, prv);
      var nx, pv := nxt, prv;
      if nx[head] == head {
        SpliceShape(nodes, order, head, pts, nxt, prv, 0, newNode);
        pv := pv[newNode := head];
        nx := nx[newNode := head];
        nx := nx[head := newNode];
        pv := pv[head := newNode];
        nxt, prv := nx, pv;
        nodes, order := InsertAfter(nodes, 0, newNode), InsertAfter(order, 0, newPoint);
        return;
      }
      ghost var k := NearestIndex(dist, order, newPoint);
      var nearestNode := GetNearestNodeToPoint(newPoint);
      SpliceShape(nodes, order, head, pts, nxt, prv, k, newNode);
      var oldNext := nx[nearestNode];
      pv := pv[newNode := nearestNode];
      nx := nx[newNode := oldNext];
      nx := nx[nearestNode := newNode];
      pv := pv[oldNext := newNode];
      nxt, prv := nx, pv;
      nodes, order := InsertAfter(nodes, k, newNode), InsertAfter(order, k, newPoint);
    }

    /** The first node, scanning from head, whose distance to the point is
        least (-1 on an empty ring). */
    method GetNearestNodeToPoint(nearestTo: Point) returns (targetNode: int)
      requires WellLinked()
      ensures nodes == [] ==> targetNode == -1
      ensures nodes != [] ==> targetNode == nodes[NearestIndex(dist, order, nearestTo)]
    {
      ghost var costs := NearCosts(dist, order, nearestTo);
      var minDistance: Option<real> := None;
      targetNode := -1;
      var traverse := head;
      ghost var i: nat := 0;
      while traverse != -1
        invariant nodes == [] ==> traverse == -1 && i == 0
        invariant nodes != [] ==> i < |nodes| && traverse == nodes[i]
        invariant i == 0 ==> minDistance == None && targetNode == -1
        invariant 0 < i <= |nodes| ==>
          minDistance == Some(costs[FirstMin(costs, i)]) && targetNode == nodes[FirstMin(costs, i)]
        decreases |nodes| - i
      {
        var distance := dist(pts[traverse], nearestTo);
        assert distance == costs[i];
        ghost var m := FirstMin(costs, i + 1);
        if minDistance == None || distance < minDistance.value {
          assert m == i;
          minDistance := Some(distance);
          targetNode := traverse;
        } else {
          assert m == FirstMin(costs, i);
        }
        traverse := nxt[traverse];
        i := i + 1;
        if traverse == head {
          break;
        }
        assert traverse == nodes[i] by {
          assert nodes[Succ(i - 1, |nodes|)] != nodes[0];
        }
      }
    }

    /** The start of the first edge (curr, next), scanning from head and never
        reaching the closing edge back to head, whose insertion delta
        |d(curr,p) + d(p,next) - d(curr,next)| is least; -1 on a one-node ring. */
    method GetNodeWithLeastDistance(p: Point) returns (targetNode: int)
      requires WellLinked() && nodes != []
      ensures |nodes| == 1 ==> targetNode == -1
      ensures |nodes| >= 2 ==> targetNode == nodes[CheapestIndex(dist, order, p)]
    {
      ghost var ring, tour := nodes, order;
      ghost var costs := EdgeCosts(dist, tour, p);
      var nx, ps := nxt, pts;
      var minDeltaDistance: Option<real> := None;
      targetNode := -1;
      var curr := head;
      var next := nx[curr];
      ghost var i: nat := 0;
      ghost var best: nat := 0;
      while next != head
        invariant i < |ring| && curr == ring[i] && next == ring[Succ(i, |ring|)]
        invariant i == 0 ==> minDeltaDistance == None && targetNode == -1
        invariant i > 0 ==> i <= |costs| && best == FirstMin(costs, i)
        invariant i > 0 ==> minDeltaDistance == Some(costs[best]) && targetNode == ring[best]
        decreases |ring| - i
      {
        assert Succ(i, |ring|) != 0;
        var originalDistance := dist(ps[curr], ps[next]);
        var newDistance := dist(ps[curr], p) + dist(p, ps[next]);
        var localDeltaDiff := Abs(newDistance - originalDistance);
        assert localDeltaDiff == costs[i] by {
          assert ps[curr] == tour[i] && ps[next] == tour[i + 1];
        }
        if minDeltaDistance == None || localDeltaDiff < minDeltaDistance.value {
          minDeltaDistance := Some(localDeltaDiff);
          targetNode := curr;
          best := i;
        }
        assert best == FirstMin(costs, i + 1);
        curr := next;
        next := nx[next];
        i := i + 1;
        assert best == FirstMin(costs, i);
      }
      assert Succ(i, |ring|) == 0;
      assert i == |ring| - 1;
      assert |ring| >= 2 ==> FirstMin(costs, i) == CheapestIndex(dist, order, p);
    }

    /** On two or more nodes, p goes into the first edge with the least
        insertion delta, never the closing edge; on fewer it is appended. head,
        the node before head, and size do not change (except that p becomes the
        head of an empty ring). */
    method InsertSmallest(p: Point)
      requires Valid()
      modifies this
      ensures Valid()
      ensures |old(order)| <= 1 ==> order == old(order) + [p]
      ensures |old(order)| >= 2 ==>
        order == InsertAfter(old(order), CheapestIndex(dist, old(order), p), p) &&
        nodes == InsertAfter(old(nodes), CheapestIndex(dist, old(order), p), |old(pts)|) &&
        nodes[|nodes| - 1] == old(nodes[|nodes| - 1]) && prv[head] == old(prv[head])
      ensures old(head) != -1 ==> head == old(head)
      ensures size == old(size) && headInserts == old(headInserts)
    {
      var newNode := AllocNode(p);
      if head == -1 {
        SingletonShape(newNode, pts, nxt, prv);
        head := newNode;
        nxt, prv := nxt[head := head], prv[head := head];
        nodes, order := [newNode], [p];
        return;
      }
      SelfLinkedIffSingleton(nodes, nxt, prv);
      var nx, pv := nxt, prv;
      if nx[head] == head {
        SpliceShape(nodes, order, head, pts, nxt, prv, 0, newNode);
        nx := nx[newNode := head];
        pv := pv[newNode := head];
        nx := nx[head := newNode];
        pv := pv[head := newNode];
        nxt, prv := nx, pv;
        nodes, order := InsertAfter(nodes, 0, newNode), InsertAfter(order, 0, p);
        return;
      }
      ghost var k := CheapestIndex(dist, order, p);
      var bestNode := GetNodeWithLeastDistance(p);
      SpliceShape(nodes, order, head, pts, nxt, prv, k, newNode);
      var oldNext := nx[bestNode];
      nx := nx[bestNode := newNode];
      pv := pv[oldNext := newNode];
      pv := pv[newNode := bestNode];
      nx := nx[newNode := oldNext];
      nxt, prv := nx, pv;
      nodes, order := InsertAfter(nodes, k, newNode), InsertAfter(order, k, p);
    }

    /** Length of the closed tour through the points in visiting order; 0 for
        fewer than two points. Reads the ring through its own iterator. */
    method TotalDistance() returns (total: real)
      requires Valid()
      ensures total == TourLength(dist, order)
    {
      total := 0.0;
      if head == -1 {
        return 0.0;
      }
      SelfLinkedIffSingleton(nodes, nxt, prv);
      if nxt[head] == head {
        return 0.0;
      }
      ghost var tour := order;
      assert pts[head] == tour[0];
      var prevPoint: Option<Point> := None;
      var it := Iterator();
      while it.HasNext()
        invariant it.Valid() && it.list == this
        invariant it.visited == 0 ==> prevPoint == None
        invariant it.visited > 0 ==> prevPoint == Some(tour[it.visited - 1])
        invariant total == PathLength(dist, tour[..it.visited])
        decreases |tour| - it.visited
      {
        ghost var v := it.visited;
        ghost var seen := tour[..v];
        var p := it.Next();
        assert p == tour[v];
        assert total + (if v == 0 then 0.0 else dist(tour[v - 1], p)) == PathLength(dist, tour[..v + 1]) by {
          PrefixSnoc(tour, v);
          PathLengthSnoc(dist, seen, p);
        }
        if prevPoint == None {
          prevPoint := Some(p);
        } else {
          total := total + dist(prevPoint.value, p);
          prevPoint := Some(p);
        }
      }
      assert tour[..it.visited] == tour;
      total := total + dist(prevPoint.value, pts[head]);
    }

    /** Drops every node: the ring becomes empty, size keeps its value. */
    method Reset()
      requires Valid()
      modifies this
      ensures Valid() && order == [] && head == -1
      ensures size == old(size) && headInserts == old(headInserts)
    {
      head := -1;
      pts, nxt, prv := [], [], [];
      nodes, order := [], [];
    }

    /** The stored size: the number of InsertBeginning calls, not the number of
        nodes. */
    function GetSize(): (n: int)
      reads this
      requires Valid()
      ensures n == headInserts
    {
      size
    }

    /** A fresh iterator positioned at head. */
    method Iterator() returns (it: CircularLinkedListIterator)
      requires WellLinked()
      ensures fresh(it) && it.Valid() && it.list == this && it.visited == 0
    {
      it := new CircularLinkedListIterator(this);
    }

    /** The points one for-each pass over the ring yields: each node's point
        exactly once, in visiting order from head. */
    method Points() returns (s: seq<Point>)
      requires WellLinked()
      ensures s == order
    {
      s := [];
      var it := Iterator();
      while it.HasNext()
        invariant it.Valid() && it.list == this
        invariant s == order[..it.visited]
        decreases |nodes| - it.visited
      {
        var p := it.Next();
        s := s + [p];
      }
      assert s == order[..|order|];
    }
  }

  /** Following next, or prev, from head for as many steps as the ring has
      nodes comes back to head, and no shorter walk does. */
  lemma RingClosure(list: CircularLinkedList)
    requires list.WellLinked() && list.head != -1
    ensures Walk(list.nxt, list.head, |list.nodes|) == list.head
    ensures Walk(list.prv, list.head, |list.nodes|) == list.head
    ensures forall j :: 0 < j < |list.nodes| ==> Walk(list.nxt, list.head, j) != list.head
  {
    RingCloses(list.nodes, list.nxt, list.prv);
  }

  /** Walks a ring once from head: after the node before head it is exhausted. */
  class CircularLinkedListIterator {
    const list: CircularLinkedList
    var current: int
    /** How many points next() has returned. */
    ghost var visited: nat

    ghost predicate Valid()
      reads this, list
    {
      list.WellLinked() && visited <= |list.nodes| &&
      current == (if visited < |list.nodes| then list.nodes[visited] else -1)
    }

    constructor (list: CircularLinkedList)
      requires list.WellLinked()
      ensures Valid() && this.list == list && visited == 0
    {
      this.list := list;
      current := list.head;
      visited := 0;
    }

    /** True until every node has been visited once; false at once on an empty ring. */
    function HasNext(): (b: bool)
      reads this, list
      requires Valid()
      ensures b <==> visited < |list.nodes|
    {
      current != -1
    }

    /** The current node's point; the cursor moves to next and stops once it is back at head. */
    method Next() returns (p: Point)
      requires Valid() && HasNext()
      modifies this
      ensures Valid() && visited == old(visited) + 1
      ensures p == list.order[old(visited)]
    {
      var n := |list.nodes|;
      p := list.pts[current];
      current := list.nxt[current];
      assert current == list.nodes[Succ(visited, n)];
      if current == list.head {
        current := -1;
      }
      assert visited + 1 < n ==> list.nodes[visited + 1] != list.nodes[0];
      visited := visited + 1;
    }

    /** Removal is not supported. */
    method Remove() returns (r: RemoveOutcome)
      ensures r == UnsupportedOperation
    {
      r := UnsupportedOperation;
    }
  }
}
