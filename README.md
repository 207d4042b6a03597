# Touring Musician: the circular tour

This project models `CircularLinkedList`, the data structure behind the
Touring Musician travelling-salesman toy. It keeps a closed tour of screen
points as a circular, doubly linked ring of nodes. Points enter the tour by
one of three heuristics:

- `insertBeginning` makes the new point the head.
- `insertNearest` puts it right after the point nearest to it.
- `insertSmallest` puts it into the edge whose length changes least when it
  is added.

The tour also reports its total length, can be reset, and is walked once
from the head by its iterator.

The model is imperative, like the source:

- `CircularList.CircularLinkedList` is a class. Its methods rewire `next`
  and `prev` links in place.
- Nodes live in an arena of three sequence fields (`pts`, `nxt`, `prv`) and
  are named by their slot. `-1` stands for `null`.
- A ghost `nodes` and `order` record the ring in visiting order from `head`.
- `Valid()` states the ring invariant: the ring is circular and doubly
  linked through distinct slots, `head` is its first node, and `size`
  counts the calls of `insertBeginning`.
- Each public operation is proved to keep `Valid()` and to produce the
  visiting order described by a function of the old order (module
  `TourSpec`). The internal `AllocNode` keeps only `WellLinked()`, because
  it leaves a fresh slot that is not yet on the ring.
  - `[p] + order` for `insertBeginning`;
  - `InsertAfter(order, NearestIndex(..), p)` for `insertNearest`;
  - `InsertAfter(order, CheapestIndex(..), p)` for `insertSmallest`;
  - `TourLength(order)` for `totalDistance`.
- Module `Ring` holds the value-level facts about links that those proofs
  use: splicing, prepending and closing the ring.
- The distance is a parameter of the class. Lemmas that need more of it ask
  for it by name:
  - `NonNegative`;
  - `Triangle`;
  - `Euclidean`: the non-negative root of the squared distance. This is
    what `distanceBetween` computes as long as the coordinate differences
    fit in a 32-bit `int` (see "## Left out").

Two behaviours of the code deserve a note:

- Only `insertBeginning` increments `size`
  (CircularLinkedList.java:56). `insertNearest`, `insertSmallest` and
  `reset` leave it alone. So `getSize` counts `insertBeginning` calls
  since construction, not the nodes on the ring.
- The Javadoc of `getNodeWithLeastDistance` (CircularLinkedList.java:168-173)
  promises the node after which insertion gives a minimal total distance.
  Its loop (lines 182-195), however, stops before the closing edge from the
  last node back to `head`, so that edge is never a candidate.
  - `TourSpec.CheapestIsShortest` proves that the choice is the shortest
    tour among the edges scanned.
  - `TourSpec.ClosingEdgeCounterexample` shows that inserting into the
    closing edge can give a shorter tour, which breaks the Javadoc's
    promise.

## Model

| member | source | states |
|---|---|---|
| Geometry.SquaredDistance | app/src/main/java/com/google/engedu/touringmusician/CircularLinkedList.java:87-89 | the squared Euclidean distance under the root is never negative and is zero exactly when the points coincide |
| Geometry.EuclideanOrder | app/src/main/java/com/google/engedu/touringmusician/CircularLinkedList.java:87-89 | under the Euclidean measure one distance is smaller than another exactly when its squared distance is |
| Geometry.EuclideanValue | app/src/main/java/com/google/engedu/touringmusician/CircularLinkedList.java:87-89 | under the Euclidean measure a distance equals any non-negative r whose square is the squared distance |
| Geometry.Abs | app/src/main/java/com/google/engedu/touringmusician/CircularLinkedList.java:187 | Math.abs: the result is non-negative and is the value or its negation |
| TourSpec.FirstMinIsFirstMinimum | app/src/main/java/com/google/engedu/touringmusician/CircularLinkedList.java:153-162 | the strict-less-than scan keeps an index whose value is no larger than any other and strictly smaller than every earlier one (ties go to the first) |
| TourSpec.FirstMinUnique | app/src/main/java/com/google/engedu/touringmusician/CircularLinkedList.java:182-195 | the scan's choice is the only index that is a first minimum, in both directions |
| TourSpec.NearCosts | app/src/main/java/com/google/engedu/touringmusician/CircularLinkedList.java:154 | one distance per node, in visiting order, from the node's point to the new point |
| TourSpec.NearestIndexIsFirstNearest | app/src/main/java/com/google/engedu/touringmusician/CircularLinkedList.java:147-166 | the node insertNearest picks is at least as near as every node and strictly nearer than every node before it |
| TourSpec.EdgeCosts | app/src/main/java/com/google/engedu/touringmusician/CircularLinkedList.java:182-195 | one delta for each edge (s[i], s[i+1]) with i below n-1; the closing edge is not among them |
| TourSpec.CheapestIndexIsFirstCheapest | app/src/main/java/com/google/engedu/touringmusician/CircularLinkedList.java:174-197 | the edge insertSmallest picks has the least absolute delta among the scanned edges, and every earlier edge's delta is strictly larger |
| TourSpec.CheapestKeepsEnds | app/src/main/java/com/google/engedu/touringmusician/CircularLinkedList.java:182 | the cheapest insertion keeps head first and the node before head last: the closing edge is never opened |
| TourSpec.PathLengthSnoc | app/src/main/java/com/google/engedu/touringmusician/CircularLinkedList.java:99-107 | one more point adds the edge from the previous point to it, as the loop's `total += distanceBetween(prevPoint, p)` does |
| TourSpec.PathLengthNonNegative | app/src/main/java/com/google/engedu/touringmusician/CircularLinkedList.java:99-107 | for a non-negative measure the open path is never negative |
| TourSpec.TourLengthNonNegative | app/src/main/java/com/google/engedu/touringmusician/CircularLinkedList.java:91-112 | for a non-negative measure the tour length is never negative |
| TourSpec.PathLengthCoversEdge | app/src/main/java/com/google/engedu/touringmusician/CircularLinkedList.java:99-107 | every edge of the path is part of its length |
| TourSpec.TourLengthPositive | app/src/main/java/com/google/engedu/touringmusician/CircularLinkedList.java:91-112 | under the Euclidean measure a tour through two different points has positive length |
| TourSpec.PathLengthAppend | app/src/main/java/com/google/engedu/touringmusician/CircularLinkedList.java:99-107 | the path of two joined tours is the two paths plus the edge that joins them |
| TourSpec.InsertAfterLength | app/src/main/java/com/google/engedu/touringmusician/CircularLinkedList.java:183-187 | inserting p after position k changes the tour length by d(a,p) + d(p,b) - d(a,b) for that edge, wrapping to head after the last node |
| TourSpec.CheapestIsShortest | app/src/main/java/com/google/engedu/touringmusician/CircularLinkedList.java:168-197 | under the triangle inequality insertSmallest's edge gives a tour no longer than inserting into any other scanned edge |
| TourSpec.CounterexampleDistances | app/src/main/java/com/google/engedu/touringmusician/CircularLinkedList.java:87-89 | the Euclidean distances among (0,0), (10,0), (10,10) and (5,5) |
| TourSpec.ClosingEdgeCounterexample | app/src/main/java/com/google/engedu/touringmusician/CircularLinkedList.java:168-197 | for the tour (0,0), (10,0), (10,10) and p = (5,5) the scan picks edge 0, and that tour is longer than putting p on the skipped closing edge |
| Ring.InsertAfter | app/src/main/java/com/google/engedu/touringmusician/CircularLinkedList.java:135-142 | the new element sits right after position k; the elements before and after it keep their order |
| Ring.LinksInverse | app/src/main/java/com/google/engedu/touringmusician/CircularLinkedList.java:27-35 | in a linked ring n.next.prev == n and n.prev.next == n |
| Ring.SingletonLinked | app/src/main/java/com/google/engedu/touringmusician/CircularLinkedList.java:58-62 | a node that is its own next and prev is a one-node ring |
| Ring.SpliceLinked | app/src/main/java/com/google/engedu/touringmusician/CircularLinkedList.java:133-142 | rewiring the four links around a new node after ring[k] gives a linked ring in order InsertAfter(ring, k, c) |
| Ring.SpliceDistinct | app/src/main/java/com/google/engedu/touringmusician/CircularLinkedList.java:219-229 | adding a node not on the ring keeps the ring's nodes distinct |
| Ring.RotateLinks | app/src/main/java/com/google/engedu/touringmusician/CircularLinkedList.java:77-83 | a ring stays linked when its last node is taken as the first |
| Ring.SelfLinkedIffSingleton | app/src/main/java/com/google/engedu/touringmusician/CircularLinkedList.java:66 | head.next == head, and head.prev == head, exactly when the ring has one node |
| Ring.WalkForward | app/src/main/java/com/google/engedu/touringmusician/CircularLinkedList.java:257-263 | following next j times from head reaches the j-th node in visiting order |
| Ring.WalkBackward | app/src/main/java/com/google/engedu/touringmusician/CircularLinkedList.java:77 | following prev j times from head reaches the j-th node counted back from the end |
| Ring.RingCloses | app/src/main/java/com/google/engedu/touringmusician/CircularLinkedList.java:153-162 | following next, or prev, from head returns to head after exactly as many steps as there are nodes, and never sooner |
| Ring.AllocShape | app/src/main/java/com/google/engedu/touringmusician/CircularLinkedList.java:55 | allocating an unlinked node leaves the ring as it was |
| Ring.SingletonShape | app/src/main/java/com/google/engedu/touringmusician/CircularLinkedList.java:58-62 | a fresh node linked to itself is a valid one-node ring headed by it |
| Ring.SpliceShape | app/src/main/java/com/google/engedu/touringmusician/CircularLinkedList.java:199-233 | splicing a fresh node after ring[k] gives a valid ring with the same head, nodes InsertAfter(nodes, k, c) and points InsertAfter(order, k, p) |
| Ring.PrependShape | app/src/main/java/com/google/engedu/touringmusician/CircularLinkedList.java:65-84 | splicing a fresh node between the last node and head and making it head gives a valid ring with order [p] + order |
| CircularList.CircularLinkedList.constructor | app/src/main/java/com/google/engedu/touringmusician/CircularLinkedList.java:45-47 | a new tour is empty: no head, size 0 |
| CircularList.CircularLinkedList.AllocNode | app/src/main/java/com/google/engedu/touringmusician/CircularLinkedList.java:27-35 | new Node(p, null, null): a fresh slot holding p with no links; the ring is unchanged |
| CircularList.CircularLinkedList.InsertBeginning | app/src/main/java/com/google/engedu/touringmusician/CircularLinkedList.java:53-85 | keeps the ring invariant; the visiting order becomes [p] + old order with the old nodes behind the new head; size grows by one |
| CircularList.CircularLinkedList.InsertNearest | app/src/main/java/com/google/engedu/touringmusician/CircularLinkedList.java:114-145 | keeps the ring invariant; on an empty or one-node tour p is appended; otherwise p goes right after the first nearest node; head and size do not change |
| CircularList.CircularLinkedList.GetNearestNodeToPoint | app/src/main/java/com/google/engedu/touringmusician/CircularLinkedList.java:147-166 | returns null on an empty tour, else the node at NearestIndex: the first node whose distance to the point is least; the +infinity start is None |
| CircularList.CircularLinkedList.GetNodeWithLeastDistance | app/src/main/java/com/google/engedu/touringmusician/CircularLinkedList.java:174-197 | returns null on a one-node tour, else the start of the first scanned edge with the least absolute delta (CheapestIndex) |
| CircularList.CircularLinkedList.InsertSmallest | app/src/main/java/com/google/engedu/touringmusician/CircularLinkedList.java:199-233 | keeps the ring invariant; on an empty or one-node tour p is appended; otherwise p goes into the CheapestIndex edge; head, the node before head and size do not change |
| CircularList.CircularLinkedList.TotalDistance | app/src/main/java/com/google/engedu/touringmusician/CircularLinkedList.java:91-112 | changes nothing and returns TourLength of the visiting order: 0 for 0 or 1 points, else the consecutive distances plus the edge back to head |
| CircularList.CircularLinkedList.Reset | app/src/main/java/com/google/engedu/touringmusician/CircularLinkedList.java:235-237 | the tour becomes empty with no head; size keeps its value |
| CircularList.CircularLinkedList.GetSize | app/src/main/java/com/google/engedu/touringmusician/CircularLinkedList.java:239-241 | the stored size, which equals the number of insertBeginning calls |
| CircularList.CircularLinkedList.Iterator | app/src/main/java/com/google/engedu/touringmusician/CircularLinkedList.java:274-277 | a fresh iterator over this tour that has visited nothing |
| CircularList.CircularLinkedList.Points | app/src/main/java/com/google/engedu/touringmusician/CircularLinkedList.java:243-277 | a for-each pass yields every point exactly once, in visiting order from head |
| CircularList.RingClosure | app/src/main/java/com/google/engedu/touringmusician/CircularLinkedList.java:257-263 | from head, following next or prev for as many steps as there are nodes returns to head, and next returns no sooner |
| CircularList.CircularLinkedListIterator.constructor | app/src/main/java/com/google/engedu/touringmusician/CircularLinkedList.java:247-249 | the cursor starts at head with nothing visited |
| CircularList.CircularLinkedListIterator.HasNext | app/src/main/java/com/google/engedu/touringmusician/CircularLinkedList.java:252-254 | true exactly while fewer points than the tour holds have been returned; false at once on an empty tour |
| CircularList.CircularLinkedListIterator.Next | app/src/main/java/com/google/engedu/touringmusician/CircularLinkedList.java:257-264 | returns the point at the current position in visiting order and advances by one, becoming exhausted when next leads back to head |
| CircularList.CircularLinkedListIterator.Remove | app/src/main/java/com/google/engedu/touringmusician/CircularLinkedList.java:267-269 | always fails with UnsupportedOperationException |
| Scenarios.TrianglePerimeter | app/src/main/java/com/google/engedu/touringmusician/CircularLinkedList.java:91-112 | under the Euclidean measure the tour (10,10), (10,0), (0,0) has length between 34.14 and 34.15 |
| Scenarios.InsertBeginningScenario | app/src/main/java/com/google/engedu/touringmusician/CircularLinkedList.java:53-112 | insertBeginning of A(0,0), B(10,0), C(10,10) visits C, B, A; the length is the triangle's perimeter; size is 3 |
| Scenarios.InsertNearestScenario | app/src/main/java/com/google/engedu/touringmusician/CircularLinkedList.java:114-166 | insertNearest of A(0,0), B(100,0), C(1,1) visits A, C, B; size stays 0 |
| Scenarios.InsertSmallestScenario | app/src/main/java/com/google/engedu/touringmusician/CircularLinkedList.java:174-233 | insertSmallest of (5,5) into A, B, C gives A, (5,5), B, C, a tour longer than A, B, C, (5,5) |
| Scenarios.ResetScenario | app/src/main/java/com/google/engedu/touringmusician/CircularLinkedList.java:235-241 | after reset the tour yields no points and has length 0; size keeps counting the two earlier insertBeginning calls |

## Left out

- Floating point: `distanceBetween` computes a `float` square root and the scans compare `double` values. The model computes distances in exact reals through a distance-measure parameter, so rounding and ties created by rounding are not modelled. Lemmas about Euclidean geometry state the measure's defining property instead of calling a square root.
- Geometry.SquaredDistance: computes the coordinate differences in unbounded integers. Line 88 subtracts them in 32-bit `int`, which wraps once a difference leaves the `int` range: for (2147483647, 0) and (-2147483648, 0) Java measures 1.0. `Euclidean` therefore agrees with `distanceBetween` only while the differences fit, which screen coordinates always do. The class contracts hold for any distance measure and are not affected.
- `Paint`, the `CircularLinkedList(Paint)` constructor and `getPaint` (lines 37-51) are rendering data that the tour never reads.
- `TourMap`, the view that draws tours and forwards touches, is not part of this model.
- CircularList.CircularLinkedList.InsertBeginning: does not model the 32-bit wrap-around of `size++` after 2^31 - 1 calls, because `size` is an unbounded integer here.
- CircularList.CircularLinkedListIterator.Next: requires `HasNext()`. The source dereferences `null` and throws `NullPointerException` when called on an exhausted iterator, and that throw is not modelled.
- CircularList.CircularLinkedList.GetNodeWithLeastDistance: requires a non-empty tour. The source dereferences `head.next` and throws `NullPointerException` on an empty tour. Its only caller never reaches it with fewer than two nodes.
- Object identity is modelled by arena slots. `Reset` empties the arena instead of leaving unreachable nodes to the garbage collector.
- Changing a tour while an iterator walks it is not modelled. The iterator's contracts require the ring it was created on.
- The Java generics around `Iterable<Point>` are reduced to the `Iterator` method and the for-each pass `Points`.
