/** The circular doubly linked shape, stated on sequences: `ring` lists arena
    indices in visiting order, `nx` and `pv` are the next and prev link of every
    arena slot. */
module Ring {

  /** Position after i in a ring of n elements. */
  function Succ(i: nat, n: nat): (j: nat)
    requires i < n
    ensures j < n
  {
    if i + 1 < n then i + 1 else 0
  }

  /** Position before i in a ring of n elements. */
  function Pred(i: nat, n: nat): (j: nat)
    requires i < n
    ensures j < n
  {
    if i == 0 then n - 1 else i - 1
  }

  /** No node occurs twice in the ring. */
  ghost predicate Distinct(ring: seq<int>)
  {
    forall i, j :: 0 <= i < j < |ring| ==> ring[i] != ring[j]
  }

  /** Every node of the ring is an arena slot below bound. */
  ghost predicate Within(ring: seq<int>, bound: int)
  {
    forall i :: 0 <= i < |ring| ==> 0 <= ring[i] < bound
  }

  /** Following next from ring[i] reaches ring[i+1], and from the last node the
      head; following prev goes the other way. A one-node ring is linked to itself. */
  ghost predicate Linked(ring: seq<int>, nx: seq<int>, pv: seq<int>)
  {
    Within(ring, |nx|) && Within(ring, |pv|) &&
    (forall i {:trigger nx[ring[i]]} :: 0 <= i < |ring| ==> nx[ring[i]] == ring[Succ(i, |ring|)]) &&
    (forall i {:trigger pv[ring[i]]} :: 0 <= i < |ring| ==> pv[ring[i]] == ring[Pred(i, |ring|)])
  }

  /** next and prev are inverse on the ring: n.next.prev == n and n.prev.next == n. */
  lemma LinksInverse(ring: seq<int>, nx: seq<int>, pv: seq<int>, i: nat)
    requires Linked(ring, nx, pv) && i < |ring|
    ensures 0 <= nx[ring[i]] < |pv| && pv[nx[ring[i]]] == ring[i]
    ensures 0 <= pv[ring[i]] < |nx| && nx[pv[ring[i]]] == ring[i]
  {
    var n := |ring|;
    assert Pred(Succ(i, n), n) == i;
    assert Succ(Pred(i, n), n) == i;
  }

  /** Links outside the ring's slots do not matter. */
  lemma LinkedFrame(ring: seq<int>, bound: int, nx: seq<int>, pv: seq<int>, nx': seq<int>, pv': seq<int>)
    requires Linked(ring, nx, pv) && Within(ring, bound)
    requires bound <= |nx| && bound <= |pv| && bound <= |nx'| && bound <= |pv'|
    requires forall k :: 0 <= k < bound ==> nx'[k] == nx[k] && pv'[k] == pv[k]
    ensures Linked(ring, nx', pv')
  {
  }

  /** The ring made of one node c linked to itself. */
  lemma SingletonLinked(c: int, nx: seq<int>, pv: seq<int>)
    requires 0 <= c < |nx| && c < |pv|
    ensures Linked([c], nx[c := c], pv[c := c]) && Distinct([c])
  {
  }

  /** The sequence with x placed right after position k. */
  function InsertAfter<T>(s: seq<T>, k: nat, x: T): (r: seq<T>)
    requires k < |s|
    ensures |r| == |s| + 1 && r[k + 1] == x
    ensures forall i :: 0 <= i <= k ==> r[i] == s[i]
    ensures forall i :: k + 1 < i < |r| ==> r[i] == s[i - 1]
  {
    s[..k + 1] + [x] + s[k + 1..]
  }

  lemma SpliceNext(ring: seq<int>, nx: seq<int>, pv: seq<int>, k: nat, c: int)
    requires Linked(ring, nx, pv) && Distinct(ring)
    requires k < |ring| && 0 <= c < |nx|
    requires forall i :: 0 <= i < |ring| ==> ring[i] != c
    ensures var r, nx' := InsertAfter(ring, k, c), nx[ring[k] := c][c := ring[Succ(k, |ring|)]];
      forall i :: 0 <= i < |r| ==> nx'[r[i]] == r[Succ(i, |r|)]
  {
    var n := |ring|;
    var r, nx' := InsertAfter(ring, k, c), nx[ring[k] := c][c := ring[Succ(k, n)]];
    forall i | 0 <= i < n + 1
      ensures nx'[r[i]] == r[Succ(i, n + 1)]
    {
      if i < k {
        assert r[i] == ring[i] != ring[k];
        assert nx[ring[i]] == ring[Succ(i, n)];
      } else if i > k + 1 {
        assert r[i] == ring[i - 1] != ring[k];
        assert nx[ring[i - 1]] == ring[Succ(i - 1, n)];
      }
    }
  }

  lemma SplicePrev(ring: seq<int>, nx: seq<int>, pv: seq<int>, k: nat, c: int)
    requires Linked(ring, nx, pv) && Distinct(ring)
    requires k < |ring| && 0 <= c < |pv|
    requires forall i :: 0 <= i < |ring| ==> ring[i] != c
    ensures var r, pv' := InsertAfter(ring, k, c), pv[c := ring[k]][ring[Succ(k, |ring|)] := c];
      forall i :: 0 <= i < |r| ==> pv'[r[i]] == r[Pred(i, |r|)]
  {
    var n := |ring|;
    var b := Succ(k, n);
    var r, pv' := InsertAfter(ring, k, c), pv[c := ring[k]][ring[b] := c];
    forall i | 0 <= i < n + 1
      ensures pv'[r[i]] == r[Pred(i, n + 1)]
    {
      if i <= k {
        assert r[i] == ring[i];
        if i == b {
          assert i == 0 && k == n - 1;
        } else {
          assert ring[i] != ring[b];
          assert pv[ring[i]] == ring[Pred(i, n)];
        }
      } else if i > k + 1 {
        assert r[i] == ring[i - 1];
        assert i - 1 == b || ring[i - 1] != ring[b];
        assert pv[ring[i - 1]] == ring[Pred(i - 1, n)];
      }
    }
  }

  lemma SpliceDistinct(ring: seq<int>, k: nat, c: int)
    requires Distinct(ring) && k < |ring|
    requires forall i :: 0 <= i < |ring| ==> ring[i] != c
    ensures Distinct(InsertAfter(ring, k, c))
  {
    var r := InsertAfter(ring, k, c);
    forall i, j | 0 <= i < j < |r| ensures r[i] != r[j] {
      if j == k + 1 {
      } else if i == k + 1 {
      } else {
        var i' := if i <= k then i else i - 1;
        var j' := if j <= k then j else j - 1;
        assert r[i] == ring[i'] && r[j] == ring[j'] && i' < j';
      }
    }
  }

  /** Splicing a fresh node c between ring[k] and its successor b, by setting
      ring[k].next := c, c.next := b, c.prev := ring[k] and b.prev := c,
      keeps the ring linked and distinct and puts c right after position k. */
  lemma SpliceLinked(ring: seq<int>, nx: seq<int>, pv: seq<int>, k: nat, c: int)
    requires Linked(ring, nx, pv) && Distinct(ring)
    requires k < |ring| && 0 <= c < |nx| && c < |pv|
    requires forall i :: 0 <= i < |ring| ==> ring[i] != c
    ensures var a, b := ring[k], ring[Succ(k, |ring|)];
      Linked(InsertAfter(ring, k, c), nx[a := c][c := b], pv[c := a][b := c]) && Distinct(InsertAfter(ring, k, c))
  {
    SpliceNext(ring, nx, pv, k, c);
    SplicePrev(ring, nx, pv, k, c);
    SpliceDistinct(ring, k, c);
  }

  /** The ring read from its last node: the last node moves to the front. */
  function ToFront(r: seq<int>): (t: seq<int>)
    requires |r| > 0
    ensures |t| == |r| && t[0] == r[|r| - 1]
    ensures forall i :: 0 < i < |r| ==> t[i] == r[i - 1]
  {
    [r[|r| - 1]] + r[..|r| - 1]
  }

  lemma RotateLinks(r: seq<int>, nx: seq<int>, pv: seq<int>)
    requires |r| > 0 && Linked(r, nx, pv)
    ensures Linked(ToFront(r), nx, pv)
  {
    var n, t := |r|, ToFront(r);
    forall i | 0 <= i < n
      ensures 0 <= t[i] < |nx| && t[i] < |pv|
      ensures nx[t[i]] == t[Succ(i, n)] && pv[t[i]] == t[Pred(i, n)]
    {
      var i1 := if i == 0 then n - 1 else i - 1;
      assert t[i] == r[i1];
      assert nx[r[i1]] == r[Succ(i1, n)];
      assert pv[r[i1]] == r[Pred(i1, n)];
    }
  }

  lemma RotateDistinct(r: seq<int>)
    requires |r| > 0 && Distinct(r)
    ensures Distinct(ToFront(r))
  {
    var n, t := |r|, ToFront(r);
    forall i, j | 0 <= i < j < n ensures t[i] != t[j] {
      if i == 0 {
        assert t[i] == r[n - 1] && t[j] == r[j - 1];
      } else {
        assert t[i] == r[i - 1] && t[j] == r[j - 1];
      }
    }
  }

  /** next from the head leads back to the head exactly when the ring has one node. */
  lemma SelfLinkedIffSingleton(ring: seq<int>, nx: seq<int>, pv: seq<int>)
    requires Linked(ring, nx, pv) && Distinct(ring) && |ring| > 0
    ensures nx[ring[0]] == ring[0] <==> |ring| == 1
    ensures pv[ring[0]] == ring[0] <==> |ring| == 1
  {
    if |ring| > 1 {
      assert ring[0] != ring[1];
      assert ring[0] != ring[|ring| - 1];
    }
  }

  /** The slot reached from start by following k links of the arena; -1 once
      a link leads outside it. */
  function Walk(links: seq<int>, start: int, k: nat): int
  {
    if k == 0 then start
    else
      var t := Walk(links, start, k - 1);
      if 0 <= t < |links| then links[t] else -1
  }

  /** Following next j times from the head reaches ring[j]. */
  lemma {:induction false} WalkForward(ring: seq<int>, nx: seq<int>, pv: seq<int>, j: nat)
    requires Linked(ring, nx, pv) && j < |ring|
    ensures Walk(nx, ring[0], j) == ring[j]
  {
    if j > 0 {
      WalkForward(ring, nx, pv, j - 1);
      assert nx[ring[j - 1]] == ring[Succ(j - 1, |ring|)];
    }
  }

  /** Following prev j times from the head, 0 < j, reaches ring[|ring| - j]. */
  lemma {:induction false} WalkBackward(ring: seq<int>, nx: seq<int>, pv: seq<int>, j: nat)
    requires Linked(ring, nx, pv) && 0 < j <= |ring|
    ensures Walk(pv, ring[0], j) == ring[|ring| - j]
  {
    if j == 1 {
      assert pv[ring[0]] == ring[Pred(0, |ring|)];
    } else {
      WalkBackward(ring, nx, pv, j - 1);
      assert pv[ring[|ring| - j + 1]] == ring[Pred(|ring| - j + 1, |ring|)];
    }
  }

  /** A lap along next, or along prev, from the head comes back to the head
      after exactly as many steps as the ring has nodes, and not before. */
  lemma RingCloses(ring: seq<int>, nx: seq<int>, pv: seq<int>)
    requires Linked(ring, nx, pv) && Distinct(ring) && 0 < |ring|
    ensures Walk(nx, ring[0], |ring|) == ring[0] && Walk(pv, ring[0], |ring|) == ring[0]
    ensures forall j :: 0 < j < |ring| ==> Walk(nx, ring[0], j) != ring[0] && Walk(pv, ring[0], j) != ring[0]
  {
    var n := |ring|;
    WalkForward(ring, nx, pv, n - 1);
    assert nx[ring[n - 1]] == ring[Succ(n - 1, n)];
    WalkBackward(ring, nx, pv, n);
    forall j | 0 < j < n
      ensures Walk(nx, ring[0], j) != ring[0] && Walk(pv, ring[0], j) != ring[0]
    {
      WalkForward(ring, nx, pv, j);
      WalkBackward(ring, nx, pv, j);
      assert ring[j] != ring[0];
      assert ring[n - j] != ring[0];
    }
  }

  /** The whole shape of the arena: `nodes` are distinct slots in visiting
      order, slot nodes[i] carries order[i], head is the first slot (-1 when the
      ring is empty), and the links close the ring. */
  ghost predicate RingShape<T>(nodes: seq<int>, order: seq<T>, head: int,
                               pts: seq<T>, nx: seq<int>, pv: seq<int>)
  {
    |nx| == |pts| && |pv| == |pts| && |order| == |nodes| &&
    Within(nodes, |pts|) && Distinct(nodes) &&
    (forall i :: 0 <= i < |nodes| ==> order[i] == pts[nodes[i]]) &&
    head == (if nodes == [] then -1 else nodes[0]) &&
    Linked(nodes, nx, pv)
  }

  /** A new unlinked slot at the end of the arena leaves the ring as it is. */
  lemma AllocShape<T>(nodes: seq<int>, order: seq<T>, head: int,
                      pts: seq<T>, nx: seq<int>, pv: seq<int>, x: T)
    requires RingShape(nodes, order, head, pts, nx, pv)
    ensures RingShape(nodes, order, head, pts + [x], nx + [-1], pv + [-1])
  {
    LinkedFrame(nodes, |pts|, nx, pv, nx + [-1], pv + [-1]);
  }

  /** An empty ring gets slot c as its self-linked head. */
  lemma SingletonShape<T>(c: int, pts: seq<T>, nx: seq<int>, pv: seq<int>)
    requires 0 <= c < |pts| && |nx| == |pts| && |pv| == |pts|
    ensures RingShape([c], [pts[c]], c, pts, nx[c := c], pv[c := c])
  {
    SingletonLinked(c, nx, pv);
  }

  /** Linking a slot c that is not in the ring in between nodes[k] and its
      successor puts its point right after position k; head stays. */
  lemma SpliceShape<T>(nodes: seq<int>, order: seq<T>, head: int,
                       pts: seq<T>, nx: seq<int>, pv: seq<int>, k: nat, c: int)
    requires RingShape(nodes, order, head, pts, nx, pv)
    requires k < |nodes| && 0 <= c < |pts|
    requires forall i :: 0 <= i < |nodes| ==> nodes[i] != c
    ensures var a, b := nodes[k], nodes[Succ(k, |nodes|)];
      RingShape(InsertAfter(nodes, k, c), InsertAfter(order, k, pts[c]), head,
                pts, nx[a := c][c := b], pv[c := a][b := c]) &&
      nx[a := c][c := b] == nx[c := b][a := c] && pv[c := a][b := c] == pv[b := c][c := a]
  {
    var a, b := nodes[k], nodes[Succ(k, |nodes|)];
    var ring, tour := InsertAfter(nodes, k, c), InsertAfter(order, k, pts[c]);
    assert Linked(ring, nx[a := c][c := b], pv[c := a][b := c]) && Distinct(ring) by {
      SpliceLinked(nodes, nx, pv, k, c);
    }
    forall i | 0 <= i < |ring| ensures tour[i] == pts[ring[i]] {
      if i > k + 1 {
        assert ring[i] == nodes[i - 1] && tour[i] == order[i - 1];
      }
    }
    UpdatesCommute(nx, a, c, c, b);
    UpdatesCommute(pv, c, a, b, c);
  }

  /** Writing two different slots gives the same arena in either order. */
  lemma UpdatesCommute(s: seq<int>, i: int, x: int, j: int, y: int)
    requires 0 <= i < |s| && 0 <= j < |s| && i != j
    ensures s[i := x][j := y] == s[j := y][i := x]
  {
  }

  /** Appending a slot to the ring and moving it to the front keeps the
      points of every other slot in step with the tour. */
  lemma PrependPoints<T>(nodes: seq<int>, order: seq<T>, pts: seq<T>, c: int)
    requires |order| == |nodes| && Within(nodes, |pts|) && 0 <= c < |pts|
    requires forall i :: 0 <= i < |nodes| ==> order[i] == pts[nodes[i]]
    ensures var ring, tour := [c] + nodes, [pts[c]] + order;
      forall i :: 0 <= i < |ring| ==> tour[i] == pts[ring[i]]
  {
    var ring, tour := [c] + nodes, [pts[c]] + order;
    forall i | 0 <= i < |ring| ensures tour[i] == pts[ring[i]] {
      if i > 0 {
        assert ring[i] == nodes[i - 1] && tour[i] == order[i - 1];
      }
    }
  }

  /** Linking a slot c that is not in the ring in between the last node and
      the head, and making c the head, puts its point in front. */
  lemma PrependShape<T>(nodes: seq<int>, order: seq<T>, head: int,
                        pts: seq<T>, nx: seq<int>, pv: seq<int>, c: int)
    requires RingShape(nodes, order, head, pts, nx, pv) && nodes != []
    requires 0 <= c < |pts|
    requires forall i :: 0 <= i < |nodes| ==> nodes[i] != c
    ensures var last := nodes[|nodes| - 1];
      RingShape([c] + nodes, [pts[c]] + order, c, pts, nx[last := c][c := head], pv[c := last][head := c]) &&
      nx[last := c][c := head] == nx[c := head][last := c]
  {
    var n := |nodes|;
    var last := nodes[n - 1];
    var nx', pv' := nx[last := c][c := head], pv[c := last][head := c];
    assert Linked([c] + nodes, nx', pv') && Distinct([c] + nodes) by {
      SpliceLinked(nodes, nx, pv, n - 1, c);
      assert InsertAfter(nodes, n - 1, c) == nodes + [c];
      RotateLinks(nodes + [c], nx', pv');
      RotateDistinct(nodes + [c]);
      assert ToFront(nodes + [c]) == [c] + nodes;
    }
    PrependPoints(nodes, order, pts, c);
    UpdatesCommute(nx, last, c, c, head);
  }
}
