// Prim's algorithm over the lazy-deletion heap: per-vertex predecessor
// edges forming a spanning tree of the root's component; a vertex leaves the
// queue (inPQ cleared) the first time one of its entries is extracted.

module Prims {
  import opened Types
  import opened Graphs
  import opened PrioQueues
  import opened Utils
  import opened Dijkstras

  // ---------------------------------------------------------------------
  // The result as a value: a spanning tree of the root's component

  /** w belongs to the tree: the root, or a vertex with a predecessor edge. */
  predicate InTree(pre: seq<int>, root: int, w: int)
    requires 0 <= w < |pre|
  {
    w == root || pre[w] != NoEdge
  }

  /** w's predecessor edge, if any, is an edge slot incident to w whose far
      end is in the tree and was attached before w (ord is the attach time). */
  ghost predicate TreeEdgeOK(n: int, es: seq<Edge>, m: int, pre: seq<int>, root: int, ord: seq<nat>, w: int)
    requires |pre| == |ord| == n && m <= |es| && 0 <= w < n
    requires forall i :: 0 <= i < m ==> 0 <= es[i].v < n && 0 <= es[i].w < n
  {
    pre[w] != NoEdge ==>
      && 0 <= pre[w] < m && Incident(es[pre[w]], w)
      && InTree(pre, root, GetPredecessor(w, es[pre[w]]))
      && ord[GetPredecessor(w, es[pre[w]])] < ord[w]
  }

  /** Every adjacency entry of u leads to a vertex of the tree. */
  ghost predicate ClosedAt(n: int, vs: seq<Vertex>, es: seq<Edge>, m: int, pre: seq<int>, root: int, u: int)
    requires Ctx(n, vs, es, m) && |pre| == n && 0 <= u < n
  {
    forall j :: 0 <= j < |vs[u].edges| ==> InTree(pre, root, GetPredecessor(u, es[vs[u].edges[j]]))
  }

  /** Predecessor edges forming a tree rooted at root: the root has none,
      and every other one hangs its vertex below an earlier tree vertex. */
  ghost predicate RootedTree(n: int, es: seq<Edge>, m: int, pre: seq<int>, root: int, ord: seq<nat>)
  {
    && |pre| == |ord| == n && 0 <= root < n && 0 <= m <= |es|
    && (forall i :: 0 <= i < m ==> 0 <= es[i].v < n && 0 <= es[i].w < n)
    && pre[root] == NoEdge
    && (forall w :: 0 <= w < n ==> TreeEdgeOK(n, es, m, pre, root, ord, w))
  }

  /** What prim returns: a rooted tree closed under the adjacency lists. */
  ghost predicate SpanningTree(n: int, vs: seq<Vertex>, es: seq<Edge>, m: int, pre: seq<int>, root: int,
                               ord: seq<nat>)
  {
    && Ctx(n, vs, es, m) && RootedTree(n, es, m, pre, root, ord)
    && (forall u :: 0 <= u < n && InTree(pre, root, u) ==> ClosedAt(n, vs, es, m, pre, root, u))
  }

  /** The walk of tree edges from the root down to a tree vertex w. */
  ghost function RootPath(n: int, es: seq<Edge>, m: int, pre: seq<int>, root: int, ord: seq<nat>, w: int)
      : (path: seq<int>)
    requires RootedTree(n, es, m, pre, root, ord) && 0 <= w < n && InTree(pre, root, w)
    ensures Walk(es, m, root, path, w)
    ensures forall k :: 0 <= k < |path| ==> path[k] in pre
    decreases ord[w]
  {
    if pre[w] == NoEdge then
      assert Walk(es, m, root, [], root);
      []
    else
      assert TreeEdgeOK(n, es, m, pre, root, ord, w);
      var u := GetPredecessor(w, es[pre[w]]);
      var front := RootPath(n, es, m, pre, root, ord, u);
      GetPredecessorTwice(w, es[pre[w]]);
      WalkSnoc(es, m, root, front, u, pre[w]);
      front + [pre[w]]
  }

  /** A walk that starts in the tree stays in it: the tree is a union of
      components, so with the root in it, it is the root's whole component. */
  lemma {:induction false} WalkStaysInTree(n: int, vs: seq<Vertex>, es: seq<Edge>, m: int, pre: seq<int>,
                                           root: int, ord: seq<nat>, from: int, path: seq<int>, to: int)
    requires SpanningTree(n, vs, es, m, pre, root, ord) && SymUpTo(n, vs, es, m)
    requires 0 <= from < n && InTree(pre, root, from) && Walk(es, m, from, path, to)
    ensures 0 <= to < n && InTree(pre, root, to)
    decreases |path|
  {
    if path != [] {
      var i := path[0];
      assert 0 <= i < m && Incident(es[i], from);
      assert i in vs[from].edges;
      var j :| 0 <= j < |vs[from].edges| && vs[from].edges[j] == i;
      assert ClosedAt(n, vs, es, m, pre, root, from);
      var next := GetPredecessor(from, es[i]);
      WalkStaysInTree(n, vs, es, m, pre, root, ord, next, path[1..], to);
    }
  }

  /** No edge is the predecessor edge of two vertices: each tree vertex but
      the root owns its own edge, so the tree has one edge fewer than vertices. */
  lemma TreeEdgesDistinct(n: int, es: seq<Edge>, m: int, pre: seq<int>, root: int, ord: seq<nat>, w: int, x: int)
    requires RootedTree(n, es, m, pre, root, ord)
    requires 0 <= w < n && 0 <= x < n && w != x && pre[w] != NoEdge
    ensures pre[x] != pre[w]
  {
    assert TreeEdgeOK(n, es, m, pre, root, ord, w);
    assert TreeEdgeOK(n, es, m, pre, root, ord, x);
  }

  // ---------------------------------------------------------------------
  // The state of the main loop as values

  /** The number of vertices still flagged inPQ. */
  function NumTrue(q: seq<bool>): nat
  {
    if q == [] then 0 else (if q[0] then 1 else 0) + NumTrue(q[1..])
  }

  /** Clearing a set flag lowers the count: why the main loop terminates. */
  lemma {:induction false} ClearFlagLowers(q: seq<bool>, u: int)
    requires 0 <= u < |q| && q[u]
    ensures NumTrue(q[u := false]) == NumTrue(q) - 1
    decreases |q|
  {
    if u == 0 {
      assert q[u := false][1..] == q[1..];
    } else {
      ClearFlagLowers(q[1..], u - 1);
      assert q[u := false][1..] == q[1..][u - 1 := false];
    }
  }

  /** A heap entry names a vertex whose distance is finite. */
  predicate EntryOK(x: Pair, d: seq<Dist>)
  {
    0 <= x.key < |d| && d[x.key].Fin?
  }

  /** Per-vertex facts: a predecessor edge ends at a settled vertex (settled
      before w, if w is settled) and fixes dist[w] at its cost; only the root
      or an unreached vertex lacks one; a settled vertex has a finite
      distance and a stamp below t; an unsettled reached vertex has a heap
      entry with its current distance. */
  ghost predicate PreOK(n: int, es: seq<Edge>, m: int, root: int, d: seq<Dist>, p: seq<int>, q: seq<bool>,
                        ord: seq<nat>, t: nat, C: multiset<Pair>, w: int)
    requires |d| == |p| == |q| == |ord| == n && m <= |es| && 0 <= w < n
    requires forall i :: 0 <= i < m ==> 0 <= es[i].v < n && 0 <= es[i].w < n
  {
    && (p[w] != NoEdge ==>
          && 0 <= p[w] < m && Incident(es[p[w]], w)
          && !q[GetPredecessor(w, es[p[w]])]
          && d[w] == Fin(es[p[w]].cost)
          && (!q[w] ==> ord[GetPredecessor(w, es[p[w]])] < ord[w]))
    && (p[w] == NoEdge && w != root ==> d[w] == Inf)
    && (!q[w] ==> d[w].Fin? && ord[w] < t)
    && (q[w] && d[w].Fin? ==> Pair(w, d[w].d) in C)
  }

  /** w is settled or already has a finite distance. */
  predicate Covered(d: seq<Dist>, q: seq<bool>, w: int)
    requires 0 <= w < |d| && w < |q|
  {
    !q[w] || d[w].Fin?
  }

  /** The first k adjacency entries of u lead to covered vertices. */
  ghost predicate Expanded(n: int, vs: seq<Vertex>, es: seq<Edge>, m: int, d: seq<Dist>, q: seq<bool>,
                           u: int, k: int)
    requires Ctx(n, vs, es, m) && |d| == |q| == n && 0 <= u < n
  {
    forall j :: 0 <= j < k && j < |vs[u].edges| ==> Covered(d, q, GetPredecessor(u, es[vs[u].edges[j]]))
  }

  /** A settled vertex has had all its edges looked at. */
  ghost predicate DoneAt(n: int, vs: seq<Vertex>, es: seq<Edge>, m: int, d: seq<Dist>, q: seq<bool>, u: int)
    requires Ctx(n, vs, es, m) && |d| == |q| == n && 0 <= u < n
  {
    !q[u] ==> Expanded(n, vs, es, m, d, q, u, |vs[u].edges|)
  }

  /** Shape facts that hold at every point of prim. */
  ghost predicate PFrame(n: int, vs: seq<Vertex>, es: seq<Edge>, m: int, root: int, d: seq<Dist>, p: seq<int>,
                         q: seq<bool>, ord: seq<nat>, t: nat, C: multiset<Pair>)
  {
    && Ctx(n, vs, es, m) && |d| == |p| == |q| == |ord| == n && 0 <= root < n
    && d[root] == Fin(0) && p[root] == NoEdge
    && (forall x {:trigger EntryOK(x, d)} :: x in C ==> EntryOK(x, d))
    && (forall w :: 0 <= w < n ==> PreOK(n, es, m, root, d, p, q, ord, t, C, w))
  }

  /** The main-loop invariant. */
  ghost predicate PInv(n: int, vs: seq<Vertex>, es: seq<Edge>, m: int, root: int, d: seq<Dist>, p: seq<int>,
                       q: seq<bool>, ord: seq<nat>, t: nat, C: multiset<Pair>)
  {
    && PFrame(n, vs, es, m, root, d, p, q, ord, t, C)
    && forall u :: 0 <= u < n ==> DoneAt(n, vs, es, m, d, q, u)
  }

  /** The inner-loop invariant while the edges of settled vertex v are looked at. */
  ghost predicate PRelaxInv(n: int, vs: seq<Vertex>, es: seq<Edge>, m: int, root: int, d: seq<Dist>, p: seq<int>,
                            q: seq<bool>, ord: seq<nat>, t: nat, C: multiset<Pair>, v: int, k: int)
  {
    && PFrame(n, vs, es, m, root, d, p, q, ord, t, C)
    && 0 <= v < n && !q[v] && 0 <= k <= |vs[v].edges|
    && Expanded(n, vs, es, m, d, q, v, k)
    && forall u :: 0 <= u < n && u != v ==> DoneAt(n, vs, es, m, d, q, u)
  }

  /** The state after the initialisation loops: all Inf and -1 except the
      root at 0, every vertex in the queue, and the single entry (root, 0). */
  lemma PrimStart(n: int, vs: seq<Vertex>, es: seq<Edge>, m: int, root: int, d: seq<Dist>, p: seq<int>,
                  q: seq<bool>, ord: seq<nat>)
    requires Ctx(n, vs, es, m) && 0 <= root < n && |d| == |p| == |q| == |ord| == n
    requires forall w :: 0 <= w < n ==> d[w] == (if w == root then Fin(0) else Inf) && p[w] == NoEdge && q[w]
    ensures PInv(n, vs, es, m, root, d, p, q, ord, 0, multiset{Pair(root, 0)})
  {
    var C := multiset{Pair(root, 0)};
    forall x | x in C ensures EntryOK(x, d) {
      assert x == Pair(root, 0);
    }
    forall w | 0 <= w < n ensures PreOK(n, es, m, root, d, p, q, ord, 0, C, w) {
    }
  }

  /** An extracted entry of a settled vertex is dropped: nothing else changes. */
  lemma PrimSkip(n: int, vs: seq<Vertex>, es: seq<Edge>, m: int, root: int, d: seq<Dist>, p: seq<int>,
                 q: seq<bool>, ord: seq<nat>, t: nat, C: multiset<Pair>, x: Pair)
    requires PInv(n, vs, es, m, root, d, p, q, ord, t, C) && x in C && EntryOK(x, d) && !q[x.key]
    ensures PInv(n, vs, es, m, root, d, p, q, ord, t, C - multiset{x})
  {
    var C' := C - multiset{x};
    forall w | 0 <= w < n ensures PreOK(n, es, m, root, d, p, q, ord, t, C', w) {
      assert PreOK(n, es, m, root, d, p, q, ord, t, C, w);
      if q[w] && d[w].Fin? {
        assert Pair(w, d[w].d) != x;
      }
    }
    forall y | y in C' ensures EntryOK(y, d) {
      assert y in C;
    }
  }

  /** An extracted entry of an unsettled vertex settles it: inPQ is cleared,
      it gets stamp t, and its edges are looked at next. */
  lemma PrimSettle(n: int, vs: seq<Vertex>, es: seq<Edge>, m: int, root: int, d: seq<Dist>, p: seq<int>,
                   q: seq<bool>, ord: seq<nat>, t: nat, C: multiset<Pair>, x: Pair)
    requires PInv(n, vs, es, m, root, d, p, q, ord, t, C) && x in C && EntryOK(x, d) && q[x.key]
    ensures PRelaxInv(n, vs, es, m, root, d, p, q[x.key := false], ord[x.key := t], t + 1, C - multiset{x},
                      x.key, 0)
  {
    var v, C', q', ord', t' := x.key, C - multiset{x}, q[x.key := false], ord[x.key := t], t + 1;
    forall w | 0 <= w < n ensures PreOK(n, es, m, root, d, p, q', ord', t', C', w) {
      assert PreOK(n, es, m, root, d, p, q, ord, t, C, w);
      if p[w] != NoEdge {
        var u := GetPredecessor(w, es[p[w]]);
        assert u != v;
        assert PreOK(n, es, m, root, d, p, q, ord, t, C, u);
      }
      if q'[w] && d[w].Fin? {
        assert Pair(w, d[w].d) != x;
      }
    }
    forall y | y in C' ensures EntryOK(y, d) {
      assert y in C;
    }
    forall u | 0 <= u < n && u != v ensures DoneAt(n, vs, es, m, d, q', u) {
      assert DoneAt(n, vs, es, m, d, q, u);
      if !q'[u] {
        forall j | 0 <= j < |vs[u].edges|
          ensures Covered(d, q', GetPredecessor(u, es[vs[u].edges[j]]))
        {
          assert Covered(d, q, GetPredecessor(u, es[vs[u].edges[j]]));
        }
      }
    }
  }

  /** Entry k of v's list leads to a settled vertex or to one whose distance
      is already at most the edge's cost: nothing changes. */
  lemma PrimKeep(n: int, vs: seq<Vertex>, es: seq<Edge>, m: int, root: int, d: seq<Dist>, p: seq<int>,
                 q: seq<bool>, ord: seq<nat>, t: nat, C: multiset<Pair>, v: int, k: int)
    requires PRelaxInv(n, vs, es, m, root, d, p, q, ord, t, C, v, k) && k < |vs[v].edges|
    requires var e := es[vs[v].edges[k]];
      !(q[GetPredecessor(v, e)] && Less(Fin(e.cost), d[GetPredecessor(v, e)]))
    ensures PRelaxInv(n, vs, es, m, root, d, p, q, ord, t, C, v, k + 1)
  {
  }

  /** Entry k of v's list improves w: dist[w] becomes the edge's cost, the
      edge becomes w's predecessor edge, and (w, cost) is pushed. */
  lemma PrimImprove(n: int, vs: seq<Vertex>, es: seq<Edge>, m: int, root: int, d: seq<Dist>, p: seq<int>,
                    q: seq<bool>, ord: seq<nat>, t: nat, C: multiset<Pair>, v: int, k: int, i: int, w: int)
    requires PRelaxInv(n, vs, es, m, root, d, p, q, ord, t, C, v, k) && k < |vs[v].edges|
    requires i == vs[v].edges[k] && w == GetPredecessor(v, es[i])
    requires q[w] && Less(Fin(es[i].cost), d[w])
    ensures 0 <= w < n && w != v && w != root
    ensures PRelaxInv(n, vs, es, m, root, d[w := Fin(es[i].cost)], p[w := i], q, ord, t,
                      C + multiset{Pair(w, es[i].cost)}, v, k + 1)
  {
    var e := es[i];
    var d', p', C' := d[w := Fin(e.cost)], p[w := i], C + multiset{Pair(w, e.cost)};
    assert Incident(e, w) && GetPredecessor(w, e) == v;
    forall x | 0 <= x < n ensures PreOK(n, es, m, root, d', p', q, ord, t, C', x) {
      assert PreOK(n, es, m, root, d, p, q, ord, t, C, x);
    }
    forall y | y in C' ensures EntryOK(y, d') {
      if y in C {
        assert EntryOK(y, d);
      }
    }
    forall j | 0 <= j < k + 1 && j < |vs[v].edges|
      ensures Covered(d', q, GetPredecessor(v, es[vs[v].edges[j]]))
    {
      if j < k {
        assert Covered(d, q, GetPredecessor(v, es[vs[v].edges[j]]));
      }
    }
    forall u | 0 <= u < n && u != v ensures DoneAt(n, vs, es, m, d', q, u) {
      assert DoneAt(n, vs, es, m, d, q, u);
      if !q[u] {
        forall j | 0 <= j < |vs[u].edges|
          ensures Covered(d', q, GetPredecessor(u, es[vs[u].edges[j]]))
        {
          assert Covered(d, q, GetPredecessor(u, es[vs[u].edges[j]]));
        }
      }
    }
  }

  /** Once all of v's entries are looked at, the main invariant is back. */
  lemma PrimRelaxDone(n: int, vs: seq<Vertex>, es: seq<Edge>, m: int, root: int, d: seq<Dist>, p: seq<int>,
                      q: seq<bool>, ord: seq<nat>, t: nat, C: multiset<Pair>, v: int)
    requires 0 <= v < |vs| && PRelaxInv(n, vs, es, m, root, d, p, q, ord, t, C, v, |vs[v].edges|)
    ensures PInv(n, vs, es, m, root, d, p, q, ord, t, C)
  {
    assert DoneAt(n, vs, es, m, d, q, v);
  }

  /** With the heap empty, the predecessor edges form a spanning tree of the
      root's component, the settled vertices being exactly the tree. */
  lemma PrimFinished(n: int, vs: seq<Vertex>, es: seq<Edge>, m: int, root: int, d: seq<Dist>, p: seq<int>,
                     q: seq<bool>, ord: seq<nat>, t: nat)
    requires PInv(n, vs, es, m, root, d, p, q, ord, t, multiset{})
    ensures SpanningTree(n, vs, es, m, p, root, ord)
    ensures forall w :: 0 <= w < n ==> (InTree(p, root, w) <==> !q[w])
  {
    forall w | 0 <= w < n ensures InTree(p, root, w) <==> !q[w] {
      assert PreOK(n, es, m, root, d, p, q, ord, t, multiset{}, w);
    }
    forall w | 0 <= w < n ensures TreeEdgeOK(n, es, m, p, root, ord, w) {
      assert PreOK(n, es, m, root, d, p, q, ord, t, multiset{}, w);
    }
    forall u | 0 <= u < n && InTree(p, root, u) ensures ClosedAt(n, vs, es, m, p, root, u) {
      assert DoneAt(n, vs, es, m, d, q, u);
      forall j | 0 <= j < |vs[u].edges| ensures InTree(p, root, GetPredecessor(u, es[vs[u].edges[j]])) {
        var x := GetPredecessor(u, es[vs[u].edges[j]]);
        assert Covered(d, q, x);
        assert PreOK(n, es, m, root, d, p, q, ord, t, multiset{}, x);
      }
    }
  }

  // ---------------------------------------------------------------------
  // prim

  /** The three writes of a successful update: dist[w] and w's predecessor
      edge are set, and (w, x) is pushed. */
  method Lower(w: int, x: nat, edgeI: int, dist: array<Dist>, pre: array<int>, pq: PrioQueue,
               ghost d: seq<Dist>, ghost p: seq<int>, ghost C: multiset<Pair>)
      returns (ghost d': seq<Dist>, ghost p': seq<int>, ghost C': multiset<Pair>)
    requires pq.Valid() && pq.IsHeap() && pq.n > 0
    requires dist[..] == d && pre[..] == p && pq.Contents() == C
    requires 0 <= w < |d| && w < |p|
    modifies dist, pre, pq, pq.queue
    ensures pq.Valid() && pq.IsHeap() && pq.n >= old(pq.n)
    ensures pq.queue == old(pq.queue) || fresh(pq.queue)
    ensures d' == d[w := Fin(x)] && p' == p[w := edgeI] && C' == C + multiset{Pair(w, x)}
    ensures dist[..] == d' && pre[..] == p' && pq.Contents() == C'
  {
    dist[w] := Fin(x);
    pre[w] := edgeI;
    d', p' := dist[..], pre[..];
    pq.Insert(Pair(w, x));
    C' := pq.Contents();
  }

  /** One pass of prim's inner for-loop: entry i of v's list leads to w;
      if w is still in the queue and the edge's cost beats dist[w], the edge
      becomes w's predecessor edge and (w, cost) is pushed. */
  method PrimEntry(v: int, i: int, g: Graph, dist: array<Dist>, pre: array<int>, inPQ: array<bool>,
                   pq: PrioQueue, ghost vs: seq<Vertex>, ghost es: seq<Edge>, ghost root: int,
                   ghost d: seq<Dist>, ghost p: seq<int>, ghost q: seq<bool>, ghost ord: seq<nat>, ghost t: nat,
                   ghost C: multiset<Pair>)
      returns (ghost d': seq<Dist>, ghost p': seq<int>, ghost C': multiset<Pair>)
    requires GraphIs(g, vs, es)
    requires pq.Valid() && pq.IsHeap() && pq.n > 0
    requires dist[..] == d && pre[..] == p && inPQ[..] == q && pq.Contents() == C
    requires PRelaxInv(g.n, vs, es, g.m, root, d, p, q, ord, t, C, v, i) && i < |vs[v].edges|
    modifies dist, pre, pq, pq.queue
    ensures pq.Valid() && pq.IsHeap() && pq.n > 0
    ensures pq.queue == old(pq.queue) || fresh(pq.queue)
    ensures dist[..] == d' && pre[..] == p' && pq.Contents() == C'
    ensures PRelaxInv(g.n, vs, es, g.m, root, d', p', q, ord, t, C', v, i + 1)
  {
    d', p', C' := d, p, C;
    var edgeI := g.vertices[v].edges[i];   // getEdgeIndex(v, i, g)
    var e := g.edges[edgeI];               // getEdge(v, i, g)
    var w := GetPredecessor(v, e);
    var cost := e.cost;
    assert edgeI == vs[v].edges[i] && e == es[edgeI];
    if inPQ[w] && Less(Fin(cost), dist[w]) {
      PrimImprove(g.n, vs, es, g.m, root, d, p, q, ord, t, C, v, i, edgeI, w);
      d', p', C' := Lower(w, cost, edgeI, dist, pre, pq, d, p, C);
    } else {
      PrimKeep(g.n, vs, es, g.m, root, d, p, q, ord, t, C, v, i);
    }
  }

  /** prim's inner for-loop: look at every edge of the just-settled v. */
  method PrimEdges(v: int, g: Graph, dist: array<Dist>, pre: array<int>, inPQ: array<bool>, pq: PrioQueue,
                   ghost vs: seq<Vertex>, ghost es: seq<Edge>, ghost root: int,
                   ghost d0: seq<Dist>, ghost p0: seq<int>, ghost q: seq<bool>, ghost ord: seq<nat>, ghost t: nat,
                   ghost C0: multiset<Pair>)
      returns (ghost d: seq<Dist>, ghost p: seq<int>, ghost C: multiset<Pair>)
    requires GraphIs(g, vs, es)
    requires pq.Valid() && pq.IsHeap() && pq.n > 0
    requires dist[..] == d0 && pre[..] == p0 && inPQ[..] == q && pq.Contents() == C0
    requires PRelaxInv(g.n, vs, es, g.m, root, d0, p0, q, ord, t, C0, v, 0)
    modifies dist, pre, pq, pq.queue
    ensures pq.Valid() && pq.IsHeap() && pq.n > 0
    ensures pq.queue == old(pq.queue) || fresh(pq.queue)
    ensures dist[..] == d && pre[..] == p && pq.Contents() == C
    ensures PInv(g.n, vs, es, g.m, root, d, p, q, ord, t, C)
  {
    d, p, C := d0, p0, C0;
    var i := 0;
    while i < g.vertices[v].Deg()
      invariant 0 <= i <= |vs[v].edges|
      invariant pq.Valid() && pq.IsHeap() && pq.n > 0
      invariant pq.queue == old(pq.queue) || fresh(pq.queue)
      invariant dist[..] == d && pre[..] == p && inPQ[..] == q && pq.Contents() == C
      invariant PRelaxInv(g.n, vs, es, g.m, root, d, p, q, ord, t, C, v, i)
    {
      d, p, C := PrimEntry(v, i, g, dist, pre, inPQ, pq, vs, es, root, d, p, q, ord, t, C);
      i := i + 1;
    }
    PrimRelaxDone(g.n, vs, es, g.m, root, d, p, q, ord, t, C, v);
  }

  /** The settling branch of prim's main loop: clear inPQ for the extracted
      vertex x.key, stamp it, and look at its edges. */
  method PrimSettle1(x: Pair, g: Graph, dist: array<Dist>, pre: array<int>, inPQ: array<bool>, pq: PrioQueue,
                     ghost vs: seq<Vertex>, ghost es: seq<Edge>, ghost root: int,
                     ghost d: seq<Dist>, ghost p: seq<int>, ghost q: seq<bool>, ghost ord: seq<nat>, ghost t: nat,
                     ghost C: multiset<Pair>)
      returns (ghost d': seq<Dist>, ghost p': seq<int>, ghost q': seq<bool>, ghost ord': seq<nat>,
               ghost t': nat, ghost C': multiset<Pair>)
    requires GraphIs(g, vs, es)
    requires pq.Valid() && pq.IsHeap() && pq.n > 0
    requires dist[..] == d && pre[..] == p && inPQ[..] == q && pq.Contents() == C - multiset{x}
    requires PInv(g.n, vs, es, g.m, root, d, p, q, ord, t, C) && x in C && EntryOK(x, d) && q[x.key]
    modifies dist, pre, inPQ, pq, pq.queue
    ensures pq.Valid() && pq.IsHeap() && pq.n > 0
    ensures pq.queue == old(pq.queue) || fresh(pq.queue)
    ensures dist[..] == d' && pre[..] == p' && inPQ[..] == q' && pq.Contents() == C'
    ensures PInv(g.n, vs, es, g.m, root, d', p', q', ord', t', C')
    ensures NumTrue(q') < NumTrue(q)
  {
    PrimSettle(g.n, vs, es, g.m, root, d, p, q, ord, t, C, x);
    inPQ[x.key] := false;
    q', ord', t' := q[x.key := false], ord[x.key := t], t + 1;
    ClearFlagLowers(q, x.key);
    d', p', C' := PrimEdges(x.key, g, dist, pre, inPQ, pq, vs, es, root, d, p, q', ord', t', C - multiset{x});
  }

  /** One turn of prim's main loop: extract the least entry; skip it if its
      vertex is no longer in the queue, otherwise settle that vertex. */
  method PrimStep(g: Graph, dist: array<Dist>, pre: array<int>, inPQ: array<bool>, pq: PrioQueue,
                  ghost vs: seq<Vertex>, ghost es: seq<Edge>, ghost root: int,
                  ghost d: seq<Dist>, ghost p: seq<int>, ghost q: seq<bool>, ghost ord: seq<nat>, ghost t: nat,
                  ghost C: multiset<Pair>)
      returns (ghost d': seq<Dist>, ghost p': seq<int>, ghost q': seq<bool>, ghost ord': seq<nat>,
               ghost t': nat, ghost C': multiset<Pair>)
    requires GraphIs(g, vs, es)
    requires pq.Valid() && pq.IsHeap() && pq.n > 0 && C != multiset{}
    requires dist[..] == d && pre[..] == p && inPQ[..] == q && pq.Contents() == C
    requires PInv(g.n, vs, es, g.m, root, d, p, q, ord, t, C)
    modifies dist, pre, inPQ, pq, pq.queue
    ensures pq.Valid() && pq.IsHeap() && pq.n > 0
    ensures pq.queue == old(pq.queue) || fresh(pq.queue)
    ensures dist[..] == d' && pre[..] == p' && inPQ[..] == q' && pq.Contents() == C'
    ensures PInv(g.n, vs, es, g.m, root, d', p', q', ord', t', C')
    ensures NumTrue(q') < NumTrue(q) || (q' == q && |C'| < |C|)
  {
    var x := pq.ExtractMin();
    assert EntryOK(x, d);
    if !inPQ[x.key] {
      PrimSkip(g.n, vs, es, g.m, root, d, p, q, ord, t, C, x);
      d', p', q', ord', t', C' := d, p, q, ord, t, pq.Contents();
    } else {
      d', p', q', ord', t', C' := PrimSettle1(x, g, dist, pre, inPQ, pq, vs, es, root, d, p, q, ord, t, C);
    }
  }

  /** prim's initialisation loops: no predecessor edges; every distance
      DBL_MAX and every vertex in the queue. */
  method PrimArrays(n: nat) returns (dist: array<Dist>, pre: array<int>, inPQ: array<bool>)
    ensures fresh(dist) && fresh(pre) && fresh(inPQ)
    ensures dist.Length == pre.Length == inPQ.Length == n
    ensures forall w :: 0 <= w < n ==> dist[w] == Inf && pre[w] == NoEdge && inPQ[w]
  {
    pre := new int[n];
    var i := 0;
    while i < n
      invariant 0 <= i <= n
      invariant forall w :: 0 <= w < i ==> pre[w] == NoEdge
    {
      pre[i] := NoEdge;
      i := i + 1;
    }
    dist := new Dist[n];
    inPQ := new bool[n];
    i := 0;
    while i < n
      invariant 0 <= i <= n
      invariant forall w :: 0 <= w < i ==> dist[w] == Inf && inPQ[w]
      invariant forall w :: 0 <= w < n ==> pre[w] == NoEdge
    {
      dist[i] := Inf;
      inPQ[i] := true;
      i := i + 1;
    }
  }

  /** prim's set-up: the queue, the three arrays, dist[root] = 0 and the
      entry (root, 0); the main-loop invariant holds with nothing settled. */
  method PrimInit(g: Graph, root: int, ghost vs: seq<Vertex>, ghost es: seq<Edge>)
      returns (dist: array<Dist>, pre: array<int>, inPQ: array<bool>, pq: PrioQueue,
               ghost d: seq<Dist>, ghost p: seq<int>, ghost q: seq<bool>, ghost ord: seq<nat>,
               ghost C: multiset<Pair>)
    requires GraphIs(g, vs, es) && Ctx(g.n, vs, es, g.m) && 0 <= root < g.n
    ensures fresh(dist) && fresh(pre) && fresh(inPQ) && fresh(pq) && fresh(pq.queue)
    ensures pq.Valid() && pq.IsHeap() && pq.n > 0
    ensures dist[..] == d && pre[..] == p && inPQ[..] == q && pq.Contents() == C && C != multiset{}
    ensures PInv(g.n, vs, es, g.m, root, d, p, q, ord, 0, C)
  {
    pq := new PrioQueue(g.n);
    dist, pre, inPQ := PrimArrays(g.n);
    dist[root] := Fin(0);
    pq.Insert(Pair(root, 0));
    d, p, q, C := dist[..], pre[..], inPQ[..], pq.Contents();
    ord := seq(g.n, _ => 0);
    PrimStart(g.n, vs, es, g.m, root, d, p, q, ord);
  }

  /** prim(g, root): the predecessor edges of a spanning tree of root's
      component; ord is the (ghost) order in which vertices were settled. */
  method Prim(g: Graph, root: int) returns (preEdgeIndices: array<int>, ghost ord: seq<nat>)
    requires g.WellFormed() && 0 <= root < g.n
    ensures fresh(preEdgeIndices)
    ensures SpanningTree(g.n, g.vertices[..], g.edges[..], g.m, preEdgeIndices[..], root, ord)
  {
    ghost var vs, es := g.vertices[..], g.edges[..];
    var dist, inPQ, pq;
    ghost var d, p, q, C;
    dist, preEdgeIndices, inPQ, pq, d, p, q, ord, C := PrimInit(g, root, vs, es);
    ghost var t: nat := 0;
    var empty := pq.IsEmpty();
    while !empty
      invariant pq.Valid() && pq.IsHeap() && pq.n > 0
      invariant fresh(pq.queue)
      invariant dist[..] == d && preEdgeIndices[..] == p && inPQ[..] == q && pq.Contents() == C
      invariant empty <==> C == multiset{}
      invariant PInv(g.n, vs, es, g.m, root, d, p, q, ord, t, C)
      decreases NumTrue(q), |C|
    {
      d, p, q, ord, t, C := PrimStep(g, dist, preEdgeIndices, inPQ, pq, vs, es, root, d, p, q, ord, t, C);
      empty := pq.IsEmpty();
    }
    PrimFinished(g.n, vs, es, g.m, root, d, p, q, ord, t);
  }
}
