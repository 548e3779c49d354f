// Steiner heuristics: the MST of the whole graph (mstST), the MST with
// non-terminal leaves pruned through a worklist (prunedMST), and
// Takahashi-Matsuyama path splicing.

module Heuristics {
  import opened Types
  import opened Graphs
  import opened Utils
  import opened Queues
  import opened Dijkstras
  import opened Prims

  // ---------------------------------------------------------------------
  // collectEdgeIndices

  /** The entries of s that name an edge (are not -1), in index order. */
  function Kept(s: seq<int>): seq<int>
    decreases |s|
  {
    if s == [] then []
    else Kept(s[..|s| - 1]) + (if s[|s| - 1] != NoEdge then [s[|s| - 1]] else [])
  }

  /** Kept drops exactly the -1 entries and is no longer than s. */
  lemma {:induction false} KeptMembers(s: seq<int>)
    ensures |Kept(s)| <= |s|
    ensures forall x :: x in Kept(s) <==> x in s && x != NoEdge
    decreases |s|
  {
    if s != [] {
      var l := |s| - 1;
      KeptMembers(s[..l]);
      assert s == s[..l] + [s[l]];
    }
  }

  /** Entries of s that name an edge are pairwise different. */
  predicate DistinctEdges(s: seq<int>)
  {
    forall i, j :: 0 <= i < |s| && 0 <= j < |s| && i != j && s[i] != NoEdge ==> s[i] != s[j]
  }

  /** With no edge named twice, Kept(s) is duplicate-free. */
  lemma {:induction false} KeptDistinct(s: seq<int>)
    requires DistinctEdges(s)
    ensures Distinct(Kept(s))
    decreases |s|
  {
    if s != [] {
      var l := |s| - 1;
      assert DistinctEdges(s[..l]);
      KeptDistinct(s[..l]);
      KeptMembers(s[..l]);
      if s[l] != NoEdge {
        var r := Kept(s[..l]);
        assert s[l] !in s[..l] by {
          forall k | 0 <= k < l ensures s[..l][k] != s[l] {
            assert s[k] != s[l];
          }
        }
        assert s[l] !in r;
        assert Distinct(r + [s[l]]) by {
          forall i, j | 0 <= i < j < |r| + 1 ensures (r + [s[l]])[i] != (r + [s[l]])[j] {
            if j == |r| {
              assert (r + [s[l]])[i] in r;
            }
          }
        }
      }
    }
  }

  /** collectEdgeIndices: copy the entries of mstIndices[0..n) that are not
      -1 to the front of edgeIndices, in index order; return their count. */
  method CollectEdgeIndices(mstIndices: array<int>, n: int, edgeIndices: array<int>) returns (nEdges: int)
    requires 0 <= n <= mstIndices.Length && mstIndices != edgeIndices
    requires |Kept(mstIndices[..n])| <= edgeIndices.Length
    modifies edgeIndices
    ensures nEdges == |Kept(mstIndices[..n])|
    ensures edgeIndices[..nEdges] == Kept(mstIndices[..n])
    ensures edgeIndices[nEdges..] == old(edgeIndices[nEdges..])
  {
    nEdges := 0;
    var i := 0;
    while i < n
      invariant 0 <= i <= n
      invariant nEdges == |Kept(mstIndices[..i])| && nEdges <= edgeIndices.Length
      invariant edgeIndices[..nEdges] == Kept(mstIndices[..i])
      invariant edgeIndices[nEdges..] == old(edgeIndices[nEdges..])
    {
      assert mstIndices[..i + 1][..i] == mstIndices[..i];
      assert mstIndices[..n][..i + 1] == mstIndices[..i + 1];
      KeptPrefix(mstIndices[..n], i + 1);
      if mstIndices[i] != NoEdge {
        edgeIndices[nEdges] := mstIndices[i];
        nEdges := nEdges + 1;
      }
      i := i + 1;
    }
    assert mstIndices[..n][..n] == mstIndices[..n];
  }

  /** Kept of a prefix is no longer than Kept of the whole. */
  lemma {:induction false} KeptPrefix(s: seq<int>, i: int)
    requires 0 <= i <= |s|
    ensures |Kept(s[..i])| <= |Kept(s)|
    decreases |s| - i
  {
    if i < |s| {
      KeptPrefix(s, i + 1);
      assert s[..i + 1][..i] == s[..i];
    } else {
      assert s[..i] == s;
    }
  }

  /** The tree's edges, listed once per vertex that has one: duplicate-free
      edge slots below m, so they fit in an array of m slots. */
  lemma TreeKept(n: int, es: seq<Edge>, m: int, pre: seq<int>, root: int, ord: seq<nat>)
    requires RootedTree(n, es, m, pre, root, ord)
    ensures Distinct(Kept(pre)) && InRange(Kept(pre), m) && |Kept(pre)| <= m
  {
    forall i, j | 0 <= i < |pre| && 0 <= j < |pre| && i != j && pre[i] != NoEdge ensures pre[i] != pre[j] {
      TreeEdgesDistinct(n, es, m, pre, root, ord, i, j);
    }
    KeptDistinct(pre);
    KeptMembers(pre);
    forall k | 0 <= k < |Kept(pre)| ensures 0 <= Kept(pre)[k] < m {
      assert Kept(pre)[k] in Kept(pre);
      var w :| 0 <= w < n && pre[w] == Kept(pre)[k];
      assert TreeEdgeOK(n, es, m, pre, root, ord, w);
    }
    DistinctInRangeBound(Kept(pre), m);
  }

  // ---------------------------------------------------------------------
  // mstST

  /** mstST: the edges of prim's tree rooted at the first terminal. */
  method MstST(g: Graph, terms: seq<int>) returns (tree: array<int>, nTree: int, ghost pre: seq<int>,
                                                  ghost ord: seq<nat>)
    requires g.WellFormed() && |terms| > 0 && 0 <= terms[0] < g.n
    ensures SpanningTree(g.n, g.vertices[..], g.edges[..], g.m, pre, terms[0], ord)
    ensures fresh(tree) && tree.Length == g.m && 0 <= nTree <= g.m
    ensures tree[..nTree] == Kept(pre) && Distinct(tree[..nTree])
  {
    var mstIndices;
    mstIndices, ord := Prim(g, terms[0]);
    pre := mstIndices[..];
    TreeKept(g.n, g.edges[..], g.m, pre, terms[0], ord);
    tree := new int[g.m];
    assert mstIndices[..g.n] == pre;
    nTree := CollectEdgeIndices(mstIndices, g.n, tree);
  }

  // ---------------------------------------------------------------------
  // prunedMST: degrees in the tree as values

  /** How often x is an endpoint of e (twice for a loop at x). */
  function Ends(e: Edge, x: int): nat
  {
    (if e.v == x then 1 else 0) + (if e.w == x then 1 else 0)
  }

  /** The degree of x counted over the entries of p that name an edge,
      both endpoints of each: what prunedMST's degree loop computes. */
  function DegIn(es: seq<Edge>, p: seq<int>, x: int): nat
    decreases |p|
  {
    if p == [] then 0
    else DegIn(es, p[..|p| - 1], x) + (if 0 <= p[|p| - 1] < |es| then Ends(es[p[|p| - 1]], x) else 0)
  }

  /** Clearing entry u of p takes exactly its edge's endpoints off the count. */
  lemma {:induction false} DegInClear(es: seq<Edge>, p: seq<int>, u: int, x: int)
    requires 0 <= u < |p| && 0 <= p[u] < |es|
    ensures DegIn(es, p[u := NoEdge], x) + Ends(es[p[u]], x) == DegIn(es, p, x)
    decreases |p|
  {
    var l := |p| - 1;
    if u == l {
      assert p[u := NoEdge][..l] == p[..l];
    } else {
      DegInClear(es, p[..l], u, x);
      assert p[u := NoEdge][..l] == p[..l][u := NoEdge];
    }
  }

  /** No entry naming an edge at x: x has degree 0. */
  lemma {:induction false} DegInNone(es: seq<Edge>, p: seq<int>, x: int)
    requires forall u :: 0 <= u < |p| && 0 <= p[u] < |es| ==> Ends(es[p[u]], x) == 0
    ensures DegIn(es, p, x) == 0
    decreases |p|
  {
    if p != [] {
      var l := |p| - 1;
      forall u | 0 <= u < l && 0 <= p[..l][u] < |es| ensures Ends(es[p[..l][u]], x) == 0 {
        assert p[..l][u] == p[u];
      }
      DegInNone(es, p[..l], x);
    }
  }

  /** Entry v of p is -1 or an edge slot below m at v that is not a loop. */
  ghost predicate Owned(es: seq<Edge>, m: int, p: seq<int>, v: int)
    requires 0 <= v < |p| && m <= |es|
  {
    p[v] == NoEdge || (0 <= p[v] < m && Incident(es[p[v]], v) && es[p[v]].v != es[p[v]].w)
  }

  /** Facts about the tree and degree array that every phase of prunedMST
      keeps: entries are owned, degree[x] is x's degree, -1 entries other
      than the root's belong to isolated vertices, and the root is a terminal. */
  ghost predicate DegState(n: int, es: seq<Edge>, m: int, root: int, T: seq<bool>, p: seq<int>, deg: seq<int>)
  {
    && |p| == |deg| == |T| == n && 0 <= root < n && T[root] && p[root] == NoEdge
    && 0 <= m <= |es| && (forall i :: 0 <= i < m ==> 0 <= es[i].v < n && 0 <= es[i].w < n)
    && (forall v :: 0 <= v < n ==> Owned(es, m, p, v))
    && (forall v :: 0 <= v < n ==> deg[v] == DegIn(es, p, v))
    && (forall v :: 0 <= v < n && p[v] == NoEdge && v != root ==> DegIn(es, p, v) == 0)
  }

  /** v's entry is the MST's, or it was pruned: -1 at an isolated non-terminal. */
  ghost predicate PrunedAt(es: seq<Edge>, pre0: seq<int>, T: seq<bool>, p: seq<int>, v: int)
    requires 0 <= v < |pre0| == |p| == |T|
  {
    p[v] == pre0[v] || (p[v] == NoEdge && !T[v] && DegIn(es, p, v) == 0)
  }

  /** Prim's tree as prunedMST sees it: its edges are no loops and only the
      root and unreached vertices lack a predecessor edge. */
  lemma TreeDegrees(n: int, es: seq<Edge>, m: int, pre: seq<int>, root: int, ord: seq<nat>)
    requires RootedTree(n, es, m, pre, root, ord)
    ensures forall v :: 0 <= v < n ==> Owned(es, m, pre, v)
    ensures forall v :: 0 <= v < n && pre[v] == NoEdge && v != root ==> DegIn(es, pre, v) == 0
  {
    forall v | 0 <= v < n ensures Owned(es, m, pre, v) {
      assert TreeEdgeOK(n, es, m, pre, root, ord, v);
    }
    forall v | 0 <= v < n && pre[v] == NoEdge && v != root ensures DegIn(es, pre, v) == 0 {
      forall u | 0 <= u < |pre| && 0 <= pre[u] < |es| ensures Ends(es[pre[u]], v) == 0 {
        assert TreeEdgeOK(n, es, m, pre, root, ord, u);
      }
      DegInNone(es, pre, v);
    }
  }

  /** A duplicate-free list of non-terminals in [0, n) leaves room for the
      root: it has at most n - 1 elements. */
  lemma RoomForRoot(n: int, root: int, T: seq<bool>, E: seq<int>)
    requires |T| == n && 0 <= root < n && T[root]
    requires Distinct(E) && forall j :: 0 <= j < |E| ==> 0 <= E[j] < n && !T[E[j]]
    ensures |E| <= n - 1
  {
    var s := E + [root];
    forall i, j | 0 <= i < j < |s| ensures s[i] != s[j] {
    }
    DistinctInRangeBound(s, n);
  }

  // ---------------------------------------------------------------------
  // prunedMST: the worklist as values

  /** The pruning-loop invariant: the degree facts and the worklist facts. */
  ghost predicate PruneInv(n: int, es: seq<Edge>, m: int, pre0: seq<int>, root: int, T: seq<bool>,
                           p: seq<int>, deg: seq<int>, D: seq<int>, Q: seq<int>, E: seq<int>)
  {
    DegState(n, es, m, root, T, p, deg) && QueueInv(n, es, pre0, T, p, D, Q, E)
  }

  /** The worklist facts. D are the dequeued vertices and Q the queued ones;
      E = D + Q is everything ever enqueued, each vertex at most once, all
      non-terminals of degree at most 1. A queued vertex that still has its
      edge is a leaf, and every non-terminal leaf is queued. Every entry is
      the MST's or was pruned. */
  ghost predicate QueueInv(n: int, es: seq<Edge>, pre0: seq<int>, T: seq<bool>,
                           p: seq<int>, D: seq<int>, Q: seq<int>, E: seq<int>)
  {
    && |pre0| == |p| == |T| == n
    && (forall v :: 0 <= v < n ==> PrunedAt(es, pre0, T, p, v))
    && E == D + Q && Distinct(E)
    && (forall j :: 0 <= j < |E| ==> 0 <= E[j] < n && !T[E[j]] && DegIn(es, p, E[j]) <= 1)
    && (forall j :: 0 <= j < |Q| ==> 0 <= Q[j] < n && !T[Q[j]] && (p[Q[j]] != NoEdge ==> DegIn(es, p, Q[j]) == 1))
    && (forall v :: 0 <= v < n && !T[v] && DegIn(es, p, v) == 1 ==> v in Q)
  }

  /** The seeding loop after i vertices: Q holds, in order, the vertices
      below i whose tree edge has a non-terminal leaf end, which is then the
      vertex itself. */
  ghost predicate SeedLeavesInv(n: int, es: seq<Edge>, m: int, root: int, T: seq<bool>, pre0: seq<int>,
                                deg: seq<int>, Q: seq<int>, i: int)
  {
    DegState(n, es, m, root, T, pre0, deg) && SeedQueue(n, es, T, pre0, Q, i)
  }

  /** The queue part of the seeding invariant: Q lists exactly the
      non-terminal leaves below i that have their tree edge, each once. */
  ghost predicate SeedQueue(n: int, es: seq<Edge>, T: seq<bool>, pre0: seq<int>, Q: seq<int>, i: int)
    requires |T| == |pre0| == n
  {
    && 0 <= i <= n && Distinct(Q)
    && (forall j :: 0 <= j < |Q| ==>
          0 <= Q[j] < i && !T[Q[j]] && pre0[Q[j]] != NoEdge && DegIn(es, pre0, Q[j]) == 1)
    && (forall v :: 0 <= v < i && !T[v] && DegIn(es, pre0, v) == 1 && pre0[v] != NoEdge ==> v in Q)
  }

  /** Passing over a vertex that is not a non-terminal leaf with an edge. */
  lemma SeedKeep(n: int, es: seq<Edge>, T: seq<bool>, pre0: seq<int>, Q: seq<int>, i: int)
    requires |T| == |pre0| == n && SeedQueue(n, es, T, pre0, Q, i) && i < n
    requires !(!T[i] && DegIn(es, pre0, i) == 1 && pre0[i] != NoEdge)
    ensures SeedQueue(n, es, T, pre0, Q, i + 1)
  {
  }

  /** Queueing a non-terminal leaf with an edge; there is room for it. */
  lemma SeedAdd(n: int, es: seq<Edge>, root: int, T: seq<bool>, pre0: seq<int>, Q: seq<int>, i: int)
    requires |T| == |pre0| == n && SeedQueue(n, es, T, pre0, Q, i) && i < n
    requires 0 <= root < n && T[root]
    requires !T[i] && DegIn(es, pre0, i) == 1 && pre0[i] != NoEdge
    ensures SeedQueue(n, es, T, pre0, Q + [i], i + 1) && |Q| + 1 < n
  {
    var Q' := Q + [i];
    forall a, b | 0 <= a < b < |Q'| ensures Q'[a] != Q'[b] {
    }
    RoomForRoot(n, root, T, Q');
  }

  /** Whether entry i's edge has an end that is a non-terminal of degree 1
      (the enqueue test of the seeding loop). */
  predicate LeafEnd(e: Edge, deg: seq<int>, T: seq<bool>)
    requires 0 <= e.v < |deg| && 0 <= e.w < |deg| && |T| == |deg|
  {
    (deg[e.v] == 1 && !T[e.v]) || (deg[e.w] == 1 && !T[e.w])
  }

  /** The far end of a tree edge is the root, a terminal, or has degree at
      least 2: its own edge as well as this one. */
  lemma OtherEndBusy(n: int, es: seq<Edge>, m: int, root: int, T: seq<bool>, p: seq<int>, deg: seq<int>, i: int)
    requires DegState(n, es, m, root, T, p, deg) && 0 <= i < n && p[i] != NoEdge
    ensures 0 <= p[i] < m
    ensures T[GetPredecessor(i, es[p[i]])] || DegIn(es, p, GetPredecessor(i, es[p[i]])) >= 2
  {
    assert Owned(es, m, p, i);
    var u := GetPredecessor(i, es[p[i]]);
    assert u != i && Ends(es[p[i]], u) == 1;
    DegInClear(es, p, i, u);
    if p[u] != NoEdge {
      assert Owned(es, m, p, u);
      DegInClear(es, p[i := NoEdge], u, u);
    }
  }

  /** One turn of the seeding loop. When the test holds, the leaf end is i
      itself (the other end has i's edge and its own, or is the root, a
      terminal), and there is room in the queue. */
  lemma SeedLeavesStep(n: int, es: seq<Edge>, m: int, root: int, T: seq<bool>, pre0: seq<int>,
                       deg: seq<int>, Q: seq<int>, i: int)
    requires SeedLeavesInv(n, es, m, root, T, pre0, deg, Q, i) && i < n
    ensures pre0[i] == NoEdge ==> SeedLeavesInv(n, es, m, root, T, pre0, deg, Q, i + 1)
    ensures pre0[i] != NoEdge ==> 0 <= pre0[i] < m
    ensures pre0[i] != NoEdge && LeafEnd(es[pre0[i]], deg, T) ==>
      SeedLeavesInv(n, es, m, root, T, pre0, deg, Q + [i], i + 1) && |Q| + 1 < n
    ensures pre0[i] != NoEdge && !LeafEnd(es[pre0[i]], deg, T) ==>
      SeedLeavesInv(n, es, m, root, T, pre0, deg, Q, i + 1)
  {
    assert deg[i] == DegIn(es, pre0, i);
    assert Owned(es, m, pre0, i);
    if pre0[i] != NoEdge {
      OtherEndBusy(n, es, m, root, T, pre0, deg, i);
      var e := es[pre0[i]];
      var u := GetPredecessor(i, e);
      assert u != i && {u, i} == {e.v, e.w} && deg[u] == DegIn(es, pre0, u);
      if LeafEnd(e, deg, T) {
        SeedAdd(n, es, root, T, pre0, Q, i);
      } else {
        SeedKeep(n, es, T, pre0, Q, i);
      }
    } else {
      SeedKeep(n, es, T, pre0, Q, i);
    }
  }

  /** After the seeding loop the pruning invariant holds, nothing dequeued. */
  lemma SeedLeavesEnd(n: int, es: seq<Edge>, m: int, root: int, T: seq<bool>, pre0: seq<int>,
                      deg: seq<int>, Q: seq<int>)
    requires SeedLeavesInv(n, es, m, root, T, pre0, deg, Q, n)
    ensures PruneInv(n, es, m, pre0, root, T, pre0, deg, [], Q, Q)
  {
    assert [] + Q == Q;
  }

  /** A dequeued vertex whose entry is already -1 is skipped. */
  lemma PruneSkip(n: int, es: seq<Edge>, m: int, pre0: seq<int>, root: int, T: seq<bool>,
                  p: seq<int>, deg: seq<int>, D: seq<int>, Q: seq<int>, E: seq<int>)
    requires PruneInv(n, es, m, pre0, root, T, p, deg, D, Q, E) && Q != [] && p[Q[0]] == NoEdge
    ensures PruneInv(n, es, m, pre0, root, T, p, deg, D + [Q[0]], Q[1..], E)
  {
    assert D + Q == (D + [Q[0]]) + Q[1..] by {
      assert Q == [Q[0]] + Q[1..];
    }
    forall v | 0 <= v < n && !T[v] && DegIn(es, p, v) == 1 ensures v in Q[1..] {
      assert v in Q;
    }
  }

  /** Clearing entry leaf takes its edge's endpoints off every degree. */
  lemma ClearDeg(es: seq<Edge>, p: seq<int>, leaf: int, p': seq<int>)
    requires 0 <= leaf < |p| && 0 <= p[leaf] < |es| && p' == p[leaf := NoEdge]
    ensures forall x :: DegIn(es, p', x) + Ends(es[p[leaf]], x) == DegIn(es, p, x)
  {
    forall x ensures DegIn(es, p', x) + Ends(es[p[leaf]], x) == DegIn(es, p, x) {
      DegInClear(es, p, leaf, x);
    }
  }

  /** Dropping a leaf's edge: its degree goes from 1 to 0 and its
      neighbour w's drops by one, all others stay; the degree facts still hold. */
  lemma ClearLeaf(n: int, es: seq<Edge>, m: int, root: int, T: seq<bool>, p: seq<int>, deg: seq<int>,
                  leaf: int, w: int, p': seq<int>, deg': seq<int>)
    requires DegState(n, es, m, root, T, p, deg) && 0 <= leaf < n && !T[leaf] && DegIn(es, p, leaf) <= 1
    requires p[leaf] != NoEdge && 0 <= p[leaf] < |es| && w == GetPredecessor(leaf, es[p[leaf]])
    requires p' == p[leaf := NoEdge] && 0 <= w < n && deg' == deg[leaf := 0][w := deg[w] - 1]
    ensures w != leaf && DegIn(es, p', leaf) == 0 && DegIn(es, p', w) + 1 == DegIn(es, p, w)
    ensures forall x :: x != leaf && x != w ==> DegIn(es, p', x) == DegIn(es, p, x)
    ensures p[w] != NoEdge ==> DegIn(es, p, w) >= 2
    ensures DegState(n, es, m, root, T, p', deg')
  {
    assert Owned(es, m, p, leaf);
    var e := es[p[leaf]];
    assert w != leaf && Ends(e, w) == 1 && Ends(e, leaf) == 1;
    ClearDeg(es, p, leaf, p');
    if p[w] != NoEdge {
      assert Owned(es, m, p, w);
      DegInClear(es, p', w, w);
    }
    forall v | 0 <= v < n ensures Owned(es, m, p', v) {
      assert Owned(es, m, p, v);
    }
    forall x | x != leaf && x != w ensures DegIn(es, p', x) == DegIn(es, p, x) {
      assert DegIn(es, p', x) + Ends(e, x) == DegIn(es, p, x);
    }
    forall v | 0 <= v < n ensures deg'[v] == DegIn(es, p', v) {
    }
  }

  /** Clearing a non-terminal's entry, which leaves it isolated, keeps
      every entry the MST's or pruned. */
  lemma ClearPruned(es: seq<Edge>, pre0: seq<int>, T: seq<bool>, p: seq<int>, leaf: int, w: int, p': seq<int>)
    requires |pre0| == |p| == |T| && 0 <= leaf < |p| && !T[leaf] && p' == p[leaf := NoEdge]
    requires forall v :: 0 <= v < |p| ==> PrunedAt(es, pre0, T, p, v)
    requires forall x :: x != leaf && x != w ==> DegIn(es, p', x) == DegIn(es, p, x)
    requires DegIn(es, p', leaf) == 0 && DegIn(es, p', w) <= DegIn(es, p, w)
    ensures forall v :: 0 <= v < |p| ==> PrunedAt(es, pre0, T, p', v)
  {
    forall v | 0 <= v < |p| ensures PrunedAt(es, pre0, T, p', v) {
      assert PrunedAt(es, pre0, T, p, v);
    }
  }

  /** The worklist after a leaf's edge is dropped: the leaf moves to the
      dequeued part, and its neighbour w is queued when it has just become a
      non-terminal of degree 1, which it never was before. */
  lemma QueueRemove(n: int, es: seq<Edge>, pre0: seq<int>, root: int, T: seq<bool>, p: seq<int>,
                    D: seq<int>, Q: seq<int>, E: seq<int>, w: int, p': seq<int>)
    requires QueueInv(n, es, pre0, T, p, D, Q, E) && 0 <= root < n && T[root]
    requires Q != [] && 0 <= Q[0] < n && p[Q[0]] != NoEdge && p' == p[Q[0] := NoEdge]
    requires 0 <= w < n && w != Q[0] && DegIn(es, p', Q[0]) == 0 && DegIn(es, p', w) + 1 == DegIn(es, p, w)
    requires forall x :: x != Q[0] && x != w ==> DegIn(es, p', x) == DegIn(es, p, x)
    requires p[w] != NoEdge ==> DegIn(es, p, w) >= 2
    ensures DegIn(es, p', w) == 1 && !T[w] ==>
      QueueInv(n, es, pre0, T, p', D + [Q[0]], Q[1..] + [w], E + [w]) && |Q| < n - 1
    ensures !(DegIn(es, p', w) == 1 && !T[w]) ==> QueueInv(n, es, pre0, T, p', D + [Q[0]], Q[1..], E)
  {
    var leaf := Q[0];
    ClearPruned(es, pre0, T, p, leaf, w, p');
    if p[w] != NoEdge {
      forall j | 0 <= j < |Q| - 1 ensures Q[1..][j] != w {
        assert Q[1..][j] == Q[j + 1];
      }
    }
    assert E == (D + [leaf]) + Q[1..] by {
      assert Q == [leaf] + Q[1..];
    }
    forall v | 0 <= v < n && !T[v] && DegIn(es, p', v) == 1 && v != w ensures v in Q[1..] {
      assert v in Q;
    }
    if DegIn(es, p', w) == 1 && !T[w] {
      var E' := E + [w];
      forall j | 0 <= j < |E| ensures E[j] != w {
      }
      forall a, b | 0 <= a < b < |E'| ensures E'[a] != E'[b] {
      }
      RoomForRoot(n, root, T, E');
      assert E' == (D + [leaf]) + (Q[1..] + [w]);
    }
  }

  /** A dequeued leaf loses its edge: its entry becomes -1, its degree 0 and
      its neighbour's degree drops by one; the neighbour is queued exactly
      when it becomes a non-terminal of degree 1, for the first time. */
  lemma PruneRemove(n: int, es: seq<Edge>, m: int, pre0: seq<int>, root: int, T: seq<bool>,
                    p: seq<int>, deg: seq<int>, D: seq<int>, Q: seq<int>, E: seq<int>, w: int)
    requires PruneInv(n, es, m, pre0, root, T, p, deg, D, Q, E) && Q != [] && 0 <= Q[0] < n
    requires p[Q[0]] != NoEdge && 0 <= p[Q[0]] < |es| && w == GetPredecessor(Q[0], es[p[Q[0]]])
    ensures 0 <= w < n && w != Q[0]
    ensures var p', deg' := p[Q[0] := NoEdge], deg[Q[0] := 0][w := deg[w] - 1];
      && (deg'[w] == 1 && !T[w] ==>
            PruneInv(n, es, m, pre0, root, T, p', deg', D + [Q[0]], Q[1..] + [w], E + [w]) && |Q| < n - 1)
      && (!(deg'[w] == 1 && !T[w]) ==> PruneInv(n, es, m, pre0, root, T, p', deg', D + [Q[0]], Q[1..], E))
  {
    var leaf := Q[0];
    assert leaf in E by { assert E == D + Q; }
    assert Owned(es, m, p, leaf);
    var p', deg' := p[leaf := NoEdge], deg[leaf := 0][w := deg[w] - 1];
    ClearLeaf(n, es, m, root, T, p, deg, leaf, w, p', deg');
    QueueRemove(n, es, pre0, root, T, p, D, Q, E, w, p');
  }

  /** With the queue drained, no non-terminal has degree 1 any more. */
  lemma PruneEnd(n: int, es: seq<Edge>, m: int, pre0: seq<int>, root: int, T: seq<bool>,
                 p: seq<int>, deg: seq<int>, D: seq<int>, E: seq<int>)
    requires PruneInv(n, es, m, pre0, root, T, p, deg, D, [], E)
    ensures forall v :: 0 <= v < n && !T[v] ==> DegIn(es, p, v) != 1
  {
  }

  /** The pruned entries still form a tree rooted at the same root: a kept
      edge's upper end keeps its own edge, as it still has degree >= 1. */
  lemma PrunedIsTree(n: int, es: seq<Edge>, m: int, pre0: seq<int>, root: int, ord: seq<nat>, T: seq<bool>,
                     p: seq<int>)
    requires RootedTree(n, es, m, pre0, root, ord) && |p| == |T| == n
    requires forall v :: 0 <= v < n ==> PrunedAt(es, pre0, T, p, v)
    ensures RootedTree(n, es, m, p, root, ord)
    ensures forall v :: 0 <= v < n && T[v] && InTree(pre0, root, v) ==> InTree(p, root, v)
  {
    forall v | 0 <= v < n && T[v] && InTree(pre0, root, v) ensures InTree(p, root, v) {
      assert PrunedAt(es, pre0, T, p, v);
    }
    forall w | 0 <= w < n ensures TreeEdgeOK(n, es, m, p, root, ord, w) {
      assert PrunedAt(es, pre0, T, p, w);
      if p[w] != NoEdge {
        assert TreeEdgeOK(n, es, m, pre0, root, ord, w);
        var u := GetPredecessor(w, es[p[w]]);
        if !InTree(p, root, u) {
          assert PrunedAt(es, pre0, T, p, u);
          DegInClear(es, p, w, u);
          assert false;
        }
      }
    }
    assert PrunedAt(es, pre0, T, p, root);
  }

  // ---------------------------------------------------------------------
  // prunedMST

  /** prunedMST's degree loop: both ends of every tree edge are counted. */
  method CountDegrees(g: Graph, mstIndices: array<int>, ghost es: seq<Edge>) returns (degree: array<int>)
    requires g.edges[..] == es && 0 <= g.n == mstIndices.Length
    requires forall v :: 0 <= v < g.n ==> mstIndices[v] == NoEdge || 0 <= mstIndices[v] < |es|
    requires forall v :: 0 <= v < g.n && mstIndices[v] != NoEdge ==>
      0 <= es[mstIndices[v]].v < g.n && 0 <= es[mstIndices[v]].w < g.n
    ensures fresh(degree) && degree.Length == g.n
    ensures forall x :: 0 <= x < g.n ==> degree[x] == DegIn(es, mstIndices[..], x)
  {
    degree := new int[g.n](_ => 0);
    var v := 0;
    while v < g.n
      invariant 0 <= v <= g.n
      invariant forall x :: 0 <= x < g.n ==> degree[x] == DegIn(es, mstIndices[..v], x)
    {
      assert mstIndices[..v + 1][..v] == mstIndices[..v];
      if mstIndices[v] != NoEdge {
        var e := g.edges[mstIndices[v]];
        degree[e.v] := degree[e.v] + 1;
        degree[e.w] := degree[e.w] + 1;
      }
      v := v + 1;
    }
    assert mstIndices[..g.n] == mstIndices[..];
  }

  /** prunedMST's terminal loop: isTerminal[x] iff x is a terminal. */
  method MarkTerminals(terms: seq<int>, n: int) returns (isTerminal: array<bool>)
    requires 0 <= n && forall i :: 0 <= i < |terms| ==> 0 <= terms[i] < n
    ensures fresh(isTerminal) && isTerminal.Length == n
    ensures forall x :: 0 <= x < n ==> (isTerminal[x] <==> x in terms)
  {
    isTerminal := new bool[n](_ => false);
    var i := 0;
    while i < |terms|
      invariant 0 <= i <= |terms|
      invariant forall x :: 0 <= x < n ==> (isTerminal[x] <==> x in terms[..i])
    {
      assert terms[..i + 1] == terms[..i] + [terms[i]];
      isTerminal[terms[i]] := true;
      i := i + 1;
    }
    assert terms[..|terms|] == terms;
  }

  /** prunedMST's seeding loop: enqueue every vertex whose tree edge has a
      non-terminal end of degree 1. */
  method SeedLeaves(g: Graph, mstIndices: array<int>, degree: array<int>, isTerminal: array<bool>, q: Queue,
                    ghost es: seq<Edge>, ghost root: int)
      returns (ghost Q: seq<int>)
    requires g.edges[..] == es && q.Valid() && q.cap == g.n && q.Contents() == []
    requires q.data != mstIndices && q.data != degree
    requires SeedLeavesInv(g.n, es, g.m, root, isTerminal[..], mstIndices[..], degree[..], [], 0)
    modifies q, q.data
    ensures q.Valid() && q.cap == g.n && q.data == old(q.data) && q.Contents() == Q
    ensures SeedLeavesInv(g.n, es, g.m, root, isTerminal[..], mstIndices[..], degree[..], Q, g.n)
  {
    Q := [];
    var i := 0;
    while i < g.n
      invariant 0 <= i <= g.n
      invariant q.Valid() && q.cap == g.n && q.data == old(q.data) && q.Contents() == Q
      invariant SeedLeavesInv(g.n, es, g.m, root, isTerminal[..], mstIndices[..], degree[..], Q, i)
    {
      SeedLeavesStep(g.n, es, g.m, root, isTerminal[..], mstIndices[..], degree[..], Q, i);
      if mstIndices[i] != NoEdge {
        var e := g.edges[mstIndices[i]];
        if (degree[e.v] == 1 && !isTerminal[e.v]) || (degree[e.w] == 1 && !isTerminal[e.w]) {
          assert LeafEnd(es[mstIndices[..][i]], degree[..], isTerminal[..]);
          q.Enqueue(i);
          Q := Q + [i];
        }
      }
      i := i + 1;
    }
  }

  /** The removal branch of a pruning turn: leaf's tree edge is dropped,
      both ends lose a degree, and the other end is queued when it becomes
      a non-terminal leaf. */
  method DropLeafEdge(g: Graph, mstIndices: array<int>, degree: array<int>, isTerminal: array<bool>, q: Queue,
                      leaf: int, ghost es: seq<Edge>, ghost pre0: seq<int>, ghost root: int,
                      ghost D: seq<int>, ghost Q: seq<int>, ghost E: seq<int>)
      returns (ghost Q': seq<int>, ghost E': seq<int>)
    requires g.edges[..] == es && q.Valid() && q.cap == g.n && Q != [] && leaf == Q[0] && q.Contents() == Q[1..]
    requires q.data != mstIndices && q.data != degree && mstIndices != degree
    requires PruneInv(g.n, es, g.m, pre0, root, isTerminal[..], mstIndices[..], degree[..], D, Q, E)
    requires 0 <= leaf < g.n && mstIndices[leaf] != NoEdge
    modifies q, q.data, mstIndices, degree
    ensures q.Valid() && q.cap == g.n && q.data == old(q.data) && q.Contents() == Q'
    ensures PruneInv(g.n, es, g.m, pre0, root, isTerminal[..], mstIndices[..], degree[..], D + [leaf], Q', E')
    ensures |E| <= |E'| && (|E'| == |E| ==> |Q'| < |Q|)
  {
    ghost var T, p, deg := isTerminal[..], mstIndices[..], degree[..];
    assert Owned(es, g.m, p, leaf);
    var e := g.edges[mstIndices[leaf]];
    var w := GetPredecessor(leaf, e);
    PruneRemove(g.n, es, g.m, pre0, root, T, p, deg, D, Q, E, w);
    mstIndices[leaf] := NoEdge;
    degree[leaf] := 0;
    degree[w] := degree[w] - 1;
    assert mstIndices[..] == p[leaf := NoEdge];
    assert degree[..] == deg[leaf := 0][w := deg[w] - 1];
    Q', E' := Q[1..], E;
    if degree[w] == 1 && !isTerminal[w] {
      q.Enqueue(w);
      Q', E' := Q' + [w], E + [w];
    }
  }

  /** One turn of prunedMST's pruning loop: dequeue a vertex; skip it if its
      entry is -1, otherwise drop its edge and queue its neighbour when that
      becomes a non-terminal of degree 1. */
  method PruneStep(g: Graph, mstIndices: array<int>, degree: array<int>, isTerminal: array<bool>, q: Queue,
                   ghost es: seq<Edge>, ghost pre0: seq<int>, ghost root: int,
                   ghost D: seq<int>, ghost Q: seq<int>, ghost E: seq<int>)
      returns (ghost D': seq<int>, ghost Q': seq<int>, ghost E': seq<int>)
    requires g.edges[..] == es && q.Valid() && q.cap == g.n && q.Contents() == Q && Q != []
    requires q.data != mstIndices && q.data != degree && mstIndices != degree
    requires PruneInv(g.n, es, g.m, pre0, root, isTerminal[..], mstIndices[..], degree[..], D, Q, E)
    modifies q, q.data, mstIndices, degree
    ensures q.Valid() && q.cap == g.n && q.data == old(q.data) && q.Contents() == Q'
    ensures PruneInv(g.n, es, g.m, pre0, root, isTerminal[..], mstIndices[..], degree[..], D', Q', E')
    ensures |E| <= |E'| <= g.n && (|E'| == |E| ==> |Q'| < |Q|)
  {
    ghost var T, p, deg := isTerminal[..], mstIndices[..], degree[..];
    var leaf := q.Dequeue();
    assert leaf == Q[0] && 0 <= leaf < g.n;
    D' := D + [leaf];
    if mstIndices[leaf] == NoEdge {
      PruneSkip(g.n, es, g.m, pre0, root, T, p, deg, D, Q, E);
      Q', E' := Q[1..], E;
    } else {
      Q', E' := DropLeafEdge(g, mstIndices, degree, isTerminal, q, leaf, es, pre0, root, D, Q, E);
    }
    RoomForRoot(g.n, root, T, E');
  }

  /** prunedMST's pruning loop, run until the queue is empty. */
  method PruneLeaves(g: Graph, mstIndices: array<int>, degree: array<int>, isTerminal: array<bool>, q: Queue,
                     ghost es: seq<Edge>, ghost pre0: seq<int>, ghost root: int, ghost Q0: seq<int>)
    requires g.edges[..] == es && q.Valid() && q.cap == g.n && q.Contents() == Q0
    requires q.data != mstIndices && q.data != degree && mstIndices != degree
    requires PruneInv(g.n, es, g.m, pre0, root, isTerminal[..], mstIndices[..], degree[..], [], Q0, Q0)
    modifies q, q.data, mstIndices, degree
    ensures forall v :: 0 <= v < g.n ==> PrunedAt(es, pre0, isTerminal[..], mstIndices[..], v)
    ensures forall v :: 0 <= v < g.n && !isTerminal[v] ==> DegIn(es, mstIndices[..], v) != 1
  {
    ghost var D, Q, E := [], Q0, Q0;
    RoomForRoot(g.n, root, isTerminal[..], E);
    var empty := q.IsEmptyQueue();
    while !empty
      invariant q.Valid() && q.cap == g.n && q.data == old(q.data) && q.Contents() == Q
      invariant empty <==> Q == []
      invariant PruneInv(g.n, es, g.m, pre0, root, isTerminal[..], mstIndices[..], degree[..], D, Q, E)
      invariant |E| <= g.n
      decreases g.n - |E|, |Q|
    {
      D, Q, E := PruneStep(g, mstIndices, degree, isTerminal, q, es, pre0, root, D, Q, E);
      empty := q.IsEmptyQueue();
    }
    PruneEnd(g.n, es, g.m, pre0, root, isTerminal[..], mstIndices[..], degree[..], D, E);
  }

  /** Before the seeding loop: the tree's degree facts and a terminal root. */
  lemma SeedStart(n: int, es: seq<Edge>, m: int, root: int, T: seq<bool>, p: seq<int>, deg: seq<int>,
                  ord: seq<nat>)
    requires RootedTree(n, es, m, p, root, ord) && |T| == |deg| == n && T[root]
    requires forall v :: 0 <= v < n ==> Owned(es, m, p, v)
    requires forall v :: 0 <= v < n ==> deg[v] == DegIn(es, p, v)
    requires forall v :: 0 <= v < n && p[v] == NoEdge && v != root ==> DegIn(es, p, v) == 0
    ensures SeedLeavesInv(n, es, m, root, T, p, deg, [], 0)
  {
  }

  /** prim's tree from root and the degree of every vertex in it. */
  method TreeWithDegrees(g: Graph, root: int) returns (mstIndices: array<int>, degree: array<int>, ghost ord: seq<nat>)
    requires g.WellFormed() && 0 <= root < g.n
    ensures fresh(mstIndices) && fresh(degree) && mstIndices != degree && degree.Length == g.n
    ensures SpanningTree(g.n, g.vertices[..], g.edges[..], g.m, mstIndices[..], root, ord)
    ensures forall v :: 0 <= v < g.n ==> Owned(g.edges[..], g.m, mstIndices[..], v)
    ensures forall v :: 0 <= v < g.n ==> degree[v] == DegIn(g.edges[..], mstIndices[..], v)
    ensures forall v :: 0 <= v < g.n && mstIndices[v] == NoEdge && v != root ==>
      DegIn(g.edges[..], mstIndices[..], v) == 0
  {
    ghost var es := g.edges[..];
    mstIndices, ord := Prim(g, root);
    ghost var pre0 := mstIndices[..];
    TreeDegrees(g.n, es, g.m, pre0, root, ord);
    forall v | 0 <= v < g.n && mstIndices[v] != NoEdge
      ensures 0 <= mstIndices[v] < |es| && 0 <= es[mstIndices[v]].v < g.n && 0 <= es[mstIndices[v]].w < g.n
    {
      assert Owned(es, g.m, pre0, v);
    }
    degree := CountDegrees(g, mstIndices, es);
  }

  /** prunedMST up to its pruning loop: prim's tree from the first terminal,
      its degrees, the terminal flags, and the queue seeded with the leaves. */
  method PruneSetup(g: Graph, terms: seq<int>)
      returns (mstIndices: array<int>, degree: array<int>, isTerminal: array<bool>, q: Queue,
               ghost ord: seq<nat>, ghost Q: seq<int>)
    requires g.WellFormed() && |terms| > 0 && forall i :: 0 <= i < |terms| ==> 0 <= terms[i] < g.n
    ensures fresh(mstIndices) && fresh(degree) && fresh(isTerminal) && fresh(q) && fresh(q.data)
    ensures mstIndices != degree && q.data != mstIndices && q.data != degree
    ensures SpanningTree(g.n, g.vertices[..], g.edges[..], g.m, mstIndices[..], terms[0], ord)
    ensures isTerminal.Length == g.n && forall x :: 0 <= x < g.n ==> (isTerminal[x] <==> x in terms)
    ensures q.Valid() && q.cap == g.n && q.Contents() == Q
    ensures PruneInv(g.n, g.edges[..], g.m, mstIndices[..], terms[0], isTerminal[..], mstIndices[..],
                     degree[..], [], Q, Q)
  {
    ghost var es := g.edges[..];
    ghost var root := terms[0];
    mstIndices, degree, ord := TreeWithDegrees(g, terms[0]);
    ghost var pre0, deg := mstIndices[..], degree[..];
    isTerminal := MarkTerminals(terms, g.n);
    ghost var T := isTerminal[..];
    SeedStart(g.n, es, g.m, root, T, pre0, deg, ord);
    q := new Queue(g.n);
    Q := SeedLeaves(g, mstIndices, degree, isTerminal, q, es, root);
    assert mstIndices[..] == pre0 && degree[..] == deg && isTerminal[..] == T;
    SeedLeavesEnd(g.n, es, g.m, root, T, pre0, deg, Q);
  }

  /** prunedMST: prim's tree from the first terminal, with non-terminal
      leaves removed until none is left; the result is still a tree at the
      first terminal, keeps every terminal the MST reached, and only drops
      edges of non-terminals that end up isolated. */
  method PrunedMST(g: Graph, terms: seq<int>) returns (tree: array<int>, nTree: int, ghost pre0: seq<int>,
                                                      ghost pre: seq<int>, ghost ord: seq<nat>)
    requires g.WellFormed() && |terms| > 0 && forall i :: 0 <= i < |terms| ==> 0 <= terms[i] < g.n
    ensures SpanningTree(g.n, g.vertices[..], g.edges[..], g.m, pre0, terms[0], ord)
    ensures RootedTree(g.n, g.edges[..], g.m, pre, terms[0], ord)
    ensures forall v :: 0 <= v < g.n ==>
      pre[v] == pre0[v] || (pre[v] == NoEdge && v !in terms && DegIn(g.edges[..], pre, v) == 0)
    ensures forall v :: 0 <= v < g.n && v in terms && InTree(pre0, terms[0], v) ==> InTree(pre, terms[0], v)
    ensures forall v :: 0 <= v < g.n && v !in terms ==> DegIn(g.edges[..], pre, v) != 1
    ensures fresh(tree) && tree.Length == g.m && 0 <= nTree <= g.m
    ensures tree[..nTree] == Kept(pre) && Distinct(tree[..nTree])
  {
    ghost var es := g.edges[..];
    var mstIndices, degree, isTerminal, q;
    ghost var Q;
    mstIndices, degree, isTerminal, q, ord, Q := PruneSetup(g, terms);
    pre0 := mstIndices[..];
    PruneLeaves(g, mstIndices, degree, isTerminal, q, es, pre0, terms[0], Q);
    pre := mstIndices[..];
    ghost var T := isTerminal[..];
    PrunedIsTree(g.n, es, g.m, pre0, terms[0], ord, T, pre);
    forall v | 0 <= v < g.n
      ensures pre[v] == pre0[v] || (pre[v] == NoEdge && v !in terms && DegIn(es, pre, v) == 0)
      ensures v in terms && InTree(pre0, terms[0], v) ==> InTree(pre, terms[0], v)
      ensures v !in terms ==> DegIn(es, pre, v) != 1
    {
      assert T[v] <==> v in terms;
      assert PrunedAt(es, pre0, T, pre, v);
    }
    TreeKept(g.n, es, g.m, pre, terms[0], ord);
    tree := new int[g.m];
    assert mstIndices[..g.n] == pre;
    nTree := CollectEdgeIndices(mstIndices, g.n, tree);
  }

  // ---------------------------------------------------------------------
  // takahashiMatsuyama: the growing tree as values

  /** A walk followed by a walk from its end. */
  lemma {:induction false} WalkConcat(es: seq<Edge>, m: int, a: int, p: seq<int>, b: int, q: seq<int>, c: int)
    requires m <= |es| && Walk(es, m, a, p, b) && Walk(es, m, b, q, c)
    ensures Walk(es, m, a, p + q, c)
    decreases |p|
  {
    if p != [] {
      WalkConcat(es, m, GetPredecessor(a, es[p[0]]), p[1..], b, q, c);
      assert (p + q)[0] == p[0] && (p + q)[1..] == p[1..] + q;
    } else {
      assert p + q == q;
    }
  }

  /** treeVertices[0..nTreeVertices) lists the vertices flagged in
      isInTree, each once. */
  ghost predicate VertexSet(n: int, TV: seq<int>, inT: seq<bool>)
  {
    |inT| == n && Distinct(TV) && InRange(TV, n) && forall x :: 0 <= x < n ==> (inT[x] <==> x in TV)
  }

  /** treeEdgeIndices[0..nTreeEdges) lists the edges flagged in
      edgesVisited, each once. */
  ghost predicate EdgeSet(m: int, TE: seq<int>, vis: seq<bool>)
  {
    |vis| == m && Distinct(TE) && InRange(TE, m) && forall i :: 0 <= i < m ==> (vis[i] <==> i in TE)
  }

  /** Every edge of path is a tree edge. */
  ghost predicate Along(TE: seq<int>, path: seq<int>)
  {
    forall k :: 0 <= k < |path| ==> path[k] in TE
  }

  /** The tree under construction: its vertex and edge lists agree with
      their flags, and both ends of every tree edge are tree vertices. */
  ghost predicate TreeState(n: int, es: seq<Edge>, m: int, TV: seq<int>, inT: seq<bool>, TE: seq<int>, vis: seq<bool>)
  {
    && 0 <= m <= |es| && (forall i :: 0 <= i < m ==> 0 <= es[i].v < n && 0 <= es[i].w < n)
    && VertexSet(n, TV, inT) && EdgeSet(m, TE, vis)
    && (forall j :: 0 <= j < |TE| ==> inT[es[TE[j]].v] && inT[es[TE[j]].w])
  }

  /** Every tree vertex outside A is reached from root by cw[x], a walk
      over tree edges. */
  ghost predicate Linked(n: int, es: seq<Edge>, m: int, root: int, inT: seq<bool>, TE: seq<int>,
                         cw: seq<seq<int>>, A: set<int>)
    requires |inT| == n && m <= |es|
  {
    |cw| == n && forall x :: 0 <= x < n && inT[x] && x !in A ==> Walk(es, m, root, cw[x], x) && Along(TE, cw[x])
  }

  /** Adding a fresh edge slot below m to a duplicate-free list of them. */
  lemma EdgeSetAdd(m: int, TE: seq<int>, vis: seq<bool>, eI: int)
    requires EdgeSet(m, TE, vis) && 0 <= eI < m && !vis[eI]
    ensures |TE| < m && EdgeSet(m, TE + [eI], vis[eI := true])
  {
    var TE' := TE + [eI];
    forall i, j | 0 <= i < j < |TE'| ensures TE'[i] != TE'[j] {
    }
    DistinctInRangeBound(TE', m);
  }

  /** Adding a fresh edge with both its ends flagged keeps the tree state. */
  lemma TreeGrow(n: int, es: seq<Edge>, m: int, TV: seq<int>, inT: seq<bool>, TE: seq<int>, vis: seq<bool>,
                 TV': seq<int>, inT': seq<bool>, eI: int)
    requires TreeState(n, es, m, TV, inT, TE, vis) && 0 <= eI < m && !vis[eI]
    requires VertexSet(n, TV', inT') && inT' == inT[es[eI].v := true][es[eI].w := true]
    ensures |TE| < m && TreeState(n, es, m, TV', inT', TE + [eI], vis[eI := true])
  {
    EdgeSetAdd(m, TE, vis, eI);
    forall j | 0 <= j < |TE| + 1 ensures inT'[es[(TE + [eI])[j]].v] && inT'[es[(TE + [eI])[j]].w] {
      if j < |TE| {
        assert (TE + [eI])[j] == TE[j];
      }
    }
  }

  /** The walks from the next vertex u after crossing edge eI from vI: a
      vertex flagged by this step starts afresh, every other one goes
      through eI first. */
  ghost function NextPw(pw: seq<seq<int>>, inT: seq<bool>, vI: int, u: int, eI: int): (pw': seq<seq<int>>)
    requires |pw| == |inT| && 0 <= vI < |inT| && 0 <= u < |inT|
    ensures |pw'| == |pw|
  {
    seq(|pw|, x requires 0 <= x < |pw| =>
      if x == u && !inT[u] then [] else if x == vI && !inT[vI] then [eI] else [eI] + pw[x])
  }

  /** The vertices flagged during the walk, after a step from vI to u. */
  ghost function NextA(A: set<int>, inT: seq<bool>, vI: int, u: int): (A': set<int>)
    requires 0 <= vI < |inT| && 0 <= u < |inT|
    ensures A <= A'
  {
    A + (if !inT[vI] then {vI} else {}) + (if !inT[u] then {u} else {})
  }

  /** The splicing walk of takahashiMatsuyama, standing at vI. The tree
      state is consistent; the tree only grew since Dijkstra ran from the
      sources S; the vertices A flagged during this walk were not in the
      tree then and are reached from vI by tree walks pw; every other tree
      vertex is reached from the root by cw; and the nearest terminal t is
      in the tree unless the walk is still at t. */
  ghost predicate PathInv(n: int, es: seq<Edge>, m: int, D: seq<Dist>, S: seq<int>, inT0: seq<bool>, root: int,
                          t: int, TV: seq<int>, inT: seq<bool>, TE: seq<int>, vis: seq<bool>,
                          cw: seq<seq<int>>, pw: seq<seq<int>>, A: set<int>, vI: int)
  {
    && TreeState(n, es, m, TV, inT, TE, vis)
    && |D| == n && |inT0| == n && |pw| == n
    && (forall j :: 0 <= j < |S| ==> 0 <= S[j] < n && inT0[S[j]])
    && (forall x :: 0 <= x < n && inT0[x] ==> inT[x])
    && Linked(n, es, m, root, inT, TE, cw, A)
    && (forall x :: x in A ==> 0 <= x < n && !inT0[x] && inT[x] && Walk(es, m, vI, pw[x], x) && Along(TE, pw[x]))
    && 0 <= vI < n && D[vI].Fin? && 0 <= t < n && (inT[t] || vI == t)
  }

  /** vI's predecessor edge leads to u, which is reached and nearer the
      sources: smaller distance, or the same distance and an earlier stamp. */
  lemma StepFacts(n: int, es: seq<Edge>, m: int, D: seq<Dist>, P: seq<int>, st: seq<nat>, S: seq<int>,
                  vI: int, eI: int)
    requires ShortestPaths(n, es, m, D, P, S) && Descends(n, es, m, D, P, st)
    requires 0 <= vI < n && D[vI].Fin? && eI == P[vI] && eI != NoEdge
    ensures 0 <= eI < m && Incident(es[eI], vI)
    ensures var u := GetPredecessor(vI, es[eI]);
      && 0 <= u < n && u != vI && D[u].Fin? && GetPredecessor(u, es[eI]) == vI
      && (D[u].d < D[vI].d || (D[u].d == D[vI].d && st[u] < st[vI]))
  {
    assert PreEdge(n, es, m, D, P, S, vI) && StepDown(n, es, m, D, P, st, vI);
    GetPredecessorTwice(vI, es[eI]);
  }

  /** Flagging both ends of the edge between vI and u flags exactly those two. */
  lemma FlagEnds(n: int, inT: seq<bool>, inT': seq<bool>, a: int, b: int, vI: int, u: int)
    requires |inT| == n && 0 <= a < n && 0 <= b < n && inT' == inT[a := true][b := true]
    requires (vI == a && u == b) || (vI == b && u == a)
    ensures forall x :: 0 <= x < n ==> (inT'[x] <==> inT[x] || x == vI || x == u)
  {
  }

  /** One step of the splicing walk, from vI across its predecessor edge
      eI to u (a different vertex, whose way back across eI leads to vI):
      the walk invariant moves to u. */
  lemma PathAdvance(n: int, es: seq<Edge>, m: int, D: seq<Dist>, S: seq<int>,
                    inT0: seq<bool>, root: int, t: int, TV: seq<int>, inT: seq<bool>, TE: seq<int>, vis: seq<bool>,
                    cw: seq<seq<int>>, pw: seq<seq<int>>, A: set<int>, vI: int, eI: int, u: int,
                    TV': seq<int>, inT': seq<bool>, TE': seq<int>, vis': seq<bool>)
    requires PathInv(n, es, m, D, S, inT0, root, t, TV, inT, TE, vis, cw, pw, A, vI)
    requires 0 <= eI < m && 0 <= u < n && u != vI && D[u].Fin?
    requires Incident(es[eI], u) && GetPredecessor(u, es[eI]) == vI
    requires TreeState(n, es, m, TV', inT', TE', vis') && (TE' == TE || TE' == TE + [eI]) && eI in TE'
    requires forall x :: 0 <= x < n ==> (inT'[x] <==> inT[x] || x == vI || x == u)
    ensures PathInv(n, es, m, D, S, inT0, root, t, TV', inT', TE', vis', cw, NextPw(pw, inT, vI, u, eI),
                    NextA(A, inT, vI, u), u)
  {
    var pw', A' := NextPw(pw, inT, vI, u, eI), NextA(A, inT, vI, u);
    AdvanceWalks(n, es, m, inT0, inT, TE, pw, A, vI, eI, u, inT', TE');
    forall x | 0 <= x < n && inT'[x] && x !in A' ensures Walk(es, m, root, cw[x], x) && Along(TE', cw[x]) {
      assert inT[x];
    }
  }

  /** The walks from u after the step: a vertex flagged by the step is u
      itself or vI, one edge away; every earlier one is one edge further. */
  lemma AdvanceWalks(n: int, es: seq<Edge>, m: int, inT0: seq<bool>, inT: seq<bool>, TE: seq<int>,
                     pw: seq<seq<int>>, A: set<int>, vI: int, eI: int, u: int, inT': seq<bool>, TE': seq<int>)
    requires |inT0| == n && |inT| == n && |inT'| == n && |pw| == n && m <= |es| && 0 <= vI < n
    requires forall x :: 0 <= x < n && inT0[x] ==> inT[x]
    requires forall x :: x in A ==> 0 <= x < n && !inT0[x] && inT[x] && Walk(es, m, vI, pw[x], x) && Along(TE, pw[x])
    requires 0 <= eI < m && 0 <= u < n && u != vI
    requires Incident(es[eI], u) && GetPredecessor(u, es[eI]) == vI
    requires (forall k :: 0 <= k < |TE| ==> TE[k] in TE') && eI in TE'
    requires forall x :: 0 <= x < n ==> (inT'[x] <==> inT[x] || x == vI || x == u)
    ensures var pw', A' := NextPw(pw, inT, vI, u, eI), NextA(A, inT, vI, u);
      forall x :: x in A' ==> 0 <= x < n && !inT0[x] && inT'[x] && Walk(es, m, u, pw'[x], x) && Along(TE', pw'[x])
  {
    var pw', A' := NextPw(pw, inT, vI, u, eI), NextA(A, inT, vI, u);
    forall x | x in A'
      ensures 0 <= x < n && !inT0[x] && inT'[x] && Walk(es, m, u, pw'[x], x) && Along(TE', pw'[x])
    {
      if x == u && !inT[u] {
        assert pw'[x] == [];
      } else if x == vI && !inT[vI] {
        assert pw'[x] == [eI] && [eI][1..] == [];
      } else {
        assert x in A;
        assert pw'[x] == [eI] + pw[x] && ([eI] + pw[x])[1..] == pw[x];
      }
    }
  }

  /** The walks from the root once the splicing walk has reached a source
      vI: a vertex flagged during the walk is reached through vI. */
  ghost function Rejoin(cw: seq<seq<int>>, pw: seq<seq<int>>, A: set<int>, vI: int): (cw': seq<seq<int>>)
    requires |pw| == |cw| && 0 <= vI < |cw|
    ensures |cw'| == |cw|
  {
    seq(|cw|, x requires 0 <= x < |cw| => if x in A then cw[vI] + pw[x] else cw[x])
  }

  /** The splicing walk stops at a vertex without predecessor edge, which,
      being reached, is a source and so was in the tree: every tree vertex is
      now reached from the root, and the nearest terminal is in the tree. */
  lemma PathClose(n: int, es: seq<Edge>, m: int, D: seq<Dist>, P: seq<int>, S: seq<int>, inT0: seq<bool>,
                  root: int, t: int, TV: seq<int>, inT: seq<bool>, TE: seq<int>, vis: seq<bool>,
                  cw: seq<seq<int>>, pw: seq<seq<int>>, A: set<int>, vI: int)
    requires PathInv(n, es, m, D, S, inT0, root, t, TV, inT, TE, vis, cw, pw, A, vI)
    requires ShortestPaths(n, es, m, D, P, S) && P[vI] == NoEdge
    ensures inT[t]
    ensures Linked(n, es, m, root, inT, TE, Rejoin(cw, pw, A, vI), {})
  {
    assert PreEdge(n, es, m, D, P, S, vI);
    var j :| 0 <= j < |S| && S[j] == vI;
    assert inT0[vI] && vI !in A;
    var cw' := Rejoin(cw, pw, A, vI);
    forall x | 0 <= x < n && inT[x] ensures Walk(es, m, root, cw'[x], x) && Along(TE, cw'[x]) {
      if x in A {
        WalkConcat(es, m, root, cw[vI], vI, pw[x], x);
      }
    }
  }

  /** Swap-with-last removal of entry i from the first k entries: the
      remaining k - 1 entries are the others, as a multiset. */
  lemma SwapRemove(s: seq<int>, i: int)
    requires 0 <= i < |s|
    ensures multiset(s[i := s[|s| - 1]][..|s| - 1]) + multiset{s[i]} == multiset(s)
  {
    var l := |s| - 1;
    if i < l {
      assert s[i := s[l]][..l] == s[..i] + [s[l]] + s[i + 1..l];
      assert s == s[..i] + [s[i]] + s[i + 1..l] + [s[l]];
    } else {
      assert s == s[..l] + [s[l]];
    }
  }

  // ---------------------------------------------------------------------
  // takahashiMatsuyama

  /** The selection loop: the first of the k terminals outside the tree at
      the smallest finite distance, or -1 when all are at DBL_MAX. */
  method SelectNearest(notInclTerms: array<int>, k: int, dist: array<Dist>)
      returns (nearestTermI: int, nearestTerm: int)
    requires 0 <= k <= notInclTerms.Length
    requires forall j :: 0 <= j < k ==> 0 <= notInclTerms[j] < dist.Length
    ensures nearestTermI == -1 <==> forall j :: 0 <= j < k ==> dist[notInclTerms[j]] == Inf
    ensures nearestTermI == -1 ==> nearestTerm == -1
    ensures nearestTermI != -1 ==>
      && 0 <= nearestTermI < k && nearestTerm == notInclTerms[nearestTermI] && dist[nearestTerm].Fin?
      && (forall j :: 0 <= j < k ==> DLe(dist[nearestTerm], dist[notInclTerms[j]]))
      && (forall j :: 0 <= j < nearestTermI ==> Less(dist[nearestTerm], dist[notInclTerms[j]]))
  {
    var shortestDist := Inf;
    nearestTermI, nearestTerm := -1, -1;
    var i := 0;
    while i < k
      invariant 0 <= i <= k
      invariant nearestTermI == -1 ==>
        nearestTerm == -1 && shortestDist == Inf && forall j :: 0 <= j < i ==> dist[notInclTerms[j]] == Inf
      invariant nearestTermI != -1 ==>
        && 0 <= nearestTermI < i && nearestTerm == notInclTerms[nearestTermI]
        && shortestDist == dist[nearestTerm] && shortestDist.Fin?
        && forall j :: 0 <= j < nearestTermI ==> Less(shortestDist, dist[notInclTerms[j]])
      invariant forall j :: 0 <= j < i ==> DLe(shortestDist, dist[notInclTerms[j]])
    {
      var notIncTerm := notInclTerms[i];
      if Less(dist[notIncTerm], shortestDist) {
        shortestDist := dist[notIncTerm];
        nearestTerm := notIncTerm;
        nearestTermI := i;
      }
      i := i + 1;
    }
  }

  /** notInclTerms[i] = notInclTerms[k - 1]: entry i leaves the first k. */
  method RemoveAt(a: array<int>, k: int, i: int)
    requires 0 <= i < k <= a.Length
    modifies a
    ensures a[..k - 1] == old(a[..k])[i := old(a[k - 1])][..k - 1]
    ensures multiset(a[..k - 1]) + multiset{old(a[i])} == multiset(old(a[..k]))
  {
    ghost var s := a[..k];
    a[i] := a[k - 1];
    assert a[..k - 1] == s[i := s[k - 1]][..k - 1];
    SwapRemove(s, i);
  }

  /** Flag x as a tree vertex and list it, unless it is flagged already. */
  method AddVertex(x: int, isInTree: array<bool>, treeVertices: array<int>, nTV: int) returns (nTV': int)
    requires isInTree.Length == treeVertices.Length && 0 <= x < isInTree.Length
    requires 0 <= nTV <= treeVertices.Length && VertexSet(isInTree.Length, treeVertices[..nTV], isInTree[..])
    modifies isInTree, treeVertices
    ensures nTV <= nTV' <= treeVertices.Length && isInTree[..] == old(isInTree[..])[x := true]
    ensures treeVertices[..nTV'] == old(treeVertices[..nTV]) + (if old(isInTree[x]) then [] else [x])
    ensures VertexSet(isInTree.Length, treeVertices[..nTV'], isInTree[..])
  {
    nTV' := nTV;
    if !isInTree[x] {
      ghost var TV' := treeVertices[..nTV] + [x];
      forall i, j | 0 <= i < j < |TV'| ensures TV'[i] != TV'[j] {
      }
      DistinctInRangeBound(TV', isInTree.Length);
      isInTree[x] := true;
      treeVertices[nTV] := x;
      nTV' := nTV + 1;
      assert treeVertices[..nTV'] == TV';
    }
  }

  /** The arrays of takahashiMatsuyama: sizes as allocated, and no two of
      the same type shared. */
  ghost predicate TreeArrays(g: Graph, pd: PathsData, treeVertices: array<int>, isInTree: array<bool>,
                             treeEdgeIndices: array<int>, edgesVisited: array<bool>)
    reads g, pd
  {
    && treeVertices.Length == g.n && isInTree.Length == g.n
    && treeEdgeIndices.Length == g.m && edgesVisited.Length == g.m
    && pd.dist.Length == g.n && pd.preEdgeIndices.Length == g.n
    && treeVertices != treeEdgeIndices && treeVertices != pd.preEdgeIndices
    && treeEdgeIndices != pd.preEdgeIndices && isInTree != edgesVisited
  }

  /** An edge already in the tree has both ends in it. */
  lemma VisitedEnds(n: int, es: seq<Edge>, m: int, TV: seq<int>, inT: seq<bool>, TE: seq<int>, vis: seq<bool>,
                    eI: int)
    requires TreeState(n, es, m, TV, inT, TE, vis) && 0 <= eI < m && vis[eI]
    ensures inT[es[eI].v] && inT[es[eI].w] && inT[es[eI].v := true][es[eI].w := true] == inT
  {
    var j :| 0 <= j < |TE| && TE[j] == eI;
  }

  /** The body of the splicing loop for an edge not yet in the tree:
      flag it, list it, and add both its ends to the tree. */
  method TakeEdge(g: Graph, treeVertices: array<int>, isInTree: array<bool>, treeEdgeIndices: array<int>,
                  edgesVisited: array<bool>, eI: int, nTV: int, nTE: int)
      returns (nTV': int, nTE': int)
    requires treeVertices.Length == g.n == isInTree.Length && treeEdgeIndices.Length == g.m == edgesVisited.Length
    requires treeVertices != treeEdgeIndices && isInTree != edgesVisited
    requires 0 <= nTV <= g.n && 0 <= nTE <= g.m && 0 <= eI < g.m && !edgesVisited[eI]
    requires TreeState(g.n, g.edges[..], g.m, treeVertices[..nTV], isInTree[..], treeEdgeIndices[..nTE], edgesVisited[..])
    modifies treeVertices, isInTree, treeEdgeIndices, edgesVisited
    ensures 0 <= nTV' <= g.n && nTE' == nTE + 1 <= g.m
    ensures TreeState(g.n, g.edges[..], g.m, treeVertices[..nTV'], isInTree[..], treeEdgeIndices[..nTE'], edgesVisited[..])
    ensures treeEdgeIndices[..nTE'] == old(treeEdgeIndices[..nTE]) + [eI]
    ensures isInTree[..] == old(isInTree[..])[g.edges[eI].v := true][g.edges[eI].w := true]
  {
    ghost var es, TV, inT, TE, vis := g.edges[..], treeVertices[..nTV], isInTree[..], treeEdgeIndices[..nTE], edgesVisited[..];
    var e := g.edges[eI];
    edgesVisited[eI] := true;
    EdgeSetAdd(g.m, TE, vis, eI);
    treeEdgeIndices[nTE] := eI;
    nTE' := nTE + 1;
    assert treeEdgeIndices[..nTE'] == TE + [eI];
    nTV' := AddVertex(e.v, isInTree, treeVertices, nTV);
    nTV' := AddVertex(e.w, isInTree, treeVertices, nTV');
    TreeGrow(g.n, es, g.m, TV, inT, TE, vis, treeVertices[..nTV'], isInTree[..], eI);
  }

  /** One turn of the splicing loop: take vI's predecessor edge into the
      tree with its ends unless it is there already, and move across it. */
  method PathStep(g: Graph, pd: PathsData, treeVertices: array<int>, isInTree: array<bool>,
                  treeEdgeIndices: array<int>, edgesVisited: array<bool>, vI: int, nTV: int, nTE: int,
                  ghost st: seq<nat>, ghost S: seq<int>, ghost inT0: seq<bool>, ghost root: int, ghost t: int,
                  ghost cw: seq<seq<int>>, ghost pw: seq<seq<int>>, ghost A: set<int>)
      returns (u: int, nTV': int, nTE': int, ghost pw': seq<seq<int>>, ghost A': set<int>)
    requires TreeArrays(g, pd, treeVertices, isInTree, treeEdgeIndices, edgesVisited)
    requires 0 <= nTV <= g.n && 0 <= nTE <= g.m
    requires ShortestPaths(g.n, g.edges[..], g.m, pd.dist[..], pd.preEdgeIndices[..], S)
    requires Descends(g.n, g.edges[..], g.m, pd.dist[..], pd.preEdgeIndices[..], st)
    requires PathInv(g.n, g.edges[..], g.m, pd.dist[..], S, inT0, root, t, treeVertices[..nTV], isInTree[..],
                     treeEdgeIndices[..nTE], edgesVisited[..], cw, pw, A, vI)
    requires pd.preEdgeIndices[vI] != NoEdge
    modifies treeVertices, isInTree, treeEdgeIndices, edgesVisited
    ensures 0 <= nTV' <= g.n && 0 <= nTE' <= g.m
    ensures PathInv(g.n, g.edges[..], g.m, pd.dist[..], S, inT0, root, t, treeVertices[..nTV'], isInTree[..],
                    treeEdgeIndices[..nTE'], edgesVisited[..], cw, pw', A', u)
    ensures pd.dist[u].d < pd.dist[vI].d || (pd.dist[u].d == pd.dist[vI].d && st[u] < st[vI])
  {
    ghost var es, D := g.edges[..], pd.dist[..];
    ghost var TV, inT, TE, vis := treeVertices[..nTV], isInTree[..], treeEdgeIndices[..nTE], edgesVisited[..];
    var eI := pd.preEdgeIndices[vI];
    StepFacts(g.n, es, g.m, D, pd.preEdgeIndices[..], st, S, vI, eI);
    var e := g.edges[eI];
    u := GetPredecessor(vI, e);
    if edgesVisited[eI] {
      VisitedEnds(g.n, es, g.m, TV, inT, TE, vis, eI);
      nTV', nTE' := nTV, nTE;
    } else {
      nTV', nTE' := TakeEdge(g, treeVertices, isInTree, treeEdgeIndices, edgesVisited, eI, nTV, nTE);
    }
    assert pd.dist[..] == D && g.edges[..] == es;
    FlagEnds(g.n, inT, isInTree[..], e.v, e.w, vI, u);
    PathAdvance(g.n, es, g.m, D, S, inT0, root, t, TV, inT, TE, vis, cw, pw, A, vI, eI, u,
                treeVertices[..nTV'], isInTree[..], treeEdgeIndices[..nTE'], edgesVisited[..]);
    pw', A' := NextPw(pw, inT, vI, u, eI), NextA(A, inT, vI, u);
  }

  /** The splicing loop: walk from the nearest terminal t along predecessor
      edges until a source, taking each edge not yet in the tree and its
      ends. Afterwards t is in the tree, the tree only grew, and every tree
      vertex is reached from the root over tree edges. */
  method AddPath(g: Graph, pd: PathsData, treeVertices: array<int>, isInTree: array<bool>,
                 treeEdgeIndices: array<int>, edgesVisited: array<bool>, t: int, nTV: int, nTE: int,
                 ghost st: seq<nat>, ghost S: seq<int>, ghost root: int, ghost cw: seq<seq<int>>)
      returns (nTV': int, nTE': int, ghost cw': seq<seq<int>>)
    requires TreeArrays(g, pd, treeVertices, isInTree, treeEdgeIndices, edgesVisited)
    requires 0 <= nTV <= g.n && 0 <= nTE <= g.m
    requires ShortestPaths(g.n, g.edges[..], g.m, pd.dist[..], pd.preEdgeIndices[..], S)
    requires Descends(g.n, g.edges[..], g.m, pd.dist[..], pd.preEdgeIndices[..], st)
    requires TreeState(g.n, g.edges[..], g.m, treeVertices[..nTV], isInTree[..], treeEdgeIndices[..nTE], edgesVisited[..])
    requires forall j :: 0 <= j < |S| ==> 0 <= S[j] < g.n && isInTree[S[j]]
    requires Linked(g.n, g.edges[..], g.m, root, isInTree[..], treeEdgeIndices[..nTE], cw, {})
    requires 0 <= t < g.n && pd.dist[t].Fin?
    modifies treeVertices, isInTree, treeEdgeIndices, edgesVisited
    ensures 0 <= nTV' <= g.n && 0 <= nTE' <= g.m
    ensures TreeState(g.n, g.edges[..], g.m, treeVertices[..nTV'], isInTree[..], treeEdgeIndices[..nTE'], edgesVisited[..])
    ensures Linked(g.n, g.edges[..], g.m, root, isInTree[..], treeEdgeIndices[..nTE'], cw', {})
    ensures isInTree[t] && forall x :: 0 <= x < g.n && old(isInTree[x]) ==> isInTree[x]
  {
    ghost var inT0 := isInTree[..];
    var vI := t;
    var eI := pd.preEdgeIndices[vI];
    ghost var pw: seq<seq<int>> := seq(g.n, x => []);
    ghost var A: set<int> := {};
    nTV', nTE' := nTV, nTE;
    while eI != NoEdge
      invariant 0 <= nTV' <= g.n && 0 <= nTE' <= g.m
      invariant PathInv(g.n, g.edges[..], g.m, pd.dist[..], S, inT0, root, t, treeVertices[..nTV'], isInTree[..],
                        treeEdgeIndices[..nTE'], edgesVisited[..], cw, pw, A, vI)
      invariant eI == pd.preEdgeIndices[vI]
      decreases pd.dist[vI].d, st[vI]
    {
      vI, nTV', nTE', pw, A := PathStep(g, pd, treeVertices, isInTree, treeEdgeIndices, edgesVisited, vI, nTV', nTE',
                                        st, S, inT0, root, t, cw, pw, A);
      eI := pd.preEdgeIndices[vI];
    }
    PathClose(g.n, g.edges[..], g.m, pd.dist[..], pd.preEdgeIndices[..], S, inT0, root, t, treeVertices[..nTV'],
              isInTree[..], treeEdgeIndices[..nTE'], edgesVisited[..], cw, pw, A, vI);
    cw' := Rejoin(cw, pw, A, vI);
  }

  /** The state between rounds of takahashiMatsuyama: the tree, a walk over
      its edges from the root to each of its vertices, and every terminal
      either in the tree or among those still waiting (NI). */
  ghost predicate TMState(n: int, es: seq<Edge>, m: int, root: int, terms: seq<int>, TV: seq<int>, inT: seq<bool>,
                          TE: seq<int>, vis: seq<bool>, cw: seq<seq<int>>, NI: seq<int>)
  {
    && TreeState(n, es, m, TV, inT, TE, vis)
    && Linked(n, es, m, root, inT, TE, cw, {})
    && 0 <= root < n && inT[root] && InRange(NI, n) && InRange(terms, n)
    && forall i :: 0 <= i < |terms| ==> inT[terms[i]] || terms[i] in NI
  }

  /** A vertex at distance DBL_MAX from sources that include the root has
      no walk from the root. */
  lemma Unreached(n: int, es: seq<Edge>, m: int, D: seq<Dist>, P: seq<int>, S: seq<int>, root: int, x: int)
    requires ShortestPaths(n, es, m, D, P, S) && root in S && 0 <= x < n && D[x] == Inf
    ensures forall path :: !Walk(es, m, root, path, x)
  {
  }

  /** After swap-with-last removal of t, every waiting terminal other than
      t is still waiting, and nothing new is. */
  lemma StillWaiting(NI: seq<int>, NI': seq<int>, t: int)
    requires multiset(NI') + multiset{t} == multiset(NI)
    ensures forall x :: x in NI ==> x == t || x in NI'
    ensures forall x :: x in NI' ==> x in NI
  {
    forall x | x in NI ensures x == t || x in NI' {
      assert x in multiset(NI);
    }
    forall x | x in NI' ensures x in NI {
      assert x in multiset(NI);
    }
  }

  /** The round state carries over once t has been spliced in. */
  lemma RoundDone(n: int, es: seq<Edge>, m: int, root: int, terms: seq<int>, inT: seq<bool>, NI: seq<int>,
                  TV': seq<int>, inT': seq<bool>, TE': seq<int>, vis': seq<bool>, cw': seq<seq<int>>, NI': seq<int>, t: int)
    requires |inT| == n && 0 <= root < n && inT[root] && InRange(NI, n) && InRange(terms, n)
    requires forall i :: 0 <= i < |terms| ==> inT[terms[i]] || terms[i] in NI
    requires multiset(NI') + multiset{t} == multiset(NI)
    requires TreeState(n, es, m, TV', inT', TE', vis') && Linked(n, es, m, root, inT', TE', cw', {})
    requires |inT'| == n && 0 <= t < n && inT'[t] && forall x :: 0 <= x < n && inT[x] ==> inT'[x]
    ensures TMState(n, es, m, root, terms, TV', inT', TE', vis', cw', NI')
  {
    StillWaiting(NI, NI', t);
    forall k | 0 <= k < |NI'| ensures 0 <= NI'[k] < n {
      assert NI'[k] in NI';
    }
  }

  /** The path to t is spliced in, then the paths data is cleaned. */
  method Attach(g: Graph, pd: PathsData, treeVertices: array<int>, isInTree: array<bool>,
                treeEdgeIndices: array<int>, edgesVisited: array<bool>, t: int, nTV: int, nTE: int,
                ghost st: seq<nat>, ghost S: seq<int>, ghost root: int, ghost cw: seq<seq<int>>)
      returns (nTV': int, nTE': int, ghost cw': seq<seq<int>>)
    requires TreeArrays(g, pd, treeVertices, isInTree, treeEdgeIndices, edgesVisited)
    requires 0 <= nTV <= g.n && 0 <= nTE <= g.m
    requires ShortestPaths(g.n, g.edges[..], g.m, pd.dist[..], pd.preEdgeIndices[..], S)
    requires Descends(g.n, g.edges[..], g.m, pd.dist[..], pd.preEdgeIndices[..], st)
    requires TreeState(g.n, g.edges[..], g.m, treeVertices[..nTV], isInTree[..], treeEdgeIndices[..nTE], edgesVisited[..])
    requires forall j :: 0 <= j < |S| ==> 0 <= S[j] < g.n && isInTree[S[j]]
    requires Linked(g.n, g.edges[..], g.m, root, isInTree[..], treeEdgeIndices[..nTE], cw, {})
    requires 0 <= t < g.n && pd.dist[t].Fin?
    modifies pd.dist, pd.preEdgeIndices, treeVertices, isInTree, treeEdgeIndices, edgesVisited
    ensures 0 <= nTV' <= g.n && 0 <= nTE' <= g.m
    ensures IsClean(pd.dist[..], pd.preEdgeIndices[..])
    ensures TreeState(g.n, g.edges[..], g.m, treeVertices[..nTV'], isInTree[..], treeEdgeIndices[..nTE'], edgesVisited[..])
    ensures Linked(g.n, g.edges[..], g.m, root, isInTree[..], treeEdgeIndices[..nTE'], cw', {})
    ensures isInTree[t] && forall x :: 0 <= x < g.n && old(isInTree[x]) ==> isInTree[x]
  {
    nTV', nTE', cw' := AddPath(g, pd, treeVertices, isInTree, treeEdgeIndices, edgesVisited, t, nTV, nTE,
                               st, S, root, cw);
    ghost var TV', inT', TE', vis' := treeVertices[..nTV'], isInTree[..], treeEdgeIndices[..nTE'], edgesVisited[..];
    CleanPathsData(pd, g.n);
    assert treeVertices[..nTV'] == TV' && isInTree[..] == inT' && treeEdgeIndices[..nTE'] == TE';
    assert edgesVisited[..] == vis';
  }

  /** The second half of a round: the nearest waiting terminal t, entry i,
      leaves the waiting list, its path is spliced in, and the paths data
      is cleaned for the next round. */
  method Splice(g: Graph, pd: PathsData, treeVertices: array<int>, isInTree: array<bool>,
                treeEdgeIndices: array<int>, edgesVisited: array<bool>, notInclTerms: array<int>,
                nTV: int, nTE: int, k: int, i: int, t: int, ghost terms: seq<int>, ghost root: int,
                ghost cw: seq<seq<int>>, ghost st: seq<nat>)
      returns (nTV': int, nTE': int, ghost cw': seq<seq<int>>)
    requires TreeArrays(g, pd, treeVertices, isInTree, treeEdgeIndices, edgesVisited)
    requires 0 <= nTV <= g.n && 0 <= nTE <= g.m && 0 <= i < k <= notInclTerms.Length
    requires notInclTerms != treeVertices && notInclTerms != treeEdgeIndices && notInclTerms != pd.preEdgeIndices
    requires ShortestPaths(g.n, g.edges[..], g.m, pd.dist[..], pd.preEdgeIndices[..], treeVertices[..nTV])
    requires Descends(g.n, g.edges[..], g.m, pd.dist[..], pd.preEdgeIndices[..], st)
    requires TMState(g.n, g.edges[..], g.m, root, terms, treeVertices[..nTV], isInTree[..], treeEdgeIndices[..nTE],
                     edgesVisited[..], cw, notInclTerms[..k])
    requires t == notInclTerms[i] && pd.dist[t].Fin?
    modifies pd.dist, pd.preEdgeIndices, treeVertices, isInTree, treeEdgeIndices, edgesVisited, notInclTerms
    ensures 0 <= nTV' <= g.n && 0 <= nTE' <= g.m
    ensures IsClean(pd.dist[..], pd.preEdgeIndices[..])
    ensures TMState(g.n, g.edges[..], g.m, root, terms, treeVertices[..nTV'], isInTree[..],
                    treeEdgeIndices[..nTE'], edgesVisited[..], cw', notInclTerms[..k - 1])
  {
    ghost var es := g.edges[..];
    ghost var S, inT, TE, vis, NI := treeVertices[..nTV], isInTree[..], treeEdgeIndices[..nTE], edgesVisited[..],
                                     notInclTerms[..k];
    ghost var D, P := pd.dist[..], pd.preEdgeIndices[..];
    RemoveAt(notInclTerms, k, i);
    ghost var NI' := notInclTerms[..k - 1];
    assert treeVertices[..nTV] == S && isInTree[..] == inT && treeEdgeIndices[..nTE] == TE;
    assert edgesVisited[..] == vis && pd.dist[..] == D && pd.preEdgeIndices[..] == P;
    forall j | 0 <= j < |S| ensures 0 <= S[j] < g.n && isInTree[S[j]] {
      assert S[j] in S;
    }
    nTV', nTE', cw' := Attach(g, pd, treeVertices, isInTree, treeEdgeIndices, edgesVisited, t, nTV, nTE,
                              st, S, root, cw);
    assert notInclTerms[..k - 1] == NI';
    RoundDone(g.n, es, g.m, root, terms, inT, NI, treeVertices[..nTV'], isInTree[..], treeEdgeIndices[..nTE'],
              edgesVisited[..], cw', NI', t);
  }

  /** One round of takahashiMatsuyama: shortest paths from the whole tree,
      then either no waiting terminal is reachable (found is false and the
      state is unchanged), or the nearest one is spliced in. */
  method TMRound(g: Graph, pd: PathsData, treeVertices: array<int>, isInTree: array<bool>,
                 treeEdgeIndices: array<int>, edgesVisited: array<bool>, notInclTerms: array<int>,
                 nTV: int, nTE: int, k: int, ghost terms: seq<int>, ghost root: int, ghost cw: seq<seq<int>>)
      returns (found: bool, nTV': int, nTE': int, ghost cw': seq<seq<int>>)
    requires g.Built() && TreeArrays(g, pd, treeVertices, isInTree, treeEdgeIndices, edgesVisited)
    requires 0 <= nTV <= g.n && 0 <= nTE <= g.m && 0 < k <= notInclTerms.Length
    requires notInclTerms != treeVertices && notInclTerms != treeEdgeIndices && notInclTerms != pd.preEdgeIndices
    requires IsClean(pd.dist[..], pd.preEdgeIndices[..])
    requires TMState(g.n, g.edges[..], g.m, root, terms, treeVertices[..nTV], isInTree[..], treeEdgeIndices[..nTE],
                     edgesVisited[..], cw, notInclTerms[..k])
    modifies pd.dist, pd.preEdgeIndices, treeVertices, isInTree, treeEdgeIndices, edgesVisited, notInclTerms
    ensures 0 <= nTV' <= g.n && 0 <= nTE' <= g.m
    ensures found ==> IsClean(pd.dist[..], pd.preEdgeIndices[..])
    ensures found ==> TMState(g.n, g.edges[..], g.m, root, terms, treeVertices[..nTV'], isInTree[..],
                              treeEdgeIndices[..nTE'], edgesVisited[..], cw', notInclTerms[..k - 1])
    ensures !found ==> TMState(g.n, g.edges[..], g.m, root, terms, treeVertices[..nTV'], isInTree[..],
                               treeEdgeIndices[..nTE'], edgesVisited[..], cw', notInclTerms[..k])
    ensures !found ==> forall j, path :: 0 <= j < k ==> !Walk(g.edges[..], g.m, root, path, notInclTerms[j])
  {
    ghost var es := g.edges[..];
    ghost var S, NI := treeVertices[..nTV], notInclTerms[..k];
    forall j | 0 <= j < nTV ensures 0 <= treeVertices[j] < g.n {
      assert S[j] == treeVertices[j];
    }
    ghost var st := MultiDijkstra(treeVertices, nTV, pd, g);
    forall j | 0 <= j < k ensures 0 <= notInclTerms[j] < pd.dist.Length {
      assert NI[j] == notInclTerms[j];
    }
    var nearestTermI, nearestTerm := SelectNearest(notInclTerms, k, pd.dist);
    if nearestTermI == -1 {
      found, nTV', nTE', cw' := false, nTV, nTE, cw;
      assert root in S;
      forall j | 0 <= j < k ensures forall path :: !Walk(es, g.m, root, path, notInclTerms[j]) {
        Unreached(g.n, es, g.m, pd.dist[..], pd.preEdgeIndices[..], S, root, notInclTerms[j]);
      }
      return;
    }
    found := true;
    nTV', nTE', cw' := Splice(g, pd, treeVertices, isInTree, treeEdgeIndices, edgesVisited, notInclTerms,
                              nTV, nTE, k, nearestTermI, nearestTerm, terms, root, cw, st);
  }

  /** The waiting list: every terminal but the first, in order. */
  method WaitingTerminals(terms: seq<int>) returns (notInclTerms: array<int>)
    requires |terms| > 0
    ensures fresh(notInclTerms) && notInclTerms[..] == terms[1..]
  {
    notInclTerms := new int[|terms| - 1](_ => 0);
    for i := 1 to |terms|
      invariant notInclTerms[..i - 1] == terms[1..i]
    {
      notInclTerms[i - 1] := terms[i];
    }
  }

  /** The allocations of takahashiMatsuyama before its main loop: the first
      terminal alone in the tree, no edges, the other terminals waiting. */
  method TMInit(g: Graph, terms: seq<int>)
      returns (treeVertices: array<int>, isInTree: array<bool>, treeEdgeIndices: array<int>,
               edgesVisited: array<bool>, notInclTerms: array<int>, pathsData: PathsData, ghost cw: seq<seq<int>>)
    requires g.Built() && |terms| > 0 && forall i :: 0 <= i < |terms| ==> 0 <= terms[i] < g.n
    ensures fresh(treeVertices) && fresh(isInTree) && fresh(treeEdgeIndices) && fresh(edgesVisited)
    ensures fresh(notInclTerms) && fresh(pathsData) && fresh(pathsData.dist) && fresh(pathsData.preEdgeIndices)
    ensures TreeArrays(g, pathsData, treeVertices, isInTree, treeEdgeIndices, edgesVisited)
    ensures notInclTerms.Length == |terms| - 1
    ensures notInclTerms != treeVertices && notInclTerms != treeEdgeIndices && notInclTerms != pathsData.preEdgeIndices
    ensures IsClean(pathsData.dist[..], pathsData.preEdgeIndices[..])
    ensures TMState(g.n, g.edges[..], g.m, terms[0], terms, treeVertices[..1], isInTree[..], treeEdgeIndices[..0],
                    edgesVisited[..], cw, notInclTerms[..])
  {
    notInclTerms := WaitingTerminals(terms);
    treeVertices := new int[g.n](_ => 0);
    treeVertices[0] := terms[0];
    isInTree := new bool[g.n](_ => false);
    isInTree[terms[0]] := true;
    treeEdgeIndices := new int[g.m](_ => 0);
    pathsData := new PathsData(g.n);
    edgesVisited := new bool[g.m](_ => false);
    cw := seq(g.n, x => []);
    assert treeVertices[..1] == [terms[0]] && treeEdgeIndices[..0] == [];
    TMStart(g.n, g.edges[..], g.m, terms, treeVertices[..1], isInTree[..], edgesVisited[..], cw, notInclTerms[..]);
  }

  /** The main loop of takahashiMatsuyama: run rounds until no terminal is
      waiting or none of the waiting ones can be reached. */
  method TMLoop(g: Graph, pd: PathsData, treeVertices: array<int>, isInTree: array<bool>,
                treeEdgeIndices: array<int>, edgesVisited: array<bool>, notInclTerms: array<int>,
                ghost terms: seq<int>, ghost cw0: seq<seq<int>>)
      returns (nTV: int, nTE: int, k: int, ghost cw: seq<seq<int>>)
    requires g.Built() && TreeArrays(g, pd, treeVertices, isInTree, treeEdgeIndices, edgesVisited)
    requires |terms| > 0 && 1 <= g.n
    requires notInclTerms != treeVertices && notInclTerms != treeEdgeIndices && notInclTerms != pd.preEdgeIndices
    requires IsClean(pd.dist[..], pd.preEdgeIndices[..])
    requires TMState(g.n, g.edges[..], g.m, terms[0], terms, treeVertices[..1], isInTree[..], treeEdgeIndices[..0],
                     edgesVisited[..], cw0, notInclTerms[..])
    modifies pd.dist, pd.preEdgeIndices, treeVertices, isInTree, treeEdgeIndices, edgesVisited, notInclTerms
    ensures 0 <= nTV <= g.n && 0 <= nTE <= g.m && 0 <= k <= notInclTerms.Length
    ensures TMState(g.n, g.edges[..], g.m, terms[0], terms, treeVertices[..nTV], isInTree[..],
                    treeEdgeIndices[..nTE], edgesVisited[..], cw, notInclTerms[..k])
    ensures forall j, path :: 0 <= j < k ==> !Walk(g.edges[..], g.m, terms[0], path, notInclTerms[j])
  {
    nTV, nTE, k, cw := 1, 0, notInclTerms.Length, cw0;
    assert notInclTerms[..k] == notInclTerms[..];
    while k > 0
      invariant 0 <= nTV <= g.n && 0 <= nTE <= g.m && 0 <= k <= notInclTerms.Length
      invariant IsClean(pd.dist[..], pd.preEdgeIndices[..])
      invariant TMState(g.n, g.edges[..], g.m, terms[0], terms, treeVertices[..nTV], isInTree[..],
                        treeEdgeIndices[..nTE], edgesVisited[..], cw, notInclTerms[..k])
      decreases k
    {
      var found;
      found, nTV, nTE, cw := TMRound(g, pd, treeVertices, isInTree, treeEdgeIndices, edgesVisited, notInclTerms,
                                     nTV, nTE, k, terms, terms[0], cw);
      if !found {
        return;
      }
      k := k - 1;
    }
  }

  /** takahashiMatsuyama: grow a tree from the first terminal by repeatedly
      splicing in a shortest path to the nearest terminal not yet in it.
      The result lists each edge once; both ends of every edge are tree
      vertices, each reached from the first terminal over result edges; and
      every terminal is in the tree unless no walk reaches it at all. */
  method TakahashiMatsuyama(g: Graph, terms: seq<int>)
      returns (treeEdgeIndices: array<int>, nTreeEdges: int, ghost inT: seq<bool>, ghost cw: seq<seq<int>>)
    requires g.Built() && |terms| > 0 && forall i :: 0 <= i < |terms| ==> 0 <= terms[i] < g.n
    ensures fresh(treeEdgeIndices) && treeEdgeIndices.Length == g.m && 0 <= nTreeEdges <= g.m
    ensures Distinct(treeEdgeIndices[..nTreeEdges]) && InRange(treeEdgeIndices[..nTreeEdges], g.m)
    ensures |inT| == g.n && inT[terms[0]] && |cw| == g.n
    ensures forall j :: 0 <= j < nTreeEdges ==>
      inT[g.edges[treeEdgeIndices[j]].v] && inT[g.edges[treeEdgeIndices[j]].w]
    ensures forall x :: 0 <= x < g.n && inT[x] ==>
      Walk(g.edges[..], g.m, terms[0], cw[x], x) && Along(treeEdgeIndices[..nTreeEdges], cw[x])
    ensures forall i :: 0 <= i < |terms| ==>
      inT[terms[i]] || forall path :: !Walk(g.edges[..], g.m, terms[0], path, terms[i])
  {
    var treeVertices, isInTree, edgesVisited, notInclTerms, pathsData;
    treeVertices, isInTree, treeEdgeIndices, edgesVisited, notInclTerms, pathsData, cw := TMInit(g, terms);
    var nTreeVertices, nNotInclTerms;
    nTreeVertices, nTreeEdges, nNotInclTerms, cw :=
      TMLoop(g, pathsData, treeVertices, isInTree, treeEdgeIndices, edgesVisited, notInclTerms, terms, cw);
    inT := isInTree[..];
    ghost var NI := notInclTerms[..nNotInclTerms];
    TMFinish(g.n, g.edges[..], g.m, terms, treeVertices[..nTreeVertices], inT, treeEdgeIndices[..nTreeEdges],
             edgesVisited[..], cw, NI);
    forall j | 0 <= j < nTreeEdges
      ensures inT[g.edges[treeEdgeIndices[j]].v] && inT[g.edges[treeEdgeIndices[j]].w]
    {
      assert treeEdgeIndices[..nTreeEdges][j] == treeEdgeIndices[j];
    }
  }

  /** What the final state of takahashiMatsuyama promises, once no waiting
      terminal is reachable. */
  lemma TMFinish(n: int, es: seq<Edge>, m: int, terms: seq<int>, TV: seq<int>, inT: seq<bool>, TE: seq<int>,
                 vis: seq<bool>, cw: seq<seq<int>>, NI: seq<int>)
    requires |terms| > 0 && TMState(n, es, m, terms[0], terms, TV, inT, TE, vis, cw, NI)
    requires forall j, path :: 0 <= j < |NI| ==> !Walk(es, m, terms[0], path, NI[j])
    ensures Distinct(TE) && InRange(TE, m) && |inT| == n && inT[terms[0]] && |cw| == n
    ensures forall j :: 0 <= j < |TE| ==> inT[es[TE[j]].v] && inT[es[TE[j]].w]
    ensures forall x :: 0 <= x < n && inT[x] ==> Walk(es, m, terms[0], cw[x], x) && Along(TE, cw[x])
    ensures forall i :: 0 <= i < |terms| ==> inT[terms[i]] || forall path :: !Walk(es, m, terms[0], path, terms[i])
  {
    forall i | 0 <= i < |terms| && !inT[terms[i]] ensures forall path :: !Walk(es, m, terms[0], path, terms[i]) {
      var j :| 0 <= j < |NI| && NI[j] == terms[i];
    }
  }

  /** The state before the first round: the first terminal alone, no
      edges, every other terminal waiting. */
  lemma TMStart(n: int, es: seq<Edge>, m: int, terms: seq<int>, TV: seq<int>, inT: seq<bool>, vis: seq<bool>,
                cw: seq<seq<int>>, NI: seq<int>)
    requires 0 <= m <= |es| && (forall i :: 0 <= i < m ==> 0 <= es[i].v < n && 0 <= es[i].w < n)
    requires |terms| > 0 && (forall i :: 0 <= i < |terms| ==> 0 <= terms[i] < n)
    requires TV == [terms[0]] && |inT| == n && (forall x :: 0 <= x < n ==> (inT[x] <==> x == terms[0]))
    requires |vis| == m && (forall i :: 0 <= i < m ==> !vis[i])
    requires |cw| == n && (forall x :: 0 <= x < n ==> cw[x] == []) && NI == terms[1..]
    ensures TMState(n, es, m, terms[0], terms, TV, inT, [], vis, cw, NI)
  {
    forall i | 0 <= i < |terms| ensures inT[terms[i]] || terms[i] in NI {
      if i > 0 {
        assert NI[i - 1] == terms[i];
      }
    }
    assert Walk(es, m, terms[0], [], terms[0]);
  }
}
