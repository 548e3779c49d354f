// The second half of the metric-closure 2-approximation
// (src/algorithms/two-apx/two-apx.c): the closure's spanning tree, the
// pruning Prim run on the subgraph induced by the collected paths, and the
// serial entry point twoAPX.

module TwoApxTrees {
  import opened Types
  import opened Graphs
  import opened Utils
  import opened Buffers
  import opened Dijkstras
  import opened Prims
  import opened InducedSubGraphs
  import opened Heuristics
  import opened TwoApx

  // ---------------------------------------------------------------------
  // createClosureMST: Prim on the metric closure

  /** The zeroed slots after the closure edges name vertex 0, so with at
      least one terminal every slot below m has its ends in range. */
  lemma ClosureWellFormed(closure: Graph, nE: int)
    requires closure.Valid() && closure.WellFormedUpTo(nE) && nE <= closure.m == closure.edges.Length
    requires 1 <= closure.n && forall k :: nE <= k < closure.edges.Length ==> closure.edges[k] == Edge(0, 0, 0)
    ensures closure.WellFormed()
  {
  }

  /** createClosureMST: the metric closure and the predecessor edges of its
      spanning tree rooted at terminal position 0. */
  method CreateClosureMST(g: Graph, terminals: seq<int>, nThreads: nat, schedule: seq<int>)
      returns (closure: Graph, closureMSTindices: array<int>, ghost nE: int, ghost ord: seq<nat>)
    requires g.Built() && InRange(terminals, g.n) && 1 <= |terminals| && 1 <= nThreads
    requires |terminals| - 1 <= |schedule| && forall i :: 0 <= i < |schedule| ==> 0 <= schedule[i] < nThreads
    ensures fresh(closure) && fresh(closure.vertices) && fresh(closure.edges) && fresh(closureMSTindices)
    ensures closure.n == |terminals| && closure.m == closure.edges.Length
    ensures closure.Valid() && closure.SymmetricUpTo(nE)
    ensures MetricClosure(g.edges[..], g.m, terminals, closure.edges[..], nE)
    ensures SpanningTree(closure.n, closure.vertices[..], closure.edges[..], closure.m, closureMSTindices[..], 0, ord)
  {
    closure, nE := CreateMetricClosure(g, terminals, nThreads, schedule);
    ClosureWellFormed(closure, nE);
    closureMSTindices, ord := Prim(closure, 0);
  }

  /** The closure tree reaches every terminal position: each one connected
      to terminals[0] has a closure edge to position 0. */
  lemma ClosureTreeReaches(es: seq<Edge>, m: int, terms: seq<int>, vs: seq<Vertex>, CE: seq<Edge>, nE: int,
                           pre: seq<int>, ord: seq<nat>)
    requires m <= |es| && MetricClosure(es, m, terms, CE, nE) && SymUpTo(|terms|, vs, CE, nE)
    requires SpanningTree(|terms|, vs, CE, |CE|, pre, 0, ord)
    requires forall c :: 0 <= c < |terms| ==> Reachable(es, m, terms[0], terms[c])
    ensures forall c :: 0 <= c < |terms| ==> InTree(pre, 0, c)
  {
    forall c | 1 <= c < |terms| ensures InTree(pre, 0, c) {
      assert Reachable(es, m, terms[0], terms[c]);
      var k :| 0 <= k < nE && CE[k].v == 0 && CE[k].w == c;
      RootNeighbour(|terms|, vs, CE, nE, pre, ord, k);
    }
  }

  /** A closure edge at position 0 leads into the tree. */
  lemma RootNeighbour(n: int, vs: seq<Vertex>, CE: seq<Edge>, nE: int, pre: seq<int>, ord: seq<nat>, k: int)
    requires SpanningTree(n, vs, CE, |CE|, pre, 0, ord) && SymUpTo(n, vs, CE, nE)
    requires 0 <= k < nE && CE[k].v == 0
    ensures 0 <= CE[k].w < n && InTree(pre, 0, CE[k].w)
  {
    assert k in vs[0].edges;
    var j :| 0 <= j < |vs[0].edges| && vs[0].edges[j] == k;
    assert ClosedAt(n, vs, CE, |CE|, pre, 0, 0);
    assert InTree(pre, 0, GetPredecessor(0, CE[vs[0].edges[j]]));
  }

  /** A closure edge joins terminals that are connected in g. */
  lemma ClosureEdgeReachable(es: seq<Edge>, m: int, terms: seq<int>, e: Edge)
    requires m <= |es| && ClosureEdgeOK(es, m, terms, e)
    ensures Reachable(es, m, terms[e.v], terms[e.w])
  {
  }

  /** Each closure-tree edge is a real closure edge: the padding slots
      touch only position 0, and no other position hangs from one. */
  lemma ClosureTreeEdges(es: seq<Edge>, m: int, terms: seq<int>, CE: seq<Edge>, nE: int, pre: seq<int>,
                         ord: seq<nat>)
    requires m <= |es| && MetricClosure(es, m, terms, CE, nE) && RootedTree(|terms|, CE, |CE|, pre, 0, ord)
    requires forall c :: 0 <= c < |terms| ==> InTree(pre, 0, c)
    ensures ClosureTreeOK(es, m, terms, CE, pre)
  {
    forall c | 1 <= c < |pre| ensures ClosureEdgeAt(es, m, terms, CE, pre[c]) {
      assert TreeEdgeOK(|terms|, CE, |CE|, pre, 0, ord, c);
      assert InTree(pre, 0, c) && pre[c] != NoEdge;
      var k := pre[c];
      assert Incident(CE[k], c) && CE[k] != Edge(0, 0, 0);
      assert k < nE;
      ClosureEdgeReachable(es, m, terms, CE[k]);
    }
  }

  /** Every terminal is joined to terminals[0] by collected edges once every
      closure-tree edge is: follow the tree up to the root. */
  lemma {:induction false} TerminalJoined(es: seq<Edge>, m: int, terms: seq<int>, CE: seq<Edge>, pre: seq<int>,
                                          ord: seq<nat>, C: seq<int>, c: int)
    requires m <= |es| && RootedTree(|terms|, CE, |CE|, pre, 0, ord)
    requires ClosureTreeOK(es, m, terms, CE, pre) && JoinedUpTo(es, m, terms, CE, pre, C, |pre|)
    requires forall x :: 0 <= x < |terms| ==> InTree(pre, 0, x)
    requires 0 <= c < |terms|
    ensures Conn(es, m, C, terms[0], terms[c])
    decreases ord[c]
  {
    if c == 0 {
      assert Walk(es, m, terms[0], [], terms[0]) && Along(C, []);
    } else {
      assert TreeEdgeOK(|terms|, CE, |CE|, pre, 0, ord, c);
      var e := CE[pre[c]];
      var u := GetPredecessor(c, e);
      TerminalJoined(es, m, terms, CE, pre, ord, C, u);
      assert Conn(es, m, C, terms[e.v], terms[e.w]);
      if e.v == c {
        ConnSym(es, m, C, terms[e.v], terms[e.w]);
      }
      ConnTrans(es, m, C, terms[0], terms[u], terms[c]);
    }
  }

  /** Once every closure-tree edge is joined, every tree vertex is joined
      to terminals[0]: it is joined to some terminal, and that one is. */
  lemma AllJoined(n: int, es: seq<Edge>, m: int, terms: seq<int>, inT: seq<bool>, C: seq<int>, CE: seq<Edge>,
                  pre: seq<int>, ord: seq<nat>)
    requires m <= |es| && |inT| == n && Rooted(n, es, m, terms, inT, C)
    requires RootedTree(|terms|, CE, |CE|, pre, 0, ord) && ClosureTreeOK(es, m, terms, CE, pre)
    requires JoinedUpTo(es, m, terms, CE, pre, C, |pre|) && forall x :: 0 <= x < |terms| ==> InTree(pre, 0, x)
    ensures forall x :: 0 <= x < n && inT[x] ==> Conn(es, m, C, terms[0], x)
  {
    forall x | 0 <= x < n && inT[x] ensures Conn(es, m, C, terms[0], x) {
      var j :| 0 <= j < |terms| && Conn(es, m, C, terms[j], x);
      TerminalJoined(es, m, terms, CE, pre, ord, C, j);
      ConnTrans(es, m, C, terms[0], terms[j], x);
    }
  }

  /** A vertex joined by collected edges to a different one lies on a
      collected edge, so it is a tree vertex. */
  lemma ConnEndInTree(n: int, es: seq<Edge>, m: int, TV: seq<int>, inT: seq<bool>, C: seq<int>, vis: seq<bool>,
                      a: int, b: int)
    requires TreeState(n, es, m, TV, inT, C, vis) && Conn(es, m, C, a, b) && a != b
    ensures 0 <= a < n && inT[a]
  {
    var p :| Walk(es, m, a, p, b) && Along(C, p);
    assert p[0] in C;
    var j :| 0 <= j < |C| && C[j] == p[0];
  }

  // ---------------------------------------------------------------------
  // Walks between g and the induced subgraph

  /** The position of x in a list that holds it. */
  function IndexOf(sel: seq<int>, x: int): (i: int)
    requires x in sel
    ensures 0 <= i < |sel| && sel[i] == x
  {
    if sel[0] == x then 0 else 1 + IndexOf(sel[1..], x)
  }

  /** Sub-edge slots renamed to the original edge slots they copy. */
  function MapThrough(origEdgeI: seq<int>, path: seq<int>): (r: seq<int>)
    ensures |r| == |path|
    ensures forall k :: 0 <= k < |path| && 0 <= path[k] < |origEdgeI| ==> r[k] == origEdgeI[path[k]]
  {
    if path == [] then []
    else [if 0 <= path[0] < |origEdgeI| then origEdgeI[path[0]] else NoEdge] + MapThrough(origEdgeI, path[1..])
  }

  /** Each of the first subM sub-edges is the original edge it names,
      renamed through sel. */
  ghost predicate Copies(es: seq<Edge>, m: int, subEs: seq<Edge>, subM: int, origEdgeI: seq<int>, sel: seq<int>)
  {
    0 <= subM <= |subEs| && subM <= |origEdgeI| && m <= |es| &&
    forall k :: 0 <= k < subM ==> 0 <= origEdgeI[k] < m && Maps(subEs[k], es[origEdgeI[k]], sel)
  }

  /** A walk in the subgraph is, renamed, a walk in g. */
  lemma {:induction false} WalkUp(es: seq<Edge>, m: int, subEs: seq<Edge>, subM: int, origEdgeI: seq<int>,
                                  sel: seq<int>, a: int, path: seq<int>, b: int)
    requires Copies(es, m, subEs, subM, origEdgeI, sel) && Walk(subEs, subM, a, path, b) && 0 <= a < |sel|
    ensures 0 <= b < |sel| && Walk(es, m, sel[a], MapThrough(origEdgeI, path), sel[b])
    decreases |path|
  {
    if path != [] {
      var k := path[0];
      var se, e := subEs[k], es[origEdgeI[k]];
      assert Maps(se, e, sel);
      var next := GetPredecessor(a, se);
      assert GetPredecessor(sel[a], e) == sel[next];
      WalkUp(es, m, subEs, subM, origEdgeI, sel, next, path[1..], b);
      assert MapThrough(origEdgeI, path)[1..] == MapThrough(origEdgeI, path[1..]);
    }
  }

  /** The subgraph holds every collected edge that is not a self-loop. */
  ghost predicate HoldsCollected(es: seq<Edge>, m: int, C: seq<int>, subEs: seq<Edge>, subM: int,
                                 origEdgeI: seq<int>, sel: seq<int>)
  {
    && Copies(es, m, subEs, subM, origEdgeI, sel) && Distinct(sel)
    && (forall gi :: gi in C ==> 0 <= gi < m && es[gi].v in sel && es[gi].w in sel)
    && (forall gi :: gi in C && es[gi].v != es[gi].w ==> gi in origEdgeI[..subM])
  }

  /** A walk of collected edges in g is a walk in the subgraph. */
  lemma {:induction false} WalkDown(es: seq<Edge>, m: int, C: seq<int>, subEs: seq<Edge>, subM: int,
                                    origEdgeI: seq<int>, sel: seq<int>, a: int, path: seq<int>, b: int)
    requires HoldsCollected(es, m, C, subEs, subM, origEdgeI, sel)
    requires Walk(es, m, a, path, b) && Along(C, path) && a in sel
    ensures b in sel && Reachable(subEs, subM, IndexOf(sel, a), IndexOf(sel, b))
    decreases |path|
  {
    if path == [] {
      assert Walk(subEs, subM, IndexOf(sel, a), [], IndexOf(sel, b));
    } else {
      var gi := path[0];
      assert gi in C;
      var next := GetPredecessor(a, es[gi]);
      assert next in sel;
      WalkDown(es, m, C, subEs, subM, origEdgeI, sel, next, path[1..], b);
      if es[gi].v != es[gi].w {
        assert gi in origEdgeI[..subM];
        var k :| 0 <= k < subM && origEdgeI[k] == gi;
        SubStep(es, m, subEs, subM, origEdgeI, sel, k, a, IndexOf(sel, b));
      }
    }
  }

  /** One copied edge in front of a sub-walk. */
  lemma SubStep(es: seq<Edge>, m: int, subEs: seq<Edge>, subM: int, origEdgeI: seq<int>, sel: seq<int>, k: int,
                a: int, b: int)
    requires Copies(es, m, subEs, subM, origEdgeI, sel) && Distinct(sel) && 0 <= k < subM
    requires a in sel && Incident(es[origEdgeI[k]], a) && GetPredecessor(a, es[origEdgeI[k]]) in sel
    requires Reachable(subEs, subM, IndexOf(sel, GetPredecessor(a, es[origEdgeI[k]])), b)
    ensures Reachable(subEs, subM, IndexOf(sel, a), b)
  {
    var e, se := es[origEdgeI[k]], subEs[k];
    assert Maps(se, e, sel);
    var i, j := IndexOf(sel, a), IndexOf(sel, GetPredecessor(a, e));
    var p :| Walk(subEs, subM, j, p, b);
    assert Incident(se, i) && GetPredecessor(i, se) == j;
    assert ([k] + p)[1..] == p;
    assert Walk(subEs, subM, i, [k] + p, b);
  }

  // ---------------------------------------------------------------------
  // prune and pruneAndCleanup

  /** st lists, for the sub-vertices 1, 2, ..., the original edge copied by
      each one's predecessor edge in the subgraph's tree. */
  ghost predicate Pruned(origEdgeI: seq<int>, pre: seq<int>, st: seq<int>)
  {
    |st| < |pre| && forall j :: 0 <= j < |st| ==> PrunedAt(origEdgeI, pre, st[j], j + 1)
  }

  /** e is the original of sub-vertex w's predecessor edge. */
  ghost predicate PrunedAt(origEdgeI: seq<int>, pre: seq<int>, e: int, w: int)
  {
    0 <= w < |pre| && 0 <= pre[w] < |origEdgeI| && e == origEdgeI[pre[w]]
  }

  lemma PrunedStep(origEdgeI: seq<int>, pre: seq<int>, st: seq<int>, i: int)
    requires Pruned(origEdgeI, pre, st) && |st| == i - 1 && 1 <= i < |pre| && 0 <= pre[i] < |origEdgeI|
    ensures Pruned(origEdgeI, pre, st + [origEdgeI[pre[i]]])
  {
    var st' := st + [origEdgeI[pre[i]]];
    forall j | 0 <= j < |st'| ensures PrunedAt(origEdgeI, pre, st'[j], j + 1) {
      if j < |st| {
        assert st'[j] == st[j];
      }
    }
  }

  /** The next tree edge's original is not listed yet: predecessor edges
      are distinct, and so are the originals of distinct sub-edges. */
  lemma PrunedFresh(n: int, subEs: seq<Edge>, subM: int, pre: seq<int>, ord: seq<nat>, origEdgeI: seq<int>,
                    m: int, st: seq<int>, vis: seq<bool>, i: int)
    requires RootedTree(n, subEs, subM, pre, 0, ord) && Distinct(origEdgeI) && subM <= |origEdgeI|
    requires Pruned(origEdgeI, pre, st) && |st| == i - 1 && 1 <= i < n && pre[i] != NoEdge
    requires EdgeSet(m, st, vis) && forall k :: 0 <= k < subM ==> 0 <= origEdgeI[k] < m
    ensures 0 <= pre[i] < subM && 0 <= origEdgeI[pre[i]] < m && !vis[origEdgeI[pre[i]]]
  {
    assert TreeEdgeOK(n, subEs, subM, pre, 0, ord, i);
    forall j | 0 <= j < |st| ensures st[j] != origEdgeI[pre[i]] {
      TreeEdgesDistinct(n, subEs, subM, pre, 0, ord, i, j + 1);
    }
  }

  /** prune: Prim on the induced subgraph from its vertex 0, and the
      original edge behind each predecessor edge, listed once. Every
      sub-vertex is reachable from vertex 0, so each vertex but 0 has a
      predecessor edge (the source reads origEdgeI at that index unchecked). */
  method Prune(g: Graph, indSubG: InducedSubGraph, edgesVisited: array<bool>)
      returns (stEdges: seq<int>, nFinalEdges: int, ghost pre: seq<int>, ghost ord: seq<nat>)
    requires indSubG.graph.Built() && 1 <= indSubG.graph.n <= g.n && edgesVisited.Length == g.m
    requires Copies(g.edges[..], g.m, indSubG.graph.edges[..], indSubG.graph.m, indSubG.origEdgeI,
                    indSubG.newIDtoOldID)
    requires Distinct(indSubG.origEdgeI) && |indSubG.origEdgeI| == indSubG.graph.m
    requires forall x :: 0 <= x < g.m ==> !edgesVisited[x]
    requires forall x :: 0 <= x < indSubG.graph.n ==>
      Reachable(indSubG.graph.edges[..], indSubG.graph.m, 0, x)
    modifies edgesVisited
    ensures |stEdges| == g.n && nFinalEdges == indSubG.graph.n - 1
    ensures SpanningTree(indSubG.graph.n, indSubG.graph.vertices[..], indSubG.graph.edges[..], indSubG.graph.m,
                         pre, 0, ord)
    ensures forall x :: 0 <= x < indSubG.graph.n ==> InTree(pre, 0, x)
    ensures Pruned(indSubG.origEdgeI, pre, stEdges[..nFinalEdges])
    ensures EdgeSet(g.m, stEdges[..nFinalEdges], edgesVisited[..])
  {
    var sub, origEdgeI := indSubG.graph, indSubG.origEdgeI;
    ghost var vs, subEs := sub.vertices[..], sub.edges[..];
    var mstEdgeIndicesInIndG;
    mstEdgeIndicesInIndG, ord := Prim(sub, 0);
    pre := mstEdgeIndicesInIndG[..];
    forall x | 0 <= x < sub.n ensures InTree(pre, 0, x) {
      assert Reachable(subEs, sub.m, 0, x);
      var p :| Walk(subEs, sub.m, 0, p, x);
      WalkStaysInTree(sub.n, vs, subEs, sub.m, pre, 0, ord, 0, p, x);
    }
    stEdges := seq(g.n, _ => 0);
    var nEdges := 0;
    for i := 1 to sub.n
      invariant nEdges == i - 1 && |stEdges| == g.n
      invariant mstEdgeIndicesInIndG[..] == pre
      invariant Pruned(origEdgeI, pre, stEdges[..nEdges])
      invariant EdgeSet(g.m, stEdges[..nEdges], edgesVisited[..])
    {
      var iInSubG := mstEdgeIndicesInIndG[i];
      assert InTree(pre, 0, i);
      PrunedFresh(sub.n, subEs, sub.m, pre, ord, origEdgeI, g.m, stEdges[..nEdges], edgesVisited[..], i);
      var origI := origEdgeI[iInSubG];
      ghost var before := stEdges[..nEdges];
      stEdges, nEdges := AddEdgeToEdges(origI, stEdges, nEdges, edgesVisited);
      assert stEdges[..nEdges] == before + [origI];
      PrunedStep(origEdgeI, pre, before, i);
    }
    nFinalEdges := nEdges;
  }

  /** Every edge of a walk is one of the first m slots. */
  lemma {:induction false} WalkEdgesIn(es: seq<Edge>, m: int, a: int, path: seq<int>, b: int)
    requires m <= |es| && Walk(es, m, a, path, b)
    ensures forall k :: 0 <= k < |path| ==> 0 <= path[k] < m
    decreases |path|
  {
    if path != [] {
      WalkEdgesIn(es, m, GetPredecessor(a, es[path[0]]), path[1..], b);
      assert forall k :: 1 <= k < |path| ==> path[k] == path[1..][k - 1];
    }
  }

  /** st spans the vertex list TV as a tree: |TV| - 1 distinct edges of g,
      each with both ends in TV, that join every vertex of TV to TV[0]. */
  ghost predicate TreeOn(n: int, es: seq<Edge>, m: int, TV: seq<int>, st: seq<int>)
    requires m <= |es|
  {
    && 1 <= |TV| && Distinct(TV) && InRange(TV, n)
    && |st| == |TV| - 1 && Distinct(st) && InRange(st, m)
    && (forall j :: 0 <= j < |st| ==> es[st[j]].v in TV && es[st[j]].w in TV)
    && forall x :: x in TV ==> Conn(es, m, st, TV[0], x)
  }

  /** Only collected edges are flagged, and both their ends are selected,
      so the induced subgraph never meets a flagged edge leaving it. */
  lemma MaskInside(g: Graph, TV: seq<int>, C: seq<int>, vis: seq<bool>)
    requires g.WellFormed() && InRange(TV, g.n)
    requires EdgeSet(g.m, C, vis) && forall j :: 0 <= j < |C| ==> g.edges[C[j]].v in TV && g.edges[C[j]].w in TV
    ensures MaskedEdgesInside(g.vertices[..], g.edges[..g.m], TV, Flags(TV, g.n), vis)
  {
    var vs, es := g.vertices[..], g.edges[..g.m];
    forall s, j | 0 <= s < |TV| && 0 <= TV[s] < |vs| && 0 <= j < |vs[TV[s]].edges| &&
                  Passes(es, Flags(TV, g.n), vis, vs[TV[s]].edges[j])
      ensures 0 <= es[vs[TV[s]].edges[j]].v < g.n && Flags(TV, g.n)[es[vs[TV[s]].edges[j]].v]
    {
      var gi := vs[TV[s]].edges[j];
      assert gi in C;
      var k :| 0 <= k < |C| && C[k] == gi;
      assert es[gi] == g.edges[C[k]];
    }
  }

  /** The subgraph induced by the tree vertices and the flagged edges holds
      every collected edge but the self-loops, each once. */
  lemma CollectedHeld(g: Graph, TV: seq<int>, C: seq<int>, vis: seq<bool>, subEs: seq<Edge>, subM: int,
                      origEdgeI: seq<int>)
    requires g.Built() && Distinct(TV) && InRange(TV, g.n)
    requires EdgeSet(g.m, C, vis) && forall j :: 0 <= j < |C| ==> g.edges[C[j]].v in TV && g.edges[C[j]].w in TV
    requires origEdgeI == Emitted(g.vertices[..], g.edges[..g.m], TV, Flags(TV, g.n), vis, |TV|)
    requires subM == |origEdgeI| <= |subEs|
    requires forall k :: 0 <= k < subM ==> 0 <= origEdgeI[k] < g.m && Maps(subEs[k], g.edges[origEdgeI[k]], TV)
    ensures HoldsCollected(g.edges[..], g.m, C, subEs, subM, origEdgeI, TV) && Distinct(origEdgeI)
  {
    MaskInside(g, TV, C, vis);
    EmittedExactly(g, TV, vis);
    assert origEdgeI[..subM] == origEdgeI;
    forall gi | gi in C ensures 0 <= gi < g.m && g.edges[gi].v in TV && g.edges[gi].w in TV {
      var j :| 0 <= j < |C| && C[j] == gi;
    }
  }

  /** Every tree vertex, joined to TV[0] by collected edges in g, is
      reachable from sub-vertex 0 in the subgraph. */
  lemma SubReaches(es: seq<Edge>, m: int, C: seq<int>, subEs: seq<Edge>, subM: int, origEdgeI: seq<int>,
                   TV: seq<int>)
    requires HoldsCollected(es, m, C, subEs, subM, origEdgeI, TV) && 1 <= |TV|
    requires forall x :: x in TV ==> Conn(es, m, C, TV[0], x)
    ensures forall x :: 0 <= x < |TV| ==> Reachable(subEs, subM, 0, x)
  {
    forall x | 0 <= x < |TV| ensures Reachable(subEs, subM, 0, x) {
      assert TV[x] in TV;
      var p :| Walk(es, m, TV[0], p, TV[x]) && Along(C, p);
      WalkDown(es, m, C, subEs, subM, origEdgeI, TV, TV[0], p, TV[x]);
      var i, j := IndexOf(TV, TV[0]), IndexOf(TV, TV[x]);
      assert i == 0 && j == x;
    }
  }

  /** The pruned edges span the tree vertices: the subgraph's tree path from
      vertex 0 to any vertex, renamed, is a walk of pruned edges in g. */
  lemma PrunedSpans(es: seq<Edge>, m: int, subEs: seq<Edge>, subM: int, origEdgeI: seq<int>, TV: seq<int>,
                    pre: seq<int>, ord: seq<nat>, st: seq<int>)
    requires Copies(es, m, subEs, subM, origEdgeI, TV) && 1 <= |TV|
    requires RootedTree(|TV|, subEs, subM, pre, 0, ord) && forall x :: 0 <= x < |TV| ==> InTree(pre, 0, x)
    requires Pruned(origEdgeI, pre, st) && |st| == |TV| - 1
    ensures forall j :: 0 <= j < |st| ==> 0 <= st[j] < m && es[st[j]].v in TV && es[st[j]].w in TV
    ensures forall x :: x in TV ==> Conn(es, m, st, TV[0], x)
  {
    forall j | 0 <= j < |st| ensures 0 <= st[j] < m && es[st[j]].v in TV && es[st[j]].w in TV {
      assert InTree(pre, 0, j + 1) && TreeEdgeOK(|TV|, subEs, subM, pre, 0, ord, j + 1);
      assert Maps(subEs[pre[j + 1]], es[origEdgeI[pre[j + 1]]], TV);
    }
    forall x | x in TV ensures Conn(es, m, st, TV[0], x) {
      var i := IndexOf(TV, x);
      assert InTree(pre, 0, i);
      var path := RootPath(|TV|, subEs, subM, pre, 0, ord, i);
      WalkUp(es, m, subEs, subM, origEdgeI, TV, 0, path, i);
      WalkEdgesIn(subEs, subM, 0, path, i);
      var mp := MapThrough(origEdgeI, path);
      forall k | 0 <= k < |mp| ensures mp[k] in st {
        assert path[k] in pre;
        var j :| 0 <= j < |pre| && pre[j] == path[k];
        assert j != 0;
        assert st[j - 1] == mp[k];
      }
      assert Walk(es, m, TV[0], mp, x) && Along(st, mp);
    }
  }

  /** The first half of pruneAndCleanup: the subgraph induced by the tree
      vertices and the flagged edges. It copies the collected edges, and
      every one of its vertices is reachable from its vertex 0. */
  method InduceTree(g: Graph, edgeIndices: seq<int>, nEdges: int, edgesVisited: array<bool>,
                    treeVertices: array<int>, nTreeVertices: int)
      returns (indSubG: InducedSubGraph)
    requires g.Built() && edgesVisited.Length == g.m && treeVertices.Length == g.n
    requires 0 <= nEdges <= |edgeIndices| && 1 <= nTreeVertices <= g.n
    requires TreeState(g.n, g.edges[..], g.m, treeVertices[..nTreeVertices], Flags(treeVertices[..nTreeVertices], g.n),
                       edgeIndices[..nEdges], edgesVisited[..])
    requires forall x :: x in treeVertices[..nTreeVertices] ==>
      Conn(g.edges[..], g.m, edgeIndices[..nEdges], treeVertices[0], x)
    ensures fresh(indSubG.graph) && fresh(indSubG.graph.vertices) && fresh(indSubG.graph.edges)
    ensures indSubG.graph.Built() && indSubG.graph.n == nTreeVertices
    ensures indSubG.newIDtoOldID == treeVertices[..nTreeVertices]
    ensures Copies(g.edges[..], g.m, indSubG.graph.edges[..], indSubG.graph.m, indSubG.origEdgeI,
                   treeVertices[..nTreeVertices])
    ensures Distinct(indSubG.origEdgeI) && |indSubG.origEdgeI| == indSubG.graph.m
    ensures forall x :: 0 <= x < indSubG.graph.n ==> Reachable(indSubG.graph.edges[..], indSubG.graph.m, 0, x)
  {
    ghost var es, TV, C := g.edges[..], treeVertices[..nTreeVertices], edgeIndices[..nEdges];
    assert MaskOf(edgesVisited, g.m) == edgesVisited[..];
    MaskInside(g, TV, C, edgesVisited[..]);
    indSubG := CreateInducedSubGraph(treeVertices, nTreeVertices, edgesVisited, g);
    ghost var subEs, subM := indSubG.graph.edges[..], indSubG.graph.m;
    CollectedHeld(g, TV, C, edgesVisited[..], subEs, subM, indSubG.origEdgeI);
    SubReaches(es, g.m, C, subEs, subM, indSubG.origEdgeI, TV);
  }

  /** pruneAndCleanup: the induced subgraph, all flags cleared, then prune.
      The tree edges it returns stay flagged. */
  method PruneAndCleanup(g: Graph, edgeIndices: seq<int>, nEdges: int, edgesVisited: array<bool>,
                         treeVertices: array<int>, nTreeVertices: int)
      returns (st: SteinerTree)
    requires g.Built() && edgesVisited.Length == g.m && treeVertices.Length == g.n
    requires 0 <= nEdges <= |edgeIndices| && 1 <= nTreeVertices <= g.n
    requires TreeState(g.n, g.edges[..], g.m, treeVertices[..nTreeVertices], Flags(treeVertices[..nTreeVertices], g.n),
                       edgeIndices[..nEdges], edgesVisited[..])
    requires forall x :: x in treeVertices[..nTreeVertices] ==>
      Conn(g.edges[..], g.m, edgeIndices[..nEdges], treeVertices[0], x)
    modifies edgesVisited
    ensures TreeOn(g.n, g.edges[..], g.m, treeVertices[..nTreeVertices], st.treeEdgeIndices)
    ensures EdgeSet(g.m, st.treeEdgeIndices, edgesVisited[..])
  {
    ghost var TV, C, vis := treeVertices[..nTreeVertices], edgeIndices[..nEdges], edgesVisited[..];
    var indSubG := InduceTree(g, edgeIndices, nEdges, edgesVisited, treeVertices, nTreeVertices);
    ClearFlags(edgeIndices, nEdges, edgesVisited);
    ClearedAll(g.m, C, vis, edgesVisited[..]);
    var stEdgeIndices, nFinalEdges, pre, ord := Prune(g, indSubG, edgesVisited);
    PrunedSpans(g.edges[..], g.m, indSubG.graph.edges[..], indSubG.graph.m, indSubG.origEdgeI, TV, pre, ord,
                stEdgeIndices[..nFinalEdges]);
    st := SteinerTree(stEdgeIndices[..nFinalEdges]);
  }

  // ---------------------------------------------------------------------
  // twoAPX

  /** After collectUniqueEdges along a spanning closure tree, terminal c is
      a tree vertex: it is joined to another terminal by collected edges. */
  lemma TerminalInTree(n: int, es: seq<Edge>, m: int, terms: seq<int>, TV: seq<int>, inT: seq<bool>, C: seq<int>,
                       vis: seq<bool>, CE: seq<Edge>, pre: seq<int>, ord: seq<nat>, c: int)
    requires TreeState(n, es, m, TV, inT, C, vis) && NotAllEqual(terms) && 0 <= c < |terms|
    requires RootedTree(|terms|, CE, |CE|, pre, 0, ord) && ClosureTreeOK(es, m, terms, CE, pre)
    requires JoinedUpTo(es, m, terms, CE, pre, C, |pre|) && forall x :: 0 <= x < |terms| ==> InTree(pre, 0, x)
    ensures terms[c] in TV
  {
    if terms[c] == terms[0] {
      var d :| 0 <= d < |terms| && terms[d] != terms[0];
      TerminalJoined(es, m, terms, CE, pre, ord, C, d);
      ConnEndInTree(n, es, m, TV, inT, C, vis, terms[0], terms[d]);
    } else {
      TerminalJoined(es, m, terms, CE, pre, ord, C, c);
      ConnSym(es, m, C, terms[0], terms[c]);
      ConnEndInTree(n, es, m, TV, inT, C, vis, terms[c], terms[0]);
    }
  }

  /** Collected edges joining every tree vertex to r join every tree vertex
      to the first one listed. */
  lemma Rebase(n: int, es: seq<Edge>, m: int, TV: seq<int>, inT: seq<bool>, C: seq<int>, vis: seq<bool>, r: int)
    requires TreeState(n, es, m, TV, inT, C, vis) && 1 <= |TV|
    requires forall x :: 0 <= x < n && inT[x] ==> Conn(es, m, C, r, x)
    ensures forall x :: x in TV ==> Conn(es, m, C, TV[0], x)
  {
    assert inT[TV[0]];
    ConnSym(es, m, C, r, TV[0]);
    forall x | x in TV ensures Conn(es, m, C, TV[0], x) {
      assert inT[x];
      ConnTrans(es, m, C, TV[0], r, x);
    }
  }

  /** After collectUniqueEdges along a spanning closure tree: every
      terminal is a tree vertex, and the collected edges join every tree
      vertex to the first one. */
  lemma CollectedSpan(n: int, es: seq<Edge>, m: int, terms: seq<int>, TV: seq<int>, inT: seq<bool>, C: seq<int>,
                      vis: seq<bool>, CE: seq<Edge>, pre: seq<int>, ord: seq<nat>)
    requires TreeState(n, es, m, TV, inT, C, vis) && Rooted(n, es, m, terms, inT, C)
    requires NotAllEqual(terms)
    requires RootedTree(|terms|, CE, |CE|, pre, 0, ord) && ClosureTreeOK(es, m, terms, CE, pre)
    requires JoinedUpTo(es, m, terms, CE, pre, C, |pre|) && forall x :: 0 <= x < |terms| ==> InTree(pre, 0, x)
    ensures 1 <= |TV| && forall t :: t in terms ==> t in TV
    ensures forall x :: x in TV ==> Conn(es, m, C, TV[0], x)
  {
    forall t | t in terms ensures t in TV {
      var c :| 0 <= c < |terms| && terms[c] == t;
      TerminalInTree(n, es, m, terms, TV, inT, C, vis, CE, pre, ord, c);
    }
    assert terms[0] in TV;
    AllJoined(n, es, m, terms, inT, C, CE, pre, ord);
    Rebase(n, es, m, TV, inT, C, vis, terms[0]);
  }

  /** Flags that mark exactly the vertices of TV are Flags(TV, n). */
  lemma FlagsOf(n: int, TV: seq<int>, inT: seq<bool>)
    requires 0 <= n && VertexSet(n, TV, inT)
    ensures inT == Flags(TV, n)
  {
  }

  /** The empty tree, before collectUniqueEdges. */
  lemma EmptyCollection(g: Graph, terms: seq<int>, inT: seq<bool>, vis: seq<bool>)
    requires g.WellFormed() && |inT| == g.n && |vis| == g.m
    requires (forall x :: 0 <= x < g.n ==> !inT[x]) && forall x :: 0 <= x < g.m ==> !vis[x]
    ensures TreeState(g.n, g.edges[..], g.m, [], inT, [], vis) && Rooted(g.n, g.edges[..], g.m, terms, inT, [])
  {
  }

  /** What twoAPX allocates before collectUniqueEdges: a clean PathsData,
      an empty buffer, no tree vertices and no flagged edges. */
  method CollectionStart(g: Graph, terms: seq<int>)
      returns (pathsData: PathsData, edgesBuff: Buffer<int>, treeVertices: array<int>, inTree: array<bool>,
               edgesVisited: array<bool>)
    requires g.WellFormed()
    ensures fresh(pathsData) && fresh(pathsData.dist) && fresh(pathsData.preEdgeIndices) && fresh(edgesBuff)
    ensures fresh(treeVertices) && fresh(inTree) && fresh(edgesVisited)
    ensures CollectArrays(g, pathsData, treeVertices, inTree, edgesVisited)
    ensures edgesBuff.Valid() && edgesBuff.n == 0
    ensures TreeState(g.n, g.edges[..], g.m, treeVertices[..0], inTree[..], edgesBuff.data[..0], edgesVisited[..])
    ensures Rooted(g.n, g.edges[..], g.m, terms, inTree[..], edgesBuff.data[..0])
  {
    pathsData := new PathsData(g.n);
    edgesBuff := new Buffer<int>();
    treeVertices := new int[g.n](_ => 0);
    inTree := new bool[g.n](_ => false);
    edgesVisited := new bool[g.m](_ => false);
    assert edgesBuff.data[..0] == [] && treeVertices[..0] == [];
    EmptyCollection(g, terms, inTree[..], edgesVisited[..]);
  }

  /** The middle of twoAPX: fresh flag arrays, and collectUniqueEdges along
      the closure's spanning tree. */
  method CollectTree(g: Graph, terminals: seq<int>, closure: Graph, closureMSTindices: array<int>,
                     ghost nE: int, ghost ord: seq<nat>)
      returns (edgeIndices: seq<int>, nEdges: int, treeVertices: array<int>, nTreeVertices: int,
               edgesVisited: array<bool>)
    requires g.Built() && InRange(terminals, g.n) && NotAllEqual(terminals)
    requires closure.n == |terminals| && closureMSTindices.Length == closure.n
    requires ClosureTreeOK(g.edges[..], g.m, terminals, closure.edges[..], closureMSTindices[..])
    requires RootedTree(|terminals|, closure.edges[..], closure.edges.Length, closureMSTindices[..], 0, ord)
    requires forall c :: 0 <= c < |terminals| ==> InTree(closureMSTindices[..], 0, c)
    ensures fresh(treeVertices) && fresh(edgesVisited)
    ensures treeVertices.Length == g.n && edgesVisited.Length == g.m
    ensures 0 <= nEdges <= |edgeIndices| && 1 <= nTreeVertices <= g.n
    ensures TreeState(g.n, g.edges[..], g.m, treeVertices[..nTreeVertices], Flags(treeVertices[..nTreeVertices], g.n),
                      edgeIndices[..nEdges], edgesVisited[..])
    ensures forall x :: x in treeVertices[..nTreeVertices] ==>
      Conn(g.edges[..], g.m, edgeIndices[..nEdges], treeVertices[0], x)
    ensures forall t :: t in terminals ==> t in treeVertices[..nTreeVertices]
  {
    ghost var es, CE, pre := g.edges[..], closure.edges[..], closureMSTindices[..];
    var pathsData, edgesBuff, inTree;
    pathsData, edgesBuff, treeVertices, inTree, edgesVisited := CollectionStart(g, terminals);
    nEdges, nTreeVertices := 0, 0;
    assert closureMSTindices[..closure.n] == pre;

    nEdges, nTreeVertices := CollectUniqueEdges(g, closure, terminals, closureMSTindices, closure.n, pathsData,
                                                edgesBuff, nEdges, treeVertices, inTree, nTreeVertices, edgesVisited);
    edgeIndices := edgesBuff.data;
    ghost var TV := treeVertices[..nTreeVertices];
    CollectedSpan(g.n, es, g.m, terminals, TV, inTree[..], edgeIndices[..nEdges], edgesVisited[..], CE, pre, ord);
    FlagsOf(g.n, TV, inTree[..]);
  }

  /** twoAPX: the closure's minimum spanning tree, the shortest paths behind
      its edges collected into one edge set, and that set pruned to a tree.
      The result spans a set of vertices holding every terminal. The closure
      rows are computed in the order `schedule` assigns them to nThreads
      workers. */
  method TwoAPX(g: Graph, terminals: seq<int>, nThreads: nat, schedule: seq<int>)
      returns (st: SteinerTree, TV: seq<int>)
    requires g.Built() && InRange(terminals, g.n) && NotAllEqual(terminals)
    requires 1 <= nThreads && |terminals| - 1 <= |schedule|
    requires forall i :: 0 <= i < |schedule| ==> 0 <= schedule[i] < nThreads
    requires forall c :: 0 <= c < |terminals| ==> Reachable(g.edges[..], g.m, terminals[0], terminals[c])
    ensures TreeOn(g.n, g.edges[..], g.m, TV, st.treeEdgeIndices)
    ensures forall t :: t in terminals ==> t in TV
  {
    ghost var es := g.edges[..];
    var closure, closureMSTindices, nE, ord := CreateClosureMST(g, terminals, nThreads, schedule);
    ghost var CE, pre := closure.edges[..], closureMSTindices[..];
    assert closure.SymmetricUpTo(nE);
    ClosureTreeReaches(es, g.m, terminals, closure.vertices[..], CE, nE, pre, ord);
    ClosureTreeEdges(es, g.m, terminals, CE, nE, pre, ord);

    var edgeIndices, nEdges, treeVertices, nTreeVertices, edgesVisited :=
      CollectTree(g, terminals, closure, closureMSTindices, nE, ord);
    TV := treeVertices[..nTreeVertices];
    st := PruneAndCleanup(g, edgeIndices, nEdges, edgesVisited, treeVertices, nTreeVertices);
  }
}
