// The metric-closure 2-approximation (src/algorithms/two-apx/two-apx.c):
// shortest paths between all terminals form the closure graph, Prim gives
// its minimum spanning tree, every closure tree edge is expanded into its
// shortest path in the original graph (each original edge collected once),
// and Prim on the subgraph induced by the collected vertices and edges
// prunes the union of the paths to a tree.
//
// The OpenMP loops are sequential here: the worker that runs iteration i
// is schedule[i], an arbitrary parameter, and each worker appends to its
// own buffer; the buffers are merged in worker order afterwards.

module TwoApx {
  import opened Types
  import opened Graphs
  import opened Utils
  import opened Buffers
  import opened Dijkstras
  import opened Prims
  import opened InducedSubGraphs
  import opened Heuristics

  // ---------------------------------------------------------------------
  // Walks over a list of collected edges

  /** a and b are joined by a walk whose every edge is listed in C. */
  ghost predicate Conn(es: seq<Edge>, m: int, C: seq<int>, a: int, b: int)
    requires m <= |es|
  {
    exists path :: Walk(es, m, a, path, b) && Along(C, path)
  }

  /** b can be reached from a at all. */
  ghost predicate Reachable(es: seq<Edge>, m: int, a: int, b: int)
    requires m <= |es|
  {
    exists path :: Walk(es, m, a, path, b)
  }

  function Reverse(s: seq<int>): (r: seq<int>)
    ensures |r| == |s| && forall k :: 0 <= k < |s| ==> r[k] == s[|s| - 1 - k]
  {
    if s == [] then [] else Reverse(s[1..]) + [s[0]]
  }

  /** A walk read backwards is a walk: edges are undirected. */
  lemma {:induction false} WalkReverse(es: seq<Edge>, m: int, a: int, p: seq<int>, b: int)
    requires m <= |es| && Walk(es, m, a, p, b)
    ensures Walk(es, m, b, Reverse(p), a)
    decreases |p|
  {
    if p == [] {
      assert Walk(es, m, b, [], a);
    } else {
      var e := es[p[0]];
      var a' := GetPredecessor(a, e);
      WalkReverse(es, m, a', p[1..], b);
      GetPredecessorTwice(a, e);
      WalkSnoc(es, m, b, Reverse(p[1..]), a', p[0]);
      assert Reverse(p) == Reverse(p[1..]) + [p[0]];
    }
  }

  /** Two walks from the same start along the same edges end together. */
  lemma {:induction false} WalkEnd(es: seq<Edge>, m: int, a: int, p: seq<int>, b: int, c: int)
    requires m <= |es| && Walk(es, m, a, p, b) && Walk(es, m, a, p, c)
    ensures b == c
    decreases |p|
  {
    if p != [] {
      WalkEnd(es, m, GetPredecessor(a, es[p[0]]), p[1..], b, c);
    }
  }

  /** A walk that is a prefix of a walk to another vertex is shorter. */
  lemma PrefixShorter(es: seq<Edge>, m: int, a: int, p: seq<int>, b: int, q: seq<int>, c: int)
    requires m <= |es| && Walk(es, m, a, p, b) && Walk(es, m, a, q, c) && p <= q && b != c
    ensures |p| < |q|
  {
    if |p| == |q| {
      assert p == q;
      WalkEnd(es, m, a, p, b, c);
    }
  }

  lemma ConnSym(es: seq<Edge>, m: int, C: seq<int>, a: int, b: int)
    requires m <= |es| && Conn(es, m, C, a, b)
    ensures Conn(es, m, C, b, a)
  {
    var p :| Walk(es, m, a, p, b) && Along(C, p);
    WalkReverse(es, m, a, p, b);
    var r := Reverse(p);
    assert forall k :: 0 <= k < |r| ==> r[k] == p[|p| - 1 - k];
    assert Walk(es, m, b, r, a) && Along(C, r);
  }

  lemma ConnTrans(es: seq<Edge>, m: int, C: seq<int>, a: int, b: int, c: int)
    requires m <= |es| && Conn(es, m, C, a, b) && Conn(es, m, C, b, c)
    ensures Conn(es, m, C, a, c)
  {
    var p :| Walk(es, m, a, p, b) && Along(C, p);
    var q :| Walk(es, m, b, q, c) && Along(C, q);
    WalkConcat(es, m, a, p, b, q, c);
    assert Along(C, p + q);
  }

  /** Listing more edges keeps every connection. */
  lemma ConnGrow(es: seq<Edge>, m: int, C: seq<int>, C': seq<int>, a: int, b: int)
    requires m <= |es| && Conn(es, m, C, a, b) && forall x :: x in C ==> x in C'
    ensures Conn(es, m, C', a, b)
  {
    var p :| Walk(es, m, a, p, b) && Along(C, p);
    assert Along(C', p);
  }

  // ---------------------------------------------------------------------
  // Bookkeeping helpers

  /** addEdgeToEdges: list edgeI in slot nEdges and flag it, unless it is
      -1 or flagged already. The list stays duplicate-free and in step with
      the flags, and afterwards edgeI is listed whenever it is an edge. */
  method AddEdgeToEdges(edgeI: int, edges: seq<int>, nEdges: int, edgesVisited: array<bool>)
      returns (edges': seq<int>, nEdges': int)
    requires edgeI == NoEdge || 0 <= edgeI < edgesVisited.Length
    requires 0 <= nEdges <= |edges| && EdgeSet(edgesVisited.Length, edges[..nEdges], edgesVisited[..])
    requires edgeI != NoEdge && !edgesVisited[edgeI] ==> nEdges < |edges|
    modifies edgesVisited
    ensures |edges'| == |edges| && nEdges <= nEdges' <= |edges|
    ensures EdgeSet(edgesVisited.Length, edges'[..nEdges'], edgesVisited[..])
    ensures edgeI != NoEdge ==> edgeI in edges'[..nEdges']
    ensures edges'[..nEdges'] ==
      edges[..nEdges] + (if edgeI != NoEdge && !old(edgesVisited[edgeI]) then [edgeI] else [])
    ensures forall k :: nEdges' <= k < |edges| ==> edges'[k] == edges[k]
  {
    edges', nEdges' := edges, nEdges;
    if edgeI != NoEdge && !edgesVisited[edgeI] {
      EdgeSetAdd(edgesVisited.Length, edges[..nEdges], edgesVisited[..], edgeI);
      edges' := edges[nEdges := edgeI];
      edgesVisited[edgeI] := true;
      nEdges' := nEdges + 1;
      assert edges'[..nEdges'] == edges[..nEdges] + [edgeI];
    }
  }

  /** clearFlags: unflag exactly the listed edges. */
  method ClearFlags(edgeIndices: seq<int>, nEdges: int, visitedEdges: array<bool>)
    requires 0 <= nEdges <= |edgeIndices| && InRange(edgeIndices[..nEdges], visitedEdges.Length)
    modifies visitedEdges
    ensures forall x :: 0 <= x < visitedEdges.Length ==>
      visitedEdges[x] == (old(visitedEdges[x]) && x !in edgeIndices[..nEdges])
  {
    for i := 0 to nEdges
      invariant forall x :: 0 <= x < visitedEdges.Length ==>
        visitedEdges[x] == (old(visitedEdges[x]) && x !in edgeIndices[..i])
    {
      assert edgeIndices[..i + 1] == edgeIndices[..i] + [edgeIndices[i]];
      visitedEdges[edgeIndices[i]] := false;
    }
  }

  /** Clearing the listed edges of an edge set clears every flag. */
  lemma ClearedAll(m: int, C: seq<int>, vis: seq<bool>, vis': seq<bool>)
    requires EdgeSet(m, C, vis) && |vis'| == m
    requires forall x :: 0 <= x < m ==> vis'[x] == (vis[x] && x !in C)
    ensures forall x :: 0 <= x < m ==> !vis'[x]
  {
  }

  // ---------------------------------------------------------------------
  // Shortest-path trees from one source

  /** Dijkstra's result from the single source s, with descending chains. */
  ghost predicate FromSource(n: int, es: seq<Edge>, m: int, D: seq<Dist>, P: seq<int>, st: seq<nat>, s: int)
  {
    0 <= s < n && ShortestPaths(n, es, m, D, P, [s]) && Descends(n, es, m, D, P, st)
  }

  /** The predecessor edges from s down to a reached vertex x. */
  ghost function PathTo(n: int, es: seq<Edge>, m: int, D: seq<Dist>, P: seq<int>, st: seq<nat>, s: int, x: int)
      : (path: seq<int>)
    requires FromSource(n, es, m, D, P, st, s) && 0 <= x < n && D[x].Fin?
    ensures Walk(es, m, s, path, x)
  {
    PrePath(n, es, m, D, P, st, [s], x)
  }

  /** One step up a predecessor chain: the source has no edge and an empty
      path; any other reached vertex extends the path of its predecessor. */
  lemma PathToStep(n: int, es: seq<Edge>, m: int, D: seq<Dist>, P: seq<int>, st: seq<nat>, s: int, x: int)
    requires FromSource(n, es, m, D, P, st, s) && 0 <= x < n && D[x].Fin?
    ensures P[x] == NoEdge ==> x == s && PathTo(n, es, m, D, P, st, s, x) == []
    ensures P[x] != NoEdge ==> 0 <= P[x] < m && Incident(es[P[x]], x)
    ensures P[x] != NoEdge ==>
      var p := GetPredecessor(x, es[P[x]]);
      0 <= p < n && D[p].Fin? &&
      PathTo(n, es, m, D, P, st, s, x) == PathTo(n, es, m, D, P, st, s, p) + [P[x]]
  {
    assert PreEdge(n, es, m, D, P, [s], x);
  }

  /** The source is reached, by the empty path. */
  lemma PathToSource(n: int, es: seq<Edge>, m: int, D: seq<Dist>, P: seq<int>, st: seq<nat>, s: int)
    requires FromSource(n, es, m, D, P, st, s)
    ensures D[s].Fin? && PathTo(n, es, m, D, P, st, s, s) == []
  {
    assert s in [s];
    PathToStep(n, es, m, D, P, st, s, s);
  }

  /** Reachable vertices have a finite distance. */
  lemma ReachedFin(n: int, es: seq<Edge>, m: int, D: seq<Dist>, P: seq<int>, st: seq<nat>, s: int, x: int)
    requires FromSource(n, es, m, D, P, st, s) && 0 <= x < n && Reachable(es, m, s, x)
    ensures D[x].Fin?
  {
    var path :| Walk(es, m, s, path, x);
    assert s in [s];
    assert DLe(D[x], Fin(Cost(es, path)));
  }

  /** Standing at u with stop further up u's chain, u is not stop's
      ancestor: u has a predecessor edge, and stop is also above it. */
  lemma ChainNext(n: int, es: seq<Edge>, m: int, D: seq<Dist>, P: seq<int>, st: seq<nat>, s: int,
                  stop: int, u: int)
    requires FromSource(n, es, m, D, P, st, s) && 0 <= u < n && D[u].Fin? && 0 <= stop < n && D[stop].Fin?
    requires PathTo(n, es, m, D, P, st, s, stop) <= PathTo(n, es, m, D, P, st, s, u) && u != stop
    ensures 0 <= P[u] < m && Incident(es[P[u]], u)
    ensures var p := GetPredecessor(u, es[P[u]]);
      0 <= p < n && D[p].Fin? &&
      PathTo(n, es, m, D, P, st, s, u) == PathTo(n, es, m, D, P, st, s, p) + [P[u]] &&
      PathTo(n, es, m, D, P, st, s, stop) <= PathTo(n, es, m, D, P, st, s, p)
  {
    var ps, pu := PathTo(n, es, m, D, P, st, s, stop), PathTo(n, es, m, D, P, st, s, u);
    PrefixShorter(es, m, s, ps, stop, pu, u);
    PathToStep(n, es, m, D, P, st, s, u);
    var p := GetPredecessor(u, es[P[u]]);
    var pp := PathTo(n, es, m, D, P, st, s, p);
    assert pu == pp + [P[u]];
    assert ps == pu[..|ps|] && pu[..|ps|] == pp[..|ps|];
  }

  // ---------------------------------------------------------------------
  // Walking a path into the collection

  /** The arrays of the collection phase have the graph's sizes. */
  ghost predicate CollectArrays(g: Graph, pd: PathsData, treeVertices: array<int>, inTree: array<bool>,
                                edgesVisited: array<bool>)
    reads g, pd
  {
    && treeVertices.Length == g.n && inTree.Length == g.n && edgesVisited.Length == g.m
    && pd.dist.Length == g.n && pd.preEdgeIndices.Length == g.n
    && treeVertices != pd.preEdgeIndices && inTree != edgesVisited
  }

  /** processEdgeOfPath: reserve a buffer slot, list u's predecessor edge
      there unless it is listed already, flag both its ends as tree
      vertices, and step to the other end. */
  method ProcessEdgeOfPath(u: int, g: Graph, pd: PathsData, buff: Buffer<int>, nEdges: int,
                           edgesVisited: array<bool>, treeVertices: array<int>, nTreeVertices: int,
                           inTree: array<bool>)
      returns (p: int, nEdges': int, nTreeVertices': int)
    requires CollectArrays(g, pd, treeVertices, inTree, edgesVisited) && buff.Valid()
    requires 0 <= u < g.n && 0 <= pd.preEdgeIndices[u] < g.m && g.m <= g.edges.Length
    requires 0 <= nEdges <= buff.n && 0 <= nTreeVertices <= g.n
    requires TreeState(g.n, g.edges[..], g.m, treeVertices[..nTreeVertices], inTree[..], buff.data[..nEdges],
                       edgesVisited[..])
    modifies buff, edgesVisited, treeVertices, inTree
    ensures p == GetPredecessor(u, g.edges[pd.preEdgeIndices[u]])
    ensures buff.Valid() && buff.n == old(buff.n) + 1 && nEdges <= nEdges' <= buff.n
    ensures 0 <= nTreeVertices' <= g.n
    ensures buff.data[..nEdges'] == old(buff.data[..nEdges]) +
      (if old(edgesVisited[pd.preEdgeIndices[u]]) then [] else [pd.preEdgeIndices[u]])
    ensures inTree[..] == old(inTree[..])[g.edges[pd.preEdgeIndices[u]].v := true][g.edges[pd.preEdgeIndices[u]].w := true]
    ensures TreeState(g.n, g.edges[..], g.m, treeVertices[..nTreeVertices'], inTree[..], buff.data[..nEdges'],
                      edgesVisited[..])
  {
    ghost var es, TV, inT, C, vis := g.edges[..], treeVertices[..nTreeVertices], inTree[..],
                                     buff.data[..nEdges], edgesVisited[..];
    var edgeI := pd.preEdgeIndices[u];
    var preEdge := g.edges[edgeI];
    buff.Append(edgeI);
    var edgeIndices := buff.data;
    assert edgeIndices[..nEdges] == C;
    var data;
    data, nEdges' := AddEdgeToEdges(edgeI, edgeIndices, nEdges, edgesVisited);
    buff.data := data;
    ghost var C', vis' := buff.data[..nEdges'], edgesVisited[..];
    assert C' == C + (if vis[edgeI] then [] else [edgeI]);
    nTreeVertices' := AddVertex(preEdge.v, inTree, treeVertices, nTreeVertices);
    nTreeVertices' := AddVertex(preEdge.w, inTree, treeVertices, nTreeVertices');
    assert buff.data[..nEdges'] == C' && edgesVisited[..] == vis';
    if vis[edgeI] {
      VisitedEnds(g.n, es, g.m, TV, inT, C, vis, edgeI);
    } else {
      TreeGrow(g.n, es, g.m, TV, inT, C, vis, treeVertices[..nTreeVertices'], inTree[..], edgeI);
    }
    p := GetPredecessor(u, preEdge);
  }

  /** The walk from `from` up to `stop` along the predecessor chain of a
      shortest-path tree from t1, which also holds t2 below `from`: the
      collection only grows, every edge between `from` and u is collected,
      and every newly flagged vertex lies on the chain from t2. */
  ghost predicate PartInv(n: int, es: seq<Edge>, m: int, D: seq<Dist>, P: seq<int>, st: seq<nat>, t1: int,
                          t2: int, from: int, stop: int, inT0: seq<bool>, C0: seq<int>,
                          TV: seq<int>, inT: seq<bool>, C: seq<int>, vis: seq<bool>, u: int)
  {
    && FromSource(n, es, m, D, P, st, t1)
    && 0 <= t2 < n && D[t2].Fin? && 0 <= from < n && D[from].Fin?
    && 0 <= stop < n && D[stop].Fin? && 0 <= u < n && D[u].Fin?
    && PathTo(n, es, m, D, P, st, t1, from) <= PathTo(n, es, m, D, P, st, t1, t2)
    && PathTo(n, es, m, D, P, st, t1, u) <= PathTo(n, es, m, D, P, st, t1, from)
    && PathTo(n, es, m, D, P, st, t1, stop) <= PathTo(n, es, m, D, P, st, t1, u)
    && TreeState(n, es, m, TV, inT, C, vis) && |inT0| == n
    && C0 <= C && (forall x :: 0 <= x < n && inT0[x] ==> inT[x])
    && (forall k :: k in PathTo(n, es, m, D, P, st, t1, from) ==>
          k in C || k in PathTo(n, es, m, D, P, st, t1, u))
    && (forall x :: 0 <= x < n && inT[x] && !inT0[x] ==>
          D[x].Fin? && PathTo(n, es, m, D, P, st, t1, x) <= PathTo(n, es, m, D, P, st, t1, t2))
  }

  /** Processing u's predecessor edge moves the walk one vertex up. */
  lemma PartStep(n: int, es: seq<Edge>, m: int, D: seq<Dist>, P: seq<int>, st: seq<nat>, t1: int,
                 t2: int, from: int, stop: int, inT0: seq<bool>, C0: seq<int>,
                 TV: seq<int>, inT: seq<bool>, C: seq<int>, vis: seq<bool>, u: int,
                 TV': seq<int>, inT': seq<bool>, C': seq<int>, vis': seq<bool>)
    requires PartInv(n, es, m, D, P, st, t1, t2, from, stop, inT0, C0, TV, inT, C, vis, u) && u != stop
    requires 0 <= P[u] < m && Incident(es[P[u]], u)
    requires C' == C + (if vis[P[u]] then [] else [P[u]])
    requires inT' == inT[es[P[u]].v := true][es[P[u]].w := true] && TreeState(n, es, m, TV', inT', C', vis')
    ensures var p := GetPredecessor(u, es[P[u]]);
      0 <= p < n && D[p].Fin? &&
      |PathTo(n, es, m, D, P, st, t1, p)| < |PathTo(n, es, m, D, P, st, t1, u)| &&
      PartInv(n, es, m, D, P, st, t1, t2, from, stop, inT0, C0, TV', inT', C', vis', p)
  {
    ChainNext(n, es, m, D, P, st, t1, stop, u);
    var e := es[P[u]];
    var p := GetPredecessor(u, e);
    var pu, pp := PathTo(n, es, m, D, P, st, t1, u), PathTo(n, es, m, D, P, st, t1, p);
    var pf, pt := PathTo(n, es, m, D, P, st, t1, from), PathTo(n, es, m, D, P, st, t1, t2);
    assert pu == pp + [P[u]];
    assert pp <= pu;
    assert P[u] in C' by {
      if vis[P[u]] {
        assert EdgeSet(m, C, vis);
      }
    }
    forall k | k in pf ensures k in C' || k in pp {
      assert k in C || k in pu;
    }
    forall x | 0 <= x < n && inT'[x] && !inT0[x]
      ensures D[x].Fin? && PathTo(n, es, m, D, P, st, t1, x) <= pt
    {
      if !inT[x] {
        assert x == u || x == p;
      }
    }
  }

  /** Before a walk nothing is collected yet between `from` and itself. */
  lemma PartStart(n: int, es: seq<Edge>, m: int, D: seq<Dist>, P: seq<int>, st: seq<nat>, t1: int,
                  t2: int, from: int, stop: int, TV: seq<int>, inT: seq<bool>, C: seq<int>, vis: seq<bool>)
    requires FromSource(n, es, m, D, P, st, t1)
    requires 0 <= t2 < n && D[t2].Fin? && 0 <= from < n && D[from].Fin? && 0 <= stop < n && D[stop].Fin?
    requires PathTo(n, es, m, D, P, st, t1, from) <= PathTo(n, es, m, D, P, st, t1, t2)
    requires PathTo(n, es, m, D, P, st, t1, stop) <= PathTo(n, es, m, D, P, st, t1, from)
    requires TreeState(n, es, m, TV, inT, C, vis)
    ensures PartInv(n, es, m, D, P, st, t1, t2, from, stop, inT, C, TV, inT, C, vis, from)
  {
  }

  /** The walk loop of collectUniqueEdges: from `from`, process predecessor
      edges until `stop` is reached. Afterwards every edge between `from`
      and `stop` is collected, and every new tree vertex lies on the chain
      from t2. */
  method AddPathPart(g: Graph, pd: PathsData, buff: Buffer<int>, nEdges: int, edgesVisited: array<bool>,
                     treeVertices: array<int>, nTreeVertices: int, inTree: array<bool>, from: int, stop: int,
                     ghost st: seq<nat>, ghost t1: int, ghost t2: int)
      returns (nEdges': int, nTreeVertices': int)
    requires CollectArrays(g, pd, treeVertices, inTree, edgesVisited) && buff.Valid()
    requires 0 <= nEdges <= buff.n && 0 <= nTreeVertices <= g.n
    requires PartInv(g.n, g.edges[..], g.m, pd.dist[..], pd.preEdgeIndices[..], st, t1, t2, from, stop,
                     inTree[..], buff.data[..nEdges], treeVertices[..nTreeVertices], inTree[..],
                     buff.data[..nEdges], edgesVisited[..], from)
    modifies buff, edgesVisited, treeVertices, inTree
    ensures buff.Valid() && 0 <= nEdges' <= buff.n && 0 <= nTreeVertices' <= g.n
    ensures PartInv(g.n, g.edges[..], g.m, pd.dist[..], pd.preEdgeIndices[..], st, t1, t2, from, stop,
                    old(inTree[..]), old(buff.data[..nEdges]), treeVertices[..nTreeVertices'], inTree[..],
                    buff.data[..nEdges'], edgesVisited[..], stop)
  {
    ghost var es, D, P := g.edges[..], pd.dist[..], pd.preEdgeIndices[..];
    ghost var inT0, C0 := inTree[..], buff.data[..nEdges];
    var u := from;
    nEdges', nTreeVertices' := nEdges, nTreeVertices;
    while u != NoEdge && u != stop
      invariant buff.Valid() && 0 <= nEdges' <= buff.n && 0 <= nTreeVertices' <= g.n
      invariant PartInv(g.n, es, g.m, D, P, st, t1, t2, from, stop, inT0, C0, treeVertices[..nTreeVertices'],
                        inTree[..], buff.data[..nEdges'], edgesVisited[..], u)
      decreases |PathTo(g.n, es, g.m, D, P, st, t1, u)|
    {
      ghost var TV, inT, C, vis := treeVertices[..nTreeVertices'], inTree[..], buff.data[..nEdges'], edgesVisited[..];
      ChainNext(g.n, es, g.m, D, P, st, t1, stop, u);
      var p;
      p, nEdges', nTreeVertices' := ProcessEdgeOfPath(u, g, pd, buff, nEdges', edgesVisited, treeVertices,
                                                      nTreeVertices', inTree);
      PartStep(g.n, es, g.m, D, P, st, t1, t2, from, stop, inT0, C0, TV, inT, C, vis, u,
               treeVertices[..nTreeVertices'], inTree[..], buff.data[..nEdges'], edgesVisited[..]);
      u := p;
    }
  }

  /** The first pass of collectUniqueEdges, up the chain from t2 to t1 (t1
      itself is not looked at): endOfFirstPart is the first tree vertex met
      below t2 and startOfSecondPart the last one; both stay t2 when there
      is none. The second is an ancestor of the first. */
  method FindTreeBounds(g: Graph, pd: PathsData, inTree: array<bool>, t1: int, t2: int, ghost st: seq<nat>)
      returns (endOfFirstPart: int, startOfSecondPart: int)
    requires pd.dist.Length == g.n && pd.preEdgeIndices.Length == g.n && inTree.Length == g.n
    requires FromSource(g.n, g.edges[..], g.m, pd.dist[..], pd.preEdgeIndices[..], st, t1)
    requires 0 <= t2 < g.n && pd.dist[t2].Fin?
    ensures 0 <= endOfFirstPart < g.n && pd.dist[endOfFirstPart].Fin?
    ensures 0 <= startOfSecondPart < g.n && pd.dist[startOfSecondPart].Fin?
    ensures PathTo(g.n, g.edges[..], g.m, pd.dist[..], pd.preEdgeIndices[..], st, t1, startOfSecondPart) <=
            PathTo(g.n, g.edges[..], g.m, pd.dist[..], pd.preEdgeIndices[..], st, t1, endOfFirstPart) <=
            PathTo(g.n, g.edges[..], g.m, pd.dist[..], pd.preEdgeIndices[..], st, t1, t2)
    ensures endOfFirstPart == t2 || inTree[endOfFirstPart]
    ensures startOfSecondPart == t2 || inTree[startOfSecondPart]
  {
    ghost var es, D, P := g.edges[..], pd.dist[..], pd.preEdgeIndices[..];
    PathToSource(g.n, es, g.m, D, P, st, t1);
    endOfFirstPart, startOfSecondPart := t2, t2;
    var u := t2;
    while u != NoEdge && u != t1
      invariant 0 <= u < g.n && D[u].Fin?
      invariant 0 <= endOfFirstPart < g.n && D[endOfFirstPart].Fin?
      invariant 0 <= startOfSecondPart < g.n && D[startOfSecondPart].Fin?
      invariant PathTo(g.n, es, g.m, D, P, st, t1, u) <= PathTo(g.n, es, g.m, D, P, st, t1, startOfSecondPart)
      invariant PathTo(g.n, es, g.m, D, P, st, t1, startOfSecondPart) <=
                PathTo(g.n, es, g.m, D, P, st, t1, endOfFirstPart) <= PathTo(g.n, es, g.m, D, P, st, t1, t2)
      invariant endOfFirstPart == t2 || inTree[endOfFirstPart]
      invariant startOfSecondPart == t2 || inTree[startOfSecondPart]
      decreases |PathTo(g.n, es, g.m, D, P, st, t1, u)|
    {
      ChainNext(g.n, es, g.m, D, P, st, t1, t1, u);
      var edgeI := pd.preEdgeIndices[u];
      var preEdge := g.edges[edgeI];
      if inTree[u] {
        if endOfFirstPart == t2 {
          endOfFirstPart := u;
        }
        startOfSecondPart := u;
      }
      u := GetPredecessor(u, preEdge);
    }
  }

  /** A vertex whose chain from t1 is a prefix of a collected chain is
      joined to t1 by collected edges. */
  lemma PathCollected(n: int, es: seq<Edge>, m: int, D: seq<Dist>, P: seq<int>, st: seq<nat>, t1: int,
                      t2: int, x: int, C: seq<int>)
    requires FromSource(n, es, m, D, P, st, t1) && 0 <= t2 < n && D[t2].Fin? && 0 <= x < n && D[x].Fin?
    requires PathTo(n, es, m, D, P, st, t1, x) <= PathTo(n, es, m, D, P, st, t1, t2)
    requires forall k :: k in PathTo(n, es, m, D, P, st, t1, t2) ==> k in C
    ensures Conn(es, m, C, t1, x)
  {
    var px, pt := PathTo(n, es, m, D, P, st, t1, x), PathTo(n, es, m, D, P, st, t1, t2);
    forall k | 0 <= k < |px| ensures px[k] in C {
      assert px[k] == pt[k];
    }
    assert Walk(es, m, t1, px, x) && Along(C, px);
  }

  /** What one round leaves behind: the collection and the tree flags only
      grow, t1 and t2 are joined by collected edges, and so is every newly
      flagged vertex to t1. */
  ghost predicate RoundDoneAt(n: int, es: seq<Edge>, m: int, t1: int, t2: int, inT0: seq<bool>, C0: seq<int>,
                              TV: seq<int>, inT: seq<bool>, C: seq<int>, vis: seq<bool>)
  {
    && TreeState(n, es, m, TV, inT, C, vis) && |inT0| == n
    && C0 <= C && (forall x :: 0 <= x < n && inT0[x] ==> inT[x])
    && Conn(es, m, C, t1, t2)
    && (forall x :: 0 <= x < n && inT[x] && !inT0[x] ==> Conn(es, m, C, t1, x))
  }

  /** Edges left for the second walk lie on the first one's walk. */
  lemma CollectedBoth(pt: seq<int>, ps: seq<int>, pe: seq<int>, C1: seq<int>, C2: seq<int>)
    requires ps <= pe && C1 <= C2
    requires forall k :: k in pe ==> k in C1
    requires forall k :: k in pt ==> k in C2 || k in ps
    ensures forall k :: k in pt ==> k in C2
  {
    forall k | k in pt && k in ps ensures k in C2 {
      var j :| 0 <= j < |ps| && ps[j] == k;
      assert pe[j] == k && k in pe;
      var j' :| 0 <= j' < |C1| && C1[j'] == k;
      assert C2[j'] == k;
    }
  }

  /** The two walks of one round together: every edge of the path from t1
      to t2 is collected, so t1 and t2 are joined by collected edges, and so
      is every newly flagged vertex to t1. */
  lemma CollectDone(n: int, es: seq<Edge>, m: int, D: seq<Dist>, P: seq<int>, st: seq<nat>, t1: int, t2: int,
                    e1: int, s2: int, inT0: seq<bool>, C0: seq<int>,
                    TV1: seq<int>, inT1: seq<bool>, C1: seq<int>, vis1: seq<bool>,
                    TV2: seq<int>, inT2: seq<bool>, C2: seq<int>, vis2: seq<bool>)
    requires PartInv(n, es, m, D, P, st, t1, t2, e1, t1, inT0, C0, TV1, inT1, C1, vis1, t1)
    requires PartInv(n, es, m, D, P, st, t1, t2, t2, s2, inT1, C1, TV2, inT2, C2, vis2, s2)
    requires PathTo(n, es, m, D, P, st, t1, s2) <= PathTo(n, es, m, D, P, st, t1, e1)
    ensures RoundDoneAt(n, es, m, t1, t2, inT0, C0, TV2, inT2, C2, vis2)
    ensures forall k :: k in PathTo(n, es, m, D, P, st, t1, t2) ==> k in C2
  {
    PathToSource(n, es, m, D, P, st, t1);
    var pe, ps, pt := PathTo(n, es, m, D, P, st, t1, e1), PathTo(n, es, m, D, P, st, t1, s2),
                      PathTo(n, es, m, D, P, st, t1, t2);
    CollectedBoth(pt, ps, pe, C1, C2);
    PathCollected(n, es, m, D, P, st, t1, t2, t2, C2);
    forall x | 0 <= x < n && inT2[x] && !inT0[x] ensures Conn(es, m, C2, t1, x) {
      PathCollected(n, es, m, D, P, st, t1, t2, x, C2);
    }
  }

  /** The second walk of a round, from t2 up to startOfSecondPart, after
      the first has collected everything from endOfFirstPart up to t1. */
  method CollectSecondPart(g: Graph, pd: PathsData, buff: Buffer<int>, nEdges: int, edgesVisited: array<bool>,
                           treeVertices: array<int>, nTreeVertices: int, inTree: array<bool>, t1: int, t2: int,
                           e1: int, s2: int, ghost st: seq<nat>, ghost inT0: seq<bool>, ghost C0: seq<int>)
      returns (nEdges': int, nTreeVertices': int)
    requires CollectArrays(g, pd, treeVertices, inTree, edgesVisited) && buff.Valid()
    requires 0 <= nEdges <= buff.n && 0 <= nTreeVertices <= g.n
    requires PartInv(g.n, g.edges[..], g.m, pd.dist[..], pd.preEdgeIndices[..], st, t1, t2, e1, t1, inT0, C0,
                     treeVertices[..nTreeVertices], inTree[..], buff.data[..nEdges], edgesVisited[..], t1)
    requires 0 <= s2 < g.n && pd.dist[s2].Fin?
    requires PathTo(g.n, g.edges[..], g.m, pd.dist[..], pd.preEdgeIndices[..], st, t1, s2) <=
             PathTo(g.n, g.edges[..], g.m, pd.dist[..], pd.preEdgeIndices[..], st, t1, e1)
    modifies buff, edgesVisited, treeVertices, inTree
    ensures buff.Valid() && 0 <= nEdges' <= buff.n && 0 <= nTreeVertices' <= g.n
    ensures RoundDoneAt(g.n, g.edges[..], g.m, t1, t2, inT0, C0,
                        treeVertices[..nTreeVertices'], inTree[..], buff.data[..nEdges'], edgesVisited[..])
    ensures forall k :: k in PathTo(g.n, g.edges[..], g.m, pd.dist[..], pd.preEdgeIndices[..], st, t1, t2) ==>
      k in buff.data[..nEdges']
  {
    ghost var es, D, P := g.edges[..], pd.dist[..], pd.preEdgeIndices[..];
    ghost var TV1, inT1, C1, vis1 := treeVertices[..nTreeVertices], inTree[..], buff.data[..nEdges],
                                     edgesVisited[..];
    PartStart(g.n, es, g.m, D, P, st, t1, t2, t2, s2, TV1, inT1, C1, vis1);
    nEdges', nTreeVertices' := AddPathPart(g, pd, buff, nEdges, edgesVisited, treeVertices, nTreeVertices,
                                           inTree, t2, s2, st, t1, t2);
    CollectDone(g.n, es, g.m, D, P, st, t1, t2, e1, s2, inT0, C0, TV1, inT1, C1, vis1,
                treeVertices[..nTreeVertices'], inTree[..], buff.data[..nEdges'], edgesVisited[..]);
  }

  /** One round of collectUniqueEdges after the shortest-path tree from t1
      is known. The first walk goes from the tree vertex nearest t2 up to t1,
      the second from t2 up to the tree vertex nearest t1, so together they
      collect every edge of the path from t1 to t2, the stretch between the
      two tree vertices included. */
  method CollectPath(g: Graph, pd: PathsData, buff: Buffer<int>, nEdges: int, edgesVisited: array<bool>,
                     treeVertices: array<int>, nTreeVertices: int, inTree: array<bool>, t1: int, t2: int,
                     ghost st: seq<nat>)
      returns (nEdges': int, nTreeVertices': int)
    requires CollectArrays(g, pd, treeVertices, inTree, edgesVisited) && buff.Valid()
    requires 0 <= nEdges <= buff.n && 0 <= nTreeVertices <= g.n
    requires FromSource(g.n, g.edges[..], g.m, pd.dist[..], pd.preEdgeIndices[..], st, t1)
    requires 0 <= t2 < g.n && pd.dist[t2].Fin?
    requires TreeState(g.n, g.edges[..], g.m, treeVertices[..nTreeVertices], inTree[..], buff.data[..nEdges],
                       edgesVisited[..])
    modifies buff, edgesVisited, treeVertices, inTree
    ensures buff.Valid() && 0 <= nEdges' <= buff.n && 0 <= nTreeVertices' <= g.n
    ensures RoundDoneAt(g.n, g.edges[..], g.m, t1, t2, old(inTree[..]), old(buff.data[..nEdges]),
                        treeVertices[..nTreeVertices'], inTree[..], buff.data[..nEdges'], edgesVisited[..])
    ensures forall k :: k in PathTo(g.n, g.edges[..], g.m, pd.dist[..], pd.preEdgeIndices[..], st, t1, t2) ==>
      k in buff.data[..nEdges']
  {
    ghost var es, D, P := g.edges[..], pd.dist[..], pd.preEdgeIndices[..];
    ghost var inT0, C0 := inTree[..], buff.data[..nEdges];
    PathToSource(g.n, es, g.m, D, P, st, t1);
    var e1, s2 := FindTreeBounds(g, pd, inTree, t1, t2, st);
    PartStart(g.n, es, g.m, D, P, st, t1, t2, e1, t1, treeVertices[..nTreeVertices], inT0, C0, edgesVisited[..]);
    nEdges', nTreeVertices' := AddPathPart(g, pd, buff, nEdges, edgesVisited, treeVertices, nTreeVertices,
                                           inTree, e1, t1, st, t1, t2);
    nEdges', nTreeVertices' := CollectSecondPart(g, pd, buff, nEdges', edgesVisited, treeVertices, nTreeVertices',
                                                 inTree, t1, t2, e1, s2, st, inT0, C0);
  }

  // ---------------------------------------------------------------------
  // collectUniqueEdges: expanding the closure tree into paths of g

  /** Closure edge k joins two terminal positions whose terminals are
      connected in g. */
  ghost predicate ClosureEdgeAt(es: seq<Edge>, m: int, terms: seq<int>, CE: seq<Edge>, k: int)
    requires m <= |es|
  {
    0 <= k < |CE| && 0 <= CE[k].v < |terms| && 0 <= CE[k].w < |terms| &&
    Reachable(es, m, terms[CE[k].v], terms[CE[k].w])
  }

  /** Every closure-tree entry after the root's names such a closure edge. */
  ghost predicate ClosureTreeOK(es: seq<Edge>, m: int, terms: seq<int>, CE: seq<Edge>, cm: seq<int>)
    requires m <= |es|
  {
    forall c :: 1 <= c < |cm| ==> ClosureEdgeAt(es, m, terms, CE, cm[c])
  }

  /** The closure-tree edges 1..i-1 are joined by collected edges of g. */
  ghost predicate JoinedUpTo(es: seq<Edge>, m: int, terms: seq<int>, CE: seq<Edge>, cm: seq<int>, C: seq<int>,
                             i: int)
    requires m <= |es| && ClosureTreeOK(es, m, terms, CE, cm)
  {
    forall c :: 1 <= c < i && c < |cm| ==> Conn(es, m, C, terms[CE[cm[c]].v], terms[CE[cm[c]].w])
  }

  /** Every tree vertex is joined to some terminal by collected edges. */
  ghost predicate Rooted(n: int, es: seq<Edge>, m: int, terms: seq<int>, inT: seq<bool>, C: seq<int>)
    requires m <= |es| && |inT| == n
  {
    forall x :: 0 <= x < n && inT[x] ==> exists j :: 0 <= j < |terms| && Conn(es, m, C, terms[j], x)
  }

  /** The state between rounds of collectUniqueEdges, before entry i. */
  ghost predicate CollectInv(n: int, es: seq<Edge>, m: int, terms: seq<int>, CE: seq<Edge>, cm: seq<int>,
                             TV: seq<int>, inT: seq<bool>, C: seq<int>, vis: seq<bool>, i: int)
  {
    && TreeState(n, es, m, TV, inT, C, vis) && ClosureTreeOK(es, m, terms, CE, cm)
    && Rooted(n, es, m, terms, inT, C) && JoinedUpTo(es, m, terms, CE, cm, C, i)
  }

  /** A round for closure-tree edge i keeps every tree vertex rooted and
      joins edge i. */
  lemma CollectStep(n: int, es: seq<Edge>, m: int, terms: seq<int>, CE: seq<Edge>, cm: seq<int>, i: int,
                    TV: seq<int>, inT: seq<bool>, C: seq<int>, vis: seq<bool>, TV': seq<int>, inT': seq<bool>, C': seq<int>, vis': seq<bool>)
    requires 1 <= i < |cm| && CollectInv(n, es, m, terms, CE, cm, TV, inT, C, vis, i)
    requires RoundDoneAt(n, es, m, terms[CE[cm[i]].v], terms[CE[cm[i]].w], inT, C, TV', inT', C', vis')
    ensures CollectInv(n, es, m, terms, CE, cm, TV', inT', C', vis', i + 1)
  {
    assert ClosureEdgeAt(es, m, terms, CE, cm[i]);
    var a, b := terms[CE[cm[i]].v], terms[CE[cm[i]].w];
    forall x | 0 <= x < n && inT'[x] ensures exists j :: 0 <= j < |terms| && Conn(es, m, C', terms[j], x) {
      if inT[x] {
        var j :| 0 <= j < |terms| && Conn(es, m, C, terms[j], x);
        ConnPrefix(es, m, C, C', terms[j], x);
      } else {
        assert Conn(es, m, C', a, x);
      }
    }
    forall c | 1 <= c < i + 1 && c < |cm| ensures Conn(es, m, C', terms[CE[cm[c]].v], terms[CE[cm[c]].w]) {
      if c < i {
        ConnPrefix(es, m, C, C', terms[CE[cm[c]].v], terms[CE[cm[c]].w]);
      }
    }
  }

  /** Listing more edges after the collected ones keeps every connection. */
  lemma ConnPrefix(es: seq<Edge>, m: int, C: seq<int>, C': seq<int>, a: int, b: int)
    requires m <= |es| && Conn(es, m, C, a, b) && C <= C'
    ensures Conn(es, m, C', a, b)
  {
    forall k | k in C ensures k in C' {
      var j :| 0 <= j < |C| && C[j] == k;
      assert C'[j] == k;
    }
    ConnGrow(es, m, C, C', a, b);
  }

  /** Recompute the shortest-path tree when the source changes; the last
      one is reused when it is from t1 already. */
  method SourceTree(g: Graph, pathsData: PathsData, t1: int, lastSource: int, ghost st: seq<nat>)
      returns (lastSource': int, ghost st': seq<nat>)
    requires g.Built() && 0 <= t1 < g.n
    requires pathsData.dist.Length == g.n && pathsData.preEdgeIndices.Length == g.n
    requires lastSource == NoEdge ||
             FromSource(g.n, g.edges[..], g.m, pathsData.dist[..], pathsData.preEdgeIndices[..], st, lastSource)
    modifies pathsData.dist, pathsData.preEdgeIndices
    ensures lastSource' == t1
    ensures FromSource(g.n, g.edges[..], g.m, pathsData.dist[..], pathsData.preEdgeIndices[..], st', t1)
  {
    lastSource', st' := lastSource, st;
    if t1 != lastSource {
      CleanPathsData(pathsData, g.n);
      st' := Dijkstra(t1, pathsData, g);
      lastSource' := t1;
    }
  }

  /** Collect the path joining terminals t1 and t2, reusing the last
      shortest-path tree when it is from t1 already. */
  method CollectEdge(g: Graph, pathsData: PathsData, buff: Buffer<int>, nEdges: int, edgesVisited: array<bool>,
                     treeVertices: array<int>, nTreeVertices: int, inTree: array<bool>, t1: int, t2: int,
                     lastSource: int, ghost st: seq<nat>)
      returns (nEdges': int, nTreeVertices': int, lastSource': int, ghost st': seq<nat>)
    requires g.Built() && CollectArrays(g, pathsData, treeVertices, inTree, edgesVisited) && buff.Valid()
    requires 0 <= nEdges <= buff.n && 0 <= nTreeVertices <= g.n
    requires 0 <= t1 < g.n && 0 <= t2 < g.n && Reachable(g.edges[..], g.m, t1, t2)
    requires lastSource == NoEdge ||
             FromSource(g.n, g.edges[..], g.m, pathsData.dist[..], pathsData.preEdgeIndices[..], st, lastSource)
    requires TreeState(g.n, g.edges[..], g.m, treeVertices[..nTreeVertices], inTree[..], buff.data[..nEdges],
                       edgesVisited[..])
    modifies pathsData.dist, pathsData.preEdgeIndices, buff, edgesVisited, treeVertices, inTree
    ensures buff.Valid() && 0 <= nEdges' <= buff.n && 0 <= nTreeVertices' <= g.n
    ensures FromSource(g.n, g.edges[..], g.m, pathsData.dist[..], pathsData.preEdgeIndices[..], st', lastSource')
    ensures RoundDoneAt(g.n, g.edges[..], g.m, t1, t2, old(inTree[..]), old(buff.data[..nEdges]),
                        treeVertices[..nTreeVertices'], inTree[..], buff.data[..nEdges'], edgesVisited[..])
    ensures lastSource' == t1 && forall k ::
      k in PathTo(g.n, g.edges[..], g.m, pathsData.dist[..], pathsData.preEdgeIndices[..], st', t1, t2) ==>
        k in buff.data[..nEdges']
  {
    ghost var es, TV, inT, C, vis := g.edges[..], treeVertices[..nTreeVertices], inTree[..], buff.data[..nEdges],
                                     edgesVisited[..];
    lastSource', st' := SourceTree(g, pathsData, t1, lastSource, st);
    ReachedFin(g.n, es, g.m, pathsData.dist[..], pathsData.preEdgeIndices[..], st', t1, t2);
    assert g.edges[..] == es && buff.data[..nEdges] == C && inTree[..] == inT && edgesVisited[..] == vis;
    nEdges', nTreeVertices' := CollectPath(g, pathsData, buff, nEdges, edgesVisited, treeVertices, nTreeVertices,
                                           inTree, t1, t2, st');
  }

  /** The body of collectUniqueEdges' loop for closure-tree entry i: a
      fresh shortest-path tree from t1 unless t1 was the last source, then
      the round that collects t2's path. */
  method CollectRound(g: Graph, closure: Graph, terminals: seq<int>, closureMSTindices: array<int>,
                      nClosure: int, i: int,
                      pathsData: PathsData, buff: Buffer<int>, nEdges: int, treeVertices: array<int>,
                      inTree: array<bool>, nTreeVertices: int, edgesVisited: array<bool>, lastSource: int,
                      ghost st: seq<nat>)
      returns (nEdges': int, nTreeVertices': int, lastSource': int, ghost st': seq<nat>)
    requires g.Built() && CollectArrays(g, pathsData, treeVertices, inTree, edgesVisited) && buff.Valid()
    requires 0 <= nEdges <= buff.n && 0 <= nTreeVertices <= g.n && InRange(terminals, g.n)
    requires 1 <= i < nClosure <= closureMSTindices.Length
    requires closureMSTindices != pathsData.preEdgeIndices && closureMSTindices != treeVertices
    requires lastSource == NoEdge ||
             FromSource(g.n, g.edges[..], g.m, pathsData.dist[..], pathsData.preEdgeIndices[..], st, lastSource)
    requires CollectInv(g.n, g.edges[..], g.m, terminals, closure.edges[..], closureMSTindices[..nClosure],
                        treeVertices[..nTreeVertices], inTree[..], buff.data[..nEdges], edgesVisited[..], i)
    modifies pathsData.dist, pathsData.preEdgeIndices, buff, edgesVisited, treeVertices, inTree
    ensures buff.Valid() && 0 <= nEdges' <= buff.n && 0 <= nTreeVertices' <= g.n
    ensures FromSource(g.n, g.edges[..], g.m, pathsData.dist[..], pathsData.preEdgeIndices[..], st', lastSource')
    ensures CollectInv(g.n, g.edges[..], g.m, terminals, closure.edges[..], closureMSTindices[..nClosure],
                       treeVertices[..nTreeVertices'], inTree[..], buff.data[..nEdges'], edgesVisited[..], i + 1)
  {
    ghost var es, CE, cm := g.edges[..], closure.edges[..], closureMSTindices[..nClosure];
    ghost var TV, inT, C, vis := treeVertices[..nTreeVertices], inTree[..], buff.data[..nEdges], edgesVisited[..];
    assert ClosureEdgeAt(es, g.m, terminals, CE, cm[i]);
    var closureEdgeI := closureMSTindices[i];
    var closureEdge := closure.edges[closureEdgeI];
    var t1 := terminals[closureEdge.v];
    var t2 := terminals[closureEdge.w];
    nEdges', nTreeVertices', lastSource', st' := CollectEdge(g, pathsData, buff, nEdges, edgesVisited, treeVertices,
                                                             nTreeVertices, inTree, t1, t2, lastSource, st);
    assert closure.edges[..] == CE && closureMSTindices[..nClosure] == cm && g.edges[..] == es;
    CollectStep(g.n, es, g.m, terminals, CE, cm, i, TV, inT, C, vis, treeVertices[..nTreeVertices'], inTree[..],
                buff.data[..nEdges'], edgesVisited[..]);
  }

  /** collectUniqueEdges: expand closure-tree entries 1..nClosure-1 in
      turn. Afterwards every closure-tree edge is joined by collected edges
      and every tree vertex is joined to a terminal. */
  method CollectUniqueEdges(g: Graph, closure: Graph, terminals: seq<int>, closureMSTindices: array<int>,
                            nClosure: int, pathsData: PathsData, buff: Buffer<int>, nEdges: int,
                            treeVertices: array<int>, inTree: array<bool>, nTreeVertices: int,
                            edgesVisited: array<bool>)
      returns (nEdges': int, nTreeVertices': int)
    requires g.Built() && CollectArrays(g, pathsData, treeVertices, inTree, edgesVisited) && buff.Valid()
    requires 0 <= nEdges <= buff.n && 0 <= nTreeVertices <= g.n && InRange(terminals, g.n)
    requires 0 <= nClosure <= closureMSTindices.Length
    requires closureMSTindices != pathsData.preEdgeIndices && closureMSTindices != treeVertices
    requires ClosureTreeOK(g.edges[..], g.m, terminals, closure.edges[..], closureMSTindices[..nClosure])
    requires TreeState(g.n, g.edges[..], g.m, treeVertices[..nTreeVertices], inTree[..], buff.data[..nEdges],
                       edgesVisited[..])
    requires Rooted(g.n, g.edges[..], g.m, terminals, inTree[..], buff.data[..nEdges])
    modifies pathsData.dist, pathsData.preEdgeIndices, buff, edgesVisited, treeVertices, inTree
    ensures buff.Valid() && 0 <= nEdges' <= buff.n && 0 <= nTreeVertices' <= g.n
    ensures TreeState(g.n, g.edges[..], g.m, treeVertices[..nTreeVertices'], inTree[..], buff.data[..nEdges'],
                      edgesVisited[..])
    ensures Rooted(g.n, g.edges[..], g.m, terminals, inTree[..], buff.data[..nEdges'])
    ensures JoinedUpTo(g.edges[..], g.m, terminals, closure.edges[..], closureMSTindices[..nClosure],
                       buff.data[..nEdges'], nClosure)
  {
    ghost var es, CE, cm := g.edges[..], closure.edges[..], closureMSTindices[..nClosure];
    var lastSource := NoEdge;
    ghost var st: seq<nat> := [];
    nEdges', nTreeVertices' := nEdges, nTreeVertices;
    var i := 1;
    while i < nClosure
      invariant 1 <= i && (1 <= nClosure ==> i <= nClosure)
      invariant buff.Valid() && 0 <= nEdges' <= buff.n && 0 <= nTreeVertices' <= g.n
      invariant lastSource == NoEdge ||
                FromSource(g.n, es, g.m, pathsData.dist[..], pathsData.preEdgeIndices[..], st, lastSource)
      invariant CollectInv(g.n, es, g.m, terminals, CE, cm, treeVertices[..nTreeVertices'], inTree[..],
                           buff.data[..nEdges'], edgesVisited[..], i)
    {
      nEdges', nTreeVertices', lastSource, st := CollectRound(g, closure, terminals, closureMSTindices, nClosure,
                                                              i, pathsData, buff, nEdges', treeVertices, inTree,
                                                              nTreeVertices', edgesVisited, lastSource, st);
      i := i + 1;
    }
  }

  // ---------------------------------------------------------------------
  // createMetricClosure: the complete graph of shortest distances

  /** d is the length of a shortest walk from a to b. */
  ghost predicate IsDistance(es: seq<Edge>, m: int, a: int, b: int, d: nat)
    requires m <= |es|
  {
    && (exists path :: Walk(es, m, a, path, b) && Cost(es, path) == d)
    && (forall path :: Walk(es, m, a, path, b) ==> d <= Cost(es, path))
  }

  /** What Dijkstra's distances from s mean: a finite one is the distance,
      an infinite one says there is no walk. */
  lemma DistanceOf(n: int, es: seq<Edge>, m: int, D: seq<Dist>, P: seq<int>, st: seq<nat>, s: int, x: int)
    requires FromSource(n, es, m, D, P, st, s) && 0 <= x < n
    ensures D[x].Fin? ==> IsDistance(es, m, s, x, D[x].d)
    ensures D[x] == Inf <==> !Reachable(es, m, s, x)
  {
    assert s in [s];
    if D[x].Fin? {
      var path := PathTo(n, es, m, D, P, st, s, x);
      assert Walk(es, m, s, path, x) && Cost(es, path) == D[x].d;
    }
  }

  /** A closure edge between terminal positions v < w whose cost is the
      distance between their terminals. */
  ghost predicate ClosureEdgeOK(es: seq<Edge>, m: int, terms: seq<int>, e: Edge)
    requires m <= |es|
  {
    0 <= e.v < e.w < |terms| && IsDistance(es, m, terms[e.v], terms[e.w], e.cost)
  }

  /** The closure's edge slots: nE closure edges, zeroed slots after them,
      and an edge for every pair of terminals that are connected. */
  ghost predicate MetricClosure(es: seq<Edge>, m: int, terms: seq<int>, CE: seq<Edge>, nE: int)
    requires m <= |es|
  {
    && 0 <= nE <= |CE|
    && (forall k :: 0 <= k < nE ==> ClosureEdgeOK(es, m, terms, CE[k]))
    && (forall k :: nE <= k < |CE| ==> CE[k] == Edge(0, 0, 0))
    && (forall i, j :: 0 <= i < j < |terms| && Reachable(es, m, terms[i], terms[j]) ==>
          exists k :: 0 <= k < nE && CE[k].v == i && CE[k].w == j)
  }

  /** One closure row: from terminal position i, an edge to every later
      position whose terminal is reachable, in increasing order. */
  method ClosureRow(g: Graph, terminals: seq<int>, i: int, pd: PathsData, buff: seq<Edge>)
      returns (buff': seq<Edge>)
    requires g.Built() && InRange(terminals, g.n) && 0 <= i < |terminals|
    requires pd.dist.Length == g.n && pd.preEdgeIndices.Length == g.n
    requires IsClean(pd.dist[..], pd.preEdgeIndices[..])
    modifies pd.dist, pd.preEdgeIndices
    ensures IsClean(pd.dist[..], pd.preEdgeIndices[..])
    ensures buff <= buff' && |buff'| <= |buff| + |terminals| - 1 - i
    ensures forall k :: |buff| <= k < |buff'| ==>
      buff'[k].v == i && ClosureEdgeOK(g.edges[..], g.m, terminals, buff'[k])
    ensures forall j :: i < j < |terminals| && Reachable(g.edges[..], g.m, terminals[i], terminals[j]) ==>
      exists k :: |buff| <= k < |buff'| && buff'[k].v == i && buff'[k].w == j
  {
    ghost var es := g.edges[..];
    var v := terminals[i];
    ghost var st := Dijkstra(v, pd, g);
    ghost var D, P := pd.dist[..], pd.preEdgeIndices[..];
    buff' := buff;
    for j := i + 1 to |terminals|
      invariant pd.dist[..] == D && pd.preEdgeIndices[..] == P
      invariant buff <= buff' && |buff'| <= |buff| + j - 1 - i
      invariant forall k :: |buff| <= k < |buff'| ==> buff'[k].v == i && ClosureEdgeOK(es, g.m, terminals, buff'[k])
      invariant forall j' :: i < j' < j && Reachable(es, g.m, terminals[i], terminals[j']) ==>
        exists k :: |buff| <= k < |buff'| && buff'[k].v == i && buff'[k].w == j'
    {
      var w := terminals[j];
      DistanceOf(g.n, es, g.m, D, P, st, v, w);
      ghost var prev := buff';
      if pd.dist[w] != Inf {
        buff' := buff' + [Edge(i, j, pd.dist[w].d)];
      }
      ghost var next := j + 1;
      forall j' | i < j' < next && Reachable(es, g.m, terminals[i], terminals[j'])
        ensures exists k :: |buff| <= k < |buff'| && buff'[k].v == i && buff'[k].w == j'
      {
        if j' < j {
          var k :| |buff| <= k < |prev| && prev[k].v == i && prev[k].w == j';
          assert buff'[k] == prev[k];
        } else {
          assert buff'[|buff'| - 1].w == j;
        }
      }
    }
    CleanPathsData(pd, g.n);
  }

  /** The worker buffers one after the other. */
  function Flatten(bs: seq<seq<Edge>>): seq<Edge>
  {
    if bs == [] then [] else Flatten(bs[..|bs| - 1]) + bs[|bs| - 1]
  }

  /** An entry is flattened exactly when some buffer holds it. */
  lemma {:induction false} FlattenMember(bs: seq<seq<Edge>>)
    ensures forall x :: x in Flatten(bs) <==> exists w :: 0 <= w < |bs| && x in bs[w]
  {
    if bs != [] {
      FlattenMember(bs[..|bs| - 1]);
      assert forall w :: 0 <= w < |bs| - 1 ==> bs[..|bs| - 1][w] == bs[w];
    }
  }

  /** Appending to one buffer adds as much to the flattened length. */
  lemma {:induction false} FlattenAppendLen(bs: seq<seq<Edge>>, w: int, r: seq<Edge>)
    requires 0 <= w < |bs|
    ensures |Flatten(bs[w := bs[w] + r])| == |Flatten(bs)| + |r|
    decreases |bs|
  {
    var bs' := bs[w := bs[w] + r];
    var last := |bs| - 1;
    assert bs'[..last] == if w < last then bs[..last][w := bs[w] + r] else bs[..last];
    if w < last {
      FlattenAppendLen(bs[..last], w, r);
    }
  }

  /** Rows 0..i-1 hold at most (t-1) + (t-2) + ... entries. */
  function TriSum(t: int, i: int): int
    decreases i
  {
    if i <= 0 then 0 else TriSum(t, i - 1) + (t - i)
  }

  lemma {:induction false} TriSumClosed(t: int, i: int)
    requires 0 <= i
    ensures 2 * TriSum(t, i) == i * (2 * t - i - 1)
  {
    if i > 0 {
      TriSumClosed(t, i - 1);
      calc {
        2 * TriSum(t, i);
        2 * TriSum(t, i - 1) + 2 * (t - i);
        (i - 1) * (2 * t - i) + 2 * (t - i);
        i * (2 * t - i - 1);
      }
    }
  }

  /** The rows 0..i-1 are in the worker buffers: every buffered entry is a
      closure edge from an earlier row, and row i' sits in the buffer of
      its worker schedule[i'], with an entry for every reachable pair. */
  ghost predicate RowsDone(es: seq<Edge>, m: int, terms: seq<int>, schedule: seq<int>, bs: seq<seq<Edge>>, i: int)
    requires m <= |es|
  {
    && 0 <= i && (i <= |schedule| || i == 0)
    && (forall i' :: 0 <= i' < i ==> 0 <= schedule[i'] < |bs|)
    && (forall w, k :: 0 <= w < |bs| && 0 <= k < |bs[w]| ==> ClosureEdgeOK(es, m, terms, bs[w][k]) && bs[w][k].v < i)
    && (forall i', j :: 0 <= i' < i && i' < j < |terms| && Reachable(es, m, terms[i'], terms[j]) ==>
          exists k :: 0 <= k < |bs[schedule[i']]| && bs[schedule[i']][k].v == i' && bs[schedule[i']][k].w == j)
  }

  /** Appending row i to its worker's buffer. */
  lemma RowsStep(es: seq<Edge>, m: int, terms: seq<int>, schedule: seq<int>, bs: seq<seq<Edge>>, i: int,
                 row: seq<Edge>)
    requires m <= |es| && RowsDone(es, m, terms, schedule, bs, i) && i < |schedule| && 0 <= schedule[i] < |bs|
    requires bs[schedule[i]] <= row
    requires forall k :: |bs[schedule[i]]| <= k < |row| ==> row[k].v == i && ClosureEdgeOK(es, m, terms, row[k])
    requires forall j :: i < j < |terms| && Reachable(es, m, terms[i], terms[j]) ==>
      exists k :: |bs[schedule[i]]| <= k < |row| && row[k].v == i && row[k].w == j
    ensures RowsDone(es, m, terms, schedule, bs[schedule[i] := row], i + 1)
  {
    var w0 := schedule[i];
    var bs': seq<seq<Edge>> := bs[w0 := row];
    forall w, k | 0 <= w < |bs'| && 0 <= k < |bs'[w]|
      ensures ClosureEdgeOK(es, m, terms, bs'[w][k]) && bs'[w][k].v < i + 1
    {
      if w != w0 {
        assert bs'[w] == bs[w];
      } else if k < |bs[w0]| {
        assert bs'[w][k] == bs[w0][k];
      }
    }
    forall i', j | 0 <= i' < i + 1 && i' < j < |terms| && Reachable(es, m, terms[i'], terms[j])
      ensures exists k :: 0 <= k < |bs'[schedule[i']]| && bs'[schedule[i']][k].v == i' && bs'[schedule[i']][k].w == j
    {
      if i' < i {
        var b := bs[schedule[i']];
        var k :| 0 <= k < |b| && b[k].v == i' && b[k].w == j;
        assert bs'[schedule[i']][k] == b[k];
      } else {
        var k :| |bs[w0]| <= k < |row| && row[k].v == i && row[k].w == j;
        assert bs'[schedule[i']] == row;
      }
    }
  }

  /** The closure's slots after the edges of L were added in order. */
  ghost predicate ClosureSlots(n: int, vs: seq<Vertex>, CE: seq<Edge>, L: seq<Edge>)
  {
    && |L| <= |CE| && WFUpTo(n, vs, CE, |L|) && SymUpTo(n, vs, CE, |L|) && NoDup(vs, CE)
    && CE[..|L|] == L && (forall k :: |L| <= k < |CE| ==> CE[k] == Edge(0, 0, 0))
  }

  /** addEdge of one buffered closure edge into the next slot. */
  method MergeEdge(closure: Graph, e: Edge, nEdges: int, ghost L: seq<Edge>)
    requires closure.Valid() && nEdges == |L| < closure.edges.Length
    requires ClosureSlots(closure.n, closure.vertices[..], closure.edges[..], L)
    requires 0 <= e.v < closure.n && 0 <= e.w < closure.n
    modifies closure.vertices, closure.edges
    ensures closure.Valid() && ClosureSlots(closure.n, closure.vertices[..], closure.edges[..], L + [e])
  {
    ghost var vs, CE := closure.vertices[..], closure.edges[..];
    closure.AddEdge(e.v, e.w, e.cost, nEdges);
    AddEdgeKeepsShape(closure.n, vs, CE, closure.vertices[..], closure.edges[..], e.v, e.w, e.cost, nEdges);
    assert closure.edges[..nEdges + 1] == CE[..nEdges] + [e];
  }

  lemma {:induction false} FlattenPrefixLen(bs: seq<seq<Edge>>, k: int)
    requires 0 <= k <= |bs|
    ensures |Flatten(bs[..k])| <= |Flatten(bs)|
    decreases |bs| - k
  {
    if k < |bs| {
      FlattenPrefixLen(bs, k + 1);
      assert bs[..k + 1][..k] == bs[..k];
    } else {
      assert bs[..k] == bs;
    }
  }

  /** The inner merge loop: one worker's buffer into the next slots. */
  method MergeBuffer(closure: Graph, edges: seq<Edge>, nEdges: int, ghost F: seq<Edge>) returns (nEdges': int)
    requires closure.Valid() && nEdges == |F| && |F| + |edges| <= closure.edges.Length
    requires ClosureSlots(closure.n, closure.vertices[..], closure.edges[..], F)
    requires forall k :: 0 <= k < |edges| ==> 0 <= edges[k].v < closure.n && 0 <= edges[k].w < closure.n
    modifies closure.vertices, closure.edges
    ensures closure.Valid() && nEdges' == |F| + |edges|
    ensures ClosureSlots(closure.n, closure.vertices[..], closure.edges[..], F + edges)
  {
    nEdges' := nEdges;
    for i := 0 to |edges|
      invariant closure.Valid() && nEdges' == |F| + i
      invariant ClosureSlots(closure.n, closure.vertices[..], closure.edges[..], F + edges[..i])
    {
      MergeEdge(closure, edges[i], nEdges', F + edges[..i]);
      assert F + edges[..i] + [edges[i]] == F + edges[..i + 1];
      nEdges' := nEdges' + 1;
    }
    assert edges[..|edges|] == edges;
  }

  /** The merge loop of createMetricClosure: the buffers' edges, worker by
      worker, go into slots 0, 1, 2, ... */
  method MergeClosureEdges(closure: Graph, tBuffs: seq<seq<Edge>>) returns (ghost nE: int)
    requires closure.Valid() && ClosureSlots(closure.n, closure.vertices[..], closure.edges[..], [])
    requires |Flatten(tBuffs)| <= closure.edges.Length
    requires forall w, k :: 0 <= w < |tBuffs| && 0 <= k < |tBuffs[w]| ==>
      0 <= tBuffs[w][k].v < closure.n && 0 <= tBuffs[w][k].w < closure.n
    modifies closure.vertices, closure.edges
    ensures closure.Valid() && ClosureSlots(closure.n, closure.vertices[..], closure.edges[..], Flatten(tBuffs))
    ensures nE == |Flatten(tBuffs)|
  {
    var nEdges := 0;
    for t := 0 to |tBuffs|
      invariant closure.Valid() && nEdges == |Flatten(tBuffs[..t])|
      invariant ClosureSlots(closure.n, closure.vertices[..], closure.edges[..], Flatten(tBuffs[..t]))
    {
      assert tBuffs[..t + 1][..t] == tBuffs[..t];
      assert Flatten(tBuffs[..t + 1]) == Flatten(tBuffs[..t]) + tBuffs[t];
      FlattenPrefixLen(tBuffs, t + 1);
      nEdges := MergeBuffer(closure, tBuffs[t], nEdges, Flatten(tBuffs[..t]));
    }
    assert tBuffs[..|tBuffs|] == tBuffs;
    nE := nEdges;
  }

  /** The merged rows make the metric closure. */
  lemma ClosureFromRows(es: seq<Edge>, m: int, terms: seq<int>, schedule: seq<int>, bs: seq<seq<Edge>>, i: int,
                        CE: seq<Edge>, nE: int)
    requires m <= |es| && RowsDone(es, m, terms, schedule, bs, i) && |terms| - 1 <= i
    requires nE == |Flatten(bs)| <= |CE| && CE[..nE] == Flatten(bs)
    requires forall k :: nE <= k < |CE| ==> CE[k] == Edge(0, 0, 0)
    ensures MetricClosure(es, m, terms, CE, nE)
  {
    var F := Flatten(bs);
    FlattenMember(bs);
    forall k | 0 <= k < nE ensures ClosureEdgeOK(es, m, terms, CE[k]) {
      assert CE[k] == F[k] && F[k] in F;
      var w :| 0 <= w < |bs| && F[k] in bs[w];
      var k' :| 0 <= k' < |bs[w]| && bs[w][k'] == F[k];
    }
    forall i', j | 0 <= i' < j < |terms| && Reachable(es, m, terms[i'], terms[j])
      ensures exists k :: 0 <= k < nE && CE[k].v == i' && CE[k].w == j
    {
      var b := bs[schedule[i']];
      var k' :| 0 <= k' < |b| && b[k'].v == i' && b[k'].w == j;
      assert b[k'] in F;
      var k :| 0 <= k < |F| && F[k] == b[k'];
      assert CE[k] == F[k];
    }
  }

  /** The n(n-1)/2 edge slots of the closure hold all rows. */
  lemma PairSlots(t: nat)
    ensures 0 <= t * (t - 1) / 2 == TriSum(t, t - 1)
  {
    if t >= 1 {
      TriSumClosed(t, t - 1);
    }
  }

  lemma FlattenEmpty(bs: seq<seq<Edge>>)
    requires forall w :: 0 <= w < |bs| ==> bs[w] == []
    ensures Flatten(bs) == []
  {
  }

  /** The loop state of createMetricClosure's parallel loop after rows
      0..i-1: those rows are buffered, in at most TriSum(t, i) entries. */
  ghost predicate RowsState(es: seq<Edge>, m: int, terms: seq<int>, schedule: seq<int>, bs: seq<seq<Edge>>, i: int)
    requires m <= |es|
  {
    RowsDone(es, m, terms, schedule, bs, i) && |Flatten(bs)| <= TriSum(|terms|, i)
  }

  /** Everything createMetricClosure's parallel loop keeps: the graph is
      untouched, the shortest-path data is clean, and rows 0..i-1 are done. */
  ghost predicate RowsLoop(g: Graph, es: seq<Edge>, terms: seq<int>, schedule: seq<int>, pd: PathsData,
                           bs: seq<seq<Edge>>, i: int)
    reads g, g.vertices, g.edges, pd, pd.dist, pd.preEdgeIndices
  {
    && g.Built() && es == g.edges[..] && InRange(terms, g.n)
    && |terms| - 1 <= |schedule| && (forall k :: 0 <= k < |schedule| ==> 0 <= schedule[k] < |bs|)
    && pd.dist.Length == g.n && pd.preEdgeIndices.Length == g.n && IsClean(pd.dist[..], pd.preEdgeIndices[..])
    && 0 <= i && (i == 0 || i <= |terms| - 1)
    && RowsState(es, g.m, terms, schedule, bs, i)
  }

  /** Before the first row every buffer is empty. */
  lemma RowsStart(es: seq<Edge>, m: int, terms: seq<int>, schedule: seq<int>, bs: seq<seq<Edge>>)
    requires m <= |es| && forall w :: 0 <= w < |bs| ==> bs[w] == []
    ensures RowsState(es, m, terms, schedule, bs, 0)
  {
    FlattenEmpty(bs);
  }

  /** One iteration of createMetricClosure's parallel loop: worker
      schedule[i] computes row i and appends it to its own buffer. */
  method ClosureRowOf(g: Graph, ghost es: seq<Edge>, terminals: seq<int>, schedule: seq<int>, i: int,
                      pd: PathsData, tBuffs: seq<seq<Edge>>)
      returns (tBuffs': seq<seq<Edge>>)
    requires RowsLoop(g, es, terminals, schedule, pd, tBuffs, i) && i < |terminals| - 1
    modifies pd.dist, pd.preEdgeIndices
    ensures |tBuffs'| == |tBuffs| && RowsLoop(g, es, terminals, schedule, pd, tBuffs', i + 1)
  {
    var tID := schedule[i];
    var row := ClosureRow(g, terminals, i, pd, tBuffs[tID]);
    FlattenAppendLen(tBuffs, tID, row[|tBuffs[tID]|..]);
    assert tBuffs[tID] + row[|tBuffs[tID]|..] == row;
    RowsStep(es, g.m, terminals, schedule, tBuffs, i, row);
    tBuffs' := tBuffs[tID := row];
  }

  /** The parallel loop of createMetricClosure: row i, from terminal i and
      run by worker schedule[i], goes into that worker's buffer. */
  method ClosureRows(g: Graph, terminals: seq<int>, schedule: seq<int>, pd: PathsData,
                     tBuffs0: seq<seq<Edge>>)
      returns (tBuffs: seq<seq<Edge>>)
    requires g.Built() && InRange(terminals, g.n)
    requires |terminals| - 1 <= |schedule| && forall i :: 0 <= i < |schedule| ==> 0 <= schedule[i] < |tBuffs0|
    requires pd.dist.Length == g.n && pd.preEdgeIndices.Length == g.n && IsClean(pd.dist[..], pd.preEdgeIndices[..])
    requires forall w :: 0 <= w < |tBuffs0| ==> tBuffs0[w] == []
    modifies pd.dist, pd.preEdgeIndices
    ensures |tBuffs| == |tBuffs0|
    ensures RowsState(g.edges[..], g.m, terminals, schedule, tBuffs, if |terminals| == 0 then 0 else |terminals| - 1)
  {
    ghost var es := g.edges[..];
    var nTerminals := |terminals|;
    tBuffs := tBuffs0;
    RowsStart(es, g.m, terminals, schedule, tBuffs);
    var i := 0;
    while i < nTerminals - 1
      invariant |tBuffs| == |tBuffs0| && RowsLoop(g, es, terminals, schedule, pd, tBuffs, i)
    {
      tBuffs := ClosureRowOf(g, es, terminals, schedule, i, pd, tBuffs);
      i := i + 1;
    }
    assert i == if nTerminals == 0 then 0 else nTerminals - 1;
  }

  /** createMetricClosure: the rows merged into a graph on the terminal
      positions with n(n-1)/2 edge slots. */
  method CreateMetricClosure(g: Graph, terminals: seq<int>, nThreads: nat, schedule: seq<int>)
      returns (closure: Graph, ghost nE: int)
    requires g.Built() && InRange(terminals, g.n) && 1 <= nThreads
    requires |terminals| - 1 <= |schedule| && forall i :: 0 <= i < |schedule| ==> 0 <= schedule[i] < nThreads
    ensures fresh(closure) && fresh(closure.vertices) && fresh(closure.edges)
    ensures closure.n == |terminals| && closure.m == |terminals| * (|terminals| - 1) / 2 == closure.edges.Length
    ensures closure.Valid() && closure.WellFormedUpTo(nE) && closure.SymmetricUpTo(nE) && closure.NoDupAdj()
    ensures MetricClosure(g.edges[..], g.m, terminals, closure.edges[..], nE)
  {
    var nTerminals := |terminals|;
    var pd := new PathsData(g.n);
    var tBuffs := seq(nThreads, _ => []);
    tBuffs := ClosureRows(g, terminals, schedule, pd, tBuffs);
    PairSlots(nTerminals);
    var nSlots := nTerminals * (nTerminals - 1) / 2;
    closure := new Graph(nTerminals, nSlots);
    assert |Flatten(tBuffs)| <= closure.edges.Length;
    assert closure.edges[..0] == [];
    nE := MergeClosureEdges(closure, tBuffs);
    ClosureFromRows(g.edges[..], g.m, terminals, schedule, tBuffs, if nTerminals == 0 then 0 else nTerminals - 1,
                    closure.edges[..], nE);
  }
}
