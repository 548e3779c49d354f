// The adjacency-indexed undirected graph (src/structures/graph.c): per-vertex
// growable lists of edge indices, an edge array, and the extraction of an
// induced subgraph that remembers the original vertex and edge ids.

module Graphs {
  import opened Types

  class Graph {
    var n: int
    var m: int
    var vertices: array<Vertex>
    var edges: array<Edge>

    /** Shape: one Vertex per vertex, m used edge slots, deg <= capEdges. */
    ghost predicate Valid()
      reads this, vertices
    {
      vertices.Length == n && 0 <= m <= edges.Length &&
      forall v :: 0 <= v < n ==> vertices[v].Deg() <= vertices[v].capEdges
    }

    /** The first k edge slots have endpoints in range, and every adjacency
        entry names one of them that is incident to its vertex. */
    ghost predicate WellFormedUpTo(k: int)
      reads this, vertices, edges
    {
      Valid() && WFUpTo(n, vertices[..], edges[..], k)
    }

    /** The graph invariant: every adjacency entry indexes a real edge whose
        endpoints include that vertex. */
    ghost predicate WellFormed()
      reads this, vertices, edges
    {
      WellFormedUpTo(m)
    }

    /** Each of the first k edges is listed at both of its endpoints. */
    ghost predicate SymmetricUpTo(k: int)
      reads this, vertices, edges
    {
      SymUpTo(n, vertices[..], edges[..], k)
    }

    /** No adjacency list names an edge twice, except a self-loop (which
        addEdge pushes twice onto the same list). */
    ghost predicate NoDupAdj()
      reads this, vertices, edges
    {
      NoDup(vertices[..], edges[..])
    }

    /** A graph as produced by repeated addEdge over slots 0..m-1. */
    ghost predicate Built()
      reads this, vertices, edges
    {
      WellFormed() && SymmetricUpTo(m) && NoDupAdj()
    }

    /** Sum of all vertex degrees. */
    ghost function TotalDegree(): nat
      reads this, vertices
    {
      SumDeg(vertices[..])
    }

    /** createGraph(n, m): n isolated vertices and m zeroed edge slots. */
    constructor (n: nat, m: nat)
      ensures this.n == n && this.m == m
      ensures fresh(vertices) && fresh(edges) && edges.Length == m
      ensures Valid() && WellFormedUpTo(0) && SymmetricUpTo(0) && NoDupAdj()
      ensures forall v :: 0 <= v < n ==> vertices[v] == Vertex([], 0)
      ensures forall i :: 0 <= i < m ==> edges[i] == Edge(0, 0, 0)
      ensures TotalDegree() == 0
    {
      this.n := n;
      this.m := m;
      vertices := new Vertex[n](_ => Vertex([], 0));
      edges := new Edge[m](_ => Edge(0, 0, 0));
      new;
      SumDegEmpty(vertices[..]);
    }

    /** getEdge(v, j): the edge named by v's j-th adjacency entry. */
    function GetEdge(v: int, j: int): (e: Edge)
      reads this, vertices, edges
      requires WellFormed() && 0 <= v < n && 0 <= j < |vertices[v].edges|
      ensures Incident(e, v) && 0 <= e.v < n && 0 <= e.w < n
    {
      edges[vertices[v].edges[j]]
    }

    /** getEdgeIndex(v, j): the index stored in v's j-th adjacency entry. */
    function GetEdgeIndex(v: int, j: int): (i: int)
      reads this, vertices, edges
      requires WellFormed() && 0 <= v < n && 0 <= j < |vertices[v].edges|
      ensures 0 <= i < m && Incident(edges[i], v) && edges[i] == GetEdge(v, j)
    {
      vertices[v].edges[j]
    }

    /** pushEdge: append edgeI to vertex id's list; the list gets 100 slots on
        first use and doubles when full. */
    method PushEdge(id: int, edgeI: int)
      requires Valid() && 0 <= id < n
      modifies vertices
      ensures Valid()
      ensures vertices[id].edges == old(vertices[id].edges) + [edgeI]
      ensures vertices[id].capEdges == GrownCap(old(vertices[id]))
      ensures forall u :: 0 <= u < n && u != id ==> vertices[u] == old(vertices[u])
      ensures TotalDegree() == old(TotalDegree()) + 1
    {
      var vertex := vertices[id];
      var cap := vertex.capEdges;
      if cap == 0 {
        cap := 100;
      }
      if vertex.Deg() == cap {
        cap := cap * 2;
      }
      vertices[id] := Vertex(vertex.edges + [edgeI], cap);
      SumDegUpdate(old(vertices[..]), id, vertices[id]);
      assert vertices[..] == old(vertices[..])[id := vertices[id]];
    }

    /** addEdge: store (v, w, cost) in slot edgeI and push edgeI onto the lists
        of v and of w. */
    method AddEdge(v: int, w: int, cost: nat, edgeI: int)
      requires Valid() && 0 <= v < n && 0 <= w < n && 0 <= edgeI < edges.Length
      modifies vertices, edges
      ensures Valid()
      ensures AddEdgeStep(n, old(vertices[..]), old(edges[..]), vertices[..], edges[..], v, w, cost, edgeI)
      ensures TotalDegree() == old(TotalDegree()) + 2
    {
      edges[edgeI] := Edge(v, w, cost);
      PushEdge(v, edgeI);
      PushEdge(w, edgeI);
    }
  }

  /** Value view of WellFormedUpTo. */
  ghost predicate WFUpTo(n: int, vs: seq<Vertex>, es: seq<Edge>, k: int)
  {
    |vs| == n && 0 <= k <= |es| &&
    (forall i :: 0 <= i < k ==> 0 <= es[i].v < n && 0 <= es[i].w < n) &&
    (forall v, j :: 0 <= v < n && 0 <= j < |vs[v].edges| ==>
       0 <= vs[v].edges[j] < k && Incident(es[vs[v].edges[j]], v))
  }

  /** Value view of SymmetricUpTo. */
  ghost predicate SymUpTo(n: int, vs: seq<Vertex>, es: seq<Edge>, k: int)
  {
    |vs| == n && 0 <= k <= |es| &&
    forall i :: 0 <= i < k ==>
      0 <= es[i].v < n && 0 <= es[i].w < n &&
      i in vs[es[i].v].edges && i in vs[es[i].w].edges
  }

  /** Value view of NoDupAdj. */
  ghost predicate NoDup(vs: seq<Vertex>, es: seq<Edge>)
  {
    forall v, j1, j2 ::
      (0 <= v < |vs| && 0 <= j1 < j2 < |vs[v].edges| && vs[v].edges[j1] == vs[v].edges[j2]) ==>
        (0 <= vs[v].edges[j1] < |es| && es[vs[v].edges[j1]].v == es[vs[v].edges[j1]].w)
  }

  /** The relation between the vertex and edge arrays before and after
      addEdge(v, w, cost, k). */
  ghost predicate AddEdgeStep(n: int, vs: seq<Vertex>, es: seq<Edge>, vs': seq<Vertex>, es': seq<Edge>,
                              v: int, w: int, cost: nat, k: int)
  {
    0 <= v < n && 0 <= w < n && |vs| == |vs'| == n && 0 <= k < |es| &&
    es' == es[k := Edge(v, w, cost)] &&
    (v != w ==> vs'[v].edges == vs[v].edges + [k] && vs'[w].edges == vs[w].edges + [k]) &&
    (v == w ==> vs'[v].edges == vs[v].edges + [k, k]) &&
    forall u :: 0 <= u < n && u != v && u != w ==> vs'[u] == vs[u]
  }

  /** Adding edge slot k after slots 0..k-1 keeps the graph well formed,
      symmetric and free of duplicate adjacency entries. */
  lemma AddEdgeKeepsShape(n: int, vs: seq<Vertex>, es: seq<Edge>, vs': seq<Vertex>, es': seq<Edge>,
                          v: int, w: int, cost: nat, k: int)
    requires AddEdgeStep(n, vs, es, vs', es', v, w, cost, k)
    ensures WFUpTo(n, vs, es, k) ==> WFUpTo(n, vs', es', k + 1)
    ensures WFUpTo(n, vs, es, k) && SymUpTo(n, vs, es, k) ==> SymUpTo(n, vs', es', k + 1)
    ensures WFUpTo(n, vs, es, k) && NoDup(vs, es) ==> NoDup(vs', es')
  {
    if WFUpTo(n, vs, es, k) {
      AddEdgeKeepsWF(n, vs, es, vs', es', v, w, cost, k);
      if SymUpTo(n, vs, es, k) {
        AddEdgeKeepsSym(n, vs, es, vs', es', v, w, cost, k);
      }
      if NoDup(vs, es) {
        AddEdgeKeepsNoDup(n, vs, es, vs', es', v, w, cost, k);
      }
    }
  }

  lemma AddEdgeKeepsWF(n: int, vs: seq<Vertex>, es: seq<Edge>, vs': seq<Vertex>, es': seq<Edge>,
                       v: int, w: int, cost: nat, k: int)
    requires AddEdgeStep(n, vs, es, vs', es', v, w, cost, k) && WFUpTo(n, vs, es, k)
    ensures WFUpTo(n, vs', es', k + 1)
  {
    forall u, j | 0 <= u < n && 0 <= j < |vs'[u].edges|
      ensures 0 <= vs'[u].edges[j] < k + 1 && Incident(es'[vs'[u].edges[j]], u)
    {
      if j < |vs[u].edges| {
        assert vs'[u].edges[j] == vs[u].edges[j];
      }
    }
  }

  lemma AddEdgeKeepsSym(n: int, vs: seq<Vertex>, es: seq<Edge>, vs': seq<Vertex>, es': seq<Edge>,
                        v: int, w: int, cost: nat, k: int)
    requires AddEdgeStep(n, vs, es, vs', es', v, w, cost, k)
    requires WFUpTo(n, vs, es, k) && SymUpTo(n, vs, es, k)
    ensures SymUpTo(n, vs', es', k + 1)
  {
    forall i | 0 <= i < k + 1
      ensures 0 <= es'[i].v < n && 0 <= es'[i].w < n
      ensures i in vs'[es'[i].v].edges && i in vs'[es'[i].w].edges
    {
      if i < k {
        assert es'[i] == es[i];
        assert i in vs[es[i].v].edges;
        assert i in vs[es[i].w].edges;
      }
    }
  }

  lemma AddEdgeKeepsNoDup(n: int, vs: seq<Vertex>, es: seq<Edge>, vs': seq<Vertex>, es': seq<Edge>,
                          v: int, w: int, cost: nat, k: int)
    requires AddEdgeStep(n, vs, es, vs', es', v, w, cost, k)
    requires WFUpTo(n, vs, es, k) && NoDup(vs, es)
    ensures NoDup(vs', es')
  {
    forall u, j1, j2 | 0 <= u < n && 0 <= j1 < j2 < |vs'[u].edges| && vs'[u].edges[j1] == vs'[u].edges[j2]
      ensures 0 <= vs'[u].edges[j1] < |es'| && es'[vs'[u].edges[j1]].v == es'[vs'[u].edges[j1]].w
    {
      if j2 < |vs[u].edges| {
        assert vs'[u].edges[j1] == vs[u].edges[j1] && vs'[u].edges[j2] == vs[u].edges[j2];
      }
    }
  }

  /** The capacity pushEdge leaves behind: 100 on first use, doubled when full. */
  function GrownCap(vx: Vertex): nat
  {
    var cap := if vx.capEdges == 0 then 100 else vx.capEdges;
    if vx.Deg() == cap then 2 * cap else cap
  }

  function SumDeg(vs: seq<Vertex>): nat
  {
    if vs == [] then 0 else SumDeg(vs[..|vs| - 1]) + vs[|vs| - 1].Deg()
  }

  lemma {:induction false} SumDegEmpty(vs: seq<Vertex>)
    requires forall i :: 0 <= i < |vs| ==> vs[i].edges == []
    ensures SumDeg(vs) == 0
  {
    if vs != [] {
      SumDegEmpty(vs[..|vs| - 1]);
    }
  }

  /** Replacing one vertex changes the degree sum by the change in its degree. */
  lemma {:induction false} SumDegUpdate(vs: seq<Vertex>, i: int, x: Vertex)
    requires 0 <= i < |vs|
    ensures SumDeg(vs[i := x]) == SumDeg(vs) - vs[i].Deg() + x.Deg()
  {
    var last := |vs| - 1;
    if i < last {
      assert vs[i := x][..last] == vs[..last][i := x];
      SumDegUpdate(vs[..last], i, x);
    } else {
      assert vs[i := x][..last] == vs[..last];
    }
  }

  /** sumOfDegrees: the sum of deg(v) over all vertices. */
  method SumOfDegrees(g: Graph) returns (sumDegs: nat)
    requires g.Valid()
    ensures sumDegs == g.TotalDegree()
  {
    sumDegs := 0;
    var v := 0;
    while v < g.n
      invariant 0 <= v <= g.n
      invariant sumDegs == SumDeg(g.vertices[..v])
    {
      assert g.vertices[..v + 1][..v] == g.vertices[..v];
      sumDegs := sumDegs + g.vertices[v].Deg();
      v := v + 1;
    }
    assert g.vertices[..v] == g.vertices[..];
  }

  /** clearEdgeFlags: reset flags[0..nEdges) to false. */
  method ClearEdgeFlags(edgeFlags: array<bool>, nEdges: int)
    requires 0 <= nEdges <= edgeFlags.Length
    modifies edgeFlags
    ensures forall e :: 0 <= e < nEdges ==> !edgeFlags[e]
    ensures forall e :: nEdges <= e < edgeFlags.Length ==> edgeFlags[e] == old(edgeFlags[e])
  {
    var e := 0;
    while e < nEdges
      invariant 0 <= e <= nEdges
      invariant forall k :: 0 <= k < e ==> !edgeFlags[k]
      invariant forall k :: e <= k < edgeFlags.Length ==> edgeFlags[k] == old(edgeFlags[k])
    {
      edgeFlags[e] := false;
      e := e + 1;
    }
  }
}
