// Small helpers shared by the algorithms: the cost of an edge-index list,
// integer minimum, the opposite endpoint of an edge, and the result record.

module Utils {
  import opened Types
  import opened Graphs

  /** A Steiner tree as returned by every construction: the list of
      original edge indices (its length is the struct's `n`). */
  datatype SteinerTree = SteinerTree(treeEdgeIndices: seq<int>)
  {
    function N(): nat { |treeEdgeIndices| }
  }

  /** Every entry is -1 or a valid index into an edge table of size m. */
  predicate EdgeList(idx: seq<int>, m: int)
  {
    forall i :: 0 <= i < |idx| ==> idx[i] == NoEdge || 0 <= idx[i] < m
  }

  /** Cost contributed by one entry: nothing for -1, the edge's cost otherwise. */
  function EntryCost(es: seq<Edge>, i: int): nat
    requires i == NoEdge || 0 <= i < |es|
  {
    if i == NoEdge then 0 else es[i].cost
  }

  /** Total cost of the listed edges, -1 entries skipped (defined front to back). */
  function Cost(es: seq<Edge>, idx: seq<int>): nat
    requires EdgeList(idx, |es|)
  {
    if idx == [] then 0 else EntryCost(es, idx[0]) + Cost(es, idx[1..])
  }

  /** Cost is additive over concatenation. */
  lemma {:induction false} CostAppend(es: seq<Edge>, a: seq<int>, b: seq<int>)
    requires EdgeList(a, |es|) && EdgeList(b, |es|)
    ensures EdgeList(a + b, |es|)
    ensures Cost(es, a + b) == Cost(es, a) + Cost(es, b)
  {
    if a == [] {
      assert a + b == b;
    } else {
      assert (a + b)[1..] == a[1..] + b;
      CostAppend(es, a[1..], b);
    }
  }

  /** Appending one entry adds that entry's cost (0 for -1). */
  lemma CostSnoc(es: seq<Edge>, a: seq<int>, i: int)
    requires EdgeList(a, |es|) && (i == NoEdge || 0 <= i < |es|)
    ensures EdgeList(a + [i], |es|)
    ensures Cost(es, a + [i]) == Cost(es, a) + (if i == NoEdge then 0 else es[i].cost)
  {
    CostAppend(es, a, [i]);
  }

  /** The -1 entries do not matter: dropping them leaves the cost unchanged. */
  lemma {:induction false} CostIgnoresNoEdge(es: seq<Edge>, idx: seq<int>)
    requires EdgeList(idx, |es|)
    ensures EdgeList(Without(idx, NoEdge), |es|)
    ensures Cost(es, Without(idx, NoEdge)) == Cost(es, idx)
  {
    if idx != [] {
      CostIgnoresNoEdge(es, idx[1..]);
      if idx[0] != NoEdge {
        var r := Without(idx[1..], NoEdge);
        assert Without(idx, NoEdge) == [idx[0]] + r;
        assert ([idx[0]] + r)[1..] == r;
      }
    }
  }

  /** sumEdgeCosts: the summing loop over the first nEdges entries. */
  method SumEdgeCosts(edgeIndices: array<int>, nEdges: int, g: Graph) returns (totalCost: nat)
    requires 0 <= nEdges <= edgeIndices.Length
    requires EdgeList(edgeIndices[..nEdges], g.edges.Length)
    ensures totalCost == Cost(g.edges[..], edgeIndices[..nEdges])
  {
    totalCost := 0;
    var i := 0;
    while i < nEdges
      invariant 0 <= i <= nEdges
      invariant EdgeList(edgeIndices[..i], g.edges.Length)
      invariant totalCost == Cost(g.edges[..], edgeIndices[..i])
    {
      var globalEdgeI := edgeIndices[i];
      assert edgeIndices[..i + 1] == edgeIndices[..i] + [globalEdgeI];
      CostSnoc(g.edges[..], edgeIndices[..i], globalEdgeI);
      if globalEdgeI == NoEdge {
        i := i + 1;
        continue;
      }
      var e := g.edges[globalEdgeI];
      totalCost := totalCost + e.cost;
      i := i + 1;
    }
    assert edgeIndices[..nEdges] == edgeIndices[..i];
  }

  /** min: the smaller of a and b (a on ties). */
  function Min(a: int, b: int): (r: int)
    ensures r <= a && r <= b
    ensures r == a || r == b
  {
    if a <= b then a else b
  }

  /** getPredecessor: the endpoint of e across from u. For an endpoint u the
      two form exactly e's endpoint set, so the map is an involution on them. */
  function GetPredecessor(u: int, e: Edge): (p: int)
    ensures Incident(e, u) ==> {u, p} == {e.v, e.w}
    ensures Incident(e, p)
  {
    if e.w == u then e.v else e.w
  }

  /** Applied twice from an endpoint, getPredecessor returns to that endpoint. */
  lemma GetPredecessorTwice(u: int, e: Edge)
    requires Incident(e, u)
    ensures GetPredecessor(GetPredecessor(u, e), e) == u
  {
  }
}
