// Record types shared by the whole solver: edges, adjacency slots,
// priority-queue entries and tentative distances.

module Types {

  /** An undirected edge {v, w} with a non-negative cost (struct Edge). */
  datatype Edge = Edge(v: int, w: int, cost: nat)

  /** A vertex's adjacency list: `edges` holds the `deg` used slots, in insertion
      order; `capEdges` is the number of slots allocated (struct Vertex). */
  datatype Vertex = Vertex(edges: seq<int>, capEdges: nat)
  {
    function Deg(): nat { |edges| }
  }

  /** A heap entry (key, value) (struct Pair); values are costs or distances. */
  datatype Pair = Pair(key: int, value: nat)

  /** A tentative distance: a finite cost or DBL_MAX, the "not reached" marker. */
  datatype Dist = Fin(d: nat) | Inf

  /** The C comparison `a < b` on doubles where DBL_MAX stands for Inf. */
  predicate Less(a: Dist, b: Dist)
  {
    match (a, b)
    case (Fin(x), Fin(y)) => x < y
    case (Fin(_), Inf) => true
    case (Inf, _) => false
  }

  /** `x + c` for a finite distance; Inf stays Inf. */
  function Plus(a: Dist, c: nat): Dist
  {
    match a
    case Fin(x) => Fin(x + c)
    case Inf => Inf
  }

  /** The index -1 that stands for "no edge" in predecessor arrays. */
  const NoEdge: int := -1

  /** u is one of e's endpoints. */
  predicate Incident(e: Edge, u: int)
  {
    e.v == u || e.w == u
  }

  /** Some element of s differs from the first one. */
  predicate NotAllEqual(s: seq<int>)
  {
    1 <= |s| && exists d :: 0 <= d < |s| && s[d] != s[0]
  }

  /** All elements of s are pairwise distinct. */
  predicate Distinct<T(==)>(s: seq<T>)
  {
    forall i, j :: 0 <= i < j < |s| ==> s[i] != s[j]
  }

  /** Every element of s lies in [0, n). */
  predicate InRange(s: seq<int>, n: int)
  {
    forall i :: 0 <= i < |s| ==> 0 <= s[i] < n
  }

  /** s with every occurrence of x dropped. */
  function Without(s: seq<int>, x: int): (r: seq<int>)
    ensures |r| <= |s|
    ensures forall y :: y in r <==> y in s && y != x
  {
    if s == [] then []
    else if s[0] == x then Without(s[1..], x)
    else [s[0]] + Without(s[1..], x)
  }

  lemma {:induction false} WithoutDistinct(s: seq<int>, x: int)
    requires Distinct(s)
    ensures Distinct(Without(s, x))
    ensures |Without(s, x)| >= |s| - 1
    ensures x !in s ==> |Without(s, x)| == |s|
  {
    if s != [] {
      assert Distinct(s[1..]);
      WithoutDistinct(s[1..], x);
      assert s[0] !in s[1..];
      if s[0] != x {
        var r := [s[0]] + Without(s[1..], x);
        forall i, j | 0 <= i < j < |r| ensures r[i] != r[j] {
          if i == 0 {
            assert r[j] in Without(s[1..], x);
          }
        }
      }
    }
  }

  /** A duplicate-free sequence of indices in [0, n) has at most n elements; this
      is what keeps every "append a new vertex/edge" write in bounds. */
  lemma {:induction false} DistinctInRangeBound(s: seq<int>, n: nat)
    requires Distinct(s) && InRange(s, n)
    ensures |s| <= n
    decreases n
  {
    if s != [] {
      assert 0 <= s[0] < n;
      var t := Without(s, n - 1);
      WithoutDistinct(s, n - 1);
      forall i | 0 <= i < |t| ensures 0 <= t[i] < n - 1 {
        assert t[i] in t;
        var k :| 0 <= k < |s| && s[k] == t[i];
      }
      DistinctInRangeBound(t, n - 1);
    }
  }
}
