// reduceGraph (src/algorithms/exact/ilp.c): before the exact model is built,
// every edge pair whose endpoints are joined more cheaply through the
// shortest-path tree of one endpoint is dropped, the kept pairs are moved to
// the front of the edge array, and the adjacency lists are renumbered.

module IlpReduce {
  import opened Types
  import opened Graphs
  import opened Utils
  import opened Dijkstras

  // ---------------------------------------------------------------------
  // Why the removal test is sound

  /** Edge i can be bypassed: some walk between its endpoints is strictly
      cheaper than the edge itself. */
  ghost predicate HasShortcut(es: seq<Edge>, m: int, i: int)
    requires 0 <= i < m <= |es|
  {
    exists path :: Walk(es, m, es[i].v, path, es[i].w) && Cost(es, path) < es[i].cost
  }

  /** After a run every predecessor entry is -1 or an edge slot. */
  lemma PreEdgeList(n: int, es: seq<Edge>, m: int, dist: seq<Dist>, pre: seq<int>, S: seq<int>)
    requires ShortestPaths(n, es, m, dist, pre, S)
    ensures EdgeList(pre, |es|)
  {
    forall w | 0 <= w < n ensures pre[w] == NoEdge || 0 <= pre[w] < |es| {
      assert PreEdge(n, es, m, dist, pre, S, w);
    }
  }

  /** x lies strictly below w in the order predecessor chains descend in. */
  ghost predicate Under(dist: seq<Dist>, st: seq<nat>, x: int, w: int)
    requires 0 <= x < |dist| && 0 <= w < |dist| && |st| == |dist|
    requires dist[x].Fin? && dist[w].Fin?
  {
    dist[x].d < dist[w].d || (dist[x].d == dist[w].d && st[x] < st[w])
  }

  /** The vertices met following predecessor edges from w back to its source. */
  ghost function Chain(n: int, es: seq<Edge>, m: int, dist: seq<Dist>, pre: seq<int>, st: seq<nat>,
                       S: seq<int>, w: int): seq<int>
    requires ShortestPaths(n, es, m, dist, pre, S) && Descends(n, es, m, dist, pre, st)
    requires 0 <= w < n && dist[w].Fin?
    decreases dist[w].d, st[w]
  {
    assert PreEdge(n, es, m, dist, pre, S, w) && StepDown(n, es, m, dist, pre, st, w);
    if pre[w] == NoEdge then [w]
    else [w] + Chain(n, es, m, dist, pre, st, S, GetPredecessor(w, es[pre[w]]))
  }

  /** The predecessor-edge costs of the vertices listed in D. */
  ghost function SumAt(es: seq<Edge>, pre: seq<int>, D: seq<int>): nat
    requires EdgeList(pre, |es|) && InRange(D, |pre|)
  {
    if D == [] then 0 else EntryCost(es, pre[D[0]]) + SumAt(es, pre, D[1..])
  }

  /** A chain starts at w, descends strictly, so never repeats a vertex, and
      the predecessor edges of its vertices add up to dist[w]. */
  lemma {:induction false} ChainFacts(n: int, es: seq<Edge>, m: int, dist: seq<Dist>, pre: seq<int>,
                                      st: seq<nat>, S: seq<int>, w: int)
    requires ShortestPaths(n, es, m, dist, pre, S) && Descends(n, es, m, dist, pre, st)
    requires 0 <= w < n && dist[w].Fin?
    ensures EdgeList(pre, |es|)
    ensures var c := Chain(n, es, m, dist, pre, st, S, w);
      && |c| >= 1 && c[0] == w && InRange(c, n)
      && (forall i :: 0 < i < |c| ==> dist[c[i]].Fin? && Under(dist, st, c[i], w))
      && Distinct(c)
      && SumAt(es, pre, c) == dist[w].d
    decreases dist[w].d, st[w]
  {
    PreEdgeList(n, es, m, dist, pre, S);
    assert PreEdge(n, es, m, dist, pre, S, w) && StepDown(n, es, m, dist, pre, st, w);
    var c := Chain(n, es, m, dist, pre, st, S, w);
    if pre[w] == NoEdge {
      var k :| 0 <= k < |S| && S[k] == w;
      assert c == [w];
    } else {
      var u := GetPredecessor(w, es[pre[w]]);
      ChainFacts(n, es, m, dist, pre, st, S, u);
      var c' := Chain(n, es, m, dist, pre, st, S, u);
      assert c == [w] + c' && c[1..] == c';
      forall i | 0 < i < |c| ensures dist[c[i]].Fin? && Under(dist, st, c[i], w) {
        if i > 1 {
          assert c[i] == c'[i - 1] && Under(dist, st, c'[i - 1], u);
        }
      }
      forall i, j | 0 <= i < j < |c| ensures c[i] != c[j] {
        if i == 0 {
          assert Under(dist, st, c[j], w);
        } else {
          assert c[i] == c'[i - 1] && c[j] == c'[j - 1];
        }
      }
    }
  }

  /** Clearing entry x of idx takes exactly that entry's cost off the total. */
  lemma {:induction false} CostZero(es: seq<Edge>, idx: seq<int>, x: int)
    requires EdgeList(idx, |es|) && 0 <= x < |idx|
    ensures EdgeList(idx[x := NoEdge], |es|)
    ensures Cost(es, idx) == Cost(es, idx[x := NoEdge]) + EntryCost(es, idx[x])
    decreases |idx|
  {
    if x == 0 {
      assert idx[x := NoEdge][1..] == idx[1..];
    } else {
      assert idx[x := NoEdge][1..] == idx[1..][x - 1 := NoEdge];
      CostZero(es, idx[1..], x - 1);
    }
  }

  /** Clearing an entry not listed in D leaves SumAt over D unchanged. */
  lemma {:induction false} SumAtFrame(es: seq<Edge>, pre: seq<int>, x: int, D: seq<int>)
    requires EdgeList(pre, |es|) && InRange(D, |pre|) && 0 <= x < |pre| && x !in D
    ensures EdgeList(pre[x := NoEdge], |es|)
    ensures SumAt(es, pre[x := NoEdge], D) == SumAt(es, pre, D)
    decreases |D|
  {
    if D != [] {
      assert D[0] != x;
      SumAtFrame(es, pre, x, D[1..]);
    }
  }

  /** The entries of distinct positions cost at most all entries together. */
  lemma {:induction false} SubsetBound(es: seq<Edge>, pre: seq<int>, D: seq<int>)
    requires EdgeList(pre, |es|) && InRange(D, |pre|) && Distinct(D)
    ensures SumAt(es, pre, D) <= Cost(es, pre)
    decreases |D|
  {
    if D != [] {
      var x := D[0];
      assert x !in D[1..] by {
        forall j | 0 <= j < |D[1..]| ensures D[1..][j] != x {
          assert D[1..][j] == D[j + 1];
        }
      }
      assert Distinct(D[1..]) by {
        forall i, j | 0 <= i < j < |D[1..]| ensures D[1..][i] != D[1..][j] {
          assert D[1..][i] == D[i + 1] && D[1..][j] == D[j + 1];
        }
      }
      CostZero(es, pre, x);
      SumAtFrame(es, pre, x, D[1..]);
      SubsetBound(es, pre[x := NoEdge], D[1..]);
    }
  }

  /** The whole shortest-path tree costs at least the distance of any vertex
      it reaches. */
  lemma TreeCostBound(n: int, es: seq<Edge>, m: int, dist: seq<Dist>, pre: seq<int>, st: seq<nat>,
                      S: seq<int>, w: int)
    requires ShortestPaths(n, es, m, dist, pre, S) && Descends(n, es, m, dist, pre, st)
    requires 0 <= w < n && dist[w].Fin?
    ensures EdgeList(pre, |es|)
    ensures dist[w].d <= Cost(es, pre)
  {
    ChainFacts(n, es, m, dist, pre, st, S, w);
    SubsetBound(es, pre, Chain(n, es, m, dist, pre, st, S, w));
  }

  /** The removal test is sound: when the shortest-path tree grown from one
      end of edge i costs less than the edge, the tree path to the other end
      is a strictly cheaper walk between the two ends. */
  lemma FlaggedHasShortcut(n: int, es: seq<Edge>, m: int, dist: seq<Dist>, pre: seq<int>, st: seq<nat>, i: int)
    requires 0 <= i < m <= |es|
    requires ShortestPaths(n, es, m, dist, pre, [es[i].v]) && Descends(n, es, m, dist, pre, st)
    requires EdgeList(pre, |es|) && Cost(es, pre) < es[i].cost
    ensures HasShortcut(es, m, i)
  {
    var s, w := es[i].v, es[i].w;
    assert DLe(dist[w], Plus(dist[s], es[i].cost));
    TreeCostBound(n, es, m, dist, pre, st, [s], w);
    var path := PrePath(n, es, m, dist, pre, st, [s], w);
    assert PreRoot(n, es, m, dist, pre, st, [s], w) == s;
    assert Walk(es, m, s, path, w) && Cost(es, path) < es[i].cost;
  }

  // ---------------------------------------------------------------------
  // The flagging loop

  /** The removal test of edge i as the code makes it: the predecessor edges
      of some shortest-path tree grown from edges[i].v cost less than edge i
      in total. */
  ghost predicate TreeTest(n: int, es: seq<Edge>, m: int, i: int, flag: bool)
    requires 0 <= i < m <= |es|
  {
    exists dist, pre, st ::
      ShortestPaths(n, es, m, dist, pre, [es[i].v]) && Descends(n, es, m, dist, pre, st) &&
      EdgeList(pre, |es|) && (flag <==> Cost(es, pre) < es[i].cost)
  }

  /** The first i flags are the test results, and each flagged pair has a
      cheaper bypass. */
  ghost predicate FlagsUpTo(n: int, es: seq<Edge>, m: int, flags: seq<bool>, i: int)
    requires 0 <= 2 * i <= m <= |es| && i <= |flags|
  {
    forall k :: 0 <= k < i ==>
      TreeTest(n, es, m, 2 * k, flags[k]) && (flags[k] ==> HasShortcut(es, m, 2 * k))
  }

  /** The test of one edge: Dijkstra from e.v for e = edges[i], then the
      total cost of the predecessor edges against e's cost; the buffers are
      left clean for the next run. */
  method TestEdge(g: Graph, pd: PathsData, i: int, ghost es: seq<Edge>) returns (remove: bool)
    requires g.Built() && es == g.edges[..] && 0 <= i < g.m
    requires pd.dist.Length == g.n && pd.preEdgeIndices.Length == g.n
    requires IsClean(pd.dist[..], pd.preEdgeIndices[..])
    modifies pd.dist, pd.preEdgeIndices
    ensures TreeTest(g.n, es, g.m, i, remove)
    ensures remove ==> HasShortcut(es, g.m, i)
    ensures IsClean(pd.dist[..], pd.preEdgeIndices[..])
  {
    var e := g.edges[i];
    assert 0 <= e.v < g.n;
    ghost var st := Dijkstra(e.v, pd, g);
    ghost var dist, pre := pd.dist[..], pd.preEdgeIndices[..];
    PreEdgeList(g.n, es, g.m, dist, pre, [e.v]);
    assert pd.preEdgeIndices[..g.n] == pre;
    var costSum := SumEdgeCosts(pd.preEdgeIndices, g.n, g);
    remove := costSum < e.cost;
    if remove {
      FlaggedHasShortcut(g.n, es, g.m, dist, pre, st, i);
    }
    assert ShortestPaths(g.n, es, g.m, dist, pre, [es[i].v]) && Descends(g.n, es, g.m, dist, pre, st) &&
      EdgeList(pre, |es|) && (remove <==> Cost(es, pre) < es[i].cost);
    CleanPathsData(pd, g.n);
  }

  /** One iteration of the first loop: pair i is flagged when the test of
      its first arc says so (a cheaper connection exists, so no minimum tree
      needs the edge). */
  method FlagEdge(g: Graph, pd: PathsData, removeEdges: array<bool>, i: int, ghost es: seq<Edge>)
    requires g.Built() && es == g.edges[..] && 0 <= 2 * i && 2 * i + 2 <= g.m
    requires 0 <= i < removeEdges.Length && !removeEdges[i]
    requires FlagsUpTo(g.n, es, g.m, removeEdges[..], i)
    requires pd.dist.Length == g.n && pd.preEdgeIndices.Length == g.n
    requires IsClean(pd.dist[..], pd.preEdgeIndices[..])
    modifies removeEdges, pd.dist, pd.preEdgeIndices
    ensures FlagsUpTo(g.n, es, g.m, removeEdges[..], i + 1)
    ensures forall k :: 0 <= k < removeEdges.Length && k != i ==> removeEdges[k] == old(removeEdges[k])
    ensures IsClean(pd.dist[..], pd.preEdgeIndices[..])
  {
    ghost var flags := removeEdges[..];
    var remove := TestEdge(g, pd, 2 * i, es);
    if remove {
      removeEdges[i] := true;
    }
    assert removeEdges[..] == flags[i := remove];
  }

  /** The first loop of reduceGraph: every edge pair i is flagged exactly when
      the test says so, and a flagged pair always has a cheaper bypass. */
  method FlagRemovable(g: Graph) returns (removeEdges: array<bool>)
    requires g.Built()
    ensures fresh(removeEdges) && removeEdges.Length == g.m / 2
    ensures FlagsUpTo(g.n, g.edges[..], g.m, removeEdges[..], g.m / 2)
  {
    ghost var es := g.edges[..];
    var nEdges := g.m / 2;
    removeEdges := new bool[nEdges](_ => false);
    var pd := new PathsData(g.n);
    var i := 0;
    while i < nEdges
      invariant 0 <= i <= nEdges
      invariant fresh(pd.dist) && fresh(pd.preEdgeIndices)
      invariant pd.dist.Length == g.n && pd.preEdgeIndices.Length == g.n
      invariant IsClean(pd.dist[..], pd.preEdgeIndices[..])
      invariant FlagsUpTo(g.n, es, g.m, removeEdges[..], i)
      invariant forall k :: i <= k < nEdges ==> !removeEdges[k]
    {
      FlagEdge(g, pd, removeEdges, i, es);
      i := i + 1;
    }
  }

  // ---------------------------------------------------------------------
  // Moving the kept pairs to the front

  /** from and to are inverse permutations of [0, nPairs): slot pair k now
      holds old pair from[k], and old pair i now sits at slot pair to[i]. */
  ghost predicate Inverse(from: seq<int>, to: seq<int>, nPairs: int)
  {
    |from| == |to| == nPairs &&
    (forall k :: 0 <= k < nPairs ==> 0 <= from[k] < nPairs && to[from[k]] == k) &&
    (forall i :: 0 <= i < nPairs ==> 0 <= to[i] < nPairs && from[to[i]] == i)
  }

  /** Slot pair k of E holds pair from[k] of E0, both arcs together; the
      slots past the last pair are untouched. */
  ghost predicate PairsMoved(E0: seq<Edge>, E: seq<Edge>, from: seq<int>, nPairs: int)
  {
    |E| == |E0| && 0 <= 2 * nPairs <= |E0| && |from| == nPairs &&
    (forall k :: 0 <= k < nPairs ==>
       0 <= from[k] < nPairs && E[2 * k] == E0[2 * from[k]] && E[2 * k + 1] == E0[2 * from[k] + 1]) &&
    (forall j :: 2 * nPairs <= j < |E| ==> E[j] == E0[j])
  }

  /** The state of the left-right loop: the flags travel with their pairs;
      everything left of `left` is kept, everything right of `right` removed;
      the pairs in between have not moved; newPos still holds its starting
      value np0 for a removed pair and the current slot pair of a kept one. */
  ghost predicate Compacting(F0: seq<bool>, F: seq<bool>, from: seq<int>, to: seq<int>, np0: seq<int>,
                             newPos: seq<int>, nPairs: int, left: int, right: int)
  {
    |F0| == |F| == |np0| == |newPos| == nPairs && Inverse(from, to, nPairs) &&
    0 <= left <= nPairs && -1 <= right < nPairs && left <= right + 1 &&
    (forall k :: 0 <= k < nPairs ==> F[k] == F0[from[k]]) &&
    (forall i :: 0 <= i < nPairs ==> newPos[i] == if F0[i] then np0[i] else to[i]) &&
    (forall k :: 0 <= k < left ==> !F[k]) &&
    (forall k :: right < k < nPairs ==> F[k]) &&
    (forall k :: left <= k <= right ==> from[k] == k)
  }

  /** The first inner loop: the first flagged pair at or after left. */
  method SkipKept(removeEdges: array<bool>, nPairs: int, left: int) returns (next: int)
    requires 0 <= left <= nPairs <= removeEdges.Length
    ensures left <= next <= nPairs
    ensures forall k :: left <= k < next ==> !removeEdges[k]
    ensures next < nPairs ==> removeEdges[next]
  {
    next := left;
    while next < nPairs && !removeEdges[next]
      invariant left <= next <= nPairs
      invariant forall k :: left <= k < next ==> !removeEdges[k]
    {
      next := next + 1;
    }
  }

  /** The second inner loop: the last kept pair at or before right. */
  method SkipRemoved(removeEdges: array<bool>, nPairs: int, right: int) returns (next: int)
    requires -1 <= right < nPairs <= removeEdges.Length
    ensures -1 <= next <= right
    ensures forall k :: next < k <= right ==> removeEdges[k]
    ensures next >= 0 ==> !removeEdges[next]
  {
    next := right;
    while next >= 0 && removeEdges[next]
      invariant -1 <= next <= right
      invariant forall k :: next < k <= right ==> removeEdges[k]
    {
      next := next - 1;
    }
  }

  /** Exchange edge pairs l and r (slots 2l, 2l+1 with 2r, 2r+1). */
  method SwapPairs(edges: array<Edge>, l: int, r: int)
    requires 0 <= l < r && 2 * r + 1 < edges.Length
    modifies edges
    ensures edges[..] == old(edges[..])[2 * l := old(edges[2 * r])][2 * l + 1 := old(edges[2 * r + 1])]
                                       [2 * r := old(edges[2 * l])][2 * r + 1 := old(edges[2 * l + 1])]
  {
    var temp1 := edges[2 * l];
    var temp2 := edges[2 * l + 1];
    edges[2 * l] := edges[2 * r];
    edges[2 * l + 1] := edges[2 * r + 1];
    edges[2 * r] := temp1;
    edges[2 * r + 1] := temp2;
  }

  /** Exchanging two unmoved pairs keeps the arcs of every pair together. */
  lemma SwapKeepsMoved(E0: seq<Edge>, E: seq<Edge>, from: seq<int>, nPairs: int, l: int, r: int)
    requires PairsMoved(E0, E, from, nPairs) && 0 <= l < r < nPairs && from[l] == l && from[r] == r
    ensures PairsMoved(E0, E[2 * l := E[2 * r]][2 * l + 1 := E[2 * r + 1]][2 * r := E[2 * l]][2 * r + 1 := E[2 * l + 1]],
                       from[l := r][r := l], nPairs)
  {
  }

  /** One exchange of the left-right loop: a flagged pair at left, a kept one
      at right; the kept pair's newPos becomes left. */
  lemma SwapKeepsCompacting(F0: seq<bool>, F: seq<bool>, from: seq<int>, to: seq<int>, np0: seq<int>,
                            newPos: seq<int>, nPairs: int, l: int, r: int)
    requires Compacting(F0, F, from, to, np0, newPos, nPairs, l, r) && l < r && F[l] && !F[r]
    ensures Compacting(F0, F[l := false][r := true], from[l := r][r := l], to[l := r][r := l], np0,
                       newPos[r := l], nPairs, l + 1, r - 1)
  {
    var from', to' := from[l := r][r := l], to[l := r][r := l];
    assert to[l] == l && to[r] == r;
    assert Inverse(from', to', nPairs);
  }

  /** The exchange inside the left-right loop, on the arrays. */
  method ExchangeStep(edges: array<Edge>, removeEdges: array<bool>, newPos: array<int>, nPairs: int,
                      left: int, right: int, ghost E0: seq<Edge>, ghost F0: seq<bool>,
                      ghost from: seq<int>, ghost to: seq<int>, ghost np0: seq<int>)
    returns (ghost from': seq<int>, ghost to': seq<int>)
    requires removeEdges.Length == newPos.Length == nPairs
    requires Compacting(F0, removeEdges[..], from, to, np0, newPos[..], nPairs, left, right)
    requires PairsMoved(E0, edges[..], from, nPairs)
    requires left < right && removeEdges[left] && !removeEdges[right]
    modifies edges, removeEdges, newPos
    ensures Compacting(F0, removeEdges[..], from', to', np0, newPos[..], nPairs, left + 1, right - 1)
    ensures PairsMoved(E0, edges[..], from', nPairs)
  {
    SwapKeepsMoved(E0, edges[..], from, nPairs, left, right);
    SwapKeepsCompacting(F0, removeEdges[..], from, to, np0, newPos[..], nPairs, left, right);
    SwapPairs(edges, left, right);
    newPos[right] := left;
    removeEdges[left] := false;
    removeEdges[right] := true;
    from', to' := from[left := right][right := left], to[left := right][right := left];
  }

  /** Before the loop nothing has moved. */
  lemma CompactingStart(F0: seq<bool>, newPos: seq<int>, nPairs: int)
    requires |F0| == |newPos| == nPairs
    requires forall i :: 0 <= i < nPairs && !F0[i] ==> newPos[i] == i
    ensures Compacting(F0, F0, seq(nPairs, k => k), seq(nPairs, k => k), newPos, newPos, nPairs, 0, nPairs - 1)
  {
  }

  /** The two inner loops: left moves to the next flagged pair, right to the
      previous kept one. */
  method ScanStep(removeEdges: array<bool>, nPairs: int, left: int, right: int, ghost F0: seq<bool>,
                  ghost from: seq<int>, ghost to: seq<int>, ghost np0: seq<int>, ghost newPos: seq<int>)
    returns (left': int, right': int)
    requires removeEdges.Length == nPairs
    requires Compacting(F0, removeEdges[..], from, to, np0, newPos, nPairs, left, right)
    ensures Compacting(F0, removeEdges[..], from, to, np0, newPos, nPairs, left', right')
    ensures left <= left' && right' <= right
    ensures left' < right' ==> removeEdges[left'] && !removeEdges[right']
  {
    assert right + 1 == nPairs || removeEdges[right + 1];
    left' := SkipKept(removeEdges, nPairs, left);
    assert left' == 0 || !removeEdges[left' - 1];
    right' := SkipRemoved(removeEdges, nPairs, right);
  }

  /** When left and right meet, the flags split the pairs at one index and
      the pair permutation puts the kept pairs first. */
  lemma CompactingDone(F0: seq<bool>, F: seq<bool>, from: seq<int>, to: seq<int>, np0: seq<int>,
                       newPos: seq<int>, nPairs: int, left: int, right: int) returns (split: int)
    requires Compacting(F0, F, from, to, np0, newPos, nPairs, left, right) && left >= right
    ensures split == if left == right && !F[left] then left + 1 else left
    ensures SplitAt(F, split) && Partitioned(F0, from, to, nPairs, split)
  {
    split := if left == right && !F[left] then left + 1 else left;
    assert forall k :: 0 <= k < nPairs ==> (F[k] <==> k >= split);
  }

  /** The outcome of the compaction on the pairs: from/to are the pair
      permutation, and exactly the first split slot pairs hold kept pairs. */
  ghost predicate Partitioned(F0: seq<bool>, from: seq<int>, to: seq<int>, nPairs: int, split: int)
  {
    Inverse(from, to, nPairs) && |F0| == nPairs && 0 <= split <= nPairs &&
    (forall k :: 0 <= k < nPairs ==> (F0[from[k]] <==> k >= split))
  }

  /** newPos as reduceGraph leaves it: the new slot pair of a kept pair, and
      still the pair's own index for a removed one. */
  ghost predicate RenumberedAsWritten(F0: seq<bool>, from: seq<int>, to: seq<int>, newPos: seq<int>, nPairs: int,
                                      split: int)
  {
    Partitioned(F0, from, to, nPairs, split) && |newPos| == nPairs &&
    forall i :: 0 <= i < nPairs ==> newPos[i] == if F0[i] then i else to[i]
  }

  /** newPos as the corrected reduceGraph leaves it: the new slot pair of a
      kept pair, and -1 for a removed one. */
  ghost predicate Renumbered(F0: seq<bool>, from: seq<int>, to: seq<int>, newPos: seq<int>, nPairs: int, split: int)
  {
    Partitioned(F0, from, to, nPairs, split) && |newPos| == nPairs &&
    forall i :: 0 <= i < nPairs ==> newPos[i] == if F0[i] then -1 else to[i]
  }

  /** newPos after the left-right loop, from its start np0: the new slot
      pair of a kept pair, still the start value for a removed one. */
  ghost predicate Relocated(F0: seq<bool>, np0: seq<int>, to: seq<int>, newPos: seq<int>, nPairs: int)
  {
    |F0| == |np0| == |newPos| == nPairs && |to| == nPairs &&
    forall i :: 0 <= i < nPairs ==> newPos[i] == if F0[i] then np0[i] else to[i]
  }

  /** Started as the identity, newPos ends as reduceGraph leaves it. */
  lemma IdentityStart(F0: seq<bool>, from: seq<int>, to: seq<int>, np0: seq<int>, newPos: seq<int>,
                      nPairs: int, split: int)
    requires Partitioned(F0, from, to, nPairs, split) && Relocated(F0, np0, to, newPos, nPairs)
    requires forall i :: 0 <= i < nPairs ==> np0[i] == i
    ensures RenumberedAsWritten(F0, from, to, newPos, nPairs, split)
  {
  }

  /** Started with -1 on the flagged pairs, newPos ends as the corrected
      rewrite needs it. */
  lemma KeptStart(F0: seq<bool>, from: seq<int>, to: seq<int>, np0: seq<int>, newPos: seq<int>,
                  nPairs: int, split: int)
    requires Partitioned(F0, from, to, nPairs, split) && Relocated(F0, np0, to, newPos, nPairs)
    requires forall i :: 0 <= i < nPairs ==> np0[i] == if F0[i] then -1 else i
    ensures Renumbered(F0, from, to, newPos, nPairs, split)
  {
  }

  /** The left-right loop of reduceGraph. Afterwards the pairs are a
      permutation of the old ones with every kept pair in front of every
      removed one, the flags have moved with their pairs, and newPos gives
      the new slot pair of every kept pair; a removed pair's newPos is never
      written. */
  method CompactPairs(edges: array<Edge>, removeEdges: array<bool>, newPos: array<int>, nPairs: int)
    returns (ghost from: seq<int>, ghost to: seq<int>, ghost split: int)
    requires 2 * nPairs <= edges.Length && removeEdges.Length == newPos.Length == nPairs
    requires forall i :: 0 <= i < nPairs && !removeEdges[i] ==> newPos[i] == i
    modifies edges, removeEdges, newPos
    ensures PairsMoved(old(edges[..]), edges[..], from, nPairs)
    ensures Partitioned(old(removeEdges[..]), from, to, nPairs, split)
    ensures Relocated(old(removeEdges[..]), old(newPos[..]), to, newPos[..], nPairs)
    ensures SplitAt(removeEdges[..], split)
  {
    ghost var E0, F0, np0 := edges[..], removeEdges[..], newPos[..];
    from, to := seq(nPairs, k => k), seq(nPairs, k => k);
    CompactingStart(F0, newPos[..], nPairs);
    var left := 0;
    var right := nPairs - 1;
    while left < right
      invariant Compacting(F0, removeEdges[..], from, to, np0, newPos[..], nPairs, left, right)
      invariant PairsMoved(E0, edges[..], from, nPairs)
      decreases right - left
    {
      left, right := ScanStep(removeEdges, nPairs, left, right, F0, from, to, np0, newPos[..]);
      if left < right {
        from, to := ExchangeStep(edges, removeEdges, newPos, nPairs, left, right, E0, F0, from, to, np0);
        left := left + 1;
        right := right - 1;
      }
    }
    split := CompactingDone(F0, removeEdges[..], from, to, np0, newPos[..], nPairs, left, right);
  }

  // ---------------------------------------------------------------------
  // Counting the kept pairs

  /** The flags are false before split and true from split on. */
  ghost predicate SplitAt(F: seq<bool>, split: int)
  {
    0 <= split <= |F| && forall k :: 0 <= k < |F| ==> (F[k] <==> k >= split)
  }

  /** The number of kept (unflagged) pairs. */
  function KeptCount(F: seq<bool>): nat
    decreases |F|
  {
    if F == [] then 0 else KeptCount(F[..|F| - 1]) + (if F[|F| - 1] then 0 else 1)
  }

  /** The counting loop of reduceGraph. */
  method CountKept(removeEdges: array<bool>, nPairs: int) returns (newCount: int)
    requires nPairs == removeEdges.Length
    ensures newCount == KeptCount(removeEdges[..])
  {
    newCount := 0;
    var i := 0;
    while i < nPairs
      invariant 0 <= i <= nPairs
      invariant newCount == KeptCount(removeEdges[..i])
    {
      assert removeEdges[..i + 1][..i] == removeEdges[..i];
      if !removeEdges[i] {
        newCount := newCount + 1;
      }
      i := i + 1;
    }
    assert removeEdges[..i] == removeEdges[..];
  }

  /** Flags that are false up to split and true from there count split kept
      pairs. */
  lemma {:induction false} KeptCountSplit(F: seq<bool>, split: int)
    requires SplitAt(F, split)
    ensures KeptCount(F) == split
    decreases |F|
  {
    if F != [] {
      var P := F[..|F| - 1];
      KeptCountSplit(P, if split < |F| then split else |P|);
    }
  }

  // ---------------------------------------------------------------------
  // Renumbering the adjacency lists

  /** Every entry is an arc of one of the nPairs pairs. */
  predicate ArcsBelow(list: seq<int>, nPairs: int)
  {
    forall j :: 0 <= j < |list| ==> 0 <= list[j] < 2 * nPairs
  }

  /** The new slot of arc e: its pair's new position, same side of the pair. */
  function NewArc(newPos: seq<int>, e: int): int
    requires 0 <= e < 2 * |newPos|
  {
    2 * newPos[e / 2] + e % 2
  }

  /** An adjacency list renumbered through newPos, with the arcs of removed
      pairs (newPos -1) dropped. */
  function Remap(list: seq<int>, newPos: seq<int>): (r: seq<int>)
    requires ArcsBelow(list, |newPos|)
    ensures |r| <= |list|
    decreases |list|
  {
    if list == [] then []
    else
      var e := list[|list| - 1];
      Remap(list[..|list| - 1], newPos) + (if newPos[e / 2] == -1 then [] else [NewArc(newPos, e)])
  }

  /** Every vertex's list renumbered. */
  function RemapAll(vs: seq<Vertex>, newPos: seq<int>): seq<Vertex>
    requires forall v :: 0 <= v < |vs| ==> ArcsBelow(vs[v].edges, |newPos|)
  {
    seq(|vs|, v requires 0 <= v < |vs| => Vertex(Remap(vs[v].edges, newPos), vs[v].capEdges))
  }

  /** Each entry of a renumbered list comes from a kept entry of the old list. */
  lemma {:induction false} RemapOrigin(list: seq<int>, newPos: seq<int>, p: int) returns (j: int)
    requires ArcsBelow(list, |newPos|) && 0 <= p < |Remap(list, newPos)|
    ensures 0 <= j < |list| && newPos[list[j] / 2] != -1 && Remap(list, newPos)[p] == NewArc(newPos, list[j])
    decreases |list|
  {
    var P := list[..|list| - 1];
    var R := Remap(P, newPos);
    if p < |R| {
      j := RemapOrigin(P, newPos, p);
      assert P[j] == list[j];
    } else {
      j := |list| - 1;
    }
  }

  /** Each kept entry of the old list survives, renumbered. */
  lemma {:induction false} RemapComplete(list: seq<int>, newPos: seq<int>, j: int)
    requires ArcsBelow(list, |newPos|) && 0 <= j < |list| && newPos[list[j] / 2] != -1
    ensures NewArc(newPos, list[j]) in Remap(list, newPos)
    decreases |list|
  {
    var P := list[..|list| - 1];
    if j < |list| - 1 {
      assert P[j] == list[j];
      RemapComplete(P, newPos, j);
    }
  }

  /** No two kept pairs share a new position. */
  ghost predicate KeptInjective(newPos: seq<int>)
  {
    forall i1, i2 :: 0 <= i1 < |newPos| && 0 <= i2 < |newPos| && newPos[i1] != -1 && newPos[i1] == newPos[i2] ==>
      i1 == i2
  }

  /** So no two kept arcs share a new slot. */
  lemma ArcInjective(newPos: seq<int>, e1: int, e2: int)
    requires KeptInjective(newPos) && 0 <= e1 < 2 * |newPos| && 0 <= e2 < 2 * |newPos|
    requires newPos[e1 / 2] != -1 && newPos[e2 / 2] != -1 && NewArc(newPos, e1) == NewArc(newPos, e2)
    ensures e1 == e2
  {
    assert newPos[e1 / 2] == newPos[e2 / 2];
  }

  /** A list names an edge twice only when that edge is a self-loop. */
  ghost predicate ListNoDup(list: seq<int>, es: seq<Edge>)
  {
    forall j1, j2 :: 0 <= j1 < j2 < |list| && list[j1] == list[j2] ==>
      0 <= list[j1] < |es| && es[list[j1]].v == es[list[j1]].w
  }

  /** Every kept arc's new slot holds the same edge. */
  ghost predicate ArcsMoved(newPos: seq<int>, es0: seq<Edge>, es: seq<Edge>)
    requires 2 * |newPos| <= |es0|
  {
    forall e :: 0 <= e < 2 * |newPos| && newPos[e / 2] != -1 ==>
      0 <= NewArc(newPos, e) < |es| && es[NewArc(newPos, e)] == es0[e]
  }

  /** Renumbering keeps a list free of duplicates other than self-loops. */
  lemma {:induction false} RemapNoDup(list: seq<int>, newPos: seq<int>, es0: seq<Edge>, es: seq<Edge>)
    requires ArcsBelow(list, |newPos|) && 2 * |newPos| <= |es0| && ListNoDup(list, es0)
    requires KeptInjective(newPos) && ArcsMoved(newPos, es0, es)
    ensures ListNoDup(Remap(list, newPos), es)
    decreases |list|
  {
    if list != [] {
      var P, e := list[..|list| - 1], list[|list| - 1];
      assert ListNoDup(P, es0) by {
        forall j1, j2 | 0 <= j1 < j2 < |P| && P[j1] == P[j2] ensures 0 <= P[j1] < |es0| && es0[P[j1]].v == es0[P[j1]].w {
          assert P[j1] == list[j1] && P[j2] == list[j2];
        }
      }
      RemapNoDup(P, newPos, es0, es);
      var R := Remap(P, newPos);
      if newPos[e / 2] != -1 {
        var r := R + [NewArc(newPos, e)];
        forall p1, p2 | 0 <= p1 < p2 < |r| && r[p1] == r[p2] ensures 0 <= r[p1] < |es| && es[r[p1]].v == es[r[p1]].w {
          if p2 < |R| {
            assert r[p1] == R[p1] && r[p2] == R[p2];
          } else {
            var j := RemapOrigin(P, newPos, p1);
            assert r[p1] == R[p1];
            ArcInjective(newPos, P[j], e);
            assert list[j] == list[|list| - 1];
          }
        }
      }
    }
  }

  /** The corrected loop over one list: kept arcs renumbered, arcs of removed
      pairs (newPos -1) dropped, so deg drops with them. */
  method RemapKeptList(list: seq<int>, newPos: array<int>) returns (r: seq<int>)
    requires ArcsBelow(list, newPos.Length)
    ensures r == Remap(list, newPos[..])
  {
    r := [];
    var j := 0;
    while j < |list|
      invariant 0 <= j <= |list|
      invariant ArcsBelow(list[..j], newPos.Length)
      invariant r == Remap(list[..j], newPos[..])
    {
      var oldArcI := list[j];
      var undirectedI := oldArcI / 2;
      var rem := oldArcI % 2;
      assert list[..j + 1][..j] == list[..j];
      if newPos[undirectedI] != -1 {
        r := r + [newPos[undirectedI] * 2 + rem];
      }
      j := j + 1;
    }
    assert list[..j] == list;
  }

  /** The lists vs while the last loop of reduceGraph runs: the first v
      vertices already hold their target lists want, the rest still hold
      their old lists vs0. */
  ghost predicate RewrittenUpTo(vs0: seq<Vertex>, vs: seq<Vertex>, want: seq<Vertex>, v: int)
  {
    |vs| == |vs0| == |want| && 0 <= v <= |vs0| &&
    (forall u :: 0 <= u < v ==> vs[u] == want[u]) &&
    (forall u :: v <= u < |vs0| ==> vs[u] == vs0[u])
  }

  /** Writing vertex v's target list moves the rewrite on by one vertex. */
  lemma RewrittenStep(vs0: seq<Vertex>, vs: seq<Vertex>, want: seq<Vertex>, v: int)
    requires RewrittenUpTo(vs0, vs, want, v) && v < |vs0|
    ensures RewrittenUpTo(vs0, vs[v := want[v]], want, v + 1)
  {
  }

  /** Once every vertex is rewritten the lists are the target lists. */
  lemma RewrittenDone(vs0: seq<Vertex>, vs: seq<Vertex>, want: seq<Vertex>)
    requires RewrittenUpTo(vs0, vs, want, |vs0|)
    ensures vs == want
  {
  }

  /** One pass of the corrected last loop: vertex v's list renumbered with
      its removed arcs dropped, every other vertex untouched. */
  method RewriteKeptVertex(g: Graph, newPos: array<int>, v: int)
    requires g.Valid() && 0 <= v < g.n && ArcsBelow(g.vertices[v].edges, newPos.Length)
    modifies g.vertices
    ensures g.Valid()
    ensures g.vertices[..] == old(g.vertices[..])[v := Vertex(Remap(old(g.vertices[v].edges), newPos[..]),
                                                               old(g.vertices[v].capEdges))]
  {
    var vertex := g.vertices[v];
    var kept := RemapKeptList(vertex.edges, newPos);
    g.vertices[v] := Vertex(kept, vertex.capEdges);
  }

  /** The corrected last loop of reduceGraph, with the removed arcs dropped. */
  method RewriteKeptAdjacency(g: Graph, newPos: array<int>)
    requires g.Valid()
    requires forall v :: 0 <= v < g.n ==> ArcsBelow(g.vertices[v].edges, newPos.Length)
    modifies g.vertices
    ensures g.Valid()
    ensures g.vertices[..] == RemapAll(old(g.vertices[..]), newPos[..])
  {
    ghost var vs0 := g.vertices[..];
    ghost var want := RemapAll(vs0, newPos[..]);
    var v := 0;
    while v < g.n
      invariant 0 <= v <= g.n && g.Valid()
      invariant forall u :: 0 <= u < g.n ==> ArcsBelow(vs0[u].edges, newPos.Length)
      invariant RewrittenUpTo(vs0, g.vertices[..], want, v)
    {
      ghost var vs := g.vertices[..];
      RewriteKeptVertex(g, newPos, v);
      assert want[v] == Vertex(Remap(vs0[v].edges, newPos[..]), vs0[v].capEdges);
      RewrittenStep(vs0, vs, want, v);
      v := v + 1;
    }
    RewrittenDone(vs0, g.vertices[..], want);
  }

  // ---------------------------------------------------------------------
  // The adjacency rewrite as written

  /** The last loop of reduceGraph as written: every entry is renumbered
      through newPos and none is dropped, so deg never shrinks. There newPos
      is the identity except for the kept pairs the exchange moved. */
  function AsWrittenRemap(list: seq<int>, newPos: seq<int>): (r: seq<int>)
    requires ArcsBelow(list, |newPos|)
    ensures |r| == |list|
    ensures forall j :: 0 <= j < |list| ==> r[j] == NewArc(newPos, list[j])
    decreases |list|
  {
    if list == [] then []
    else AsWrittenRemap(list[..|list| - 1], newPos) + [NewArc(newPos, list[|list| - 1])]
  }

  /** Every vertex's list renumbered as written: each keeps its length and
      its capacity. */
  function AsWrittenRemapAll(vs: seq<Vertex>, newPos: seq<int>): (r: seq<Vertex>)
    requires forall v :: 0 <= v < |vs| ==> ArcsBelow(vs[v].edges, |newPos|)
    ensures |r| == |vs|
    ensures forall v :: 0 <= v < |vs| ==> |r[v].edges| == |vs[v].edges| && r[v].capEdges == vs[v].capEdges
  {
    seq(|vs|, v requires 0 <= v < |vs| => Vertex(AsWrittenRemap(vs[v].edges, newPos), vs[v].capEdges))
  }

  /** The inner loop over one list, overwriting each entry in place with its
      pair's newPos, same side of the pair. */
  method RemapList(list: seq<int>, newPos: array<int>) returns (r: seq<int>)
    requires ArcsBelow(list, newPos.Length)
    ensures r == AsWrittenRemap(list, newPos[..])
  {
    r := list;
    var j := 0;
    while j < |list|
      invariant 0 <= j <= |list| && |r| == |list|
      invariant forall k :: 0 <= k < j ==> r[k] == NewArc(newPos[..], list[k])
      invariant forall k :: j <= k < |list| ==> r[k] == list[k]
    {
      var oldArcI := r[j];
      var undirectedI := oldArcI / 2;
      var rem := oldArcI % 2;
      r := r[j := newPos[undirectedI] * 2 + rem];
      j := j + 1;
    }
  }

  /** One pass of the last loop of reduceGraph: vertex v's list renumbered
      as written, every other vertex untouched. */
  method RewriteVertex(g: Graph, newPos: array<int>, v: int)
    requires g.Valid() && 0 <= v < g.n && ArcsBelow(g.vertices[v].edges, newPos.Length)
    modifies g.vertices
    ensures g.Valid()
    ensures g.vertices[..] == old(g.vertices[..])[v := Vertex(AsWrittenRemap(old(g.vertices[v].edges), newPos[..]),
                                                               old(g.vertices[v].capEdges))]
  {
    var vertex := g.vertices[v];
    var renumbered := RemapList(vertex.edges, newPos);
    g.vertices[v] := Vertex(renumbered, vertex.capEdges);
  }

  /** The last loop of reduceGraph: every vertex's list renumbered in place,
      deg and capacity unchanged. */
  method RewriteAdjacency(g: Graph, newPos: array<int>)
    requires g.Valid()
    requires forall v :: 0 <= v < g.n ==> ArcsBelow(g.vertices[v].edges, newPos.Length)
    modifies g.vertices
    ensures g.Valid()
    ensures g.vertices[..] == AsWrittenRemapAll(old(g.vertices[..]), newPos[..])
  {
    ghost var vs0 := g.vertices[..];
    ghost var want := AsWrittenRemapAll(vs0, newPos[..]);
    var v := 0;
    while v < g.n
      invariant 0 <= v <= g.n && g.Valid()
      invariant forall u :: 0 <= u < g.n ==> ArcsBelow(vs0[u].edges, newPos.Length)
      invariant RewrittenUpTo(vs0, g.vertices[..], want, v)
    {
      ghost var vs := g.vertices[..];
      RewriteVertex(g, newPos, v);
      assert want[v] == Vertex(AsWrittenRemap(vs0[v].edges, newPos[..]), vs0[v].capEdges);
      RewrittenStep(vs0, vs, want, v);
      v := v + 1;
    }
    RewrittenDone(vs0, g.vertices[..], want);
  }

  /** Where newPos holds no -1 the as-written rewrite and the corrected one
      agree. */
  lemma {:induction false} AsWrittenAgrees(list: seq<int>, newPos: seq<int>)
    requires ArcsBelow(list, |newPos|) && forall i :: 0 <= i < |newPos| ==> newPos[i] != -1
    ensures AsWrittenRemap(list, newPos) == Remap(list, newPos)
    decreases |list|
  {
    if list != [] {
      AsWrittenAgrees(list[..|list| - 1], newPos);
    }
  }

  /** The lists vs, rewritten from vs0 over the n vertices, keep their
      lengths; an entry of a kept pair (unflagged in F0) names its own old
      edge below the new edge count m, and an entry of a removed pair keeps
      its old number. */
  ghost predicate EntriesAsWritten(n: int, vs0: seq<Vertex>, es0: seq<Edge>, vs: seq<Vertex>, es: seq<Edge>,
                                   F0: seq<bool>, m: int)
  {
    |vs0| == |vs| == n && 0 <= m <= |es| &&
    forall v :: 0 <= v < n ==>
      |vs[v].edges| == |vs0[v].edges| &&
      forall j :: 0 <= j < |vs0[v].edges| ==>
        0 <= vs0[v].edges[j] < |es0| && 0 <= vs0[v].edges[j] / 2 < |F0| &&
        (if F0[vs0[v].edges[j] / 2] then vs[v].edges[j] == vs0[v].edges[j]
         else 0 <= vs[v].edges[j] < m && es[vs[v].edges[j]] == es0[vs0[v].edges[j]])
  }

  /** Every entry of the as-written lists: an arc of a kept pair now names
      its own edge below the new edge count; an arc of a removed pair keeps
      its old number. */
  lemma AsWrittenEntries(n: int, vs0: seq<Vertex>, es0: seq<Edge>, vs: seq<Vertex>, es: seq<Edge>,
                         F0: seq<bool>, from: seq<int>, to: seq<int>, newPos: seq<int>, nPairs: int, split: int)
    requires WFUpTo(n, vs0, es0, 2 * nPairs)
    requires RenumberedAsWritten(F0, from, to, newPos, nPairs, split) && Front(es0, es, from, split)
    requires vs == AsWrittenRemapAll(vs0, newPos)
    ensures EntriesAsWritten(n, vs0, es0, vs, es, F0, 2 * split)
  {
    forall v, j | 0 <= v < n && 0 <= j < |vs0[v].edges| && !F0[vs0[v].edges[j] / 2]
      ensures 0 <= vs[v].edges[j] < 2 * split && es[vs[v].edges[j]] == es0[vs0[v].edges[j]]
    {
      KeptArc(F0, from, to, nPairs, split, es0, es, vs0[v].edges[j]);
    }
  }

  /** A partition with no flagged pair keeps them all. */
  lemma NoFlagsKeepAll(F0: seq<bool>, from: seq<int>, to: seq<int>, nPairs: int, split: int)
    requires Partitioned(F0, from, to, nPairs, split) && forall i :: 0 <= i < nPairs ==> !F0[i]
    ensures split == nPairs
  {
    if 0 < nPairs {
      assert !F0[from[nPairs - 1]];
    }
  }

  /** When the test flags no pair, the as-written reduction is the corrected
      one, so its result is built again. */
  lemma UnflaggedReduced(n: int, vs0: seq<Vertex>, es0: seq<Edge>, vs: seq<Vertex>, es: seq<Edge>,
                         F0: seq<bool>, from: seq<int>, to: seq<int>, newPos: seq<int>, nPairs: int, split: int)
    requires WFUpTo(n, vs0, es0, 2 * nPairs) && SymUpTo(n, vs0, es0, 2 * nPairs) && NoDup(vs0, es0)
    requires RenumberedAsWritten(F0, from, to, newPos, nPairs, split) && Front(es0, es, from, split)
    requires vs == AsWrittenRemapAll(vs0, newPos) && forall i :: 0 <= i < nPairs ==> !F0[i]
    ensures split == nPairs
    ensures WFUpTo(n, vs, es, 2 * split) && SymUpTo(n, vs, es, 2 * split) && NoDup(vs, es)
  {
    NoFlagsKeepAll(F0, from, to, nPairs, split);
    forall v | 0 <= v < n ensures AsWrittenRemap(vs0[v].edges, newPos) == Remap(vs0[v].edges, newPos) {
      AsWrittenAgrees(vs0[v].edges, newPos);
    }
    assert vs == RemapAll(vs0, newPos);
    ReducedBuilt(n, vs0, es0, vs, es, F0, from, to, newPos, nPairs, split);
  }

  /** A triangle: 0-1 and 1-2 of cost 1, 0-2 of cost 5, each edge stored as
      two arcs in consecutive slots. */
  function Triangle(): seq<Edge>
  {
    [Edge(0, 1, 1), Edge(1, 0, 1), Edge(1, 2, 1), Edge(2, 1, 1), Edge(0, 2, 5), Edge(2, 0, 5)]
  }

  /** Its adjacency lists, as addEdge leaves them: each arc at both ends. */
  function TriangleLists(): seq<Vertex>
  {
    [Vertex([0, 1, 4, 5], 100), Vertex([0, 1, 2, 3], 100), Vertex([2, 3, 4, 5], 100)]
  }

  /** A strictly increasing list repeats nothing. */
  lemma IncreasingNoDup(list: seq<int>, es: seq<Edge>)
    requires forall j :: 0 < j < |list| ==> list[j - 1] < list[j]
    ensures ListNoDup(list, es)
  {
    forall j1, j2 | 0 <= j1 < j2 < |list| ensures list[j1] < list[j2] {
      IncreasingStep(list, j1, j2);
    }
  }

  lemma {:induction false} IncreasingStep(list: seq<int>, j1: int, j2: int)
    requires forall j :: 0 < j < |list| ==> list[j - 1] < list[j]
    requires 0 <= j1 < j2 < |list|
    ensures list[j1] < list[j2]
    decreases j2 - j1
  {
    if j1 + 1 < j2 {
      IncreasingStep(list, j1 + 1, j2);
    }
  }

  /** Lists with no repeats make a graph without repeated entries. */
  lemma ListsNoDup(vs: seq<Vertex>, es: seq<Edge>)
    requires forall v :: 0 <= v < |vs| ==> ListNoDup(vs[v].edges, es)
    ensures NoDup(vs, es)
  {
    forall v, j1, j2 | 0 <= v < |vs| && 0 <= j1 < j2 < |vs[v].edges| && vs[v].edges[j1] == vs[v].edges[j2]
      ensures 0 <= vs[v].edges[j1] < |es| && es[vs[v].edges[j1]].v == es[vs[v].edges[j1]].w
    {
      assert ListNoDup(vs[v].edges, es);
    }
  }

  /** The lists of the triangle, before and after the reduction, repeat
      nothing. */
  lemma TriangleListsNoDup(es: seq<Edge>)
    ensures ListNoDup([0, 1, 4, 5], es) && ListNoDup([0, 1, 2, 3], es) && ListNoDup([2, 3, 4, 5], es)
    ensures ListNoDup([0, 1], es) && ListNoDup([2, 3], es)
  {
    IncreasingNoDup([0, 1, 4, 5], es);
    IncreasingNoDup([0, 1, 2, 3], es);
    IncreasingNoDup([2, 3, 4, 5], es);
    IncreasingNoDup([0, 1], es);
    IncreasingNoDup([2, 3], es);
  }

  /** Every entry of the triangle's lists names an incident edge. */
  lemma TriangleIncident()
    ensures WFUpTo(3, TriangleLists(), Triangle(), 6)
  {
    var es, vs := Triangle(), TriangleLists();
    forall j | 0 <= j < 4
      ensures 0 <= vs[0].edges[j] < 6 && Incident(es[vs[0].edges[j]], 0)
      ensures 0 <= vs[1].edges[j] < 6 && Incident(es[vs[1].edges[j]], 1)
      ensures 0 <= vs[2].edges[j] < 6 && Incident(es[vs[2].edges[j]], 2)
    {
    }
  }

  /** Every triangle edge is listed at both of its endpoints. */
  lemma TriangleListed()
    ensures SymUpTo(3, TriangleLists(), Triangle(), 6)
  {
    var es, vs := Triangle(), TriangleLists();
    assert vs[0].edges == [0, 1, 4, 5] && vs[1].edges == [0, 1, 2, 3] && vs[2].edges == [2, 3, 4, 5];
  }

  /** The triangle is a graph as addEdge builds it. */
  lemma TriangleBuilt()
    ensures WFUpTo(3, TriangleLists(), Triangle(), 6) && SymUpTo(3, TriangleLists(), Triangle(), 6)
    ensures NoDup(TriangleLists(), Triangle())
  {
    TriangleIncident();
    TriangleListed();
    var vs, es := TriangleLists(), Triangle();
    TriangleListsNoDup(es);
    assert vs[0].edges == [0, 1, 4, 5] && vs[1].edges == [0, 1, 2, 3] && vs[2].edges == [2, 3, 4, 5];
    forall v | 0 <= v < |vs|
      ensures ListNoDup(vs[v].edges, es)
    {
      if v == 0 {
      } else if v == 1 {
      }
    }
    ListsNoDup(vs, es);
  }

  /** The 0-2 pair is bypassed by 0-1-2, so the removal test may flag it. */
  lemma TriangleShortcut()
    ensures HasShortcut(Triangle(), 6, 4)
  {
    var es := Triangle();
    assert Walk(es, 6, 2, [], 2);
    assert Walk(es, 6, 1, [2], 2);
    assert Walk(es, 6, 0, [0, 2], 2);
    assert Cost(es, [0, 2]) == 2;
  }

  /** On the triangle with the 0-2 pair flagged (TriangleShortcut shows it
      may be), whatever the other flags and however the exchange moves the
      kept pairs, that pair's newPos stays 2, so the as-written rewrite keeps
      arcs 4 and 5 in vertex 0's list. The edge array shrinks to at most 4
      slots, so the result is not well formed, whatever the edges. */
  lemma StaleEntries(F0: seq<bool>, from: seq<int>, to: seq<int>, newPos: seq<int>, split: int, es: seq<Edge>)
    requires RenumberedAsWritten(F0, from, to, newPos, 3, split) && F0[2]
    ensures split <= 2 && forall v :: 0 <= v < 3 ==> ArcsBelow(TriangleLists()[v].edges, 3)
    ensures var vs := AsWrittenRemapAll(TriangleLists(), newPos);
      vs[0].edges[2] == 4 && vs[0].edges[3] == 5 && !WFUpTo(3, vs, es, 2 * split)
  {
    assert F0[from[to[2]]];
    var vs0 := TriangleLists();
    assert vs0[0].edges == [0, 1, 4, 5] && vs0[1].edges == [0, 1, 2, 3] && vs0[2].edges == [2, 3, 4, 5];
    var vs := AsWrittenRemapAll(vs0, newPos);
    assert vs[0].edges[2] == NewArc(newPos, vs0[0].edges[2]);
    assert vs[0].edges[3] == NewArc(newPos, vs0[0].edges[3]);
  }

  /** Vertex 0 loses the arcs of the removed pair ... */
  lemma RemapFirstList()
    ensures Remap([0, 1, 4, 5], [0, 1, -1]) == [0, 1]
  {
    var np := [0, 1, -1];
    assert [0, 1, 4, 5][..3] == [0, 1, 4] && [0, 1, 4][..2] == [0, 1];
    RemapPair(0, np);
    assert Remap([0, 1, 4], np) == Remap([0, 1], np);
  }

  /** ... vertex 1 keeps its list ... */
  lemma RemapSecondList()
    ensures Remap([0, 1, 2, 3], [0, 1, -1]) == [0, 1, 2, 3]
  {
    var np := [0, 1, -1];
    RemapPair(0, np);
    assert Remap([0, 1], np) == [0, 1];
    RemapAppendPair([0, 1], 1, np);
    assert [0, 1] + [2, 3] == [0, 1, 2, 3];
  }

  /** ... and vertex 2 loses the arcs of the removed pair. */
  lemma RemapThirdList()
    ensures Remap([2, 3, 4, 5], [0, 1, -1]) == [2, 3]
  {
    var np := [0, 1, -1];
    assert [2, 3, 4, 5][..3] == [2, 3, 4] && [2, 3, 4][..2] == [2, 3];
    RemapPair(1, np);
    assert Remap([2, 3, 4], np) == Remap([2, 3], np);
  }

  /** The two arcs of a pair that stays in place keep their numbers. */
  lemma RemapPair(p: int, np: seq<int>)
    requires 0 <= p < |np| && np[p] == p
    ensures Remap([2 * p, 2 * p + 1], np) == [2 * p, 2 * p + 1]
  {
    assert [2 * p, 2 * p + 1][..1] == [2 * p] && [2 * p][..0] == [];
  }

  /** Appending a pair that stays in place appends its two arcs. */
  lemma RemapAppendPair(list: seq<int>, p: int, np: seq<int>)
    requires ArcsBelow(list, |np|) && 0 <= p < |np| && np[p] == p
    ensures Remap(list + [2 * p, 2 * p + 1], np) == Remap(list, np) + [2 * p, 2 * p + 1]
  {
    var l1 := list + [2 * p];
    assert (list + [2 * p, 2 * p + 1])[..|list| + 1] == l1 && l1[..|list|] == list;
  }

  /** Renumbering through [0, 1, -1] instead drops the arcs of the removed
      pair. */
  lemma TriangleRemapped()
    ensures forall v :: 0 <= v < 3 ==> ArcsBelow(TriangleLists()[v].edges, 3)
    ensures RemapAll(TriangleLists(), [0, 1, -1]) ==
            [Vertex([0, 1], 100), Vertex([0, 1, 2, 3], 100), Vertex([2, 3], 100)]
  {
    var vs := TriangleLists();
    assert vs[0].edges == [0, 1, 4, 5] && vs[1].edges == [0, 1, 2, 3] && vs[2].edges == [2, 3, 4, 5];
    RemapFirstList();
    RemapSecondList();
    RemapThirdList();
    var r := RemapAll(vs, [0, 1, -1]);
    assert r[0] == Vertex([0, 1], 100) && r[1] == Vertex([0, 1, 2, 3], 100) && r[2] == Vertex([2, 3], 100);
  }

  /** ... and leaves a built graph on the first 4 slots. */
  lemma TriangleReduced()
    ensures var vs := [Vertex([0, 1], 100), Vertex([0, 1, 2, 3], 100), Vertex([2, 3], 100)];
      WFUpTo(3, vs, Triangle()[..4], 4) && SymUpTo(3, vs, Triangle()[..4], 4) && NoDup(vs, Triangle()[..4])
  {
    var es := Triangle()[..4];
    var l0, l1, l2 := [0, 1], [0, 1, 2, 3], [2, 3];
    var vs := [Vertex(l0, 100), Vertex(l1, 100), Vertex(l2, 100)];
    assert es == [Edge(0, 1, 1), Edge(1, 0, 1), Edge(1, 2, 1), Edge(2, 1, 1)];
    forall v, j | 0 <= v < 3 && 0 <= j < |vs[v].edges|
      ensures 0 <= vs[v].edges[j] < 4 && Incident(es[vs[v].edges[j]], v)
    {
      if v == 0 {
        assert vs[v].edges[j] == l0[j];
      } else if v == 1 {
        assert vs[v].edges[j] == l1[j];
      } else {
        assert vs[v].edges[j] == l2[j];
      }
    }
    forall i | 0 <= i < 4
      ensures 0 <= es[i].v < 3 && 0 <= es[i].w < 3 && i in vs[es[i].v].edges && i in vs[es[i].w].edges
    {
      if i == 0 {
        assert es[i] == Edge(0, 1, 1) && l0[0] == i && l1[0] == i;
      } else if i == 1 {
        assert es[i] == Edge(1, 0, 1) && l0[1] == i && l1[1] == i;
      } else if i == 2 {
        assert es[i] == Edge(1, 2, 1) && l1[2] == i && l2[0] == i;
      } else {
        assert es[i] == Edge(2, 1, 1) && l1[3] == i && l2[1] == i;
      }
    }
    assert WFUpTo(3, vs, es, 4);
    assert SymUpTo(3, vs, es, 4);
    TriangleListsNoDup(es);
    ListsNoDup(vs, es);
  }

  // ---------------------------------------------------------------------
  // The reduced graph is a graph again

  /** The shrunk edge array: the first split slot pairs of the permuted one. */
  ghost predicate Front(es0: seq<Edge>, es: seq<Edge>, from: seq<int>, split: int)
  {
    |es| == 2 * split && |from| >= split &&
    forall k :: 0 <= k < split ==>
      0 <= 2 * from[k] + 1 < |es0| && es[2 * k] == es0[2 * from[k]] && es[2 * k + 1] == es0[2 * from[k] + 1]
  }

  /** A kept arc's new slot, its pair's new slot pair on the same side,
      lies below the new edge count and holds its edge. */
  lemma KeptArc(F0: seq<bool>, from: seq<int>, to: seq<int>, nPairs: int, split: int,
                es0: seq<Edge>, es: seq<Edge>, e: int)
    requires Partitioned(F0, from, to, nPairs, split) && Front(es0, es, from, split)
    requires 0 <= e < 2 * nPairs && !F0[e / 2]
    ensures 0 <= 2 * to[e / 2] + e % 2 < 2 * split && es[2 * to[e / 2] + e % 2] == es0[e]
  {
    var q := e / 2;
    assert from[to[q]] == q && !F0[from[to[q]]];
  }

  /** Every new slot comes from a kept arc of the old graph. */
  lemma ArcOrigin(F0: seq<bool>, from: seq<int>, to: seq<int>, newPos: seq<int>, nPairs: int, split: int,
                  es0: seq<Edge>, es: seq<Edge>, k: int) returns (o: int)
    requires Renumbered(F0, from, to, newPos, nPairs, split) && Front(es0, es, from, split)
    requires 0 <= k < 2 * split
    ensures 0 <= o < 2 * nPairs && newPos[o / 2] != -1 && NewArc(newPos, o) == k && es[k] == es0[o]
  {
    var q := k / 2;
    o := 2 * from[q] + k % 2;
    assert o / 2 == from[q] && to[from[q]] == q;
  }

  /** Every adjacency entry of the reduced graph names an incident edge below
      the new edge count. */
  lemma ReducedWellFormed(n: int, vs0: seq<Vertex>, es0: seq<Edge>, vs: seq<Vertex>, es: seq<Edge>,
                          F0: seq<bool>, from: seq<int>, to: seq<int>, newPos: seq<int>, nPairs: int, split: int)
    requires WFUpTo(n, vs0, es0, 2 * nPairs)
    requires Renumbered(F0, from, to, newPos, nPairs, split) && Front(es0, es, from, split)
    requires vs == RemapAll(vs0, newPos)
    ensures WFUpTo(n, vs, es, 2 * split)
  {
    forall i | 0 <= i < 2 * split ensures 0 <= es[i].v < n && 0 <= es[i].w < n {
      var o := ArcOrigin(F0, from, to, newPos, nPairs, split, es0, es, i);
    }
    forall v, j | 0 <= v < n && 0 <= j < |vs[v].edges|
      ensures 0 <= vs[v].edges[j] < 2 * split && Incident(es[vs[v].edges[j]], v)
    {
      var jj := RemapOrigin(vs0[v].edges, newPos, j);
      KeptArc(F0, from, to, nPairs, split, es0, es, vs0[v].edges[jj]);
    }
  }

  /** Each edge of the reduced graph is still listed at both of its ends. */
  lemma ReducedSymmetric(n: int, vs0: seq<Vertex>, es0: seq<Edge>, vs: seq<Vertex>, es: seq<Edge>,
                         F0: seq<bool>, from: seq<int>, to: seq<int>, newPos: seq<int>, nPairs: int, split: int)
    requires WFUpTo(n, vs0, es0, 2 * nPairs) && SymUpTo(n, vs0, es0, 2 * nPairs)
    requires Renumbered(F0, from, to, newPos, nPairs, split) && Front(es0, es, from, split)
    requires vs == RemapAll(vs0, newPos)
    ensures SymUpTo(n, vs, es, 2 * split)
  {
    forall i | 0 <= i < 2 * split
      ensures 0 <= es[i].v < n && 0 <= es[i].w < n && i in vs[es[i].v].edges && i in vs[es[i].w].edges
    {
      var o := ArcOrigin(F0, from, to, newPos, nPairs, split, es0, es, i);
      var a, b := vs0[es0[o].v].edges, vs0[es0[o].w].edges;
      var ja :| 0 <= ja < |a| && a[ja] == o;
      var jb :| 0 <= jb < |b| && b[jb] == o;
      RemapComplete(a, newPos, ja);
      RemapComplete(b, newPos, jb);
    }
  }

  /** The reduced lists repeat an edge only when it is a self-loop. */
  lemma ReducedNoDup(n: int, vs0: seq<Vertex>, es0: seq<Edge>, vs: seq<Vertex>, es: seq<Edge>,
                     F0: seq<bool>, from: seq<int>, to: seq<int>, newPos: seq<int>, nPairs: int, split: int)
    requires WFUpTo(n, vs0, es0, 2 * nPairs) && NoDup(vs0, es0)
    requires Renumbered(F0, from, to, newPos, nPairs, split) && Front(es0, es, from, split)
    requires vs == RemapAll(vs0, newPos)
    ensures NoDup(vs, es)
  {
    forall e | 0 <= e < 2 * |newPos| && newPos[e / 2] != -1
      ensures 0 <= NewArc(newPos, e) < |es| && es[NewArc(newPos, e)] == es0[e]
    {
      KeptArc(F0, from, to, nPairs, split, es0, es, e);
    }
    forall v | 0 <= v < n ensures ListNoDup(vs[v].edges, es) {
      assert ListNoDup(vs0[v].edges, es0);
      RemapNoDup(vs0[v].edges, newPos, es0, es);
    }
  }

  // ---------------------------------------------------------------------
  // reduceGraph

  /** newPos before the left-right loop: every pair at its own index. */
  method InitPositions(nPairs: int) returns (newPos: array<int>)
    requires 0 <= nPairs
    ensures fresh(newPos) && newPos.Length == nPairs
    ensures forall i :: 0 <= i < nPairs ==> newPos[i] == i
  {
    newPos := new int[nPairs];
    var i := 0;
    while i < nPairs
      invariant 0 <= i <= nPairs
      invariant forall k :: 0 <= k < i ==> newPos[k] == k
    {
      newPos[i] := i;
      i := i + 1;
    }
  }

  /** The corrected start of newPos: -1 for a flagged pair, so that the
      rewrite can tell its arcs apart, and the own index for a kept one. */
  method InitKeptPositions(removeEdges: array<bool>, nPairs: int) returns (newPos: array<int>)
    requires removeEdges.Length == nPairs
    ensures fresh(newPos) && newPos.Length == nPairs
    ensures forall i :: 0 <= i < nPairs ==> newPos[i] == if removeEdges[i] then -1 else i
  {
    newPos := new int[nPairs];
    var i := 0;
    while i < nPairs
      invariant 0 <= i <= nPairs
      invariant forall k :: 0 <= k < i ==> newPos[k] == if removeEdges[k] then -1 else k
    {
      newPos[i] := if removeEdges[i] then -1 else i;
      i := i + 1;
    }
  }

  /** The left-right and counting loops of reduceGraph: the pairs are
      permuted with the kept ones in front, newPos follows every kept pair
      and keeps its start value for a removed one, and newCount is the number
      of kept pairs. */
  method CompactAndCount(g: Graph, removeEdges: array<bool>, positions: array<int>)
    returns (newCount: int, ghost from: seq<int>, ghost to: seq<int>)
    requires g.Valid() && g.m % 2 == 0 && removeEdges.Length == positions.Length == g.m / 2
    requires forall i :: 0 <= i < g.m / 2 && !removeEdges[i] ==> positions[i] == i
    modifies g.edges, removeEdges, positions
    ensures PairsMoved(old(g.edges[..]), g.edges[..], from, g.m / 2)
    ensures Partitioned(old(removeEdges[..]), from, to, g.m / 2, newCount)
    ensures Relocated(old(removeEdges[..]), old(positions[..]), to, positions[..], g.m / 2)
  {
    ghost var split;
    from, to, split := CompactPairs(g.edges, removeEdges, positions, g.m / 2);
    newCount := CountKept(removeEdges, g.m / 2);
    KeptCountSplit(removeEdges[..], split);
  }

  /** The realloc: the edge array cut down to the first 2 * newCount slots. */
  method ShrinkEdges(g: Graph, newCount: int, ghost es0: seq<Edge>, ghost from: seq<int>, ghost nPairs: int)
    requires g.Valid() && PairsMoved(es0, g.edges[..], from, nPairs) && 0 <= newCount <= nPairs
    modifies g
    ensures g.n == old(g.n) && g.vertices == old(g.vertices) && g.m == 2 * newCount
    ensures g.m % 2 == 0 && g.m / 2 == newCount
    ensures fresh(g.edges) && g.Valid()
    ensures Front(es0, g.edges[..], from, newCount)
  {
    var kept := g.edges[..2 * newCount];
    g.m := newCount * 2;
    g.edges := new Edge[g.m](k requires 0 <= k < |kept| => kept[k]);
    assert g.edges[..] == kept;
  }

  /** The reduced graph is built again: well-formed, symmetric and free of
      repeated entries. */
  lemma ReducedBuilt(n: int, vs0: seq<Vertex>, es0: seq<Edge>, vs: seq<Vertex>, es: seq<Edge>,
                     F0: seq<bool>, from: seq<int>, to: seq<int>, newPos: seq<int>, nPairs: int, split: int)
    requires WFUpTo(n, vs0, es0, 2 * nPairs) && SymUpTo(n, vs0, es0, 2 * nPairs) && NoDup(vs0, es0)
    requires Renumbered(F0, from, to, newPos, nPairs, split) && Front(es0, es, from, split)
    requires vs == RemapAll(vs0, newPos)
    ensures WFUpTo(n, vs, es, 2 * split) && SymUpTo(n, vs, es, 2 * split) && NoDup(vs, es)
  {
    ReducedWellFormed(n, vs0, es0, vs, es, F0, from, to, newPos, nPairs, split);
    ReducedSymmetric(n, vs0, es0, vs, es, F0, from, to, newPos, nPairs, split);
    ReducedNoDup(n, vs0, es0, vs, es, F0, from, to, newPos, nPairs, split);
  }

  /** The flagging, left-right and counting loops of reduceGraph. */
  method PartitionEdges(g: Graph) returns (positions: array<int>, newCount: int, ghost removed: seq<bool>,
                                           ghost from: seq<int>, ghost to: seq<int>)
    requires g.Built() && g.m % 2 == 0
    modifies g.edges
    ensures fresh(positions) && positions.Length == g.m / 2
    ensures |removed| == g.m / 2 && FlagsUpTo(g.n, old(g.edges[..]), g.m, removed, g.m / 2)
    ensures RenumberedAsWritten(removed, from, to, positions[..], g.m / 2, newCount)
    ensures PairsMoved(old(g.edges[..]), g.edges[..], from, g.m / 2)
  {
    var removeEdges := FlagRemovable(g);
    removed := removeEdges[..];
    positions := InitPositions(g.m / 2);
    ghost var np0 := positions[..];
    newCount, from, to := CompactAndCount(g, removeEdges, positions);
    IdentityStart(removed, from, to, np0, positions[..], g.m / 2, newCount);
  }

  /** The same loops, with newPos started as the corrected rewrite needs. */
  method PartitionKeptEdges(g: Graph) returns (positions: array<int>, newCount: int, ghost removed: seq<bool>,
                                               ghost from: seq<int>, ghost to: seq<int>)
    requires g.Built() && g.m % 2 == 0
    modifies g.edges
    ensures fresh(positions) && positions.Length == g.m / 2
    ensures |removed| == g.m / 2 && FlagsUpTo(g.n, old(g.edges[..]), g.m, removed, g.m / 2)
    ensures Renumbered(removed, from, to, positions[..], g.m / 2, newCount)
    ensures PairsMoved(old(g.edges[..]), g.edges[..], from, g.m / 2)
  {
    var removeEdges := FlagRemovable(g);
    removed := removeEdges[..];
    positions := InitKeptPositions(removeEdges, g.m / 2);
    ghost var np0 := positions[..];
    newCount, from, to := CompactAndCount(g, removeEdges, positions);
    KeptStart(removed, from, to, np0, positions[..], g.m / 2, newCount);
  }

  /** reduceGraph as written: flag every pair with a cheaper bypass, move
      the kept pairs to the front, shrink the edge array to them and
      renumber every adjacency entry through newPos. newPos changes only for
      the kept pairs the exchange moves, so an entry of a removed pair keeps
      its old number and deg never drops: such entries may name slots past
      the new edge count, or slots now holding other edges (StaleEntries).
      Only when nothing is flagged is the result built again
      (UnflaggedReduced). */
  method ReduceGraph(g: Graph) returns (ghost removed: seq<bool>, ghost from: seq<int>, ghost to: seq<int>,
                                        ghost newPos: seq<int>)
    requires g.Built() && g.m % 2 == 0
    modifies g, g.edges, g.vertices
    ensures g.Valid() && g.n == old(g.n) && g.vertices == old(g.vertices) && g.m % 2 == 0
    ensures |removed| == old(g.m) / 2
    ensures FlagsUpTo(old(g.n), old(g.edges[..]), old(g.m), removed, old(g.m) / 2)
    ensures RenumberedAsWritten(removed, from, to, newPos, old(g.m) / 2, g.m / 2)
    ensures Front(old(g.edges[..]), g.edges[..], from, g.m / 2)
    ensures g.vertices[..] == AsWrittenRemapAll(old(g.vertices[..]), newPos)
    ensures EntriesAsWritten(g.n, old(g.vertices[..]), old(g.edges[..]), g.vertices[..], g.edges[..], removed, g.m)
  {
    ghost var es0, vs0, nPairs := g.edges[..], g.vertices[..], g.m / 2;
    var positions, newCount;
    positions, newCount, removed, from, to := PartitionEdges(g);
    newPos := positions[..];
    ShrinkEdges(g, newCount, es0, from, nPairs);
    ghost var es := g.edges[..];
    assert positions[..] == newPos;
    RewriteAdjacency(g, positions);
    assert g.edges[..] == es;
    AsWrittenEntries(g.n, vs0, es0, g.vertices[..], es, removed, from, to, newPos, nPairs, newCount);
  }

  /** reduceGraph as evidently intended: newPos starts at -1 for a flagged
      pair and the rewrite drops the arcs of removed pairs. The result is
      again a built graph whose edges are exactly the unflagged pairs of the
      old one. */
  method ReduceGraphCorrected(g: Graph) returns (ghost removed: seq<bool>, ghost from: seq<int>, ghost to: seq<int>,
                                                 ghost newPos: seq<int>)
    requires g.Built() && g.m % 2 == 0
    modifies g, g.edges, g.vertices
    ensures g.Built() && g.n == old(g.n) && g.vertices == old(g.vertices) && g.m % 2 == 0
    ensures |removed| == old(g.m) / 2
    ensures FlagsUpTo(old(g.n), old(g.edges[..]), old(g.m), removed, old(g.m) / 2)
    ensures Renumbered(removed, from, to, newPos, old(g.m) / 2, g.m / 2)
    ensures Front(old(g.edges[..]), g.edges[..], from, g.m / 2)
    ensures g.vertices[..] == RemapAll(old(g.vertices[..]), newPos)
  {
    ghost var es0, vs0, nPairs := g.edges[..], g.vertices[..], g.m / 2;
    var positions, newCount;
    positions, newCount, removed, from, to := PartitionKeptEdges(g);
    newPos := positions[..];
    ShrinkEdges(g, newCount, es0, from, nPairs);
    ghost var es := g.edges[..];
    assert positions[..] == newPos;
    RewriteKeptAdjacency(g, positions);
    ghost var vs := g.vertices[..];
    assert g.edges[..] == es;
    ReducedBuilt(g.n, vs0, es0, vs, es, removed, from, to, newPos, nPairs, newCount);
    assert g.WellFormed() && g.SymmetricUpTo(g.m) && g.NoDupAdj();
  }
}
