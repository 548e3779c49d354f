// Multi-source Dijkstra with a lazy-deletion heap: distances and
// predecessor edges per vertex (struct PathsData), stale heap entries
// recognised by comparing them with the current distance.

module Dijkstras {
  import opened Types
  import opened Graphs
  import opened PrioQueues
  import opened Utils

  // ---------------------------------------------------------------------
  // Distances as values

  /** a <= b on distances, Inf on top (the negation of the C `b < a`). */
  predicate DLe(a: Dist, b: Dist)
  {
    !Less(b, a)
  }

  /** Every distance in a is at most the one in b: dist only goes down. */
  ghost predicate Below(a: seq<Dist>, b: seq<Dist>)
  {
    |a| == |b| && forall i :: 0 <= i < |a| ==> DLe(a[i], b[i])
  }

  function NumInf(a: seq<Dist>): nat
  {
    if a == [] then 0 else (if a[0] == Inf then 1 else 0) + NumInf(a[1..])
  }

  function SumFin(a: seq<Dist>): nat
  {
    if a == [] then 0 else (if a[0].Fin? then a[0].d else 0) + SumFin(a[1..])
  }

  /** A pointwise decrease that changes something lowers (NumInf, SumFin)
      lexicographically; this is why the main loop terminates. */
  lemma {:induction false} BelowMeasure(a: seq<Dist>, b: seq<Dist>)
    requires Below(a, b)
    ensures NumInf(a) <= NumInf(b)
    ensures NumInf(a) == NumInf(b) ==> SumFin(a) <= SumFin(b)
    ensures NumInf(a) == NumInf(b) && a != b ==> SumFin(a) < SumFin(b)
  {
    if a != [] {
      assert Below(a[1..], b[1..]);
      BelowMeasure(a[1..], b[1..]);
      if a[1..] == b[1..] && a[0] == b[0] {
        assert a == b;
      }
    }
  }

  lemma BelowTrans(a: seq<Dist>, b: seq<Dist>, c: seq<Dist>)
    requires Below(a, b) && Below(b, c)
    ensures Below(a, c) && (a == c ==> a == b)
  {
    if a == c {
      forall i | 0 <= i < |a| ensures a[i] == b[i] {
        assert DLe(a[i], b[i]) && DLe(b[i], c[i]);
      }
    }
  }

  /** (dist, C) is lexicographically below (dist0, C0) in (NumInf, SumFin,
      heap size): the measure of multiDijkstra's main loop. */
  predicate Progress(dist: seq<Dist>, C: multiset<Pair>, dist0: seq<Dist>, C0: multiset<Pair>)
  {
    || NumInf(dist) < NumInf(dist0)
    || (NumInf(dist) == NumInf(dist0) && SumFin(dist) < SumFin(dist0))
    || (NumInf(dist) == NumInf(dist0) && SumFin(dist) == SumFin(dist0) && |C| < |C0|)
  }

  /** All distances Inf and all predecessor edges -1. */
  ghost predicate IsClean(dist: seq<Dist>, pre: seq<int>)
  {
    |dist| == |pre| && forall i :: 0 <= i < |dist| ==> dist[i] == Inf && pre[i] == NoEdge
  }

  // ---------------------------------------------------------------------
  // The relaxation state of a graph given as values

  /** The graph's adjacency lists and first m edges are consistent. */
  ghost predicate Ctx(n: int, vs: seq<Vertex>, es: seq<Edge>, m: int)
  {
    WFUpTo(n, vs, es, m)
  }

  /** Edge e out of u is relaxed: dist[other end] <= dist[u] + cost. */
  ghost predicate RelaxedEdge(dist: seq<Dist>, u: int, e: Edge)
    requires 0 <= u < |dist| && 0 <= e.v < |dist| && 0 <= e.w < |dist|
  {
    DLe(dist[GetPredecessor(u, e)], Plus(dist[u], e.cost))
  }

  /** The first k adjacency entries of u are relaxed. */
  ghost predicate RelaxedBelow(n: int, vs: seq<Vertex>, es: seq<Edge>, m: int, dist: seq<Dist>, u: int, k: int)
    requires Ctx(n, vs, es, m) && |dist| == n && 0 <= u < n
  {
    forall j :: 0 <= j < k && j < |vs[u].edges| ==> RelaxedEdge(dist, u, es[vs[u].edges[j]])
  }

  ghost predicate RelaxedAt(n: int, vs: seq<Vertex>, es: seq<Edge>, m: int, dist: seq<Dist>, u: int)
    requires Ctx(n, vs, es, m) && |dist| == n && 0 <= u < n
  {
    RelaxedBelow(n, vs, es, m, dist, u, |vs[u].edges|)
  }

  /** u's current distance still has a heap entry, or u's edges are relaxed. */
  ghost predicate Settled(n: int, vs: seq<Vertex>, es: seq<Edge>, m: int, dist: seq<Dist>, C: multiset<Pair>, u: int)
    requires Ctx(n, vs, es, m) && |dist| == n && 0 <= u < n
  {
    dist[u].Fin? ==> Pair(u, dist[u].d) in C || RelaxedAt(n, vs, es, m, dist, u)
  }

  /** The predecessor-edge facts: -1 only for unreached vertices and sources;
      otherwise an edge at w whose far end u is reached with
      dist[u] + cost <= dist[w]. */
  ghost predicate PreEdgeOK(n: int, es: seq<Edge>, m: int, dist: seq<Dist>, pre: seq<int>, S: seq<int>, w: int)
    requires |dist| == |pre| == n && m <= |es| && 0 <= w < n
    requires forall i :: 0 <= i < m ==> 0 <= es[i].v < n && 0 <= es[i].w < n
  {
    && (pre[w] == NoEdge ==> dist[w] == Inf || w in S)
    && (pre[w] != NoEdge ==>
          && 0 <= pre[w] < m && Incident(es[pre[w]], w)
          && dist[w].Fin?
          && dist[GetPredecessor(w, es[pre[w]])].Fin?
          && dist[GetPredecessor(w, es[pre[w]])].d + es[pre[w]].cost <= dist[w].d)
  }

  /** path is a walk of edge slots (below m) leading from `from` to `to`. */
  ghost predicate Walk(es: seq<Edge>, m: int, from: int, path: seq<int>, to: int)
    requires m <= |es|
    ensures Walk(es, m, from, path, to) ==> EdgeList(path, |es|)
    decreases |path|
  {
    if path == [] then from == to
    else 0 <= path[0] < m && Incident(es[path[0]], from) &&
         Walk(es, m, GetPredecessor(from, es[path[0]]), path[1..], to)
  }

  /** A walk extended by one more edge at its end. */
  lemma {:induction false} WalkSnoc(es: seq<Edge>, m: int, from: int, path: seq<int>, to: int, i: int)
    requires m <= |es| && Walk(es, m, from, path, to) && 0 <= i < m && Incident(es[i], to)
    ensures Walk(es, m, from, path + [i], GetPredecessor(to, es[i]))
    decreases |path|
  {
    if path != [] {
      WalkSnoc(es, m, GetPredecessor(from, es[path[0]]), path[1..], to, i);
      assert (path + [i])[1..] == path[1..] + [i];
    }
  }

  /** Some walk from a source to w costs exactly c. */
  ghost predicate Attained(es: seq<Edge>, m: int, S: seq<int>, w: int, c: nat)
    requires m <= |es|
  {
    exists s, path :: s in S && Walk(es, m, s, path, w) && Cost(es, path) == c
  }

  /** Every reached vertex's distance is the cost of some walk from a source. */
  ghost predicate Reached(n: int, es: seq<Edge>, m: int, dist: seq<Dist>, S: seq<int>)
    requires |dist| == n && m <= |es|
  {
    forall w :: 0 <= w < n && dist[w].Fin? ==> Attained(es, m, S, w, dist[w].d)
  }

  /** Lowering dist[w] to dist[v] + cost through an edge at v keeps every
      reached distance attained: the walk to v, extended by that edge. */
  lemma ReachedImprove(n: int, es: seq<Edge>, m: int, dist: seq<Dist>, S: seq<int>, v: int, i: int, w: int)
    requires |dist| == n && m <= |es| && Reached(n, es, m, dist, S)
    requires 0 <= v < n && dist[v].Fin? && 0 <= i < m && Incident(es[i], v)
    requires w == GetPredecessor(v, es[i]) && 0 <= w < n
    ensures Reached(n, es, m, dist[w := Plus(dist[v], es[i].cost)], S)
  {
    assert Attained(es, m, S, v, dist[v].d);
    var s, path :| s in S && Walk(es, m, s, path, v) && Cost(es, path) == dist[v].d;
    WalkSnoc(es, m, s, path, v, i);
    CostSnoc(es, path, i);
    assert Attained(es, m, S, w, dist[v].d + es[i].cost);
  }

  /** A heap entry names a vertex of the graph. */
  predicate KeyBelow(p: Pair, n: int)
  {
    0 <= p.key < n
  }

  /** Shape facts that hold at every point of multiDijkstra. */
  ghost predicate Frame(n: int, vs: seq<Vertex>, es: seq<Edge>, m: int, dist: seq<Dist>, pre: seq<int>,
                        C: multiset<Pair>, S: seq<int>)
  {
    && Ctx(n, vs, es, m) && |dist| == |pre| == n
    && (forall p {:trigger KeyBelow(p, n)} :: p in C ==> KeyBelow(p, n))
    && (forall w :: 0 <= w < n ==> PreEdgeOK(n, es, m, dist, pre, S, w))
    && (forall i :: 0 <= i < |S| ==> 0 <= S[i] < n && dist[S[i]] == Fin(0) && pre[S[i]] == NoEdge)
    && Reached(n, es, m, dist, S)
  }

  /** The main-loop invariant: shape facts, and every reached vertex is
      either waiting in the heap with its current distance or relaxed. */
  ghost predicate Inv(n: int, vs: seq<Vertex>, es: seq<Edge>, m: int, dist: seq<Dist>, pre: seq<int>,
                      C: multiset<Pair>, S: seq<int>)
  {
    && Frame(n, vs, es, m, dist, pre, C, S)
    && forall u :: 0 <= u < n ==> Settled(n, vs, es, m, dist, C, u)
  }

  /** The relaxation-loop invariant for vertex v after k of its entries. */
  ghost predicate RelaxInv(n: int, vs: seq<Vertex>, es: seq<Edge>, m: int, dist: seq<Dist>, pre: seq<int>,
                           C: multiset<Pair>, S: seq<int>, v: int, k: int)
  {
    && Frame(n, vs, es, m, dist, pre, C, S)
    && 0 <= v < n && 0 <= k <= |vs[v].edges| && dist[v].Fin?
    && RelaxedBelow(n, vs, es, m, dist, v, k)
    && forall u :: 0 <= u < n && u != v ==> Settled(n, vs, es, m, dist, C, u)
  }

  /** Lowering dist[w] keeps every other vertex's relaxed edges relaxed. */
  lemma LowerKeepsRelaxed(n: int, vs: seq<Vertex>, es: seq<Edge>, m: int, dist: seq<Dist>, w: int, x: Dist,
                          u: int, k: int)
    requires Ctx(n, vs, es, m) && |dist| == n && 0 <= w < n && 0 <= u < n && u != w && DLe(x, dist[w])
    requires RelaxedBelow(n, vs, es, m, dist, u, k)
    ensures RelaxedBelow(n, vs, es, m, dist[w := x], u, k)
  {
    var d' := dist[w := x];
    forall j | 0 <= j < k && j < |vs[u].edges|
      ensures RelaxedEdge(d', u, es[vs[u].edges[j]])
    {
      assert RelaxedEdge(dist, u, es[vs[u].edges[j]]);
    }
  }

  /** The stale-entry branch: dropping an entry whose value is not the key's
      current distance keeps the invariant. */
  lemma DropStale(n: int, vs: seq<Vertex>, es: seq<Edge>, m: int, dist: seq<Dist>, pre: seq<int>,
                  C: multiset<Pair>, S: seq<int>, p: Pair)
    requires Inv(n, vs, es, m, dist, pre, C, S) && p in C && KeyBelow(p, n) && dist[p.key] != Fin(p.value)
    ensures Inv(n, vs, es, m, dist, pre, C - multiset{p}, S)
  {
    var C' := C - multiset{p};
    forall u | 0 <= u < n ensures Settled(n, vs, es, m, dist, C', u) {
      assert Settled(n, vs, es, m, dist, C, u);
      if dist[u].Fin? && Pair(u, dist[u].d) in C {
        assert Pair(u, dist[u].d) != p;
      }
    }
  }

  /** The live branch: an entry matching its key's distance may be taken out
      as long as that vertex's edges get relaxed next. */
  lemma TakeLive(n: int, vs: seq<Vertex>, es: seq<Edge>, m: int, dist: seq<Dist>, pre: seq<int>,
                 C: multiset<Pair>, S: seq<int>, p: Pair)
    requires Inv(n, vs, es, m, dist, pre, C, S) && p in C && KeyBelow(p, n) && dist[p.key] == Fin(p.value)
    ensures RelaxInv(n, vs, es, m, dist, pre, C - multiset{p}, S, p.key, 0)
  {
    var C' := C - multiset{p};
    forall u | 0 <= u < n && u != p.key ensures Settled(n, vs, es, m, dist, C', u) {
      assert Settled(n, vs, es, m, dist, C, u);
      if dist[u].Fin? && Pair(u, dist[u].d) in C {
        assert Pair(u, dist[u].d) != p;
      }
    }
  }

  /** Entry k of v's list needs no update: it was already relaxed. */
  lemma RelaxSkip(n: int, vs: seq<Vertex>, es: seq<Edge>, m: int, dist: seq<Dist>, pre: seq<int>,
                  C: multiset<Pair>, S: seq<int>, v: int, k: int)
    requires RelaxInv(n, vs, es, m, dist, pre, C, S, v, k) && k < |vs[v].edges|
    requires !Less(Plus(dist[v], es[vs[v].edges[k]].cost), dist[GetPredecessor(v, es[vs[v].edges[k]])])
    ensures RelaxInv(n, vs, es, m, dist, pre, C, S, v, k + 1)
  {
  }

  /** Entry k of v's list improves w: dist[w] := dist[v] + cost, the
      predecessor edge becomes that entry, and (w, dist[w]) is pushed. */
  lemma RelaxImprove(n: int, vs: seq<Vertex>, es: seq<Edge>, m: int, dist: seq<Dist>, pre: seq<int>,
                     C: multiset<Pair>, S: seq<int>, v: int, k: int, i: int, w: int, x: Dist)
    requires RelaxInv(n, vs, es, m, dist, pre, C, S, v, k) && k < |vs[v].edges|
    requires i == vs[v].edges[k] && w == GetPredecessor(v, es[i]) && x == Plus(dist[v], es[i].cost)
    requires Less(x, dist[w])
    ensures w != v && 0 <= w < n && x.Fin?
    ensures RelaxInv(n, vs, es, m, dist[w := x], pre[w := i], C + multiset{Pair(w, x.d)}, S, v, k + 1)
  {
    var d', C' := dist[w := x], C + multiset{Pair(w, x.d)};
    FrameImprove(n, vs, es, m, dist, pre, C, S, v, i, w, x);
    LowerKeepsRelaxed(n, vs, es, m, dist, w, x, v, k);
    forall u | 0 <= u < n && u != v ensures Settled(n, vs, es, m, d', C', u) {
      assert Settled(n, vs, es, m, dist, C, u);
      if u != w && dist[u].Fin? && Pair(u, dist[u].d) !in C {
        LowerKeepsRelaxed(n, vs, es, m, dist, w, x, u, |vs[u].edges|);
      }
    }
  }

  /** The shape facts survive an improvement through edge i at v. */
  lemma FrameImprove(n: int, vs: seq<Vertex>, es: seq<Edge>, m: int, dist: seq<Dist>, pre: seq<int>,
                     C: multiset<Pair>, S: seq<int>, v: int, i: int, w: int, x: Dist)
    requires Frame(n, vs, es, m, dist, pre, C, S)
    requires 0 <= v < n && dist[v].Fin? && 0 <= i < m && Incident(es[i], v)
    requires w == GetPredecessor(v, es[i]) && x == Plus(dist[v], es[i].cost) && Less(x, dist[w])
    ensures w != v && 0 <= w < n && x.Fin?
    ensures Frame(n, vs, es, m, dist[w := x], pre[w := i], C + multiset{Pair(w, x.d)}, S)
  {
    var e := es[i];
    var d', p' := dist[w := x], pre[w := i];
    assert Incident(e, w) && GetPredecessor(w, e) == v;
    forall u | 0 <= u < n ensures PreEdgeOK(n, es, m, d', p', S, u) {
      assert PreEdgeOK(n, es, m, dist, pre, S, u);
      if u != w && p'[u] != NoEdge {
        var y := GetPredecessor(u, es[p'[u]]);
        assert DLe(d'[y], dist[y]);
      }
    }
    forall t | 0 <= t < |S| ensures d'[S[t]] == Fin(0) && p'[S[t]] == NoEdge {
      assert S[t] != w;
    }
    ReachedImprove(n, es, m, dist, S, v, i, w);
  }

  /** Once all of v's entries are relaxed, the main invariant is back. */
  lemma RelaxDone(n: int, vs: seq<Vertex>, es: seq<Edge>, m: int, dist: seq<Dist>, pre: seq<int>,
                  C: multiset<Pair>, S: seq<int>, v: int)
    requires 0 <= v < |vs| && RelaxInv(n, vs, es, m, dist, pre, C, S, v, |vs[v].edges|)
    ensures Inv(n, vs, es, m, dist, pre, C, S)
  {
    assert Settled(n, vs, es, m, dist, C, v);
  }

  /** What the sources loop leaves: no predecessor edges, each source at
      distance 0 with an entry (s, 0), everything else unreached. */
  ghost predicate Seeded(n: int, dist: seq<Dist>, pre: seq<int>, C: multiset<Pair>, S: seq<int>)
  {
    && |dist| == |pre| == n
    && (forall i :: 0 <= i < |S| ==> 0 <= S[i] < n)
    && (forall u :: 0 <= u < n ==> pre[u] == NoEdge && (dist[u] == Inf || u in S))
    && (forall u :: 0 <= u < n && u in S ==> dist[u] == Fin(0) && Pair(u, 0) in C)
    && (forall p {:trigger KeyBelow(p, n)} :: p in C ==> KeyBelow(p, n))
  }

  /** The sources loop after its first i turns. */
  ghost predicate SeedInv(n: int, dist: seq<Dist>, pre: seq<int>, C: multiset<Pair>, S: seq<int>, i: int)
  {
    && |dist| == |pre| == n && 0 <= i <= |S|
    && (forall j :: 0 <= j < |S| ==> 0 <= S[j] < n)
    && (forall u :: 0 <= u < n ==> pre[u] == NoEdge && (dist[u] == Inf || (dist[u] == Fin(0) && u in S)))
    && (forall j :: 0 <= j < i ==> dist[S[j]] == Fin(0) && Pair(S[j], 0) in C)
    && (forall p {:trigger KeyBelow(p, n)} :: p in C ==> KeyBelow(p, n))
  }

  lemma SeedStart(n: int, dist: seq<Dist>, pre: seq<int>, S: seq<int>)
    requires IsClean(dist, pre) && |dist| == n
    requires forall j :: 0 <= j < |S| ==> 0 <= S[j] < n
    ensures SeedInv(n, dist, pre, multiset{}, S, 0)
  {
  }

  lemma SeedStep(n: int, dist: seq<Dist>, pre: seq<int>, C: multiset<Pair>, S: seq<int>, i: int)
    requires SeedInv(n, dist, pre, C, S, i) && i < |S|
    ensures SeedInv(n, dist[S[i] := Fin(0)], pre, C + multiset{Pair(S[i], 0)}, S, i + 1)
  {
  }

  lemma SeedEnd(n: int, dist: seq<Dist>, pre: seq<int>, C: multiset<Pair>, S: seq<int>)
    requires SeedInv(n, dist, pre, C, S, |S|)
    ensures Seeded(n, dist, pre, C, S)
  {
    forall u | 0 <= u < n && u in S ensures dist[u] == Fin(0) && Pair(u, 0) in C {
      var j :| 0 <= j < |S| && S[j] == u;
    }
  }

  /** The main loop may start from a seeded state. */
  lemma SourcesSeeded(n: int, vs: seq<Vertex>, es: seq<Edge>, m: int, dist: seq<Dist>, pre: seq<int>,
                      C: multiset<Pair>, S: seq<int>)
    requires Ctx(n, vs, es, m) && Seeded(n, dist, pre, C, S)
    ensures Inv(n, vs, es, m, dist, pre, C, S)
  {
    forall w | 0 <= w < n && dist[w].Fin? ensures Attained(es, m, S, w, dist[w].d) {
      assert Walk(es, m, w, [], w) && Cost(es, []) == 0;
    }
  }

  // ---------------------------------------------------------------------
  // Predecessor chains descend

  /** A stamp above every stamp in st: the time of the next update. */
  function Top(st: seq<nat>): (t: nat)
    ensures forall i :: 0 <= i < |st| ==> st[i] < t
  {
    if st == [] then 0 else var r := Top(st[1..]); if st[0] < r then r else st[0] + 1
  }

  /** Along w's predecessor edge the distance drops, or it stays and the
      stamp (time of the last update) drops: predecessor chains cannot
      cycle, even through edges of cost 0. */
  ghost predicate StepDown(n: int, es: seq<Edge>, m: int, dist: seq<Dist>, pre: seq<int>, st: seq<nat>, w: int)
    requires |dist| == |pre| == |st| == n && m <= |es| && 0 <= w < n
    requires forall i :: 0 <= i < m ==> 0 <= es[i].v < n && 0 <= es[i].w < n
  {
    pre[w] != NoEdge && 0 <= pre[w] < m && dist[w].Fin? && dist[GetPredecessor(w, es[pre[w]])].Fin? ==>
      var u := GetPredecessor(w, es[pre[w]]);
      dist[u].d < dist[w].d || (dist[u].d == dist[w].d && st[u] < st[w])
  }

  ghost predicate Descends(n: int, es: seq<Edge>, m: int, dist: seq<Dist>, pre: seq<int>, st: seq<nat>)
  {
    && |dist| == |pre| == |st| == n && 0 <= m <= |es|
    && (forall i :: 0 <= i < m ==> 0 <= es[i].v < n && 0 <= es[i].w < n)
    && forall w :: 0 <= w < n ==> StepDown(n, es, m, dist, pre, st, w)
  }

  /** Without predecessor edges every chain is trivially descending. */
  lemma DescendsClean(n: int, es: seq<Edge>, m: int, dist: seq<Dist>, pre: seq<int>, st: seq<nat>)
    requires |dist| == |pre| == |st| == n && 0 <= m <= |es|
    requires forall u :: 0 <= u < n ==> pre[u] == NoEdge
    requires forall i :: 0 <= i < m ==> 0 <= es[i].v < n && 0 <= es[i].w < n
    ensures Descends(n, es, m, dist, pre, st)
  {
  }

  /** An improvement of w through edge i at v, stamped with a fresh time,
      keeps every chain descending: w now points at v (distance no larger,
      stamp older), and whoever pointed at w sees a strictly smaller distance. */
  lemma DescendsImprove(n: int, vs: seq<Vertex>, es: seq<Edge>, m: int, dist: seq<Dist>, pre: seq<int>,
                        C: multiset<Pair>, S: seq<int>, st: seq<nat>, v: int, i: int, w: int, x: Dist)
    requires Frame(n, vs, es, m, dist, pre, C, S) && Descends(n, es, m, dist, pre, st)
    requires 0 <= v < n && dist[v].Fin? && 0 <= i < m && Incident(es[i], v)
    requires w == GetPredecessor(v, es[i]) && x == Plus(dist[v], es[i].cost) && Less(x, dist[w])
    ensures 0 <= w < n
    ensures Descends(n, es, m, dist[w := x], pre[w := i], st[w := Top(st)])
  {
    var e := es[i];
    var d', p', st' := dist[w := x], pre[w := i], st[w := Top(st)];
    assert Incident(e, w) && GetPredecessor(w, e) == v;
    forall u | 0 <= u < n ensures StepDown(n, es, m, d', p', st', u) {
      assert StepDown(n, es, m, dist, pre, st, u);
      assert PreEdgeOK(n, es, m, dist, pre, S, u);
    }
  }

  /** The source a reached vertex's predecessor chain ends at. */
  ghost function PreRoot(n: int, es: seq<Edge>, m: int, dist: seq<Dist>, pre: seq<int>, st: seq<nat>,
                         S: seq<int>, w: int): (s: int)
    requires ShortestPaths(n, es, m, dist, pre, S) && Descends(n, es, m, dist, pre, st)
    requires 0 <= w < n && dist[w].Fin?
    ensures s in S
    decreases dist[w].d, st[w]
  {
    assert PreEdge(n, es, m, dist, pre, S, w) && StepDown(n, es, m, dist, pre, st, w);
    if pre[w] == NoEdge then w else PreRoot(n, es, m, dist, pre, st, S, GetPredecessor(w, es[pre[w]]))
  }

  /** The predecessor edges from PreRoot(w) down to w: a walk whose cost is
      exactly dist[w], so the predecessor edges realise every distance. */
  ghost function PrePath(n: int, es: seq<Edge>, m: int, dist: seq<Dist>, pre: seq<int>, st: seq<nat>,
                         S: seq<int>, w: int): (path: seq<int>)
    requires ShortestPaths(n, es, m, dist, pre, S) && Descends(n, es, m, dist, pre, st)
    requires 0 <= w < n && dist[w].Fin?
    ensures Walk(es, m, PreRoot(n, es, m, dist, pre, st, S, w), path, w)
    ensures Cost(es, path) == dist[w].d
    decreases dist[w].d, st[w]
  {
    assert PreEdge(n, es, m, dist, pre, S, w) && StepDown(n, es, m, dist, pre, st, w);
    if pre[w] == NoEdge then
      assert Walk(es, m, w, [], w);
      []
    else
      var u := GetPredecessor(w, es[pre[w]]);
      var front := PrePath(n, es, m, dist, pre, st, S, u);
      GetPredecessorTwice(w, es[pre[w]]);
      WalkSnoc(es, m, PreRoot(n, es, m, dist, pre, st, S, u), front, u, pre[w]);
      CostSnoc(es, front, pre[w]);
      front + [pre[w]]
  }

  // ---------------------------------------------------------------------
  // What a finished run guarantees

  /** Every edge slot below m is relaxed in both directions. */
  ghost predicate AllEdgesRelaxed(n: int, es: seq<Edge>, m: int, dist: seq<Dist>)
    requires |dist| == n && m <= |es|
    requires forall i :: 0 <= i < m ==> 0 <= es[i].v < n && 0 <= es[i].w < n
  {
    forall i :: 0 <= i < m ==>
      DLe(dist[es[i].w], Plus(dist[es[i].v], es[i].cost)) &&
      DLe(dist[es[i].v], Plus(dist[es[i].w], es[i].cost))
  }

  /** With an empty heap every vertex is relaxed, so (in a graph where every
      edge is listed at both endpoints) every edge is. */
  lemma FinishedRelaxesAll(n: int, vs: seq<Vertex>, es: seq<Edge>, m: int, dist: seq<Dist>, pre: seq<int>,
                           S: seq<int>)
    requires Inv(n, vs, es, m, dist, pre, multiset{}, S) && SymUpTo(n, vs, es, m)
    ensures AllEdgesRelaxed(n, es, m, dist)
    ensures forall w :: 0 <= w < n ==> PreEdge(n, es, m, dist, pre, S, w)
  {
    forall i | 0 <= i < m
      ensures DLe(dist[es[i].w], Plus(dist[es[i].v], es[i].cost))
      ensures DLe(dist[es[i].v], Plus(dist[es[i].w], es[i].cost))
    {
      var e := es[i];
      EdgeRelaxedFrom(n, vs, es, m, dist, pre, S, i, e.v);
      EdgeRelaxedFrom(n, vs, es, m, dist, pre, S, i, e.w);
    }
    forall w | 0 <= w < n
      ensures PreEdge(n, es, m, dist, pre, S, w)
    {
      assert PreEdgeOK(n, es, m, dist, pre, S, w);
      if pre[w] != NoEdge {
        var e := es[pre[w]];
        EdgeRelaxedFrom(n, vs, es, m, dist, pre, S, pre[w], GetPredecessor(w, e));
      }
    }
  }

  lemma EdgeRelaxedFrom(n: int, vs: seq<Vertex>, es: seq<Edge>, m: int, dist: seq<Dist>, pre: seq<int>,
                        S: seq<int>, i: int, u: int)
    requires Inv(n, vs, es, m, dist, pre, multiset{}, S) && SymUpTo(n, vs, es, m)
    requires 0 <= i < m && Incident(es[i], u)
    ensures DLe(dist[GetPredecessor(u, es[i])], Plus(dist[u], es[i].cost))
  {
    assert i in vs[u].edges;
    var j :| 0 <= j < |vs[u].edges| && vs[u].edges[j] == i;
    assert Settled(n, vs, es, m, dist, multiset{}, u);
    if dist[u].Fin? {
      assert RelaxedEdge(dist, u, es[vs[u].edges[j]]);
    }
  }

  /** What the predecessor edges say after a run: -1 marks an unreached
      vertex or a source; any other entry is an edge at w through which
      dist[w] is exactly dist[other end] + cost. */
  ghost predicate PreEdge(n: int, es: seq<Edge>, m: int, dist: seq<Dist>, pre: seq<int>, S: seq<int>, w: int)
    requires |dist| == |pre| == n && m <= |es| && 0 <= w < n
    requires forall i :: 0 <= i < m ==> 0 <= es[i].v < n && 0 <= es[i].w < n
  {
    && (pre[w] == NoEdge ==> dist[w] == Inf || w in S)
    && (pre[w] != NoEdge ==>
          && 0 <= pre[w] < m && Incident(es[pre[w]], w) && dist[w].Fin?
          && dist[w] == Plus(dist[GetPredecessor(w, es[pre[w]])], es[pre[w]].cost))
  }

  // ---------------------------------------------------------------------
  // Distances bound every walk from a source

  /** With every edge relaxed, a reached vertex bounds everything it reaches:
      dist[to] <= dist[from] + the cost of any walk between them. */
  lemma {:induction false} WalkBound(n: int, es: seq<Edge>, m: int, dist: seq<Dist>, from: int, path: seq<int>, to: int)
    requires |dist| == n && m <= |es| && 0 <= from < n && 0 <= to < n
    requires forall i :: 0 <= i < m ==> 0 <= es[i].v < n && 0 <= es[i].w < n
    requires AllEdgesRelaxed(n, es, m, dist) && Walk(es, m, from, path, to)
    ensures EdgeList(path, |es|)
    ensures DLe(dist[to], Plus(dist[from], Cost(es, path)))
    decreases |path|
  {
    if path != [] {
      var e := es[path[0]];
      var next := GetPredecessor(from, e);
      WalkBound(n, es, m, dist, next, path[1..], to);
      assert DLe(dist[next], Plus(dist[from], e.cost));
    }
  }

  /** Once every edge is relaxed and the sources are at 0, no walk from a
      source to w is shorter than dist[w]. */
  lemma SourcesBound(n: int, es: seq<Edge>, m: int, dist: seq<Dist>, S: seq<int>)
    requires |dist| == n && m <= |es|
    requires forall i :: 0 <= i < m ==> 0 <= es[i].v < n && 0 <= es[i].w < n
    requires AllEdgesRelaxed(n, es, m, dist)
    requires forall i :: 0 <= i < |S| ==> 0 <= S[i] < n && dist[S[i]] == Fin(0)
    ensures forall s, path, w :: s in S && 0 <= w < n && Walk(es, m, s, path, w) ==>
      DLe(dist[w], Fin(Cost(es, path)))
  {
    forall s, path, w | s in S && 0 <= w < n && Walk(es, m, s, path, w)
      ensures DLe(dist[w], Fin(Cost(es, path)))
    {
      WalkBound(n, es, m, dist, s, path, w);
    }
  }

  /** What multiDijkstra promises: sources at distance 0 without predecessor
      edge, every edge relaxed, no walk from a source shorter than dist, and
      the predecessor edges realising every distance. */
  ghost predicate ShortestPaths(n: int, es: seq<Edge>, m: int, dist: seq<Dist>, pre: seq<int>, S: seq<int>)
  {
    && |dist| == |pre| == n && 0 <= m <= |es|
    && (forall i :: 0 <= i < m ==> 0 <= es[i].v < n && 0 <= es[i].w < n)
    && (forall i :: 0 <= i < |S| ==> 0 <= S[i] < n && dist[S[i]] == Fin(0) && pre[S[i]] == NoEdge)
    && AllEdgesRelaxed(n, es, m, dist)
    && (forall s, path, w :: s in S && 0 <= w < n && Walk(es, m, s, path, w) ==>
          DLe(dist[w], Fin(Cost(es, path))))
    && (forall w :: 0 <= w < n ==> PreEdge(n, es, m, dist, pre, S, w))
  }

  /** An empty heap at the end of the main loop means the run is done. */
  lemma Finished(n: int, vs: seq<Vertex>, es: seq<Edge>, m: int, dist: seq<Dist>, pre: seq<int>, S: seq<int>)
    requires Inv(n, vs, es, m, dist, pre, multiset{}, S) && SymUpTo(n, vs, es, m)
    ensures ShortestPaths(n, es, m, dist, pre, S)
  {
    FinishedRelaxesAll(n, vs, es, m, dist, pre, S);
    SourcesBound(n, es, m, dist, S);
  }

  // ---------------------------------------------------------------------
  // The imperative code

  class PathsData {
    var dist: array<Dist>
    var preEdgeIndices: array<int>

    /** createPathsData(n): n unreached vertices without predecessor edges. */
    constructor (n: nat)
      ensures fresh(dist) && fresh(preEdgeIndices)
      ensures dist.Length == n && preEdgeIndices.Length == n
      ensures IsClean(dist[..], preEdgeIndices[..])
    {
      dist := new Dist[n];
      preEdgeIndices := new int[n];
      new;
      CleanPathsData(this, n);
    }
  }

  /** cleanPathsData(pd, n): reset the first n entries to Inf and -1. */
  method CleanPathsData(pd: PathsData, n: int)
    requires 0 <= n <= pd.dist.Length && n <= pd.preEdgeIndices.Length
    modifies pd.dist, pd.preEdgeIndices
    ensures forall i :: 0 <= i < n ==> pd.dist[i] == Inf && pd.preEdgeIndices[i] == NoEdge
    ensures forall i :: n <= i < pd.dist.Length ==> pd.dist[i] == old(pd.dist[i])
    ensures forall i :: n <= i < pd.preEdgeIndices.Length ==> pd.preEdgeIndices[i] == old(pd.preEdgeIndices[i])
  {
    var i := 0;
    while i < n
      invariant 0 <= i <= n
      invariant forall k :: 0 <= k < i ==> pd.dist[k] == Inf && pd.preEdgeIndices[k] == NoEdge
      invariant forall k :: n <= k < pd.dist.Length ==> pd.dist[k] == old(pd.dist[k])
      invariant forall k :: n <= k < pd.preEdgeIndices.Length ==> pd.preEdgeIndices[k] == old(pd.preEdgeIndices[k])
    {
      pd.preEdgeIndices[i] := NoEdge;
      pd.dist[i] := Inf;
      i := i + 1;
    }
  }

  /** createMultiPathDatas: nPaths separate clean PathsData of length pathLen. */
  method CreateMultiPathDatas(nPaths: nat, pathLen: nat) returns (pds: array<PathsData>)
    ensures fresh(pds) && pds.Length == nPaths
    ensures forall t :: 0 <= t < nPaths ==>
      && fresh(pds[t]) && fresh(pds[t].dist) && fresh(pds[t].preEdgeIndices)
      && pds[t].dist.Length == pathLen && pds[t].preEdgeIndices.Length == pathLen
      && IsClean(pds[t].dist[..], pds[t].preEdgeIndices[..])
    ensures forall t, u :: 0 <= t < u < nPaths ==>
      pds[t] != pds[u] && pds[t].dist != pds[u].dist && pds[t].preEdgeIndices != pds[u].preEdgeIndices
  {
    var first := new PathsData(pathLen);
    pds := new PathsData[nPaths](_ => first);
    var t := 0;
    while t < nPaths
      invariant 0 <= t <= nPaths
      invariant forall k :: 0 <= k < t ==>
        && fresh(pds[k]) && fresh(pds[k].dist) && fresh(pds[k].preEdgeIndices)
        && pds[k].dist.Length == pathLen && pds[k].preEdgeIndices.Length == pathLen
        && IsClean(pds[k].dist[..], pds[k].preEdgeIndices[..])
      invariant forall k, u :: 0 <= k < u < t ==>
        pds[k] != pds[u] && pds[k].dist != pds[u].dist && pds[k].preEdgeIndices != pds[u].preEdgeIndices
    {
      var pd := new PathsData(pathLen);
      pds[t] := pd;
      t := t + 1;
    }
  }

  /** The graph arrays as values: g is not changed by these algorithms. */
  ghost predicate GraphIs(g: Graph, vs: seq<Vertex>, es: seq<Edge>)
    reads g, g.vertices, g.edges
  {
    g.vertices[..] == vs && g.edges[..] == es && g.n == |vs| && 0 <= g.m <= |es|
  }

  /** The three writes of a successful relaxation: dist[w] and w's
      predecessor edge are set, and (w, x) is pushed. */
  method Improve(w: int, x: nat, edgeI: int, pd: PathsData, pq: PrioQueue,
                 ghost d: seq<Dist>, ghost pre: seq<int>, ghost C: multiset<Pair>)
      returns (ghost d': seq<Dist>, ghost pre': seq<int>, ghost C': multiset<Pair>)
    requires pq.Valid() && pq.IsHeap() && pq.n > 0
    requires pd.dist[..] == d && pd.preEdgeIndices[..] == pre && pq.Contents() == C
    requires 0 <= w < |d| && w < |pre|
    modifies pd.dist, pd.preEdgeIndices, pq, pq.queue
    ensures pq.Valid() && pq.IsHeap() && pq.n >= old(pq.n)
    ensures pq.queue == old(pq.queue) || fresh(pq.queue)
    ensures d' == d[w := Fin(x)] && pre' == pre[w := edgeI] && C' == C + multiset{Pair(w, x)}
    ensures pd.dist[..] == d' && pd.preEdgeIndices[..] == pre' && pq.Contents() == C'
  {
    pd.dist[w] := Fin(x);
    pd.preEdgeIndices[w] := edgeI;
    d', pre' := pd.dist[..], pd.preEdgeIndices[..];
    pq.Insert(Pair(w, x));
    C' := pq.Contents();
  }

  /** One pass of the inner for-loop of multiDijkstra: entry i of v's list
      leads to w; when dist[v] + cost beats dist[w], dist[w] and w's
      predecessor edge are updated and (w, newDist) is pushed. */
  method RelaxEntry(v: int, i: int, pd: PathsData, g: Graph, pq: PrioQueue,
                    ghost vs: seq<Vertex>, ghost es: seq<Edge>, ghost S: seq<int>,
                    ghost d: seq<Dist>, ghost pre: seq<int>, ghost C: multiset<Pair>, ghost st: seq<nat>)
      returns (ghost d': seq<Dist>, ghost pre': seq<int>, ghost C': multiset<Pair>, ghost st': seq<nat>)
    requires GraphIs(g, vs, es)
    requires pq.Valid() && pq.IsHeap() && pq.n >= g.n
    requires pd.dist[..] == d && pd.preEdgeIndices[..] == pre && pq.Contents() == C
    requires RelaxInv(g.n, vs, es, g.m, d, pre, C, S, v, i) && i < |vs[v].edges|
    requires Descends(g.n, es, g.m, d, pre, st)
    modifies pd.dist, pd.preEdgeIndices, pq, pq.queue
    ensures pq.Valid() && pq.IsHeap() && pq.n >= g.n
    ensures pq.queue == old(pq.queue) || fresh(pq.queue)
    ensures pd.dist[..] == d' && pd.preEdgeIndices[..] == pre' && pq.Contents() == C'
    ensures RelaxInv(g.n, vs, es, g.m, d', pre', C', S, v, i + 1)
    ensures Descends(g.n, es, g.m, d', pre', st')
    ensures Below(d', d) && (d' == d ==> C' == C)
  {
    d', pre', C', st' := d, pre, C, st;
    var edgeI := g.vertices[v].edges[i];   // getEdgeIndex(v, i, g)
    var e := g.edges[edgeI];               // getEdge(v, i, g)
    var w := GetPredecessor(v, e);
    var newDist := Plus(pd.dist[v], e.cost);
    assert edgeI == vs[v].edges[i] && e == es[edgeI];
    if Less(newDist, pd.dist[w]) {
      RelaxImprove(g.n, vs, es, g.m, d, pre, C, S, v, i, edgeI, w, newDist);
      DescendsImprove(g.n, vs, es, g.m, d, pre, C, S, st, v, edgeI, w, newDist);
      st' := st[w := Top(st)];
      d', pre', C' := Improve(w, newDist.d, edgeI, pd, pq, d, pre, C);
      assert d'[w] != d[w];
    } else {
      RelaxSkip(g.n, vs, es, g.m, d, pre, C, S, v, i);
      assert RelaxInv(g.n, vs, es, g.m, d', pre', C', S, v, i + 1);
    }
  }

  /** The inner for-loop of multiDijkstra: relax every edge of v. */
  method RelaxEdges(v: int, pd: PathsData, g: Graph, pq: PrioQueue,
                    ghost vs: seq<Vertex>, ghost es: seq<Edge>, ghost S: seq<int>, ghost st0: seq<nat>)
      returns (ghost st: seq<nat>)
    requires GraphIs(g, vs, es)
    requires pq.Valid() && pq.IsHeap() && pq.n >= g.n
    requires RelaxInv(g.n, vs, es, g.m, pd.dist[..], pd.preEdgeIndices[..], pq.Contents(), S, v, 0)
    requires Descends(g.n, es, g.m, pd.dist[..], pd.preEdgeIndices[..], st0)
    modifies pd.dist, pd.preEdgeIndices, pq, pq.queue
    ensures pq.Valid() && pq.IsHeap() && pq.n >= g.n
    ensures pq.queue == old(pq.queue) || fresh(pq.queue)
    ensures Inv(g.n, vs, es, g.m, pd.dist[..], pd.preEdgeIndices[..], pq.Contents(), S)
    ensures Descends(g.n, es, g.m, pd.dist[..], pd.preEdgeIndices[..], st)
    ensures Below(pd.dist[..], old(pd.dist[..]))
    ensures pd.dist[..] == old(pd.dist[..]) ==> pq.Contents() == old(pq.Contents())
  {
    ghost var d0, C0 := pd.dist[..], pq.Contents();
    ghost var d, pre, C := d0, pd.preEdgeIndices[..], C0;
    st := st0;
    var i := 0;
    while i < |g.vertices[v].edges|
      invariant 0 <= i <= |vs[v].edges|
      invariant pq.Valid() && pq.IsHeap() && pq.n >= g.n
      invariant pq.queue == old(pq.queue) || fresh(pq.queue)
      invariant pd.dist[..] == d && pd.preEdgeIndices[..] == pre && pq.Contents() == C
      invariant RelaxInv(g.n, vs, es, g.m, d, pre, C, S, v, i)
      invariant Descends(g.n, es, g.m, d, pre, st)
      invariant Below(d, d0) && (d == d0 ==> C == C0)
    {
      ghost var d1 := d;
      d, pre, C, st := RelaxEntry(v, i, pd, g, pq, vs, es, S, d, pre, C, st);
      BelowTrans(d, d1, d0);
      i := i + 1;
    }
    RelaxDone(g.n, vs, es, g.m, d, pre, C, S, v);
  }

  /** multiDijkstra: shortest distances from the nearest of the sources over
      a built graph, with the predecessor edge of every reached non-source.
      pd must be clean (as createPathsData or cleanPathsData leave it). */
  method MultiDijkstra(sources: array<int>, nSources: int, pd: PathsData, g: Graph)
      returns (ghost st: seq<nat>)
    requires g.Built()
    requires 0 <= nSources <= sources.Length && sources != pd.preEdgeIndices
    requires forall j :: 0 <= j < nSources ==> 0 <= sources[j] < g.n
    requires pd.dist.Length == g.n && pd.preEdgeIndices.Length == g.n
    requires IsClean(pd.dist[..], pd.preEdgeIndices[..])
    modifies pd.dist, pd.preEdgeIndices
    ensures ShortestPaths(g.n, g.edges[..], g.m, pd.dist[..], pd.preEdgeIndices[..], sources[..nSources])
    ensures Descends(g.n, g.edges[..], g.m, pd.dist[..], pd.preEdgeIndices[..], st)
  {
    ghost var vs, es, S := g.vertices[..], g.edges[..], sources[..nSources];
    assert GraphIs(g, vs, es);
    var pq := new PrioQueue(g.n);
    SeedSources(sources, nSources, pd, pq, g.n);
    SourcesSeeded(g.n, vs, es, g.m, pd.dist[..], pd.preEdgeIndices[..], pq.Contents(), S);
    st := seq(g.n, _ => 0);
    DescendsClean(g.n, es, g.m, pd.dist[..], pd.preEdgeIndices[..], st);
    st := DrainQueue(pd, g, pq, vs, es, S, st);
    Finished(g.n, vs, es, g.m, pd.dist[..], pd.preEdgeIndices[..], S);
  }

  /** The main loop of multiDijkstra: settle the least entry until the heap
      is empty. It ends because every turn lowers some distance or removes
      an entry. */
  method DrainQueue(pd: PathsData, g: Graph, pq: PrioQueue, ghost vs: seq<Vertex>, ghost es: seq<Edge>,
                    ghost S: seq<int>, ghost st0: seq<nat>)
      returns (ghost st: seq<nat>)
    requires GraphIs(g, vs, es)
    requires pq.Valid() && pq.IsHeap() && pq.n >= g.n
    requires Inv(g.n, vs, es, g.m, pd.dist[..], pd.preEdgeIndices[..], pq.Contents(), S)
    requires Descends(g.n, es, g.m, pd.dist[..], pd.preEdgeIndices[..], st0)
    modifies pd.dist, pd.preEdgeIndices, pq, pq.queue
    ensures Inv(g.n, vs, es, g.m, pd.dist[..], pd.preEdgeIndices[..], multiset{}, S)
    ensures Descends(g.n, es, g.m, pd.dist[..], pd.preEdgeIndices[..], st)
  {
    ghost var d, pre, C := pd.dist[..], pd.preEdgeIndices[..], pq.Contents();
    st := st0;
    var empty := pq.IsEmpty();
    while !empty
      invariant pq.Valid() && pq.IsHeap() && pq.n >= g.n
      invariant pq.queue == old(pq.queue) || fresh(pq.queue)
      invariant pd.dist[..] == d && pd.preEdgeIndices[..] == pre && pq.Contents() == C
      invariant empty <==> C == multiset{}
      invariant Inv(g.n, vs, es, g.m, d, pre, C, S)
      invariant Descends(g.n, es, g.m, d, pre, st)
      decreases NumInf(d), SumFin(d), |C|
    {
      d, pre, C, st := SettleMin(pd, g, pq, vs, es, S, d, pre, C, st);
      empty := pq.IsEmpty();
    }
  }

  /** The sources loop of multiDijkstra: every source gets distance 0 and a
      heap entry (s, 0). */
  method SeedSources(sources: array<int>, nSources: int, pd: PathsData, pq: PrioQueue, n: int)
    requires 0 <= nSources <= sources.Length
    requires forall j :: 0 <= j < nSources ==> 0 <= sources[j] < n
    requires pd.dist.Length == n && pd.preEdgeIndices.Length == n
    requires IsClean(pd.dist[..], pd.preEdgeIndices[..])
    requires pq.Valid() && pq.IsHeap() && pq.n >= n && pq.Contents() == multiset{}
    modifies pd.dist, pq, pq.queue
    ensures pq.Valid() && pq.IsHeap() && pq.n >= n
    ensures pq.queue == old(pq.queue) || fresh(pq.queue)
    ensures Seeded(n, pd.dist[..], pd.preEdgeIndices[..], pq.Contents(), sources[..nSources])
  {
    ghost var S := sources[..nSources];
    ghost var d, pre, C := pd.dist[..], pd.preEdgeIndices[..], pq.Contents();
    SeedStart(n, d, pre, S);
    var i := 0;
    while i < nSources
      invariant pq.Valid() && pq.IsHeap() && pq.n >= n
      invariant pq.queue == old(pq.queue) || fresh(pq.queue)
      invariant pd.dist[..] == d && pq.Contents() == C
      invariant SeedInv(n, d, pre, C, S, i)
    {
      SeedStep(n, d, pre, C, S, i);
      d, C := SeedOne(sources[i], pd, pq, n, d, C);
      i := i + 1;
    }
    SeedEnd(n, d, pre, C, S);
  }

  /** One turn of the sources loop: dist[s] = 0 and (s, 0) is pushed. */
  method SeedOne(s: int, pd: PathsData, pq: PrioQueue, n: int, ghost d: seq<Dist>, ghost C: multiset<Pair>)
      returns (ghost d': seq<Dist>, ghost C': multiset<Pair>)
    requires 0 <= s < n == pd.dist.Length
    requires pq.Valid() && pq.IsHeap() && pq.n >= n
    requires pd.dist[..] == d && pq.Contents() == C
    modifies pd.dist, pq, pq.queue
    ensures pq.Valid() && pq.IsHeap() && pq.n >= n
    ensures pq.queue == old(pq.queue) || fresh(pq.queue)
    ensures d' == d[s := Fin(0)] && C' == C + multiset{Pair(s, 0)}
    ensures pd.dist[..] == d' && pq.Contents() == C'
  {
    pd.dist[s] := Fin(0);
    pq.Insert(Pair(s, 0));
    d', C' := d[s := Fin(0)], C + multiset{Pair(s, 0)};
  }

  /** One turn of multiDijkstra's main loop: take the least entry; a stale
      one (its value is no longer its key's distance) is skipped, a live one
      has its key's edges relaxed. */
  method SettleMin(pd: PathsData, g: Graph, pq: PrioQueue,
                   ghost vs: seq<Vertex>, ghost es: seq<Edge>, ghost S: seq<int>,
                   ghost d: seq<Dist>, ghost pre: seq<int>, ghost C: multiset<Pair>, ghost st: seq<nat>)
      returns (ghost d': seq<Dist>, ghost pre': seq<int>, ghost C': multiset<Pair>, ghost st': seq<nat>)
    requires GraphIs(g, vs, es)
    requires pq.Valid() && pq.IsHeap() && pq.n >= g.n && C != multiset{}
    requires pd.dist[..] == d && pd.preEdgeIndices[..] == pre && pq.Contents() == C
    requires Inv(g.n, vs, es, g.m, d, pre, C, S) && Descends(g.n, es, g.m, d, pre, st)
    modifies pd.dist, pd.preEdgeIndices, pq, pq.queue
    ensures pq.Valid() && pq.IsHeap() && pq.n >= g.n
    ensures pq.queue == old(pq.queue) || fresh(pq.queue)
    ensures pd.dist[..] == d' && pd.preEdgeIndices[..] == pre' && pq.Contents() == C'
    ensures Inv(g.n, vs, es, g.m, d', pre', C', S) && Descends(g.n, es, g.m, d', pre', st')
    ensures Below(d', d) && (d' == d ==> |C'| < |C|)
    ensures Progress(d', C', d, C)
  {
    var v := pq.ExtractMin();
    assert KeyBelow(v, g.n);
    if Fin(v.value) != pd.dist[v.key] {
      DropStale(g.n, vs, es, g.m, d, pre, C, S, v);
      d', pre', C', st' := d, pre, pq.Contents(), st;
      assert Below(d, d);
    } else {
      TakeLive(g.n, vs, es, g.m, d, pre, C, S, v);
      st' := RelaxEdges(v.key, pd, g, pq, vs, es, S, st);
      d', pre', C' := pd.dist[..], pd.preEdgeIndices[..], pq.Contents();
    }
    BelowMeasure(d', d);
  }

  /** dijkstra(s): multiDijkstra from the single source s. */
  method Dijkstra(s: int, pd: PathsData, g: Graph) returns (ghost st: seq<nat>)
    requires g.Built() && 0 <= s < g.n
    requires pd.dist.Length == g.n && pd.preEdgeIndices.Length == g.n
    requires IsClean(pd.dist[..], pd.preEdgeIndices[..])
    modifies pd.dist, pd.preEdgeIndices
    ensures ShortestPaths(g.n, g.edges[..], g.m, pd.dist[..], pd.preEdgeIndices[..], [s])
    ensures Descends(g.n, g.edges[..], g.m, pd.dist[..], pd.preEdgeIndices[..], st)
  {
    var sources := new int[1](_ => s);
    st := MultiDijkstra(sources, 1, pd, g);
    assert sources[..1] == [s];
  }
}
