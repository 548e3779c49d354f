// The parallel entry point of the metric-closure 2-approximation
// (src/algorithms/two-apx/two-apx.c): every closure-tree edge's whole
// shortest path is appended to the buffer of the worker that handles it,
// and the buffers are then merged into one duplicate-free edge list.
// Workers are a schedule parameter: iteration i runs on worker
// schedule[i], one iteration after the other, on one shared PathsData.

module TwoApxParallel {
  import opened Types
  import opened Graphs
  import opened Utils
  import opened Dijkstras
  import opened Prims
  import opened InducedSubGraphs
  import opened Heuristics
  import opened TwoApx
  import opened TwoApxTrees

  // ---------------------------------------------------------------------
  // Buffer contents as sets

  /** The entries of one list, as a set. */
  ghost function Elems(s: seq<int>): set<int>
  {
    set k | k in s
  }

  /** Every entry of every worker buffer. */
  ghost function Members(bufs: seq<seq<int>>): set<int>
  {
    if bufs == [] then {} else Members(bufs[..|bufs| - 1]) + Elems(bufs[|bufs| - 1])
  }

  lemma ElemsAppend(s: seq<int>, t: seq<int>)
    ensures Elems(s + t) == Elems(s) + Elems(t)
  {
    forall x | x in s + t ensures x in s || x in t {
      var j :| 0 <= j < |s + t| && (s + t)[j] == x;
      if j >= |s| {
        assert t[j - |s|] == x;
      }
    }
    forall x | x in t ensures x in s + t {
      var j :| 0 <= j < |t| && t[j] == x;
      assert (s + t)[|s| + j] == x;
    }
  }

  /** The buffers' entries in the order the merge reads them: worker by
      worker, each buffer from its first entry. */
  function Chain(bufs: seq<seq<int>>): seq<int>
  {
    if bufs == [] then [] else Chain(bufs[..|bufs| - 1]) + bufs[|bufs| - 1]
  }

  /** The chained buffers hold every member and nothing else. */
  lemma {:induction false} ChainMembers(bufs: seq<seq<int>>)
    ensures Elems(Chain(bufs)) == Members(bufs)
  {
    if bufs != [] {
      ChainMembers(bufs[..|bufs| - 1]);
      ElemsAppend(Chain(bufs[..|bufs| - 1]), bufs[|bufs| - 1]);
    }
  }

  /** s with every repeat dropped, each entry kept where it first occurs:
      the same entries, none twice. */
  function Dedup(s: seq<int>): (r: seq<int>)
    ensures Elems(r) == Elems(s) && Distinct(r)
  {
    if s == [] then []
    else
      var d := Dedup(s[..|s| - 1]);
      assert Elems(s) == Elems(s[..|s| - 1]) + {s[|s| - 1]} by {
        ElemsSnoc(s, |s| - 1);
        assert s[..|s|] == s;
      }
      if s[|s| - 1] in d then d
      else
        ElemsAppend(d, [s[|s| - 1]]);
        assert Elems([s[|s| - 1]]) == {s[|s| - 1]};
        d + [s[|s| - 1]]
  }

  /** Reading one more entry: it is appended unless already there. */
  lemma DedupSnoc(s: seq<int>, x: int)
    ensures var d := Dedup(s); Dedup(s + [x]) == if x in d then d else d + [x]
  {
    assert (s + [x])[..|s|] == s;
  }

  /** The entries read grow by one buffer entry. */
  lemma ReadOneMore(read: seq<int>, buf: seq<int>, i: int)
    requires 0 <= i < |buf|
    ensures read + buf[..i + 1] == read + buf[..i] + [buf[i]]
  {
    assert buf[..i + 1] == buf[..i] + [buf[i]];
  }

  /** A list without repeats is its own deduplication. */
  lemma {:induction false} DedupDistinct(s: seq<int>)
    requires Distinct(s)
    ensures Dedup(s) == s
  {
    if s != [] {
      var p := s[..|s| - 1];
      assert Distinct(p);
      DedupDistinct(p);
      assert s[|s| - 1] !in p;
      assert p + [s[|s| - 1]] == s;
    }
  }

  /** One more entry of s read. */
  lemma ElemsSnoc(s: seq<int>, i: int)
    requires 0 <= i < |s|
    ensures Elems(s[..i + 1]) == Elems(s[..i]) + {s[i]}
  {
    assert s[..i + 1] == s[..i] + [s[i]];
    ElemsAppend(s[..i], [s[i]]);
    assert Elems([s[i]]) == {s[i]};
  }

  /** Appending s to one worker's buffer adds exactly s's entries. */
  lemma {:induction false} MembersAppend(bufs: seq<seq<int>>, w: int, s: seq<int>)
    requires 0 <= w < |bufs|
    ensures Members(bufs[w := bufs[w] + s]) == Members(bufs) + Elems(s)
    decreases |bufs|
  {
    var bufs' := bufs[w := bufs[w] + s];
    var last := |bufs| - 1;
    ElemsAppend(bufs[w], s);
    if w < last {
      MembersAppend(bufs[..last], w, s);
      assert bufs'[..last] == bufs[..last][w := bufs[w] + s];
    } else {
      assert bufs'[..last] == bufs[..last];
    }
  }

  /** All buffers empty: no members. */
  lemma {:induction false} MembersEmpty(bufs: seq<seq<int>>)
    requires forall w :: 0 <= w < |bufs| ==> bufs[w] == []
    ensures Members(bufs) == {}
    decreases |bufs|
  {
    if bufs != [] {
      MembersEmpty(bufs[..|bufs| - 1]);
      assert Elems(bufs[|bufs| - 1]) == {};
    }
  }

  // ---------------------------------------------------------------------
  // What the appended paths give

  /** Both ends of every edge of a walk of C-edges from a are joined to a by
      C-edges. */
  lemma {:induction false} WalkEndsConn(es: seq<Edge>, m: int, C: seq<int>, a: int, path: seq<int>, b: int)
    requires m <= |es| && Walk(es, m, a, path, b) && Along(C, path)
    ensures forall k :: 0 <= k < |path| ==>
      0 <= path[k] < m && Conn(es, m, C, a, es[path[k]].v) && Conn(es, m, C, a, es[path[k]].w)
    decreases |path|
  {
    WalkEdgesIn(es, m, a, path, b);
    if path != [] {
      var e := es[path[0]];
      var next := GetPredecessor(a, e);
      assert Walk(es, m, a, [], a) && Along(C, []);
      assert [path[0]][1..] == [] && Walk(es, m, next, [], next);
      assert Walk(es, m, a, [path[0]], next) && Along(C, [path[0]]);
      assert Conn(es, m, C, a, a) && Conn(es, m, C, a, next);
      assert Along(C, path[1..]);
      WalkEndsConn(es, m, C, next, path[1..], b);
      forall k | 1 <= k < |path|
        ensures 0 <= path[k] < m && Conn(es, m, C, a, es[path[k]].v) && Conn(es, m, C, a, es[path[k]].w)
      {
        assert path[k] == path[1..][k - 1];
        ConnTrans(es, m, C, a, next, es[path[k]].v);
        ConnTrans(es, m, C, a, next, es[path[k]].w);
      }
    }
  }

  /** x is joined to some terminal by C-edges. */
  ghost predicate EndRooted(es: seq<Edge>, m: int, terms: seq<int>, C: seq<int>, x: int)
    requires m <= |es|
  {
    exists t :: 0 <= t < |terms| && Conn(es, m, C, terms[t], x)
  }

  /** Both ends of every edge listed in s are joined to some terminal by
      C-edges. */
  ghost predicate EndsRooted(es: seq<Edge>, m: int, terms: seq<int>, C: seq<int>, s: seq<int>)
  {
    && m <= |es| && InRange(s, m)
    && forall j :: 0 <= j < |s| ==> EndRooted(es, m, terms, C, es[s[j]].v) && EndRooted(es, m, terms, C, es[s[j]].w)
  }

  /** The paths appended so far, in the order they were appended (`all`):
      edges of g that join closure-tree edges 1..i-1, each end of one joined
      to some terminal. */
  ghost predicate ParInv(es: seq<Edge>, m: int, terms: seq<int>, CE: seq<Edge>, cm: seq<int>, all: seq<int>,
                         i: int)
  {
    && EndsRooted(es, m, terms, all, all) && ClosureTreeOK(es, m, terms, CE, cm)
    && JoinedUpTo(es, m, terms, CE, cm, all, i)
  }

  /** Every edge of path is listed in all + Reverse(path). */
  lemma AlongAppended(all: seq<int>, path: seq<int>)
    ensures Along(all + Reverse(path), path)
  {
    var r := Reverse(path);
    forall k | 0 <= k < |path| ensures path[k] in all + r {
      assert r[|path| - 1 - k] == path[k];
      assert (all + r)[|all| + |path| - 1 - k] == path[k];
    }
  }

  /** Rooted ends stay rooted when more edges are listed. */
  lemma EndsRootedGrow(es: seq<Edge>, m: int, terms: seq<int>, C: seq<int>, C': seq<int>, s: seq<int>)
    requires EndsRooted(es, m, terms, C, s) && C <= C'
    ensures EndsRooted(es, m, terms, C', s)
  {
    forall j | 0 <= j < |s| ensures EndRooted(es, m, terms, C', es[s[j]].v) && EndRooted(es, m, terms, C', es[s[j]].w) {
      var e := es[s[j]];
      var tv :| 0 <= tv < |terms| && Conn(es, m, C, terms[tv], e.v);
      var tw :| 0 <= tw < |terms| && Conn(es, m, C, terms[tw], e.w);
      ConnPrefix(es, m, C, C', terms[tv], e.v);
      ConnPrefix(es, m, C, C', terms[tw], e.w);
    }
  }

  /** The ends of a walk of C-edges from terminal t are rooted, and so are
      those of the walk read backwards. */
  lemma WalkRooted(es: seq<Edge>, m: int, terms: seq<int>, C: seq<int>, t: int, path: seq<int>, b: int)
    requires m <= |es| && 0 <= t < |terms| && Walk(es, m, terms[t], path, b) && Along(C, path)
    ensures EndsRooted(es, m, terms, C, Reverse(path))
  {
    WalkEndsConn(es, m, C, terms[t], path, b);
    var r := Reverse(path);
    forall j | 0 <= j < |r|
      ensures 0 <= r[j] < m && EndRooted(es, m, terms, C, es[r[j]].v) && EndRooted(es, m, terms, C, es[r[j]].w)
    {
      assert r[j] == path[|path| - 1 - j];
    }
  }

  lemma EndsRootedConcat(es: seq<Edge>, m: int, terms: seq<int>, C: seq<int>, s: seq<int>, t: seq<int>)
    requires EndsRooted(es, m, terms, C, s) && EndsRooted(es, m, terms, C, t)
    ensures EndsRooted(es, m, terms, C, s + t)
  {
    forall j | 0 <= j < |s + t|
      ensures 0 <= (s + t)[j] < m && EndRooted(es, m, terms, C, es[(s + t)[j]].v) &&
              EndRooted(es, m, terms, C, es[(s + t)[j]].w)
    {
      if j < |s| {
        assert (s + t)[j] == s[j];
      } else {
        assert (s + t)[j] == t[j - |s|];
      }
    }
  }

  /** Closure-tree edge i joined as well. */
  lemma JoinedStep(es: seq<Edge>, m: int, terms: seq<int>, CE: seq<Edge>, cm: seq<int>, C: seq<int>, C': seq<int>,
                   i: int)
    requires m <= |es| && ClosureTreeOK(es, m, terms, CE, cm) && JoinedUpTo(es, m, terms, CE, cm, C, i)
    requires C <= C' && 1 <= i < |cm| && Conn(es, m, C', terms[CE[cm[i]].v], terms[CE[cm[i]].w])
    ensures JoinedUpTo(es, m, terms, CE, cm, C', i + 1)
  {
    forall c | 1 <= c < i && c < |cm| ensures Conn(es, m, C', terms[CE[cm[c]].v], terms[CE[cm[c]].w]) {
      ConnPrefix(es, m, C, C', terms[CE[cm[c]].v], terms[CE[cm[c]].w]);
    }
  }

  /** Appending the walk from t1 to t2 of closure-tree edge i, reversed,
      joins edge i and keeps every listed edge's ends rooted. */
  lemma ParStep(es: seq<Edge>, m: int, terms: seq<int>, CE: seq<Edge>, cm: seq<int>, all: seq<int>, i: int,
                path: seq<int>)
    requires ParInv(es, m, terms, CE, cm, all, i) && 1 <= i < |cm|
    requires Walk(es, m, terms[CE[cm[i]].v], path, terms[CE[cm[i]].w])
    ensures ParInv(es, m, terms, CE, cm, all + Reverse(path), i + 1)
  {
    assert ClosureEdgeAt(es, m, terms, CE, cm[i]);
    var all' := all + Reverse(path);
    AlongAppended(all, path);
    assert Conn(es, m, all', terms[CE[cm[i]].v], terms[CE[cm[i]].w]);
    JoinedStep(es, m, terms, CE, cm, all, all', i);
    EndsRootedGrow(es, m, terms, all, all', all);
    WalkRooted(es, m, terms, all', CE[cm[i]].v, path, terms[CE[cm[i]].w]);
    EndsRootedConcat(es, m, terms, all', all, Reverse(path));
  }

  // ---------------------------------------------------------------------
  // collectEdgesForParallel

  /** One step up the chain: the part of full below p is u's edge followed
      by the part below u, and reads backwards the other way round. */
  lemma SuffixStep(full: seq<int>, pu: seq<int>, pp: seq<int>, x: int)
    requires pu == pp + [x] && pu <= full
    ensures Reverse(full[|pp|..]) == Reverse(full[|pu|..]) + [x]
  {
    assert full[|pp|..] == [x] + full[|pu|..];
    assert ([x] + full[|pu|..])[1..] == full[|pu|..];
  }

  /** The walk loop of collectEdgesForParallel: from t2 up the predecessor
      chain of the shortest-path tree from t1, append every predecessor edge
      to the worker's buffer. The buffer gains t1's path to t2, read from
      t2's end. */
  method AppendPath(g: Graph, pd: PathsData, t1: int, t2: int, buf: seq<int>, ghost st: seq<nat>)
      returns (buf': seq<int>)
    requires pd.dist.Length == g.n && pd.preEdgeIndices.Length == g.n
    requires FromSource(g.n, g.edges[..], g.m, pd.dist[..], pd.preEdgeIndices[..], st, t1)
    requires 0 <= t2 < g.n && pd.dist[t2].Fin?
    ensures buf' == buf + Reverse(PathTo(g.n, g.edges[..], g.m, pd.dist[..], pd.preEdgeIndices[..], st, t1, t2))
  {
    ghost var es, D, P := g.edges[..], pd.dist[..], pd.preEdgeIndices[..];
    ghost var full := PathTo(g.n, es, g.m, D, P, st, t1, t2);
    PathToSource(g.n, es, g.m, D, P, st, t1);
    buf' := buf;
    var u := t2;
    while u != NoEdge && u != t1
      invariant 0 <= u < g.n && D[u].Fin?
      invariant PathTo(g.n, es, g.m, D, P, st, t1, u) <= full
      invariant buf' == buf + Reverse(full[|PathTo(g.n, es, g.m, D, P, st, t1, u)|..])
      decreases |PathTo(g.n, es, g.m, D, P, st, t1, u)|
    {
      ChainNext(g.n, es, g.m, D, P, st, t1, t1, u);
      var preEdgeI := pd.preEdgeIndices[u];
      var preEdge := g.edges[preEdgeI];
      buf' := buf' + [preEdgeI];
      ghost var p := GetPredecessor(u, preEdge);
      SuffixStep(full, PathTo(g.n, es, g.m, D, P, st, t1, u), PathTo(g.n, es, g.m, D, P, st, t1, p), preEdgeI);
      u := GetPredecessor(u, preEdge);
    }
    assert full[0..] == full;
  }

  /** cleanPathsData over the whole of both arrays. */
  method CleanAll(pd: PathsData, n: int)
    requires pd.dist.Length == n && pd.preEdgeIndices.Length == n
    modifies pd.dist, pd.preEdgeIndices
    ensures IsClean(pd.dist[..], pd.preEdgeIndices[..])
  {
    CleanPathsData(pd, n);
  }

  /** The work of one iteration on a clean PathsData: Dijkstra from t1,
      a shortest path to t2 appended to buf read from t2's end, and
      PathsData cleaned again. */
  method ShortestPathBack(g: Graph, pd: PathsData, t1: int, t2: int, buf: seq<int>)
      returns (buf': seq<int>, ghost path: seq<int>)
    requires g.Built() && 0 <= t1 < g.n && 0 <= t2 < g.n && Reachable(g.edges[..], g.m, t1, t2)
    requires pd.dist.Length == g.n && pd.preEdgeIndices.Length == g.n
    requires IsClean(pd.dist[..], pd.preEdgeIndices[..])
    modifies pd.dist, pd.preEdgeIndices
    ensures IsClean(pd.dist[..], pd.preEdgeIndices[..])
    ensures Walk(g.edges[..], g.m, t1, path, t2) && buf' == buf + Reverse(path)
    ensures IsDistance(g.edges[..], g.m, t1, t2, Cost(g.edges[..], path))
  {
    ghost var es := g.edges[..];
    ghost var st := Dijkstra(t1, pd, g);
    ghost var D, P := pd.dist[..], pd.preEdgeIndices[..];
    assert g.edges[..] == es;
    assert FromSource(g.n, es, g.m, D, P, st, t1);
    ReachedFin(g.n, es, g.m, D, P, st, t1, t2);
    DistanceOf(g.n, es, g.m, D, P, st, t1, t2);
    buf' := AppendPath(g, pd, t1, t2, buf, st);
    path := PathTo(g.n, es, g.m, D, P, st, t1, t2);
    assert Walk(es, g.m, t1, path, t2) && buf' == buf + Reverse(path);
    CleanAll(pd, g.n);
    assert g.edges[..] == es;
  }

  /** One iteration of collectEdgesForParallel, on worker tID. */
  method ParRound(g: Graph, closure: Graph, terminals: seq<int>, closureMST: array<int>, nClosure: int, i: int,
                  tID: int, pd: PathsData, edgeBuffs: seq<seq<int>>, ghost all: seq<int>)
      returns (edgeBuffs': seq<seq<int>>, ghost all': seq<int>)
    requires g.Built() && InRange(terminals, g.n) && 1 <= i < nClosure <= closureMST.Length
    requires pd.dist.Length == g.n && pd.preEdgeIndices.Length == g.n && closureMST != pd.preEdgeIndices
    requires IsClean(pd.dist[..], pd.preEdgeIndices[..]) && 0 <= tID < |edgeBuffs|
    requires ParInv(g.edges[..], g.m, terminals, closure.edges[..], closureMST[..nClosure], all, i)
    requires Members(edgeBuffs) == Elems(all)
    modifies pd.dist, pd.preEdgeIndices
    ensures |edgeBuffs'| == |edgeBuffs| && IsClean(pd.dist[..], pd.preEdgeIndices[..])
    ensures ParInv(g.edges[..], g.m, terminals, closure.edges[..], closureMST[..nClosure], all', i + 1)
    ensures Members(edgeBuffs') == Elems(all')
  {
    ghost var es, CE, cm := g.edges[..], closure.edges[..], closureMST[..nClosure];
    assert ClosureEdgeAt(es, g.m, terminals, CE, cm[i]);
    var closureEdgeI := closureMST[i];
    var closureEdge := closure.edges[closureEdgeI];
    var t1 := terminals[closureEdge.v];
    var t2 := terminals[closureEdge.w];
    var buf, path := ShortestPathBack(g, pd, t1, t2, edgeBuffs[tID]);
    edgeBuffs' := edgeBuffs[tID := buf];
    all' := all + Reverse(path);
    assert closureMST[..nClosure] == cm && g.edges[..] == es && closure.edges[..] == CE;
    ParStep(es, g.m, terminals, CE, cm, all, i, path);
    MembersAppend(edgeBuffs, tID, Reverse(path));
    ElemsAppend(all, Reverse(path));
  }

  /** collectEdgesForParallel: for every closure-tree edge i in
      1..nClosure-1, run on worker schedule[i], the shortest path between
      its terminals is appended, read from its far end, to that worker's
      buffer. `all` lists the appended paths in the order they were
      appended: the buffers hold exactly its entries, every closure-tree
      edge is joined by them, and every end of one is joined to a terminal. */
  method CollectEdgesForParallel(g: Graph, closure: Graph, terminals: seq<int>, closureMST: array<int>,
                                 nClosure: int, schedule: seq<int>, pd: PathsData, edgeBuffs: seq<seq<int>>)
      returns (edgeBuffs': seq<seq<int>>, ghost all: seq<int>)
    requires g.Built() && InRange(terminals, g.n) && 1 <= nClosure <= closureMST.Length
    requires pd.dist.Length == g.n && pd.preEdgeIndices.Length == g.n && closureMST != pd.preEdgeIndices
    requires IsClean(pd.dist[..], pd.preEdgeIndices[..])
    requires ClosureTreeOK(g.edges[..], g.m, terminals, closure.edges[..], closureMST[..nClosure])
    requires nClosure <= |schedule| && forall i :: 0 <= i < |schedule| ==> 0 <= schedule[i] < |edgeBuffs|
    requires forall w :: 0 <= w < |edgeBuffs| ==> edgeBuffs[w] == []
    modifies pd.dist, pd.preEdgeIndices
    ensures |edgeBuffs'| == |edgeBuffs| && Members(edgeBuffs') == Elems(all)
    ensures ParInv(g.edges[..], g.m, terminals, closure.edges[..], closureMST[..nClosure], all, nClosure)
  {
    ghost var es, CE, cm := g.edges[..], closure.edges[..], closureMST[..nClosure];
    MembersEmpty(edgeBuffs);
    assert Elems([]) == {};
    edgeBuffs' := edgeBuffs;
    all := [];
    for i := 1 to nClosure
      invariant |edgeBuffs'| == |edgeBuffs| && Members(edgeBuffs') == Elems(all)
      invariant IsClean(pd.dist[..], pd.preEdgeIndices[..])
      invariant g.edges[..] == es && closure.edges[..] == CE && closureMST[..nClosure] == cm
      invariant ParInv(es, g.m, terminals, CE, cm, all, i)
    {
      var tID := schedule[i];
      edgeBuffs', all := ParRound(g, closure, terminals, closureMST, nClosure, i, tID, pd, edgeBuffs', all);
    }
  }

  // ---------------------------------------------------------------------
  // mergeCollectedSets

  /** Every tree vertex is an end of a collected edge. */
  ghost predicate EndsListed(n: int, es: seq<Edge>, inT: seq<bool>, C: seq<int>)
    requires |inT| == n
  {
    forall x :: 0 <= x < n && inT[x] ==>
      exists j :: 0 <= j < |C| && 0 <= C[j] < |es| && (es[C[j]].v == x || es[C[j]].w == x)
  }

  /** The tree between steps of mergeCollectedSets. */
  ghost predicate MergeState(n: int, es: seq<Edge>, m: int, TV: seq<int>, inT: seq<bool>, C: seq<int>, vis: seq<bool>)
  {
    TreeState(n, es, m, TV, inT, C, vis) && EndsListed(n, es, inT, C)
  }

  /** Taking a fresh edge lists both its ends. */
  lemma EndsStep(n: int, es: seq<Edge>, inT: seq<bool>, C: seq<int>, eI: int)
    requires |inT| == n && EndsListed(n, es, inT, C) && 0 <= eI < |es|
    requires 0 <= es[eI].v < n && 0 <= es[eI].w < n
    ensures EndsListed(n, es, inT[es[eI].v := true][es[eI].w := true], C + [eI])
  {
    var inT', C' := inT[es[eI].v := true][es[eI].w := true], C + [eI];
    forall x | 0 <= x < n && inT'[x]
      ensures exists j :: 0 <= j < |C'| && 0 <= C'[j] < |es| && (es[C'[j]].v == x || es[C'[j]].w == x)
    {
      if x == es[eI].v || x == es[eI].w {
        assert C'[|C|] == eI;
      } else {
        var j :| 0 <= j < |C| && 0 <= C[j] < |es| && (es[C[j]].v == x || es[C[j]].w == x);
        assert C'[j] == C[j];
      }
    }
  }

  /** One entry of a worker buffer: an edge not flagged yet is listed and
      flagged, and both its ends become tree vertices. */
  method MergeEntry(g: Graph, edgeI: int, collectedEdgeIndices: array<int>, nEdges: int, treeVertices: array<int>,
                    nTreeVertices: int, inTree: array<bool>, edgesVisited: array<bool>)
      returns (nEdges': int, nTreeVertices': int)
    requires treeVertices.Length == g.n == inTree.Length && collectedEdgeIndices.Length == g.m == edgesVisited.Length
    requires treeVertices != collectedEdgeIndices && inTree != edgesVisited
    requires 0 <= nTreeVertices <= g.n && 0 <= nEdges <= g.m && 0 <= edgeI < g.m
    requires MergeState(g.n, g.edges[..], g.m, treeVertices[..nTreeVertices], inTree[..],
                        collectedEdgeIndices[..nEdges], edgesVisited[..])
    modifies collectedEdgeIndices, treeVertices, inTree, edgesVisited
    ensures 0 <= nTreeVertices' <= g.n && 0 <= nEdges' <= g.m
    ensures MergeState(g.n, g.edges[..], g.m, treeVertices[..nTreeVertices'], inTree[..],
                       collectedEdgeIndices[..nEdges'], edgesVisited[..])
    ensures var C := old(collectedEdgeIndices[..nEdges]);
      collectedEdgeIndices[..nEdges'] == if edgeI in C then C else C + [edgeI]
  {
    ghost var es, inT, C := g.edges[..], inTree[..], collectedEdgeIndices[..nEdges];
    nEdges', nTreeVertices' := nEdges, nTreeVertices;
    if !edgesVisited[edgeI] {
      nTreeVertices', nEdges' := TakeEdge(g, treeVertices, inTree, collectedEdgeIndices, edgesVisited, edgeI,
                                          nTreeVertices, nEdges);
      EndsStep(g.n, es, inT, C, edgeI);
    }
  }

  /** The entries of one worker buffer, in order: if the list so far is the
      deduplicated entries read so far, it stays so with buf read too. */
  method MergeBuffer(g: Graph, buf: seq<int>, collectedEdgeIndices: array<int>, nEdges: int, treeVertices: array<int>,
                     nTreeVertices: int, inTree: array<bool>, edgesVisited: array<bool>, ghost read: seq<int>)
      returns (nEdges': int, nTreeVertices': int)
    requires treeVertices.Length == g.n == inTree.Length && collectedEdgeIndices.Length == g.m == edgesVisited.Length
    requires treeVertices != collectedEdgeIndices && inTree != edgesVisited
    requires 0 <= nTreeVertices <= g.n && 0 <= nEdges <= g.m && InRange(buf, g.m)
    requires MergeState(g.n, g.edges[..], g.m, treeVertices[..nTreeVertices], inTree[..],
                        collectedEdgeIndices[..nEdges], edgesVisited[..])
    requires collectedEdgeIndices[..nEdges] == Dedup(read)
    modifies collectedEdgeIndices, treeVertices, inTree, edgesVisited
    ensures 0 <= nTreeVertices' <= g.n && 0 <= nEdges' <= g.m
    ensures MergeState(g.n, g.edges[..], g.m, treeVertices[..nTreeVertices'], inTree[..],
                       collectedEdgeIndices[..nEdges'], edgesVisited[..])
    ensures collectedEdgeIndices[..nEdges'] == Dedup(read + buf)
  {
    nEdges', nTreeVertices' := nEdges, nTreeVertices;
    assert read + buf[..0] == read;
    for i := 0 to |buf|
      invariant 0 <= nTreeVertices' <= g.n && 0 <= nEdges' <= g.m
      invariant MergeState(g.n, g.edges[..], g.m, treeVertices[..nTreeVertices'], inTree[..],
                           collectedEdgeIndices[..nEdges'], edgesVisited[..])
      invariant collectedEdgeIndices[..nEdges'] == Dedup(read + buf[..i])
    {
      nEdges', nTreeVertices' := MergeEntry(g, buf[i], collectedEdgeIndices, nEdges', treeVertices, nTreeVertices',
                                            inTree, edgesVisited);
      DedupSnoc(read + buf[..i], buf[i]);
      ReadOneMore(read, buf, i);
    }
    assert buf[..|buf|] == buf;
  }

  /** Every buffer holds edge slots below m. */
  ghost predicate BuffersIn(bufs: seq<seq<int>>, m: int)
  {
    forall t :: 0 <= t < |bufs| ==> InRange(bufs[t], m)
  }

  /** mergeCollectedSets: the buffers read worker by worker into one list
      of collected edges without repeats, the edges flagged and their ends
      made tree vertices. The list is the buffers' entries in worker order
      with each repeat dropped where it recurs, so it holds exactly the
      buffers' entries, and every tree vertex is an end of one of them. */
  method MergeCollectedSets(edgeBuffs: seq<seq<int>>, nThreads: int, collectedEdgeIndices: array<int>,
                            treeVertices: array<int>, nTreeVertices: int, inTree: array<bool>,
                            edgesVisited: array<bool>, g: Graph)
      returns (nEdges: int, nTreeVertices': int)
    requires g.WellFormed() && nThreads == |edgeBuffs| && BuffersIn(edgeBuffs, g.m)
    requires treeVertices.Length == g.n == inTree.Length && collectedEdgeIndices.Length == g.m == edgesVisited.Length
    requires treeVertices != collectedEdgeIndices && inTree != edgesVisited && nTreeVertices == 0
    requires (forall x :: 0 <= x < g.n ==> !inTree[x]) && forall x :: 0 <= x < g.m ==> !edgesVisited[x]
    modifies collectedEdgeIndices, treeVertices, inTree, edgesVisited
    ensures 0 <= nTreeVertices' <= g.n && 0 <= nEdges <= g.m
    ensures MergeState(g.n, g.edges[..], g.m, treeVertices[..nTreeVertices'], inTree[..],
                       collectedEdgeIndices[..nEdges], edgesVisited[..])
    ensures collectedEdgeIndices[..nEdges] == Dedup(Chain(edgeBuffs))
    ensures Elems(collectedEdgeIndices[..nEdges]) == Members(edgeBuffs)
  {
    nEdges, nTreeVertices' := 0, nTreeVertices;
    assert collectedEdgeIndices[..0] == [] && treeVertices[..0] == [] && edgeBuffs[..0] == [];
    for tID := 0 to nThreads
      invariant 0 <= nTreeVertices' <= g.n && 0 <= nEdges <= g.m
      invariant MergeState(g.n, g.edges[..], g.m, treeVertices[..nTreeVertices'], inTree[..],
                           collectedEdgeIndices[..nEdges], edgesVisited[..])
      invariant collectedEdgeIndices[..nEdges] == Dedup(Chain(edgeBuffs[..tID]))
    {
      nEdges, nTreeVertices' := MergeBuffer(g, edgeBuffs[tID], collectedEdgeIndices, nEdges, treeVertices,
                                            nTreeVertices', inTree, edgesVisited, Chain(edgeBuffs[..tID]));
      assert edgeBuffs[..tID + 1][..tID] == edgeBuffs[..tID];
    }
    assert edgeBuffs[..nThreads] == edgeBuffs;
    ChainMembers(edgeBuffs);
  }

  // ---------------------------------------------------------------------
  // parallelTwoAPX

  /** Every entry of every buffer is a member. */
  lemma {:induction false} MembersHas(bufs: seq<seq<int>>, t: int, k: int)
    requires 0 <= t < |bufs| && 0 <= k < |bufs[t]|
    ensures bufs[t][k] in Members(bufs)
    decreases |bufs|
  {
    var last := |bufs| - 1;
    if t < last {
      assert bufs[..last][t] == bufs[t];
      MembersHas(bufs[..last], t, k);
    }
  }

  /** Buffers holding only entries of a list of edge slots below m. */
  lemma BuffersFrom(bufs: seq<seq<int>>, all: seq<int>, m: int)
    requires Members(bufs) == Elems(all) && InRange(all, m)
    ensures BuffersIn(bufs, m)
  {
    forall t, k | 0 <= t < |bufs| && 0 <= k < |bufs[t]| ensures 0 <= bufs[t][k] < m {
      MembersHas(bufs, t, k);
      assert bufs[t][k] in Elems(all);
    }
  }

  /** After the merge, the collected edges are the appended ones without
      repeats: every tree vertex is joined to a terminal by them, and so is
      every closure-tree edge. */
  lemma MergedRooted(n: int, es: seq<Edge>, m: int, terms: seq<int>, CE: seq<Edge>, cm: seq<int>, all: seq<int>,
                     TV: seq<int>, inT: seq<bool>, C: seq<int>, vis: seq<bool>)
    requires ParInv(es, m, terms, CE, cm, all, |cm|) && MergeState(n, es, m, TV, inT, C, vis)
    requires Elems(C) == Elems(all)
    ensures Rooted(n, es, m, terms, inT, C) && JoinedUpTo(es, m, terms, CE, cm, C, |cm|)
  {
    forall k | k in all ensures k in C {
      assert k in Elems(all);
    }
    forall x | 0 <= x < n && inT[x] ensures exists j :: 0 <= j < |terms| && Conn(es, m, C, terms[j], x) {
      var j :| 0 <= j < |C| && 0 <= C[j] < |es| && (es[C[j]].v == x || es[C[j]].w == x);
      assert C[j] in Elems(C);
      var p :| 0 <= p < |all| && all[p] == C[j];
      assert EndRooted(es, m, terms, all, es[all[p]].v) && EndRooted(es, m, terms, all, es[all[p]].w);
      var t :| 0 <= t < |terms| && Conn(es, m, all, terms[t], x);
      ConnGrow(es, m, all, C, terms[t], x);
    }
    forall c | 1 <= c < |cm| ensures Conn(es, m, C, terms[CE[cm[c]].v], terms[CE[cm[c]].w]) {
      ConnGrow(es, m, all, C, terms[CE[cm[c]].v], terms[CE[cm[c]].w]);
    }
  }

  /** What parallelTwoAPX allocates for the merge: no flagged edges, no
      tree vertices, an empty list of collected edges. */
  method MergeStart(g: Graph)
      returns (treeVertices: array<int>, inTree: array<bool>, collectedEdges: array<int>, edgesVisited: array<bool>)
    requires g.WellFormed()
    ensures fresh(treeVertices) && fresh(inTree) && fresh(collectedEdges) && fresh(edgesVisited)
    ensures treeVertices.Length == g.n == inTree.Length && collectedEdges.Length == g.m == edgesVisited.Length
    ensures treeVertices != collectedEdges && inTree != edgesVisited
    ensures (forall x :: 0 <= x < g.n ==> !inTree[x]) && forall x :: 0 <= x < g.m ==> !edgesVisited[x]
  {
    treeVertices := new int[g.n](_ => 0);
    inTree := new bool[g.n](_ => false);
    collectedEdges := new int[g.m](_ => 0);
    edgesVisited := new bool[g.m](_ => false);
  }

  /** The collection half of parallelTwoAPX: one clean PathsData, nThreads
      empty buffers, and collectEdgesForParallel along the closure tree. */
  method ParallelPaths(g: Graph, terminals: seq<int>, closure: Graph, closureMSTindices: array<int>,
                       nThreads: nat, schedule: seq<int>)
      returns (edgeBuffs: seq<seq<int>>, ghost all: seq<int>)
    requires g.Built() && InRange(terminals, g.n) && 1 <= closure.n == closureMSTindices.Length
    requires ClosureTreeOK(g.edges[..], g.m, terminals, closure.edges[..], closureMSTindices[..])
    requires closure.n <= |schedule| && forall i :: 0 <= i < |schedule| ==> 0 <= schedule[i] < nThreads
    ensures |edgeBuffs| == nThreads && Members(edgeBuffs) == Elems(all) && BuffersIn(edgeBuffs, g.m)
    ensures ParInv(g.edges[..], g.m, terminals, closure.edges[..], closureMSTindices[..], all, closure.n)
  {
    var pathsData := new PathsData(g.n);
    edgeBuffs := seq(nThreads, _ => []);
    assert closureMSTindices[..closure.n] == closureMSTindices[..];
    edgeBuffs, all := CollectEdgesForParallel(g, closure, terminals, closureMSTindices, closure.n, schedule,
                                              pathsData, edgeBuffs);
    BuffersFrom(edgeBuffs, all, g.m);
  }

  /** The middle of parallelTwoAPX: every closure-tree path collected into
      the worker buffers, and the buffers merged into one edge set. Closure-
      tree edge i runs on worker schedule[i]. */
  method ParallelTree(g: Graph, terminals: seq<int>, closure: Graph, closureMSTindices: array<int>,
                      ghost ord: seq<nat>, nThreads: nat, schedule: seq<int>)
      returns (edgeIndices: seq<int>, nEdges: int, treeVertices: array<int>, nTreeVertices: int,
               edgesVisited: array<bool>)
    requires g.Built() && InRange(terminals, g.n) && NotAllEqual(terminals)
    requires closure.n == |terminals| && closureMSTindices.Length == closure.n
    requires ClosureTreeOK(g.edges[..], g.m, terminals, closure.edges[..], closureMSTindices[..])
    requires RootedTree(|terminals|, closure.edges[..], closure.edges.Length, closureMSTindices[..], 0, ord)
    requires forall c :: 0 <= c < |terminals| ==> InTree(closureMSTindices[..], 0, c)
    requires 1 <= nThreads && |terminals| <= |schedule| && forall i :: 0 <= i < |schedule| ==> 0 <= schedule[i] < nThreads
    ensures fresh(treeVertices) && fresh(edgesVisited)
    ensures treeVertices.Length == g.n && edgesVisited.Length == g.m
    ensures 0 <= nEdges <= |edgeIndices| && 1 <= nTreeVertices <= g.n
    ensures TreeState(g.n, g.edges[..], g.m, treeVertices[..nTreeVertices], Flags(treeVertices[..nTreeVertices], g.n),
                      edgeIndices[..nEdges], edgesVisited[..])
    ensures forall x :: x in treeVertices[..nTreeVertices] ==>
      Conn(g.edges[..], g.m, edgeIndices[..nEdges], treeVertices[0], x)
    ensures forall t :: t in terminals ==> t in treeVertices[..nTreeVertices]
  {
    ghost var es, CE, pre := g.edges[..], closure.edges[..], closureMSTindices[..];
    var edgeBuffs, all := ParallelPaths(g, terminals, closure, closureMSTindices, nThreads, schedule);
    var inTree, collectedEdges;
    treeVertices, inTree, collectedEdges, edgesVisited := MergeStart(g);
    nEdges, nTreeVertices := MergeCollectedSets(edgeBuffs, nThreads, collectedEdges, treeVertices, 0, inTree,
                                                edgesVisited, g);
    edgeIndices := collectedEdges[..];
    ghost var TV, C := treeVertices[..nTreeVertices], collectedEdges[..nEdges];
    assert edgeIndices[..nEdges] == C;
    MergedRooted(g.n, es, g.m, terminals, CE, pre, all, TV, inTree[..], C, edgesVisited[..]);
    CollectedSpan(g.n, es, g.m, terminals, TV, inTree[..], C, edgesVisited[..], CE, pre, ord);
    FlagsOf(g.n, TV, inTree[..]);
  }

  /** parallelTwoAPX: as twoAPX, with the closure-tree paths collected by
      workers into buffers of their own and merged afterwards. The closure
      rows run in the order rowSchedule assigns them to nThreads workers,
      and closure-tree edge i on worker pathSchedule[i]. The result spans a
      set of vertices holding every terminal. */
  method ParallelTwoAPX(g: Graph, terminals: seq<int>, nThreads: nat, rowSchedule: seq<int>, pathSchedule: seq<int>)
      returns (st: SteinerTree, TV: seq<int>)
    requires g.Built() && InRange(terminals, g.n) && NotAllEqual(terminals)
    requires 1 <= nThreads && |terminals| - 1 <= |rowSchedule| && |terminals| <= |pathSchedule|
    requires forall i :: 0 <= i < |rowSchedule| ==> 0 <= rowSchedule[i] < nThreads
    requires forall i :: 0 <= i < |pathSchedule| ==> 0 <= pathSchedule[i] < nThreads
    requires forall c :: 0 <= c < |terminals| ==> Reachable(g.edges[..], g.m, terminals[0], terminals[c])
    ensures TreeOn(g.n, g.edges[..], g.m, TV, st.treeEdgeIndices)
    ensures forall t :: t in terminals ==> t in TV
  {
    ghost var es := g.edges[..];
    var closure, closureMSTindices, nE, ord := CreateClosureMST(g, terminals, nThreads, rowSchedule);
    ghost var CE, pre := closure.edges[..], closureMSTindices[..];
    assert closure.SymmetricUpTo(nE);
    ClosureTreeReaches(es, g.m, terminals, closure.vertices[..], CE, nE, pre, ord);
    ClosureTreeEdges(es, g.m, terminals, CE, nE, pre, ord);

    var edgeIndices, nEdges, treeVertices, nTreeVertices, edgesVisited :=
      ParallelTree(g, terminals, closure, closureMSTindices, ord, nThreads, pathSchedule);
    TV := treeVertices[..nTreeVertices];
    st := PruneAndCleanup(g, edgeIndices, nEdges, edgesVisited, treeVertices, nTreeVertices);
  }
}
