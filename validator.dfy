// The result check of the test driver (isSteinerTree): a list of edge
// indices is accepted as a Steiner tree for the terminals when it has one
// edge fewer than the vertices it touches, touches every terminal, and
// puts every touched vertex in one union-find set.

module Validators {
  import opened Types
  import opened Graphs
  import opened Utils
  import opened Dijkstras
  import opened Heuristics
  import opened TwoApx
  import opened UnionFinds

  // ---------------------------------------------------------------------
  // What an accepted edge list is

  /** Every listed edge is one of the first m and has both ends among the
      n vertices. */
  predicate ListedEdges(n: int, es: seq<Edge>, m: int, st: seq<int>)
  {
    0 <= m <= |es| &&
    forall i :: 0 <= i < |st| ==> 0 <= st[i] < m && 0 <= es[st[i]].v < n && 0 <= es[st[i]].w < n
  }

  /** x is an endpoint of one of the first k listed edges. */
  ghost predicate TouchedBy(es: seq<Edge>, st: seq<int>, k: int, x: int)
    requires 0 <= k <= |st| && forall i :: 0 <= i < |st| ==> 0 <= st[i] < |es|
  {
    exists i :: 0 <= i < k && Incident(es[st[i]], x)
  }

  /** The touched flags of the n vertices. */
  ghost function Touched(n: nat, es: seq<Edge>, st: seq<int>): (t: seq<bool>)
    requires forall i :: 0 <= i < |st| ==> 0 <= st[i] < |es|
    ensures |t| == n
  {
    seq(n, x => TouchedBy(es, st, |st|, x))
  }

  /** Number of set flags. */
  function CountTrue(f: seq<bool>): (c: nat)
    ensures c <= |f|
  {
    if f == [] then 0 else CountTrue(f[..|f| - 1]) + (if f[|f| - 1] then 1 else 0)
  }

  /** The number of set flags is the number of flagged positions. */
  lemma {:induction false} CountTrueSet(f: seq<bool>)
    ensures CountTrue(f) == |set x | 0 <= x < |f| && f[x]|
  {
    if f != [] {
      var f0 := f[..|f| - 1];
      CountTrueSet(f0);
      var S0 := set x | 0 <= x < |f0| && f0[x];
      var S := set x | 0 <= x < |f| && f[x];
      if f[|f| - 1] {
        assert S == S0 + {|f| - 1};
      } else {
        assert S == S0;
      }
    }
  }

  /** The edge list as a Steiner tree for terms: with at most one terminal
      it must be empty; otherwise it has one edge fewer than the vertices it
      touches, touches every terminal, and joins every two touched vertices
      by a walk over listed edges. */
  ghost predicate AcceptedTree(n: nat, es: seq<Edge>, m: int, st: seq<int>, terms: seq<int>)
    requires ListedEdges(n, es, m, st) && forall j :: 0 <= j < |terms| ==> 0 <= terms[j] < n
  {
    if |terms| <= 1 then |st| == 0
    else
      var t := Touched(n, es, st);
      && |st| == CountTrue(t) - 1
      && (forall j :: 0 <= j < |terms| ==> t[terms[j]])
      && (forall x, y :: 0 <= x < n && 0 <= y < n && t[x] && t[y] ==> Conn(es, m, st, x, y))
  }

  // ---------------------------------------------------------------------
  // Union-find sets against walks

  /** The representatives reps split the n vertices exactly into the
      classes joined by walks over the edges listed in C. */
  ghost predicate Partition(n: int, reps: seq<int>, es: seq<Edge>, m: int, C: seq<int>)
    requires 0 <= m <= |es|
  {
    |reps| == n &&
    forall x, y :: 0 <= x < n && 0 <= y < n ==> (reps[x] == reps[y] <==> Conn(es, m, C, x, y))
  }

  /** With no edges listed, every vertex is its own class. */
  lemma PartitionStart(n: int, reps: seq<int>, es: seq<Edge>, m: int)
    requires 0 <= m <= |es| && |reps| == n && forall x :: 0 <= x < n ==> reps[x] == x
    ensures Partition(n, reps, es, m, [])
  {
    forall x, y | 0 <= x < n && 0 <= y < n && Conn(es, m, [], x, y) ensures x == y {
      var p :| Walk(es, m, x, p, y) && Along([], p);
      if |p| > 0 {
        assert p[0] !in [];
      }
    }
    forall x, y | 0 <= x < n && 0 <= y < n && x == y ensures Conn(es, m, [], x, y) {
      assert Walk(es, m, x, [], y) && Along([], []);
    }
  }

  /** A walk over edges whose two ends always carry the same label starts
      and ends on the same label. */
  lemma {:induction false} WalkKeepsLabel(n: int, labels: seq<int>, es: seq<Edge>, m: int, C: seq<int>,
                                          a: int, path: seq<int>, b: int)
    requires 0 <= m <= |es| && |labels| == n && 0 <= a < n
    requires forall k :: 0 <= k < |C| ==>
      0 <= C[k] < m && 0 <= es[C[k]].v < n && 0 <= es[C[k]].w < n && labels[es[C[k]].v] == labels[es[C[k]].w]
    requires Walk(es, m, a, path, b) && Along(C, path)
    ensures 0 <= b < n && labels[a] == labels[b]
    decreases |path|
  {
    if path != [] {
      var k :| 0 <= k < |C| && C[k] == path[0];
      var a' := GetPredecessor(a, es[path[0]]);
      assert Along(C, path[1..]) by {
        forall j | 0 <= j < |path[1..]| ensures path[1..][j] in C {
          assert path[1..][j] == path[j + 1];
        }
      }
      WalkKeepsLabel(n, labels, es, m, C, a', path[1..], b);
    }
  }

  /** The single listed edge i joins its two ends. */
  lemma ConnEdge(es: seq<Edge>, m: int, C: seq<int>, i: int)
    requires 0 <= m <= |es| && 0 <= i < m && i in C
    ensures Conn(es, m, C, es[i].v, es[i].w)
  {
    assert Walk(es, m, es[i].w, [], es[i].w);
    assert Walk(es, m, es[i].v, [i], es[i].w);
    assert Along(C, [i]);
  }

  /** unionSet on the ends of edge i turns a partition for C into one for
      C + [i]: the classes of the two ends merge under R, one of their
      old representatives, and every other class stays. */
  lemma UnionStep(n: int, reps: seq<int>, reps': seq<int>, es: seq<Edge>, m: int, C: seq<int>, i: int, R: int)
    requires 0 <= m <= |es| && Partition(n, reps, es, m, C) && |reps'| == n
    requires forall k :: 0 <= k < |C| ==> 0 <= C[k] < m && 0 <= es[C[k]].v < n && 0 <= es[C[k]].w < n
    requires 0 <= i < m && 0 <= es[i].v < n && 0 <= es[i].w < n
    requires R == reps[es[i].v] || R == reps[es[i].w]
    requires forall z :: 0 <= z < n ==>
      reps'[z] == if reps[z] == reps[es[i].v] || reps[z] == reps[es[i].w] then R else reps[z]
    ensures Partition(n, reps', es, m, C + [i])
  {
    var v, w, C' := es[i].v, es[i].w, C + [i];
    assert forall x :: x in C ==> x in C';
    ConnEdge(es, m, C', i);
    forall k | 0 <= k < |C'|
      ensures 0 <= C'[k] < m && 0 <= es[C'[k]].v < n && 0 <= es[C'[k]].w < n
      ensures reps'[es[C'[k]].v] == reps'[es[C'[k]].w]
    {
      if k < |C| {
        assert C'[k] == C[k];
        ConnEdge(es, m, C, C[k]);
      }
    }
    forall x, y | 0 <= x < n && 0 <= y < n
      ensures reps'[x] == reps'[y] <==> Conn(es, m, C', x, y)
    {
      if Conn(es, m, C', x, y) {
        var p :| Walk(es, m, x, p, y) && Along(C', p);
        WalkKeepsLabel(n, reps', es, m, C', x, p, y);
      }
      if reps'[x] == reps'[y] {
        JoinedAfterUnion(n, reps, reps', es, m, C, i, R, x, y);
      }
    }
  }

  /** The walk half of UnionStep. */
  lemma JoinedAfterUnion(n: int, reps: seq<int>, reps': seq<int>, es: seq<Edge>, m: int, C: seq<int>, i: int,
                         R: int, x: int, y: int)
    requires 0 <= m <= |es| && Partition(n, reps, es, m, C) && |reps'| == n
    requires 0 <= i < m && 0 <= es[i].v < n && 0 <= es[i].w < n
    requires R == reps[es[i].v] || R == reps[es[i].w]
    requires forall z :: 0 <= z < n ==>
      reps'[z] == if reps[z] == reps[es[i].v] || reps[z] == reps[es[i].w] then R else reps[z]
    requires 0 <= x < n && 0 <= y < n && reps'[x] == reps'[y]
    ensures Conn(es, m, C + [i], x, y)
  {
    var v, w, C' := es[i].v, es[i].w, C + [i];
    assert forall z :: z in C ==> z in C';
    var inX := reps[x] == reps[v] || reps[x] == reps[w];
    var inY := reps[y] == reps[v] || reps[y] == reps[w];
    if !inX && !inY {
      ConnGrow(es, m, C, C', x, y);
    } else {
      assert inX && inY;
      ConnEdge(es, m, C', i);
      // x reaches v or w, and so does y; v and w are joined by edge i
      var ex := if reps[x] == reps[v] then v else w;
      var ey := if reps[y] == reps[v] then v else w;
      assert Conn(es, m, C, x, ex) && Conn(es, m, C, ey, y);
      ConnGrow(es, m, C, C', x, ex);
      ConnGrow(es, m, C, C', ey, y);
      assert Conn(es, m, C', ex, ey) by {
        if ex == ey {
          assert Walk(es, m, ex, [], ey) && Along(C', []);
        } else if ex == v {
          assert ey == w;
        } else {
          assert ex == w && ey == v;
          ConnSym(es, m, C', v, w);
        }
      }
      ConnTrans(es, m, C', x, ex, ey);
      ConnTrans(es, m, C', x, ey, y);
    }
  }

  /** The touched flags after the first k listed edges. */
  ghost function TouchedUpTo(n: nat, es: seq<Edge>, st: seq<int>, k: int): (t: seq<bool>)
    requires 0 <= k <= |st| && forall i :: 0 <= i < |st| ==> 0 <= st[i] < |es|
    ensures |t| == n
  {
    seq(n, x => TouchedBy(es, st, k, x))
  }

  /** One more listed edge flags exactly its two ends. */
  lemma TouchedStep(n: nat, es: seq<Edge>, st: seq<int>, k: int)
    requires 0 <= k < |st| && forall i :: 0 <= i < |st| ==> 0 <= st[i] < |es|
    requires 0 <= es[st[k]].v < n && 0 <= es[st[k]].w < n
    ensures TouchedUpTo(n, es, st, k + 1) == TouchedUpTo(n, es, st, k)[es[st[k]].v := true][es[st[k]].w := true]
  {
    var t, t' := TouchedUpTo(n, es, st, k), TouchedUpTo(n, es, st, k + 1);
    var e := es[st[k]];
    forall x | 0 <= x < n ensures t'[x] == t[e.v := true][e.w := true][x] {
      if TouchedBy(es, st, k, x) {
        var j :| 0 <= j < k && Incident(es[st[j]], x);
        assert 0 <= j < k + 1 && Incident(es[st[j]], x);
      }
      if Incident(e, x) {
        assert 0 <= k < k + 1 && Incident(es[st[k]], x);
      }
    }
  }

  /** Every terminal is flagged. */
  ghost predicate AllFlagged(terms: seq<int>, t: seq<bool>)
  {
    forall j :: 0 <= j < |terms| ==> 0 <= terms[j] < |t| && t[terms[j]]
  }

  /** All flagged vertices share one representative. */
  ghost predicate OneSet(t: seq<bool>, reps: seq<int>)
  {
    forall x, y :: 0 <= x < |t| && 0 <= y < |t| && x < |reps| && y < |reps| && t[x] && t[y] ==> reps[x] == reps[y]
  }

  /** AcceptedTree in terms of union-find representatives: the three checks
      isSteinerTree makes after its union loop. */
  lemma AcceptedByReps(n: nat, es: seq<Edge>, m: int, st: seq<int>, terms: seq<int>, reps: seq<int>)
    requires ListedEdges(n, es, m, st) && (forall j :: 0 <= j < |terms| ==> 0 <= terms[j] < n) && |terms| > 1
    requires Partition(n, reps, es, m, st)
    ensures var t := Touched(n, es, st);
      AcceptedTree(n, es, m, st, terms) <==> |st| == CountTrue(t) - 1 && AllFlagged(terms, t) && OneSet(t, reps)
  {
  }

  // ---------------------------------------------------------------------
  // isSteinerTree

  /** One turn of the union loop of isSteinerTree: unionSet on the ends of
      listed edge gi merges their classes, which keeps the sets in step
      with the walks over the edges seen so far. */
  method UnionEdge(uf: UnionFind, n: int, ghost es: seq<Edge>, ghost m: int, ghost C: seq<int>, gi: int,
                   v: int, w: int, ghost reps: seq<int>)
      returns (ghost reps': seq<int>)
    requires uf.Valid() && uf.parent.Length == n && |reps| == n
    requires forall x :: 0 <= x < n ==> reps[x] == uf.Rep(x)
    requires ListedEdges(n, es, m, C) && Partition(n, reps, es, m, C)
    requires 0 <= gi < m && v == es[gi].v && w == es[gi].w && 0 <= v < n && 0 <= w < n
    modifies uf.parent, uf.rank
    ensures uf.Valid() && uf.parent.Length == n && |reps'| == n
    ensures forall x :: 0 <= x < n ==> reps'[x] == uf.Rep(x)
    ensures ListedEdges(n, es, m, C + [gi]) && Partition(n, reps', es, m, C + [gi])
  {
    uf.UnionSet(v, w);
    reps' := seq(n, x requires 0 <= x < n && uf.Valid() && uf.parent.Length == n reads uf, uf.parent, uf.rank =>
                    uf.Rep(x));
    UnionStep(n, reps, reps', es, m, C, gi, uf.Rep(v));
  }

  /** The union loop of isSteinerTree: flag both ends of every listed edge
      and union their sets. Afterwards the flags are the touched vertices
      and the sets are the classes joined by listed edges. */
  method MarkAndUnion(g: Graph, st: seq<int>, uf: UnionFind) returns (inTree: array<bool>, ghost reps: seq<int>)
    requires g.Valid() && ListedEdges(g.n, g.edges[..], g.m, st)
    requires uf.Valid() && uf.parent.Length == g.n && forall x :: 0 <= x < g.n ==> uf.Rep(x) == x
    modifies uf.parent, uf.rank
    ensures fresh(inTree) && inTree[..] == Touched(g.n, g.edges[..], st)
    ensures uf.Valid() && uf.parent.Length == g.n && |reps| == g.n
    ensures forall x :: 0 <= x < g.n ==> reps[x] == uf.Rep(x)
    ensures Partition(g.n, reps, g.edges[..], g.m, st)
  {
    ghost var es := g.edges[..];
    var n := g.n;
    inTree := new bool[n](_ => false);
    reps := seq(n, x => x);
    PartitionStart(n, reps, es, g.m);
    assert st[..0] == [] && inTree[..] == TouchedUpTo(n, es, st, 0);
    var i := 0;
    while i < |st|
      invariant 0 <= i <= |st|
      invariant uf.Valid() && uf.parent.Length == n && |reps| == n
      invariant forall x :: 0 <= x < n ==> reps[x] == uf.Rep(x)
      invariant ListedEdges(n, es, g.m, st[..i]) && Partition(n, reps, es, g.m, st[..i])
      invariant inTree[..] == TouchedUpTo(n, es, st, i)
    {
      var globalEdgeI := st[i];
      var e := g.edges[globalEdgeI];
      TouchedStep(n, es, st, i);
      inTree[e.v] := true;
      inTree[e.w] := true;
      reps := UnionEdge(uf, n, es, g.m, st[..i], globalEdgeI, e.v, e.w, reps);
      assert st[..i + 1] == st[..i] + [globalEdgeI];
      i := i + 1;
    }
    assert st[..i] == st && TouchedUpTo(n, es, st, i) == Touched(n, es, st);
  }

  /** The counting loop of isSteinerTree. */
  method CountTouched(inTree: array<bool>) returns (verticesInTree: int)
    ensures verticesInTree == CountTrue(inTree[..])
  {
    verticesInTree := 0;
    var i := 0;
    while i < inTree.Length
      invariant 0 <= i <= inTree.Length
      invariant verticesInTree == CountTrue(inTree[..i])
    {
      assert inTree[..i + 1][..i] == inTree[..i];
      if inTree[i] {
        verticesInTree := verticesInTree + 1;
      }
      i := i + 1;
    }
    assert inTree[..i] == inTree[..];
  }

  /** The terminal loop of isSteinerTree: is every terminal flagged? */
  method AllTerminalsIn(terms: seq<int>, inTree: array<bool>) returns (ok: bool)
    requires forall j :: 0 <= j < |terms| ==> 0 <= terms[j] < inTree.Length
    ensures ok <==> AllFlagged(terms, inTree[..])
  {
    var i := 0;
    while i < |terms|
      invariant 0 <= i <= |terms|
      invariant forall j :: 0 <= j < i ==> inTree[terms[j]]
    {
      if !inTree[terms[i]] {
        return false;
      }
      i := i + 1;
    }
    return true;
  }

  /** The connectivity loop of isSteinerTree: the first flagged vertex
      fixes a representative, and every later flagged vertex must have the
      same one. findSet only compresses paths, so no representative moves. */
  method SameSet(inTree: array<bool>, uf: UnionFind, ghost reps: seq<int>) returns (ok: bool)
    requires uf.Valid() && uf.parent.Length == inTree.Length == |reps|
    requires forall x :: 0 <= x < |reps| ==> reps[x] == uf.Rep(x)
    modifies uf.parent
    ensures uf.Valid()
    ensures ok <==> OneSet(inTree[..], reps)
  {
    var comp := -1;
    ghost var first := -1;
    var v := 0;
    while v < inTree.Length
      invariant 0 <= v <= inTree.Length
      invariant uf.Valid() && uf.parent.Length == |reps| && inTree[..] == old(inTree[..])
      invariant forall x :: 0 <= x < |reps| ==> reps[x] == uf.Rep(x)
      invariant comp == -1 ==> forall x :: 0 <= x < v ==> !inTree[x]
      invariant comp != -1 ==> 0 <= first < v && inTree[first] && reps[first] == comp
      invariant comp != -1 ==> forall x :: 0 <= x < v && inTree[x] ==> reps[x] == comp
    {
      if inTree[v] {
        if comp == -1 {
          comp := uf.FindSet(v);
          first := v;
        } else {
          var root := uf.FindSet(v);
          if root != comp {
            assert inTree[..][first] && inTree[..][v] && reps[first] != reps[v];
            return false;
          }
        }
      }
      v := v + 1;
    }
    return true;
  }

  /** isSteinerTree: accepts exactly the edge lists AcceptedTree describes. */
  method IsSteinerTree(st: seq<int>, terms: seq<int>, g: Graph) returns (ok: bool)
    requires g.Valid() && ListedEdges(g.n, g.edges[..], g.m, st)
    requires forall j :: 0 <= j < |terms| ==> 0 <= terms[j] < g.n
    ensures ok <==> AcceptedTree(g.n, g.edges[..], g.m, st, terms)
  {
    if |terms| <= 1 {
      return |st| == 0;
    }
    ghost var es := g.edges[..];
    var uf := new UnionFind(g.n);
    var inTree;
    ghost var reps;
    inTree, reps := MarkAndUnion(g, st, uf);
    ghost var t := inTree[..];
    AcceptedByReps(g.n, es, g.m, st, terms, reps);
    ghost var accepted := AcceptedTree(g.n, es, g.m, st, terms);
    assert accepted <==> |st| == CountTrue(t) - 1 && AllFlagged(terms, t) && OneSet(t, reps);
    var verticesInTree := CountTouched(inTree);
    if |st| != verticesInTree - 1 {
      return false;
    }
    ok := AllTerminalsIn(terms, inTree);
    if !ok {
      return false;
    }
    ok := SameSet(inTree, uf, reps);
    assert inTree[..] == t && g.edges[..] == es;
  }
}
