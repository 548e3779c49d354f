// createInducedSubGraph (src/structures/graph.c): restrict a graph to selected
// vertices (renumbered 0..k-1 in selection order) and to the edges that pass an
// optional mask, remembering the original id of every vertex and edge.

module InducedSubGraphs {
  import opened Types
  import opened Graphs

  /** struct InducedSubGraph: the subgraph plus the maps back to the source graph. */
  datatype InducedSubGraph = InducedSubGraph(graph: Graph, newIDtoOldID: seq<int>, origEdgeI: seq<int>)

  /** The mask as a sequence over edge slots; a NULL mask lets every edge pass. */
  function MaskOf(selectedEdges: array?<bool>, m: nat): (r: seq<bool>)
    reads selectedEdges
    requires selectedEdges != null ==> m <= selectedEdges.Length
    ensures |r| == m
  {
    if selectedEdges == null then seq(m, _ => true) else selectedEdges[..m]
  }

  /** Membership flags of the selection over the vertex ids [0, n). */
  ghost function Flags(sel: seq<int>, n: nat): (r: seq<bool>)
    ensures |r| == n && forall x :: 0 <= x < n ==> (r[x] <==> x in sel)
  {
    seq(n, x => x in sel)
  }

  /** Every edge joins two vertices of vs, and every adjacency entry names an
      edge slot of es incident to its vertex. */
  ghost predicate Adjacent(vs: seq<Vertex>, es: seq<Edge>)
  {
    (forall i :: 0 <= i < |es| ==> 0 <= es[i].v < |vs| && 0 <= es[i].w < |vs|) &&
    forall v, j :: 0 <= v < |vs| && 0 <= j < |vs[v].edges| ==>
      0 <= vs[v].edges[j] < |es| && Incident(es[vs[v].edges[j]], v)
  }

  /** Edge gi passes the mask and its w endpoint is flagged as selected. */
  predicate Passes(es: seq<Edge>, inSub: seq<bool>, mask: seq<bool>, gi: int)
  {
    0 <= gi < |es| && gi < |mask| && mask[gi] && 0 <= es[gi].w < |inSub| && inSub[es[gi].w]
  }

  /** Edge gi, met in origV's adjacency list, is copied: it passes the mask,
      its w endpoint is selected, and origV is not its v endpoint. */
  predicate Emits(es: seq<Edge>, inSub: seq<bool>, mask: seq<bool>, origV: int, gi: int)
  {
    Passes(es, inSub, mask, gi) && origV != es[gi].v
  }

  /** The edges copied while scanning the list adj of origV, in order. */
  function EmitFrom(es: seq<Edge>, inSub: seq<bool>, mask: seq<bool>, origV: int, adj: seq<int>): (r: seq<int>)
    ensures |r| <= |adj|
    ensures forall x :: x in r ==> x in adj
  {
    if adj == [] then []
    else
      var gi := adj[|adj| - 1];
      EmitFrom(es, inSub, mask, origV, adj[..|adj| - 1]) + (if Emits(es, inSub, mask, origV, gi) then [gi] else [])
  }

  lemma AppendAssoc(a: seq<int>, b: seq<int>, c: seq<int>)
    ensures (a + b) + c == a + (b + c)
  {
  }

  /** Scanning one more entry of adj appends that entry exactly when it is copied. */
  lemma EmitFromSnoc(es: seq<Edge>, inSub: seq<bool>, mask: seq<bool>, origV: int, adj: seq<int>, i: int)
    requires 0 <= i < |adj|
    ensures EmitFrom(es, inSub, mask, origV, adj[..i + 1]) ==
      EmitFrom(es, inSub, mask, origV, adj[..i]) + (if Emits(es, inSub, mask, origV, adj[i]) then [adj[i]] else [])
  {
    assert adj[..i + 1][..i] == adj[..i];
  }

  /** The same step after a prefix base of earlier copies. */
  lemma EmitStep(es: seq<Edge>, inSub: seq<bool>, mask: seq<bool>, origV: int, base: seq<int>, adj: seq<int>, i: int)
    requires 0 <= i < |adj|
    ensures base + EmitFrom(es, inSub, mask, origV, adj[..i + 1]) ==
      (base + EmitFrom(es, inSub, mask, origV, adj[..i])) + (if Emits(es, inSub, mask, origV, adj[i]) then [adj[i]] else [])
  {
    EmitFromSnoc(es, inSub, mask, origV, adj, i);
    AppendAssoc(base, EmitFrom(es, inSub, mask, origV, adj[..i]), if Emits(es, inSub, mask, origV, adj[i]) then [adj[i]] else []);
  }

  /** The edges copied while scanning the first k selected vertices, in order. */
  ghost function Emitted(vs: seq<Vertex>, es: seq<Edge>, sel: seq<int>, inSub: seq<bool>, mask: seq<bool>, k: nat): (r: seq<int>)
    requires k <= |sel|
    ensures |r| <= DegreeSum(vs, sel, k)
  {
    if k == 0 then []
    else if 0 <= sel[k - 1] < |vs| then
      Emitted(vs, es, sel, inSub, mask, k - 1) + EmitFrom(es, inSub, mask, sel[k - 1], vs[sel[k - 1]].edges)
    else Emitted(vs, es, sel, inSub, mask, k - 1)
  }

  /** Sum of the degrees of the first k selected vertices. */
  function DegreeSum(vs: seq<Vertex>, sel: seq<int>, k: nat): nat
    requires k <= |sel|
  {
    if k == 0 then 0
    else if 0 <= sel[k - 1] < |vs| then DegreeSum(vs, sel, k - 1) + vs[sel[k - 1]].Deg()
    else DegreeSum(vs, sel, k - 1)
  }

  lemma {:induction false} DegreeSumMono(vs: seq<Vertex>, sel: seq<int>, k1: nat, k2: nat)
    requires k1 <= k2 <= |sel|
    ensures DegreeSum(vs, sel, k1) <= DegreeSum(vs, sel, k2)
    decreases k2
  {
    if k1 < k2 {
      DegreeSumMono(vs, sel, k1, k2 - 1);
    }
  }

  /** The sub-edge se is the original edge e, renamed through newIDtoOldID. */
  predicate Maps(se: Edge, e: Edge, newIDtoOldID: seq<int>)
  {
    0 <= se.v < |newIDtoOldID| && 0 <= se.w < |newIDtoOldID| &&
    newIDtoOldID[se.v] == e.v && newIDtoOldID[se.w] == e.w && se.cost == e.cost
  }

  /** ids renumbers every flagged vertex x to its position in the selection. */
  ghost predicate Numbering(sel: seq<int>, inSub: seq<bool>, ids: seq<int>)
  {
    |ids| == |inSub| &&
    forall x :: 0 <= x < |inSub| && inSub[x] ==> 0 <= ids[x] < |sel| && sel[ids[x]] == x
  }

  /** Every edge that passes the mask, is met from a selected vertex and has its
      w endpoint selected also has its v endpoint selected: only edge->w is
      checked before the copy. */
  ghost predicate MaskedEdgesInside(vs: seq<Vertex>, es: seq<Edge>, sel: seq<int>, inSub: seq<bool>, mask: seq<bool>)
  {
    forall s, j ::
      (0 <= s < |sel| && 0 <= sel[s] < |vs| && 0 <= j < |vs[sel[s]].edges| &&
       Passes(es, inSub, mask, vs[sel[s]].edges[j])) ==>
        0 <= es[vs[sel[s]].edges[j]].v < |inSub| && inSub[es[vs[sel[s]].edges[j]].v]
  }

  // ---------------------------------------------------------------------------
  // What is copied

  /** Each copied edge passes the mask, has both endpoints selected, is not a
      self-loop, and was met in the list of its w endpoint. */
  lemma {:induction false} EmitFromSound(es: seq<Edge>, inSub: seq<bool>, mask: seq<bool>,
                                         origV: int, adj: seq<int>, gi: int)
    requires InRange(adj, |es|) && forall j :: 0 <= j < |adj| ==> Incident(es[adj[j]], origV)
    requires gi in EmitFrom(es, inSub, mask, origV, adj)
    ensures gi in adj && Passes(es, inSub, mask, gi) && es[gi].w == origV && es[gi].v != es[gi].w
  {
    var last := |adj| - 1;
    if gi in EmitFrom(es, inSub, mask, origV, adj[..last]) {
      EmitFromSound(es, inSub, mask, origV, adj[..last], gi);
    }
  }

  lemma {:induction false} EmittedSound(vs: seq<Vertex>, es: seq<Edge>, sel: seq<int>, inSub: seq<bool>,
                                        mask: seq<bool>, k: nat, gi: int)
    requires k <= |sel| && Adjacent(vs, es) && MaskedEdgesInside(vs, es, sel, inSub, mask)
    requires gi in Emitted(vs, es, sel, inSub, mask, k)
    ensures Passes(es, inSub, mask, gi) && es[gi].v != es[gi].w
    ensures 0 <= es[gi].v < |inSub| && inSub[es[gi].v]
    ensures es[gi].w in sel[..k] && 0 <= es[gi].w < |vs| && gi in vs[es[gi].w].edges
  {
    if gi in Emitted(vs, es, sel, inSub, mask, k - 1) {
      EmittedSound(vs, es, sel, inSub, mask, k - 1, gi);
      assert sel[..k - 1] <= sel[..k];
    } else {
      var s := sel[k - 1];
      EmitFromSound(es, inSub, mask, s, vs[s].edges, gi);
      var j :| 0 <= j < |vs[s].edges| && vs[s].edges[j] == gi;
      assert Passes(es, inSub, mask, vs[sel[k - 1]].edges[j]);
      assert sel[k - 1] in sel[..k];
    }
  }

  /** No edge is copied twice from one list: a list names a non-loop edge only
      once. */
  lemma {:induction false} EmitFromDistinct(es: seq<Edge>, inSub: seq<bool>, mask: seq<bool>, origV: int, adj: seq<int>)
    requires InRange(adj, |es|) && forall j :: 0 <= j < |adj| ==> Incident(es[adj[j]], origV)
    requires forall j1, j2 :: 0 <= j1 < j2 < |adj| && adj[j1] == adj[j2] ==> es[adj[j1]].v == es[adj[j1]].w
    ensures Distinct(EmitFrom(es, inSub, mask, origV, adj))
  {
    if adj != [] {
      var last := |adj| - 1;
      var front := adj[..last];
      EmitFromDistinct(es, inSub, mask, origV, front);
      var gi := adj[last];
      if Emits(es, inSub, mask, origV, gi) {
        var r := EmitFrom(es, inSub, mask, origV, front);
        forall j | 0 <= j < last ensures front[j] != gi {
          assert front[j] == adj[j];
        }
        assert gi !in front;
        forall a, b | 0 <= a < b < |r + [gi]| ensures (r + [gi])[a] != (r + [gi])[b] {
          if b == |r| {
            assert (r + [gi])[a] in r;
          }
        }
      }
    }
  }

  /** No edge is copied twice overall: it is copied only from the list of its
      w endpoint, and the selection has no duplicates. */
  lemma {:induction false} EmittedDistinct(vs: seq<Vertex>, es: seq<Edge>, sel: seq<int>, inSub: seq<bool>,
                                           mask: seq<bool>, k: nat)
    requires k <= |sel| && Distinct(sel) && Adjacent(vs, es) && NoDup(vs, es)
    requires MaskedEdgesInside(vs, es, sel, inSub, mask)
    ensures Distinct(Emitted(vs, es, sel, inSub, mask, k))
  {
    if k > 0 {
      EmittedDistinct(vs, es, sel, inSub, mask, k - 1);
      var s := sel[k - 1];
      if 0 <= s < |vs| {
        var a := Emitted(vs, es, sel, inSub, mask, k - 1);
        var b := EmitFrom(es, inSub, mask, s, vs[s].edges);
        EmitFromDistinct(es, inSub, mask, s, vs[s].edges);
        forall x, y | 0 <= x < |a| && 0 <= y < |b| ensures a[x] != b[y] {
          EmittedSound(vs, es, sel, inSub, mask, k - 1, a[x]);
          EmitFromSound(es, inSub, mask, s, vs[s].edges, b[y]);
          assert s !in sel[..k - 1];
        }
        forall x, y | 0 <= x < y < |a + b| ensures (a + b)[x] != (a + b)[y] {
          if y >= |a| && x < |a| {
            assert (a + b)[y] == b[y - |a|];
          } else if x >= |a| {
            assert (a + b)[y] == b[y - |a|] && (a + b)[x] == b[x - |a|];
          }
        }
      }
    }
  }

  /** Every non-loop edge that passes the mask, has both endpoints selected and
      is listed at its w endpoint is copied. */
  lemma {:induction false} EmitFromComplete(es: seq<Edge>, inSub: seq<bool>, mask: seq<bool>, origV: int,
                                            adj: seq<int>, gi: int)
    requires gi in adj && Emits(es, inSub, mask, origV, gi)
    ensures gi in EmitFrom(es, inSub, mask, origV, adj)
  {
    var last := |adj| - 1;
    if adj[last] != gi {
      assert gi in adj[..last];
      EmitFromComplete(es, inSub, mask, origV, adj[..last], gi);
    }
  }

  lemma {:induction false} EmittedComplete(vs: seq<Vertex>, es: seq<Edge>, sel: seq<int>, inSub: seq<bool>,
                                           mask: seq<bool>, k: nat, gi: int)
    requires k <= |sel| && Passes(es, inSub, mask, gi) && es[gi].v != es[gi].w
    requires es[gi].w in sel[..k] && 0 <= es[gi].w < |vs| && gi in vs[es[gi].w].edges
    ensures gi in Emitted(vs, es, sel, inSub, mask, k)
  {
    if sel[k - 1] == es[gi].w {
      EmitFromComplete(es, inSub, mask, es[gi].w, vs[es[gi].w].edges, gi);
    } else {
      assert es[gi].w in sel[..k - 1];
      EmittedComplete(vs, es, sel, inSub, mask, k - 1, gi);
    }
  }

  /** A well-formed graph's lists index its used edge slots. */
  lemma AdjacentOf(g: Graph)
    requires g.WellFormed()
    ensures Adjacent(g.vertices[..], g.edges[..g.m])
  {
    var vs, es := g.vertices[..], g.edges[..g.m];
    assert forall i :: 0 <= i < |es| ==> es[i] == g.edges[i];
    forall v, j | 0 <= v < |vs| && 0 <= j < |vs[v].edges|
      ensures 0 <= vs[v].edges[j] < |es| && Incident(es[vs[v].edges[j]], v)
    {
      assert vs[v] == g.vertices[v];
    }
  }

  /** A graph built by addEdge lists every used edge at its w endpoint and
      repeats no non-loop edge in a list. */
  lemma BuiltShape(g: Graph)
    requires g.Built()
    ensures Adjacent(g.vertices[..], g.edges[..g.m]) && NoDup(g.vertices[..], g.edges[..g.m])
    ensures forall i :: 0 <= i < g.m ==> i in g.vertices[..][g.edges[..g.m][i].w].edges
  {
    AdjacentOf(g);
  }

  /** Only qualifying edges are copied: each passes the mask, joins two
      selected vertices and is not a self-loop. */
  lemma EmittedOnlyQualifying(vs: seq<Vertex>, es: seq<Edge>, sel: seq<int>, mask: seq<bool>, gi: int)
    requires Adjacent(vs, es) && |mask| == |es|
    requires MaskedEdgesInside(vs, es, sel, Flags(sel, |vs|), mask)
    requires gi in Emitted(vs, es, sel, Flags(sel, |vs|), mask, |sel|)
    ensures 0 <= gi < |es| && mask[gi] && es[gi].v in sel && es[gi].w in sel && es[gi].v != es[gi].w
  {
    EmittedSound(vs, es, sel, Flags(sel, |vs|), mask, |sel|, gi);
    assert sel[..|sel|] == sel;
  }

  /** Every qualifying edge is copied, provided it is listed at its w endpoint. */
  lemma EmittedAllQualifying(vs: seq<Vertex>, es: seq<Edge>, sel: seq<int>, mask: seq<bool>, gi: int)
    requires Adjacent(vs, es) && |mask| == |es|
    requires forall i :: 0 <= i < |es| ==> i in vs[es[i].w].edges
    requires 0 <= gi < |es| && mask[gi] && es[gi].v in sel && es[gi].w in sel && es[gi].v != es[gi].w
    ensures gi in Emitted(vs, es, sel, Flags(sel, |vs|), mask, |sel|)
  {
    assert sel[..|sel|] == sel;
    EmittedComplete(vs, es, sel, Flags(sel, |vs|), mask, |sel|, gi);
  }

  /** The copied edges are exactly the non-loop edges that pass the mask and
      have both endpoints selected, each once. */
  lemma EmittedExactly(g: Graph, sel: seq<int>, mask: seq<bool>)
    requires g.Built() && |mask| == g.m && Distinct(sel)
    requires MaskedEdgesInside(g.vertices[..], g.edges[..g.m], sel, Flags(sel, g.n), mask)
    ensures Distinct(Emitted(g.vertices[..], g.edges[..g.m], sel, Flags(sel, g.n), mask, |sel|))
    ensures forall gi :: gi in Emitted(g.vertices[..], g.edges[..g.m], sel, Flags(sel, g.n), mask, |sel|) <==>
      0 <= gi < g.m && mask[gi] && g.edges[gi].v in sel && g.edges[gi].w in sel && g.edges[gi].v != g.edges[gi].w
  {
    var vs, es := g.vertices[..], g.edges[..g.m];
    BuiltShape(g);
    EmittedDistinct(vs, es, sel, Flags(sel, g.n), mask, |sel|);
    forall gi ensures gi in Emitted(vs, es, sel, Flags(sel, g.n), mask, |sel|) <==>
      0 <= gi < |es| && mask[gi] && es[gi].v in sel && es[gi].w in sel && es[gi].v != es[gi].w
    {
      if gi in Emitted(vs, es, sel, Flags(sel, g.n), mask, |sel|) {
        EmittedOnlyQualifying(vs, es, sel, mask, gi);
      }
      if 0 <= gi < |es| && mask[gi] && es[gi].v in sel && es[gi].w in sel && es[gi].v != es[gi].w {
        EmittedAllQualifying(vs, es, sel, mask, gi);
      }
    }
  }

  // ---------------------------------------------------------------------------
  // The extraction

  /** The sub-graph arrays after the original edges `copied` went, in order,
      into slots 0..|copied|-1: a graph built by addEdge whose every edge is
      its original renamed through sel. */
  ghost predicate CopiedSoFar(n: int, subVs: seq<Vertex>, subEs: seq<Edge>, copied: seq<int>,
                              es: seq<Edge>, sel: seq<int>)
  {
    WFUpTo(n, subVs, subEs, |copied|) && SymUpTo(n, subVs, subEs, |copied|) && NoDup(subVs, subEs) &&
    forall k :: 0 <= k < |copied| ==> 0 <= copied[k] < |es| && Maps(subEs[k], es[copied[k]], sel)
  }

  /** One addEdge of a renamed original edge extends CopiedSoFar by that edge. */
  lemma CopyStep(n: int, subVs: seq<Vertex>, subEs: seq<Edge>, subVs': seq<Vertex>, subEs': seq<Edge>,
                 copied: seq<int>, es: seq<Edge>, sel: seq<int>, a: int, b: int, gi: int)
    requires CopiedSoFar(n, subVs, subEs, copied, es, sel)
    requires 0 <= gi < |es| && 0 <= a < |sel| && 0 <= b < |sel| && sel[a] == es[gi].v && sel[b] == es[gi].w
    requires AddEdgeStep(n, subVs, subEs, subVs', subEs', a, b, es[gi].cost, |copied|)
    ensures CopiedSoFar(n, subVs', subEs', copied + [gi], es, sel)
  {
    var k := |copied|;
    AddEdgeKeepsShape(n, subVs, subEs, subVs', subEs', a, b, es[gi].cost, k);
    forall j | 0 <= j < k + 1
      ensures 0 <= (copied + [gi])[j] < |es| && Maps(subEs'[j], es[(copied + [gi])[j]], sel)
    {
      if j < k {
        assert subEs'[j] == subEs[j];
      }
    }
  }

  /** Once every copied edge is in place, the subgraph is a graph built by
      addEdge whose edges are the renamed originals. */
  lemma CopiedIsBuilt(subG: Graph, copied: seq<int>, es: seq<Edge>, sel: seq<int>)
    requires subG.Valid() && subG.m == |copied|
    requires CopiedSoFar(subG.n, subG.vertices[..], subG.edges[..], copied, es, sel)
    ensures subG.Built()
    ensures forall k :: 0 <= k < subG.m ==> 0 <= copied[k] < |es| && Maps(subG.edges[k], es[copied[k]], sel)
  {
  }

  /** What the copy passes of createInducedSubGraph read and never change, as
      values: the source lists vs and edges es, the selection with its flags
      and renumbering ids, and the mask. */
  ghost predicate CopyContext(vs: seq<Vertex>, es: seq<Edge>, sel: seq<int>, inSub: seq<bool>, ids: seq<int>,
                              mask: seq<bool>)
  {
    Adjacent(vs, es) && InRange(sel, |vs|) && |inSub| == |vs| && |mask| == |es| &&
    MaskedEdgesInside(vs, es, sel, inSub, mask) && Numbering(sel, inSub, ids)
  }

  /** The arrays hold the values CopyContext speaks about. */
  ghost predicate Holds(g: Graph, selectedEdges: array?<bool>, isInSub: array<bool>, oldIDtoNewID: array<int>,
                        vs: seq<Vertex>, es: seq<Edge>, inSub: seq<bool>, ids: seq<int>, mask: seq<bool>)
    reads g, g.vertices, g.edges, selectedEdges, isInSub, oldIDtoNewID
  {
    0 <= g.m <= g.edges.Length && vs == g.vertices[..] && es == g.edges[..g.m] &&
    (selectedEdges != null ==> g.m <= selectedEdges.Length) && mask == MaskOf(selectedEdges, g.m) &&
    inSub == isInSub[..] && ids == oldIDtoNewID[..]
  }

  /** The unchanging side of the copy: the source graph, the mask, the flags
      and the renumbering, as arrays and as the values they hold. */
  ghost predicate Source(g: Graph, selectedEdges: array?<bool>, isInSub: array<bool>, oldIDtoNewID: array<int>,
                         vs: seq<Vertex>, es: seq<Edge>, sel: seq<int>, inSub: seq<bool>, ids: seq<int>, mask: seq<bool>)
    reads g, g.vertices, g.edges, selectedEdges, isInSub, oldIDtoNewID
  {
    CopyContext(vs, es, sel, inSub, ids, mask) && Holds(g, selectedEdges, isInSub, oldIDtoNewID, vs, es, inSub, ids, mask)
  }

  /** The subgraph under construction: its own arrays, |sel| vertices and
      the degree sum of the selection as its edge budget. */
  ghost predicate Target(g: Graph, subG: Graph, vs: seq<Vertex>, sel: seq<int>)
    reads g, subG
  {
    subG.vertices != g.vertices && subG.edges != g.edges &&
    subG.n == |sel| && subG.edges.Length == DegreeSum(vs, sel, |sel|)
  }

  /** The copy step of createInducedSubGraph: addEdge the renamed edge into
      the next free slot of the subgraph and remember its original index. */
  method CopyEdge(subG: Graph, sv: int, sw: int, edge: Edge, ghost es: seq<Edge>, ghost sel: seq<int>,
                  gi: int, origEdgeI0: seq<int>)
    returns (origEdgeI: seq<int>)
    requires subG.Valid() && subG.n == |sel| && |origEdgeI0| < subG.edges.Length
    requires 0 <= gi < |es| && es[gi] == edge
    requires 0 <= sv < |sel| && 0 <= sw < |sel| && sel[sv] == edge.v && sel[sw] == edge.w
    requires CopiedSoFar(subG.n, subG.vertices[..], subG.edges[..], origEdgeI0, es, sel)
    modifies subG.vertices, subG.edges
    ensures subG.Valid() && origEdgeI == origEdgeI0 + [gi]
    ensures CopiedSoFar(subG.n, subG.vertices[..], subG.edges[..], origEdgeI, es, sel)
  {
    ghost var subVs, subEs := subG.vertices[..], subG.edges[..];
    subG.AddEdge(sv, sw, edge.cost, |origEdgeI0|);
    CopyStep(subG.n, subVs, subEs, subG.vertices[..], subG.edges[..], origEdgeI0, es, sel, sv, sw, gi);
    origEdgeI := origEdgeI0 + [gi];
  }

  /** One turn of the inner loop of createInducedSubGraph: entry i of origV's
      adjacency list is copied, renamed, into the next free slot exactly when
      it passes the mask, its w endpoint is selected and origV is not its v
      endpoint. */
  method CopyEntry(g: Graph, subG: Graph, selectedEdges: array?<bool>,
                   isInSub: array<bool>, oldIDtoNewID: array<int>,
                   ghost vs: seq<Vertex>, ghost es: seq<Edge>, ghost sel: seq<int>, ghost inSub: seq<bool>,
                   ghost ids: seq<int>, ghost mask: seq<bool>,
                   ghost s: int, origV: int, i: int, ghost base: seq<int>, origEdgeI0: seq<int>)
    returns (origEdgeI: seq<int>)
    requires Source(g, selectedEdges, isInSub, oldIDtoNewID, vs, es, sel, inSub, ids, mask)
    requires Target(g, subG, vs, sel) && subG.Valid()
    requires 0 <= s < |sel| && origV == sel[s] && 0 <= i < |vs[origV].edges|
    requires origEdgeI0 == base + EmitFrom(es, inSub, mask, origV, vs[origV].edges[..i])
    requires |origEdgeI0| + |vs[origV].edges| - i <= subG.edges.Length
    requires CopiedSoFar(subG.n, subG.vertices[..], subG.edges[..], origEdgeI0, es, sel)
    modifies subG.vertices, subG.edges
    ensures subG.Valid()
    ensures var gi := vs[origV].edges[i];
      origEdgeI == origEdgeI0 + (if Emits(es, inSub, mask, origV, gi) then [gi] else [])
    ensures origEdgeI == base + EmitFrom(es, inSub, mask, origV, vs[origV].edges[..i + 1])
    ensures |origEdgeI| + |vs[origV].edges| - (i + 1) <= subG.edges.Length
    ensures CopiedSoFar(subG.n, subG.vertices[..], subG.edges[..], origEdgeI, es, sel)
  {
    EmitStep(es, inSub, mask, origV, base, vs[origV].edges, i);
    origEdgeI := origEdgeI0;
    var globalEdgeI := g.vertices[origV].edges[i];
    assert globalEdgeI == vs[origV].edges[i] && 0 <= globalEdgeI < |es|;
    if selectedEdges == null || selectedEdges[globalEdgeI] {
      assert mask[globalEdgeI];
      var edge := g.edges[globalEdgeI];  // getEdge(graph, origV, i)
      assert edge == es[globalEdgeI];
      if isInSub[edge.w] && origV != edge.v {
        assert Passes(es, inSub, mask, vs[sel[s]].edges[i]);
        origEdgeI := CopyEdge(subG, oldIDtoNewID[edge.v], oldIDtoNewID[edge.w], edge, es, sel, globalEdgeI, origEdgeI);
      }
    } else {
      assert !mask[globalEdgeI];
    }
  }

  /** The inner loop of createInducedSubGraph: scan origV's adjacency list and
      append to the sub-graph, renamed, every edge that passes the mask, has its
      w endpoint selected and does not have origV as its v endpoint. */
  method ScanAdjacency(g: Graph, subG: Graph, selectedEdges: array?<bool>,
                       isInSub: array<bool>, oldIDtoNewID: array<int>,
                       ghost vs: seq<Vertex>, ghost es: seq<Edge>, ghost sel: seq<int>, ghost inSub: seq<bool>,
                       ghost ids: seq<int>, ghost mask: seq<bool>,
                       ghost s: int, origV: int, origEdgeI0: seq<int>)
    returns (origEdgeI: seq<int>)
    requires Source(g, selectedEdges, isInSub, oldIDtoNewID, vs, es, sel, inSub, ids, mask)
    requires Target(g, subG, vs, sel) && subG.Valid()
    requires 0 <= s < |sel| && origV == sel[s]
    requires |origEdgeI0| + |vs[origV].edges| <= subG.edges.Length
    requires CopiedSoFar(subG.n, subG.vertices[..], subG.edges[..], origEdgeI0, es, sel)
    modifies subG.vertices, subG.edges
    ensures subG.Valid()
    ensures origEdgeI == origEdgeI0 + EmitFrom(es, inSub, mask, origV, vs[origV].edges)
    ensures CopiedSoFar(subG.n, subG.vertices[..], subG.edges[..], origEdgeI, es, sel)
  {
    ghost var adj := vs[origV].edges;
    origEdgeI := origEdgeI0;
    var i := 0;
    while i < g.vertices[origV].Deg()
      invariant 0 <= i <= |adj|
      invariant subG.Valid()
      invariant origEdgeI == origEdgeI0 + EmitFrom(es, inSub, mask, origV, adj[..i])
      invariant |origEdgeI| + |adj| - i <= subG.edges.Length
      invariant CopiedSoFar(subG.n, subG.vertices[..], subG.edges[..], origEdgeI, es, sel)
    {
      origEdgeI := CopyEntry(g, subG, selectedEdges, isInSub, oldIDtoNewID, vs, es, sel, inSub, ids, mask,
                             s, origV, i, origEdgeI0, origEdgeI);
      i := i + 1;
    }
    assert adj[..i] == adj;
  }

  /** One turn of the outer loop of createInducedSubGraph: the edges of the
      s-th selected vertex are appended, so everything emitted for the first
      s + 1 selected vertices has been copied. */
  method CopyEdgesOf(g: Graph, subG: Graph, selectedEdges: array?<bool>,
                     isInSub: array<bool>, oldIDtoNewID: array<int>,
                     ghost vs: seq<Vertex>, ghost es: seq<Edge>, ghost sel: seq<int>, ghost inSub: seq<bool>,
                     ghost ids: seq<int>, ghost mask: seq<bool>,
                     ghost s: int, origV: int, origEdgeI0: seq<int>)
    returns (origEdgeI: seq<int>)
    requires Source(g, selectedEdges, isInSub, oldIDtoNewID, vs, es, sel, inSub, ids, mask)
    requires Target(g, subG, vs, sel) && subG.Valid()
    requires 0 <= s < |sel| && origV == sel[s]
    requires origEdgeI0 == Emitted(vs, es, sel, inSub, mask, s)
    requires CopiedSoFar(subG.n, subG.vertices[..], subG.edges[..], origEdgeI0, es, sel)
    modifies subG.vertices, subG.edges
    ensures subG.Valid()
    ensures origEdgeI == Emitted(vs, es, sel, inSub, mask, s + 1)
    ensures CopiedSoFar(subG.n, subG.vertices[..], subG.edges[..], origEdgeI, es, sel)
  {
    DegreeSumMono(vs, sel, s + 1, |sel|);
    origEdgeI := ScanAdjacency(g, subG, selectedEdges, isInSub, oldIDtoNewID, vs, es, sel, inSub, ids, mask,
                               s, origV, origEdgeI0);
  }

  /** The first pass of createInducedSubGraph: flag the selected vertices and
      add up their degrees (the edge budget of the subgraph). */
  method MarkSelected(selectedVertices: array<int>, nSelectedVertices: int, g: Graph)
    returns (isInSub: array<bool>, sumDegrees: int)
    requires g.Valid() && 0 <= nSelectedVertices <= selectedVertices.Length
    requires InRange(selectedVertices[..nSelectedVertices], g.n)
    ensures fresh(isInSub) && isInSub[..] == Flags(selectedVertices[..nSelectedVertices], g.n)
    ensures sumDegrees == DegreeSum(g.vertices[..], selectedVertices[..nSelectedVertices], nSelectedVertices)
  {
    ghost var sel := selectedVertices[..nSelectedVertices];
    sumDegrees := 0;
    isInSub := new bool[g.n](_ => false);
    var v := 0;
    while v < nSelectedVertices
      invariant 0 <= v <= nSelectedVertices
      invariant sumDegrees == DegreeSum(g.vertices[..], sel, v)
      invariant forall x :: 0 <= x < g.n ==> (isInSub[x] <==> x in sel[..v])
    {
      var selectedV := selectedVertices[v];
      isInSub[selectedV] := true;
      sumDegrees := sumDegrees + g.vertices[selectedV].Deg();
      assert sel[..v + 1] == sel[..v] + [selectedV];
      v := v + 1;
    }
    assert sel[..nSelectedVertices] == sel;
    assert isInSub[..] == Flags(sel, g.n);
  }

  /** The renumbering of createInducedSubGraph: the i-th selected vertex gets
      new id i, and both directions of the map are tabulated. */
  method NumberSelected(selectedVertices: array<int>, nSelectedVertices: int, n: int)
    returns (oldIDtoNewID: array<int>, newIDtoOldID: array<int>)
    requires 0 <= nSelectedVertices <= selectedVertices.Length && 0 <= n
    requires Distinct(selectedVertices[..nSelectedVertices]) && InRange(selectedVertices[..nSelectedVertices], n)
    ensures fresh(oldIDtoNewID) && fresh(newIDtoOldID)
    ensures newIDtoOldID[..] == selectedVertices[..nSelectedVertices]
    ensures Numbering(selectedVertices[..nSelectedVertices], Flags(selectedVertices[..nSelectedVertices], n), oldIDtoNewID[..])
  {
    ghost var sel := selectedVertices[..nSelectedVertices];
    oldIDtoNewID := new int[n](_ => 0);
    newIDtoOldID := new int[nSelectedVertices](_ => 0);
    var v := 0;
    while v < nSelectedVertices
      invariant 0 <= v <= nSelectedVertices
      invariant forall u :: 0 <= u < v ==> oldIDtoNewID[sel[u]] == u && newIDtoOldID[u] == sel[u]
    {
      oldIDtoNewID[selectedVertices[v]] := v;
      newIDtoOldID[v] := selectedVertices[v];
      v := v + 1;
    }
    forall x | 0 <= x < n && Flags(sel, n)[x]
      ensures 0 <= oldIDtoNewID[x] < |sel| && sel[oldIDtoNewID[x]] == x
    {
      var u :| 0 <= u < |sel| && sel[u] == x;
    }
  }

  /** The copy pass of createInducedSubGraph: walk the selected vertices in
      order and copy the qualifying edges of each into the next free slots. */
  method CopyAllEdges(g: Graph, subG: Graph, selectedVertices: array<int>, nSelectedVertices: int,
                      selectedEdges: array?<bool>, isInSub: array<bool>, oldIDtoNewID: array<int>,
                      ghost vs: seq<Vertex>, ghost es: seq<Edge>, ghost sel: seq<int>, ghost inSub: seq<bool>,
                      ghost ids: seq<int>, ghost mask: seq<bool>)
    returns (origEdgeI: seq<int>)
    requires Source(g, selectedEdges, isInSub, oldIDtoNewID, vs, es, sel, inSub, ids, mask)
    requires 0 <= nSelectedVertices <= selectedVertices.Length && sel == selectedVertices[..nSelectedVertices]
    requires Target(g, subG, vs, sel) && subG.Valid()
    requires CopiedSoFar(subG.n, subG.vertices[..], subG.edges[..], [], es, sel)
    modifies subG.vertices, subG.edges
    ensures subG.Valid()
    ensures origEdgeI == Emitted(vs, es, sel, inSub, mask, |sel|)
    ensures CopiedSoFar(subG.n, subG.vertices[..], subG.edges[..], origEdgeI, es, sel)
  {
    origEdgeI := [];
    var newI := 0;
    while newI < nSelectedVertices
      invariant 0 <= newI <= nSelectedVertices
      invariant subG.Valid()
      invariant origEdgeI == Emitted(vs, es, sel, inSub, mask, newI)
      invariant CopiedSoFar(subG.n, subG.vertices[..], subG.edges[..], origEdgeI, es, sel)
    {
      var origV := selectedVertices[newI];
      origEdgeI := CopyEdgesOf(g, subG, selectedEdges, isInSub, oldIDtoNewID, vs, es, sel, inSub, ids, mask,
                               newI, origV, origEdgeI);
      newI := newI + 1;
    }
  }

  /** Allocate the subgraph with the degree sum as its edge budget, run the copy
      pass, and set the subgraph's edge count to the number of copied edges. */
  method BuildSubGraph(g: Graph, selectedVertices: array<int>, nSelectedVertices: int,
                       selectedEdges: array?<bool>, isInSub: array<bool>, oldIDtoNewID: array<int>, sumDegrees: int,
                       ghost vs: seq<Vertex>, ghost es: seq<Edge>, ghost sel: seq<int>, ghost inSub: seq<bool>,
                       ghost ids: seq<int>, ghost mask: seq<bool>)
    returns (subG: Graph, origEdgeI: seq<int>)
    requires Source(g, selectedEdges, isInSub, oldIDtoNewID, vs, es, sel, inSub, ids, mask)
    requires 0 <= nSelectedVertices <= selectedVertices.Length && sel == selectedVertices[..nSelectedVertices]
    requires sumDegrees == DegreeSum(vs, sel, |sel|)
    ensures fresh(subG) && fresh(subG.vertices) && fresh(subG.edges)
    ensures subG.Built() && subG.n == nSelectedVertices && subG.m == |origEdgeI|
    ensures origEdgeI == Emitted(vs, es, sel, inSub, mask, |sel|)
    ensures forall k :: 0 <= k < subG.m ==> 0 <= origEdgeI[k] < |es| && Maps(subG.edges[k], es[origEdgeI[k]], sel)
  {
    subG := new Graph(nSelectedVertices, sumDegrees);
    origEdgeI := CopyAllEdges(g, subG, selectedVertices, nSelectedVertices, selectedEdges,
                              isInSub, oldIDtoNewID, vs, es, sel, inSub, ids, mask);
    subG.m := |origEdgeI|;
    CopiedIsBuilt(subG, origEdgeI, es, sel);
  }

  /** createInducedSubGraph: renumber the selected vertices in selection order,
      copy every qualifying edge once (from its w endpoint) into the next slot,
      and record the original index of each copied edge. */
  method CreateInducedSubGraph(selectedVertices: array<int>, nSelectedVertices: int,
                               selectedEdges: array?<bool>, g: Graph)
    returns (sub: InducedSubGraph)
    requires g.WellFormed()
    requires 0 <= nSelectedVertices <= selectedVertices.Length
    requires Distinct(selectedVertices[..nSelectedVertices]) && InRange(selectedVertices[..nSelectedVertices], g.n)
    requires selectedEdges != null ==> g.m <= selectedEdges.Length
    requires MaskedEdgesInside(g.vertices[..], g.edges[..g.m], selectedVertices[..nSelectedVertices],
                               Flags(selectedVertices[..nSelectedVertices], g.n), MaskOf(selectedEdges, g.m))
    ensures fresh(sub.graph) && fresh(sub.graph.vertices) && fresh(sub.graph.edges)
    ensures sub.graph.Built() && sub.graph.n == nSelectedVertices
    ensures sub.newIDtoOldID == selectedVertices[..nSelectedVertices]
    ensures sub.origEdgeI == Emitted(g.vertices[..], g.edges[..g.m], selectedVertices[..nSelectedVertices],
                                     Flags(selectedVertices[..nSelectedVertices], g.n), MaskOf(selectedEdges, g.m),
                                     nSelectedVertices)
    ensures sub.graph.m == |sub.origEdgeI|
    ensures forall k :: 0 <= k < sub.graph.m ==>
      0 <= sub.origEdgeI[k] < g.m && Maps(sub.graph.edges[k], g.edges[sub.origEdgeI[k]], sub.newIDtoOldID)
  {
    ghost var vs, es := g.vertices[..], g.edges[..g.m];
    ghost var sel := selectedVertices[..nSelectedVertices];
    ghost var inSub := Flags(sel, g.n);
    ghost var mask := MaskOf(selectedEdges, g.m);

    var isInSub, sumDegrees := MarkSelected(selectedVertices, nSelectedVertices, g);
    var oldIDtoNewID, newIDtoOldID := NumberSelected(selectedVertices, nSelectedVertices, g.n);
    ghost var ids := oldIDtoNewID[..];
    AdjacentOf(g);
    var subG, origEdgeI := BuildSubGraph(g, selectedVertices, nSelectedVertices, selectedEdges, isInSub, oldIDtoNewID,
                                         sumDegrees, vs, es, sel, inSub, ids, mask);
    sub := InducedSubGraph(subG, newIDtoOldID[..], origEdgeI);
  }
}
