// The numbers the exact solver hands to its MIP solver
// (src/algorithms/exact/ilp.c): the column and row numbering of the
// multi-commodity flow formulation, the sparse constraint matrix, the row
// bounds, the objective, and the reading of the solution.

module Ilp {
  import opened Types
  import opened Graphs
  import opened Utils
  import TwoApx
  import TwoApxTrees
  import TwoApxParallel

  /** IlpParams: sizes of the model for one graph and terminal set. */
  datatype IlpParams = IlpParams(nArcs: int, m: int, root: int, nX: int, nFlow: int, nCols: int,
                                 nEdgeSelectConstr: int, nFlowConstr: int, nRows: int)

  // ---------------------------------------------------------------------
  // Numbering

  /** arcToEdge: the 1-based x column of the undirected edge behind arc a;
      the two arcs 2k and 2k+1 of one edge share column k+1. */
  function ArcToEdge(a: nat): (col: int)
    ensures 1 <= col && 2 * (col - 1) <= a < 2 * col
  {
    a / 2 + 1
  }

  /** mapToFlowEntry: the 1-based column of the flow variable of arc a for
      commodity t (terminal t, t >= 1), after the nX edge columns. */
  function MapToFlowEntry(a: int, t: int, nArcs: int, nTerminals: int, nX: int): int
  {
    nX + ((t - 1) * nArcs) + a + 1
  }

  /** initIlpParams for a graph of n vertices and nArcs arcs (two per
      undirected edge): one x column per undirected edge, one flow column
      per arc and non-root terminal, one edge-selection row per flow
      column, one flow-conservation row per vertex and non-root terminal,
      and the optional upper-bound row last. */
  function InitIlpParams(n: int, nArcs: int, terminals: seq<int>, addUpperBound: bool): (p: IlpParams)
    requires 1 <= |terminals|
    ensures 0 <= n && 0 <= nArcs ==>
      0 <= p.nEdgeSelectConstr && 0 <= p.nFlowConstr && p.nEdgeSelectConstr + p.nFlowConstr <= p.nRows
  {
    MulNonneg(|terminals| - 1, nArcs);
    MulNonneg(|terminals| - 1, n);
    var nTerminals := |terminals|;
    var m := nArcs / 2;
    var nFlow := nArcs * (nTerminals - 1);
    var nEdgeSelectConstr := (nTerminals - 1) * nArcs;
    var nFlowConstr := (nTerminals - 1) * n;
    var nRows := nEdgeSelectConstr + nFlowConstr;
    IlpParams(nArcs, m, terminals[0], m, nFlow, m + nFlow, nEdgeSelectConstr, nFlowConstr,
              if addUpperBound then nRows + 1 else nRows)
  }

  /** A product of two non-negative numbers is non-negative. */
  lemma MulNonneg(a: int, b: int)
    ensures 0 <= a && 0 <= b ==> 0 <= a * b
  {
  }

  /** i*w + j with 0 <= j < w determines i and j. */
  lemma SlotDecode(i: int, j: int, w: int)
    requires 0 <= i && 0 <= j < w
    ensures (i * w + j) / w == i && (i * w + j) % w == j
  {
    var q, r := (i * w + j) / w, (i * w + j) % w;
    assert q * w + r == i * w + j && 0 <= r < w;
    assert (q - i) * w == j - r;
    MulBelow(q - i, w);
  }

  /** A multiple of w strictly between -w and w is 0. */
  lemma MulBelow(d: int, w: int)
    requires 0 < w && -w < d * w < w
    ensures d == 0
  {
  }

  lemma MulSign(d: int, w: int)
    requires 0 < w && d * w < 0
    ensures d < 0
  {
  }

  /** i*w + j with 0 <= i < h and 0 <= j < w lies in [0, h*w). */
  lemma SlotBound(i: int, j: int, w: int, h: int)
    requires 0 <= i < h && 0 <= j < w
    ensures 0 <= i * w + j < h * w
  {
    assert (i + 1) * w <= h * w;
  }

  /** Every slot in [0, h*w) is i*w + j for its quotient i < h and
      remainder j. */
  lemma SlotSplit(q: int, w: int, h: int)
    requires 0 <= q < h * w && 0 < w
    ensures 0 <= q / w < h && 0 <= q % w < w && q == (q / w) * w + q % w
  {
    var i := q / w;
    assert i * w <= q < h * w;
    assert (i - h) * w < 0;
    MulSign(i - h, w);
  }

  /** What a 1-based column number stands for. */
  datatype Column = EdgeColumn(e: int) | FlowColumn(a: int, t: int)

  /** The column behind column number c. */
  function ColumnOf(p: IlpParams, c: int): Column
    requires 1 <= c <= p.nCols && 0 < p.nArcs
  {
    if c <= p.nX then EdgeColumn(c - 1)
    else FlowColumn((c - p.nX - 1) % p.nArcs, (c - p.nX - 1) / p.nArcs + 1)
  }

  /** The number of a column: x_e is e+1, flows come from mapToFlowEntry. */
  function ColumnIndex(p: IlpParams, nTerminals: int, col: Column): int
  {
    match col
    case EdgeColumn(e) => e + 1
    case FlowColumn(a, t) => MapToFlowEntry(a, t, p.nArcs, nTerminals, p.nX)
  }

  /** The flow column of arc a and terminal t lies after the x columns and
      decodes back to (a, t). */
  lemma FlowColumnNumbered(n: int, nArcs: int, terminals: seq<int>, addUpperBound: bool, a: int, t: int)
    requires 1 <= |terminals| && 0 <= nArcs && 0 <= a < nArcs && 1 <= t < |terminals|
    ensures var p := InitIlpParams(n, nArcs, terminals, addUpperBound);
      var c := MapToFlowEntry(a, t, nArcs, |terminals|, p.nX);
      p.nX < c <= p.nCols && ColumnOf(p, c) == FlowColumn(a, t)
  {
    SlotBound(t - 1, a, nArcs, |terminals| - 1);
    SlotDecode(t - 1, a, nArcs);
  }

  /** Every column number decodes to a column that numbers back to it. */
  lemma ColumnDecodes(n: int, nArcs: int, terminals: seq<int>, addUpperBound: bool, c: int)
    requires 1 <= |terminals| && 0 <= nArcs && nArcs % 2 == 0
    requires 1 <= c <= InitIlpParams(n, nArcs, terminals, addUpperBound).nCols
    ensures var p := InitIlpParams(n, nArcs, terminals, addUpperBound);
      ColumnIndex(p, |terminals|, ColumnOf(p, c)) == c &&
      match ColumnOf(p, c)
      case EdgeColumn(e) => 0 <= e < p.nX
      case FlowColumn(a, t) => 0 <= a < nArcs && 1 <= t < |terminals|
  {
    var p := InitIlpParams(n, nArcs, terminals, addUpperBound);
    if c > p.nX {
      SlotSplit(c - p.nX - 1, nArcs, |terminals| - 1);
    }
  }

  /** The column numbering is a bijection onto 1..nCols: arc a's x column
      is its undirected edge's, every flow column of an arc and a non-root
      terminal lies after the x columns and decodes back to them, and every
      column number is one of the two kinds. */
  lemma ColumnsNumbered(n: int, nArcs: int, terminals: seq<int>, addUpperBound: bool)
    requires 1 <= |terminals| && 0 <= nArcs && nArcs % 2 == 0
    ensures var p := InitIlpParams(n, nArcs, terminals, addUpperBound);
      && (forall a :: 0 <= a < nArcs ==> 1 <= ArcToEdge(a) <= p.nX && ArcToEdge(a) - 1 == a / 2)
      && (forall a, t :: 0 <= a < nArcs && 1 <= t < |terminals| ==>
            var c := MapToFlowEntry(a, t, nArcs, |terminals|, p.nX);
            p.nX < c <= p.nCols && ColumnOf(p, c) == FlowColumn(a, t))
      && (forall c :: 1 <= c <= p.nCols ==>
            ColumnIndex(p, |terminals|, ColumnOf(p, c)) == c &&
            match ColumnOf(p, c)
            case EdgeColumn(e) => 0 <= e < p.nX
            case FlowColumn(a, t) => 0 <= a < nArcs && 1 <= t < |terminals|)
  {
    forall a, t | 0 <= a < nArcs && 1 <= t < |terminals| {
      FlowColumnNumbered(n, nArcs, terminals, addUpperBound, a, t);
    }
    forall c | 1 <= c <= InitIlpParams(n, nArcs, terminals, addUpperBound).nCols {
      ColumnDecodes(n, nArcs, terminals, addUpperBound, c);
    }
  }

  /** mapToFlowEntry is injective over arcs and non-root terminals. */
  lemma FlowEntryInjective(n: int, nArcs: int, terminals: seq<int>, addUpperBound: bool, a: int, t: int, a': int,
                           t': int)
    requires 1 <= |terminals| && 0 <= nArcs
    requires 0 <= a < nArcs && 1 <= t < |terminals| && 0 <= a' < nArcs && 1 <= t' < |terminals|
    requires var p := InitIlpParams(n, nArcs, terminals, addUpperBound);
      MapToFlowEntry(a, t, nArcs, |terminals|, p.nX) == MapToFlowEntry(a', t', nArcs, |terminals|, p.nX)
    ensures a == a' && t == t'
  {
    FlowColumnNumbered(n, nArcs, terminals, addUpperBound, a, t);
    FlowColumnNumbered(n, nArcs, terminals, addUpperBound, a', t');
  }

  /** What a 1-based row number stands for. */
  datatype Row = SelectRow(t: int, a: int) | FlowRow(t: int, v: int) | BoundRow

  /** The number of a row, as the matrix fill and the bound setting both
      count them: edge-selection rows (t, a) first, then flow-conservation
      rows (t, v), then the upper-bound row. */
  function RowIndex(p: IlpParams, n: int, row: Row): int
  {
    match row
    case SelectRow(t, a) => (t - 1) * p.nArcs + a + 1
    case FlowRow(t, v) => p.nEdgeSelectConstr + (t - 1) * n + v + 1
    case BoundRow => p.nRows
  }

  /** The row behind row number r. */
  function RowOf(p: IlpParams, n: int, r: int): Row
  {
    if 0 < p.nArcs && r <= p.nEdgeSelectConstr then SelectRow((r - 1) / p.nArcs + 1, (r - 1) % p.nArcs)
    else if 0 < n && r <= p.nEdgeSelectConstr + p.nFlowConstr then
      FlowRow((r - p.nEdgeSelectConstr - 1) / n + 1, (r - p.nEdgeSelectConstr - 1) % n)
    else BoundRow
  }

  /** Edge-selection row (t, a) lies among the first nEdgeSelectConstr
      rows and decodes back to (t, a). */
  lemma SelectRowNumbered(n: int, nArcs: int, terminals: seq<int>, addUpperBound: bool, t: int, a: int)
    requires 1 <= |terminals| && 0 <= nArcs && 0 <= n && 1 <= t < |terminals| && 0 <= a < nArcs
    ensures var p := InitIlpParams(n, nArcs, terminals, addUpperBound);
      var r := RowIndex(p, n, SelectRow(t, a));
      1 <= r <= p.nEdgeSelectConstr && RowOf(p, n, r) == SelectRow(t, a)
  {
    SlotBound(t - 1, a, nArcs, |terminals| - 1);
    SlotDecode(t - 1, a, nArcs);
  }

  /** Flow row (t, v) lies in the next nFlowConstr rows and decodes back to
      (t, v). */
  lemma FlowRowNumbered(n: int, nArcs: int, terminals: seq<int>, addUpperBound: bool, t: int, v: int)
    requires 1 <= |terminals| && 0 <= nArcs && 0 <= n && 1 <= t < |terminals| && 0 <= v < n
    ensures var p := InitIlpParams(n, nArcs, terminals, addUpperBound);
      var r := RowIndex(p, n, FlowRow(t, v));
      p.nEdgeSelectConstr < r <= p.nEdgeSelectConstr + p.nFlowConstr && RowOf(p, n, r) == FlowRow(t, v)
  {
    SlotBound(t - 1, v, n, |terminals| - 1);
    SlotDecode(t - 1, v, n);
  }

  /** Every row number decodes to a row that numbers back to it. */
  lemma RowDecodes(n: int, nArcs: int, terminals: seq<int>, addUpperBound: bool, r: int)
    requires 1 <= |terminals| && 0 <= nArcs && 0 <= n
    requires 1 <= r <= InitIlpParams(n, nArcs, terminals, addUpperBound).nRows
    ensures var p := InitIlpParams(n, nArcs, terminals, addUpperBound);
      RowIndex(p, n, RowOf(p, n, r)) == r &&
      match RowOf(p, n, r)
      case SelectRow(t, a) => 1 <= t < |terminals| && 0 <= a < nArcs
      case FlowRow(t, v) => 1 <= t < |terminals| && 0 <= v < n
      case BoundRow => addUpperBound
  {
    var p := InitIlpParams(n, nArcs, terminals, addUpperBound);
    if r <= p.nEdgeSelectConstr {
      SlotSplit(r - 1, nArcs, |terminals| - 1);
    } else if r <= p.nEdgeSelectConstr + p.nFlowConstr {
      SlotSplit(r - p.nEdgeSelectConstr - 1, n, |terminals| - 1);
    }
  }

  /** The row numbering is a bijection onto 1..nRows: the edge-selection
      rows come first, the flow-conservation rows next, the upper-bound row
      (when requested) last, and every row number decodes to one of them
      and back. */
  lemma RowsNumbered(n: int, nArcs: int, terminals: seq<int>, addUpperBound: bool)
    requires 1 <= |terminals| && 0 <= nArcs && 0 <= n
    ensures var p := InitIlpParams(n, nArcs, terminals, addUpperBound);
      && (forall t, a :: 1 <= t < |terminals| && 0 <= a < nArcs ==>
            var r := RowIndex(p, n, SelectRow(t, a));
            1 <= r <= p.nEdgeSelectConstr && RowOf(p, n, r) == SelectRow(t, a))
      && (forall t, v :: 1 <= t < |terminals| && 0 <= v < n ==>
            var r := RowIndex(p, n, FlowRow(t, v));
            p.nEdgeSelectConstr < r <= p.nEdgeSelectConstr + p.nFlowConstr && RowOf(p, n, r) == FlowRow(t, v))
      && (addUpperBound ==> p.nRows == p.nEdgeSelectConstr + p.nFlowConstr + 1)
      && (!addUpperBound ==> p.nRows == p.nEdgeSelectConstr + p.nFlowConstr)
      && (forall r :: 1 <= r <= p.nRows ==>
            RowIndex(p, n, RowOf(p, n, r)) == r &&
            match RowOf(p, n, r)
            case SelectRow(t, a) => 1 <= t < |terminals| && 0 <= a < nArcs
            case FlowRow(t, v) => 1 <= t < |terminals| && 0 <= v < n
            case BoundRow => addUpperBound)
  {
    forall t, a | 1 <= t < |terminals| && 0 <= a < nArcs {
      SelectRowNumbered(n, nArcs, terminals, addUpperBound, t, a);
    }
    forall t, v | 1 <= t < |terminals| && 0 <= v < n {
      FlowRowNumbered(n, nArcs, terminals, addUpperBound, t, v);
    }
    forall r | 1 <= r <= InitIlpParams(n, nArcs, terminals, addUpperBound).nRows {
      RowDecodes(n, nArcs, terminals, addUpperBound, r);
    }
  }

  // ---------------------------------------------------------------------
  // createConstraintMatrix

  /** One nonzero of the sparse matrix. */
  datatype Entry = Entry(row: int, col: int, coef: int)

  /** The two nonzeros of edge-selection row (t, a), f^t_a - x_e <= 0. */
  function SelectPair(p: IlpParams, n: int, T: int, t: int, a: nat): seq<Entry>
  {
    var r := RowIndex(p, n, SelectRow(t, a));
    [Entry(r, MapToFlowEntry(a, t, p.nArcs, T, p.nX), 1), Entry(r, ArcToEdge(a), -1)]
  }

  /** The edge-selection nonzeros that come before pair (t, a), terminals
      outer and arcs inner. */
  function SelectPart(p: IlpParams, n: int, T: int, t: int, a: int): seq<Entry>
    requires 1 <= t && 0 <= a <= p.nArcs
    decreases t, a
  {
    if a > 0 then SelectPart(p, n, T, t, a - 1) + SelectPair(p, n, T, t, a - 1)
    else if t > 1 then SelectPart(p, n, T, t - 1, p.nArcs)
    else []
  }

  /** Every adjacency entry names an edge slot. */
  ghost predicate AdjIn(vs: seq<Vertex>, es: seq<Edge>)
  {
    forall v, j :: 0 <= v < |vs| && 0 <= j < |vs[v].edges| ==> 0 <= vs[v].edges[j] < |es|
  }

  /** +1 when v is the tail of arc a (the arc leaves v), -1 otherwise. */
  function FlowCoef(es: seq<Edge>, a: int, v: int): int
    requires 0 <= a < |es|
  {
    if es[a].v == v then 1 else -1
  }

  /** The nonzero of flow row (t, v) for v's j-th adjacency entry. */
  function FlowEntry(p: IlpParams, T: int, vs: seq<Vertex>, es: seq<Edge>, t: int, v: int, j: int): Entry
    requires AdjIn(vs, es) && 0 <= v < |vs| && 0 <= j < |vs[v].edges|
  {
    var a := vs[v].edges[j];
    Entry(RowIndex(p, |vs|, FlowRow(t, v)), MapToFlowEntry(a, t, p.nArcs, T, p.nX), FlowCoef(es, a, v))
  }

  /** Where (t, v, j) may stand in the flow fill. */
  ghost predicate FlowAt(vs: seq<Vertex>, t: int, v: int, j: int)
  {
    1 <= t && 0 <= v <= |vs| && (v < |vs| ==> 0 <= j <= |vs[v].edges|) && (v == |vs| ==> j == 0)
  }

  /** The flow-conservation nonzeros that come before entry j of vertex v
      for terminal t: terminals outer, vertices next, adjacency entries
      inner. */
  function FlowPart(p: IlpParams, T: int, vs: seq<Vertex>, es: seq<Edge>, t: int, v: int, j: int): seq<Entry>
    requires AdjIn(vs, es) && FlowAt(vs, t, v, j)
    decreases t, v, j
  {
    if j > 0 then FlowPart(p, T, vs, es, t, v, j - 1) + [FlowEntry(p, T, vs, es, t, v, j - 1)]
    else if v > 0 then FlowPart(p, T, vs, es, t, v - 1, |vs[v - 1].edges|)
    else if t > 1 then FlowPart(p, T, vs, es, t - 1, |vs|, 0)
    else []
  }

  /** The upper-bound nonzeros of x columns 1..i: each edge's cost, read
      from the first arc of its pair. */
  function BoundPart(p: IlpParams, es: seq<Edge>, i: int): seq<Entry>
    requires 0 <= i && 2 * i <= |es|
  {
    if i == 0 then [] else BoundPart(p, es, i - 1) + [Entry(p.nRows, i, es[2 * (i - 1)].cost)]
  }

  /** Every nonzero of the matrix, in the order of the fill. */
  function Entries(p: IlpParams, T: int, vs: seq<Vertex>, es: seq<Edge>, addUpperBound: bool): seq<Entry>
    requires 1 <= T && 0 <= p.nArcs && AdjIn(vs, es) && 0 <= p.m && 2 * p.m <= |es|
  {
    SelectPart(p, |vs|, T, T, 0) + FlowPart(p, T, vs, es, T, 0, 0) +
    if addUpperBound then BoundPart(p, es, p.m) else []
  }

  lemma {:induction false} SelectPartLen(p: IlpParams, n: int, T: int, t: int, a: int)
    requires 1 <= t && 0 <= a <= p.nArcs
    ensures |SelectPart(p, n, T, t, a)| == 2 * ((t - 1) * p.nArcs + a)
    decreases t, a
  {
    if a > 0 {
      SelectPartLen(p, n, T, t, a - 1);
    } else if t > 1 {
      SelectPartLen(p, n, T, t - 1, p.nArcs);
    }
  }

  /** The degree sum of the first v + 1 vertices. */
  lemma SumDegSnoc(vs: seq<Vertex>, v: int)
    requires 0 <= v < |vs|
    ensures SumDeg(vs[..v + 1]) == SumDeg(vs[..v]) + vs[v].Deg()
  {
    assert vs[..v + 1][..v] == vs[..v];
  }

  lemma {:induction false} FlowPartLen(p: IlpParams, T: int, vs: seq<Vertex>, es: seq<Edge>, t: int, v: int, j: int)
    requires AdjIn(vs, es) && FlowAt(vs, t, v, j)
    ensures |FlowPart(p, T, vs, es, t, v, j)| == (t - 1) * SumDeg(vs) + SumDeg(vs[..v]) + j
    decreases t, v, j
  {
    if j > 0 {
      FlowPartLen(p, T, vs, es, t, v, j - 1);
    } else if v > 0 {
      FlowPartLen(p, T, vs, es, t, v - 1, |vs[v - 1].edges|);
      SumDegSnoc(vs, v - 1);
    } else if t > 1 {
      FlowPartLen(p, T, vs, es, t - 1, |vs|, 0);
      assert vs[..|vs|] == vs;
    }
  }

  lemma {:induction false} BoundPartLen(p: IlpParams, es: seq<Edge>, i: int)
    requires 0 <= i && 2 * i <= |es|
    ensures |BoundPart(p, es, i)| == i
  {
    if i > 0 {
      BoundPartLen(p, es, i - 1);
    }
  }

  /** The closed-form nonzero count of createConstraintMatrix is exactly
      the number of nonzeros: two per edge-selection row, one per adjacency
      entry per non-root terminal, and one per undirected edge for the
      upper-bound row. */
  lemma EntriesCount(n: int, terminals: seq<int>, vs: seq<Vertex>, es: seq<Edge>, nArcs: int, addUpperBound: bool)
    requires 1 <= |terminals| && 0 <= nArcs <= |es| && AdjIn(vs, es) && n == |vs|
    ensures var p := InitIlpParams(n, nArcs, terminals, addUpperBound);
      |Entries(p, |terminals|, vs, es, addUpperBound)| ==
        2 * p.nEdgeSelectConstr + (|terminals| - 1) * SumDeg(vs) + (if addUpperBound then p.m else 0)
  {
    var p := InitIlpParams(n, nArcs, terminals, addUpperBound);
    var T := |terminals|;
    SelectPartLen(p, n, T, T, 0);
    FlowPartLen(p, T, vs, es, T, 0, 0);
    BoundPartLen(p, es, p.m);
    assert vs[..0] == [];
  }

  /** A nonzero as the formulation has it: inside the matrix, and either
      +1 on f^t_a or -1 on x of a's edge in edge-selection row (t, a), or
      the +1/-1 of an arc at v (+1 when it leaves v) on a flow column of
      the same terminal in flow row (t, v), or an edge's cost on its x
      column in the upper-bound row. */
  ghost predicate Shaped(p: IlpParams, n: int, es: seq<Edge>, e: Entry)
  {
    && 0 < p.nArcs && 1 <= e.row <= p.nRows && 1 <= e.col <= p.nCols
    && match RowOf(p, n, e.row)
       case SelectRow(t, a) =>
         (ColumnOf(p, e.col) == FlowColumn(a, t) && e.coef == 1) ||
         (ColumnOf(p, e.col) == EdgeColumn(a / 2) && e.coef == -1)
       case FlowRow(t, v) =>
         var col := ColumnOf(p, e.col);
         col.FlowColumn? && col.t == t && 0 <= col.a < |es| && Incident(es[col.a], v) &&
         e.coef == FlowCoef(es, col.a, v)
       case BoundRow =>
         var col := ColumnOf(p, e.col);
         col.EdgeColumn? && 0 <= 2 * col.e < |es| && e.coef == es[2 * col.e].cost
  }

  /** Every entry of s is shaped. */
  ghost predicate AllShaped(p: IlpParams, n: int, es: seq<Edge>, s: seq<Entry>)
  {
    forall k :: 0 <= k < |s| ==> Shaped(p, n, es, s[k])
  }

  lemma ShapedAppend(p: IlpParams, n: int, es: seq<Edge>, s: seq<Entry>, s': seq<Entry>)
    requires AllShaped(p, n, es, s) && AllShaped(p, n, es, s')
    ensures AllShaped(p, n, es, s + s')
  {
    forall k | 0 <= k < |s + s'| ensures Shaped(p, n, es, (s + s')[k]) {
      if k < |s| {
        assert (s + s')[k] == s[k];
      } else {
        assert (s + s')[k] == s'[k - |s|];
      }
    }
  }

  lemma {:induction false} SelectPartShaped(n: int, terminals: seq<int>, es: seq<Edge>, nArcs: int,
                                            addUpperBound: bool, t: int, a: int)
    requires 1 <= |terminals| && 0 <= nArcs && nArcs % 2 == 0 && 0 <= n
    requires 1 <= t <= |terminals| && 0 <= a <= nArcs && (t == |terminals| ==> a == 0)
    ensures var p := InitIlpParams(n, nArcs, terminals, addUpperBound);
      AllShaped(p, n, es, SelectPart(p, n, |terminals|, t, a))
    decreases t, a
  {
    var p := InitIlpParams(n, nArcs, terminals, addUpperBound);
    if a > 0 {
      SelectPartShaped(n, terminals, es, nArcs, addUpperBound, t, a - 1);
      SelectRowNumbered(n, nArcs, terminals, addUpperBound, t, a - 1);
      FlowColumnNumbered(n, nArcs, terminals, addUpperBound, a - 1, t);
      assert 1 <= ArcToEdge(a - 1) <= p.nX;
      ShapedAppend(p, n, es, SelectPart(p, n, |terminals|, t, a - 1), SelectPair(p, n, |terminals|, t, a - 1));
    } else if t > 1 {
      SelectPartShaped(n, terminals, es, nArcs, addUpperBound, t - 1, nArcs);
    }
  }

  lemma {:induction false} FlowPartShaped(terminals: seq<int>, vs: seq<Vertex>, es: seq<Edge>, nArcs: int,
                                          addUpperBound: bool, t: int, v: int, j: int)
    requires 1 <= |terminals| && 0 <= nArcs && WFUpTo(|vs|, vs, es, nArcs) && AdjIn(vs, es)
    requires FlowAt(vs, t, v, j) && t <= |terminals| && (t == |terminals| ==> v == 0 && j == 0)
    ensures var p := InitIlpParams(|vs|, nArcs, terminals, addUpperBound);
      AllShaped(p, |vs|, es, FlowPart(p, |terminals|, vs, es, t, v, j))
    decreases t, v, j
  {
    var p := InitIlpParams(|vs|, nArcs, terminals, addUpperBound);
    var T := |terminals|;
    if j > 0 {
      FlowPartShaped(terminals, vs, es, nArcs, addUpperBound, t, v, j - 1);
      var a := vs[v].edges[j - 1];
      FlowRowNumbered(|vs|, nArcs, terminals, addUpperBound, t, v);
      FlowColumnNumbered(|vs|, nArcs, terminals, addUpperBound, a, t);
      assert Shaped(p, |vs|, es, FlowEntry(p, T, vs, es, t, v, j - 1));
      ShapedAppend(p, |vs|, es, FlowPart(p, T, vs, es, t, v, j - 1), [FlowEntry(p, T, vs, es, t, v, j - 1)]);
    } else if v > 0 {
      FlowPartShaped(terminals, vs, es, nArcs, addUpperBound, t, v - 1, |vs[v - 1].edges|);
    } else if t > 1 {
      FlowPartShaped(terminals, vs, es, nArcs, addUpperBound, t - 1, |vs|, 0);
    }
  }

  lemma {:induction false} BoundPartShaped(n: int, terminals: seq<int>, es: seq<Edge>, nArcs: int, i: int)
    requires 1 <= |terminals| && 0 <= n && 0 <= nArcs <= |es| && nArcs % 2 == 0 && 0 <= i <= nArcs / 2
    ensures var p := InitIlpParams(n, nArcs, terminals, true);
      AllShaped(p, n, es, BoundPart(p, es, i))
  {
    var p := InitIlpParams(n, nArcs, terminals, true);
    if i > 0 {
      BoundPartShaped(n, terminals, es, nArcs, i - 1);
      RowDecodes(n, nArcs, terminals, true, p.nRows);
      assert RowOf(p, n, p.nRows) == BoundRow;
      ShapedAppend(p, n, es, BoundPart(p, es, i - 1), [Entry(p.nRows, i, es[2 * (i - 1)].cost)]);
    }
  }

  /** Every nonzero createConstraintMatrix writes is one the formulation
      calls for, inside the nRows x nCols matrix. */
  lemma EntriesShaped(terminals: seq<int>, vs: seq<Vertex>, es: seq<Edge>, nArcs: int, addUpperBound: bool)
    requires 1 <= |terminals| && 0 <= nArcs <= |es| && nArcs % 2 == 0 && WFUpTo(|vs|, vs, es, nArcs)
    requires AdjIn(vs, es)
    ensures var p := InitIlpParams(|vs|, nArcs, terminals, addUpperBound);
      AllShaped(p, |vs|, es, Entries(p, |terminals|, vs, es, addUpperBound))
  {
    var p := InitIlpParams(|vs|, nArcs, terminals, addUpperBound);
    var T := |terminals|;
    SelectPartShaped(|vs|, terminals, es, nArcs, addUpperBound, T, 0);
    FlowPartShaped(terminals, vs, es, nArcs, addUpperBound, T, 0, 0);
    ShapedAppend(p, |vs|, es, SelectPart(p, |vs|, T, T, 0), FlowPart(p, T, vs, es, T, 0, 0));
    if addUpperBound {
      BoundPartShaped(|vs|, terminals, es, nArcs, p.m);
      ShapedAppend(p, |vs|, es, SelectPart(p, |vs|, T, T, 0) + FlowPart(p, T, vs, es, T, 0, 0),
                   BoundPart(p, es, p.m));
    } else {
      assert Entries(p, T, vs, es, false) == SelectPart(p, |vs|, T, T, 0) + FlowPart(p, T, vs, es, T, 0, 0);
    }
  }

  /** The three 1-based triplet arrays hold the nonzeros s in slots
      1..|s| (slot 0 is unused, as the MIP solver's loader expects). */
  ghost predicate Holds(rowInds: array<int>, colInds: array<int>, coefficients: array<int>, s: seq<Entry>)
    reads rowInds, colInds, coefficients
  {
    && |s| < rowInds.Length && rowInds.Length == colInds.Length == coefficients.Length
    && forall k :: 0 <= k < |s| ==>
         rowInds[k + 1] == s[k].row && colInds[k + 1] == s[k].col && coefficients[k + 1] == s[k].coef
  }

  /** Write one nonzero into slot nzI. */
  method Put(rowInds: array<int>, colInds: array<int>, coefficients: array<int>, nzI: int,
             row: int, col: int, coef: int, ghost s: seq<Entry>)
    requires rowInds != colInds && rowInds != coefficients && colInds != coefficients
    requires Holds(rowInds, colInds, coefficients, s) && nzI == |s| + 1 && nzI < rowInds.Length
    modifies rowInds, colInds, coefficients
    ensures Holds(rowInds, colInds, coefficients, s + [Entry(row, col, coef)])
  {
    rowInds[nzI] := row;
    colInds[nzI] := col;
    coefficients[nzI] := coef;
  }

  lemma SumDegPrefix(vs: seq<Vertex>, v: int)
    requires 0 <= v <= |vs|
    ensures SumDeg(vs[..v]) <= SumDeg(vs)
    decreases |vs| - v
  {
    if v < |vs| {
      SumDegSnoc(vs, v);
      SumDegPrefix(vs, v + 1);
    } else {
      assert vs[..v] == vs;
    }
  }

  /** (t-1)*w + w == t*w. */
  lemma MulSucc(t: int, w: int)
    ensures (t - 1) * w + w == t * w
  {
  }

  /** Multiplying by w >= 0 keeps the order. */
  lemma MulLe(a: int, b: int, w: int)
    requires a <= b && 0 <= w
    ensures a * w <= b * w
  {
    assert b * w - a * w == (b - a) * w;
  }

  /** One pass of the inner edge-selection loop: terminal t, every arc. */
  method FillSelectRow(p: IlpParams, n: int, T: int, t: int, rowI: int, nzI: int, rowInds: array<int>,
                       colInds: array<int>, coefficients: array<int>) returns (rowI': int, nzI': int)
    requires rowInds != colInds && rowInds != coefficients && colInds != coefficients
    requires 1 <= t && 0 <= p.nArcs && Holds(rowInds, colInds, coefficients, SelectPart(p, n, T, t, 0))
    requires rowI == (t - 1) * p.nArcs + 1 && nzI == 2 * (rowI - 1) + 1 && nzI + 2 * p.nArcs <= rowInds.Length
    modifies rowInds, colInds, coefficients
    ensures Holds(rowInds, colInds, coefficients, SelectPart(p, n, T, t, p.nArcs))
    ensures rowI' == rowI + p.nArcs && nzI' == nzI + 2 * p.nArcs
  {
    rowI', nzI' := rowI, nzI;
    var a := 0;
    while a < p.nArcs
      invariant 0 <= a <= p.nArcs
      invariant rowI' == rowI + a && nzI' == nzI + 2 * a
      invariant Holds(rowInds, colInds, coefficients, SelectPart(p, n, T, t, a))
    {
      ghost var done := SelectPart(p, n, T, t, a);
      SelectPartLen(p, n, T, t, a);
      var colFlow := MapToFlowEntry(a, t, p.nArcs, T, p.nX);
      var colEdge := ArcToEdge(a);
      Put(rowInds, colInds, coefficients, nzI', rowI', colFlow, 1, done);
      nzI' := nzI' + 1;
      Put(rowInds, colInds, coefficients, nzI', rowI', colEdge, -1, done + [Entry(rowI', colFlow, 1)]);
      nzI' := nzI' + 1;
      assert done + [Entry(rowI', colFlow, 1)] + [Entry(rowI', colEdge, -1)] == SelectPart(p, n, T, t, a + 1);
      rowI' := rowI' + 1;
      a := a + 1;
    }
  }

  /** The edge-selection loops of createConstraintMatrix: for every
      non-root terminal t and arc a, row rowI gets +1 on f^t_a and -1 on x
      of a's edge. */
  method FillSelect(p: IlpParams, n: int, T: int, rowInds: array<int>, colInds: array<int>,
                    coefficients: array<int>) returns (rowI: int, nzI: int)
    requires rowInds != colInds && rowInds != coefficients && colInds != coefficients
    requires 1 <= T && 0 <= p.nArcs && Holds(rowInds, colInds, coefficients, [])
    requires 2 * ((T - 1) * p.nArcs) < rowInds.Length
    modifies rowInds, colInds, coefficients
    ensures Holds(rowInds, colInds, coefficients, SelectPart(p, n, T, T, 0))
    ensures rowI == (T - 1) * p.nArcs + 1 && nzI == 2 * ((T - 1) * p.nArcs) + 1
  {
    rowI, nzI := 1, 1;
    var t := 1;
    while t < T
      invariant 1 <= t <= T
      invariant rowI == (t - 1) * p.nArcs + 1 && nzI == 2 * (rowI - 1) + 1
      invariant Holds(rowInds, colInds, coefficients, SelectPart(p, n, T, t, 0))
    {
      MulSucc(t, p.nArcs);
      MulLe(t, T - 1, p.nArcs);
      rowI, nzI := FillSelectRow(p, n, T, t, rowI, nzI, rowInds, colInds, coefficients);
      t := t + 1;
    }
  }

  /** A well-formed adjacency only names edge slots. */
  lemma WellFormedAdjIn(n: int, vs: seq<Vertex>, es: seq<Edge>, k: int)
    requires WFUpTo(n, vs, es, k)
    ensures AdjIn(vs, es)
  {
  }

  /** The innermost flow loop: one nonzero per adjacency entry of v, +1
      when the arc leaves v and -1 when it enters v, all in row rowI. */
  method FillVertex(g: Graph, p: IlpParams, T: int, t: int, v: int, rowI: int, nzI: int, rowInds: array<int>,
                    colInds: array<int>, coefficients: array<int>, ghost pre: seq<Entry>) returns (nzI': int)
    requires rowInds != colInds && rowInds != coefficients && colInds != coefficients
    requires g.Valid() && AdjIn(g.vertices[..], g.edges[..]) && 1 <= t && 0 <= v < g.n
    requires Holds(rowInds, colInds, coefficients, pre + FlowPart(p, T, g.vertices[..], g.edges[..], t, v, 0))
    requires nzI == |pre| + |FlowPart(p, T, g.vertices[..], g.edges[..], t, v, 0)| + 1
    requires nzI + g.vertices[v].Deg() <= rowInds.Length
    requires rowI == RowIndex(p, g.n, FlowRow(t, v))
    modifies rowInds, colInds, coefficients
    ensures Holds(rowInds, colInds, coefficients,
                  pre + FlowPart(p, T, g.vertices[..], g.edges[..], t, v, g.vertices[v].Deg()))
    ensures nzI' == nzI + g.vertices[v].Deg()
  {
    ghost var vs, es := g.vertices[..], g.edges[..];
    nzI' := nzI;
    var deg := |g.vertices[v].edges|;
    var j := 0;
    while j < deg
      invariant 0 <= j <= deg && nzI' == nzI + j
      invariant |FlowPart(p, T, vs, es, t, v, j)| == |FlowPart(p, T, vs, es, t, v, 0)| + j
      invariant Holds(rowInds, colInds, coefficients, pre + FlowPart(p, T, vs, es, t, v, j))
    {
      var a := g.vertices[v].edges[j];
      var colFlow := MapToFlowEntry(a, t, p.nArcs, T, p.nX);
      var coef := if g.edges[a].v == v then 1 else -1;
      ghost var done := pre + FlowPart(p, T, vs, es, t, v, j);
      Put(rowInds, colInds, coefficients, nzI', rowI, colFlow, coef, done);
      assert done + [Entry(rowI, colFlow, coef)] == pre + FlowPart(p, T, vs, es, t, v, j + 1);
      nzI' := nzI' + 1;
      j := j + 1;
    }
  }

  /** The vertex loop of the flow-conservation fill for terminal t: one
      row per vertex, rows numbered on from rowI. */
  method FillTerminal(g: Graph, p: IlpParams, T: int, t: int, rowI: int, nzI: int, rowInds: array<int>,
                      colInds: array<int>, coefficients: array<int>, ghost pre: seq<Entry>)
    returns (rowI': int, nzI': int)
    requires rowInds != colInds && rowInds != coefficients && colInds != coefficients
    requires g.Valid() && AdjIn(g.vertices[..], g.edges[..]) && 1 <= t
    requires Holds(rowInds, colInds, coefficients, pre + FlowPart(p, T, g.vertices[..], g.edges[..], t, 0, 0))
    requires nzI == |pre| + |FlowPart(p, T, g.vertices[..], g.edges[..], t, 0, 0)| + 1
    requires nzI + g.TotalDegree() <= rowInds.Length
    requires rowI == RowIndex(p, g.n, FlowRow(t, 0))
    modifies rowInds, colInds, coefficients
    ensures Holds(rowInds, colInds, coefficients, pre + FlowPart(p, T, g.vertices[..], g.edges[..], t, g.n, 0))
    ensures rowI' == rowI + g.n && nzI' == nzI + g.TotalDegree()
  {
    ghost var vs, es := g.vertices[..], g.edges[..];
    FlowPartLen(p, T, vs, es, t, 0, 0);
    rowI', nzI' := rowI, nzI;
    var v := 0;
    while v < g.n
      invariant 0 <= v <= g.n && rowI' == rowI + v
      invariant nzI' == |pre| + |FlowPart(p, T, vs, es, t, v, 0)| + 1
      invariant Holds(rowInds, colInds, coefficients, pre + FlowPart(p, T, vs, es, t, v, 0))
    {
      FlowPartLen(p, T, vs, es, t, v, 0);
      SumDegSnoc(vs, v);
      SumDegPrefix(vs, v + 1);
      assert nzI' + vs[v].Deg() <= rowInds.Length;
      nzI' := FillVertex(g, p, T, t, v, rowI', nzI', rowInds, colInds, coefficients, pre);
      assert FlowPart(p, T, vs, es, t, v + 1, 0) == FlowPart(p, T, vs, es, t, v, vs[v].Deg());
      FlowPartLen(p, T, vs, es, t, v, vs[v].Deg());
      rowI' := rowI' + 1;
      v := v + 1;
    }
    FlowPartLen(p, T, vs, es, t, v, 0);
    assert vs[..v] == vs;
  }

  /** The flow-conservation loops of createConstraintMatrix: for every
      non-root terminal t and vertex v, row rowI gets the flow columns of
      the arcs at v. */
  method FillFlow(g: Graph, p: IlpParams, T: int, rowI: int, nzI: int, rowInds: array<int>,
                  colInds: array<int>, coefficients: array<int>, ghost pre: seq<Entry>)
    returns (rowI': int, nzI': int)
    requires rowInds != colInds && rowInds != coefficients && colInds != coefficients
    requires g.Valid() && AdjIn(g.vertices[..], g.edges[..]) && 1 <= T
    requires Holds(rowInds, colInds, coefficients, pre) && nzI == |pre| + 1
    requires |pre| + (T - 1) * g.TotalDegree() < rowInds.Length
    requires rowI == p.nEdgeSelectConstr + 1
    modifies rowInds, colInds, coefficients
    ensures Holds(rowInds, colInds, coefficients, pre + FlowPart(p, T, g.vertices[..], g.edges[..], T, 0, 0))
    ensures nzI' == nzI + (T - 1) * g.TotalDegree()
  {
    ghost var vs, es := g.vertices[..], g.edges[..];
    rowI', nzI' := rowI, nzI;
    assert pre + FlowPart(p, T, vs, es, 1, 0, 0) == pre;
    var t := 1;
    while t < T
      invariant 1 <= t <= T
      invariant rowI' == p.nEdgeSelectConstr + (t - 1) * g.n + 1 && nzI' == nzI + (t - 1) * g.TotalDegree()
      invariant |FlowPart(p, T, vs, es, t, 0, 0)| == (t - 1) * g.TotalDegree()
      invariant Holds(rowInds, colInds, coefficients, pre + FlowPart(p, T, vs, es, t, 0, 0))
    {
      MulSucc(t, g.n);
      MulSucc(t, g.TotalDegree());
      MulLe(t, T - 1, g.TotalDegree());
      rowI', nzI' := FillTerminal(g, p, T, t, rowI', nzI', rowInds, colInds, coefficients, pre);
      FlowPartLen(p, T, vs, es, t + 1, 0, 0);
      t := t + 1;
    }
  }

  /** The upper-bound loop of createConstraintMatrix: row nRows gets the
      cost of every undirected edge on its x column. */
  method FillBound(g: Graph, p: IlpParams, nzI: int, rowInds: array<int>, colInds: array<int>,
                   coefficients: array<int>, ghost pre: seq<Entry>) returns (nzI': int)
    requires rowInds != colInds && rowInds != coefficients && colInds != coefficients
    requires 0 <= p.m && 2 * p.m <= g.edges.Length
    requires Holds(rowInds, colInds, coefficients, pre) && nzI == |pre| + 1 && nzI + p.m <= rowInds.Length
    modifies rowInds, colInds, coefficients
    ensures Holds(rowInds, colInds, coefficients, pre + BoundPart(p, g.edges[..], p.m))
    ensures nzI' == nzI + p.m
  {
    ghost var es := g.edges[..];
    var ubRow := p.nRows;
    nzI' := nzI;
    assert pre + BoundPart(p, es, 0) == pre;
    var i := 1;
    while i <= p.m
      invariant 1 <= i <= p.m + 1 && nzI' == nzI + i - 1
      invariant |BoundPart(p, es, i - 1)| == i - 1
      invariant Holds(rowInds, colInds, coefficients, pre + BoundPart(p, es, i - 1))
    {
      ghost var done := pre + BoundPart(p, es, i - 1);
      Put(rowInds, colInds, coefficients, nzI', ubRow, i, g.edges[2 * (i - 1)].cost, done);
      assert done + [Entry(ubRow, i, es[2 * (i - 1)].cost)] == pre + BoundPart(p, es, i);
      nzI' := nzI' + 1;
      i := i + 1;
    }
  }

  /** Held nonzeros that are all shaped read back as shaped triplets. */
  lemma HeldShaped(p: IlpParams, n: int, es: seq<Edge>, rowInds: array<int>, colInds: array<int>,
                   coefficients: array<int>, s: seq<Entry>)
    requires Holds(rowInds, colInds, coefficients, s) && AllShaped(p, n, es, s)
    ensures forall k :: 1 <= k <= |s| ==> Shaped(p, n, es, Entry(rowInds[k], colInds[k], coefficients[k]))
  {
    forall k | 1 <= k <= |s|
      ensures Shaped(p, n, es, Entry(rowInds[k], colInds[k], coefficients[k]))
    {
      assert Entry(rowInds[k], colInds[k], coefficients[k]) == s[k - 1];
    }
  }

  /** The edge-selection and flow-conservation phases of
      createConstraintMatrix, one after the other. */
  method FillRows(g: Graph, p: IlpParams, T: int, rowInds: array<int>, colInds: array<int>,
                  coefficients: array<int>) returns (nzI: int)
    requires rowInds != colInds && rowInds != coefficients && colInds != coefficients
    requires g.Valid() && AdjIn(g.vertices[..], g.edges[..]) && 1 <= T && 0 <= p.nArcs
    requires p.nEdgeSelectConstr == (T - 1) * p.nArcs
    requires rowInds.Length == colInds.Length == coefficients.Length
    requires 2 * p.nEdgeSelectConstr + (T - 1) * g.TotalDegree() < rowInds.Length
    modifies rowInds, colInds, coefficients
    ensures Holds(rowInds, colInds, coefficients,
                  SelectPart(p, g.n, T, T, 0) + FlowPart(p, T, g.vertices[..], g.edges[..], T, 0, 0))
    ensures nzI == 2 * p.nEdgeSelectConstr + (T - 1) * g.TotalDegree() + 1
  {
    MulLe(0, T - 1, g.TotalDegree());
    var rowI;
    rowI, nzI := FillSelect(p, g.n, T, rowInds, colInds, coefficients);
    SelectPartLen(p, g.n, T, T, 0);
    rowI, nzI := FillFlow(g, p, T, rowI, nzI, rowInds, colInds, coefficients, SelectPart(p, g.n, T, T, 0));
  }

  /** The three fill phases of createConstraintMatrix into arrays sized
      for every nonzero. */
  method FillMatrix(g: Graph, p: IlpParams, T: int, addUpperBound: bool, rowInds: array<int>,
                    colInds: array<int>, coefficients: array<int>)
    requires rowInds != colInds && rowInds != coefficients && colInds != coefficients
    requires g.Valid() && AdjIn(g.vertices[..], g.edges[..]) && 1 <= T && 0 <= p.nArcs
    requires 0 <= p.m && 2 * p.m <= g.edges.Length && p.nEdgeSelectConstr == (T - 1) * p.nArcs
    requires rowInds.Length == colInds.Length == coefficients.Length
    requires rowInds.Length == 2 * p.nEdgeSelectConstr + (T - 1) * g.TotalDegree() +
                               (if addUpperBound then p.m else 0) + 1
    modifies rowInds, colInds, coefficients
    ensures Holds(rowInds, colInds, coefficients, Entries(p, T, g.vertices[..], g.edges[..], addUpperBound))
  {
    ghost var vs, es := g.vertices[..], g.edges[..];
    var nzI := FillRows(g, p, T, rowInds, colInds, coefficients);
    ghost var rows := SelectPart(p, g.n, T, T, 0) + FlowPart(p, T, vs, es, T, 0, 0);
    SelectPartLen(p, g.n, T, T, 0);
    FlowPartLen(p, T, vs, es, T, 0, 0);
    if addUpperBound {
      nzI := FillBound(g, p, nzI, rowInds, colInds, coefficients, rows);
    } else {
      assert rows == Entries(p, T, vs, es, addUpperBound);
    }
  }

  /** The three calloc'd triplet arrays of one size. */
  method NewTriplets(size: nat) returns (rowInds: array<int>, colInds: array<int>, coefficients: array<int>)
    ensures fresh(rowInds) && fresh(colInds) && fresh(coefficients)
    ensures rowInds.Length == colInds.Length == coefficients.Length == size
    ensures rowInds != colInds && rowInds != coefficients && colInds != coefficients
  {
    rowInds := new int[size];
    colInds := new int[size];
    coefficients := new int[size];
  }

  /** The closed-form nonzero count at the head of createConstraintMatrix. */
  method CountNonzeros(g: Graph, nTerminals: int, p: IlpParams, addUpperBound: bool) returns (nnz: int)
    requires g.Valid() && 1 <= nTerminals && 0 <= p.nEdgeSelectConstr && 0 <= p.m
    ensures nnz == 2 * p.nEdgeSelectConstr + (nTerminals - 1) * g.TotalDegree() + (if addUpperBound then p.m else 0)
    ensures 0 <= nnz
  {
    var nnzEdgeSelect := 2 * p.nEdgeSelectConstr;
    var sumDegs := SumOfDegrees(g);
    var nnzFlow := (nTerminals - 1) * sumDegs;
    nnz := nnzEdgeSelect + nnzFlow;
    if addUpperBound {
      nnz := nnz + p.m;
    }
    MulLe(0, nTerminals - 1, sumDegs);
  }

  /** Every nonzero of a filled matrix is one the formulation calls for. */
  lemma MatrixShaped(p: IlpParams, terminals: seq<int>, vs: seq<Vertex>, es: seq<Edge>, nArcs: int,
                     addUpperBound: bool, rowInds: array<int>, colInds: array<int>, coefficients: array<int>)
    requires 1 <= |terminals| && 0 <= nArcs <= |es| && nArcs % 2 == 0 && WFUpTo(|vs|, vs, es, nArcs)
    requires AdjIn(vs, es) && p == InitIlpParams(|vs|, nArcs, terminals, addUpperBound)
    requires Holds(rowInds, colInds, coefficients, Entries(p, |terminals|, vs, es, addUpperBound))
    ensures forall k :: 1 <= k <= |Entries(p, |terminals|, vs, es, addUpperBound)| ==>
      Shaped(p, |vs|, es, Entry(rowInds[k], colInds[k], coefficients[k]))
  {
    EntriesShaped(terminals, vs, es, nArcs, addUpperBound);
    HeldShaped(p, |vs|, es, rowInds, colInds, coefficients, Entries(p, |terminals|, vs, es, addUpperBound));
  }

  /** createConstraintMatrix: the nonzero count is two per edge-selection
      row, one per adjacency entry per non-root terminal and, with the
      upper bound, one per undirected edge; the three 1-based triplet
      arrays hold exactly those nonzeros, in fill order, and each one is a
      nonzero of the formulation. */
  method CreateConstraintMatrix(g: Graph, terminals: seq<int>, p: IlpParams, addUpperBound: bool)
    returns (nnz: int, rowInds: array<int>, colInds: array<int>, coefficients: array<int>)
    requires g.WellFormed() && 1 <= |terminals| && p == InitIlpParams(g.n, g.m, terminals, addUpperBound)
    ensures fresh(rowInds) && fresh(colInds) && fresh(coefficients)
    ensures nnz == 2 * p.nEdgeSelectConstr + (|terminals| - 1) * g.TotalDegree() + (if addUpperBound then p.m else 0)
    ensures rowInds.Length == nnz + 1 && AdjIn(g.vertices[..], g.edges[..])
    ensures Holds(rowInds, colInds, coefficients, Entries(p, |terminals|, g.vertices[..], g.edges[..], addUpperBound))
    ensures g.m % 2 == 0 ==> forall k :: 1 <= k <= nnz ==>
      Shaped(p, g.n, g.edges[..], Entry(rowInds[k], colInds[k], coefficients[k]))
  {
    ghost var vs, es := g.vertices[..], g.edges[..];
    WellFormedAdjIn(g.n, vs, es, g.m);
    MulLe(0, |terminals| - 1, g.m);
    nnz := CountNonzeros(g, |terminals|, p, addUpperBound);
    rowInds, colInds, coefficients := NewTriplets(nnz + 1);
    FillMatrix(g, p, |terminals|, addUpperBound, rowInds, colInds, coefficients);
    EntriesCount(g.n, terminals, vs, es, g.m, addUpperBound);
    if g.m % 2 == 0 {
      MatrixShaped(p, terminals, vs, es, g.m, addUpperBound, rowInds, colInds, coefficients);
    }
  }

  // ---------------------------------------------------------------------
  // addConstraints: row bounds

  /** How a row is bounded: at most hi, or fixed to value. */
  datatype RowBound = Upper(hi: int) | Fixed(value: int)

  /** b^t(v): flow conservation ships one unit out of the root and into
      terminal t; every other vertex passes on what it receives. */
  function Rhs(root: int, terminal: int, v: int): (b: int)
    ensures b == 1 <==> v == root
    ensures b == -1 <==> v != root && v == terminal
    ensures b == 0 <==> v != root && v != terminal
  {
    if v == root then 1 else if v == terminal then -1 else 0
  }

  /** The right-hand sides of vertices 0..k-1 added up. */
  function RhsTotal(root: int, terminal: int, k: nat): int
  {
    if k == 0 then 0 else RhsTotal(root, terminal, k - 1) + Rhs(root, terminal, k - 1)
  }

  lemma {:induction false} RhsPrefix(root: int, terminal: int, k: nat)
    ensures RhsTotal(root, terminal, k) ==
      (if 0 <= root < k then 1 else 0) - (if 0 <= terminal < k && terminal != root then 1 else 0)
  {
    if k > 0 {
      RhsPrefix(root, terminal, k - 1);
    }
  }

  /** Supply and demand of every commodity balance exactly when its
      terminal is not the root: the root supplies one unit and the terminal
      absorbs it. */
  lemma RhsBalance(root: int, terminal: int, n: nat)
    requires 0 <= root < n && 0 <= terminal < n
    ensures RhsTotal(root, terminal, n) == 0 <==> terminal != root
  {
    RhsPrefix(root, terminal, n);
  }

  /** Flow row (t, v) exists and is fixed to b^t(v). */
  ghost predicate FlowRowFixed(bounds: seq<RowBound>, p: IlpParams, n: int, terminals: seq<int>, t: int, v: int)
    requires 0 <= t < |terminals|
  {
    var r := RowIndex(p, n, FlowRow(t, v));
    0 <= r < |bounds| && bounds[r] == Fixed(Rhs(p.root, terminals[t], v))
  }

  /** Flow row (t', v) of an earlier terminal t' < t comes before the first
      flow row of terminal t. */
  lemma FlowRowBefore(p: IlpParams, n: int, t': int, v: int, t: int)
    requires 1 <= t' < t && 0 <= v < n
    ensures RowIndex(p, n, FlowRow(t', v)) < p.nEdgeSelectConstr + (t - 1) * n + 1
  {
    MulSucc(t', n);
    MulLe(t', t - 1, n);
  }

  /** Fixing the n rows from rowI, the rows of terminal t, adds terminal
      t's flow rows and keeps the earlier ones and the edge-selection rows. */
  lemma FlowBoundsStep(bs: seq<RowBound>, bs': seq<RowBound>, p: IlpParams, n: int, terminals: seq<int>, t: int,
                       rowI: int)
    requires 1 <= t < |terminals| && 0 <= n && 0 <= p.nEdgeSelectConstr
    requires rowI == p.nEdgeSelectConstr + (t - 1) * n + 1 && rowI + n <= |bs| == |bs'|
    requires forall r :: 1 <= r <= p.nEdgeSelectConstr ==> bs[r] == Upper(0)
    requires forall t', v :: 1 <= t' < t && 0 <= v < n ==> FlowRowFixed(bs, p, n, terminals, t', v)
    requires forall v :: 0 <= v < n ==> bs'[rowI + v] == Fixed(Rhs(p.root, terminals[t], v))
    requires forall r :: 0 <= r < |bs| && !(rowI <= r < rowI + n) ==> bs'[r] == bs[r]
    ensures forall r :: 1 <= r <= p.nEdgeSelectConstr ==> bs'[r] == Upper(0)
    ensures forall t', v :: 1 <= t' < t + 1 && 0 <= v < n ==> FlowRowFixed(bs', p, n, terminals, t', v)
  {
    forall t', v | 1 <= t' < t + 1 && 0 <= v < n
      ensures FlowRowFixed(bs', p, n, terminals, t', v)
    {
      if t' < t {
        FlowRowBefore(p, n, t', v, t);
        assert FlowRowFixed(bs, p, n, terminals, t', v);
      } else {
        assert RowIndex(p, n, FlowRow(t', v)) == rowI + v;
      }
    }
  }

  /** The vertex loop of addConstraints for terminal t: rows rowI..rowI+n-1
      are fixed to b^t(v). */
  method SetFlowBounds(bounds: array<RowBound>, n: int, root: int, terminal: int, rowI: int)
    requires 0 <= n && 0 <= rowI && rowI + n <= bounds.Length
    modifies bounds
    ensures forall v :: 0 <= v < n ==> bounds[rowI + v] == Fixed(Rhs(root, terminal, v))
    ensures forall r :: 0 <= r < bounds.Length && !(rowI <= r < rowI + n) ==> bounds[r] == old(bounds[r])
  {
    var v := 0;
    while v < n
      invariant 0 <= v <= n
      invariant forall v' :: 0 <= v' < v ==> bounds[rowI + v'] == Fixed(Rhs(root, terminal, v'))
      invariant forall r :: 0 <= r < bounds.Length && !(rowI <= r < rowI + v) ==> bounds[r] == old(bounds[r])
    {
      var rhs := 0;
      if v == root {
        rhs := 1;
      } else if v == terminal {
        rhs := -1;
      }
      bounds[rowI + v] := Fixed(rhs);
      v := v + 1;
    }
  }

  /** The first loop of addConstraints: rows 1..nSelect are at most 0. */
  method SetSelectBounds(bounds: array<RowBound>, nSelect: int)
    requires nSelect < bounds.Length
    modifies bounds
    ensures forall r :: 1 <= r <= nSelect ==> bounds[r] == Upper(0)
  {
    var i := 1;
    while i <= nSelect
      invariant 1 <= i <= nSelect + 1 || (nSelect < 1 && i == 1)
      invariant forall r :: 1 <= r < i ==> bounds[r] == Upper(0)
    {
      bounds[i] := Upper(0);
      i := i + 1;
    }
  }

  /** The terminal loop of addConstraints: the flow rows of every
      non-root terminal, numbered on from the edge-selection rows. */
  method SetAllFlowBounds(bounds: array<RowBound>, n: int, p: IlpParams, terminals: seq<int>)
    requires 1 <= |terminals| && 0 <= n && 0 <= p.nEdgeSelectConstr
    requires p.nEdgeSelectConstr + (|terminals| - 1) * n < bounds.Length
    requires forall r :: 1 <= r <= p.nEdgeSelectConstr ==> bounds[r] == Upper(0)
    modifies bounds
    ensures forall r :: 1 <= r <= p.nEdgeSelectConstr ==> bounds[r] == Upper(0)
    ensures forall t, v :: 1 <= t < |terminals| && 0 <= v < n ==> FlowRowFixed(bounds[..], p, n, terminals, t, v)
  {
    var rowI := p.nEdgeSelectConstr + 1;
    var t := 1;
    while t < |terminals|
      invariant 1 <= t <= |terminals| && rowI == p.nEdgeSelectConstr + (t - 1) * n + 1
      invariant forall r :: 1 <= r <= p.nEdgeSelectConstr ==> bounds[r] == Upper(0)
      invariant forall t', v :: 1 <= t' < t && 0 <= v < n ==> FlowRowFixed(bounds[..], p, n, terminals, t', v)
    {
      MulSucc(t, n);
      MulLe(t, |terminals| - 1, n);
      ghost var bs := bounds[..];
      SetFlowBounds(bounds, n, p.root, terminals[t], rowI);
      FlowBoundsStep(bs, bounds[..], p, n, terminals, t, rowI);
      rowI := rowI + n;
      t := t + 1;
    }
  }

  /** Setting the upper-bound row, which comes after every flow row, keeps
      the edge-selection and flow rows. */
  lemma BoundRowStep(bs: seq<RowBound>, bs': seq<RowBound>, p: IlpParams, n: int, terminals: seq<int>)
    requires 1 <= |terminals| && 0 <= n && p.nRows == p.nEdgeSelectConstr + (|terminals| - 1) * n + 1
    requires 0 <= p.nRows < |bs| == |bs'| && forall r :: 0 <= r < |bs| && r != p.nRows ==> bs'[r] == bs[r]
    requires forall r :: 1 <= r <= p.nEdgeSelectConstr ==> bs[r] == Upper(0)
    requires forall t, v :: 1 <= t < |terminals| && 0 <= v < n ==> FlowRowFixed(bs, p, n, terminals, t, v)
    ensures forall r :: 1 <= r <= p.nEdgeSelectConstr ==> bs'[r] == Upper(0)
    ensures forall t, v :: 1 <= t < |terminals| && 0 <= v < n ==> FlowRowFixed(bs', p, n, terminals, t, v)
  {
    forall t, v | 1 <= t < |terminals| && 0 <= v < n
      ensures FlowRowFixed(bs', p, n, terminals, t, v)
    {
      FlowRowBefore(p, n, t, v, |terminals|);
      assert FlowRowFixed(bs, p, n, terminals, t, v);
    }
  }

  /** The upper bound addConstraints puts on the last row: the cost of the
      tree parallelTwoAPX returns, summed by sumEdgeCosts. That tree joins
      every terminal, so the bound is the cost of a feasible solution. */
  method IlpUpperBound(g: Graph, terminals: seq<int>, nThreads: nat, rowSchedule: seq<int>, pathSchedule: seq<int>)
    returns (upBound: nat, tree: seq<int>, ghost TV: seq<int>)
    requires g.Built() && InRange(terminals, g.n) && NotAllEqual(terminals)
    requires 1 <= nThreads && |terminals| - 1 <= |rowSchedule| && |terminals| <= |pathSchedule|
    requires forall i :: 0 <= i < |rowSchedule| ==> 0 <= rowSchedule[i] < nThreads
    requires forall i :: 0 <= i < |pathSchedule| ==> 0 <= pathSchedule[i] < nThreads
    requires forall c :: 0 <= c < |terminals| ==> TwoApx.Reachable(g.edges[..], g.m, terminals[0], terminals[c])
    ensures TwoApxTrees.TreeOn(g.n, g.edges[..], g.m, TV, tree) && forall t :: t in terminals ==> t in TV
    ensures EdgeList(tree, g.edges.Length) && upBound == Cost(g.edges[..], tree)
  {
    var stApprox;
    stApprox, TV := TwoApxParallel.ParallelTwoAPX(g, terminals, nThreads, rowSchedule, pathSchedule);
    tree := stApprox.treeEdgeIndices;
    var treeEdgeIndices := new int[|tree|](i requires 0 <= i < |tree| => tree[i]);
    assert treeEdgeIndices[..] == tree && treeEdgeIndices[..|tree|] == tree;
    assert EdgeList(tree, g.edges.Length);
    upBound := SumEdgeCosts(treeEdgeIndices, |tree|, g);
  }

  /** addConstraints: every edge-selection row is at most 0, flow row
      (t, v) is fixed to b^t(v), and the upper-bound row, when present, is
      at most upBound (the 2-approximation's cost, see IlpUpperBound). */
  method AddConstraints(g: Graph, terminals: seq<int>, p: IlpParams, addUpperBound: bool, upBound: int)
    returns (bounds: array<RowBound>)
    requires 1 <= |terminals| && 0 <= g.n && 0 <= g.m && p == InitIlpParams(g.n, g.m, terminals, addUpperBound)
    ensures fresh(bounds) && bounds.Length == p.nRows + 1
    ensures forall r :: 1 <= r <= p.nEdgeSelectConstr ==> bounds[r] == Upper(0)
    ensures forall t, v :: 1 <= t < |terminals| && 0 <= v < g.n ==> FlowRowFixed(bounds[..], p, g.n, terminals, t, v)
    ensures addUpperBound ==> bounds[p.nRows] == Upper(upBound)
  {
    MulLe(0, |terminals| - 1, g.m);
    MulLe(0, |terminals| - 1, g.n);
    bounds := new RowBound[p.nRows + 1];
    SetSelectBounds(bounds, p.nEdgeSelectConstr);
    SetAllFlowBounds(bounds, g.n, p, terminals);
    if addUpperBound {
      ghost var bs := bounds[..];
      bounds[p.nRows] := Upper(upBound);
      BoundRowStep(bs, bounds[..], p, g.n, terminals);
    }
  }

  // ---------------------------------------------------------------------
  // addCoefficients: columns and objective

  /** A column's bounds [lo, hi], objective coefficient and kind (binary
      or continuous). */
  datatype ColumnSpec = ColumnSpec(lo: int, hi: int, obj: int, binary: bool)

  /** addCoefficients: every column lies in [0, 1]; x column i is binary
      and costs the first arc of its edge pair, flow columns are
      continuous and cost nothing. */
  method AddCoefficients(g: Graph, p: IlpParams) returns (cols: array<ColumnSpec>)
    requires 0 <= p.nX <= p.nCols && 2 * p.nX <= g.edges.Length
    ensures fresh(cols) && cols.Length == p.nCols + 1
    ensures forall i :: 1 <= i <= p.nX ==> cols[i] == ColumnSpec(0, 1, g.edges[2 * (i - 1)].cost, true)
    ensures forall i :: p.nX < i <= p.nCols ==> cols[i] == ColumnSpec(0, 1, 0, false)
  {
    cols := new ColumnSpec[p.nCols + 1];
    var i := 1;
    while i <= p.nX
      invariant 1 <= i <= p.nX + 1
      invariant forall i' :: 1 <= i' < i ==> cols[i'] == ColumnSpec(0, 1, g.edges[2 * (i' - 1)].cost, true)
    {
      cols[i] := ColumnSpec(0, 1, g.edges[2 * (i - 1)].cost, true);
      i := i + 1;
    }
    i := p.nX + 1;
    while i <= p.nCols
      invariant p.nX + 1 <= i <= p.nCols + 1
      invariant forall i' :: 1 <= i' <= p.nX ==> cols[i'] == ColumnSpec(0, 1, g.edges[2 * (i' - 1)].cost, true)
      invariant forall i' :: p.nX < i' < i ==> cols[i'] == ColumnSpec(0, 1, 0, false)
    {
      cols[i] := ColumnSpec(0, 1, 0, false);
      i := i + 1;
    }
  }

  /** The objective value sum of obj(c) * val(c) over columns 1..c. */
  function Objective(cols: seq<ColumnSpec>, vals: seq<real>, c: int): real
    requires 0 <= c < |cols| && c < |vals|
  {
    if c == 0 then 0.0 else Objective(cols, vals, c - 1) + cols[c].obj as real * vals[c]
  }

  // ---------------------------------------------------------------------
  // extractSolution

  /** C's (int) conversion of a double: truncation toward zero. */
  function Trunc(x: real): (i: int)
    ensures 0.0 <= x ==> i as real <= x < i as real + 1.0
    ensures x < 0.0 ==> i as real - 1.0 < x <= i as real
  {
    if 0.0 <= x then x.Floor else -((-x).Floor)
  }

  /** A column counts as selected exactly when its value truncates to 1,
      that is, lies in [1, 2). */
  lemma TruncOne(x: real)
    ensures Trunc(x) == 1 <==> 1.0 <= x < 2.0
  {
  }

  /** The arcs extractSolution lists after reading x columns 1..i: the
      first arc 2(c-1) of every column c whose value truncates to 1. */
  function Picked(vals: seq<real>, i: int): seq<int>
    requires 0 <= i < |vals|
  {
    if i == 0 then [] else Picked(vals, i - 1) + (if Trunc(vals[i]) == 1 then [2 * (i - 1)] else [])
  }

  /** The listed arcs are even, below 2i and strictly increasing (so each
      edge appears once), and arc k is listed exactly when the value of its
      edge's column truncates to 1. */
  lemma {:induction false} PickedArcs(vals: seq<real>, i: int)
    requires 0 <= i < |vals|
    ensures forall k :: 0 <= k < |Picked(vals, i)| ==> Picked(vals, i)[k] % 2 == 0 && 0 <= Picked(vals, i)[k] < 2 * i
    ensures forall k, k' :: 0 <= k < k' < |Picked(vals, i)| ==> Picked(vals, i)[k] < Picked(vals, i)[k']
    ensures forall a :: a in Picked(vals, i) <==> 0 <= a < 2 * i && a % 2 == 0 && Trunc(vals[a / 2 + 1]) == 1
  {
    if i > 0 {
      PickedArcs(vals, i - 1);
      var P := Picked(vals, i - 1);
      if Trunc(vals[i]) == 1 {
        assert Picked(vals, i) == P + [2 * (i - 1)];
      } else {
        assert Picked(vals, i) == P;
      }
    }
  }

  /** The listed arcs index the first 2i edge slots. */
  lemma PickedInRange(vals: seq<real>, i: int, m: int)
    requires 0 <= i < |vals| && 2 * i <= m
    ensures EdgeList(Picked(vals, i), m)
  {
    PickedArcs(vals, i);
  }

  /** What ilp returns: the tree, or termination through exit. */
  datatype Outcome = Solved(st: SteinerTree) | Exit

  /** extractSolution over the solver's column values vals[1..nX]: exits
      when there is no x column, and otherwise lists the first arc of
      every edge whose column value truncates to 1, in column order. */
  method ExtractSolution(p: IlpParams, vals: seq<real>) returns (r: Outcome)
    requires p.nX < |vals|
    ensures r == Exit <==> p.nX <= 0
    ensures r.Solved? ==> r.st.treeEdgeIndices == Picked(vals, p.nX)
  {
    if p.nX <= 0 {
      return Exit;
    }
    var treeEdgeIndices := new int[p.nX];
    var n := 0;
    var i := 1;
    while i <= p.nX
      invariant 1 <= i <= p.nX + 1 && 0 <= n <= i - 1
      invariant treeEdgeIndices[..n] == Picked(vals, i - 1)
    {
      var val := Trunc(vals[i]);
      if val == 1 {
        treeEdgeIndices[n] := 2 * (i - 1);
        n := n + 1;
        assert treeEdgeIndices[..n] == treeEdgeIndices[..n - 1] + [2 * (i - 1)];
      }
      i := i + 1;
    }
    r := Solved(SteinerTree(treeEdgeIndices[..n]));
  }

  lemma MulZero(a: real, b: real)
    requires a == 0.0 || b == 0.0
    ensures a * b == 0.0
  {
  }

  lemma MulOne(a: real, b: real)
    requires b == 1.0
    ensures a * b == a
  {
  }

  /** Columns with objective coefficient 0 add nothing to the objective. */
  lemma {:induction false} ObjectiveFlowFree(cols: seq<ColumnSpec>, vals: seq<real>, nX: int, c: int)
    requires 0 <= nX <= c < |cols| && c < |vals|
    requires forall i :: nX < i <= c ==> cols[i].obj == 0
    ensures Objective(cols, vals, c) == Objective(cols, vals, nX)
    decreases c
  {
    if c > nX {
      ObjectiveFlowFree(cols, vals, nX, c - 1);
      MulZero(cols[c].obj as real, vals[c]);
    }
  }

  /** With 0/1 values, the objective over the x columns is the cost of the
      listed edges. */
  lemma {:induction false} ObjectiveEdges(es: seq<Edge>, cols: seq<ColumnSpec>, vals: seq<real>, nX: int)
    requires 0 <= nX < |cols| && nX < |vals| && 2 * nX <= |es|
    requires forall i :: 1 <= i <= nX ==> cols[i] == ColumnSpec(0, 1, es[2 * (i - 1)].cost, true)
    requires forall i :: 1 <= i <= nX ==> vals[i] == 0.0 || vals[i] == 1.0
    ensures EdgeList(Picked(vals, nX), |es|)
    ensures Objective(cols, vals, nX) == Cost(es, Picked(vals, nX)) as real
  {
    PickedInRange(vals, nX, |es|);
    if nX > 0 {
      ObjectiveEdges(es, cols, vals, nX - 1);
      var before := Picked(vals, nX - 1);
      if vals[nX] == 1.0 {
        MulOne(cols[nX].obj as real, vals[nX]);
        assert Picked(vals, nX) == before + [2 * (nX - 1)];
        CostSnoc(es, before, 2 * (nX - 1));
      } else {
        MulZero(cols[nX].obj as real, vals[nX]);
        assert Picked(vals, nX) == before;
      }
    }
  }

  /** With 0/1 values on the x columns and the objective addCoefficients
      sets, the optimum's objective value is exactly the cost of the edges
      extractSolution lists. */
  lemma ObjectiveIsTreeCost(es: seq<Edge>, cols: seq<ColumnSpec>, vals: seq<real>, nX: int, nCols: int)
    requires 0 <= nX <= nCols < |cols| && nCols < |vals| && 2 * nX <= |es|
    requires forall i :: 1 <= i <= nX ==> cols[i] == ColumnSpec(0, 1, es[2 * (i - 1)].cost, true)
    requires forall i :: nX < i <= nCols ==> cols[i] == ColumnSpec(0, 1, 0, false)
    requires forall i :: 1 <= i <= nX ==> vals[i] == 0.0 || vals[i] == 1.0
    ensures EdgeList(Picked(vals, nX), |es|)
    ensures Objective(cols, vals, nCols) == Cost(es, Picked(vals, nX)) as real
  {
    ObjectiveFlowFree(cols, vals, nX, nCols);
    ObjectiveEdges(es, cols, vals, nX);
  }
}
