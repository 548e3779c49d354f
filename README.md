# min-cost-ST in Dafny

A verified model of the core of `min-cost-ST`, a C solver for the minimum
Steiner tree problem in graphs: given an undirected graph with non-negative
edge costs and a set of terminal vertices, find a cheap tree that connects
all terminals. The model covers:

- the array-backed structures the solver is built on: the lazy-deletion
  binary min-heap, union-find with path compression and union by rank, the
  fixed-capacity circular queue, the growable append buffer, and the
  adjacency-indexed graph with `addEdge` and induced-subgraph extraction;
- multi-source Dijkstra and Prim, both returning predecessor-edge arrays;
- the three heuristics (plain MST, MST with leaf pruning,
  Takahashi–Matsuyama path splicing);
- the metric-closure 2-approximation, serial and with the per-worker
  collection buffers of the parallel variant run one after another;
- the ILP model builder (column and row numbering, the closed-form nonzero
  count, the matrix fill, the flow right-hand sides, the solution
  extraction) and its graph reduction;
- the test driver's `isSteinerTree` check.

One module per C source file. Costs are `nat` instead of `double`;
`DBL_MAX` is the `Dist.Inf` value and `-1` stays the "no edge" index.
Classes stand for the C structs whose fields the code updates in place
(`Graph`, `PrioQueue`, `UnionFind`, `Queue`, `Buffer`, `PathsData`);
each loop of the C code is a `while` loop with invariants, and each method is
proved against value-level predicates over `seq`s, with the properties of
those predicates proved as lemmas.

Preconditions the C leaves implicit are explicit `requires` clauses: a
heap of capacity 0 never grows, `prim` needs at least one vertex,
`multiDijkstra` needs a clean `PathsData`, the terminal closure must be
connected, the circular queue never holds `cap` values, and `reduceGraph`
needs the doubled-arc layout the graph reader produces (arcs `2k` and
`2k+1` are the two directions of one edge).

`two-apx.c`'s `updateTreeVertices` is the same code as the tree-vertex
update inside `takahashiMatsuyama`; both are `Heuristics.AddVertex`.
`createBuffer` is the `Buffer` constructor on its own, as `setBuffer` is.
`mapToFlowEntry` and `initIlpParams` are plain arithmetic. `initIlpParams`
states only that its row blocks are non-negative and fit in nRows; what
they promise beyond that is stated by the numbering lemmas about them (`Ilp.ColumnsNumbered`,
`Ilp.RowsNumbered`, `Ilp.FlowEntryInjective`).

The comment above the two path walks in `collectUniqueEdges`
(src/algorithms/two-apx/two-apx.c:153-154) says that only the part from t1
to the first tree vertex and the part from the last tree vertex to t2 are
added. The code walks from the tree vertex nearest t2 up to t1, then from t2
up to the tree vertex nearest t1, so it adds every edge of the path. The
model follows the code (`TwoApx.CollectPath`).

## Model

| member | source | states |
|---|---|---|
| Types.DistinctInRangeBound | src/algorithms/two-apx/two-apx.c:22-29 | a duplicate-free list of values in [0, n) has at most n entries, which bounds the tree-vertex and tree-edge lists by n and m |
| Graphs.Graph.constructor | src/structures/graph.c:7-14 | `createGraph(n, m)`: n vertices with empty lists and capacity 0, m zeroed edge slots, total degree 0 |
| Graphs.Graph.GetEdge | src/structures/graph.c:16-19 | in a well-formed graph the edge named by v's j-th entry has v as an endpoint and both endpoints in range |
| Graphs.Graph.GetEdgeIndex | src/structures/graph.c:21-23 | the j-th entry of v is one of the first m slots, incident to v, and names the edge `getEdge` returns |
| Graphs.Graph.PushEdge | src/structures/graph.c:43-55 | the list of vertex id gets edgeI appended, its capacity becomes 100 on first use and doubles when full, no other vertex changes, total degree grows by one |
| Graphs.Graph.AddEdge | src/structures/graph.c:57-62 | slot edgeI holds (v, w, cost), edgeI is appended to the lists of v and w and nothing else changes; total degree grows by two |
| Graphs.AddEdgeKeepsShape | src/structures/graph.c:57-62 | addEdge into slot k after slots 0..k-1 keeps every adjacency entry naming an incident edge, keeps every edge listed at both ends, and adds no repeated entry except for self-loops |
| Graphs.SumDegUpdate | src/structures/graph.c:193-199 | replacing one vertex changes the degree sum by exactly the change of that vertex's degree |
| Graphs.SumOfDegrees | src/structures/graph.c:193-199 | `sumOfDegrees` returns the sum of all vertex degrees |
| Graphs.ClearEdgeFlags | src/structures/graph.c:207-211 | flags 0..nEdges-1 become false and every later flag is unchanged |
| Utils.CostAppend | src/utils.c:4-15 | the summed cost of a concatenation is the sum of the two summed costs |
| Utils.CostSnoc | src/utils.c:6-13 | appending one entry adds its edge's cost, or nothing for -1 |
| Utils.CostIgnoresNoEdge | src/utils.c:8-10 | dropping every -1 entry leaves the summed cost unchanged |
| Utils.SumEdgeCosts | src/utils.c:4-15 | `sumEdgeCosts` returns the cost sum over the first nEdges entries, -1 entries skipped, 0 for none |
| Utils.Min | src/utils.c:17-22 | the result is at most a and at most b and equals one of them |
| Utils.GetPredecessor | src/utils.c:24-29 | for an endpoint u the result is the other endpoint ({u, p} is the edge's end set); the result is always an endpoint |
| Utils.GetPredecessorTwice | src/utils.c:24-29 | from an endpoint, crossing the same edge twice returns to the start |
| Queues.Queue.constructor | src/structures/queue.c:6-13 | `createQueue(cap)`: both indices 0, nothing stored |
| Queues.Queue.IsEmptyQueue | src/structures/queue.c:20-22 | true exactly when the indices meet, which is exactly when no value is stored |
| Queues.Queue.Enqueue | src/structures/queue.c:24-27 | val is written at the old back index, which advances by one modulo cap; below capacity the contents become old contents + [val] |
| Queues.Queue.Dequeue | src/structures/queue.c:29-33 | returns the value at the front index, which advances by one modulo cap; on a non-empty queue that is the oldest value and the contents lose exactly it (FIFO) |
| Buffers.GrownCap | src/structures/buffer.c:27-28 | the capacity after growth is 1024 from 0 and doubles otherwise |
| Buffers.Buffer.constructor | src/structures/buffer.c:5-10 | `setBuffer`: n = 0, cap = 1024, no contents |
| Buffers.Buffer.Append | src/structures/buffer.c:26-33 | contents become old contents + [elem] and n grows by one; cap grows exactly when n had reached it; n <= cap is kept |
| Buffers.CreateBuffers | src/structures/buffer.c:12-18 | k fresh, pairwise distinct, empty buffers of capacity 1024 |
| UnionFinds.Root | src/structures/union-find.c:41-46 | following parent links from x ends at a self-parented element, whose rank is above x's unless it is x |
| UnionFinds.CompressKeepsRoots | src/structures/union-find.c:48-53 | pointing one element straight at its root keeps a forest and keeps every element's root |
| UnionFinds.LinkRoots | src/structures/union-find.c:35-38 | putting one root under another of no lower rank keeps a forest, and the roots of exactly the lower root's set move |
| UnionFinds.UnionFind.constructor | src/structures/union-find.c:5-14 | `createUnionFind(n)`: every element its own parent with rank 0, so its own representative |
| UnionFinds.UnionFind.FindSet | src/structures/union-find.c:41-54 | returns x's representative, a self-parented element; path compression changes no representative and no rank |
| UnionFinds.UnionFind.UnionSet | src/structures/union-find.c:22-39 | afterwards x and y share a representative, one of their old two; exactly the members of their two sets move; nothing changes when they were already together; otherwise the lower-rank root goes under the other and a rank grows only on a tie |
| UnionFinds.UnionFind.Link | src/structures/union-find.c:35-38 | parent[sY] becomes sX, rank[sX] grows by one exactly on a tie, and the members of sY's set get sX as representative |
| PrioQueues.Swapped | src/structures/prio-queue.c:23-27 | the value view of swap: slots i and j exchanged, every other slot kept |
| PrioQueues.SwappedKeepsContents | src/structures/prio-queue.c:23-27 | a swap below the size keeps the stored multiset and every slot past the size |
| PrioQueues.HeapRootIsMin | src/structures/prio-queue.c:79-90 | in a heap the root's value is at most every stored value |
| PrioQueues.RootHole | src/structures/prio-queue.c:84-88 | moving the last leaf to the root of a heap leaves heap order broken only below the root, as `sink` expects |
| PrioQueues.AddLeaf | src/structures/prio-queue.c:70-76 | a new last leaf under a heap leaves heap order broken only above that leaf, as `bubbleUp` expects |
| PrioQueues.ExtractedRoot | src/structures/prio-queue.c:79-90 | the extracted root is a least stored pair and the slots left hold the old multiset minus it |
| PrioQueues.SinkStep | src/structures/prio-queue.c:32-46 | swapping the hole with its smaller child moves the hole down one level |
| PrioQueues.BubbleStep | src/structures/prio-queue.c:53-60 | swapping a leaf smaller than its parent moves the hole up one level |
| PrioQueues.PrioQueue.constructor | src/structures/prio-queue.c:6-12 | `createPrioQueue(n)`: capacity n, indexLastLeaf = -1, nothing stored |
| PrioQueues.PrioQueue.IsEmpty | src/structures/prio-queue.c:19-21 | true exactly when indexLastLeaf = -1, which is exactly when nothing is stored |
| PrioQueues.PrioQueue.Swap | src/structures/prio-queue.c:23-27 | the slots become `Swapped` of the old slots |
| PrioQueues.PrioQueue.Sink | src/structures/prio-queue.c:29-48 | from a heap broken only below the root, ends with a heap over the same multiset |
| PrioQueues.PrioQueue.BubbleUp | src/structures/prio-queue.c:50-62 | from a heap broken only above the last leaf, ends with a heap over the same multiset |
| PrioQueues.PrioQueue.Resize | src/structures/prio-queue.c:64-68 | a fresh array of newSize slots keeping the old slots |
| PrioQueues.PrioQueue.Insert | src/structures/prio-queue.c:70-77 | the heap property is kept, the multiset gains exactly p, the size grows by one, and the capacity doubles exactly when full |
| PrioQueues.PrioQueue.ExtractMin | src/structures/prio-queue.c:79-90 | on a non-empty heap returns a pair no larger than any stored one and removes exactly that pair; the heap property is kept |
| Dijkstras.BelowMeasure | src/algorithms/dijkstra/dijkstra.c:66-85 | a pointwise decrease of the distance array lowers (number of unreached vertices, sum of finite distances) lexicographically, and strictly when something changed; this with the heap size is why the main loop stops |
| Dijkstras.WalkSnoc | src/algorithms/dijkstra/dijkstra.c:73-81 | a walk to v followed by an edge at v is a walk to that edge's other end |
| Dijkstras.ReachedImprove | src/algorithms/dijkstra/dijkstra.c:76-80 | lowering dist[w] to dist[v] + cost through an edge at v keeps every finite distance the cost of some walk from a source |
| Dijkstras.DropStale | src/algorithms/dijkstra/dijkstra.c:67-71 | dropping a heap entry whose value is not its vertex's current distance keeps the main-loop invariant |
| Dijkstras.TakeLive | src/algorithms/dijkstra/dijkstra.c:67-73 | taking out a live entry keeps the invariant except that this vertex's edges are still to be relaxed |
| Dijkstras.RelaxSkip | src/algorithms/dijkstra/dijkstra.c:79 | an entry whose far end is no worse than dist[v] + cost is already relaxed: the inner-loop invariant advances unchanged |
| Dijkstras.RelaxImprove | src/algorithms/dijkstra/dijkstra.c:79-83 | the three writes of a successful relaxation advance the inner-loop invariant by one entry |
| Dijkstras.FrameImprove | src/algorithms/dijkstra/dijkstra.c:79-83 | after an improvement every predecessor entry is still -1 only for sources and unreached vertices, and otherwise an incident edge whose far end is reached |
| Dijkstras.RelaxDone | src/algorithms/dijkstra/dijkstra.c:73-84 | once all of v's entries are relaxed the main-loop invariant holds again |
| Dijkstras.SourcesSeeded | src/algorithms/dijkstra/dijkstra.c:60-66 | the state the sources loop leaves satisfies the main-loop invariant |
| Dijkstras.DescendsImprove | src/algorithms/dijkstra/dijkstra.c:79-81 | an improvement stamped with a fresh time keeps every predecessor chain strictly descending in (distance, time), so chains cannot cycle even through cost-0 edges |
| Dijkstras.PreRoot | src/algorithms/dijkstra/dijkstra.c:81 | the predecessor chain of a reached vertex ends at a source |
| Dijkstras.PrePath | src/algorithms/dijkstra/dijkstra.c:81 | the predecessor edges from that source down to w form a walk whose cost is exactly dist[w] |
| Dijkstras.FinishedRelaxesAll | src/algorithms/dijkstra/dijkstra.c:66-85 | with an empty heap every edge is relaxed in both directions and every predecessor entry is -1 (source or unreached) or an incident edge realising dist[w] exactly |
| Dijkstras.WalkBound | src/algorithms/dijkstra/dijkstra.c:66-85 | with every edge relaxed, dist[to] <= dist[from] + the cost of any walk from `from` to `to` |
| Dijkstras.SourcesBound | src/algorithms/dijkstra/dijkstra.c:60-85 | with every edge relaxed and the sources at 0, no walk from a source to w is cheaper than dist[w] |
| Dijkstras.Finished | src/algorithms/dijkstra/dijkstra.c:57-87 | the main-loop invariant with an empty heap gives the full shortest-path result: sources at 0 without predecessor, distances minimal over all walks from any source, predecessor edges realising them |
| Dijkstras.PathsData.constructor | src/algorithms/dijkstra/dijkstra.c:8-18 | `createPathsData(n)`: every distance Inf (`DBL_MAX`) and every predecessor edge -1 |
| Dijkstras.CleanPathsData | src/algorithms/dijkstra/dijkstra.c:20-25 | the first n entries become Inf and -1, every later entry is unchanged |
| Dijkstras.CreateMultiPathDatas | src/algorithms/dijkstra/dijkstra.c:42-48 | nPaths fresh, pairwise separate, clean PathsData of length pathLen |
| Dijkstras.Improve | src/algorithms/dijkstra/dijkstra.c:80-82 | dist[w] := x, preEdgeIndices[w] := edgeI and (w, x) is pushed; nothing else changes |
| Dijkstras.RelaxEntry | src/algorithms/dijkstra/dijkstra.c:74-83 | one turn of the inner loop: the relaxation invariant advances by one entry, distances only go down, the heap is untouched when no distance changed |
| Dijkstras.RelaxEdges | src/algorithms/dijkstra/dijkstra.c:73-84 | the inner loop relaxes every edge of v and restores the main-loop invariant; distances only go down |
| Dijkstras.SeedOne | src/algorithms/dijkstra/dijkstra.c:61-63 | dist[s] := 0 and (s, 0) is pushed |
| Dijkstras.SeedSources | src/algorithms/dijkstra/dijkstra.c:60-64 | every source gets distance 0 and a heap entry (s, 0); every other vertex stays unreached; no predecessor edges |
| Dijkstras.SettleMin | src/algorithms/dijkstra/dijkstra.c:67-84 | one turn of the main loop keeps the invariant, only lowers distances, and decreases the termination measure |
| Dijkstras.DrainQueue | src/algorithms/dijkstra/dijkstra.c:66-85 | the main loop ends with an empty heap and the invariant |
| Dijkstras.MultiDijkstra | src/algorithms/dijkstra/dijkstra.c:57-87 | on a built graph and clean PathsData: every source at distance 0 without predecessor edge, every edge relaxed, dist[w] no larger than any walk from any source, and every predecessor edge realising dist[w], with acyclic predecessor chains |
| Dijkstras.Dijkstra | src/algorithms/dijkstra/dijkstra.c:89-91 | the same with the single source s |
| Prims.RootPath | src/algorithms/mst/prim.c:41-44 | in a rooted predecessor tree every tree vertex is reached from the root by a walk made only of predecessor edges |
| Prims.WalkStaysInTree | src/algorithms/mst/prim.c:27-47 | in the finished tree every walk from a tree vertex ends at a tree vertex, so the tree holds the root's whole component |
| Prims.TreeEdgesDistinct | src/algorithms/mst/prim.c:41-44 | no edge is the predecessor edge of two vertices (attach times strictly increase along tree edges) |
| Prims.ClearFlagLowers | src/algorithms/mst/prim.c:33 | clearing one set `inPQ` flag lowers the number of set flags by one, which bounds the settling turns |
| Prims.PrimStart | src/algorithms/mst/prim.c:13-24 | after the initialisation loops (all Inf, -1, inPQ, root at 0 with one heap entry) the main-loop invariant holds |
| Prims.PrimSkip | src/algorithms/mst/prim.c:30-32 | dropping an extracted entry of an already settled vertex keeps the invariant |
| Prims.PrimSettle | src/algorithms/mst/prim.c:28-33 | settling the extracted vertex (clearing inPQ, stamping its attach time) gives the inner-loop invariant at entry 0 |
| Prims.PrimKeep | src/algorithms/mst/prim.c:41 | an entry leading to a settled vertex, or to one already no dearer than the edge, advances the inner-loop invariant unchanged |
| Prims.PrimImprove | src/algorithms/mst/prim.c:41-45 | an entry to an unsettled w dearer than the edge: w is neither v nor the root, and dist[w] := cost, pre[w] := edge, push (w, cost) advance the inner-loop invariant |
| Prims.PrimRelaxDone | src/algorithms/mst/prim.c:36-46 | once all of v's entries are looked at the main-loop invariant holds again |
| Prims.PrimFinished | src/algorithms/mst/prim.c:27-47 | with the heap empty the predecessor edges form a spanning tree rooted at root, closed under adjacency, and a vertex is in it exactly when it was settled |
| Prims.Lower | src/algorithms/mst/prim.c:42-44 | dist[w] := x, pre[w] := edgeI and (w, x) is pushed; nothing else changes |
| Prims.PrimEntry | src/algorithms/mst/prim.c:37-45 | one turn of the inner loop advances its invariant by one entry |
| Prims.PrimEdges | src/algorithms/mst/prim.c:36-46 | the inner loop looks at every edge of v and restores the main-loop invariant |
| Prims.PrimSettle1 | src/algorithms/mst/prim.c:33-46 | the settling branch keeps the main-loop invariant and lowers the number of inPQ flags |
| Prims.PrimStep | src/algorithms/mst/prim.c:28-46 | one turn of the main loop keeps the invariant and either settles a vertex or shrinks the heap with the flags unchanged |
| Prims.PrimArrays | src/algorithms/mst/prim.c:11-22 | fresh dist, pre and inPQ of length n: all Inf, all -1, all true |
| Prims.PrimInit | src/algorithms/mst/prim.c:10-24 | the queue holds the root's entry and the main-loop invariant holds at time 0 |
| Prims.Prim | src/algorithms/mst/prim.c:9-53 | the returned predecessor edges form a spanning tree of the root's component: the root has none, every other tree vertex hangs by an incident edge below an earlier tree vertex, and every edge at a tree vertex leads into the tree |
| Heuristics.KeptMembers | src/algorithms/heuristic/heuristic.c:9-18 | the entries collectEdgeIndices keeps are exactly the entries other than -1, and there are no more of them than entries |
| Heuristics.KeptDistinct | src/algorithms/heuristic/heuristic.c:9-18 | when no edge is named twice, the collected list is duplicate-free |
| Heuristics.CollectEdgeIndices | src/algorithms/heuristic/heuristic.c:9-18 | the first nEdges slots of edgeIndices become the entries of mstIndices[0..n) other than -1, in index order, nEdges is their count, and later slots are unchanged |
| Heuristics.KeptPrefix | src/algorithms/heuristic/heuristic.c:11-16 | the entries kept from a prefix are no more than those kept from the whole |
| Heuristics.TreeKept | src/algorithms/heuristic/heuristic.c:83-84 | the edges of prim's tree are duplicate-free slots below m, so they fit the m-slot array mstST allocates |
| Heuristics.MstST | src/algorithms/heuristic/heuristic.c:81-87 | prim's spanning tree of the first terminal's component, its edges listed once each in the first nTree slots of an m-slot array |
| Heuristics.DegInClear | src/algorithms/heuristic/heuristic.c:59-61 | clearing one tree entry takes exactly its edge's endpoints off every degree count |
| Heuristics.DegInNone | src/algorithms/heuristic/heuristic.c:25-31 | a vertex that is an end of no counted edge has degree 0 |
| Heuristics.TreeDegrees | src/algorithms/heuristic/heuristic.c:21-31 | prim's tree edges are no loops and belong to their vertex, and only the root and unreached vertices lack one, unreached ones having degree 0 |
| Heuristics.RoomForRoot | src/algorithms/heuristic/heuristic.c:38 | a duplicate-free list of non-terminals leaves a slot free in a queue of capacity n, so the circular queue never fills |
| Heuristics.SeedKeep | src/algorithms/heuristic/heuristic.c:39-47 | passing over a vertex that is not a non-terminal leaf with a tree edge keeps the seeding invariant |
| Heuristics.SeedAdd | src/algorithms/heuristic/heuristic.c:44-46 | queueing a non-terminal leaf with a tree edge keeps the seeding invariant and leaves room in the queue |
| Heuristics.OtherEndBusy | src/algorithms/heuristic/heuristic.c:44 | the far end of a tree edge is a terminal or has degree at least 2 |
| Heuristics.SeedLeavesStep | src/algorithms/heuristic/heuristic.c:39-47 | the C enqueue test (either end a non-terminal of degree 1) holds exactly when vertex i itself is such a leaf, so the seeding loop queues exactly the non-terminal leaves, each once |
| Heuristics.SeedLeavesEnd | src/algorithms/heuristic/heuristic.c:49-50 | after the seeding loop the pruning invariant holds with nothing dequeued |
| Heuristics.PruneSkip | src/algorithms/heuristic/heuristic.c:52-54 | a dequeued vertex whose entry is already -1 is dropped and the invariant kept |
| Heuristics.ClearDeg | src/algorithms/heuristic/heuristic.c:59-61 | clearing entry `leaf` takes its edge's endpoints off every degree |
| Heuristics.ClearLeaf | src/algorithms/heuristic/heuristic.c:57-61 | dropping a leaf's edge: the leaf's degree becomes 0, its neighbour's drops by one, every other degree stays, and the degree array still matches the tree |
| Heuristics.ClearPruned | src/algorithms/heuristic/heuristic.c:59 | clearing the entry of a non-terminal that becomes isolated keeps every entry either prim's or pruned |
| Heuristics.QueueRemove | src/algorithms/heuristic/heuristic.c:61-65 | after dropping a leaf the worklist stays exact: the neighbour is queued exactly when it becomes a non-terminal of degree 1, which it never was before |
| Heuristics.PruneRemove | src/algorithms/heuristic/heuristic.c:57-65 | one removal of the pruning loop keeps the pruning invariant |
| Heuristics.PruneEnd | src/algorithms/heuristic/heuristic.c:50-66 | with the queue drained no non-terminal has degree 1 |
| Heuristics.PrunedIsTree | src/algorithms/heuristic/heuristic.c:50-66 | the pruned entries still form a tree rooted at the first terminal, and every terminal in prim's tree stays in it |
| Heuristics.CountDegrees | src/algorithms/heuristic/heuristic.c:24-31 | degree[x] is the number of tree-edge ends at x |
| Heuristics.MarkTerminals | src/algorithms/heuristic/heuristic.c:33-36 | isTerminal[x] holds exactly when x is a terminal |
| Heuristics.SeedLeaves | src/algorithms/heuristic/heuristic.c:38-47 | the queue ends holding exactly the non-terminal leaves with a tree edge, in index order, each once |
| Heuristics.PruneStep | src/algorithms/heuristic/heuristic.c:51-65 | one turn of the pruning loop keeps the invariant; the list of ever-queued vertices grows or the queue shrinks |
| Heuristics.PruneLeaves | src/algorithms/heuristic/heuristic.c:50-66 | every entry ends as prim's or pruned at an isolated non-terminal, and no non-terminal is left with degree 1 |
| Heuristics.SeedStart | src/algorithms/heuristic/heuristic.c:38-39 | prim's tree with its degrees and a terminal root satisfies the seeding invariant before the first turn |
| Heuristics.TreeWithDegrees | src/algorithms/heuristic/heuristic.c:21-31 | prim's spanning tree from root with degree[v] its tree degree |
| Heuristics.PruneSetup | src/algorithms/heuristic/heuristic.c:21-47 | prim's tree from the first terminal, the terminal flags, and the queue seeded so that the pruning invariant holds |
| Heuristics.PrunedMST | src/algorithms/heuristic/heuristic.c:20-79 | the returned edges are those of a tree rooted at the first terminal obtained from prim's tree by dropping edges of non-terminals left isolated; every terminal of prim's tree stays in it; no non-terminal has tree degree 1; listed once each |
| Heuristics.WalkConcat | src/algorithms/heuristic/heuristic.c:136-166 | a walk followed by a walk from its end is a walk |
| Heuristics.EdgeSetAdd | src/algorithms/heuristic/heuristic.c:146-150 | listing an unflagged edge slot and flagging it keeps the edge list duplicate-free and matching the flags, with room left below m |
| Heuristics.TreeGrow | src/algorithms/heuristic/heuristic.c:146-162 | adding a fresh edge with both its ends flagged keeps both lists matching their flags and every tree edge's ends in the tree |
| Heuristics.StepFacts | src/algorithms/heuristic/heuristic.c:135-143 | a predecessor edge of a reached vertex is incident to it, and its far end is reached and strictly nearer in (distance, update time), so the splicing walk ends |
| Heuristics.FlagEnds | src/algorithms/heuristic/heuristic.c:153-162 | flagging both ends of the edge between vI and u flags exactly those two |
| Heuristics.PathAdvance | src/algorithms/heuristic/heuristic.c:136-166 | one step of the splicing walk across vI's predecessor edge moves the walk invariant to the far end |
| Heuristics.AdvanceWalks | src/algorithms/heuristic/heuristic.c:136-166 | after the step every vertex flagged during the walk has a walk over tree edges from the new position |
| Heuristics.PathClose | src/algorithms/heuristic/heuristic.c:136 | when the walk stops at a vertex without predecessor edge, the nearest terminal is in the tree and every tree vertex is reached from the root over tree edges |
| Heuristics.SwapRemove | src/algorithms/heuristic/heuristic.c:130-131 | swap-with-last removal of entry i keeps the other entries, as a multiset |
| Heuristics.SelectNearest | src/algorithms/heuristic/heuristic.c:110-124 | -1 exactly when every waiting terminal is at DBL_MAX; otherwise the first waiting terminal at the smallest distance, with its index |
| Heuristics.RemoveAt | src/algorithms/heuristic/heuristic.c:130-131 | the first k - 1 entries become the old ones with entry i overwritten by the last, which is the old list minus entry i as a multiset |
| Heuristics.AddVertex | src/algorithms/two-apx/two-apx.c:22-29 | x is flagged and listed unless it was flagged already; the list still matches the flags (the same update is inlined in takahashiMatsuyama) |
| Heuristics.VisitedEnds | src/algorithms/heuristic/heuristic.c:139-145 | an edge already in the tree has both ends in it, so skipping it changes no flag |
| Heuristics.TakeEdge | src/algorithms/heuristic/heuristic.c:146-162 | an unvisited edge is appended to the tree edges and both its ends flagged; the tree state is kept |
| Heuristics.PathStep | src/algorithms/heuristic/heuristic.c:137-165 | one turn of the splicing loop keeps the walk invariant and moves strictly nearer the sources |
| Heuristics.AddPath | src/algorithms/heuristic/heuristic.c:134-166 | the splicing loop puts the nearest terminal in the tree, keeps every earlier tree vertex, and leaves every tree vertex reached from the root over tree edges |
| Heuristics.Unreached | src/algorithms/heuristic/heuristic.c:114-128 | a vertex at DBL_MAX from sources that include the root has no walk from the root |
| Heuristics.StillWaiting | src/algorithms/heuristic/heuristic.c:130-131 | after removing t, every other waiting terminal is still waiting and none is added |
| Heuristics.RoundDone | src/algorithms/heuristic/heuristic.c:109-168 | once t has been spliced in, the between-rounds state holds for the shortened waiting list |
| Heuristics.Attach | src/algorithms/heuristic/heuristic.c:134-167 | the path to t is spliced in and the paths data is clean again for the next round |
| Heuristics.Splice | src/algorithms/heuristic/heuristic.c:130-167 | removing the nearest terminal from the waiting list and splicing in its path keeps the between-rounds state with clean paths data |
| Heuristics.TMRound | src/algorithms/heuristic/heuristic.c:110-167 | a round either splices in a waiting terminal and keeps the state, or finds that no waiting terminal has a walk from the first terminal |
| Heuristics.WaitingTerminals | src/algorithms/heuristic/heuristic.c:100-104 | the waiting list is every terminal but the first, in order |
| Heuristics.TMInit | src/algorithms/heuristic/heuristic.c:90-107 | the first terminal alone in the tree, no tree edges, the others waiting, clean paths data |
| Heuristics.TMLoop | src/algorithms/heuristic/heuristic.c:109-168 | the main loop ends with the between-rounds state and no walk from the first terminal to any terminal still waiting |
| Heuristics.TakahashiMatsuyama | src/algorithms/heuristic/heuristic.c:89-177 | the returned edges are distinct slots below m with both ends in the tree; every tree vertex is reached from the first terminal over returned edges; every terminal is in the tree unless no walk reaches it |
| Heuristics.TMFinish | src/algorithms/heuristic/heuristic.c:109-176 | the final state with no reachable waiting terminal gives the promises of takahashiMatsuyama |
| Heuristics.TMStart | src/algorithms/heuristic/heuristic.c:90-107 | the initial allocation satisfies the between-rounds state |
| InducedSubGraphs.EmitStep | src/structures/graph.c:161-184 | scanning one more adjacency entry appends that entry to the copied list exactly when it is copied |
| InducedSubGraphs.DegreeSumMono | src/structures/graph.c:138-144 | the degree sum of a longer prefix of the selection is no smaller, so `sumDegrees` bounds the edges copied so far |
| InducedSubGraphs.EmitFromSound | src/structures/graph.c:161-184 | an edge copied from origV's list passes the mask, has its w end selected and equal to origV, and is no loop |
| InducedSubGraphs.EmittedSound | src/structures/graph.c:157-185 | every copied edge passes the mask, is no loop, has both ends selected, and was met in the list of its w end |
| InducedSubGraphs.EmitFromDistinct | src/structures/graph.c:161-184 | one list copies no edge twice |
| InducedSubGraphs.EmittedDistinct | src/structures/graph.c:157-185 | over the whole scan no edge is copied twice, since it is copied only from its w end's list and the selection has no duplicates |
| InducedSubGraphs.EmitFromComplete | src/structures/graph.c:161-184 | every entry of the list that qualifies is copied |
| InducedSubGraphs.EmittedComplete | src/structures/graph.c:157-185 | every non-loop edge passing the mask, with its w end among the first k selected and listed there, is copied |
| InducedSubGraphs.AdjacentOf | src/structures/graph.c:16-23 | a well-formed graph's lists name used edge slots incident to their vertex |
| InducedSubGraphs.BuiltShape | src/structures/graph.c:57-62 | a graph built by addEdge lists every used edge at its w end and repeats no non-loop edge in a list |
| InducedSubGraphs.EmittedOnlyQualifying | src/structures/graph.c:157-185 | only edges passing the mask, with both ends selected and no loop, are copied |
| InducedSubGraphs.EmittedAllQualifying | src/structures/graph.c:157-185 | every such edge listed at its w end is copied |
| InducedSubGraphs.EmittedExactly | src/structures/graph.c:135-191 | on a graph built by addEdge the copied edges are exactly the non-loop edges passing the mask with both ends selected, each once |
| InducedSubGraphs.CopyStep | src/structures/graph.c:173-182 | one addEdge of a renamed original edge into the next slot keeps the subgraph built by addEdge with every slot the renamed original |
| InducedSubGraphs.CopiedIsBuilt | src/structures/graph.c:189 | once `m` is set to the number copied the subgraph is a graph built by addEdge whose edges are the renamed originals |
| InducedSubGraphs.CopyEdge | src/structures/graph.c:173-182 | the renamed edge goes into the next free slot and its original index is appended to origEdgeI |
| InducedSubGraphs.CopyEntry | src/structures/graph.c:162-183 | one turn of the inner loop appends entry i to origEdgeI exactly when it is copied, keeping the subgraph's shape |
| InducedSubGraphs.ScanAdjacency | src/structures/graph.c:161-184 | the inner loop appends exactly the copied entries of origV's list, in list order |
| InducedSubGraphs.CopyEdgesOf | src/structures/graph.c:158-184 | after the (s+1)-th selected vertex origEdgeI lists the edges copied from the first s+1 lists |
| InducedSubGraphs.MarkSelected | src/structures/graph.c:136-142 | isInSub[x] holds exactly for the selected x, and sumDegrees is the sum of their degrees |
| InducedSubGraphs.NumberSelected | src/structures/graph.c:148-153 | newIDtoOldID is the selection and oldIDtoNewID sends every selected vertex to its position in it |
| InducedSubGraphs.CopyAllEdges | src/structures/graph.c:156-185 | the outer loop copies exactly the edges `Emitted` names, in scan order |
| InducedSubGraphs.BuildSubGraph | src/structures/graph.c:144-189 | a fresh subgraph built by addEdge with |sel| vertices, whose k-th edge is original edge origEdgeI[k] renamed through the selection |
| InducedSubGraphs.CreateInducedSubGraph | src/structures/graph.c:135-191 | the subgraph has the selected vertices renumbered in selection order and, each once, the non-loop edges passing the mask with both ends selected, every one the renamed original named by origEdgeI |
| TwoApx.WalkReverse | src/algorithms/two-apx/two-apx.c:166-187 | a walk read backwards is a walk between the same ends (edges are undirected) |
| TwoApx.WalkEnd | src/algorithms/two-apx/two-apx.c:139-150 | two walks from one start along the same edges end at the same vertex |
| TwoApx.PrefixShorter | src/algorithms/two-apx/two-apx.c:139-150 | a predecessor path that is a proper prefix of another path to a different vertex is shorter, so each step up a chain ends |
| TwoApx.ConnSym | src/algorithms/two-apx/two-apx.c:119-164 | being joined by collected edges is symmetric |
| TwoApx.ConnTrans | src/algorithms/two-apx/two-apx.c:119-164 | being joined by collected edges is transitive |
| TwoApx.ConnGrow | src/algorithms/two-apx/two-apx.c:119-164 | collecting more edges keeps every connection |
| TwoApx.AddEdgeToEdges | src/algorithms/two-apx/two-apx.c:13-20 | edgeI is listed in slot nEdges and flagged exactly when it is an edge not yet flagged; the list stays duplicate-free and matching the flags; later slots are unchanged |
| TwoApx.ClearFlags | src/algorithms/two-apx/two-apx.c:31-35 | exactly the listed edges are unflagged, every other flag is kept |
| TwoApx.ClearedAll | src/algorithms/two-apx/two-apx.c:225 | clearing the listed edges of a flagged edge set clears every flag |
| TwoApx.PathTo | src/algorithms/two-apx/two-apx.c:139-150 | after dijkstra from s the predecessor edges from s down to a reached x form a walk |
| TwoApx.PathToStep | src/algorithms/two-apx/two-apx.c:139-150 | the source has no predecessor edge and the empty path; any other reached vertex's path extends its predecessor's by the predecessor edge |
| TwoApx.PathToSource | src/algorithms/two-apx/two-apx.c:130 | the source is reached, by the empty path |
| TwoApx.ReachedFin | src/algorithms/two-apx/two-apx.c:130 | every vertex with a walk from the source gets a finite distance |
| TwoApx.ChainNext | src/algorithms/two-apx/two-apx.c:139-162 | standing at u below stop on a chain, u has a predecessor edge and stop is also above its far end, so the walk loops stay in range |
| TwoApx.ProcessEdgeOfPath | src/algorithms/two-apx/two-apx.c:105-117 | u's predecessor edge is appended to the buffer and listed unless already flagged, both its ends become tree vertices, and the far end is returned |
| TwoApx.PartStep | src/algorithms/two-apx/two-apx.c:156-162 | one processEdgeOfPath call moves the walk invariant one vertex up the chain |
| TwoApx.PartStart | src/algorithms/two-apx/two-apx.c:155-160 | before a walk nothing between its start and itself is collected yet |
| TwoApx.AddPathPart | src/algorithms/two-apx/two-apx.c:156-162 | the walk loop collects every edge of the chain between its start and stop |
| TwoApx.FindTreeBounds | src/algorithms/two-apx/two-apx.c:135-150 | the first pass returns the first and last tree vertices met on t2's chain (t2 when none), the last an ancestor of the first |
| TwoApx.PathCollected | src/algorithms/two-apx/two-apx.c:155-162 | a vertex whose chain from t1 is a prefix of a collected chain is joined to t1 by collected edges |
| TwoApx.CollectedBoth | src/algorithms/two-apx/two-apx.c:155-162 | edges left out by the second walk lie on the part the first walk collected |
| TwoApx.CollectDone | src/algorithms/two-apx/two-apx.c:155-162 | the two walks of a round collect every edge of the path from t1 to t2, so they join t1 and t2, and every newly flagged vertex to t1 |
| TwoApx.CollectSecondPart | src/algorithms/two-apx/two-apx.c:159-162 | the second walk completes the round's promises, the whole path from t1 to t2 collected |
| TwoApx.CollectPath | src/algorithms/two-apx/two-apx.c:134-162 | a round collects every edge of the path from t1 to t2, including the stretch between the tree vertices, keeps every earlier edge and flag, and joins every newly flagged vertex to t1 |
| TwoApx.CollectStep | src/algorithms/two-apx/two-apx.c:121-163 | a round for closure-tree entry i keeps every tree vertex joined to a terminal and joins entry i's terminals |
| TwoApx.ConnPrefix | src/algorithms/two-apx/two-apx.c:119-164 | appending to the collection keeps every connection |
| TwoApx.SourceTree | src/algorithms/two-apx/two-apx.c:128-132 | after the test the paths data holds dijkstra's result from t1, recomputed only when the source changed |
| TwoApx.CollectEdge | src/algorithms/two-apx/two-apx.c:124-162 | with the paths data from t1, the round collects the whole path from t1 to t2 and so joins them |
| TwoApx.CollectRound | src/algorithms/two-apx/two-apx.c:122-162 | one loop turn keeps the between-rounds state for the next closure-tree entry |
| TwoApx.CollectUniqueEdges | src/algorithms/two-apx/two-apx.c:119-164 | the terminals of every closure-tree edge are joined by collected edges, every tree vertex is joined to a terminal, and the edge and vertex lists match their flags |
| TwoApx.DistanceOf | src/algorithms/two-apx/two-apx.c:52-57 | a finite distance from s is the length of a shortest walk, and Inf (DBL_MAX) means exactly that no walk exists |
| TwoApx.ClosureRow | src/algorithms/two-apx/two-apx.c:51-61 | row i appends, in increasing j, an edge (i, j, distance) for every later terminal reachable from terminal i and nothing else, and leaves the paths data clean |
| TwoApx.FlattenMember | src/algorithms/two-apx/two-apx.c:67-74 | an edge is in the concatenated buffers exactly when some buffer holds it |
| TwoApx.FlattenAppendLen | src/algorithms/two-apx/two-apx.c:58 | appending to one buffer lengthens the concatenation by as much |
| TwoApx.TriSumClosed | src/algorithms/two-apx/two-apx.c:65 | rows 0..i-1 hold at most i(2t-i-1)/2 entries |
| TwoApx.RowsStep | src/algorithms/two-apx/two-apx.c:47-62 | appending row i to the buffer of the worker that runs it keeps every buffered entry a closure edge of its row and covers row i's reachable pairs |
| TwoApx.MergeEdge | src/algorithms/two-apx/two-apx.c:70-72 | addEdge of one buffered closure edge into the next slot |
| TwoApx.FlattenPrefixLen | src/algorithms/two-apx/two-apx.c:67-74 | the first k buffers hold no more entries than all |
| TwoApx.MergeBuffer | src/algorithms/two-apx/two-apx.c:68-73 | one worker's buffer goes, in order, into the next slots |
| TwoApx.MergeClosureEdges | src/algorithms/two-apx/two-apx.c:65-74 | the buffers' edges go worker by worker into slots 0, 1, 2, ... |
| TwoApx.ClosureFromRows | src/algorithms/two-apx/two-apx.c:45-74 | the merged rows form the metric closure: one edge per reachable pair of terminal positions v < w, its cost the shortest-walk distance |
| TwoApx.PairSlots | src/algorithms/two-apx/two-apx.c:65 | the n(n-1)/2 closure slots hold all rows |
| TwoApx.FlattenEmpty | src/algorithms/two-apx/two-apx.c:43 | fresh buffers concatenate to nothing |
| TwoApx.RowsStart | src/algorithms/two-apx/two-apx.c:43-47 | before the first row the loop state holds |
| TwoApx.ClosureRowOf | src/algorithms/two-apx/two-apx.c:47-62 | one iteration of the parallel loop appends row i to worker schedule[i]'s buffer and keeps the loop state |
| TwoApx.ClosureRows | src/algorithms/two-apx/two-apx.c:46-62 | after the loop rows 0..t-2 are buffered |
| TwoApx.CreateMetricClosure | src/algorithms/two-apx/two-apx.c:37-79 | a graph on the terminal positions with n(n-1)/2 slots whose used slots are exactly one edge per connected terminal pair, costing the distance between them |
| TwoApxTrees.ClosureWellFormed | src/algorithms/two-apx/two-apx.c:65-74 | the zeroed slots after the closure edges name vertex 0, so with at least one terminal the closure is a well-formed graph prim may run on |
| TwoApxTrees.CreateClosureMST | src/algorithms/two-apx/two-apx.c:192-200 | the metric closure of the terminals and prim's spanning tree of it rooted at terminal position 0 |
| TwoApxTrees.ClosureTreeReaches | src/algorithms/two-apx/two-apx.c:192-200 | when every terminal is reachable from the first, the closure tree holds every terminal position |
| TwoApxTrees.RootNeighbour | src/algorithms/two-apx/two-apx.c:194 | a closure edge at position 0 leads into the closure tree |
| TwoApxTrees.ClosureEdgeReachable | src/algorithms/two-apx/two-apx.c:54-58 | a closure edge joins terminals connected in g |
| TwoApxTrees.ClosureTreeEdges | src/algorithms/two-apx/two-apx.c:121-126 | every closure-tree entry after the root's names a real closure edge (never a zeroed padding slot) |
| TwoApxTrees.TerminalJoined | src/algorithms/two-apx/two-apx.c:119-164 | once every closure-tree edge is joined, every terminal is joined to the first by collected edges |
| TwoApxTrees.AllJoined | src/algorithms/two-apx/two-apx.c:119-164 | then every tree vertex is joined to the first terminal |
| TwoApxTrees.ConnEndInTree | src/algorithms/two-apx/two-apx.c:105-117 | a vertex joined to a different one by collected edges is a tree vertex |
| TwoApxTrees.WalkUp | src/structures/graph.c:173-180 | a walk in the induced subgraph, renamed through origEdgeI and the selection, is a walk in g |
| TwoApxTrees.WalkDown | src/algorithms/two-apx/two-apx.c:221-231 | a walk of collected edges in g between tree vertices is a walk in the induced subgraph |
| TwoApxTrees.SubStep | src/algorithms/two-apx/two-apx.c:221-231 | one copied edge in front of a sub-walk is a sub-walk |
| TwoApxTrees.PrunedStep | src/algorithms/two-apx/two-apx.c:209-213 | the prune loop's list gains the original of sub-vertex i's predecessor edge |
| TwoApxTrees.PrunedFresh | src/algorithms/two-apx/two-apx.c:209-213 | that original is not listed yet, so addEdgeToEdges always appends it |
| TwoApxTrees.Prune | src/algorithms/two-apx/two-apx.c:202-219 | prim on the induced subgraph from its vertex 0; the result lists the originals of the n-1 tree edges, each once, and flags exactly them |
| TwoApxTrees.WalkEdgesIn | src/algorithms/two-apx/two-apx.c:202-219 | every edge of a walk is one of the first m slots |
| TwoApxTrees.MaskInside | src/algorithms/two-apx/two-apx.c:223 | the flagged edges are the collected ones, whose ends are tree vertices, so the induced subgraph meets no flagged edge leaving the selection |
| TwoApxTrees.CollectedHeld | src/algorithms/two-apx/two-apx.c:223 | the induced subgraph holds every collected non-loop edge, each once |
| TwoApxTrees.SubReaches | src/algorithms/two-apx/two-apx.c:223 | every tree vertex is reachable from sub-vertex 0 in the induced subgraph |
| TwoApxTrees.PrunedSpans | src/algorithms/two-apx/two-apx.c:202-219 | the pruned edges have both ends in the tree and join every tree vertex to the first |
| TwoApxTrees.InduceTree | src/algorithms/two-apx/two-apx.c:223 | the subgraph induced by the tree vertices and flagged edges copies g's edges and is connected from its vertex 0 |
| TwoApxTrees.PruneAndCleanup | src/algorithms/two-apx/two-apx.c:221-231 | the returned edges form a tree on the tree vertices: one fewer distinct edges than vertices, ends in the set, all vertices joined to the first; exactly those edges stay flagged |
| TwoApxTrees.TerminalInTree | src/algorithms/two-apx/two-apx.c:119-164 | when some terminal differs from the first (repeats allowed), every terminal ends up a tree vertex |
| TwoApxTrees.Rebase | src/algorithms/two-apx/two-apx.c:221-231 | vertices all joined to r are all joined to the first listed vertex |
| TwoApxTrees.CollectedSpan | src/algorithms/two-apx/two-apx.c:119-164 | after collectUniqueEdges every terminal is a tree vertex and every tree vertex is joined to the first |
| TwoApxTrees.FlagsOf | src/algorithms/two-apx/two-apx.c:249 | flags marking exactly the listed vertices are the selection's flags |
| TwoApxTrees.EmptyCollection | src/algorithms/two-apx/two-apx.c:247-250 | no tree vertices and no flagged edges is a valid start |
| TwoApxTrees.CollectionStart | src/algorithms/two-apx/two-apx.c:235-250 | clean paths data, an empty buffer, no tree vertices, no flagged edges |
| TwoApxTrees.CollectTree | src/algorithms/two-apx/two-apx.c:247-252 | the collected tree state holds every terminal and joins every tree vertex to the first |
| TwoApxTrees.TwoAPX | src/algorithms/two-apx/two-apx.c:233-267 | the returned edges form a tree on the returned vertex set, which holds every terminal |
| TwoApxParallel.ElemsAppend | src/structures/buffer.c:26-33 | the entries of a concatenation are the union of the entries |
| TwoApxParallel.ElemsSnoc | src/algorithms/two-apx/two-apx.c:88-89 | reading one more entry of a buffer adds exactly that entry |
| TwoApxParallel.ChainMembers | src/algorithms/two-apx/two-apx.c:84-101 | the buffers read worker by worker hold exactly the buffers' members |
| TwoApxParallel.Dedup | src/algorithms/two-apx/two-apx.c:89-99 | dropping repeats keeps the same entries and leaves none twice |
| TwoApxParallel.DedupSnoc | src/algorithms/two-apx/two-apx.c:89-99 | one more entry read is appended exactly when it is not listed yet |
| TwoApxParallel.DedupDistinct | src/algorithms/two-apx/two-apx.c:89-99 | a list without repeats is left as it is |
| TwoApxParallel.MembersAppend | src/algorithms/two-apx/two-apx.c:184 | appending a path to one worker's buffer adds exactly the path's edges to the union of all buffers |
| TwoApxParallel.MembersEmpty | src/algorithms/two-apx/two-apx.c:280 | freshly created buffers hold nothing |
| TwoApxParallel.WalkEndsConn | src/algorithms/two-apx/two-apx.c:178-187 | every end of every edge of a walk of collected edges from a is joined to a |
| TwoApxParallel.AlongAppended | src/algorithms/two-apx/two-apx.c:184 | every edge of an appended path is listed afterwards |
| TwoApxParallel.EndsRootedGrow | src/algorithms/two-apx/two-apx.c:168-189 | an edge whose ends are joined to a terminal stays so as more edges are collected |
| TwoApxParallel.WalkRooted | src/algorithms/two-apx/two-apx.c:178-187 | the ends of a shortest path from terminal t1, read backwards from t2, are joined to a terminal |
| TwoApxParallel.EndsRootedConcat | src/algorithms/two-apx/two-apx.c:184 | rooted lists concatenate to a rooted list |
| TwoApxParallel.JoinedStep | src/algorithms/two-apx/two-apx.c:168-189 | once the path of closure-tree edge i is collected its two terminals are joined, and so stay every earlier one |
| TwoApxParallel.ParStep | src/algorithms/two-apx/two-apx.c:168-189 | one iteration keeps the invariant: the first i closure-tree edges joined, every collected edge's ends joined to a terminal |
| TwoApxParallel.SuffixStep | src/algorithms/two-apx/two-apx.c:180-187 | walking one predecessor edge up the chain extends the reversed suffix by that edge |
| TwoApxParallel.AppendPath | src/algorithms/two-apx/two-apx.c:179-187 | the walk from t2 up the predecessor chain appends exactly the shortest-path tree's path from t1 to t2, reversed |
| TwoApxParallel.CleanAll | src/algorithms/dijkstra/dijkstra.c:20-25 | cleanPathsData leaves every distance infinite and every predecessor edge -1 |
| TwoApxParallel.ShortestPathBack | src/algorithms/two-apx/two-apx.c:176-188 | on a clean PathsData the iteration appends a shortest walk from t1 to t2 read backwards and leaves the PathsData clean again |
| TwoApxParallel.ParRound | src/algorithms/two-apx/two-apx.c:169-188 | one iteration on worker tID: the invariant advances by one closure-tree edge and the buffers' union stays the appended edges |
| TwoApxParallel.CollectEdgesForParallel | src/algorithms/two-apx/two-apx.c:166-190 | for any assignment of iterations to workers, the buffers together hold the edges of shortest paths joining the terminals of every closure-tree edge, each end joined to a terminal |
| TwoApxParallel.EndsStep | src/algorithms/two-apx/two-apx.c:96-98 | taking an edge makes both its ends tree vertices |
| TwoApxParallel.MergeEntry | src/algorithms/two-apx/two-apx.c:89-99 | an entry not listed yet is appended and flagged and its ends become tree vertices; a listed one leaves the list as it was |
| TwoApxParallel.MergeBuffer | src/algorithms/two-apx/two-apx.c:85-100 | if the list is the deduplicated entries read so far, it is so after the buffer too, the merge state kept |
| TwoApxParallel.MergeCollectedSets | src/algorithms/two-apx/two-apx.c:81-103 | the listed edges are the buffers' entries in worker order with each repeat dropped (first occurrence kept), so exactly the union of the buffers, each once, flagged, and every tree vertex is an end of one of them |
| TwoApxParallel.MembersHas | src/algorithms/two-apx/two-apx.c:84-89 | every buffer entry is in the union |
| TwoApxParallel.BuffersFrom | src/algorithms/two-apx/two-apx.c:184 | buffers of collected path edges hold only edge slots below m |
| TwoApxParallel.MergedRooted | src/algorithms/two-apx/two-apx.c:290-291 | after the merge every closure-tree edge's terminals are joined by the collected edges and every tree vertex is joined to a terminal |
| TwoApxParallel.MergeStart | src/algorithms/two-apx/two-apx.c:281-288 | the merge starts with no flagged edges and no tree vertices |
| TwoApxParallel.ParallelPaths | src/algorithms/two-apx/two-apx.c:278-283 | the collection phase yields one buffer per worker whose union is the collected paths, satisfying the invariant for every closure-tree edge |
| TwoApxParallel.ParallelTree | src/algorithms/two-apx/two-apx.c:278-291 | the tree vertices hold every terminal and are all joined to the first by the collected edges |
| TwoApxParallel.ParallelTwoAPX | src/algorithms/two-apx/two-apx.c:269-306 | as twoAPX, for every schedule of the parallel loops: the returned edges form a tree on the returned vertex set, which holds every terminal |
| Ilp.InitIlpParams | src/algorithms/exact/ilp.c:39-64 | for a graph with non-negative counts, the edge-selection and flow row blocks are non-negative and together fit within nRows |
| Ilp.ArcToEdge | src/algorithms/exact/ilp.c:31-33 | the two arcs 2k and 2k+1 of one undirected edge share the 1-based x column k+1 |
| Ilp.FlowColumnNumbered | src/algorithms/exact/ilp.c:35-37 | the flow column of arc a and non-root terminal t lies after the x columns, within nCols, and decodes back to (a, t) |
| Ilp.ColumnDecodes | src/algorithms/exact/ilp.c:35-54 | every column number 1..nCols decodes to an x column of an edge or a flow column of an arc and a non-root terminal, and encodes back to itself |
| Ilp.ColumnsNumbered | src/algorithms/exact/ilp.c:31-54 | the column numbering is a bijection between x columns plus flow columns and 1..nCols |
| Ilp.FlowEntryInjective | src/algorithms/exact/ilp.c:35-37 | mapToFlowEntry never gives two (arc, terminal) pairs the same column |
| Ilp.SelectRowNumbered | src/algorithms/exact/ilp.c:84-104 | edge-selection row (t, a) is numbered within 1..nEdgeSelectConstr and decodes back |
| Ilp.FlowRowNumbered | src/algorithms/exact/ilp.c:106-126 | flow row (t, v) is numbered after the edge-selection rows and within the flow rows, and decodes back |
| Ilp.RowDecodes | src/algorithms/exact/ilp.c:56-62 | every row number 1..nRows decodes to a selection, flow or (only with the upper bound) bound row and encodes back |
| Ilp.RowsNumbered | src/algorithms/exact/ilp.c:39-64 | the row numbering is a bijection onto 1..nRows, with one extra row exactly when the upper bound is added |
| Ilp.SelectPartLen | src/algorithms/exact/ilp.c:84-104 | the edge-selection phase writes two nonzeros per (terminal, arc) |
| Ilp.SumDegSnoc | src/structures/graph.c:193-199 | the degree sum grows by one vertex's degree |
| Ilp.FlowPartLen | src/algorithms/exact/ilp.c:106-126 | the flow phase writes one nonzero per adjacency entry per non-root terminal |
| Ilp.BoundPartLen | src/algorithms/exact/ilp.c:129-138 | the bound row gets one nonzero per undirected edge |
| Ilp.EntriesCount | src/algorithms/exact/ilp.c:70-75 | the nonzero count computed up front equals the number of nonzeros the three phases write |
| Ilp.ShapedAppend | src/algorithms/exact/ilp.c:84-138 | concatenating lists of well-shaped nonzeros gives one |
| Ilp.SelectPartShaped | src/algorithms/exact/ilp.c:84-104 | every edge-selection nonzero is +1 on f^t_a or -1 on the x column of a's edge, in row (t, a) |
| Ilp.FlowPartShaped | src/algorithms/exact/ilp.c:106-126 | every flow nonzero of row (t, v) is on the flow column of an arc incident to v, +1 when v is its tail and -1 otherwise |
| Ilp.BoundPartShaped | src/algorithms/exact/ilp.c:129-138 | every bound-row nonzero is the cost of the first arc of an edge on that edge's x column |
| Ilp.EntriesShaped | src/algorithms/exact/ilp.c:66-140 | every nonzero of the matrix is one the formulation prescribes |
| Ilp.Put | src/algorithms/exact/ilp.c:91-94 | one nonzero stored at position nzI, earlier ones kept |
| Ilp.SumDegPrefix | src/algorithms/exact/ilp.c:71 | a prefix's degree sum is at most the whole sum |
| Ilp.FillSelectRow | src/algorithms/exact/ilp.c:86-103 | the arc loop for terminal t writes that terminal's selection nonzeros and advances rowI by nArcs and nzI by 2 nArcs |
| Ilp.FillSelect | src/algorithms/exact/ilp.c:84-104 | the selection loops write exactly the selection nonzeros |
| Ilp.WellFormedAdjIn | src/algorithms/exact/ilp.c:112-117 | in a well-formed graph every adjacency entry names an arc, so g->edges[a] is in range |
| Ilp.FillVertex | src/algorithms/exact/ilp.c:110-124 | the adjacency loop of vertex v writes one flow nonzero per incident arc |
| Ilp.FillTerminal | src/algorithms/exact/ilp.c:109-125 | the vertex loop writes terminal t's flow rows |
| Ilp.FillFlow | src/algorithms/exact/ilp.c:106-126 | the flow loops write exactly the flow nonzeros |
| Ilp.FillBound | src/algorithms/exact/ilp.c:129-138 | the bound loop writes each edge's cost on its x column |
| Ilp.HeldShaped | src/algorithms/exact/ilp.c:91-135 | triplet arrays holding well-shaped nonzeros hold them at positions 1..count |
| Ilp.FillRows | src/algorithms/exact/ilp.c:84-126 | the two main phases write exactly their nonzeros, in order |
| Ilp.FillMatrix | src/algorithms/exact/ilp.c:81-138 | the three phases write exactly the formulation's nonzeros, in order |
| Ilp.NewTriplets | src/algorithms/exact/ilp.c:77-79 | three fresh, distinct arrays of one size |
| Ilp.CountNonzeros | src/algorithms/exact/ilp.c:69-75 | 2 per selection row, the degree sum per non-root terminal, and m more with the upper bound |
| Ilp.MatrixShaped | src/algorithms/exact/ilp.c:66-140 | every stored nonzero is one the formulation prescribes |
| Ilp.CreateConstraintMatrix | src/algorithms/exact/ilp.c:66-140 | the arrays have nnz+1 slots and hold at 1..nnz exactly the formulation's nonzeros, each well-shaped |
| Ilp.Rhs | src/algorithms/exact/ilp.c:170-176 | b^t(v) is 1 at the root, -1 at the terminal t (when it is not the root) and 0 elsewhere |
| Ilp.RhsPrefix | src/algorithms/exact/ilp.c:169-179 | the sum of b^t over the first k vertices counts the root and the terminal among them |
| Ilp.RhsBalance | src/algorithms/exact/ilp.c:169-179 | the right-hand sides of one terminal's flow rows sum to 0 exactly when the terminal is not the root |
| Ilp.FlowRowBefore | src/algorithms/exact/ilp.c:165-180 | the flow rows of earlier terminals come before terminal t's |
| Ilp.FlowBoundsStep | src/algorithms/exact/ilp.c:167-180 | one terminal's rows set keeps the earlier terminals' rows and the selection rows |
| Ilp.SetFlowBounds | src/algorithms/exact/ilp.c:169-179 | rows rowI..rowI+n-1 are fixed to b^t(v), every other row unchanged |
| Ilp.SetSelectBounds | src/algorithms/exact/ilp.c:160-162 | every edge-selection row is at most 0 |
| Ilp.SetAllFlowBounds | src/algorithms/exact/ilp.c:164-180 | every flow row (t, v) is fixed to b^t(v), the selection rows kept |
| Ilp.BoundRowStep | src/algorithms/exact/ilp.c:182-189 | setting the bound row keeps every other row |
| Ilp.IlpUpperBound | src/algorithms/exact/ilp.c:183-185 | the bound is the cost of a tree from parallelTwoAPX on a vertex set holding every terminal |
| Ilp.AddConstraints | src/algorithms/exact/ilp.c:158-190 | selection rows at most 0, flow rows fixed to b^t(v), the bound row at most the upper bound |
| Ilp.AddCoefficients | src/algorithms/exact/ilp.c:192-208 | x column i is binary in [0, 1] and costs edge i's first arc, flow columns are continuous in [0, 1] and cost nothing |
| Ilp.Trunc | src/algorithms/exact/ilp.c:236 | the C cast of a double to int, which truncates toward zero |
| Ilp.TruncOne | src/algorithms/exact/ilp.c:236-237 | a column value counts as chosen exactly when it lies in [1, 2) |
| Ilp.PickedArcs | src/algorithms/exact/ilp.c:234-240 | the chosen list is the even first arcs 2(i-1) of exactly the columns whose value truncates to 1, in increasing order |
| Ilp.PickedInRange | src/algorithms/exact/ilp.c:238 | the chosen arcs are edge slots of the graph |
| Ilp.ExtractSolution | src/algorithms/exact/ilp.c:225-243 | exits exactly when there is no x column, and otherwise returns exactly the chosen list |
| Ilp.ObjectiveFlowFree | src/algorithms/exact/ilp.c:202-207 | the flow columns add nothing to the objective |
| Ilp.ObjectiveEdges | src/algorithms/exact/ilp.c:196-201 | on 0/1 x values the objective over the x columns is the cost of the chosen edges |
| Ilp.ObjectiveIsTreeCost | src/algorithms/exact/ilp.c:192-243 | the objective value of a 0/1 solution is the total cost of the tree extractSolution returns |
| IlpReduce.PreEdgeList | src/algorithms/dijkstra/dijkstra.c:79-82 | after a Dijkstra run every predecessor entry is -1 or an edge slot, so sumEdgeCosts may read them all |
| IlpReduce.ChainFacts | src/algorithms/exact/ilp.c:264 | following predecessor edges from a reached vertex visits distinct vertices and its edge costs sum to the vertex's distance |
| IlpReduce.CostZero | src/utils.c:4-15 | dropping one entry from the cost sum takes exactly that entry's cost off |
| IlpReduce.SumAtFrame | src/algorithms/exact/ilp.c:264 | clearing an entry outside a chain leaves the chain's cost unchanged |
| IlpReduce.SubsetBound | src/algorithms/exact/ilp.c:264 | the predecessor edges of distinct vertices cost at most the whole tree |
| IlpReduce.TreeCostBound | src/algorithms/exact/ilp.c:264 | the cost of the whole shortest-path tree is at least the distance of every reached vertex |
| IlpReduce.FlaggedHasShortcut | src/algorithms/exact/ilp.c:264-268 | the removal test is sound: when the tree from e.v costs less than e, some walk from e.v to e.w costs strictly less than e |
| IlpReduce.TestEdge | src/algorithms/exact/ilp.c:259-269 | the test result is the tree-cost comparison of one Dijkstra run from e.v, a flagged edge has a cheaper bypass, and the PathsData is clean afterwards |
| IlpReduce.FlagEdge | src/algorithms/exact/ilp.c:258-270 | pair i's flag becomes its test result, every other flag unchanged |
| IlpReduce.FlagRemovable | src/algorithms/exact/ilp.c:246-270 | one flag per undirected edge, each set exactly when the test flags it, and every flagged pair has a cheaper bypass |
| IlpReduce.SkipKept | src/algorithms/exact/ilp.c:275-278 | left advances over kept pairs to the next flagged one or to nEdges |
| IlpReduce.SkipRemoved | src/algorithms/exact/ilp.c:279-282 | right retreats over flagged pairs to the previous kept one or to -1 |
| IlpReduce.SwapPairs | src/algorithms/exact/ilp.c:285-291 | edge pairs left and right exchange both arcs, every other slot unchanged |
| IlpReduce.SwapKeepsMoved | src/algorithms/exact/ilp.c:283-298 | after the exchange each slot pair still holds one original pair with its arcs together |
| IlpReduce.SwapKeepsCompacting | src/algorithms/exact/ilp.c:283-298 | the exchange keeps the flags travelling with their pairs and records the kept pair's new slot |
| IlpReduce.ExchangeStep | src/algorithms/exact/ilp.c:283-298 | one exchange on the arrays keeps the compaction state with left and right moved inward |
| IlpReduce.CompactingStart | src/algorithms/exact/ilp.c:248-251 | before the loop every pair is in its own slot, a kept pair's newPos its own index |
| IlpReduce.ScanStep | src/algorithms/exact/ilp.c:275-282 | the two inner loops keep the state and leave a flagged pair at left and a kept one at right when they have not crossed |
| IlpReduce.CompactingDone | src/algorithms/exact/ilp.c:274 | when left and right meet, the flags are false below one index and true from it on, and exactly the slot pairs below that index hold kept pairs |
| IlpReduce.CompactPairs | src/algorithms/exact/ilp.c:272-299 | the pairs are permuted with every kept pair before every removed one, flags travel with their pairs, newPos gives each kept pair's new slot and is left alone for a removed pair |
| IlpReduce.CountKept | src/algorithms/exact/ilp.c:302-307 | the count is the number of unflagged pairs |
| IlpReduce.KeptCountSplit | src/algorithms/exact/ilp.c:301-309 | after the compaction that count is the split index, so the first newCount pairs are exactly the kept ones |
| IlpReduce.Remap | src/algorithms/exact/ilp.c:313-320 | a renumbered list is never longer than the old one |
| IlpReduce.RemapOrigin | src/algorithms/exact/ilp.c:313-320 | every entry of a renumbered list is the new slot of a kept entry of the old list |
| IlpReduce.RemapComplete | src/algorithms/exact/ilp.c:313-320 | every kept entry of the old list survives, renumbered |
| IlpReduce.ArcInjective | src/algorithms/exact/ilp.c:293 | no two kept arcs get the same new slot |
| IlpReduce.RemapNoDup | src/algorithms/exact/ilp.c:313-320 | renumbering keeps a list free of repeated edges (other than self-loops) |
| IlpReduce.RemapList | src/algorithms/exact/ilp.c:314-319 | the loop over one vertex's list overwrites every entry, arcs of removed pairs included, with its pair's newPos on the same side |
| IlpReduce.RemapKeptList | src/algorithms/exact/ilp.c:314-319 | the corrected loop over one list produces exactly the renumbered list with removed arcs dropped |
| IlpReduce.RewriteAdjacency | src/algorithms/exact/ilp.c:313-320 | every vertex's list is renumbered entry by entry as written, deg and capacity unchanged |
| IlpReduce.RewriteKeptAdjacency | src/algorithms/exact/ilp.c:313-320 | the corrected rewrite replaces every list by its renumbered list with removed arcs dropped |
| IlpReduce.AsWrittenRemap | src/algorithms/exact/ilp.c:313-320 | the loop as written renumbers every entry through newPos, arcs of removed pairs included, keeping the list length |
| IlpReduce.AsWrittenRemapAll | src/algorithms/exact/ilp.c:313-320 | every vertex's list renumbered as written keeps its length and capacity |
| IlpReduce.AsWrittenAgrees | src/algorithms/exact/ilp.c:313-320 | where newPos holds no -1 the as-written and the corrected renumbering agree |
| IlpReduce.AsWrittenEntries | src/algorithms/exact/ilp.c:309-320 | after the as-written rewrite an entry of a kept pair names its own edge below the new edge count and an entry of a removed pair keeps its old number |
| IlpReduce.NoFlagsKeepAll | src/algorithms/exact/ilp.c:272-307 | with no pair flagged every pair is kept |
| IlpReduce.UnflaggedReduced | src/algorithms/exact/ilp.c:245-325 | when nothing is flagged the as-written reduction leaves a built graph |
| IlpReduce.IncreasingNoDup | src/structures/graph.c:43-63 | a strictly increasing adjacency list repeats nothing |
| IlpReduce.IncreasingStep | src/structures/graph.c:43-55 | entries of a strictly increasing list keep their order at any distance |
| IlpReduce.ListsNoDup | src/structures/graph.c:43-63 | lists without repeats make a graph without repeated entries |
| IlpReduce.TriangleListsNoDup | src/structures/graph.c:57-63 | the triangle's lists before and after the reduction repeat nothing |
| IlpReduce.TriangleIncident | src/structures/graph.c:57-63 | every triangle list entry names an incident edge |
| IlpReduce.TriangleListed | src/structures/graph.c:57-63 | every triangle edge is listed at both ends |
| IlpReduce.TriangleBuilt | src/structures/graph.c:57-63 | the triangle is a graph as addEdge builds it |
| IlpReduce.TriangleShortcut | src/algorithms/exact/ilp.c:265-268 | the 0-2 edge of the triangle has a cheaper bypass |
| IlpReduce.StaleEntries | src/algorithms/exact/ilp.c:313-320 | on the triangle with the 0-2 pair flagged, for every outcome of the left-right loop, the as-written rewrite keeps arcs 4 and 5 in vertex 0's list, past the new edge count, so the result is not well formed |
| IlpReduce.RemapFirstList | src/algorithms/exact/ilp.c:313-320 | vertex 0 of the triangle keeps arcs 0 and 1 |
| IlpReduce.RemapSecondList | src/algorithms/exact/ilp.c:313-320 | vertex 1 of the triangle keeps its list |
| IlpReduce.RemapThirdList | src/algorithms/exact/ilp.c:313-320 | vertex 2 of the triangle keeps arcs 2 and 3 |
| IlpReduce.RemapPair | src/algorithms/exact/ilp.c:313-320 | the two arcs of a pair left in place keep their numbers |
| IlpReduce.RemapAppendPair | src/algorithms/exact/ilp.c:313-320 | appending such a pair appends its two arcs |
| IlpReduce.TriangleRemapped | src/algorithms/exact/ilp.c:313-320 | the corrected renumbering drops exactly the removed pair's arcs from the triangle's lists |
| IlpReduce.TriangleReduced | src/algorithms/exact/ilp.c:309-320 | and the result is a built graph on the first 4 slots |
| IlpReduce.KeptArc | src/algorithms/exact/ilp.c:309-310 | a kept arc's new slot (its pair's new slot pair, same side) lies below the new edge count and holds the same edge |
| IlpReduce.ArcOrigin | src/algorithms/exact/ilp.c:309-310 | every slot of the shrunk array comes from a kept arc |
| IlpReduce.ReducedWellFormed | src/algorithms/exact/ilp.c:309-320 | every entry of the reduced lists names an incident edge below the new edge count |
| IlpReduce.ReducedSymmetric | src/algorithms/exact/ilp.c:309-320 | every edge of the reduced graph is listed at both ends |
| IlpReduce.ReducedNoDup | src/algorithms/exact/ilp.c:309-320 | the reduced lists repeat an edge only when it is a self-loop |
| IlpReduce.InitPositions | src/algorithms/exact/ilp.c:248-251 | newPos starts as the identity |
| IlpReduce.InitKeptPositions | src/algorithms/exact/ilp.c:248-251 | the corrected start: -1 for a flagged pair, the own index for a kept one |
| IlpReduce.CompactAndCount | src/algorithms/exact/ilp.c:272-307 | the pairs are compacted, newPos follows every kept pair and keeps its start value for a removed one, and the kept count is the split index |
| IlpReduce.PartitionEdges | src/algorithms/exact/ilp.c:246-307 | the flags are the tests' results, the pairs are compacted, newPos is the new slot of a kept pair and the own index of a removed one, and the kept count is the split index |
| IlpReduce.PartitionKeptEdges | src/algorithms/exact/ilp.c:246-307 | the same with the corrected start, so newPos is -1 for a removed pair |
| IlpReduce.ShrinkEdges | src/algorithms/exact/ilp.c:309-310 | the edge array becomes the first 2 newCount slots, m set to match |
| IlpReduce.ReducedBuilt | src/algorithms/exact/ilp.c:309-320 | the reduced graph is again well-formed, symmetric and free of repeated entries |
| IlpReduce.ReduceGraph | src/algorithms/exact/ilp.c:245-325 | as written: every flagged pair has a cheaper bypass; the edges are the kept pairs, permuted; every list keeps its length, an entry of a kept pair names its own edge below the new edge count and an entry of a removed pair keeps its old number |
| IlpReduce.ReduceGraphCorrected | src/algorithms/exact/ilp.c:245-325 | corrected: the graph stays built, the edges are the kept pairs, permuted, and every list is renumbered with removed arcs dropped |
| Validators.CountTrueSet | src/test/test.c:93-98 | the count of set flags is the number of flagged vertices |
| Validators.PartitionStart | src/test/test.c:82 | before any union every vertex is its own set, which is exactly connectivity by no edges |
| Validators.WalkKeepsLabel | src/test/test.c:84-90 | a walk over edges whose ends share a label ends at a vertex with the start's label |
| Validators.ConnEdge | src/test/test.c:89 | a listed edge joins its two ends |
| Validators.UnionStep | src/test/test.c:89 | unionSet on the ends of edge e turns sets that are exactly the components of the listed edges into the components with e added |
| Validators.JoinedAfterUnion | src/test/test.c:89 | vertices in one set after the union are joined by the listed edges plus e |
| Validators.TouchedStep | src/test/test.c:87-88 | one more edge flags exactly its two ends |
| Validators.AcceptedByReps | src/test/test.c:119-133 | with sets equal to the components, the three checks on flags and representatives decide exactly the tree property: edge count one less than touched vertices, every terminal touched, every touched pair joined |
| Validators.UnionEdge | src/test/test.c:85-89 | one turn keeps the union-find valid, its representatives equal to the components of the edges so far plus this one |
| Validators.MarkAndUnion | src/test/test.c:82-90 | the flags mark exactly the ends of listed edges and the union-find sets are exactly the components of the listed edges |
| Validators.CountTouched | src/test/test.c:92-98 | the count is the number of set flags |
| Validators.AllTerminalsIn | src/test/test.c:108-117 | true exactly when every terminal is flagged |
| Validators.SameSet | src/test/test.c:119-133 | true exactly when every flagged vertex has the first flagged vertex's representative |
| Validators.IsSteinerTree | src/test/test.c:73-138 | true exactly when (at most one terminal) the list is empty, or (otherwise) it has one edge fewer than the vertices it touches, touches every terminal and joins every pair of touched vertices |

## Left out

- Reading graphs and terminals (`scanGraph`, `scanGraphStructure`, `scanTerminals`), `scanMinCost`, every `print*` function and the command-line driver `src/min-cost-st.c`: file and console I/O. The doubled-arc layout the reader produces survives as the `g.m % 2 == 0` and built-graph preconditions of `IlpReduce.ReduceGraph` and `IlpReduce.ReduceGraphCorrected`.
- The GLPK calls (`createGLPKProblem`, the `glp_*` calls in `addConstraints` and `addCoefficients`, `solveProblem`) and the top-level `ilp()` that strings them together: a foreign solver. The model keeps the numbers handed to it (`Ilp.AddConstraints` records row bounds, `Ilp.AddCoefficients` column specs) and `Ilp.ExtractSolution` reads column values given as a sequence; a solver failure is an exit and is not modelled.
- OpenMP: every parallel loop runs sequentially, and a `schedule` parameter names the worker of each iteration; the properties hold for every schedule. Data races cannot arise in that form and are not modelled.
- TwoApx.CreateMetricClosure: the rows share one `PathsData` instead of one per worker. Each row leaves it clean, so the result is the same; the per-worker copies of the C code are not modelled.
- Costs are `nat` instead of `double`. Rounding is not modelled, and `int costSum` in `reduceGraph` truncates nothing. With fractional costs, truncation could flag an edge whose tree cost is not below its own cost; `IlpReduce.FlaggedHasShortcut` is proved for integer costs only.
- IlpReduce.TestEdge: the test compares the cost of the whole shortest-path tree with the edge cost, as the code does. That test is sound (`IlpReduce.FlaggedHasShortcut`) but flags fewer edges than a test against the distance to `e.w` would; the model does not state which edges it misses.
- Prims.Prim: states that the result is a spanning tree of the root's component, not that it has minimum cost.
- Heuristics.TakahashiMatsuyama: states that the tree edges are distinct, join every tree vertex to the first terminal and reach every reachable terminal; it does not state that they form a tree (no cycle).
- Heuristics.MstST, Heuristics.PrunedMST, TwoApxTrees.TwoAPX, TwoApxParallel.ParallelTwoAPX: no cost bound. The factor-2 guarantee of the metric-closure construction and the optimality checks of the driver depend on theorems about minimum trees, which are not modelled.
- Dijkstras.MultiDijkstra: characterises the result (distances and a predecessor forest realising them) rather than fixing it uniquely. A cleaned and a freshly created `PathsData` both meet its precondition, so both runs satisfy the same characterisation, but ties between equal-length paths may be broken either way.
- InducedSubGraphs.CreateInducedSubGraph: requires every masked edge to have both ends selected, because the code looks only at `isInSub[edge->w]`. Its one caller passes flags set only on collected edges, whose ends are tree vertices (`TwoApxTrees.MaskInside`).
- Memory lifetimes: `calloc`, `realloc` and `free` are allocation of fresh arrays or nothing. Capacities are modelled where a property depends on them (heap growth, buffers, adjacency lists).
- The `fprintf`/`exit` paths (`extractMin` on an empty heap, a zero-size solution) are preconditions or the `Exit` outcome.

## Findings

| source | as written | input that shows it | evidently intended | confidence | as-written member | corrected member |
|---|---|---|---|---|---|---|
| src/algorithms/exact/ilp.c:313-320 | the adjacency rewrite renumbers every entry through `newPos`, which starts as the identity and changes only for kept pairs the left-right loop moves; the arcs of removed pairs stay in the lists, `deg` is never lowered, and they name slots past the shrunk edge array or slots now holding other edges | a triangle 0-1 and 1-2 of cost 1 and 0-2 of cost 5, arcs 0..5; the test flags pair 2, nothing is exchanged, `newPos` stays [0, 1, 2], `m` becomes 4, and vertex 0's list stays [0, 1, 4, 5] | arcs of removed pairs are dropped and kept arcs are renumbered to their pair's new slot, leaving a graph whose lists name only its own edges | not executed | IlpReduce.ReduceGraph, IlpReduce.AsWrittenRemap, IlpReduce.StaleEntries | IlpReduce.ReduceGraphCorrected, IlpReduce.Remap, IlpReduce.ReducedBuilt, IlpReduce.TriangleRemapped |
