# dijkstra-prim, modelled in Dafny

This project models the core of a small C++ library of graph algorithms:

- the graph container `Graph<int>`: adjacency lists, index-aligned weight lists and an optional dense weight matrix;
- the two indexed min-priority queues `MinHeap<int>` and `UnorderedArray<int>`, which share one abstract specification;
- the `dijkstra` and `prim` functions of `src/main.cc`, which drive them.

Everything that the C++ code updates in place is a Dafny `class` with `seq` fields or an `array`, and is changed by methods.
Each method is proved against a value-level specification.

| file | module | models |
|---|---|---|
| graph.dfy | `Graphs` | `Graph<T>` (src/graph.cc): the `Store` value, the insertion and query specifications, and the `Graph` class with its constructor loops, query loops and `add_edge` |
| priority_queue.dfy | `PriorityQueue` | `KeyValue`, `IDX_NULL`, and what both queues keep between their `keys` and `indexes` vectors; the abstract queue is the map from active key to value |
| min_heap.dfy | `MinHeaps` | `MinHeap` (src/min_heap.cc): sift-up in `decrease_key`, recursive `min_heapify`, `swap_keys`, `extract_min` |
| unordered_array.dfy | `UnorderedArrays` | `UnorderedArray` (src/unordered_array.cc): append or overwrite, and the universe scan of `extract_min` |
| queue.dfy | `Queues` | the `MinPriorityQueue<T>*` that `dijkstra` and `prim` pick by their `heap` flag |
| walks.dfy | `Walks` | walks over the stored arcs and their costs, used to state what the two algorithms compute |
| dijkstra.dfy | `ShortestPaths` | `dijkstra`: the loop invariant, the lemmas for each step, and the methods |
| prim.dfy | `MinimumSpanningTrees` | what `prim` computes, i.e. the greedily grown tree and its weight, with the loop invariant and step lemmas |
| prim_search.dfy | `PrimSearch` | the methods of `prim` |
| spanning.dfy | `SpanningTrees` | minimality of the greedy tree over every arc list that spans the reachable nodes, by the exchange argument |
| worked.dfy | `WorkedExamples` | the two example graphs built in `main` and the results of both calls on each |

How things are represented:

- Weights are `int`, the instantiation the worked examples use.
- `INF` is `0x3F3F3F3F`, as in src/main.cc:16.
- An arc is named by its tail node and its position in that node's adjacency list, so parallel arcs of different weights stay distinct.
- `dijkstra` is proved to return the capped distance: no walk from `s` to `t` is cheaper, and the result is the cost of some walk unless it is `INF`. That result is the same for either queue.
- `prim` returns, besides `mst_weight`, ghost outputs for the extraction order and for the arc that last lowered each node's key. The model proves three things:
  - the nodes reachable from the root are exactly the tree's nodes;
  - each node hangs from an earlier node by an arc that is no heavier than any arc leaving the nodes added before it;
  - `mst_weight` is the sum of those parent arcs.
- On an undirected graph with non-negative weights, `mst_weight` is also proved minimal. A spanning arc list is any list of stored arcs that links the root to every node reachable from it, each arc walked in either direction. No such list weighs less than the greedy tree. So the result does not depend on the queue.
- The C++ loops over `d[]`, `in[]` and the queue are split into methods: `Setup`, `Grow`, `Visit`, `Take`, `ScanArcs` and `Relax`. This keeps each proof small. The methods run the same statements in the same order as the source.
- The inner loops are Dafny `for` loops up to `G.GetDegree(u)`. Dafny evaluates that bound once, where the C++ condition re-reads `get_degree(u)` on every iteration. The two agree because the graph does not change inside the loop.

## Model

| member | source | states |
|---|---|---|
| Graphs.Graph.constructor | src/graph.cc:8-42 | `n` nodes with empty lists, an all-zero n-by-n matrix when asked for, then each given edge inserted in order (`Build`); the graph is valid |
| Graphs.EmptyShape | src/graph.cc:19-34 | before any edge: `Max0(n)` nodes, every list empty, a square all-zero matrix when requested, and symmetric storage |
| Graphs.Graph.GetV | src/graph.cc:46-48 | the number of adjacency lists, which in a valid graph is also the number of weight lists |
| Graphs.Graph.GetDegree | src/graph.cc:50-58 | 0 outside `[0,n)`; otherwise the common length of the node's adjacency and weight lists |
| Graphs.Graph.GetAdjs | src/graph.cc:61-69 | empty outside `[0,n)`; otherwise the node's adjacency list; every neighbour returned is a node of the graph |
| Graphs.Graph.GetWeights | src/graph.cc:71-79 | empty outside `[0,n)`; otherwise the node's weight list, aligned in length with `GetAdjs` |
| Graphs.Graph.GetEdges | src/graph.cc:81-94 | the loop returns exactly `EdgeList`: node by node, in insertion order, only `u <= v` for an undirected graph |
| Graphs.EdgeListMembers | src/graph.cc:81-94 | an edge is listed iff it is a stored arc `(u, Adjs[u][j], Weights[u][j])`, with `u <= v` required for an undirected graph |
| Graphs.Graph.HasEdge | src/graph.cc:97-113 | the loop returns `HasEdgeOf`: false out of range, a positive matrix cell in matrix mode, otherwise `v` listed among `u`'s neighbours |
| Graphs.Graph.Weight | src/graph.cc:115-131 | the loop returns `WeightOf`: -1 out of range, the matrix cell in matrix mode, otherwise the weight of the first `v` in `u`'s list, or -1 |
| Graphs.FirstWeightIsFirstMatch | src/graph.cc:125-128 | list-mode `weight` returns the weight at the first position holding `v` |
| Graphs.FirstWeightAbsent | src/graph.cc:125-130 | list-mode `weight` is -1 when `v` is not a neighbour |
| Graphs.MatrixQueries | src/graph.cc:104-123 | in matrix mode `weight` is the last weight written for the pair, 0 for no edge; `has_edge` holds iff an edge exists whose last weight is positive, so zero-weight edges are reported absent |
| Graphs.Graph.AddEdge | src/graph.cc:139-159 | the new state is `Insert(old state, u, v, w)`; validity, matrix mirroring and undirected symmetry are kept |
| Graphs.Graph.AddUnweightedEdge | src/graph.cc:134-137 | exactly `add_edge(u, v, 0)` |
| Graphs.InsertAppends | src/graph.cc:140-158 | out of range nothing changes; otherwise `v`/`w` are appended to u's lists and, if undirected, `u`/`w` to v's lists, and no other list changes |
| Graphs.InsertMirrors | src/graph.cc:146-158 | after an insertion every matrix cell still holds the last weight stored for its pair |
| Graphs.InsertSymmetric | src/graph.cc:152-158 | undirected insertion keeps every arc matched by a mirror arc of the same weight, counted with multiplicity |
| Graphs.QueriesAfterInsert | src/graph.cc:97-159 | after `add_edge(u,v,w)`: in list mode the edge is reported and `weight` keeps the first weight stored; in matrix mode `weight` is `w` and `has_edge` iff `w > 0`; likewise for `(v,u)` when undirected |
| Graphs.DirectedInsertIsOneWay | src/graph.cc:152 | in a digraph the reverse pair's answers are unchanged |
| Graphs.BuildMirrors | src/graph.cc:39-41 | the batch constructor keeps the matrix mirroring the lists |
| Graphs.BuildSymmetric | src/graph.cc:39-41 | the batch constructor builds symmetric storage for an undirected graph |
| PriorityQueue.AppendConsistent | src/min_heap.cc:31-36 | appending an absent key keeps index consistency and adds the key to the abstract queue |
| PriorityQueue.OverwriteConsistent | src/min_heap.cc:37-39 | overwriting an active entry in place keeps index consistency and changes only that key's value |
| PriorityQueue.SwapConsistent | src/min_heap.cc:104-112 | `swap_keys` keeps index consistency and leaves the abstract queue unchanged |
| PriorityQueue.RemoveAtConsistent | src/unordered_array.cc:56-63 | removal by swap-with-last and pop keeps index consistency and removes exactly that key |
| PriorityQueue.ContentsSize | src/min_heap.cc:83-86 | `keys.size()` equals the number of active keys |
| MinHeaps.MinHeap.constructor | src/min_heap.cc:10-17 | `max_key+1` entries of IDX_NULL, no keys, the empty queue |
| MinHeaps.MinHeap.InsertKey | src/min_heap.cc:20-23 | the same contract as `decrease_key` |
| MinHeaps.MinHeap.DecreaseKey | src/min_heap.cc:25-44 | out-of-universe keys change nothing; otherwise the key's value is set, just one entry is kept per key, and the size grows by one iff the key was absent; heap order survives when the key was absent or its value did not grow |
| MinHeaps.MinHeap.ExtractMin | src/min_heap.cc:54-69 | on a non-empty heap: returns the old root, an active entry; removes exactly that key; size drops by one; on a heap-ordered array the value is a minimum and heap order is kept |
| MinHeaps.MinHeap.MinHeapify | src/min_heap.cc:89-102 | sift-down keeps the abstract queue and size, and restores heap order when the only violation was at `index` |
| MinHeaps.MinHeap.SwapKeys | src/min_heap.cc:104-112 | the two positions are exchanged, both keys re-registered, and the abstract queue is unchanged |
| MinHeaps.MinHeap.GetHeap | src/min_heap.cc:72-80 | the stored values in array order, which satisfy heap order when the heap is ordered |
| MinHeaps.MinHeap.Size | src/min_heap.cc:83-86 | the number of active keys |
| MinHeaps.RootIsMin | src/min_heap.cc:56 | in a heap-ordered array the root holds a smallest value |
| MinHeaps.SiftUpStep | src/min_heap.cc:41-44 | one sift-up swap moves the single violation one level up |
| MinHeaps.SiftDownStep | src/min_heap.cc:93-100 | one sift-down swap with the smaller child moves the violation to that child |
| MinHeaps.SmallestChild | src/min_heap.cc:91-101 | the position sift-down picks: a child that is ahead of `index`, whose swap moves the violation there; or `index` itself when the heap is already whole |
| MinHeaps.RootRemoval | src/min_heap.cc:55-64 | moving the last entry into the root and popping removes the root's key; on a heap, that key has a minimum value and only the root is left to sift down |
| UnorderedArrays.UnorderedArray.constructor | src/unordered_array.cc:10-17 | `max_key+1` entries of IDX_NULL, no keys, the empty queue |
| UnorderedArrays.UnorderedArray.InsertKey | src/unordered_array.cc:20-23 | the same contract as `decrease_key` |
| UnorderedArrays.UnorderedArray.DecreaseKey | src/unordered_array.cc:25-37 | out-of-universe keys change nothing; an absent key is appended; a present key's entry is overwritten in place, in either direction; the key's value is set |
| UnorderedArrays.UnorderedArray.ExtractMin | src/unordered_array.cc:46-66 | returns an active entry of minimum value, the smallest key among equal values; removes exactly that key, by swap-with-last and pop |
| UnorderedArrays.UnorderedArray.Size | src/unordered_array.cc:68-71 | the number of active keys |
| Queues.Queue.constructor | src/main.cc:63-67 | the queue picked by `heap`, empty and ordered |
| Queues.Queue.DecreaseKey | src/main.cc:87 | either implementation's `decrease_key`, with the shared abstract contract |
| Queues.Queue.InsertKey | src/main.cc:70 | either implementation's `insert_key` |
| Queues.Queue.ExtractMin | src/main.cc:73 | removes and returns an active entry, a minimum one whenever the ordering holds |
| Queues.Queue.Size | src/main.cc:72 | the number of active keys |
| Walks.Extend | src/main.cc:82-86 | a walk to u extended by an arc of u reaches its head, at cost plus the arc weight |
| Walks.ClosedSetContainsWalks | src/main.cc:72-89 | a node set that holds s and is closed under arcs holds every node reachable from s |
| ShortestPaths.Dijkstra | src/main.cc:55-92 | with non-negative weights, returns the distance from s to t capped at INF: no walk is cheaper, and some walk costs exactly that unless it is INF |
| ShortestPaths.Grow | src/main.cc:72-90 | the outer loop runs until the queue is empty, never raises a distance, and leaves the invariant with nothing queued |
| ShortestPaths.Setup | src/main.cc:59-70 | every distance INF except `d[s] = 0`, and the queue holding only `s` at 0 |
| ShortestPaths.Visit | src/main.cc:72-89 | one outer iteration extracts a node u not extracted before, adds exactly u to the extracted set, sets the settled bound to `d[u]`, never raises a distance, and keeps the invariant |
| ShortestPaths.Take | src/main.cc:73-74 | the extracted node is new and has the least distance of all the nodes not extracted yet |
| ShortestPaths.ScanArcs | src/main.cc:79-89 | after the inner loop every arc of u is relaxed, and no distance has risen |
| ShortestPaths.Relax | src/main.cc:83-88 | when `d[v] > d[u] + w`, `d[v]` and v's queue key become `d[u] + w`; otherwise distances and queue are unchanged; the invariant is kept with one more arc of u relaxed |
| ShortestPaths.ExtractStep | src/main.cc:73-74 | the extracted node is at least as close as every node not extracted yet, and it joins the settled set at its final distance |
| ShortestPaths.RelaxApply | src/main.cc:85-87 | an improving arc leads to a node not yet extracted, its queue key only decreases, and the new distance is the cost of a walk |
| ShortestPaths.RelaxSkip | src/main.cc:85 | an arc that does not improve already satisfies the relaxation bound |
| ShortestPaths.WitnessExtends | src/main.cc:85-86 | each finite `d[v]` remains the cost of some walk from s to v |
| ShortestPaths.WalkBound | src/main.cc:72-91 | when the extracted nodes are relaxed and settled, every walk to v costs at least `min(d[v], m)` |
| ShortestPaths.Final | src/main.cc:91 | with the queue empty, `d[t]` is the capped distance |
| ShortestPaths.UnreachableGivesInf | src/main.cc:60-91 | an unreachable target yields INF |
| ShortestPaths.CappedDistanceUnique | src/main.cc:64-67 | the capped distance is unique, so any two correct runs agree |
| ShortestPaths.DijkstraBothQueues | src/main.cc:175-176 | the heap and unordered-array runs return the same capped distance |
| PrimSearch.Prim | src/main.cc:95-136 | returns `PrimResult`: the nodes reachable from r form a tree grown from r; each node hangs from an earlier node by an arc no heavier than any arc leaving the earlier nodes; `mst_weight` is the tree's weight; on an undirected graph with non-negative weights it is the minimum spanning weight |
| PrimSearch.Grow | src/main.cc:118-133 | the outer loop runs until the queue is empty and leaves the loop invariant with nothing left to scan |
| PrimSearch.PrimBothQueues | src/main.cc:208-209 | on an undirected graph with weights in `0..INF-1`, the heap and unordered-array runs return the same weight, and it is the minimum spanning weight |
| PrimSearch.Setup | src/main.cc:99-116 | every key INF and no node in the tree, except `d[r] = 0`, with only `r` in the queue |
| PrimSearch.Visit | src/main.cc:118-132 | one outer iteration extracts a node u outside the tree, appends it to the order, sets `in[u]`, adds `d[u]` to `mst_weight`, never raises a key nor touches a tree node's key, and keeps the invariant |
| PrimSearch.Take | src/main.cc:119-124 | the extracted node is outside the tree; its key is added to `mst_weight`; `in[u]` is set |
| PrimSearch.ScanArcs | src/main.cc:126-131 | after the inner loop every arc of u is scanned; no key has risen and the keys of tree nodes are unchanged |
| PrimSearch.Relax | src/main.cc:128-130 | when v is outside the tree and `d[v] > w`, `d[v]` and v's queue key become `w` and v's parent arc becomes (u, i); otherwise keys, queue and parents are unchanged; tree nodes' keys are never touched |
| MinimumSpanningTrees.ExtractStep | src/main.cc:119-124 | the extracted node's key is the weight of a lightest arc leaving the tree, so adding it keeps the tree greedy and its weight equal to `mst_weight + d[u]` |
| MinimumSpanningTrees.LightestCrossing | src/main.cc:119 | the minimum key outside the tree bounds every arc leaving the tree |
| MinimumSpanningTrees.RelaxApply | src/main.cc:128-130 | lowering `d[v]` to `w` records arc (u, i) as v's parent and keeps the invariant |
| MinimumSpanningTrees.RelaxSkip | src/main.cc:128 | an arc into the tree, or one that is not lighter, only advances the scan |
| MinimumSpanningTrees.TreeReachable | src/main.cc:126-131 | every tree node is reachable from the root |
| MinimumSpanningTrees.Final | src/main.cc:118-135 | with the queue empty the tree spans exactly the nodes reachable from r |
| MinimumSpanningTrees.FlagsMembers | src/main.cc:124 | `in[v]` holds iff v was extracted |
| MinimumSpanningTrees.MarkDecreases | src/main.cc:124 | setting `in[u]` on an unmarked node lowers the count of unmarked nodes, so the outer loop ends |
| SpanningTrees.PrimMinimal | src/main.cc:95-136 | with symmetric storage and non-negative weights, the weight of a greedy tree grown from r is the minimum spanning weight from r |
| SpanningTrees.MinimumSpanningWeightUnique | src/main.cc:208-209 | the minimum spanning weight is unique, so any two correct runs agree |
| SpanningTrees.Absorb | src/main.cc:118-124 | any spanning arc list can be turned, one tree arc at a time, into one holding every parent arc without getting heavier, so it weighs at least the tree |
| SpanningTrees.AbsorbOne | src/main.cc:119-124 | one exchange step: the parent arc of the k-th extracted node replaces a crossing arc of the list, which keeps it spanning and does not raise its weight |
| SpanningTrees.Exchange | src/main.cc:119-124 | swapping one arc of a simple route for an arc joining the route's ends keeps every connection of the list |
| SpanningTrees.CrossingWeight | src/main.cc:119-130 | in either direction, an arc leaving the first k extracted nodes weighs at least the k-th node's parent arc |
| SpanningTrees.TreeArcsConnect | src/main.cc:126-131 | the parent arcs link the root to every tree node |
| SpanningTrees.TreeArcsCost | src/main.cc:122 | the parent arcs of the first k nodes cost what `mst_weight` has summed after k extractions |
| SpanningTrees.HoldsTree | src/main.cc:122 | an arc list holding every parent arc weighs at least the tree, when weights are non-negative |
| SpanningTrees.InsideArcs | src/main.cc:126-130 | no parent arc among the first k nodes crosses out of them |
| SpanningTrees.GreedyAt | src/main.cc:119 | the k-th node's parent arc is no heavier than any arc leaving the earlier nodes |
| SpanningTrees.TreeAt | src/main.cc:119-130 | each extracted node after the root is new and hangs by a stored arc from an earlier node |
| SpanningTrees.TreeDistinct | src/main.cc:124 | no node is extracted twice |
| SpanningTrees.MirrorArc | src/graph.cc:152-158 | in symmetric storage every arc has a reverse arc of the same weight |
| SpanningTrees.Shorten | src/main.cc:95-136 | proof helper for minimality: every route has a sub-route between the same ends that visits no node twice |
| SpanningTrees.Crossing | src/main.cc:119 | a route that starts inside a node set and ends outside it has a step that leaves the set |
| SpanningTrees.UsedOnce | src/main.cc:95-136 | proof helper for minimality: a route that visits no node twice uses no arc twice |
| SpanningTrees.Transfer | src/main.cc:95-136 | proof helper for minimality: a route over a list keeps its ends connected when one arc is replaced by a connection between that arc's ends |
| SpanningTrees.CostConcat | src/main.cc:95-136 | proof helper for minimality: the weight of two concatenated arc lists is the sum of their weights |
| SpanningTrees.RemoveOneCost | src/main.cc:95-136 | proof helper for minimality: removing one arc lowers a list's weight by exactly that arc's weight |
| SpanningTrees.SubCost | src/main.cc:95-136 | proof helper for minimality: with non-negative weights, a duplicate-free list whose arcs all lie in another list weighs no more |
| SpanningTrees.ConnectsBack | src/main.cc:95-136 | proof helper for minimality: connection is symmetric |
| SpanningTrees.ConnectsThen | src/main.cc:95-136 | proof helper for minimality: connection is transitive |
| WorkedExamples.DijkstraGraph | src/main.cc:163-172 | the nine `add_edge` calls build a valid digraph whose lists are the ones of `DijkstraStore` |
| WorkedExamples.DijkstraDistance | src/main.cc:175 | in the Dijkstra example the capped distance from 0 to 4 is 5 |
| WorkedExamples.PotentialBound | src/main.cc:175 | a potential that no arc decreases by more than its weight gives a lower bound on every walk |
| WorkedExamples.DijkstraExample | src/main.cc:175-176 | both calls on the Dijkstra example return 5 |
| WorkedExamples.PrimGraph | src/main.cc:191-205 | the fourteen `add_edge` calls build a valid undirected graph whose lists are the ones of `PrimStore` |
| WorkedExamples.PrimTree | src/main.cc:208 | the extraction order 0,1,2,8,5,6,7,3,4 with its parent arcs is a greedy tree of weight 37 |
| WorkedExamples.PrimMinimum | src/main.cc:208 | the minimum spanning weight of the Prim example from node 0 is 37 |
| WorkedExamples.PrimExample | src/main.cc:208-209 | both calls on the Prim example return 37 |

## Left out

- The random graph generator, `measure_execution_time` and `main` (src/main.cc:18-52, 139-224): they use randomness, the clock and console output. The `_DEBUG_PQ`/`_DEBUG_MAIN` printing is left out too.
- The `float` and `double` instantiations: only integer weights are modelled.
- `is_weighted` is stored but never read, so it is not modelled.
- Virtual dispatch through `MinPriorityQueue*` becomes a tagged choice between the two classes. The leaked `new[]` arrays and queues are not modelled.
- ShortestPaths.Dijkstra: it requires weights in `0..INT_MAX-INF+1`. The source states no bound, but it computes `d[u] + weight[i]` in a 32-bit `int`. This bound is what rules out that overflow when `d[u] < INF`. `dijkstra` does not check weights, and negative weights are not covered.
- PrimSearch.Prim: it requires every weight to be below INF. A weight of INF or more never lowers a key, so such an arc is never used. `mst_weight` is an unbounded integer here, so 32-bit overflow of the sum is not modelled.
- PrimSearch.Prim: minimality is stated only for an undirected graph with non-negative weights. `prim` does not check either, and digraphs and negative weights are not covered. A spanning tree is modelled as a list of stored arcs, not as a set of node pairs.
- Tie-breaking differs between the two queues. The heap returns whichever minimum sits at the root, and the unordered array returns the smallest key. So the two queues can extract nodes in different orders on ties. Only the returned distance or weight is compared.
- `get_edges` on an undirected graph lists a self-loop twice, because `add_edge(u, u, w)` stores it twice and both copies pass `u <= u`.
