/**
 * The two worked examples `main` runs before its timing runs: the
 * five-node directed graph of `dijkstra(G, 0, 4)` and the nine-node
 * undirected graph of `prim(G, 0)`, each built by the same `add_edge` calls.
 */
module WorkedExamples {
  import opened Graphs
  import opened Walks
  import opened ShortestPaths
  import opened MinimumSpanningTrees
  import opened SpanningTrees
  import opened PrimSearch

  /** The lists of the Dijkstra example after its nine `add_edge` calls (no matrix). */
  function DijkstraStore(): Store
  {
    Store([], [[1, 4], [2, 4], [3], [0, 2], [1, 3]], [[10, 5], [1, 2], [4], [7, 6], [3, 2]])
  }

  /**
   * A potential no stored arc can undercut bounds every walk: the walk
   * costs at least the rise of the potential from its start to its end.
   */
  lemma {:induction false} PotentialBound(st: Store, pot: seq<int>, p: seq<Arc>, s: int, t: int)
    requires WellFormed(st) && |pot| == |st.adjs|
    requires forall u, i :: 0 <= u < |st.adjs| && 0 <= i < |st.adjs[u]| ==>
      pot[st.adjs[u][i]] <= pot[u] + st.weights[u][i]
    requires IsWalk(st, p, s, t)
    ensures InRange(st, s) && InRange(st, t)
    ensures pot[t] - pot[s] <= Cost(st, p)
    decreases |p|
  {
    if |p| > 0 {
      var a := p[|p| - 1];
      PotentialBound(st, pot, p[..|p| - 1], s, a.from);
    }
  }

  /** From node 0 the target 4 is at distance 5, across the direct arc 0 -> 4. */
  lemma DijkstraDistance()
    ensures IsCappedDistance(DijkstraStore(), 0, 4, 5)
  {
    var st := DijkstraStore();
    var pot := [0, 8, 9, 7, 5];
    forall u, i | 0 <= u < |st.adjs| && 0 <= i < |st.adjs[u]|
      ensures pot[st.adjs[u][i]] <= pot[u] + st.weights[u][i]
    {
      assert u == 0 || u == 1 || u == 2 || u == 3 || u == 4;
      assert i == 0 || i == 1;
    }
    forall p | IsWalk(st, p, 0, 4) ensures 5 <= Cost(st, p) {
      PotentialBound(st, pot, p, 0, 4);
    }
    var direct := [Arc(0, 1)];
    assert direct[..0] == [];
    assert IsWalk(st, direct, 0, 4) && Cost(st, direct) == 5;
  }

  /** Two lists of five lists are equal when they agree at each of the five positions. */
  lemma SameLists(a: seq<seq<int>>, b: seq<seq<int>>)
    requires |a| == 5 == |b|
    requires a[0] == b[0] && a[1] == b[1] && a[2] == b[2] && a[3] == b[3] && a[4] == b[4]
    ensures a == b
  {
    assert forall y :: 0 <= y < 5 ==> a[y] == b[y];
  }

  /** One directed `add_edge(u, v, w)` on a list-only graph of five nodes appends v and w to u's lists. */
  lemma DirectedInsert(st: Store, u: int, v: int, w: int, after: Store)
    requires WellFormed(st) && |st.mat| == 0 && |st.adjs| == 5 && 0 <= u < 5 && 0 <= v < 5
    requires after.mat == [] && |after.adjs| == 5 && |after.weights| == 5
    requires after.adjs[u] == st.adjs[u] + [v] && after.weights[u] == st.weights[u] + [w]
    requires forall y :: 0 <= y < 5 && y != u ==> after.adjs[y] == st.adjs[y] && after.weights[y] == st.weights[y]
    ensures Insert(st, u, v, w, true) == after
  {
    SameLists(Push(st.adjs, u, v), after.adjs);
    SameLists(Push(st.weights, u, w), after.weights);
  }

  /** The Dijkstra example: the first three directed insertions. */
  lemma DijkstraInsertsA(s0: Store, s1: Store, s2: Store, s3: Store)
    requires s0 == Store([], [[], [], [], [], []], [[], [], [], [], []])
    requires WellFormed(s0) && s1 == Insert(s0, 0, 1, 10, true)
    requires WellFormed(s1) && s2 == Insert(s1, 0, 4, 5, true)
    requires WellFormed(s2) && s3 == Insert(s2, 1, 2, 1, true)
    ensures s3 == Store([], [[1, 4], [2], [], [], []], [[10, 5], [1], [], [], []])
  {
    DirectedInsert(s0, 0, 1, 10, Store([], [[1], [], [], [], []], [[10], [], [], [], []]));
    DirectedInsert(s1, 0, 4, 5, Store([], [[1, 4], [], [], [], []], [[10, 5], [], [], [], []]));
    DirectedInsert(s2, 1, 2, 1, Store([], [[1, 4], [2], [], [], []], [[10, 5], [1], [], [], []]));
  }

  /** The Dijkstra example: the next three directed insertions. */
  lemma DijkstraInsertsB(s3: Store, s4: Store, s5: Store, s6: Store)
    requires s3 == Store([], [[1, 4], [2], [], [], []], [[10, 5], [1], [], [], []])
    requires WellFormed(s3) && s4 == Insert(s3, 1, 4, 2, true)
    requires WellFormed(s4) && s5 == Insert(s4, 2, 3, 4, true)
    requires WellFormed(s5) && s6 == Insert(s5, 3, 0, 7, true)
    ensures s6 == Store([], [[1, 4], [2, 4], [3], [0], []], [[10, 5], [1, 2], [4], [7], []])
  {
    DirectedInsert(s3, 1, 4, 2, Store([], [[1, 4], [2, 4], [], [], []], [[10, 5], [1, 2], [], [], []]));
    DirectedInsert(s4, 2, 3, 4, Store([], [[1, 4], [2, 4], [3], [], []], [[10, 5], [1, 2], [4], [], []]));
    DirectedInsert(s5, 3, 0, 7, Store([], [[1, 4], [2, 4], [3], [0], []], [[10, 5], [1, 2], [4], [7], []]));
  }

  /** The Dijkstra example: the last three directed insertions. */
  lemma DijkstraInsertsC(s6: Store, s7: Store, s8: Store, s9: Store)
    requires s6 == Store([], [[1, 4], [2, 4], [3], [0], []], [[10, 5], [1, 2], [4], [7], []])
    requires WellFormed(s6) && s7 == Insert(s6, 3, 2, 6, true)
    requires WellFormed(s7) && s8 == Insert(s7, 4, 1, 3, true)
    requires WellFormed(s8) && s9 == Insert(s8, 4, 3, 2, true)
    ensures s9 == DijkstraStore()
  {
    DirectedInsert(s6, 3, 2, 6, Store([], [[1, 4], [2, 4], [3], [0, 2], []], [[10, 5], [1, 2], [4], [7, 6], []]));
    DirectedInsert(s7, 4, 1, 3, Store([], [[1, 4], [2, 4], [3], [0, 2], [1]], [[10, 5], [1, 2], [4], [7, 6], [3]]));
    DirectedInsert(s8, 4, 3, 2, Store([], [[1, 4], [2, 4], [3], [0, 2], [1, 3]], [[10, 5], [1, 2], [4], [7, 6], [3, 2]]));
  }
  /** `Graph dijkstra_example = Graph(5, false, true, true)` and its nine `add_edge` calls. */
  method DijkstraGraph() returns (G: Graph)
    ensures fresh(G) && G.Valid() && G.State() == DijkstraStore()
  {
    G := new Graph(5, [], false, true);
    ghost var s0 := G.State();
    SameLists(s0.adjs, [[], [], [], [], []]);
    SameLists(s0.weights, [[], [], [], [], []]);
    G.AddEdge(0, 1, 10);
    ghost var s1 := G.State();
    G.AddEdge(0, 4, 5);
    ghost var s2 := G.State();
    G.AddEdge(1, 2, 1);
    ghost var s3 := G.State();
    G.AddEdge(1, 4, 2);
    ghost var s4 := G.State();
    G.AddEdge(2, 3, 4);
    ghost var s5 := G.State();
    G.AddEdge(3, 0, 7);
    ghost var s6 := G.State();
    G.AddEdge(3, 2, 6);
    ghost var s7 := G.State();
    G.AddEdge(4, 1, 3);
    ghost var s8 := G.State();
    G.AddEdge(4, 3, 2);
    ghost var s9 := G.State();
    DijkstraInsertsA(s0, s1, s2, s3);
    DijkstraInsertsB(s3, s4, s5, s6);
    DijkstraInsertsC(s6, s7, s8, s9);
  }

  /** `dijkstra(dijkstra_example, 0, 4)` with either queue returns 5. */
  method DijkstraExample() returns (withHeap: int, withArray: int)
    ensures withHeap == 5 && withArray == 5
  {
    var G := DijkstraGraph();
    withHeap, withArray := DijkstraBothQueues(G, 0, 4);
    DijkstraDistance();
    CappedDistanceUnique(G.State(), 0, 4, withHeap, 5);
  }

  // ---------------------------------------------------------------------------
  // The Prim example

  /** The lists of the Prim example after its fourteen undirected `add_edge` calls (no matrix). */
  function PrimStore(): Store
  {
    Store([], [[1, 7], [0, 2, 7], [1, 3, 5, 8], [2, 4, 5], [3, 5], [2, 3, 4, 6], [5, 7, 8], [0, 1, 6, 8], [2, 6, 7]],
              [[4, 8], [4, 8, 11], [8, 7, 4, 2], [7, 9, 14], [9, 10], [4, 14, 10, 2], [2, 1, 6], [8, 11, 1, 7], [2, 6, 7]])
  }

  /** Two lists of nine lists are equal when they agree at each of the nine positions. */
  lemma SameNine(a: seq<seq<int>>, b: seq<seq<int>>)
    requires |a| == 9 == |b|
    requires a[0] == b[0] && a[1] == b[1] && a[2] == b[2] && a[3] == b[3] && a[4] == b[4]
    requires a[5] == b[5] && a[6] == b[6] && a[7] == b[7] && a[8] == b[8]
    ensures a == b
  {
    assert forall y :: 0 <= y < 9 ==> a[y] == b[y];
  }

  /** One undirected `add_edge(u, v, w)` on a list-only graph of nine nodes appends to the lists of u and of v. */
  lemma UndirectedInsert(st: Store, u: int, v: int, w: int, after: Store)
    requires WellFormed(st) && |st.mat| == 0 && |st.adjs| == 9 && 0 <= u < 9 && 0 <= v < 9 && u != v
    requires after.mat == [] && |after.adjs| == 9 && |after.weights| == 9
    requires after.adjs[u] == st.adjs[u] + [v] && after.weights[u] == st.weights[u] + [w]
    requires after.adjs[v] == st.adjs[v] + [u] && after.weights[v] == st.weights[v] + [w]
    requires forall y :: 0 <= y < 9 && y != u && y != v ==> after.adjs[y] == st.adjs[y] && after.weights[y] == st.weights[y]
    ensures Insert(st, u, v, w, false) == after
  {
    SameNine(Push(Push(st.adjs, u, v), v, u), after.adjs);
    SameNine(Push(Push(st.weights, u, w), v, w), after.weights);
  }

  /** The Prim example: insertion 1. */
  lemma PrimInsertsA(s0: Store, s1: Store)
    requires s0 == Store([], [[], [], [], [], [], [], [], [], []], [[], [], [], [], [], [], [], [], []])
    requires WellFormed(s0) && s1 == Insert(s0, 0, 1, 4, false)
    ensures s1 == Store([], [[1], [0], [], [], [], [], [], [], []], [[4], [4], [], [], [], [], [], [], []])
  {
    UndirectedInsert(s0, 0, 1, 4, Store([], [[1], [0], [], [], [], [], [], [], []], [[4], [4], [], [], [], [], [], [], []]));
  }

  /** The Prim example: insertions 2 and 3. */
  lemma PrimInsertsB(s1: Store, s2: Store, s3: Store)
    requires s1 == Store([], [[1], [0], [], [], [], [], [], [], []], [[4], [4], [], [], [], [], [], [], []])
    requires WellFormed(s1) && s2 == Insert(s1, 0, 7, 8, false)
    requires WellFormed(s2) && s3 == Insert(s2, 1, 2, 8, false)
    ensures s3 == Store([], [[1, 7], [0, 2], [1], [], [], [], [], [0], []], [[4, 8], [4, 8], [8], [], [], [], [], [8], []])
  {
    UndirectedInsert(s1, 0, 7, 8, Store([], [[1, 7], [0], [], [], [], [], [], [0], []], [[4, 8], [4], [], [], [], [], [], [8], []]));
    UndirectedInsert(s2, 1, 2, 8, Store([], [[1, 7], [0, 2], [1], [], [], [], [], [0], []], [[4, 8], [4, 8], [8], [], [], [], [], [8], []]));
  }

  /** The Prim example: insertions 4 and 5. */
  lemma PrimInsertsC(s3: Store, s4: Store, s5: Store)
    requires s3 == Store([], [[1, 7], [0, 2], [1], [], [], [], [], [0], []], [[4, 8], [4, 8], [8], [], [], [], [], [8], []])
    requires WellFormed(s3) && s4 == Insert(s3, 1, 7, 11, false)
    requires WellFormed(s4) && s5 == Insert(s4, 2, 3, 7, false)
    ensures s5 == Store([], [[1, 7], [0, 2, 7], [1, 3], [2], [], [], [], [0, 1], []], [[4, 8], [4, 8, 11], [8, 7], [7], [], [], [], [8, 11], []])
  {
    UndirectedInsert(s3, 1, 7, 11, Store([], [[1, 7], [0, 2, 7], [1], [], [], [], [], [0, 1], []], [[4, 8], [4, 8, 11], [8], [], [], [], [], [8, 11], []]));
    UndirectedInsert(s4, 2, 3, 7, Store([], [[1, 7], [0, 2, 7], [1, 3], [2], [], [], [], [0, 1], []], [[4, 8], [4, 8, 11], [8, 7], [7], [], [], [], [8, 11], []]));
  }

  /** The Prim example: insertions 6 and 7. */
  lemma PrimInsertsD(s5: Store, s6: Store, s7: Store)
    requires s5 == Store([], [[1, 7], [0, 2, 7], [1, 3], [2], [], [], [], [0, 1], []], [[4, 8], [4, 8, 11], [8, 7], [7], [], [], [], [8, 11], []])
    requires WellFormed(s5) && s6 == Insert(s5, 2, 5, 4, false)
    requires WellFormed(s6) && s7 == Insert(s6, 2, 8, 2, false)
    ensures s7 == Store([], [[1, 7], [0, 2, 7], [1, 3, 5, 8], [2], [], [2], [], [0, 1], [2]], [[4, 8], [4, 8, 11], [8, 7, 4, 2], [7], [], [4], [], [8, 11], [2]])
  {
    UndirectedInsert(s5, 2, 5, 4, Store([], [[1, 7], [0, 2, 7], [1, 3, 5], [2], [], [2], [], [0, 1], []], [[4, 8], [4, 8, 11], [8, 7, 4], [7], [], [4], [], [8, 11], []]));
    UndirectedInsert(s6, 2, 8, 2, Store([], [[1, 7], [0, 2, 7], [1, 3, 5, 8], [2], [], [2], [], [0, 1], [2]], [[4, 8], [4, 8, 11], [8, 7, 4, 2], [7], [], [4], [], [8, 11], [2]]));
  }

  /** The Prim example: insertions 8 and 9. */
  lemma PrimInsertsE(s7: Store, s8: Store, s9: Store)
    requires s7 == Store([], [[1, 7], [0, 2, 7], [1, 3, 5, 8], [2], [], [2], [], [0, 1], [2]], [[4, 8], [4, 8, 11], [8, 7, 4, 2], [7], [], [4], [], [8, 11], [2]])
    requires WellFormed(s7) && s8 == Insert(s7, 3, 4, 9, false)
    requires WellFormed(s8) && s9 == Insert(s8, 3, 5, 14, false)
    ensures s9 == Store([], [[1, 7], [0, 2, 7], [1, 3, 5, 8], [2, 4, 5], [3], [2, 3], [], [0, 1], [2]], [[4, 8], [4, 8, 11], [8, 7, 4, 2], [7, 9, 14], [9], [4, 14], [], [8, 11], [2]])
  {
    UndirectedInsert(s7, 3, 4, 9, Store([], [[1, 7], [0, 2, 7], [1, 3, 5, 8], [2, 4], [3], [2], [], [0, 1], [2]], [[4, 8], [4, 8, 11], [8, 7, 4, 2], [7, 9], [9], [4], [], [8, 11], [2]]));
    UndirectedInsert(s8, 3, 5, 14, Store([], [[1, 7], [0, 2, 7], [1, 3, 5, 8], [2, 4, 5], [3], [2, 3], [], [0, 1], [2]], [[4, 8], [4, 8, 11], [8, 7, 4, 2], [7, 9, 14], [9], [4, 14], [], [8, 11], [2]]));
  }

  /** The Prim example: insertions 10 and 11. */
  lemma PrimInsertsF(s9: Store, s10: Store, s11: Store)
    requires s9 == Store([], [[1, 7], [0, 2, 7], [1, 3, 5, 8], [2, 4, 5], [3], [2, 3], [], [0, 1], [2]], [[4, 8], [4, 8, 11], [8, 7, 4, 2], [7, 9, 14], [9], [4, 14], [], [8, 11], [2]])
    requires WellFormed(s9) && s10 == Insert(s9, 4, 5, 10, false)
    requires WellFormed(s10) && s11 == Insert(s10, 5, 6, 2, false)
    ensures s11 == Store([], [[1, 7], [0, 2, 7], [1, 3, 5, 8], [2, 4, 5], [3, 5], [2, 3, 4, 6], [5], [0, 1], [2]], [[4, 8], [4, 8, 11], [8, 7, 4, 2], [7, 9, 14], [9, 10], [4, 14, 10, 2], [2], [8, 11], [2]])
  {
    UndirectedInsert(s9, 4, 5, 10, Store([], [[1, 7], [0, 2, 7], [1, 3, 5, 8], [2, 4, 5], [3, 5], [2, 3, 4], [], [0, 1], [2]], [[4, 8], [4, 8, 11], [8, 7, 4, 2], [7, 9, 14], [9, 10], [4, 14, 10], [], [8, 11], [2]]));
    UndirectedInsert(s10, 5, 6, 2, Store([], [[1, 7], [0, 2, 7], [1, 3, 5, 8], [2, 4, 5], [3, 5], [2, 3, 4, 6], [5], [0, 1], [2]], [[4, 8], [4, 8, 11], [8, 7, 4, 2], [7, 9, 14], [9, 10], [4, 14, 10, 2], [2], [8, 11], [2]]));
  }

  /** The Prim example: insertions 12 and 13. */
  lemma PrimInsertsG(s11: Store, s12: Store, s13: Store)
    requires s11 == Store([], [[1, 7], [0, 2, 7], [1, 3, 5, 8], [2, 4, 5], [3, 5], [2, 3, 4, 6], [5], [0, 1], [2]], [[4, 8], [4, 8, 11], [8, 7, 4, 2], [7, 9, 14], [9, 10], [4, 14, 10, 2], [2], [8, 11], [2]])
    requires WellFormed(s11) && s12 == Insert(s11, 6, 7, 1, false)
    requires WellFormed(s12) && s13 == Insert(s12, 6, 8, 6, false)
    ensures s13 == Store([], [[1, 7], [0, 2, 7], [1, 3, 5, 8], [2, 4, 5], [3, 5], [2, 3, 4, 6], [5, 7, 8], [0, 1, 6], [2, 6]], [[4, 8], [4, 8, 11], [8, 7, 4, 2], [7, 9, 14], [9, 10], [4, 14, 10, 2], [2, 1, 6], [8, 11, 1], [2, 6]])
  {
    UndirectedInsert(s11, 6, 7, 1, Store([], [[1, 7], [0, 2, 7], [1, 3, 5, 8], [2, 4, 5], [3, 5], [2, 3, 4, 6], [5, 7], [0, 1, 6], [2]], [[4, 8], [4, 8, 11], [8, 7, 4, 2], [7, 9, 14], [9, 10], [4, 14, 10, 2], [2, 1], [8, 11, 1], [2]]));
    UndirectedInsert(s12, 6, 8, 6, Store([], [[1, 7], [0, 2, 7], [1, 3, 5, 8], [2, 4, 5], [3, 5], [2, 3, 4, 6], [5, 7, 8], [0, 1, 6], [2, 6]], [[4, 8], [4, 8, 11], [8, 7, 4, 2], [7, 9, 14], [9, 10], [4, 14, 10, 2], [2, 1, 6], [8, 11, 1], [2, 6]]));
  }

  /** The Prim example: insertion 14. */
  lemma PrimInsertsH(s13: Store, s14: Store)
    requires s13 == Store([], [[1, 7], [0, 2, 7], [1, 3, 5, 8], [2, 4, 5], [3, 5], [2, 3, 4, 6], [5, 7, 8], [0, 1, 6], [2, 6]], [[4, 8], [4, 8, 11], [8, 7, 4, 2], [7, 9, 14], [9, 10], [4, 14, 10, 2], [2, 1, 6], [8, 11, 1], [2, 6]])
    requires WellFormed(s13) && s14 == Insert(s13, 7, 8, 7, false)
    ensures s14 == PrimStore()
  {
    UndirectedInsert(s13, 7, 8, 7, Store([], [[1, 7], [0, 2, 7], [1, 3, 5, 8], [2, 4, 5], [3, 5], [2, 3, 4, 6], [5, 7, 8], [0, 1, 6, 8], [2, 6, 7]], [[4, 8], [4, 8, 11], [8, 7, 4, 2], [7, 9, 14], [9, 10], [4, 14, 10, 2], [2, 1, 6], [8, 11, 1, 7], [2, 6, 7]]));
  }
  /** `Graph prim_example = Graph(9, false, false, true)` and its fourteen `add_edge` calls. */
  method PrimGraph() returns (G: Graph)
    ensures fresh(G) && G.Valid() && !G.isDigraph && G.State() == PrimStore()
  {
    G := new Graph(9, [], false, false);
    ghost var s0 := G.State();
    SameNine(s0.adjs, [[], [], [], [], [], [], [], [], []]);
    SameNine(s0.weights, [[], [], [], [], [], [], [], [], []]);
    G.AddEdge(0, 1, 4);
    ghost var s1 := G.State();
    G.AddEdge(0, 7, 8);
    ghost var s2 := G.State();
    G.AddEdge(1, 2, 8);
    ghost var s3 := G.State();
    G.AddEdge(1, 7, 11);
    ghost var s4 := G.State();
    G.AddEdge(2, 3, 7);
    ghost var s5 := G.State();
    G.AddEdge(2, 5, 4);
    ghost var s6 := G.State();
    G.AddEdge(2, 8, 2);
    ghost var s7 := G.State();
    G.AddEdge(3, 4, 9);
    ghost var s8 := G.State();
    G.AddEdge(3, 5, 14);
    ghost var s9 := G.State();
    G.AddEdge(4, 5, 10);
    ghost var s10 := G.State();
    G.AddEdge(5, 6, 2);
    ghost var s11 := G.State();
    G.AddEdge(6, 7, 1);
    ghost var s12 := G.State();
    G.AddEdge(6, 8, 6);
    ghost var s13 := G.State();
    G.AddEdge(7, 8, 7);
    ghost var s14 := G.State();
    PrimInsertsA(s0, s1);
    PrimInsertsB(s1, s2, s3);
    PrimInsertsC(s3, s4, s5);
    PrimInsertsD(s5, s6, s7);
    PrimInsertsE(s7, s8, s9);
    PrimInsertsF(s9, s10, s11);
    PrimInsertsG(s11, s12, s13);
    PrimInsertsH(s13, s14);
  }

  /** The order in which `prim(prim_example, 0)` can add the nodes, ties broken towards b (1) and c (2). */
  function PrimOrder(): seq<int>
  {
    [0, 1, 2, 8, 5, 6, 7, 3, 4]
  }

  /** The parent arc of each node of PrimOrder(), as an adjacency-list position. */
  function PrimParents(): map<int, Arc>
  {
    map[1 := Arc(0, 0), 2 := Arc(1, 1), 8 := Arc(2, 3), 5 := Arc(2, 2), 6 := Arc(5, 3), 7 := Arc(6, 1), 3 := Arc(2, 1), 4 := Arc(3, 1)]
  }

  /** A bound on the stored arcs leaving `pre` bounds every arc leaving it. */
  lemma CutBound(st: Store, pre: seq<int>, bound: int)
    requires WellFormed(st)
    requires forall x, i :: x in pre && 0 <= x < |st.adjs| && 0 <= i < |st.adjs[x]| && st.adjs[x][i] !in pre ==>
      bound <= st.weights[x][i]
    ensures forall a :: IsArc(st, a) && a.from in pre && Head(st, a) !in pre ==> bound <= ArcWeight(st, a)
  {
  }

  /** The weight of the parent arc of each node of PrimOrder(), 0 for the root. */
  function PrimKeys(): seq<int>
  {
    [0, 4, 8, 2, 4, 2, 1, 7, 9]
  }

  /** The lightest stored arc leaving PrimOrder()[..k], for k in 1..4, weighs PrimKeys()[k]. */
  lemma PrimCutLow(st: Store, k: int)
    requires st == PrimStore() && 1 <= k <= 4
    ensures forall x, i :: x in PrimOrder()[..k] && 0 <= x < 9 && 0 <= i < |st.adjs[x]| && st.adjs[x][i] !in PrimOrder()[..k] ==>
      PrimKeys()[k] <= st.weights[x][i]
  {
    if k == 1 {
      assert PrimOrder()[..k] == [0];
      forall x, i | x in [0] && 0 <= x < 9 && 0 <= i < |st.adjs[x]| && st.adjs[x][i] !in [0]
        ensures 4 <= st.weights[x][i]
      {
        assert x == 0;
        assert i == 0 || i == 1 || i == 2 || i == 3;
      }
    } else if k == 2 {
      assert PrimOrder()[..k] == [0, 1];
      forall x, i | x in [0, 1] && 0 <= x < 9 && 0 <= i < |st.adjs[x]| && st.adjs[x][i] !in [0, 1]
        ensures 8 <= st.weights[x][i]
      {
        assert x == 0 || x == 1;
        assert i == 0 || i == 1 || i == 2 || i == 3;
      }
    } else if k == 3 {
      assert PrimOrder()[..k] == [0, 1, 2];
      forall x, i | x in [0, 1, 2] && 0 <= x < 9 && 0 <= i < |st.adjs[x]| && st.adjs[x][i] !in [0, 1, 2]
        ensures 2 <= st.weights[x][i]
      {
        assert x == 0 || x == 1 || x == 2;
        assert i == 0 || i == 1 || i == 2 || i == 3;
      }
    } else if k == 4 {
      assert PrimOrder()[..k] == [0, 1, 2, 8];
      forall x, i | x in [0, 1, 2, 8] && 0 <= x < 9 && 0 <= i < |st.adjs[x]| && st.adjs[x][i] !in [0, 1, 2, 8]
        ensures 4 <= st.weights[x][i]
      {
        assert x == 0 || x == 1 || x == 2 || x == 8;
        assert i == 0 || i == 1 || i == 2 || i == 3;
      }
    }
  }

  /** The lightest stored arc leaving PrimOrder()[..k], for k in 5..8, weighs PrimKeys()[k]. */
  lemma PrimCutHigh(st: Store, k: int)
    requires st == PrimStore() && 5 <= k <= 8
    ensures forall x, i :: x in PrimOrder()[..k] && 0 <= x < 9 && 0 <= i < |st.adjs[x]| && st.adjs[x][i] !in PrimOrder()[..k] ==>
      PrimKeys()[k] <= st.weights[x][i]
  {
    if k == 5 {
      assert PrimOrder()[..k] == [0, 1, 2, 8, 5];
      forall x, i | x in [0, 1, 2, 8, 5] && 0 <= x < 9 && 0 <= i < |st.adjs[x]| && st.adjs[x][i] !in [0, 1, 2, 8, 5]
        ensures 2 <= st.weights[x][i]
      {
        assert x == 0 || x == 1 || x == 2 || x == 8 || x == 5;
        assert i == 0 || i == 1 || i == 2 || i == 3;
      }
    } else if k == 6 {
      assert PrimOrder()[..k] == [0, 1, 2, 8, 5, 6];
      forall x, i | x in [0, 1, 2, 8, 5, 6] && 0 <= x < 9 && 0 <= i < |st.adjs[x]| && st.adjs[x][i] !in [0, 1, 2, 8, 5, 6]
        ensures 1 <= st.weights[x][i]
      {
        assert x == 0 || x == 1 || x == 2 || x == 8 || x == 5 || x == 6;
        assert i == 0 || i == 1 || i == 2 || i == 3;
      }
    } else if k == 7 {
      assert PrimOrder()[..k] == [0, 1, 2, 8, 5, 6, 7];
      forall x, i | x in [0, 1, 2, 8, 5, 6, 7] && 0 <= x < 9 && 0 <= i < |st.adjs[x]| && st.adjs[x][i] !in [0, 1, 2, 8, 5, 6, 7]
        ensures 7 <= st.weights[x][i]
      {
        assert x == 0 || x == 1 || x == 2 || x == 8 || x == 5 || x == 6 || x == 7;
        assert i == 0 || i == 1 || i == 2 || i == 3;
      }
    } else if k == 8 {
      assert PrimOrder()[..k] == [0, 1, 2, 8, 5, 6, 7, 3];
      forall x, i | x in [0, 1, 2, 8, 5, 6, 7, 3] && 0 <= x < 9 && 0 <= i < |st.adjs[x]| && st.adjs[x][i] !in [0, 1, 2, 8, 5, 6, 7, 3]
        ensures 9 <= st.weights[x][i]
      {
        assert x == 0 || x == 1 || x == 2 || x == 8 || x == 5 || x == 6 || x == 7 || x == 3;
        assert i == 0 || i == 1 || i == 2 || i == 3;
      }
    }
  }

  /** Adding node order[k] by its parent arc of weight w, the lightest arc leaving order[..k], keeps a greedy tree. */
  lemma GrowStep(st: Store, order: seq<int>, par: map<int, Arc>, k: int, w: int)
    requires WellFormed(st) && 1 <= k < |order|
    requires Tree(st, 0, order[..k], par) && Greedy(st, order[..k], par)
    requires var v := order[k];
      && InRange(st, v) && v !in order[..k] && v in par && IsArc(st, par[v]) && Head(st, par[v]) == v
      && par[v].from in order[..k] && ArcWeight(st, par[v]) == w
    requires forall x, i :: x in order[..k] && 0 <= x < |st.adjs| && 0 <= i < |st.adjs[x]| && st.adjs[x][i] !in order[..k] ==>
      w <= st.weights[x][i]
    ensures Tree(st, 0, order[..k + 1], par) && Greedy(st, order[..k + 1], par)
    ensures TreeWeight(st, order[..k + 1], par) == TreeWeight(st, order[..k], par) + w
  {
    assert order[..k + 1] == order[..k] + [order[k]];
    CutBound(st, order[..k], w);
    TreeAppend(st, 0, order[..k], par, order[k]);
    GreedyAppend(st, order[..k], par, order[k]);
  }

  /** Node PrimOrder()[k] is new at step k and hangs by an arc of weight PrimKeys()[k] from an earlier node. */
  lemma PrimParentAt(st: Store, k: int)
    requires WellFormed(st) && st == PrimStore() && 1 <= k < 9
    ensures var v, par := PrimOrder()[k], PrimParents();
      && InRange(st, v) && v !in PrimOrder()[..k] && v in par && IsArc(st, par[v]) && Head(st, par[v]) == v
      && par[v].from in PrimOrder()[..k] && ArcWeight(st, par[v]) == PrimKeys()[k]
  {
    if k == 1 {
      assert PrimOrder()[..k] == [0];
    } else if k == 2 {
      assert PrimOrder()[..k] == [0, 1];
    } else if k == 3 {
      assert PrimOrder()[..k] == [0, 1, 2];
    } else if k == 4 {
      assert PrimOrder()[..k] == [0, 1, 2, 8];
    } else if k == 5 {
      assert PrimOrder()[..k] == [0, 1, 2, 8, 5];
    } else if k == 6 {
      assert PrimOrder()[..k] == [0, 1, 2, 8, 5, 6];
    } else if k == 7 {
      assert PrimOrder()[..k] == [0, 1, 2, 8, 5, 6, 7];
    } else if k == 8 {
      assert PrimOrder()[..k] == [0, 1, 2, 8, 5, 6, 7, 3];
    }
  }

  /** Step k of the Prim example: node PrimOrder()[k] joins by an arc of weight PrimKeys()[k]. */
  lemma PrimGrow(st: Store, k: int)
    requires WellFormed(st) && st == PrimStore() && 1 <= k < 9
    requires Tree(st, 0, PrimOrder()[..k], PrimParents()) && Greedy(st, PrimOrder()[..k], PrimParents())
    ensures Tree(st, 0, PrimOrder()[..k + 1], PrimParents()) && Greedy(st, PrimOrder()[..k + 1], PrimParents())
    ensures TreeWeight(st, PrimOrder()[..k + 1], PrimParents()) == TreeWeight(st, PrimOrder()[..k], PrimParents()) + PrimKeys()[k]
  {
    if k < 5 {
      PrimCutLow(st, k);
    } else {
      PrimCutHigh(st, k);
    }
    PrimParentAt(st, k);
    GrowStep(st, PrimOrder(), PrimParents(), k, PrimKeys()[k]);
  }

  /** The Prim example's tree starts as its root alone. */
  lemma PrimRoot(st: Store)
    requires WellFormed(st) && st == PrimStore()
    ensures Tree(st, 0, PrimOrder()[..1], PrimParents()) && Greedy(st, PrimOrder()[..1], PrimParents())
    ensures TreeWeight(st, PrimOrder()[..1], PrimParents()) == 0
  {
    TreeAppend(st, 0, [], PrimParents(), 0);
    GreedyAppend(st, [], PrimParents(), 0);
    assert [] + [0] == PrimOrder()[..1];
  }

  /** The first five nodes of the Prim example's tree, of weight 4 + 8 + 2 + 4. */
  lemma PrimTreeLow(st: Store)
    requires WellFormed(st) && st == PrimStore()
    ensures Tree(st, 0, PrimOrder()[..5], PrimParents()) && Greedy(st, PrimOrder()[..5], PrimParents())
    ensures TreeWeight(st, PrimOrder()[..5], PrimParents()) == 18
  {
    PrimRoot(st);
    PrimGrow(st, 1);
    PrimGrow(st, 2);
    PrimGrow(st, 3);
    PrimGrow(st, 4);
  }

  /** The first eight nodes of the Prim example's tree, of weight 18 + 2 + 1 + 7. */
  lemma PrimTreeHigh(st: Store)
    requires WellFormed(st) && st == PrimStore()
    ensures Tree(st, 0, PrimOrder()[..8], PrimParents()) && Greedy(st, PrimOrder()[..8], PrimParents())
    ensures TreeWeight(st, PrimOrder()[..8], PrimParents()) == 28
  {
    PrimTreeLow(st);
    PrimGrow(st, 5);
    PrimGrow(st, 6);
    PrimGrow(st, 7);
  }

  /** A tree grown through all of `order` is the tree of `order`. */
  lemma WholeTree(st: Store, order: seq<int>, par: map<int, Arc>)
    requires Tree(st, 0, order[..|order|], par) && Greedy(st, order[..|order|], par)
    ensures Tree(st, 0, order, par) && Greedy(st, order, par)
    ensures TreeWeight(st, order, par) == TreeWeight(st, order[..|order|], par)
  {
    assert order[..|order|] == order;
  }

  /** PrimOrder() and PrimParents() form a greedy tree of weight 37. */
  lemma PrimTree(st: Store)
    requires WellFormed(st) && st == PrimStore()
    ensures Tree(st, 0, PrimOrder(), PrimParents()) && Greedy(st, PrimOrder(), PrimParents())
    ensures TreeWeight(st, PrimOrder(), PrimParents()) == 37
  {
    PrimTreeHigh(st);
    PrimGrow(st, 8);
    WholeTree(st, PrimOrder(), PrimParents());
  }

  /** The Prim example's minimum spanning weight from node 0 is 37. */
  lemma PrimMinimum(st: Store)
    requires WellFormed(st) && Symmetric(st) && st == PrimStore()
    ensures IsMinimumSpanningWeight(st, 0, 37)
  {
    var order, par := PrimOrder(), PrimParents();
    PrimTree(st);
    forall v ensures v in order <==> Reachable(st, 0, v) {
      if v in order {
        TreeReachable(st, 0, order, par, v);
      }
      if Reachable(st, 0, v) {
        var p :| IsWalk(st, p, 0, v);
        WalkEnds(st, p, 0, v);
        assert v == 0 || v == 1 || v == 2 || v == 3 || v == 4 || v == 5 || v == 6 || v == 7 || v == 8;
      }
    }
    PrimWeights(st);
    PrimMinimal(st, 0, order, par, 37);
  }

  /** Every weight of the Prim example lies in 1..14. */
  lemma PrimWeights(st: Store)
    requires st == PrimStore()
    ensures WeightsWithin(st, 1, 14)
  {
    forall u, i | 0 <= u < |st.weights| && 0 <= i < |st.weights[u]| ensures 1 <= st.weights[u][i] <= 14 {
      assert u == 0 || u == 1 || u == 2 || u == 3 || u == 4 || u == 5 || u == 6 || u == 7 || u == 8;
      assert i == 0 || i == 1 || i == 2 || i == 3;
    }
  }

  /** `prim(prim_example, 0)` with either queue returns 37. */
  method PrimExample() returns (withHeap: int, withArray: int)
    ensures withHeap == 37 && withArray == 37
  {
    var G := PrimGraph();
    PrimWeights(G.State());
    withHeap, withArray := PrimBothQueues(G, 0);
    PrimMinimum(G.State());
    MinimumSpanningWeightUnique(G.State(), 0, withHeap, 37);
  }
}
