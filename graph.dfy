/**
 * `Graph<int>` (include/graph.h, src/graph.cc): adjacency lists with
 * index-aligned weight lists, and an optional dense n-by-n weight matrix.
 * The matrix is "present" exactly when it has as many rows as there are
 * nodes, which is the test the source makes before every use of it.
 */
module Graphs {

  datatype Edge = Edge(u: int, v: int, w: int)

  /** The three containers of a graph, as a value. */
  datatype Store = Store(mat: seq<seq<int>>, adjs: seq<seq<int>>, weights: seq<seq<int>>)

  function Max0(n: int): nat
  {
    if n < 0 then 0 else n
  }

  /** The node ids 0..n-1, as a set. */
  function Nodes(n: int): (r: set<int>)
    ensures forall x :: x in r <==> 0 <= x < n
  {
    if n <= 0 then {} else Nodes(n - 1) + {n - 1}
  }

  predicate InRange(st: Store, v: int)
  {
    0 <= v < |st.adjs|
  }

  predicate HasMatrix(st: Store)
  {
    |st.mat| == |st.adjs|
  }

  /** Shapes: aligned lists, neighbours in range, a square matrix or none. */
  ghost predicate WellFormed(st: Store)
  {
    && |st.weights| == |st.adjs|
    && (forall u :: 0 <= u < |st.adjs| ==> |st.weights[u]| == |st.adjs[u]|)
    && (forall u, i :: 0 <= u < |st.adjs| && 0 <= i < |st.adjs[u]| ==> 0 <= st.adjs[u][i] < |st.adjs|)
    && (|st.mat| == 0 || HasMatrix(st))
    && (HasMatrix(st) ==> forall u :: 0 <= u < |st.mat| ==> |st.mat[u]| == |st.adjs|)
  }

  /** Weight of the first occurrence of v in adj, or -1. */
  function FirstWeight(adj: seq<int>, ws: seq<int>, v: int): int
    requires |adj| == |ws|
  {
    if |adj| == 0 then -1
    else if adj[0] == v then ws[0]
    else FirstWeight(adj[1..], ws[1..], v)
  }

  /** Weight of the last occurrence of v in adj, or 0: what the matrix cell holds. */
  function LastWeight(adj: seq<int>, ws: seq<int>, v: int): int
    requires |adj| == |ws|
  {
    if |adj| == 0 then 0
    else if adj[|adj| - 1] == v then ws[|ws| - 1]
    else LastWeight(adj[..|adj| - 1], ws[..|ws| - 1], v)
  }

  /** The matrix, when present, holds the last weight written for each ordered pair. */
  ghost predicate MatrixMirrors(st: Store)
    requires WellFormed(st)
  {
    HasMatrix(st) ==>
      forall u, v :: 0 <= u < |st.adjs| && 0 <= v < |st.adjs| ==>
        st.mat[u][v] == LastWeight(st.adjs[u], st.weights[u], v)
  }

  /** Number of stored arcs u -> v of weight w. */
  function Multiplicity(adj: seq<int>, ws: seq<int>, v: int, w: int): nat
    requires |adj| == |ws|
  {
    if |adj| == 0 then 0
    else Multiplicity(adj[..|adj| - 1], ws[..|ws| - 1], v, w)
         + (if adj[|adj| - 1] == v && ws[|ws| - 1] == w then 1 else 0)
  }

  /** Undirected storage: every arc has a mirror arc of the same weight, with multiplicity. */
  ghost predicate Symmetric(st: Store)
    requires WellFormed(st)
  {
    forall u, v, w :: 0 <= u < |st.adjs| && 0 <= v < |st.adjs| ==>
      Multiplicity(st.adjs[u], st.weights[u], v, w) == Multiplicity(st.adjs[v], st.weights[v], u, w)
  }

  function Push(lists: seq<seq<int>>, u: int, x: int): (r: seq<seq<int>>)
    requires 0 <= u < |lists|
    ensures |r| == |lists| && r[u] == lists[u] + [x]
    ensures forall y :: 0 <= y < |lists| && y != u ==> r[y] == lists[y]
  {
    lists[u := lists[u] + [x]]
  }

  function SetCell(mat: seq<seq<int>>, u: int, v: int, w: int): (r: seq<seq<int>>)
    requires 0 <= u < |mat| && 0 <= v < |mat[u]|
    ensures |r| == |mat| && |r[u]| == |mat[u]| && r[u][v] == w
    ensures forall y :: 0 <= y < |mat[u]| && y != v ==> r[u][y] == mat[u][y]
    ensures forall x :: 0 <= x < |mat| && x != u ==> r[x] == mat[x]
  {
    mat[u := mat[u][v := w]]
  }

  /** The graph `Graph(n, matrix, ...)` builds before inserting any edge. */
  function Empty(n: int, matrix: bool): Store
  {
    Store(if matrix then seq(Max0(n), _ => seq(Max0(n), _ => 0)) else [],
          seq(Max0(n), _ => []),
          seq(Max0(n), _ => []))
  }

  /** What `add_edge(u, v, w)` does to the three containers. */
  function Insert(st: Store, u: int, v: int, w: int, digraph: bool): (r: Store)
    requires WellFormed(st)
    ensures WellFormed(r) && |r.adjs| == |st.adjs| && HasMatrix(r) == HasMatrix(st)
  {
    if !(InRange(st, u) && InRange(st, v)) then st
    else
      var adjs := Push(st.adjs, u, v);
      var weights := Push(st.weights, u, w);
      var mat := if HasMatrix(st) then SetCell(st.mat, u, v, w) else st.mat;
      if digraph then Store(mat, adjs, weights)
      else
        Store(if HasMatrix(st) then SetCell(mat, v, u, w) else mat,
              Push(adjs, v, u),
              Push(weights, v, w))
  }

  /** The batch constructor: the edges inserted in order. */
  function Build(st: Store, edges: seq<Edge>, digraph: bool): (r: Store)
    requires WellFormed(st)
    ensures WellFormed(r) && |r.adjs| == |st.adjs| && HasMatrix(r) == HasMatrix(st)
  {
    if |edges| == 0 then st
    else
      var e := edges[|edges| - 1];
      Insert(Build(st, edges[..|edges| - 1], digraph), e.u, e.v, e.w, digraph)
  }

  /** `has_edge(u, v)`: the matrix cell is positive, or v is a listed neighbour of u. */
  function HasEdgeOf(st: Store, u: int, v: int): bool
    requires WellFormed(st)
  {
    InRange(st, u) && InRange(st, v) &&
    if HasMatrix(st) then st.mat[u][v] > 0 else v in st.adjs[u]
  }

  /** `weight(u, v)`: the matrix cell, or the first listed weight, or -1. */
  function WeightOf(st: Store, u: int, v: int): int
    requires WellFormed(st)
  {
    if !(InRange(st, u) && InRange(st, v)) then -1
    else if HasMatrix(st) then st.mat[u][v]
    else FirstWeight(st.adjs[u], st.weights[u], v)
  }

  /** The edges emitted for node u from its first i list entries. */
  function ArcsFrom(st: Store, u: int, i: int, digraph: bool): seq<Edge>
    requires WellFormed(st) && InRange(st, u) && 0 <= i <= |st.adjs[u]|
  {
    if i == 0 then []
    else
      ArcsFrom(st, u, i - 1, digraph) +
      (if digraph || u <= st.adjs[u][i - 1] then [Edge(u, st.adjs[u][i - 1], st.weights[u][i - 1])] else [])
  }

  /** `get_edges()` over the first k nodes, node by node in insertion order. */
  function EdgeList(st: Store, k: int, digraph: bool): seq<Edge>
    requires WellFormed(st) && 0 <= k <= |st.adjs|
  {
    if k == 0 then [] else EdgeList(st, k - 1, digraph) + ArcsFrom(st, k - 1, |st.adjs[k - 1]|, digraph)
  }

  // ---------------------------------------------------------------------------
  // Properties of the value-level operations

  /** The empty graph has n nodes, empty lists and, if asked for, an all-zero n-by-n matrix. */
  lemma EmptyShape(n: int, matrix: bool)
    ensures WellFormed(Empty(n, matrix)) && MatrixMirrors(Empty(n, matrix))
    ensures |Empty(n, matrix).adjs| == Max0(n)
    ensures forall u :: 0 <= u < Max0(n) ==> Empty(n, matrix).adjs[u] == [] && Empty(n, matrix).weights[u] == []
    ensures matrix ==> (HasMatrix(Empty(n, matrix)) &&
              forall u, v :: 0 <= u < Max0(n) && 0 <= v < Max0(n) ==> Empty(n, matrix).mat[u][v] == 0)
    ensures Symmetric(Empty(n, matrix))
  {
  }

  /** FirstWeight is the weight at the first occurrence, -1 when there is none. */
  lemma {:induction false} FirstWeightIsFirstMatch(adj: seq<int>, ws: seq<int>, v: int, i: int)
    requires |adj| == |ws|
    requires 0 <= i < |adj| && adj[i] == v && v !in adj[..i]
    ensures FirstWeight(adj, ws, v) == ws[i]
  {
    if i > 0 {
      assert adj[0] in adj[..i];
      assert adj[1..][..i - 1] == adj[..i][1..];
      FirstWeightIsFirstMatch(adj[1..], ws[1..], v, i - 1);
    }
  }

  lemma {:induction false} FirstWeightAbsent(adj: seq<int>, ws: seq<int>, v: int)
    requires |adj| == |ws| && v !in adj
    ensures FirstWeight(adj, ws, v) == -1
  {
    if |adj| > 0 {
      assert adj[0] in adj;
      FirstWeightAbsent(adj[1..], ws[1..], v);
    }
  }

  /** LastWeight is the weight at the last occurrence, 0 when there is none. */
  lemma {:induction false} LastWeightIsLastMatch(adj: seq<int>, ws: seq<int>, v: int, i: int)
    requires |adj| == |ws|
    requires 0 <= i < |adj| && adj[i] == v && v !in adj[i + 1..]
    ensures LastWeight(adj, ws, v) == ws[i]
  {
    var n := |adj| - 1;
    if i < n {
      assert adj[n] in adj[i + 1..];
      assert adj[..n][i + 1..] == adj[i + 1..n];
      assert adj[i + 1..] == adj[i + 1..n] + [adj[n]];
      LastWeightIsLastMatch(adj[..n], ws[..n], v, i);
    }
  }

  lemma {:induction false} LastWeightAbsent(adj: seq<int>, ws: seq<int>, v: int)
    requires |adj| == |ws| && v !in adj
    ensures LastWeight(adj, ws, v) == 0
  {
    if |adj| > 0 {
      var n := |adj| - 1;
      assert adj[n] in adj;
      assert forall x :: x in adj[..n] ==> x in adj;
      LastWeightAbsent(adj[..n], ws[..n], v);
    }
  }

  lemma LastWeightAppend(adj: seq<int>, ws: seq<int>, x: int, w: int, v: int)
    requires |adj| == |ws|
    ensures LastWeight(adj + [x], ws + [w], v) == if x == v then w else LastWeight(adj, ws, v)
  {
    assert (adj + [x])[..|adj|] == adj && (ws + [w])[..|ws|] == ws;
  }

  lemma {:induction false} FirstWeightAppend(adj: seq<int>, ws: seq<int>, x: int, w: int, v: int)
    requires |adj| == |ws|
    ensures FirstWeight(adj + [x], ws + [w], v) == if v in adj then FirstWeight(adj, ws, v) else if x == v then w else -1
  {
    if |adj| == 0 {
      assert (adj + [x])[1..] == [];
    } else if adj[0] != v {
      assert (adj + [x])[1..] == adj[1..] + [x] && (ws + [w])[1..] == ws[1..] + [w];
      assert v in adj <==> v in adj[1..] by {
        assert adj == [adj[0]] + adj[1..];
      }
      FirstWeightAppend(adj[1..], ws[1..], x, w, v);
    }
  }

  lemma MultiplicityAppend(adj: seq<int>, ws: seq<int>, x: int, y: int, v: int, w: int)
    requires |adj| == |ws|
    ensures Multiplicity(adj + [x], ws + [y], v, w) ==
            Multiplicity(adj, ws, v, w) + (if x == v && y == w then 1 else 0)
  {
    assert (adj + [x])[..|adj|] == adj && (ws + [y])[..|ws|] == ws;
  }

  /**
   * `add_edge` appends v and w to u's lists and, for an undirected graph, u
   * and w to v's lists; nothing else changes.  Out of range it changes nothing.
   */
  lemma InsertAppends(st: Store, u: int, v: int, w: int, digraph: bool, x: int)
    requires WellFormed(st) && InRange(st, x)
    ensures !(InRange(st, u) && InRange(st, v)) ==> Insert(st, u, v, w, digraph) == st
    ensures InRange(st, u) && InRange(st, v) ==>
      var r := Insert(st, u, v, w, digraph);
      && r.adjs[x] == st.adjs[x] + (if x == u then [v] else []) + (if !digraph && x == v then [u] else [])
      && r.weights[x] == st.weights[x] + (if x == u then [w] else []) + (if !digraph && x == v then [w] else [])
  {
  }

  /** Insertion keeps the matrix equal to the last weight written for every pair. */
  lemma InsertMirrors(st: Store, u: int, v: int, w: int, digraph: bool)
    requires WellFormed(st) && MatrixMirrors(st)
    ensures MatrixMirrors(Insert(st, u, v, w, digraph))
  {
    var r := Insert(st, u, v, w, digraph);
    if InRange(st, u) && InRange(st, v) && HasMatrix(st) {
      forall x, y | 0 <= x < |r.adjs| && 0 <= y < |r.adjs|
        ensures r.mat[x][y] == LastWeight(r.adjs[x], r.weights[x], y)
      {
        InsertAppends(st, u, v, w, digraph, x);
        if x == u && !digraph && x == v {
          LastWeightAppend(st.adjs[x], st.weights[x], v, w, y);
          LastWeightAppend(st.adjs[x] + [v], st.weights[x] + [w], u, w, y);
        } else if x == u {
          LastWeightAppend(st.adjs[x], st.weights[x], v, w, y);
        } else if !digraph && x == v {
          LastWeightAppend(st.adjs[x], st.weights[x], u, w, y);
        }
      }
    }
  }

  /** Insertion into an undirected graph keeps its storage symmetric. */
  lemma InsertSymmetric(st: Store, u: int, v: int, w: int)
    requires WellFormed(st) && Symmetric(st)
    ensures Symmetric(Insert(st, u, v, w, false))
  {
    var r := Insert(st, u, v, w, false);
    if InRange(st, u) && InRange(st, v) {
      forall a, b, c | 0 <= a < |r.adjs| && 0 <= b < |r.adjs|
        ensures Multiplicity(r.adjs[a], r.weights[a], b, c) == Multiplicity(r.adjs[b], r.weights[b], a, c)
      {
        MultiplicityChange(st, u, v, w, a, b, c);
        MultiplicityChange(st, u, v, w, b, a, c);
      }
    }
  }

  lemma MultiplicityChange(st: Store, u: int, v: int, w: int, a: int, b: int, c: int)
    requires WellFormed(st) && InRange(st, u) && InRange(st, v) && InRange(st, a)
    ensures
      var r := Insert(st, u, v, w, false);
      Multiplicity(r.adjs[a], r.weights[a], b, c) ==
        Multiplicity(st.adjs[a], st.weights[a], b, c)
        + (if a == u && b == v && c == w then 1 else 0)
        + (if a == v && b == u && c == w then 1 else 0)
  {
    InsertAppends(st, u, v, w, false, a);
    if a == u && a == v {
      MultiplicityAppend(st.adjs[a], st.weights[a], v, w, b, c);
      MultiplicityAppend(st.adjs[a] + [v], st.weights[a] + [w], u, w, b, c);
    } else if a == u {
      MultiplicityAppend(st.adjs[a], st.weights[a], v, w, b, c);
    } else if a == v {
      MultiplicityAppend(st.adjs[a], st.weights[a], u, w, b, c);
    }
  }

  /**
   * In matrix mode the queries read the last weight written: `weight` is 0
   * for a missing edge, and `has_edge` reports an edge of weight <= 0 as absent.
   */
  lemma MatrixQueries(st: Store, u: int, v: int)
    requires WellFormed(st) && MatrixMirrors(st) && HasMatrix(st)
    requires InRange(st, u) && InRange(st, v)
    ensures WeightOf(st, u, v) == LastWeight(st.adjs[u], st.weights[u], v)
    ensures v !in st.adjs[u] ==> WeightOf(st, u, v) == 0 && !HasEdgeOf(st, u, v)
    ensures HasEdgeOf(st, u, v) <==> v in st.adjs[u] && LastWeight(st.adjs[u], st.weights[u], v) > 0
  {
    if v !in st.adjs[u] {
      LastWeightAbsent(st.adjs[u], st.weights[u], v);
    }
  }

  /**
   * After `add_edge(u, v, w)` with both ends in range: in list mode the edge
   * is reported and `weight` still gives the first weight stored for the
   * pair; in matrix mode `weight` gives w and `has_edge` holds iff w > 0.
   * An undirected graph answers the same for (v, u).
   */
  lemma QueriesAfterInsert(st: Store, u: int, v: int, w: int, digraph: bool)
    requires WellFormed(st) && MatrixMirrors(st)
    requires InRange(st, u) && InRange(st, v)
    ensures var r := Insert(st, u, v, w, digraph);
      && (!HasMatrix(st) ==> HasEdgeOf(r, u, v))
      && (!HasMatrix(st) ==> WeightOf(r, u, v) == if v in st.adjs[u] then WeightOf(st, u, v) else w)
      && (HasMatrix(st) ==> WeightOf(r, u, v) == w && (HasEdgeOf(r, u, v) <==> w > 0))
      && (!digraph && !HasMatrix(st) ==> HasEdgeOf(r, v, u))
      && (!digraph && !HasMatrix(st) && u != v ==>
            WeightOf(r, v, u) == if u in st.adjs[v] then WeightOf(st, v, u) else w)
      && (!digraph && HasMatrix(st) ==> WeightOf(r, v, u) == w && (HasEdgeOf(r, v, u) <==> w > 0))
  {
    var r := Insert(st, u, v, w, digraph);
    InsertAppends(st, u, v, w, digraph, u);
    InsertAppends(st, u, v, w, digraph, v);
    if !HasMatrix(st) {
      if !digraph && u == v {
        FirstWeightAppend(st.adjs[u], st.weights[u], v, w, v);
        FirstWeightAppend(st.adjs[u] + [v], st.weights[u] + [w], u, w, v);
      } else {
        FirstWeightAppend(st.adjs[u], st.weights[u], v, w, v);
        if !digraph {
          FirstWeightAppend(st.adjs[v], st.weights[v], u, w, u);
        }
      }
    }
  }

  /** In a digraph, `add_edge(u, v, w)` with u != v leaves the answers for (v, u) unchanged. */
  lemma DirectedInsertIsOneWay(st: Store, u: int, v: int, w: int)
    requires WellFormed(st) && MatrixMirrors(st)
    requires u != v
    ensures HasEdgeOf(Insert(st, u, v, w, true), v, u) == HasEdgeOf(st, v, u)
    ensures WeightOf(Insert(st, u, v, w, true), v, u) == WeightOf(st, v, u)
  {
    if InRange(st, u) && InRange(st, v) {
      InsertAppends(st, u, v, w, true, v);
    }
  }

  lemma {:induction false} ArcsFromMembers(st: Store, u: int, i: int, digraph: bool, e: Edge)
    requires WellFormed(st) && InRange(st, u) && 0 <= i <= |st.adjs[u]|
    ensures e in ArcsFrom(st, u, i, digraph) <==>
      e.u == u && (digraph || u <= e.v) &&
      exists j :: 0 <= j < i && st.adjs[u][j] == e.v && st.weights[u][j] == e.w
  {
    if i > 0 {
      ArcsFromMembers(st, u, i - 1, digraph, e);
    }
  }

  /**
   * `get_edges()` lists exactly the stored arcs (u, Adjs[u][j], Weights[u][j]),
   * restricted to u <= Adjs[u][j] for an undirected graph.
   */
  lemma {:induction false} EdgeListMembers(st: Store, k: int, digraph: bool, e: Edge)
    requires WellFormed(st) && 0 <= k <= |st.adjs|
    ensures e in EdgeList(st, k, digraph) <==>
      0 <= e.u < k && (digraph || e.u <= e.v) &&
      exists j :: 0 <= j < |st.adjs[e.u]| && st.adjs[e.u][j] == e.v && st.weights[e.u][j] == e.w
  {
    if k > 0 {
      EdgeListMembers(st, k - 1, digraph, e);
      ArcsFromMembers(st, k - 1, |st.adjs[k - 1]|, digraph, e);
    }
  }

  lemma {:induction false} BuildMirrors(st: Store, edges: seq<Edge>, digraph: bool)
    requires WellFormed(st) && MatrixMirrors(st)
    ensures MatrixMirrors(Build(st, edges, digraph))
  {
    if |edges| > 0 {
      var e := edges[|edges| - 1];
      BuildMirrors(st, edges[..|edges| - 1], digraph);
      InsertMirrors(Build(st, edges[..|edges| - 1], digraph), e.u, e.v, e.w, digraph);
    }
  }

  lemma {:induction false} BuildSymmetric(st: Store, edges: seq<Edge>)
    requires WellFormed(st) && Symmetric(st)
    ensures Symmetric(Build(st, edges, false))
  {
    if |edges| > 0 {
      var e := edges[|edges| - 1];
      BuildSymmetric(st, edges[..|edges| - 1]);
      InsertSymmetric(Build(st, edges[..|edges| - 1], false), e.u, e.v, e.w);
    }
  }

  // ---------------------------------------------------------------------------

  class Graph {
    var Mat: seq<seq<int>>
    var Adjs: seq<seq<int>>
    var Weights: seq<seq<int>>
    const isDigraph: bool

    function State(): Store
      reads this
    {
      Store(Mat, Adjs, Weights)
    }

    ghost predicate Valid()
      reads this
    {
      WellFormed(State()) && MatrixMirrors(State()) && (!isDigraph ==> Symmetric(State()))
    }

    /** `Graph(n, edges, matrix, digraph, weighted)`; the other constructors pass [] and false. */
    constructor (n: int, edges: seq<Edge>, matrix: bool, digraph: bool)
      ensures Valid()
      ensures isDigraph == digraph
      ensures |Adjs| == Max0(n)
      ensures State() == Build(Empty(n, matrix), edges, digraph)
    {
      var adjs: seq<seq<int>> := [];
      for i := 0 to Max0(n)
        invariant adjs == seq(i, _ => [])
      {
        adjs := adjs + [[]];
      }
      var weights: seq<seq<int>> := [];
      for i := 0 to Max0(n)
        invariant weights == seq(i, _ => [])
      {
        weights := weights + [[]];
      }
      var mat: seq<seq<int>> := [];
      if matrix {
        for i := 0 to Max0(n)
          invariant mat == seq(i, _ => seq(Max0(n), _ => 0))
        {
          var row: seq<int> := [];
          for k := 0 to Max0(n)
            invariant row == seq(k, _ => 0)
          {
            row := row + [0];
          }
          mat := mat + [row];
        }
      }
      Adjs, Weights, Mat := adjs, weights, mat;
      isDigraph := digraph;
      new;
      EmptyShape(n, matrix);
      for i := 0 to |edges|
        invariant Valid() && isDigraph == digraph
        invariant State() == Build(Empty(n, matrix), edges[..i], digraph)
      {
        assert edges[..i + 1][..i] == edges[..i];
        AddEdge(edges[i].u, edges[i].v, edges[i].w);
      }
      assert edges[..|edges|] == edges;
    }

    /** `get_V()`: the number of nodes, which every per-node list of a valid graph agrees with. */
    function GetV(): (r: nat)
      reads this
      ensures r == |Adjs|
      ensures Valid() ==> r == |Weights|
    {
      |Adjs|
    }

    /** Out of range: 0; otherwise the number of entries in both aligned lists. */
    function GetDegree(v: int): (r: int)
      reads this
      requires Valid()
      ensures r == |GetAdjs(v)| == |GetWeights(v)|
      ensures !(0 <= v < GetV()) ==> r == 0
    {
      if v < 0 || v >= |Adjs| then 0 else |Adjs[v]|
    }

    /** Out of range: empty; otherwise neighbours in insertion order, each a valid node. */
    function GetAdjs(v: int): (r: seq<int>)
      reads this
      requires Valid()
      ensures !(0 <= v < GetV()) ==> r == []
      ensures 0 <= v < GetV() ==> r == Adjs[v]
      ensures forall x :: x in r ==> 0 <= x < GetV()
    {
      if v < 0 || v >= |Adjs| then [] else Adjs[v]
    }

    /** Out of range: empty; otherwise the weights aligned with `GetAdjs(v)`. */
    function GetWeights(v: int): (r: seq<int>)
      reads this
      requires Valid()
      ensures !(0 <= v < GetV()) ==> r == []
      ensures 0 <= v < GetV() ==> r == Weights[v]
      ensures |r| == |GetAdjs(v)|
    {
      if v < 0 || v >= |Weights| then [] else Weights[v]
    }

    method GetEdges() returns (edges: seq<Edge>)
      requires Valid()
      ensures edges == EdgeList(State(), |Adjs|, isDigraph)
    {
      var size := |Adjs|;
      edges := [];
      for u := 0 to size
        invariant edges == EdgeList(State(), u, isDigraph)
      {
        var degree := |Adjs[u]|;
        for i := 0 to degree
          invariant edges == EdgeList(State(), u, isDigraph) + ArcsFrom(State(), u, i, isDigraph)
        {
          if isDigraph || u <= Adjs[u][i] {
            edges := edges + [Edge(u, Adjs[u][i], Weights[u][i])];
          }
        }
      }
    }

    method HasEdge(u: int, v: int) returns (r: bool)
      requires Valid()
      ensures r == HasEdgeOf(State(), u, v)
    {
      var size := |Adjs|;
      if u < 0 || u >= size || v < 0 || v >= size {
        return false;
      }
      if |Mat| == size {
        return Mat[u][v] > 0;
      }
      var n := GetDegree(u);
      for i := 0 to n
        invariant v !in Adjs[u][..i]
      {
        if Adjs[u][i] == v {
          return true;
        }
      }
      assert Adjs[u][..n] == Adjs[u];
      return false;
    }

    method Weight(u: int, v: int) returns (r: int)
      requires Valid()
      ensures r == WeightOf(State(), u, v)
    {
      var size := |Weights|;
      if u < 0 || u >= size || v < 0 || v >= size {
        return -1;
      }
      if |Mat| == size {
        return Mat[u][v];
      }
      var n := GetDegree(u);
      for i := 0 to n
        invariant v !in Adjs[u][..i]
      {
        if Adjs[u][i] == v {
          FirstWeightIsFirstMatch(Adjs[u], Weights[u], v, i);
          return Weights[u][i];
        }
      }
      assert Adjs[u][..n] == Adjs[u];
      FirstWeightAbsent(Adjs[u], Weights[u], v);
      return -1;
    }

    /** The two-argument overload: weight 0. */
    method AddUnweightedEdge(u: int, v: int)
      requires Valid()
      modifies this
      ensures Valid()
      ensures State() == Insert(old(State()), u, v, 0, isDigraph)
    {
      AddEdge(u, v, 0);
    }

    method AddEdge(u: int, v: int, w: int)
      requires Valid()
      modifies this
      ensures Valid()
      ensures State() == Insert(old(State()), u, v, w, isDigraph)
    {
      var size := |Adjs|;
      if u < 0 || u >= size || v < 0 || v >= size {
        return;
      }
      InsertMirrors(State(), u, v, w, isDigraph);
      if !isDigraph {
        InsertSymmetric(State(), u, v, w);
      }
      Adjs := Adjs[u := Adjs[u] + [v]];
      Weights := Weights[u := Weights[u] + [w]];
      if |Mat| == size {
        Mat := Mat[u := Mat[u][v := w]];
      }
      if !isDigraph {
        Adjs := Adjs[v := Adjs[v] + [u]];
        Weights := Weights[v := Weights[v] + [w]];
        if |Mat| == size {
          Mat := Mat[v := Mat[v][u := w]];
        }
      }
    }
  }
}
