/**
 * The methods of `prim`, proved against the invariant of MinimumSpanningTrees.
 */
module PrimSearch {
  import opened PriorityQueue
  import opened Graphs
  import opened Walks
  import opened Queues
  import opened MinimumSpanningTrees
  import opened SpanningTrees

  method Prim(G: Graph, r: int, heap: bool) returns (mst: int, ghost order: seq<int>, ghost par: map<int, Arc>)
    requires G.Valid()
    requires 0 <= r < G.GetV()
    requires WeightsBelowInf(G.State())
    ensures PrimResult(G.State(), r, order, par, mst)
    ensures !G.isDigraph && WeightsWithin(G.State(), 0, INF) ==> IsMinimumSpanningWeight(G.State(), r, mst)
  {
    var d, inTree, Q := Setup(G.GetV(), r, heap);
    ghost var st := G.State();
    ghost var ds, ins := d[..], inTree[..];
    Start(st, r, ds, ins);
    mst, order, par, ds, ins := Grow(G, d, inTree, Q, st, r, ds, ins);
    Final(st, r, ds, ins, order, par, mst);
    if !G.isDigraph && WeightsWithin(st, 0, INF) {
      PrimMinimal(st, r, order, par, mst);
    }
  }

  /** The outer loop of `prim`: visit nodes until the queue is empty. */
  method Grow(G: Graph, d: array<int>, inTree: array<bool>, Q: Queue, ghost st: Store, ghost r: int,
              ghost ds: seq<int>, ghost ins: seq<bool>)
    returns (mst: int, ghost order: seq<int>, ghost par: map<int, Arc>, ghost ds': seq<int>, ghost ins': seq<bool>)
    requires G.Valid() && G.State() == st && WeightsBelowInf(st)
    requires Q.Valid() && d !in Q.Repr && inTree !in Q.Repr && G !in Q.Repr && Q.maxKey == d.Length && Q.Ordered()
    requires d[..] == ds && inTree[..] == ins
    requires Inv(st, r, ds, ins, Q.Model(), [], map[], 0, -1, 0)
    modifies d, inTree, Q.Repr
    ensures Inv(st, r, ds', ins', map[], order, par, mst, -1, 0)
  {
    ds', ins' := ds, ins;
    ghost var M := Q.Model();
    mst := 0;
    order, par := [], map[];
    while Q.Size() != 0
      invariant Q.Valid() && d !in Q.Repr && inTree !in Q.Repr && G !in Q.Repr && Q.maxKey == d.Length
      invariant Q.Ordered()
      invariant d[..] == ds' && inTree[..] == ins' && Q.Model() == M
      invariant Inv(st, r, ds', ins', M, order, par, mst, -1, 0)
      decreases Unmarked(ins')
    {
      var u;
      u, mst, order, par, ds', ins', M := Visit(G, d, inTree, Q, st, r, mst, order, par, ds', ins', M);
    }
  }

  /** On an undirected graph with non-negative weights both queues give the same weight. */
  method PrimBothQueues(G: Graph, r: int) returns (withHeap: int, withArray: int)
    requires G.Valid() && !G.isDigraph
    requires 0 <= r < G.GetV()
    requires WeightsWithin(G.State(), 0, INF - 1)
    ensures withHeap == withArray
    ensures IsMinimumSpanningWeight(G.State(), r, withHeap)
  {
    ghost var order, par;
    withHeap, order, par := Prim(G, r, true);
    withArray, order, par := Prim(G, r, false);
    MinimumSpanningWeightUnique(G.State(), r, withHeap, withArray);
  }

  /** No key in ds' is above the one in ds, and the keys of tree nodes are untouched. */
  ghost predicate KeysLowered(ds': seq<int>, ds: seq<int>, ins: seq<bool>)
  {
    && |ds'| == |ds|
    && (forall x :: 0 <= x < |ds| ==> ds'[x] <= ds[x])
    && (forall x :: 0 <= x < |ds| && x < |ins| && ins[x] ==> ds'[x] == ds[x])
  }

  lemma KeysLowerOne(ds: seq<int>, ins: seq<bool>, v: int, w: int)
    requires 0 <= v < |ds| && v < |ins| && !ins[v] && w <= ds[v]
    ensures KeysLowered(ds[v := w], ds, ins)
  {
  }

  lemma KeysLoweredTrans(a: seq<int>, b: seq<int>, c: seq<int>, ins: seq<bool>)
    requires KeysLowered(a, b, ins) && KeysLowered(b, c, ins)
    ensures KeysLowered(a, c, ins)
  {
  }

  /** One pass of the outer loop: extract the closest node, add its key to the weight, scan its arcs. */
  method Visit(G: Graph, d: array<int>, inTree: array<bool>, Q: Queue, ghost st: Store, ghost r: int, mst: int,
               ghost order: seq<int>, ghost par: map<int, Arc>,
               ghost ds: seq<int>, ghost ins: seq<bool>, ghost M: map<int, int>)
    returns (u: int, mst': int, ghost order': seq<int>, ghost par': map<int, Arc>,
             ghost ds': seq<int>, ghost ins': seq<bool>, ghost M': map<int, int>)
    requires G.Valid() && G.State() == st && WeightsBelowInf(st)
    requires Q.Valid() && d !in Q.Repr && inTree !in Q.Repr && G !in Q.Repr && Q.maxKey == d.Length && Q.Ordered()
    requires d[..] == ds && inTree[..] == ins && Q.Model() == M && |M| > 0
    requires Inv(st, r, ds, ins, M, order, par, mst, -1, 0)
    modifies d, inTree, Q.Repr
    ensures Q.Valid() && Q.Ordered()
    ensures d[..] == ds' && inTree[..] == ins' && Q.Model() == M'
    ensures Inv(st, r, ds', ins', M', order', par', mst', -1, 0)
    ensures 0 <= u < |ins| == |ds| && !ins[u]
    ensures order' == order + [u] && ins' == ins[u := true] && mst' == mst + ds[u]
    ensures KeysLowered(ds', ds, ins')
    ensures Unmarked(ins') < Unmarked(ins)
  {
    u, mst' := Take(d, inTree, Q, st, r, mst, order, par, ds, ins, M);
    MarkDecreases(ins, u);
    order' := order + [u];
    ins' := ins[u := true];
    par', ds', M' := ScanArcs(G, d, inTree, Q, u, st, r, order', par, mst', ds, ins', M - {u});
    FinishNode(st, r, ds', ins', M', order', par', mst', u);
  }

  /** `min = Q->extract_min(); u = min.key; mst_weight += d[u]; in[u] = true;` */
  method Take(d: array<int>, inTree: array<bool>, Q: Queue, ghost st: Store, ghost r: int, mst: int,
              ghost order: seq<int>, ghost par: map<int, Arc>,
              ghost ds: seq<int>, ghost ins: seq<bool>, ghost M: map<int, int>)
    returns (u: int, mst': int)
    requires WeightsBelowInf(st)
    requires Q.Valid() && d !in Q.Repr && inTree !in Q.Repr && Q.maxKey == d.Length && Q.Ordered()
    requires d[..] == ds && inTree[..] == ins && Q.Model() == M && |M| > 0
    requires Inv(st, r, ds, ins, M, order, par, mst, -1, 0)
    modifies inTree, Q.Repr
    ensures u !in order && 0 <= u < |ins| && !ins[u]
    ensures Q.Valid() && Q.Ordered()
    ensures d[..] == ds && inTree[..] == ins[u := true] && Q.Model() == M - {u}
    ensures mst' == mst + ds[u]
    ensures Inv(st, r, ds, ins[u := true], M - {u}, order + [u], par, mst + ds[u], u, 0)
  {
    var min := Q.ExtractMin();
    u := min.key;
    ExtractStep(st, r, ds, ins, M, order, par, mst, u);
    mst' := mst + d[u];
    inTree[u] := true;
  }

  /** The set-up of `prim`: every key INF and no node in the tree, then the root queued with key 0. */
  method Setup(n: int, r: int, heap: bool) returns (d: array<int>, inTree: array<bool>, Q: Queue)
    requires 0 <= r < n
    ensures fresh(d) && fresh(inTree) && fresh(Q) && fresh(Q.Repr)
    ensures d[..] == seq(n, v => if v == r then 0 else INF) && inTree[..] == seq(n, v => false)
    ensures Q.Valid() && Q.Ordered() && Q.maxKey == n && Q.Model() == map[r := 0]
    ensures d !in Q.Repr && inTree !in Q.Repr
  {
    d := new int[n];
    inTree := new bool[n];
    for i := 0 to n
      invariant forall j :: 0 <= j < i ==> d[j] == INF && !inTree[j]
    {
      d[i], inTree[i] := INF, false;
    }
    Q := new Queue(heap, n);
    d[r] := 0;
    Q.InsertKey(KeyValue(r, d[r]));
  }

  /** The inner loop of `prim`: scan the arcs of the node u just added. */
  method ScanArcs(G: Graph, d: array<int>, inTree: array<bool>, Q: Queue, u: int, ghost st: Store, ghost r: int,
                  ghost order: seq<int>, ghost par: map<int, Arc>, ghost mst: int,
                  ghost ds: seq<int>, ghost ins: seq<bool>, ghost M: map<int, int>)
    returns (ghost par': map<int, Arc>, ghost ds': seq<int>, ghost M': map<int, int>)
    requires G.Valid() && G.State() == st && WeightsBelowInf(st)
    requires Q.Valid() && d !in Q.Repr && inTree !in Q.Repr && G !in Q.Repr && Q.maxKey == d.Length && Q.Ordered()
    requires d[..] == ds && inTree[..] == ins && Q.Model() == M
    requires 0 <= u < |ins| && ins[u]
    requires Inv(st, r, ds, ins, M, order, par, mst, u, 0)
    modifies d, Q.Repr
    ensures Q.Valid() && Q.Ordered()
    ensures d[..] == ds' && inTree[..] == ins && Q.Model() == M'
    ensures KeysLowered(ds', ds, ins)
    ensures Inv(st, r, ds', ins, M', order, par', mst, u, |st.adjs[u]|)
  {
    par', ds', M' := par, ds, M;
    var adjs := G.GetAdjs(u);
    var weight := G.GetWeights(u);
    for i := 0 to G.GetDegree(u)
      invariant adjs == st.adjs[u] && weight == st.weights[u]
      invariant G.State() == st
      invariant Q.Valid() && Q.Ordered()
      invariant d[..] == ds' && inTree[..] == ins && Q.Model() == M'
      invariant KeysLowered(ds', ds, ins)
      invariant Inv(st, r, ds', ins, M', order, par', mst, u, i)
    {
      ghost var before := ds';
      par', ds', M' := Relax(d, inTree, Q, u, adjs[i], weight[i], st, r, order, par', mst, i, ds', ins, M');
      KeysLoweredTrans(ds', before, ds, ins);
    }
  }

  /** One iteration: `if (not in[v] && d[v] > w) { d[v] = w; decrease_key }`. */
  method Relax(d: array<int>, inTree: array<bool>, Q: Queue, u: int, v: int, w: int, ghost st: Store, ghost r: int,
               ghost order: seq<int>, ghost par: map<int, Arc>, ghost mst: int, ghost i: int,
               ghost ds: seq<int>, ghost ins: seq<bool>, ghost M: map<int, int>)
    returns (ghost par': map<int, Arc>, ghost ds': seq<int>, ghost M': map<int, int>)
    requires WeightsBelowInf(st)
    requires Q.Valid() && d !in Q.Repr && inTree !in Q.Repr && Q.maxKey == d.Length && Q.Ordered()
    requires d[..] == ds && inTree[..] == ins && Q.Model() == M
    requires Inv(st, r, ds, ins, M, order, par, mst, u, i)
    requires 0 <= u < |ins| && ins[u] && 0 <= i < |st.adjs[u]| && v == st.adjs[u][i] && w == st.weights[u][i]
    modifies d, Q.Repr
    ensures Q.Valid() && Q.Ordered()
    ensures d[..] == ds' && inTree[..] == ins && Q.Model() == M'
    ensures 0 <= v < |ds| == |ins|
    ensures if !ins[v] && ds[v] > w
            then ds' == ds[v := w] && M' == M[v := w] && par' == par[v := Arc(u, i)]
            else ds' == ds && M' == M && par' == par
    ensures KeysLowered(ds', ds, ins)
    ensures Inv(st, r, ds', ins, M', order, par', mst, u, i + 1)
  {
    ArcInRange(st, r, ds, ins, M, order, par, mst, u, i);
    par', ds', M' := par, ds, M;
    if !inTree[v] && d[v] > w {
      RelaxApply(st, r, ds, ins, M, order, par, mst, u, i);
      d[v] := w;
      assert d[..] == ds[v := w] && Q.Model() == M;
      Q.DecreaseKey(KeyValue(v, d[v]));
      par', ds', M' := par[v := Arc(u, i)], ds[v := w], M[v := w];
      KeysLowerOne(ds, ins, v, w);
    } else {
      RelaxSkip(st, r, ds, ins, M, order, par, mst, u, i);
    }
  }
}
