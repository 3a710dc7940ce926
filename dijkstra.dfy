/**
 * `dijkstra(G, s, t, heap)` of src/main.cc: single-source shortest paths
 * with a distance array `d`, INF = 0x3F3F3F3F for "not reached yet", and the
 * priority queue chosen by `heap`.  The result is the distance from s to t,
 * capped at INF.
 */
module ShortestPaths {
  import opened PriorityQueue
  import opened Graphs
  import opened Walks
  import opened Queues

  const INF: int := 0x3F3F3F3F
  const INT_MAX: int := 0x7FFF_FFFF

  /** Largest weight for which `d[u] + weight[i]` cannot overflow a 32-bit int when d[u] < INF. */
  const MAX_SAFE_WEIGHT: int := INT_MAX - INF + 1

  function Min(a: int, b: int): int
  {
    if a <= b then a else b
  }

  /**
   * What `dijkstra` returns: no walk from s to t is cheaper than r, and r is
   * the cost of some walk unless it is INF.
   */
  ghost predicate IsCappedDistance(st: Store, s: int, t: int, r: int)
  {
    && 0 <= r <= INF
    && (forall p :: IsWalk(st, p, s, t) ==> r <= Cost(st, p))
    && (r < INF ==> exists p :: IsWalk(st, p, s, t) && Cost(st, p) == r)
  }

  /** The capped distance is unique, so any two correct runs agree. */
  lemma CappedDistanceUnique(st: Store, s: int, t: int, r1: int, r2: int)
    requires IsCappedDistance(st, s, t, r1) && IsCappedDistance(st, s, t, r2)
    ensures r1 == r2
  {
    if r1 < INF {
      var p1 :| IsWalk(st, p1, s, t) && Cost(st, p1) == r1;
      assert r2 <= r1;
    }
    if r2 < INF {
      var p2 :| IsWalk(st, p2, s, t) && Cost(st, p2) == r2;
      assert r1 <= r2;
    }
  }

  /** An unreachable target, or one whose every walk costs INF or more, gives INF. */
  lemma UnreachableGivesInf(st: Store, s: int, t: int, r: int)
    requires IsCappedDistance(st, s, t, r)
    requires forall p :: IsWalk(st, p, s, t) ==> Cost(st, p) >= INF
    ensures r == INF
  {
  }

  // ---------------------------------------------------------------------------
  // Loop invariant, on the values of d, of the queue and of the extracted set

  ghost predicate Bounded(st: Store, s: int, ds: seq<int>)
  {
    && |ds| == |st.adjs|
    && 0 <= s < |ds| && ds[s] == 0
    && forall v :: 0 <= v < |ds| ==> 0 <= ds[v] <= INF
  }

  /** Some walk from s to v costs exactly c. */
  ghost predicate Reached(st: Store, s: int, v: int, c: int)
  {
    exists p :: IsWalk(st, p, s, v) && Cost(st, p) == c
  }

  /** Every finite d[v] is the cost of some walk from s to v. */
  ghost predicate Witnessed(st: Store, s: int, ds: seq<int>)
  {
    forall v {:trigger Reached(st, s, v, ds[v])} :: 0 <= v < |ds| && ds[v] < INF ==> Reached(st, s, v, ds[v])
  }

  /** The queue holds exactly the reached, not yet extracted nodes, keyed by d. */
  ghost predicate Mirrors(ds: seq<int>, done: set<int>, M: map<int, int>)
  {
    && (forall k :: k in M ==> 0 <= k < |ds| && k !in done && ds[k] < INF && M[k] == ds[k])
    && (forall k :: 0 <= k < |ds| && ds[k] < INF && k !in done ==> k in M)
  }

  /** Extracted nodes are no farther than m, and every node not yet extracted is at least m away. */
  ghost predicate Settled(ds: seq<int>, done: set<int>, m: int)
  {
    && (forall x :: x in done ==> 0 <= x < |ds| && ds[x] <= m)
    && (forall y :: 0 <= y < |ds| && y !in done ==> m <= ds[y])
  }

  /** The first k arcs out of x are relaxed. */
  ghost predicate Relaxed(st: Store, ds: seq<int>, x: int, k: int)
    requires WellFormed(st) && |ds| == |st.adjs| && InRange(st, x) && 0 <= k <= |st.adjs[x]|
  {
    forall j :: 0 <= j < k ==> ds[st.adjs[x][j]] <= ds[x] + st.weights[x][j]
  }

  /**
   * The invariant of both loops; m is the key last extracted, `u` the node
   * being scanned (outside the inner loop, a value not in `done`) and `k` the
   * number of its arcs relaxed.
   */
  ghost predicate Inv(st: Store, s: int, ds: seq<int>, done: set<int>, M: map<int, int>, m: int, u: int, k: int)
  {
    && WellFormed(st)
    && Bounded(st, s, ds)
    && Witnessed(st, s, ds)
    && Mirrors(ds, done, M)
    && Settled(ds, done, m)
    && (forall x :: x in done && x != u ==> Relaxed(st, ds, x, |st.adjs[x]|))
    && (u in done ==> 0 <= k <= |st.adjs[u]| && ds[u] == m < INF && Relaxed(st, ds, u, k))
  }

  /** No distance in ds' is above the one in ds: `d[v]` only ever decreases. */
  ghost predicate NoneRaised(ds': seq<int>, ds: seq<int>)
  {
    |ds'| == |ds| && forall x :: 0 <= x < |ds| ==> ds'[x] <= ds[x]
  }

  lemma NoneRaisedTrans(a: seq<int>, b: seq<int>, c: seq<int>)
    requires NoneRaised(a, b) && NoneRaised(b, c)
    ensures NoneRaised(a, c)
  {
  }

  lemma Start(st: Store, s: int, ds: seq<int>)
    requires WellFormed(st) && InRange(st, s)
    requires ds == seq(|st.adjs|, v => if v == s then 0 else INF)
    ensures Inv(st, s, ds, {}, map[s := 0], 0, -1, 0)
  {
    assert IsWalk(st, [], s, s) && Cost(st, []) == 0;
    assert Reached(st, s, s, ds[s]);
  }

  /** Extracting a minimum u keeps the invariant with u added to `done`. */
  lemma ExtractStep(st: Store, s: int, ds: seq<int>, done: set<int>, M: map<int, int>, m: int, u: int)
    requires Inv(st, s, ds, done, M, m, -1, 0)
    requires u in M && forall k :: k in M ==> M[u] <= M[k]
    ensures u !in done && 0 <= u < |ds|
    ensures Inv(st, s, ds, done + {u}, M - {u}, ds[u], u, 0)
  {
    forall y | 0 <= y < |ds| && y !in done + {u}
      ensures ds[u] <= ds[y]
    {
      if y in M {
        assert M[u] <= M[y];
      }
    }
  }

  /** The arc (u, i) whose relaxation comes next: its head is a node and d[u] + w fits an int. */
  lemma ArcFits(st: Store, s: int, ds: seq<int>, done: set<int>, M: map<int, int>, m: int, u: int, i: int)
    requires WeightsWithin(st, 0, MAX_SAFE_WEIGHT)
    requires Inv(st, s, ds, done, M, m, u, i)
    requires u in done && i < |st.adjs[u]|
    ensures 0 <= st.adjs[u][i] < |ds|
    ensures 0 <= ds[u] + st.weights[u][i] <= INT_MAX
  {
  }

  /** An arc that does not improve d[v] already satisfies the relaxation bound. */
  lemma RelaxSkip(st: Store, s: int, ds: seq<int>, done: set<int>, M: map<int, int>, m: int, u: int, i: int)
    requires Inv(st, s, ds, done, M, m, u, i)
    requires u in done && i < |st.adjs[u]|
    requires ds[st.adjs[u][i]] <= ds[u] + st.weights[u][i]
    ensures Inv(st, s, ds, done, M, m, u, i + 1)
  {
    assert Relaxed(st, ds, u, i);
  }

  /**
   * An arc that improves d[v]: v has not been extracted, its queue value only
   * decreases, and lowering d[v] and its queue entry keeps the invariant.
   */
  lemma RelaxApply(st: Store, s: int, ds: seq<int>, done: set<int>, M: map<int, int>, m: int, u: int, i: int)
    requires WeightsWithin(st, 0, MAX_SAFE_WEIGHT)
    requires Inv(st, s, ds, done, M, m, u, i)
    requires u in done && i < |st.adjs[u]|
    requires ds[st.adjs[u][i]] > ds[u] + st.weights[u][i]
    ensures var v := st.adjs[u][i];
      var nd := ds[u] + st.weights[u][i];
      && v !in done && (v in M ==> nd <= M[v])
      && Inv(st, s, ds[v := nd], done, M[v := nd], m, u, i + 1)
  {
    var v := st.adjs[u][i];
    var nd := ds[u] + st.weights[u][i];
    WitnessExtends(st, s, ds, u, i);
    RelaxedAfterLowering(st, s, ds, done, M, m, u, i);
  }

  lemma WitnessExtends(st: Store, s: int, ds: seq<int>, u: int, i: int)
    requires WellFormed(st) && Bounded(st, s, ds) && Witnessed(st, s, ds)
    requires InRange(st, u) && 0 <= i < |st.adjs[u]| && ds[u] < INF
    requires ds[u] + st.weights[u][i] < ds[st.adjs[u][i]]
    ensures Witnessed(st, s, ds[st.adjs[u][i] := ds[u] + st.weights[u][i]])
  {
    var v := st.adjs[u][i];
    var nd := ds[u] + st.weights[u][i];
    assert Reached(st, s, u, ds[u]);
    var p :| IsWalk(st, p, s, u) && Cost(st, p) == ds[u];
    Extend(st, p, s, u, i);
    assert Reached(st, s, v, nd);
  }

  lemma RelaxedAfterLowering(st: Store, s: int, ds: seq<int>, done: set<int>, M: map<int, int>, m: int, u: int, i: int)
    requires WeightsWithin(st, 0, MAX_SAFE_WEIGHT)
    requires Inv(st, s, ds, done, M, m, u, i)
    requires u in done && i < |st.adjs[u]|
    requires ds[st.adjs[u][i]] > ds[u] + st.weights[u][i]
    ensures var ds' := ds[st.adjs[u][i] := ds[u] + st.weights[u][i]];
      && (forall x :: x in done && x != u ==> Relaxed(st, ds', x, |st.adjs[x]|))
      && Relaxed(st, ds', u, i + 1)
  {
    var v := st.adjs[u][i];
    var ds' := ds[v := ds[u] + st.weights[u][i]];
    assert v !in done;
    forall x | x in done && x != u
      ensures Relaxed(st, ds', x, |st.adjs[x]|)
    {
      assert Relaxed(st, ds, x, |st.adjs[x]|);
    }
    assert Relaxed(st, ds, u, i);
  }

  /** All arcs of u relaxed: u joins the fully relaxed nodes. */
  lemma FinishNode(st: Store, s: int, ds: seq<int>, done: set<int>, M: map<int, int>, m: int, u: int)
    requires 0 <= u < |st.adjs| && u in done
    requires Inv(st, s, ds, done, M, m, u, |st.adjs[u]|)
    ensures Inv(st, s, ds, done, M, m, -1, 0)
  {
  }

  /**
   * The crossing argument: if every extracted node is relaxed and no farther
   * than m, and every other node is at least m away, then every walk from s
   * to v costs at least min(d[v], m).
   */
  lemma {:induction false} WalkBound(st: Store, s: int, ds: seq<int>, done: set<int>, m: int,
                                     p: seq<Arc>, v: int)
    requires WellFormed(st) && WeightsWithin(st, 0, MAX_SAFE_WEIGHT)
    requires Bounded(st, s, ds) && Settled(ds, done, m)
    requires forall x :: x in done ==> Relaxed(st, ds, x, |st.adjs[x]|)
    requires IsWalk(st, p, s, v)
    ensures Min(ds[v], m) <= Cost(st, p)
  {
    if |p| > 0 {
      var a := p[|p| - 1];
      var q := p[..|p| - 1];
      WalkBound(st, s, ds, done, m, q, a.from);
      if a.from in done {
        assert Relaxed(st, ds, a.from, |st.adjs[a.from]|);
      }
    }
  }

  /** With the queue empty every walk from s to t costs at least d[t]. */
  lemma Final(st: Store, s: int, ds: seq<int>, done: set<int>, m: int, t: int)
    requires WeightsWithin(st, 0, MAX_SAFE_WEIGHT)
    requires Inv(st, s, ds, done, map[], m, -1, 0) && 0 <= t < |ds|
    ensures IsCappedDistance(st, s, t, ds[t])
  {
    forall p | IsWalk(st, p, s, t) ensures ds[t] <= Cost(st, p) {
      WalkBound(st, s, ds, done, INF, p, t);
    }
    if ds[t] < INF {
      assert Reached(st, s, t, ds[t]);
    }
  }

  // ---------------------------------------------------------------------------

  method Dijkstra(G: Graph, s: int, t: int, heap: bool) returns (r: int)
    requires G.Valid()
    requires 0 <= s < G.GetV() && 0 <= t < G.GetV()
    requires WeightsWithin(G.State(), 0, MAX_SAFE_WEIGHT)
    ensures IsCappedDistance(G.State(), s, t, r)
  {
    var n := G.GetV();
    var d, Q := Setup(n, s, heap);
    ghost var st := G.State();
    ghost var ds := d[..];
    Start(st, s, ds);
    ghost var done, ds', m := Grow(G, d, Q, st, s, ds);
    Final(st, s, ds', done, m, t);
    r := d[t];
  }

  /** The outer loop of `dijkstra`: visit nodes until the queue is empty; no distance ever rises. */
  method Grow(G: Graph, d: array<int>, Q: Queue, ghost st: Store, ghost s: int, ghost ds: seq<int>)
    returns (ghost done: set<int>, ghost ds': seq<int>, ghost m: int)
    requires G.Valid() && G.State() == st && WeightsWithin(st, 0, MAX_SAFE_WEIGHT)
    requires Q.Valid() && d !in Q.Repr && G !in Q.Repr && Q.maxKey == d.Length && Q.Ordered()
    requires d[..] == ds && Inv(st, s, ds, {}, Q.Model(), 0, -1, 0)
    modifies d, Q.Repr
    ensures d[..] == ds' && NoneRaised(ds', ds)
    ensures Inv(st, s, ds', done, map[], m, -1, 0)
  {
    done, ds', m := {}, ds, 0;
    ghost var M := Q.Model();
    while Q.Size() != 0
      invariant Q.Valid() && d !in Q.Repr && G !in Q.Repr && Q.maxKey == d.Length && Q.Ordered()
      invariant d[..] == ds' && Q.Model() == M && NoneRaised(ds', ds)
      invariant Inv(st, s, ds', done, M, m, -1, 0)
      decreases Nodes(d.Length) - done
    {
      var u;
      ghost var before := ds';
      u, done, ds', M, m := Visit(G, d, Q, st, s, done, ds', M, m);
      NoneRaisedTrans(ds', before, ds);
    }
  }

  /** One pass of the outer loop: extract the closest node and relax its arcs. */
  method Visit(G: Graph, d: array<int>, Q: Queue, ghost st: Store, ghost s: int, ghost done: set<int>,
               ghost ds: seq<int>, ghost M: map<int, int>, ghost m: int)
    returns (u: int, ghost done': set<int>, ghost ds': seq<int>, ghost M': map<int, int>, ghost m': int)
    requires G.Valid() && G.State() == st && WeightsWithin(st, 0, MAX_SAFE_WEIGHT)
    requires Q.Valid() && d !in Q.Repr && G !in Q.Repr && Q.maxKey == d.Length && Q.Ordered()
    requires d[..] == ds && Q.Model() == M && |M| > 0
    requires Inv(st, s, ds, done, M, m, -1, 0)
    modifies d, Q.Repr
    ensures Q.Valid() && Q.Ordered()
    ensures d[..] == ds' && Q.Model() == M'
    ensures Inv(st, s, ds', done', M', m', -1, 0)
    ensures 0 <= u < |ds| && u !in done && done' == done + {u} && m' == ds[u]
    ensures NoneRaised(ds', ds)
    ensures Nodes(d.Length) - done' < Nodes(d.Length) - done
  {
    u := Take(d, Q, st, s, done, ds, M, m);
    assert u in Nodes(d.Length) - done;
    done', m' := done + {u}, ds[u];
    ds', M' := ScanArcs(G, d, Q, u, st, s, done', m', ds, M - {u});
    FinishNode(st, s, ds', done', M', m', u);
  }

  /** The set-up of `dijkstra`: every distance INF, then the source at 0 and queued. */
  method Setup(n: int, s: int, heap: bool) returns (d: array<int>, Q: Queue)
    requires 0 <= s < n
    ensures fresh(d) && fresh(Q) && fresh(Q.Repr) && d !in Q.Repr
    ensures d[..] == seq(n, v => if v == s then 0 else INF)
    ensures Q.Valid() && Q.Ordered() && Q.maxKey == n && Q.Model() == map[s := 0]
  {
    d := new int[n];
    for i := 0 to n
      invariant forall j :: 0 <= j < i ==> d[j] == INF
    {
      d[i] := INF;
    }
    Q := new Queue(heap, n);
    d[s] := 0;
    Q.InsertKey(KeyValue(s, d[s]));
  }

  /** `min = Q->extract_min(); u = min.key;` */
  method Take(d: array<int>, Q: Queue, ghost st: Store, ghost s: int, ghost done: set<int>,
              ghost ds: seq<int>, ghost M: map<int, int>, ghost m: int) returns (u: int)
    requires Q.Valid() && d !in Q.Repr && Q.maxKey == d.Length && Q.Ordered()
    requires d[..] == ds && Q.Model() == M && |M| > 0
    requires Inv(st, s, ds, done, M, m, -1, 0)
    modifies Q.Repr
    ensures Q.Valid() && Q.Ordered()
    ensures d[..] == ds && Q.Model() == M - {u}
    ensures u !in done && 0 <= u < |ds|
    ensures Inv(st, s, ds, done + {u}, M - {u}, ds[u], u, 0)
  {
    var min := Q.ExtractMin();
    u := min.key;
    ExtractStep(st, s, ds, done, M, m, u);
  }

  /** The inner loop of `dijkstra`: relax every arc out of the extracted node u. */
  method ScanArcs(G: Graph, d: array<int>, Q: Queue, u: int, ghost st: Store, ghost s: int,
                  ghost done: set<int>, ghost m: int, ghost ds: seq<int>, ghost M: map<int, int>)
    returns (ghost ds': seq<int>, ghost M': map<int, int>)
    requires G.Valid() && G.State() == st && WeightsWithin(st, 0, MAX_SAFE_WEIGHT)
    requires Q.Valid() && d !in Q.Repr && G !in Q.Repr && Q.maxKey == d.Length && Q.Ordered()
    requires d[..] == ds && Q.Model() == M
    requires 0 <= u < |st.adjs| && u in done
    requires Inv(st, s, ds, done, M, m, u, 0)
    modifies d, Q.Repr
    ensures Q.Valid() && Q.Ordered()
    ensures d[..] == ds' && Q.Model() == M'
    ensures NoneRaised(ds', ds)
    ensures Inv(st, s, ds', done, M', m, u, |st.adjs[u]|)
  {
    ds', M' := ds, M;
    var adjs := G.GetAdjs(u);
    var weight := G.GetWeights(u);
    for i := 0 to G.GetDegree(u)
      invariant adjs == st.adjs[u] && weight == st.weights[u]
      invariant G.State() == st
      invariant Q.Valid() && Q.Ordered()
      invariant d[..] == ds' && Q.Model() == M'
      invariant NoneRaised(ds', ds)
      invariant Inv(st, s, ds', done, M', m, u, i)
    {
      ds', M' := Relax(d, Q, u, adjs[i], weight[i], st, s, done, m, i, ds', M');
    }
  }

  /** One iteration of the inner loop: `if (d[v] > d[u] + w) { d[v] = d[u] + w; decrease_key }`. */
  method Relax(d: array<int>, Q: Queue, u: int, v: int, w: int,
               ghost st: Store, ghost s: int, ghost done: set<int>, ghost m: int, ghost i: int,
               ghost ds: seq<int>, ghost M: map<int, int>)
    returns (ghost ds': seq<int>, ghost M': map<int, int>)
    requires WeightsWithin(st, 0, MAX_SAFE_WEIGHT)
    requires Q.Valid() && d !in Q.Repr && Q.maxKey == d.Length && Q.Ordered()
    requires d[..] == ds && Q.Model() == M
    requires Inv(st, s, ds, done, M, m, u, i)
    requires u in done && 0 <= i < |st.adjs[u]| && v == st.adjs[u][i] && w == st.weights[u][i]
    modifies d, Q.Repr
    ensures Q.Valid() && Q.Ordered()
    ensures d[..] == ds' && Q.Model() == M'
    ensures 0 <= u < |ds| && 0 <= v < |ds|
    ensures if ds[v] > ds[u] + w
            then ds' == ds[v := ds[u] + w] && M' == M[v := ds[u] + w]
            else ds' == ds && M' == M
    ensures Inv(st, s, ds', done, M', m, u, i + 1)
  {
    ArcFits(st, s, ds, done, M, m, u, i);
    ds', M' := ds, M;
    if d[v] > d[u] + w {
      RelaxApply(st, s, ds, done, M, m, u, i);
      d[v] := d[u] + w;
      assert d[..] == ds[v := ds[u] + w] && Q.Model() == M;
      Q.DecreaseKey(KeyValue(v, d[v]));
      ds', M' := ds[v := ds[u] + w], M[v := ds[u] + w];
    } else {
      RelaxSkip(st, s, ds, done, M, m, u, i);
    }
  }

  /** The two calls of the Cormen example: heap and unordered array agree on every input. */
  method DijkstraBothQueues(G: Graph, s: int, t: int) returns (withHeap: int, withArray: int)
    requires G.Valid()
    requires 0 <= s < G.GetV() && 0 <= t < G.GetV()
    requires WeightsWithin(G.State(), 0, MAX_SAFE_WEIGHT)
    ensures withHeap == withArray
    ensures IsCappedDistance(G.State(), s, t, withHeap)
  {
    withHeap := Dijkstra(G, s, t, true);
    withArray := Dijkstra(G, s, t, false);
    CappedDistanceUnique(G.State(), s, t, withHeap, withArray);
  }
}
