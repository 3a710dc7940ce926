/**
 * `prim(G, r, heap)` of src/main.cc: Prim's algorithm from root r with the
 * key array `d`, the membership array `in` (here `inTree`) and the queue
 * chosen by `heap`.  Besides the returned `mst_weight` the model exposes, as
 * ghost outputs, the extraction order and the arc that last lowered each
 * node's key: the tree whose weight is summed.
 */
module MinimumSpanningTrees {
  import opened Graphs
  import opened Walks

  const INF: int := 0x3F3F3F3F

  /** Every stored weight is below INF, so every stored arc can lower a key. */
  ghost predicate WeightsBelowInf(st: Store)
  {
    forall u, i :: 0 <= u < |st.weights| && 0 <= i < |st.weights[u]| ==> st.weights[u][i] < INF
  }

  ghost function ParWeight(st: Store, par: map<int, Arc>, v: int): int
  {
    if v in par then ArcWeight(st, par[v]) else 0
  }

  /**
   * The tree grown node by node: `order` starts at r, and every later node is
   * new and hangs by its parent arc from a node added before it.
   */
  ghost predicate Tree(st: Store, r: int, order: seq<int>, par: map<int, Arc>)
    decreases |order|
  {
    if |order| == 0 then true
    else if |order| == 1 then order[0] == r && InRange(st, r)
    else
      var pre, u := order[..|order| - 1], order[|order| - 1];
      && Tree(st, r, pre, par) && InRange(st, u) && u !in pre
      && u in par && IsArc(st, par[u]) && Head(st, par[u]) == u && par[u].from in pre
  }

  /** Weight of the tree: the parent arcs of every node after the root. */
  ghost function TreeWeight(st: Store, order: seq<int>, par: map<int, Arc>): int
  {
    PrefixWeight(st, order, par, |order|)
  }

  /** Sum of the parent-arc weights of order[1..k]. */
  ghost function PrefixWeight(st: Store, order: seq<int>, par: map<int, Arc>, k: int): int
    requires k <= |order|
  {
    if k <= 1 then 0 else PrefixWeight(st, order, par, k - 1) + ParWeight(st, par, order[k - 1])
  }

  /**
   * The greedy choice: each node after the root hangs by an arc no heavier
   * than any arc leaving the nodes added before it.
   */
  ghost predicate Greedy(st: Store, order: seq<int>, par: map<int, Arc>)
    decreases |order|
  {
    |order| <= 1 ||
      var pre, u := order[..|order| - 1], order[|order| - 1];
      && Greedy(st, pre, par)
      && forall a :: IsArc(st, a) && a.from in pre && Head(st, a) !in pre ==> ParWeight(st, par, u) <= ArcWeight(st, a)
  }

  /** What `prim` computes, with the tree it summed. */
  ghost predicate PrimResult(st: Store, r: int, order: seq<int>, par: map<int, Arc>, mst: int)
  {
    && |order| > 0
    && Tree(st, r, order, par)
    && Greedy(st, order, par)
    && mst == TreeWeight(st, order, par)
    && (forall v :: v in order <==> Reachable(st, r, v))
  }

  // ---------------------------------------------------------------------------
  // The `in` array

  /** The `in` flags of n nodes once the nodes of `order` have been added. */
  ghost function Flags(order: seq<int>, n: nat): (f: seq<bool>)
    ensures |f| == n
    decreases |order|
  {
    if |order| == 0 then seq(n, v => false)
    else
      var pre, u := order[..|order| - 1], order[|order| - 1];
      if 0 <= u < n then Flags(pre, n)[u := true] else Flags(pre, n)
  }

  lemma {:induction false} FlagsMembers(order: seq<int>, n: nat, v: int)
    requires 0 <= v < n
    ensures Flags(order, n)[v] <==> v in order
    decreases |order|
  {
    if |order| > 0 {
      var pre := order[..|order| - 1];
      FlagsMembers(pre, n, v);
      assert order == pre + [order[|order| - 1]];
    }
  }

  lemma FlagsAppend(order: seq<int>, n: nat, u: int)
    requires 0 <= u < n
    ensures Flags(order + [u], n) == Flags(order, n)[u := true]
  {
    assert (order + [u])[..|order|] == order;
  }

  /** The number of nodes not yet in the tree. */
  ghost function Unmarked(ins: seq<bool>): nat
  {
    if |ins| == 0 then 0 else Unmarked(ins[..|ins| - 1]) + (if ins[|ins| - 1] then 0 else 1)
  }

  lemma {:induction false} MarkDecreases(ins: seq<bool>, u: int)
    requires 0 <= u < |ins| && !ins[u]
    ensures Unmarked(ins[u := true]) < Unmarked(ins)
    decreases |ins|
  {
    var n := |ins|;
    if u == n - 1 {
      assert ins[u := true][..n - 1] == ins[..n - 1];
    } else {
      assert ins[u := true][..n - 1] == ins[..n - 1][u := true];
      MarkDecreases(ins[..n - 1], u);
    }
  }

  // ---------------------------------------------------------------------------
  // Loop invariant

  /** The queue holds exactly the nodes outside the tree with a finite key. */
  ghost predicate Queued(ds: seq<int>, ins: seq<bool>, M: map<int, int>)
    requires |ds| == |ins|
  {
    && (forall v :: v in M ==> 0 <= v < |ds| && !ins[v] && ds[v] < INF && M[v] == ds[v])
    && (forall v :: 0 <= v < |ds| && !ins[v] && ds[v] < INF ==> v in M)
  }

  /** A finite key outside the tree is the weight of an arc from the tree into that node. */
  ghost predicate Fringe(st: Store, r: int, ds: seq<int>, ins: seq<bool>, order: seq<int>, par: map<int, Arc>)
    requires |ds| == |ins| && 0 <= r < |ds|
  {
    && (|order| == 0 ==> ds[r] == 0 && forall v :: 0 <= v < |ds| && v != r ==> ds[v] == INF)
    && (|order| > 0 ==>
          forall v :: 0 <= v < |ds| && !ins[v] && ds[v] < INF ==>
            && v in par && IsArc(st, par[v]) && Head(st, par[v]) == v && ArcWeight(st, par[v]) == ds[v]
            && 0 <= par[v].from < |ins| && ins[par[v].from])
  }

  /** The first k arcs of x bound the keys of their heads outside the tree. */
  ghost predicate LightArcs(st: Store, ds: seq<int>, ins: seq<bool>, x: int, k: int)
    requires WellFormed(st) && |ds| == |st.adjs| && |ins| == |st.adjs|
    requires InRange(st, x) && 0 <= k <= |st.adjs[x]|
  {
    forall j :: 0 <= j < k && !ins[st.adjs[x][j]] ==> ds[st.adjs[x][j]] <= st.weights[x][j]
  }

  /**
   * Between two steps of `prim`: the tree so far is `order` with parent arcs
   * `par` and weight `mst`; the arcs of every tree node are scanned, those of
   * u only up to k.
   */
  ghost predicate Inv(st: Store, r: int, ds: seq<int>, ins: seq<bool>, M: map<int, int>,
                      order: seq<int>, par: map<int, Arc>, mst: int, u: int, k: int)
  {
    && WellFormed(st) && InRange(st, r)
    && |ds| == |st.adjs| && ins == Flags(order, |st.adjs|)
    && (forall v :: 0 <= v < |ds| ==> ds[v] <= INF)
    && Queued(ds, ins, M)
    && Fringe(st, r, ds, ins, order, par)
    && Tree(st, r, order, par)
    && Greedy(st, order, par)
    && mst == TreeWeight(st, order, par)
    && (forall x :: 0 <= x < |ins| && ins[x] && x != u ==> LightArcs(st, ds, ins, x, |st.adjs[x]|))
    && (0 <= u < |ins| && ins[u] ==> 0 <= k <= |st.adjs[u]| && LightArcs(st, ds, ins, u, k))
  }

  lemma Start(st: Store, r: int, ds: seq<int>, ins: seq<bool>)
    requires WellFormed(st) && InRange(st, r)
    requires ds == seq(|st.adjs|, v => if v == r then 0 else INF)
    requires ins == seq(|st.adjs|, v => false)
    ensures Inv(st, r, ds, ins, map[r := 0], [], map[], 0, -1, 0)
  {
    assert ins == Flags([], |st.adjs|);
  }

  /** The tree weight only reads the parent arcs of the nodes in the order. */
  lemma {:induction false} PrefixWeightFrame(st: Store, order: seq<int>, par: map<int, Arc>, par': map<int, Arc>, k: int)
    requires k <= |order|
    requires forall j :: 0 <= j < |order| ==> ParWeight(st, par, order[j]) == ParWeight(st, par', order[j])
    ensures PrefixWeight(st, order, par, k) == PrefixWeight(st, order, par', k)
  {
    if k > 1 {
      PrefixWeightFrame(st, order, par, par', k - 1);
    }
  }

  /** Appending a node leaves the weights of the existing prefixes alone. */
  lemma {:induction false} PrefixWeightAppend(st: Store, order: seq<int>, par: map<int, Arc>, u: int, k: int)
    requires k <= |order|
    ensures PrefixWeight(st, order + [u], par, k) == PrefixWeight(st, order, par, k)
  {
    if k > 1 {
      PrefixWeightAppend(st, order, par, u, k - 1);
    }
  }

  lemma TreeAppend(st: Store, r: int, order: seq<int>, par: map<int, Arc>, u: int)
    requires Tree(st, r, order, par) && InRange(st, u) && u !in order
    requires |order| == 0 ==> u == r
    requires |order| > 0 ==> u in par && IsArc(st, par[u]) && Head(st, par[u]) == u && par[u].from in order
    ensures Tree(st, r, order + [u], par)
    ensures |order| > 0 ==> TreeWeight(st, order + [u], par) == TreeWeight(st, order, par) + ParWeight(st, par, u)
    ensures |order| == 0 ==> TreeWeight(st, order + [u], par) == 0
  {
    assert (order + [u])[..|order|] == order;
    PrefixWeightAppend(st, order, par, u, |order|);
  }

  lemma GreedyAppend(st: Store, order: seq<int>, par: map<int, Arc>, u: int)
    requires Greedy(st, order, par)
    requires forall a :: IsArc(st, a) && a.from in order && Head(st, a) !in order ==> ParWeight(st, par, u) <= ArcWeight(st, a)
    ensures Greedy(st, order + [u], par)
  {
    assert (order + [u])[..|order|] == order;
  }

  /** The extracted node's parent arc is no heavier than any arc leaving the tree. */
  lemma LightestCrossing(st: Store, r: int, ds: seq<int>, ins: seq<bool>, M: map<int, int>,
                         order: seq<int>, par: map<int, Arc>, mst: int, u: int, a: Arc)
    requires WeightsBelowInf(st)
    requires Inv(st, r, ds, ins, M, order, par, mst, -1, 0)
    requires u in M && forall v :: v in M ==> M[u] <= M[v]
    requires IsArc(st, a) && a.from in order && Head(st, a) !in order
    ensures ds[u] <= ArcWeight(st, a)
  {
    var v := Head(st, a);
    FlagsMembers(order, |st.adjs|, a.from);
    FlagsMembers(order, |st.adjs|, v);
    assert LightArcs(st, ds, ins, a.from, |st.adjs[a.from]|);
    assert ds[v] <= ArcWeight(st, a) < INF;
    assert v in M;
  }

  /** Appending the extracted node u: the tree grows by u's parent arc, chosen greedily. */
  lemma ExtendTree(st: Store, r: int, ds: seq<int>, ins: seq<bool>, M: map<int, int>,
                   order: seq<int>, par: map<int, Arc>, mst: int, u: int)
    requires WeightsBelowInf(st)
    requires Inv(st, r, ds, ins, M, order, par, mst, -1, 0)
    requires u in M && forall v :: v in M ==> M[u] <= M[v]
    ensures u !in order && 0 <= u < |ds| && !ins[u] && ds[u] < INF
    ensures Tree(st, r, order + [u], par)
    ensures Greedy(st, order + [u], par)
    ensures mst + ds[u] == TreeWeight(st, order + [u], par)
  {
    FlagsMembers(order, |st.adjs|, u);
    if |order| == 0 {
      assert u == r;
    } else {
      FlagsMembers(order, |st.adjs|, par[u].from);
    }
    TreeAppend(st, r, order, par, u);
    forall a | IsArc(st, a) && a.from in order && Head(st, a) !in order
      ensures ParWeight(st, par, u) <= ArcWeight(st, a)
    {
      LightestCrossing(st, r, ds, ins, M, order, par, mst, u, a);
    }
    GreedyAppend(st, order, par, u);
  }

  lemma Dequeue(ds: seq<int>, ins: seq<bool>, M: map<int, int>, u: int)
    requires |ds| == |ins| && Queued(ds, ins, M) && u in M
    ensures Queued(ds, ins[u := true], M - {u})
  {
  }

  lemma FringeAfterExtract(st: Store, r: int, ds: seq<int>, ins: seq<bool>, order: seq<int>, par: map<int, Arc>, u: int)
    requires |ds| == |ins| && 0 <= r < |ds| && 0 <= u < |ds|
    requires Fringe(st, r, ds, ins, order, par)
    requires |order| == 0 ==> u == r
    ensures Fringe(st, r, ds, ins[u := true], order + [u], par)
  {
  }

  lemma LightAfterExtract(st: Store, ds: seq<int>, ins: seq<bool>, u: int)
    requires WellFormed(st) && |ds| == |st.adjs| && |ins| == |st.adjs| && InRange(st, u)
    requires forall x :: 0 <= x < |ins| && ins[x] ==> LightArcs(st, ds, ins, x, |st.adjs[x]|)
    ensures var ins' := ins[u := true];
      forall x :: 0 <= x < |ins'| && ins'[x] && x != u ==> LightArcs(st, ds, ins', x, |st.adjs[x]|)
  {
    var ins' := ins[u := true];
    forall x | 0 <= x < |ins'| && ins'[x] && x != u
      ensures LightArcs(st, ds, ins', x, |st.adjs[x]|)
    {
      assert LightArcs(st, ds, ins, x, |st.adjs[x]|);
    }
  }

  /** Extraction keeps the invariant, with u in the tree and none of its arcs scanned. */
  lemma ExtractStep(st: Store, r: int, ds: seq<int>, ins: seq<bool>, M: map<int, int>,
                    order: seq<int>, par: map<int, Arc>, mst: int, u: int)
    requires WeightsBelowInf(st)
    requires Inv(st, r, ds, ins, M, order, par, mst, -1, 0)
    requires u in M && forall v :: v in M ==> M[u] <= M[v]
    ensures u !in order && 0 <= u < |ins| && !ins[u]
    ensures Inv(st, r, ds, ins[u := true], M - {u}, order + [u], par, mst + ds[u], u, 0)
  {
    ExtendTree(st, r, ds, ins, M, order, par, mst, u);
    if |order| == 0 {
      assert u == r;
    }
    FlagsAppend(order, |st.adjs|, u);
    Dequeue(ds, ins, M, u);
    FringeAfterExtract(st, r, ds, ins, order, par, u);
    LightAfterExtract(st, ds, ins, u);
  }

  lemma ArcInRange(st: Store, r: int, ds: seq<int>, ins: seq<bool>, M: map<int, int>,
                   order: seq<int>, par: map<int, Arc>, mst: int, u: int, i: int)
    requires Inv(st, r, ds, ins, M, order, par, mst, u, i)
    requires 0 <= u < |ins| && ins[u] && i < |st.adjs[u]|
    ensures 0 <= st.adjs[u][i] < |ds|
  {
  }

  /** An arc into the tree, or one no lighter than the key of its head, changes nothing. */
  lemma RelaxSkip(st: Store, r: int, ds: seq<int>, ins: seq<bool>, M: map<int, int>,
                  order: seq<int>, par: map<int, Arc>, mst: int, u: int, i: int)
    requires Inv(st, r, ds, ins, M, order, par, mst, u, i)
    requires 0 <= u < |ins| && ins[u] && i < |st.adjs[u]|
    requires ins[st.adjs[u][i]] || ds[st.adjs[u][i]] <= st.weights[u][i]
    ensures Inv(st, r, ds, ins, M, order, par, mst, u, i + 1)
  {
    assert LightArcs(st, ds, ins, u, i);
  }

  /** Re-pointing a node outside the tree changes neither the tree nor its weight. */
  lemma ParentFrame(st: Store, r: int, order: seq<int>, par: map<int, Arc>, v: int, a: Arc)
    requires Tree(st, r, order, par) && Greedy(st, order, par) && v !in order
    ensures Tree(st, r, order, par[v := a]) && Greedy(st, order, par[v := a])
    ensures TreeWeight(st, order, par[v := a]) == TreeWeight(st, order, par)
  {
    var par' := par[v := a];
    assert forall k :: 0 <= k < |order| ==> ParWeight(st, par, order[k]) == ParWeight(st, par', order[k]);
    PrefixWeightFrame(st, order, par, par', |order|);
    TreeFrame(st, r, order, par, v, a);
  }

  lemma {:induction false} TreeFrame(st: Store, r: int, order: seq<int>, par: map<int, Arc>, v: int, a: Arc)
    requires Tree(st, r, order, par) && Greedy(st, order, par) && v !in order
    ensures Tree(st, r, order, par[v := a]) && Greedy(st, order, par[v := a])
    decreases |order|
  {
    if |order| > 1 {
      var pre := order[..|order| - 1];
      TreeFrame(st, r, pre, par, v, a);
    }
  }

  /** Lowering one key keeps every bound the scanned arcs put on it. */
  lemma LightLower(st: Store, ds: seq<int>, ins: seq<bool>, x: int, k: int, v: int, w: int)
    requires WellFormed(st) && |ds| == |st.adjs| && |ins| == |st.adjs|
    requires InRange(st, x) && 0 <= k <= |st.adjs[x]| && 0 <= v < |ds| && w <= ds[v]
    requires LightArcs(st, ds, ins, x, k)
    ensures LightArcs(st, ds[v := w], ins, x, k)
  {
  }

  lemma LowerKey(st: Store, r: int, ds: seq<int>, ins: seq<bool>, M: map<int, int>,
                 order: seq<int>, par: map<int, Arc>, u: int, i: int)
    requires WeightsBelowInf(st) && WellFormed(st) && InRange(st, r)
    requires |ds| == |st.adjs| && |ins| == |st.adjs| && (forall v :: 0 <= v < |ds| ==> ds[v] <= INF)
    requires Queued(ds, ins, M) && Fringe(st, r, ds, ins, order, par)
    requires |order| > 0 && InRange(st, u) && ins[u] && 0 <= i < |st.adjs[u]|
    requires !ins[st.adjs[u][i]] && ds[st.adjs[u][i]] > st.weights[u][i]
    ensures var v := st.adjs[u][i];
      var w := st.weights[u][i];
      && Queued(ds[v := w], ins, M[v := w])
      && Fringe(st, r, ds[v := w], ins, order, par[v := Arc(u, i)])
  {
  }

  /** A lighter arc (u, i) into v outside the tree becomes v's key and parent arc. */
  lemma RelaxApply(st: Store, r: int, ds: seq<int>, ins: seq<bool>, M: map<int, int>,
                   order: seq<int>, par: map<int, Arc>, mst: int, u: int, i: int)
    requires WeightsBelowInf(st)
    requires Inv(st, r, ds, ins, M, order, par, mst, u, i)
    requires 0 <= u < |ins| && ins[u] && i < |st.adjs[u]|
    requires !ins[st.adjs[u][i]] && ds[st.adjs[u][i]] > st.weights[u][i]
    ensures var v := st.adjs[u][i];
      var w := st.weights[u][i];
      && (v in M ==> w <= M[v])
      && Inv(st, r, ds[v := w], ins, M[v := w], order, par[v := Arc(u, i)], mst, u, i + 1)
  {
    var v := st.adjs[u][i];
    var w := st.weights[u][i];
    var ds' := ds[v := w];
    FlagsMembers(order, |st.adjs|, u);
    FlagsMembers(order, |st.adjs|, v);
    ParentFrame(st, r, order, par, v, Arc(u, i));
    LowerKey(st, r, ds, ins, M, order, par, u, i);
    forall x | 0 <= x < |ins| && ins[x] && x != u
      ensures LightArcs(st, ds', ins, x, |st.adjs[x]|)
    {
      LightLower(st, ds, ins, x, |st.adjs[x]|, v, w);
    }
    LightLower(st, ds, ins, u, i, v, w);
    assert LightArcs(st, ds', ins, u, i + 1);
  }

  lemma FinishNode(st: Store, r: int, ds: seq<int>, ins: seq<bool>, M: map<int, int>,
                   order: seq<int>, par: map<int, Arc>, mst: int, u: int)
    requires 0 <= u < |ins| == |st.adjs| && ins[u]
    requires Inv(st, r, ds, ins, M, order, par, mst, u, |st.adjs[u]|)
    ensures Inv(st, r, ds, ins, M, order, par, mst, -1, 0)
  {
  }

  /** The tree starts at the root. */
  lemma {:induction false} TreeRoot(st: Store, r: int, order: seq<int>, par: map<int, Arc>)
    requires Tree(st, r, order, par) && |order| > 0
    ensures order[0] == r
    decreases |order|
  {
    if |order| > 1 {
      TreeRoot(st, r, order[..|order| - 1], par);
    }
  }

  /** Every node of the tree is reachable from the root along parent arcs. */
  lemma {:induction false} TreeReachable(st: Store, r: int, order: seq<int>, par: map<int, Arc>, v: int)
    requires WellFormed(st) && Tree(st, r, order, par) && v in order
    ensures Reachable(st, r, v)
    decreases |order|
  {
    var pre, u := order[..|order| - 1], order[|order| - 1];
    if |order| == 1 {
      assert IsWalk(st, [], r, r);
    } else if v in pre {
      TreeReachable(st, r, pre, par, v);
    } else {
      assert v == u;
      var a := par[u];
      TreeReachable(st, r, pre, par, a.from);
      var p :| IsWalk(st, p, r, a.from);
      Extend(st, p, r, a.from, a.index);
    }
  }

  /** With the queue empty no arc leaves the tree, so the tree is the whole component of r. */
  lemma Final(st: Store, r: int, ds: seq<int>, ins: seq<bool>, order: seq<int>, par: map<int, Arc>, mst: int)
    requires WeightsBelowInf(st)
    requires Inv(st, r, ds, ins, map[], order, par, mst, -1, 0)
    ensures PrimResult(st, r, order, par, mst)
  {
    var n := |st.adjs|;
    if |order| == 0 {
      assert false;
    }
    TreeRoot(st, r, order, par);
    var c := set x | x in order;
    forall x, i | x in c && 0 <= x < n && 0 <= i < |st.adjs[x]|
      ensures st.adjs[x][i] in c
    {
      FlagsMembers(order, n, x);
      assert LightArcs(st, ds, ins, x, |st.adjs[x]|);
      FlagsMembers(order, n, st.adjs[x][i]);
    }
    forall v ensures v in order <==> Reachable(st, r, v) {
      if v in order {
        TreeReachable(st, r, order, par, v);
      }
      if Reachable(st, r, v) {
        var p :| IsWalk(st, p, r, v);
        ClosedSetContainsWalks(st, c, p, r, v);
      }
    }
  }
}
