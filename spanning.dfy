/**
 * Minimality of the tree `prim` grows, on an undirected graph with
 * non-negative weights.  A "spanning" arc list links the root to every node
 * reachable from it, each stored arc walked in either direction; the greedy
 * tree costs no more than any of them (the exchange argument).
 */
module SpanningTrees {
  import opened Graphs
  import opened Walks
  import opened MinimumSpanningTrees

  /** Arc a links x and y, in either direction. */
  ghost predicate Joins(st: Store, a: Arc, x: int, y: int)
  {
    IsArc(st, a) && ((a.from == x && Head(st, a) == y) || (a.from == y && Head(st, a) == x))
  }

  /** vs is a route whose i-th step walks arc es[i] of T, in either direction. */
  ghost predicate Route(st: Store, T: seq<Arc>, vs: seq<int>, es: seq<Arc>)
  {
    && |vs| == |es| + 1
    && forall i :: 0 <= i < |es| ==> es[i] in T && Joins(st, es[i], vs[i], vs[i + 1])
  }

  ghost predicate Connects(st: Store, T: seq<Arc>, x: int, y: int)
  {
    exists vs, es :: Route(st, T, vs, es) && vs[0] == x && vs[|vs| - 1] == y
  }

  /** T consists of stored arcs and links r to every node reachable from r. */
  ghost predicate SpansFrom(st: Store, T: seq<Arc>, r: int)
  {
    && (forall a :: a in T ==> IsArc(st, a))
    && (forall v :: Reachable(st, r, v) ==> Connects(st, T, r, v))
  }

  /** Total weight of an arc list. */
  ghost function ArcsCost(st: Store, T: seq<Arc>): int
  {
    if |T| == 0 then 0 else ArcWeight(st, T[0]) + ArcsCost(st, T[1..])
  }

  /** w is the least weight of an arc list spanning the nodes reachable from r. */
  ghost predicate IsMinimumSpanningWeight(st: Store, r: int, w: int)
  {
    && (exists T :: SpansFrom(st, T, r) && ArcsCost(st, T) == w)
    && (forall T :: SpansFrom(st, T, r) ==> w <= ArcsCost(st, T))
  }

  /** The minimum spanning weight is unique, so any two correct runs agree. */
  lemma MinimumSpanningWeightUnique(st: Store, r: int, w1: int, w2: int)
    requires IsMinimumSpanningWeight(st, r, w1) && IsMinimumSpanningWeight(st, r, w2)
    ensures w1 == w2
  {
    var T1 :| SpansFrom(st, T1, r) && ArcsCost(st, T1) == w1;
    var T2 :| SpansFrom(st, T2, r) && ArcsCost(st, T2) == w2;
    assert w2 <= ArcsCost(st, T1);
    assert w1 <= ArcsCost(st, T2);
  }

  // ---------------------------------------------------------------------------
  // Arc lists

  lemma {:induction false} CostConcat(st: Store, A: seq<Arc>, B: seq<Arc>)
    ensures ArcsCost(st, A + B) == ArcsCost(st, A) + ArcsCost(st, B)
    decreases |A|
  {
    if |A| > 0 {
      assert (A + B)[0] == A[0] && (A + B)[1..] == A[1..] + B;
      CostConcat(st, A[1..], B);
    } else {
      assert A + B == B;
    }
  }

  /** T without its first occurrence of f. */
  function RemoveOne(T: seq<Arc>, f: Arc): (r: seq<Arc>)
    ensures forall x :: x in r ==> x in T
    ensures forall x :: x in T && x != f ==> x in r
  {
    if |T| == 0 then []
    else if T[0] == f then T[1..]
    else [T[0]] + RemoveOne(T[1..], f)
  }

  lemma {:induction false} RemoveOneCost(st: Store, T: seq<Arc>, f: Arc)
    requires f in T
    ensures ArcsCost(st, T) == ArcsCost(st, RemoveOne(T, f)) + ArcWeight(st, f)
    decreases |T|
  {
    if T[0] != f {
      var rest := RemoveOne(T[1..], f);
      assert ([T[0]] + rest)[1..] == rest;
      RemoveOneCost(st, T[1..], f);
    }
  }

  /** An arc list of distinct members of T costs no more than T. */
  lemma {:induction false} SubCost(st: Store, L: seq<Arc>, T: seq<Arc>)
    requires WellFormed(st) && WeightsWithin(st, 0, INF)
    requires forall i, j :: 0 <= i < j < |L| ==> L[i] != L[j]
    requires forall x :: x in L ==> x in T
    ensures ArcsCost(st, L) <= ArcsCost(st, T)
    decreases |L|
  {
    if |L| == 0 {
      ArcsCostNonNegative(st, T);
    } else {
      var x := L[0];
      RemoveOneCost(st, T, x);
      forall y | y in L[1..] ensures y in RemoveOne(T, x) {
        var i :| 0 <= i < |L[1..]| && L[1..][i] == y;
        assert L[i + 1] == y;
      }
      SubCost(st, L[1..], RemoveOne(T, x));
    }
  }

  lemma {:induction false} ArcsCostNonNegative(st: Store, T: seq<Arc>)
    requires WellFormed(st) && WeightsWithin(st, 0, INF)
    ensures ArcsCost(st, T) >= 0
    decreases |T|
  {
    if |T| > 0 {
      ArcsCostNonNegative(st, T[1..]);
    }
  }

  // ---------------------------------------------------------------------------
  // Routes

  lemma ConnectsHere(st: Store, T: seq<Arc>, x: int)
    ensures Connects(st, T, x, x)
  {
    assert Route(st, T, [x], []);
  }

  lemma ConnectsStep(st: Store, T: seq<Arc>, a: Arc, x: int, y: int)
    requires a in T && Joins(st, a, x, y)
    ensures Connects(st, T, x, y)
  {
    assert Route(st, T, [x, y], [a]);
  }

  lemma ConnectsBack(st: Store, T: seq<Arc>, x: int, y: int)
    requires Connects(st, T, x, y)
    ensures Connects(st, T, y, x)
  {
    var vs, es :| Route(st, T, vs, es) && vs[0] == x && vs[|vs| - 1] == y;
    var n := |es|;
    var vs' := seq(n + 1, i requires 0 <= i <= n => vs[n - i]);
    var es' := seq(n, i requires 0 <= i < n => es[n - 1 - i]);
    forall i | 0 <= i < n ensures es'[i] in T && Joins(st, es'[i], vs'[i], vs'[i + 1]) {
      assert Joins(st, es[n - 1 - i], vs[n - 1 - i], vs[n - i]);
    }
    assert Route(st, T, vs', es');
  }

  lemma ConnectsThen(st: Store, T: seq<Arc>, x: int, y: int, z: int)
    requires Connects(st, T, x, y) && Connects(st, T, y, z)
    ensures Connects(st, T, x, z)
  {
    var vs1, es1 :| Route(st, T, vs1, es1) && vs1[0] == x && vs1[|vs1| - 1] == y;
    var vs2, es2 :| Route(st, T, vs2, es2) && vs2[0] == y && vs2[|vs2| - 1] == z;
    var vs, es := vs1 + vs2[1..], es1 + es2;
    forall i | 0 <= i < |es| ensures es[i] in T && Joins(st, es[i], vs[i], vs[i + 1]) {
      if i < |es1| {
        assert es[i] == es1[i] && vs[i] == vs1[i] && vs[i + 1] == vs1[i + 1];
      } else {
        var k := i - |es1|;
        assert es[i] == es2[k] && vs[i] == vs2[k] && vs[i + 1] == vs2[k + 1];
      }
    }
    assert Route(st, T, vs, es);
  }

  /** A route whose arcs all lie in T' is a route of T'. */
  lemma RouteWithin(st: Store, T: seq<Arc>, T': seq<Arc>, vs: seq<int>, es: seq<Arc>)
    requires Route(st, T, vs, es)
    requires forall i :: 0 <= i < |es| ==> es[i] in T'
    ensures Connects(st, T', vs[0], vs[|vs| - 1])
  {
    assert Route(st, T', vs, es);
  }

  ghost predicate NoRepeat(vs: seq<int>)
  {
    forall i, j :: 0 <= i < j < |vs| ==> vs[i] != vs[j]
  }

  /** Cutting out the loops of a route leaves a route between the same ends that visits no node twice. */
  lemma {:induction false} Shorten(st: Store, T: seq<Arc>, vs: seq<int>, es: seq<Arc>) returns (vs': seq<int>, es': seq<Arc>)
    requires Route(st, T, vs, es)
    ensures Route(st, T, vs', es') && NoRepeat(vs')
    ensures vs'[0] == vs[0] && vs'[|vs'| - 1] == vs[|vs| - 1]
    decreases |vs|
  {
    if NoRepeat(vs) {
      return vs, es;
    }
    var i, j :| 0 <= i < j < |vs| && vs[i] == vs[j];
    var vs1 := vs[..i + 1] + vs[j + 1..];
    var es1 := es[..i] + es[j..];
    forall k | 0 <= k < |es1| ensures es1[k] in T && Joins(st, es1[k], vs1[k], vs1[k + 1]) {
      if k < i {
        assert es1[k] == es[k] && vs1[k] == vs[k] && vs1[k + 1] == vs[k + 1];
      } else {
        assert es1[k] == es[j + k - i] && vs1[k] == vs[j + k - i] && vs1[k + 1] == vs[j + k - i + 1];
      }
    }
    vs', es' := Shorten(st, T, vs1, es1);
  }

  /** A route from inside `pre` to outside it has a step that leaves `pre`. */
  lemma Crossing(vs: seq<int>, pre: seq<int>) returns (j: int)
    requires |vs| > 0 && vs[0] in pre && vs[|vs| - 1] !in pre
    ensures 0 <= j < |vs| - 1 && vs[j] in pre && vs[j + 1] !in pre
  {
    j := 0;
    while vs[j + 1] in pre
      invariant 0 <= j < |vs| - 1 && vs[j] in pre
      decreases |vs| - j
    {
      j := j + 1;
    }
  }

  /** On a route that visits no node twice, no arc is walked twice. */
  lemma UsedOnce(st: Store, T: seq<Arc>, vs: seq<int>, es: seq<Arc>, i: int, j: int)
    requires Route(st, T, vs, es) && NoRepeat(vs)
    requires 0 <= i < |es| && 0 <= j < |es| && i != j
    ensures es[i] != es[j]
  {
    assert Joins(st, es[i], vs[i], vs[i + 1]) && Joins(st, es[j], vs[j], vs[j + 1]);
  }

  /**
   * Replacing arc es[j] of a loop-free route from x to y by an arc e that
   * links x and y keeps every pair of nodes linked.
   */
  lemma Exchange(st: Store, T: seq<Arc>, vs: seq<int>, es: seq<Arc>, j: int, e: Arc) returns (T': seq<Arc>)
    requires Route(st, T, vs, es) && NoRepeat(vs) && 0 <= j < |es|
    requires Joins(st, e, vs[0], vs[|vs| - 1])
    ensures T' == RemoveOne(T, es[j]) + [e]
    ensures forall x, y :: Connects(st, T, x, y) ==> Connects(st, T', x, y)
  {
    var f := es[j];
    T' := RemoveOne(T, f) + [e];
    forall i | 0 <= i < |es| && i != j ensures es[i] in T' {
      UsedOnce(st, T, vs, es, i, j);
    }
    // The ends of f stay linked: back along the route to x, across e, and back from y.
    var n := |es|;
    RouteWithin(st, T, T', vs[..j + 1], es[..j]);
    RouteWithin(st, T, T', vs[j + 1..], es[j + 1..]);
    ConnectsBack(st, T', vs[0], vs[j]);
    ConnectsBack(st, T', vs[j + 1], vs[n]);
    ConnectsStep(st, T', e, vs[0], vs[n]);
    ConnectsThen(st, T', vs[j], vs[0], vs[n]);
    ConnectsThen(st, T', vs[j], vs[n], vs[j + 1]);
    ConnectsBack(st, T', vs[j], vs[j + 1]);
    forall x, y | Connects(st, T, x, y) ensures Connects(st, T', x, y) {
      var vs2, es2 :| Route(st, T, vs2, es2) && vs2[0] == x && vs2[|vs2| - 1] == y;
      Transfer(st, T, T', f, vs[j], vs[j + 1], vs2, es2);
    }
  }

  /** A route of T becomes a link in T' when every arc but f is kept and f's ends stay linked. */
  lemma {:induction false} Transfer(st: Store, T: seq<Arc>, T': seq<Arc>, f: Arc, p: int, q: int,
                                    vs: seq<int>, es: seq<Arc>)
    requires Route(st, T, vs, es) && Joins(st, f, p, q)
    requires forall a :: a in T && a != f ==> a in T'
    requires Connects(st, T', p, q) && Connects(st, T', q, p)
    ensures Connects(st, T', vs[0], vs[|vs| - 1])
    decreases |es|
  {
    var n := |es|;
    if n == 0 {
      ConnectsHere(st, T', vs[0]);
    } else {
      assert Route(st, T, vs[..n], es[..n - 1]);
      Transfer(st, T, T', f, p, q, vs[..n], es[..n - 1]);
      if es[n - 1] != f {
        ConnectsStep(st, T', es[n - 1], vs[n - 1], vs[n]);
      }
      ConnectsThen(st, T', vs[0], vs[n - 1], vs[n]);
    }
  }

  // ---------------------------------------------------------------------------
  // The greedy tree

  /** The parent arc of v, or a non-arc when v has none. */
  ghost function ParArc(par: map<int, Arc>, v: int): Arc
  {
    if v in par then par[v] else Arc(-1, -1)
  }

  /** The parent arcs of order[1..k]. */
  ghost function TreeArcs(order: seq<int>, par: map<int, Arc>, k: int): (r: seq<Arc>)
    requires 0 <= k <= |order|
    ensures |r| == if k <= 1 then 0 else k - 1
    ensures forall i :: 0 <= i < |r| ==> r[i] == ParArc(par, order[i + 1])
  {
    if k <= 1 then [] else TreeArcs(order, par, k - 1) + [ParArc(par, order[k - 1])]
  }

  lemma {:induction false} TreeArcsCost(st: Store, order: seq<int>, par: map<int, Arc>, k: int)
    requires 0 <= k <= |order|
    ensures ArcsCost(st, TreeArcs(order, par, k)) == PrefixWeight(st, order, par, k)
  {
    if k > 1 {
      TreeArcsCost(st, order, par, k - 1);
      CostConcat(st, TreeArcs(order, par, k - 1), [ParArc(par, order[k - 1])]);
    }
  }

  /** Node order[i] of a tree hangs from an earlier node. */
  lemma {:induction false} TreeAt(st: Store, r: int, order: seq<int>, par: map<int, Arc>, i: int)
    requires Tree(st, r, order, par) && 1 <= i < |order|
    ensures order[i] in par && IsArc(st, par[order[i]]) && Head(st, par[order[i]]) == order[i]
    ensures par[order[i]].from in order[..i] && order[i] !in order[..i]
    decreases |order|
  {
    var n := |order|;
    if i < n - 1 {
      var pre := order[..n - 1];
      TreeAt(st, r, pre, par, i);
      assert pre[i] == order[i] && pre[..i] == order[..i];
    }
  }

  /** The nodes of a tree are distinct. */
  lemma TreeDistinct(st: Store, r: int, order: seq<int>, par: map<int, Arc>, i: int, j: int)
    requires Tree(st, r, order, par) && 0 <= i < j < |order|
    ensures order[i] != order[j]
  {
    TreeAt(st, r, order, par, j);
    assert order[i] in order[..j];
  }

  /** The greedy choice at step k, for one arc leaving order[..k]. */
  lemma {:induction false} GreedyAt(st: Store, order: seq<int>, par: map<int, Arc>, k: int, a: Arc)
    requires Greedy(st, order, par) && 1 <= k < |order|
    requires IsArc(st, a) && a.from in order[..k] && Head(st, a) !in order[..k]
    ensures ParWeight(st, par, order[k]) <= ArcWeight(st, a)
    decreases |order|
  {
    var n := |order|;
    var pre := order[..n - 1];
    if k < n - 1 {
      assert pre[k] == order[k] && pre[..k] == order[..k];
      GreedyAt(st, pre, par, k, a);
    } else {
      assert pre == order[..k];
    }
  }

  /** In an undirected graph every stored arc has a stored mirror arc of the same weight. */
  lemma MirrorArc(st: Store, f: Arc) returns (g: Arc)
    requires WellFormed(st) && Symmetric(st) && IsArc(st, f)
    ensures IsArc(st, g) && g.from == Head(st, f) && Head(st, g) == f.from
    ensures ArcWeight(st, g) == ArcWeight(st, f)
  {
    var u, v, w := f.from, Head(st, f), ArcWeight(st, f);
    MultiplicityPositive(st.adjs[u], st.weights[u], v, w, f.index);
    assert Multiplicity(st.adjs[v], st.weights[v], u, w) > 0;
    var i := MultiplicityWitness(st.adjs[v], st.weights[v], u, w);
    g := Arc(v, i);
  }

  lemma {:induction false} MultiplicityPositive(adj: seq<int>, ws: seq<int>, v: int, w: int, i: int)
    requires |adj| == |ws| && 0 <= i < |adj| && adj[i] == v && ws[i] == w
    ensures Multiplicity(adj, ws, v, w) > 0
    decreases |adj|
  {
    var n := |adj| - 1;
    if i < n {
      MultiplicityPositive(adj[..n], ws[..n], v, w, i);
    }
  }

  lemma {:induction false} MultiplicityWitness(adj: seq<int>, ws: seq<int>, v: int, w: int) returns (i: int)
    requires |adj| == |ws| && Multiplicity(adj, ws, v, w) > 0
    ensures 0 <= i < |adj| && adj[i] == v && ws[i] == w
    decreases |adj|
  {
    var n := |adj| - 1;
    if adj[n] == v && ws[n] == w {
      i := n;
    } else {
      i := MultiplicityWitness(adj[..n], ws[..n], v, w);
    }
  }

  /** An arc crossing out of order[..k], walked either way, is no lighter than order[k]'s parent arc. */
  lemma CrossingWeight(st: Store, order: seq<int>, par: map<int, Arc>, k: int, f: Arc, x: int, y: int)
    requires WellFormed(st) && Symmetric(st) && Greedy(st, order, par) && 1 <= k < |order|
    requires Joins(st, f, x, y) && x in order[..k] && y !in order[..k]
    ensures ParWeight(st, par, order[k]) <= ArcWeight(st, f)
  {
    if f.from == x {
      GreedyAt(st, order, par, k, f);
    } else {
      var g := MirrorArc(st, f);
      GreedyAt(st, order, par, k, g);
    }
  }

  /** An arc list holding every parent arc of the tree costs at least the tree. */
  lemma HoldsTree(st: Store, r: int, order: seq<int>, par: map<int, Arc>, T: seq<Arc>)
    requires WellFormed(st) && WeightsWithin(st, 0, INF) && Tree(st, r, order, par)
    requires forall i :: 1 <= i < |order| ==> ParArc(par, order[i]) in T
    ensures TreeWeight(st, order, par) <= ArcsCost(st, T)
  {
    var L := TreeArcs(order, par, |order|);
    forall i, j | 0 <= i < j < |L| ensures L[i] != L[j] {
      TreeAt(st, r, order, par, i + 1);
      TreeAt(st, r, order, par, j + 1);
      TreeDistinct(st, r, order, par, i + 1, j + 1);
    }
    TreeArcsCost(st, order, par, |order|);
    SubCost(st, L, T);
  }

  /** The parent arcs of order[1..k-1] all join nodes of order[..k], so none of them leaves it. */
  lemma InsideArcs(st: Store, r: int, order: seq<int>, par: map<int, Arc>, k: int, f: Arc, x: int, y: int)
    requires Tree(st, r, order, par) && 1 <= k < |order|
    requires Joins(st, f, x, y) && x in order[..k] && y !in order[..k]
    ensures forall i :: 1 <= i < k ==> ParArc(par, order[i]) != f
  {
    forall i | 1 <= i < k ensures ParArc(par, order[i]) != f {
      TreeAt(st, r, order, par, i);
      assert order[i] in order[..k];
      assert par[order[i]].from in order[..k] by {
        var i' :| 0 <= i' < i && order[..i][i'] == par[order[i]].from;
        assert order[..k][i'] == order[i'];
      }
    }
  }

  /**
   * One exchange: an arc list that links the root to every tree node and
   * holds the parent arcs of order[1..k-1] is traded for one no dearer that
   * also holds the parent arc of order[k].
   */
  lemma AbsorbOne(st: Store, r: int, order: seq<int>, par: map<int, Arc>, T: seq<Arc>, k: int) returns (T': seq<Arc>)
    requires WellFormed(st) && Symmetric(st) && WeightsWithin(st, 0, INF)
    requires Tree(st, r, order, par) && Greedy(st, order, par) && 1 <= k < |order|
    requires forall a :: a in T ==> IsArc(st, a)
    requires forall v :: v in order ==> Connects(st, T, r, v)
    requires forall i :: 1 <= i < k ==> ParArc(par, order[i]) in T
    ensures forall a :: a in T' ==> IsArc(st, a)
    ensures forall v :: v in order ==> Connects(st, T', r, v)
    ensures forall i :: 1 <= i < k + 1 ==> ParArc(par, order[i]) in T'
    ensures ArcsCost(st, T') <= ArcsCost(st, T)
  {
    TreeAt(st, r, order, par, k);
    var e := par[order[k]];
    if e in T {
      return T;
    }
    var pre := order[..k];
    var a, b := e.from, order[k];
    assert a in order;
    ConnectsBack(st, T, r, a);
    ConnectsThen(st, T, a, r, b);
    var vs0, es0 :| Route(st, T, vs0, es0) && vs0[0] == a && vs0[|vs0| - 1] == b;
    var vs, es := Shorten(st, T, vs0, es0);
    var j := Crossing(vs, pre);
    var f := es[j];
    CrossingWeight(st, order, par, k, f, vs[j], vs[j + 1]);
    InsideArcs(st, r, order, par, k, f, vs[j], vs[j + 1]);
    T' := Exchange(st, T, vs, es, j, e);
    RemoveOneCost(st, T, f);
    CostConcat(st, RemoveOne(T, f), [e]);
  }

  /**
   * The exchange argument, from step k on: an arc list that links the root
   * to every tree node and already holds the parent arcs of order[1..k-1]
   * costs at least the tree.
   */
  lemma {:induction false} Absorb(st: Store, r: int, order: seq<int>, par: map<int, Arc>, T: seq<Arc>, k: int)
    requires WellFormed(st) && Symmetric(st) && WeightsWithin(st, 0, INF)
    requires Tree(st, r, order, par) && Greedy(st, order, par) && 1 <= k <= |order|
    requires forall a :: a in T ==> IsArc(st, a)
    requires forall v :: v in order ==> Connects(st, T, r, v)
    requires forall i :: 1 <= i < k ==> ParArc(par, order[i]) in T
    ensures TreeWeight(st, order, par) <= ArcsCost(st, T)
    decreases |order| - k
  {
    if k == |order| {
      HoldsTree(st, r, order, par, T);
    } else {
      var T' := AbsorbOne(st, r, order, par, T, k);
      Absorb(st, r, order, par, T', k + 1);
    }
  }

  /** The parent arcs of a tree link its root to each of its nodes. */
  lemma {:induction false} TreeArcsConnect(st: Store, r: int, order: seq<int>, par: map<int, Arc>, i: int)
    requires Tree(st, r, order, par) && 0 <= i < |order|
    ensures Connects(st, TreeArcs(order, par, |order|), r, order[i])
    decreases i
  {
    var T := TreeArcs(order, par, |order|);
    if i == 0 {
      TreeRoot(st, r, order, par);
      ConnectsHere(st, T, r);
    } else {
      TreeAt(st, r, order, par, i);
      var p := par[order[i]].from;
      var i' :| 0 <= i' < i && order[..i][i'] == p;
      assert order[i'] == p;
      TreeArcsConnect(st, r, order, par, i');
      assert T[i - 1] == par[order[i]];
      ConnectsStep(st, T, par[order[i]], p, order[i]);
      ConnectsThen(st, T, r, p, order[i]);
    }
  }

  /** Prim's result is the minimum spanning weight of the nodes reachable from r. */
  lemma PrimMinimal(st: Store, r: int, order: seq<int>, par: map<int, Arc>, mst: int)
    requires WellFormed(st) && Symmetric(st) && WeightsWithin(st, 0, INF)
    requires PrimResult(st, r, order, par, mst)
    ensures IsMinimumSpanningWeight(st, r, mst)
  {
    var T0 := TreeArcs(order, par, |order|);
    forall a | a in T0 ensures IsArc(st, a) {
      var i :| 0 <= i < |T0| && T0[i] == a;
      TreeAt(st, r, order, par, i + 1);
    }
    forall v | Reachable(st, r, v) ensures Connects(st, T0, r, v) {
      var i :| 0 <= i < |order| && order[i] == v;
      TreeArcsConnect(st, r, order, par, i);
    }
    TreeArcsCost(st, order, par, |order|);
    assert SpansFrom(st, T0, r);
    forall T | SpansFrom(st, T, r) ensures mst <= ArcsCost(st, T) {
      Absorb(st, r, order, par, T, 1);
    }
  }
}
