/**
 * Walks over the stored arcs of a graph: a walk is a sequence of arcs, each
 * named by its tail node and its position in that node's adjacency list, so
 * parallel arcs of different weights stay distinct.
 */
module Walks {
  import opened Graphs

  /** The arc stored at position `index` of node `from`'s lists. */
  datatype Arc = Arc(from: int, index: int)

  ghost predicate IsArc(st: Store, a: Arc)
  {
    InRange(st, a.from) && 0 <= a.index < |st.adjs[a.from]|
  }

  ghost function Head(st: Store, a: Arc): int
  {
    if IsArc(st, a) then st.adjs[a.from][a.index] else -1
  }

  ghost function ArcWeight(st: Store, a: Arc): int
  {
    if IsArc(st, a) && |st.weights| == |st.adjs| && a.index < |st.weights[a.from]|
    then st.weights[a.from][a.index] else 0
  }

  /** p leads from s to t, each arc leaving the node the previous one entered. */
  ghost predicate IsWalk(st: Store, p: seq<Arc>, s: int, t: int)
  {
    if |p| == 0 then s == t && InRange(st, s)
    else
      var a := p[|p| - 1];
      IsArc(st, a) && Head(st, a) == t && IsWalk(st, p[..|p| - 1], s, a.from)
  }

  /** Sum of the arc weights along p. */
  ghost function Cost(st: Store, p: seq<Arc>): int
  {
    if |p| == 0 then 0 else Cost(st, p[..|p| - 1]) + ArcWeight(st, p[|p| - 1])
  }

  ghost predicate Reachable(st: Store, s: int, t: int)
  {
    exists p :: IsWalk(st, p, s, t)
  }

  /** Every stored weight lies in lo..hi. */
  ghost predicate WeightsWithin(st: Store, lo: int, hi: int)
  {
    forall u, i :: 0 <= u < |st.weights| && 0 <= i < |st.weights[u]| ==> lo <= st.weights[u][i] <= hi
  }

  /** Extending a walk by one stored arc out of its last node. */
  lemma Extend(st: Store, p: seq<Arc>, s: int, u: int, i: int)
    requires WellFormed(st) && IsWalk(st, p, s, u) && InRange(st, u) && 0 <= i < |st.adjs[u]|
    ensures IsWalk(st, p + [Arc(u, i)], s, st.adjs[u][i])
    ensures Cost(st, p + [Arc(u, i)]) == Cost(st, p) + st.weights[u][i]
  {
    assert (p + [Arc(u, i)])[..|p|] == p;
  }

  /** Both ends of a walk are nodes of the graph. */
  lemma {:induction false} WalkEnds(st: Store, p: seq<Arc>, s: int, t: int)
    requires WellFormed(st) && IsWalk(st, p, s, t)
    ensures InRange(st, s) && InRange(st, t)
  {
    if |p| > 0 {
      WalkEnds(st, p[..|p| - 1], s, p[|p| - 1].from);
    }
  }

  /**
   * A set that holds s and is closed under the stored arcs holds every node
   * reachable from s.
   */
  lemma {:induction false} ClosedSetContainsWalks(st: Store, c: set<int>, p: seq<Arc>, s: int, t: int)
    requires WellFormed(st) && s in c
    requires forall u, i :: u in c && 0 <= u < |st.adjs| && 0 <= i < |st.adjs[u]| ==> st.adjs[u][i] in c
    requires IsWalk(st, p, s, t)
    ensures t in c
  {
    if |p| > 0 {
      ClosedSetContainsWalks(st, c, p[..|p| - 1], s, p[|p| - 1].from);
    }
  }
}
