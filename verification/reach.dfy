/**
 * Walks, reachability and breadth-first layers over an adjacency map: a map
 * from each vertex to the set of vertices its out-edges lead to. The directed
 * graph, the friendship graph and the child-to-parents map of the family tree
 * are all such maps.
 */
module Reach {

  type Adjacency = map<int, set<int>>

  /** Every vertex that an edge leads to is itself a key of the map. */
  ghost predicate Closed(g: Adjacency)
  {
    forall u, w :: u in g && w in g[u] ==> w in g
  }

  /** In a closed map the out-neighbours of a vertex are vertices. */
  lemma ClosedNeighbors(g: Adjacency, u: int)
    requires Closed(g) && u in g
    ensures g[u] <= g.Keys
  {
    forall w | w in g[u]
      ensures w in g.Keys
    {
    }
  }

  /** A non-empty vertex sequence whose consecutive elements are edges. */
  ghost predicate IsWalk(g: Adjacency, p: seq<int>)
  {
    |p| > 0 && forall i :: 0 <= i < |p| - 1 ==> p[i] in g && p[i + 1] in g[p[i]]
  }

  /** Each step of a walk follows an edge. */
  lemma WalkEdge(g: Adjacency, p: seq<int>, i: int)
    ensures IsWalk(g, p) && 0 <= i < |p| - 1 ==> p[i] in g && p[i + 1] in g[p[i]]
  {
  }

  /** A walk that starts at s and ends at t. */
  ghost predicate PathFromTo(g: Adjacency, p: seq<int>, s: int, t: int)
  {
    IsWalk(g, p) && p[0] == s && p[|p| - 1] == t
  }

  /** A walk extended by an out-edge of its last vertex is a walk. */
  lemma WalkAppend(g: Adjacency, p: seq<int>, w: int)
    requires IsWalk(g, p) && p[|p| - 1] in g && w in g[p[|p| - 1]]
    ensures IsWalk(g, p + [w])
  {
    var q := p + [w];
    forall i | 0 <= i < |q| - 1
      ensures q[i] in g && q[i + 1] in g[q[i]]
    {
      if i < |p| - 1 {
        assert q[i] == p[i] && q[i + 1] == p[i + 1];
      }
    }
  }

  /** Some walk leads from s to t (every vertex reaches itself). */
  ghost predicate Reachable(g: Adjacency, s: int, t: int)
  {
    exists p :: PathFromTo(g, p, s, t)
  }

  /** The vertices that one edge leads to from some vertex of S. */
  ghost function Succ(g: Adjacency, S: set<int>): set<int>
  {
    set u, w | u in S && u in g && w in g[u] :: w
  }

  lemma SuccIntro(g: Adjacency, S: set<int>, u: int, w: int)
    requires u in S && u in g && w in g[u]
    ensures w in Succ(g, S)
  {
  }

  lemma SuccIntroAll(g: Adjacency, S: set<int>, u: int)
    requires u in S && u in g
    ensures g[u] <= Succ(g, S)
  {
    forall w | w in g[u]
      ensures w in Succ(g, S)
    {
      SuccIntro(g, S, u, w);
    }
  }

  /** Adding u to a set adds u's out-neighbours to its successors. */
  lemma SuccAdd(g: Adjacency, A: set<int>, u: int)
    requires u in g
    ensures Succ(g, A + {u}) == Succ(g, A) + g[u]
  {
    SuccIntroAll(g, A + {u}, u);
  }

  /** The vertices reachable from s by a walk of at most n edges. */
  ghost function Within(g: Adjacency, s: int, n: nat): set<int>
  {
    if n == 0 then {s} else Within(g, s, n - 1) + Succ(g, Within(g, s, n - 1))
  }

  /**
   * p is a walk from s to t and no shorter walk exists: t is not within
   * |p| - 2 edges of s.
   */
  ghost predicate ShortestWalk(g: Adjacency, p: seq<int>, s: int, t: int)
  {
    PathFromTo(g, p, s, t) && (|p| >= 2 ==> t !in Within(g, s, |p| - 2))
  }

  lemma {:induction false} WithinMono(g: Adjacency, s: int, m: nat, n: nat)
    requires m <= n
    ensures Within(g, s, m) <= Within(g, s, n)
  {
    if m < n {
      WithinMono(g, s, m, n - 1);
    }
  }

  /** The last vertex of a walk with k edges is within k edges of its first. */
  lemma {:induction false} WalkInWithin(g: Adjacency, p: seq<int>)
    requires IsWalk(g, p)
    ensures p[|p| - 1] in Within(g, p[0], |p| - 1)
  {
    if |p| > 1 {
      var q := p[..|p| - 1];
      assert IsWalk(g, q);
      WalkInWithin(g, q);
      assert q[0] == p[0] && q[|q| - 1] == p[|p| - 2];
      var u := p[|p| - 2];
      SuccIntro(g, Within(g, p[0], |p| - 2), u, p[|p| - 1]);
    }
  }

  /** Every vertex within n edges of s ends a walk from s with at most n edges. */
  lemma {:induction false} WithinHasWalk(g: Adjacency, s: int, t: int, n: nat)
    requires t in Within(g, s, n)
    ensures exists p :: PathFromTo(g, p, s, t) && |p| <= n + 1
    decreases n
  {
    if n == 0 {
      assert PathFromTo(g, [s], s, t);
    } else if t in Within(g, s, n - 1) {
      WithinHasWalk(g, s, t, n - 1);
    } else {
      var u :| u in Within(g, s, n - 1) && u in g && t in g[u];
      WithinHasWalk(g, s, u, n - 1);
      var q :| PathFromTo(g, q, s, u) && |q| <= n;
      var p := q + [t];
      assert forall i :: 0 <= i < |q| ==> p[i] == q[i];
      assert PathFromTo(g, p, s, t);
    }
  }

  lemma WithinReachable(g: Adjacency, s: int, t: int, n: nat)
    requires t in Within(g, s, n)
    ensures Reachable(g, s, t)
  {
    WithinHasWalk(g, s, t, n);
  }

  /** Reachability is membership in some breadth-first layer. */
  lemma ReachableIffWithin(g: Adjacency, s: int, t: int)
    ensures Reachable(g, s, t) <==> exists n: nat :: t in Within(g, s, n)
  {
    if Reachable(g, s, t) {
      var p :| PathFromTo(g, p, s, t);
      WalkInWithin(g, p);
    }
    if exists n: nat :: t in Within(g, s, n) {
      var n: nat :| t in Within(g, s, n);
      WithinHasWalk(g, s, t, n);
    }
  }

  /** Extending a walk by an edge: whatever a reachable vertex points to is reachable. */
  lemma ReachableStep(g: Adjacency, s: int, u: int, w: int)
    requires Reachable(g, s, u) && u in g && w in g[u]
    ensures Reachable(g, s, w)
  {
    var p :| PathFromTo(g, p, s, u);
    var q := p + [w];
    assert forall i :: 0 <= i < |p| ==> q[i] == p[i];
    assert PathFromTo(g, q, s, w);
  }

  /** A set holding s and closed under the edges holds every vertex near s. */
  lemma {:induction false} ClosedSetHoldsWithin(g: Adjacency, s: int, S: set<int>, n: nat)
    requires s in S
    requires forall u, w :: u in S && u in g && w in g[u] ==> w in S
    ensures Within(g, s, n) <= S
  {
    if n > 0 {
      ClosedSetHoldsWithin(g, s, S, n - 1);
    }
  }

  /** A set holding s and closed under the edges holds every vertex s reaches. */
  lemma ClosedSetHoldsReachable(g: Adjacency, s: int, S: set<int>, t: int)
    requires s in S
    requires forall u, w :: u in S && u in g && w in g[u] ==> w in S
    requires Reachable(g, s, t)
    ensures t in S
  {
    var p :| PathFromTo(g, p, s, t);
    WalkInWithin(g, p);
    ClosedSetHoldsWithin(g, s, S, |p| - 1);
  }

  /** A shortest walk is no longer than any other walk between the same ends. */
  lemma ShortestIsMinimal(g: Adjacency, p: seq<int>, q: seq<int>, s: int, t: int)
    requires ShortestWalk(g, p, s, t) && PathFromTo(g, q, s, t)
    ensures |p| <= |q|
  {
    WalkInWithin(g, q);
    if |q| < |p| {
      WithinMono(g, s, |q| - 1, |p| - 2);
    }
  }

  /** Once a layer adds nothing new, no later layer does. */
  lemma {:induction false} WithinStable(g: Adjacency, s: int, n: nat, m: nat)
    requires Within(g, s, n + 1) == Within(g, s, n)
    requires n <= m
    ensures Within(g, s, m) == Within(g, s, n)
  {
    if n < m {
      WithinStable(g, s, n, m - 1);
    }
  }

  /** In a closed map every vertex near a vertex of the map is in the map. */
  lemma {:induction false} WithinKeys(g: Adjacency, s: int, n: nat)
    requires Closed(g) && s in g
    ensures Within(g, s, n) <= g.Keys
  {
    if n > 0 {
      WithinKeys(g, s, n - 1);
    }
  }
}
