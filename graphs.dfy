/** Integer adjacency lists shared by every graph component: branch `u` of the
    data tree lists the neighbours of vertex `u`. */
module Graphs {

  type Graph = seq<seq<nat>>

  /** Every neighbour index names an existing branch. */
  predicate ValidGraph(g: Graph) {
    forall u, k :: 0 <= u < |g| && 0 <= k < |g[u]| ==> g[u][k] < |g|
  }

  /** `v` lists `u` whenever `u` lists `v`. */
  predicate Symmetric(g: Graph)
    requires ValidGraph(g)
  {
    forall u, v :: 0 <= u < |g| && v in g[u] ==> u in g[v]
  }

  /** A non-empty sequence of vertices, each consecutive pair joined by an edge. */
  ghost predicate IsWalk(g: Graph, p: seq<nat>) {
    && |p| > 0
    && (forall k :: 0 <= k < |p| ==> p[k] < |g|)
    && (forall k :: 0 <= k < |p| - 1 ==> p[k + 1] in g[p[k]])
  }

  ghost predicate WalkFrom(g: Graph, p: seq<nat>, s: nat, e: nat) {
    IsWalk(g, p) && p[0] == s && p[|p| - 1] == e
  }

  ghost predicate Reachable(g: Graph, s: nat, e: nat) {
    exists p :: WalkFrom(g, p, s, e)
  }

  /** `p` is a walk from `s` to `e` and no walk between them has fewer vertices. */
  ghost predicate IsShortest(g: Graph, p: seq<nat>, s: nat, e: nat) {
    WalkFrom(g, p, s, e) && forall q :: WalkFrom(g, q, s, e) ==> |p| <= |q|
  }

  /** No vertex occurs twice. */
  predicate NoRepeats(p: seq<nat>) {
    forall i, j :: 0 <= i < j < |p| ==> p[i] != p[j]
  }

  lemma {:induction false} ShortestExists(g: Graph, s: nat, e: nat, q: seq<nat>)
    requires WalkFrom(g, q, s, e)
    ensures exists p :: IsShortest(g, p, s, e)
    decreases |q|
  {
    if !IsShortest(g, q, s, e) {
      var q' :| WalkFrom(g, q', s, e) && |q'| < |q|;
      ShortestExists(g, s, e, q');
    }
  }

  /** Hop distance: the number of edges of a shortest walk. */
  ghost function Dist(g: Graph, s: nat, e: nat): (d: nat)
    requires Reachable(g, s, e)
    ensures exists p :: IsShortest(g, p, s, e) && d == |p| - 1
  {
    var q :| WalkFrom(g, q, s, e);
    ShortestExists(g, s, e, q);
    var p :| IsShortest(g, p, s, e);
    |p| - 1
  }

  /** Every walk is at least as long as the hop distance, and a walk of exactly
      that length is a shortest one. */
  lemma DistIsLeast(g: Graph, s: nat, e: nat, q: seq<nat>)
    requires WalkFrom(g, q, s, e)
    ensures Reachable(g, s, e) && Dist(g, s, e) <= |q| - 1
    ensures |q| - 1 == Dist(g, s, e) ==> IsShortest(g, q, s, e)
  {
    assert Reachable(g, s, e);
    var d := Dist(g, s, e);
    var p :| IsShortest(g, p, s, e) && d == |p| - 1;
  }

  /** Cutting the loop out of a walk that revisits a vertex gives a shorter walk. */
  lemma CutLoop(g: Graph, p: seq<nat>, i: nat, j: nat)
    requires IsWalk(g, p) && i < j < |p| && p[i] == p[j]
    ensures WalkFrom(g, p[..i] + p[j..], p[0], p[|p| - 1])
  {
    var q := p[..i] + p[j..];
    forall k | 0 <= k < |q| - 1
      ensures q[k + 1] in g[q[k]]
    {
      if k + 1 < i {
        assert q[k] == p[k] && q[k + 1] == p[k + 1];
      } else if k + 1 == i {
        assert q[k] == p[k] && q[k + 1] == p[j] == p[i];
      } else {
        assert q[k] == p[k - i + j] && q[k + 1] == p[k + 1 - i + j];
      }
    }
  }

  /** A shortest walk repeats no vertex. */
  lemma ShortestHasNoRepeats(g: Graph, p: seq<nat>, s: nat, e: nat)
    requires IsShortest(g, p, s, e)
    ensures NoRepeats(p)
  {
    if !NoRepeats(p) {
      var i, j :| 0 <= i < j < |p| && p[i] == p[j];
      CutLoop(g, p, i, j);
      assert false;
    }
  }

  /** The walk with its last vertex removed. */
  lemma WalkPrefix(g: Graph, q: seq<nat>)
    requires IsWalk(g, q) && |q| > 1
    ensures IsWalk(g, q[..|q| - 1])
    ensures q[|q| - 1] in g[q[|q| - 2]]
  {
  }

  /** A shortest walk has exactly the hop distance as its number of edges. */
  lemma ShortestLength(g: Graph, p: seq<nat>, s: nat, e: nat)
    requires IsShortest(g, p, s, e)
    ensures Reachable(g, s, e) && |p| - 1 == Dist(g, s, e)
  {
    DistIsLeast(g, s, e, p);
    var p' :| IsShortest(g, p', s, e) && Dist(g, s, e) == |p'| - 1;
  }

  /** Every vertex reaches itself in zero hops. */
  lemma DistSelf(g: Graph, s: nat)
    requires s < |g|
    ensures Reachable(g, s, s) && Dist(g, s, s) == 0
  {
    assert WalkFrom(g, [s], s, s);
    DistIsLeast(g, s, s, [s]);
  }

  /** Two different vertices are at least one hop apart. */
  lemma DistPositive(g: Graph, s: nat, e: nat)
    requires Reachable(g, s, e) && s != e
    ensures Dist(g, s, e) >= 1
  {
    var d := Dist(g, s, e);
    var p :| IsShortest(g, p, s, e) && d == |p| - 1;
    assert p[0] != p[|p| - 1];
  }

  /** A shortest walk visits each vertex at most once, so it has at most |g| - 1 edges. */
  lemma DistBound(g: Graph, s: nat, e: nat)
    requires Reachable(g, s, e)
    ensures Dist(g, s, e) <= |g| - 1
  {
    var d := Dist(g, s, e);
    var p :| IsShortest(g, p, s, e) && d == |p| - 1;
    ShortestHasNoRepeats(g, p, s, e);
    DistinctElements(p);
    BoundedSetSize(set x: nat | x in p, |g|);
  }

  /** A sequence without repetitions has as many distinct elements as entries. */
  lemma {:induction false} DistinctElements(p: seq<nat>)
    requires NoRepeats(p)
    ensures |set x: nat | x in p| == |p|
  {
    if |p| > 0 {
      var q := p[..|p| - 1];
      DistinctElements(q);
      var last, prefix := p[|p| - 1], set x: nat | x in q;
      assert p == q + [last];
      assert (set x: nat | x in p) == prefix + {last};
      assert last !in prefix;
      assert |prefix + {last}| == |prefix| + 1;
    } else {
      assert (set x: nat | x in p) == {};
    }
  }

  /** A set of naturals all below `n` has at most `n` elements. */
  lemma {:induction false} BoundedSetSize(s: set<nat>, n: nat)
    requires forall x :: x in s ==> x < n
    ensures |s| <= n
  {
    if n > 0 {
      BoundedSetSize(s - {n - 1}, n - 1);
    } else {
      assert s == {};
    }
  }
}
