/** Closeness centrality: for every vertex, the reciprocal of the sum of its BFS
    distances to every other vertex (or of the lengths of those BFS paths when the
    graph is weighted by point distances), then min–max normalised. */
module Closeness {
  import opened Graphs
  import opened Bfs
  import opened Normalisation
  import opened Geometry

  /** What one target `e` adds to the unweighted sum: the hop distance, or −1 when
      the empty path of an unreachable target is counted as `Count - 1`. */
  ghost function HopTerm(g: Graph, s: nat, e: nat): int {
    if Reachable(g, s, e) then Dist(g, s, e) else -1
  }

  /** The unweighted sum over the targets `e < k` other than `node`. */
  ghost function HopSum(g: Graph, node: nat, k: nat): int {
    if k == 0 then 0
    else HopSum(g, node, k - 1) + (if k - 1 == node then 0 else HopTerm(g, node, k - 1))
  }

  /** Sum of the segment lengths along a vertex path. */
  function PathWeight(P: seq<Point>, distance: (Point, Point) -> real, p: seq<nat>): real
    requires forall k :: 0 <= k < |p| ==> p[k] < |P|
  {
    if |p| < 2 then 0.0
    else PathWeight(P, distance, p[..|p| - 1]) + distance(P[p[|p| - 2]], P[p[|p| - 1]])
  }

  /** The weighted sum over the targets `e < k` other than `node`, given the path
      found to each. */
  function WeightSum(P: seq<Point>, distance: (Point, Point) -> real, paths: seq<seq<nat>>, node: nat, k: nat): real
    requires k <= |paths| && forall e, j :: 0 <= e < |paths| && 0 <= j < |paths[e]| ==> paths[e][j] < |P|
  {
    if k == 0 then 0.0
    else WeightSum(P, distance, paths, node, k - 1)
         + (if k - 1 == node then 0.0 else PathWeight(P, distance, paths[k - 1]))
  }

  /** Point distances are never negative. */
  ghost predicate NonNegative(distance: (Point, Point) -> real) {
    forall a, b :: distance(a, b) >= 0.0
  }

  /** Zero for a zero sum, its reciprocal otherwise. */
  function Reciprocal(sum: real): (c: real)
    ensures sum == 0.0 ==> c == 0.0
    ensures sum != 0.0 ==> c * sum == 1.0
  {
    if sum == 0.0 then 0.0 else 1.0 / sum
  }

  /** The sum of distances from `node` to every other vertex (one iteration of the
      outer `foreach`). `paths[e]` is the BFS path found from `node` to `e`. */
  method NodeSum(g: Graph, P: seq<Point>, weighted: bool, distance: (Point, Point) -> real, node: nat)
    returns (sum: real, ghost paths: seq<seq<nat>>)
    requires ValidGraph(g) && node < |g| && (weighted ==> |g| <= |P|)
    ensures |paths| == |g| && paths[node] == []
    ensures forall e :: 0 <= e < |g| && e != node ==> PathFound(g, node, e, paths[e])
    ensures !weighted ==> sum == HopSum(g, node, |g|) as real
    ensures weighted ==> forall e, j :: 0 <= e < |paths| && 0 <= j < |paths[e]| ==> paths[e][j] < |P|
    ensures weighted ==> sum == WeightSum(P, distance, paths, node, |g|)
  {
    sum := 0.0;
    paths := [];
    for e := 0 to |g|
      invariant |paths| == e
      invariant forall f, j :: 0 <= f < e && 0 <= j < |paths[f]| ==> paths[f][j] < |g|
      invariant node < e ==> paths[node] == []
      invariant forall f :: 0 <= f < e && f != node ==> PathFound(g, node, f, paths[f])
      invariant !weighted ==> sum == HopSum(g, node, e) as real
      invariant weighted ==> sum == WeightSum(P, distance, paths, node, e)
    {
      var spath := PathTo(g, node, e);
      if node != e {
        if weighted {
          var w := PathLength(P, distance, spath);
          sum := sum + w;
        } else {
          sum := sum + (|spath| - 1) as real;
        }
      }
      if weighted {
        WeightSumSnoc(P, distance, paths, spath, node);
      }
      paths := paths + [spath];
    }
  }

  /** `p` is what the BFS finds from `s` to `e`: a shortest path, or none when `e`
      cannot be reached. */
  ghost predicate PathFound(g: Graph, s: nat, e: nat, p: seq<nat>) {
    && (p == [] <==> !Reachable(g, s, e))
    && (p != [] ==> IsShortest(g, p, s, e))
  }

  /** The BFS path from `node` to another target `e`, none to `node` itself; its
      hop count is what `e` adds to the unweighted sum. */
  method PathTo(g: Graph, node: nat, e: nat) returns (spath: seq<nat>)
    requires ValidGraph(g) && node < |g| && e < |g|
    ensures forall j :: 0 <= j < |spath| ==> spath[j] < |g|
    ensures e == node ==> spath == []
    ensures e != node ==> PathFound(g, node, e, spath) && HopTerm(g, node, e) == |spath| - 1
  {
    spath := [];
    if node != e {
      spath := ShortestPath(g, node, e);
      if spath != [] {
        ShortestLength(g, spath, node, e);
      }
    }
  }

  /** The inner loop adding `DistanceTo` between consecutive points of a path. */
  method PathLength(P: seq<Point>, distance: (Point, Point) -> real, path: seq<nat>) returns (w: real)
    requires forall k :: 0 <= k < |path| ==> path[k] < |P|
    ensures w == PathWeight(P, distance, path)
  {
    w := 0.0;
    if path == [] {
      return;
    }
    var i := 0;
    while i < |path| - 1
      invariant 0 <= i <= |path| - 1
      invariant w == PathWeight(P, distance, path[..i + 1])
    {
      assert path[..i + 2][..i + 1] == path[..i + 1];
      w := w + distance(P[path[i]], P[path[i + 1]]);
      i := i + 1;
    }
    assert path[..|path|] == path;
  }

  /** Appending the path to the next target adds its weight, unless the target is
      `node` itself. */
  lemma WeightSumSnoc(P: seq<Point>, distance: (Point, Point) -> real, paths: seq<seq<nat>>, spath: seq<nat>, node: nat)
    requires forall e, j :: 0 <= e < |paths| && 0 <= j < |paths[e]| ==> paths[e][j] < |P|
    requires forall j :: 0 <= j < |spath| ==> spath[j] < |P|
    ensures forall e, j :: 0 <= e < |paths + [spath]| && 0 <= j < |(paths + [spath])[e]| ==> (paths + [spath])[e][j] < |P|
    ensures WeightSum(P, distance, paths + [spath], node, |paths| + 1)
            == WeightSum(P, distance, paths, node, |paths|) + (if |paths| == node then 0.0 else PathWeight(P, distance, spath))
  {
    var long := paths + [spath];
    assert long[..|paths|] == paths;
    WeightSumPrefix(P, distance, paths, long, node, |paths|);
  }

  /** `WeightSum` over `k` targets reads only the first `k` paths. */
  lemma {:induction false} WeightSumPrefix(P: seq<Point>, distance: (Point, Point) -> real,
                                          short: seq<seq<nat>>, long: seq<seq<nat>>, node: nat, k: nat)
    requires k <= |short| <= |long| && short == long[..|short|]
    requires forall e, j :: 0 <= e < |long| && 0 <= j < |long[e]| ==> long[e][j] < |P|
    ensures WeightSum(P, distance, short, node, k) == WeightSum(P, distance, long, node, k)
  {
    if k > 0 {
      WeightSumPrefix(P, distance, short, long, node, k - 1);
    }
  }

  /** `paths[e]` is the BFS path from `v` to each other vertex `e`, none to `v`. */
  ghost predicate FoundFrom(g: Graph, v: nat, paths: seq<seq<nat>>) {
    && v < |paths| == |g| && paths[v] == []
    && forall e :: 0 <= e < |g| && e != v ==> PathFound(g, v, e, paths[e])
  }

  /** Every vertex on the paths has a point. */
  ghost predicate OnPoints(P: seq<Point>, paths: seq<seq<nat>>) {
    forall e, j :: 0 <= e < |paths| && 0 <= j < |paths[e]| ==> paths[e][j] < |P|
  }

  /** `c` is the reciprocal of the summed segment lengths along the paths from `v`. */
  ghost predicate WeightedFrom(g: Graph, P: seq<Point>, distance: (Point, Point) -> real, v: nat,
                               paths: seq<seq<nat>>, c: real) {
    && |paths| == |g| && OnPoints(P, paths)
    && c == Reciprocal(WeightSum(P, distance, paths, v, |g|))
  }

  /** `Centrality` gets one value per branch, `Normalized` its min–max ratio.
      `allPaths[v]` holds the BFS paths from `v` whose hop counts or segment
      lengths are summed. */
  method Closeness(g: Graph, P: seq<Point>, weighted: bool, distance: (Point, Point) -> real)
    returns (centrality: seq<real>, normalized: seq<Double>, ghost allPaths: seq<seq<seq<nat>>>)
    requires ValidGraph(g) && |g| > 0 && (weighted ==> |g| <= |P|)
    ensures |centrality| == |g| && |allPaths| == |g|
    ensures forall v :: 0 <= v < |g| ==> FoundFrom(g, v, allPaths[v])
    ensures !weighted ==> forall v :: 0 <= v < |g| ==> centrality[v] == Reciprocal(HopSum(g, v, |g|) as real)
    ensures weighted ==> forall v :: 0 <= v < |g| ==> WeightedFrom(g, P, distance, v, allPaths[v], centrality[v])
    ensures weighted && NonNegative(distance) ==>
              forall v :: 0 <= v < |g| ==> centrality[v] >= 0.0
    ensures normalized == MinMaxRatio(centrality)
  {
    centrality := [];
    allPaths := [];
    for node := 0 to |g|
      invariant |centrality| == node && |allPaths| == node
      invariant forall v :: 0 <= v < node ==> FoundFrom(g, v, allPaths[v])
      invariant !weighted ==> forall v :: 0 <= v < node ==> centrality[v] == Reciprocal(HopSum(g, v, |g|) as real)
      invariant weighted ==> forall v :: 0 <= v < node ==> WeightedFrom(g, P, distance, v, allPaths[v], centrality[v])
      invariant weighted && NonNegative(distance) ==>
                  forall v :: 0 <= v < node ==> centrality[v] >= 0.0
    {
      var sum, paths := NodeSum(g, P, weighted, distance, node);
      if weighted && NonNegative(distance) {
        WeightSumNonNegative(P, distance, paths, node, |g|);
      }
      centrality := centrality + [Reciprocal(sum)];
      allPaths := allPaths + [paths];
    }
    normalized := Normalize(centrality);
  }

  /** With non-negative segment lengths the weighted sum is non-negative. */
  lemma {:induction false} WeightSumNonNegative(P: seq<Point>, distance: (Point, Point) -> real,
                                                paths: seq<seq<nat>>, node: nat, k: nat)
    requires k <= |paths| && forall e, j :: 0 <= e < |paths| && 0 <= j < |paths[e]| ==> paths[e][j] < |P|
    requires NonNegative(distance)
    ensures WeightSum(P, distance, paths, node, k) >= 0.0
  {
    if k > 0 {
      WeightSumNonNegative(P, distance, paths, node, k - 1);
      PathWeightNonNegative(P, distance, paths[k - 1]);
    }
  }

  lemma {:induction false} PathWeightNonNegative(P: seq<Point>, distance: (Point, Point) -> real, p: seq<nat>)
    requires forall k :: 0 <= k < |p| ==> p[k] < |P|
    requires NonNegative(distance)
    ensures PathWeight(P, distance, p) >= 0.0
  {
    if |p| >= 2 {
      PathWeightNonNegative(P, distance, p[..|p| - 1]);
    }
  }

  /** Each of the other `k` targets adds between −1 and `|g| − 1`. */
  lemma {:induction false} HopSumBounds(g: Graph, node: nat, k: nat)
    requires node < |g| && k <= |g|
    ensures -(k as int) <= HopSum(g, node, k) <= k * (|g| - 1)
  {
    if k > 0 {
      HopSumBounds(g, node, k - 1);
      if k - 1 != node && Reachable(g, node, k - 1) {
        DistBound(g, node, k - 1);
      }
      assert k * (|g| - 1) == (k - 1) * (|g| - 1) + (|g| - 1);
    }
  }

  /** When `node` reaches every vertex, each other target adds at least 1, so the
      sum is at least `|g| − 1` and the centrality is positive. */
  lemma {:induction false} ConnectedHopSum(g: Graph, node: nat, k: nat)
    requires node < |g| && k <= |g|
    requires forall e :: 0 <= e < |g| ==> Reachable(g, node, e)
    ensures HopSum(g, node, k) >= k - (if node < k then 1 else 0)
  {
    if k > 0 {
      ConnectedHopSum(g, node, k - 1);
      if k - 1 != node {
        DistPositive(g, node, k - 1);
      }
    }
  }

  /** A vertex that reaches no other vertex sums to `−(|g| − 1)`: every other target
      contributes the −1 of an empty path, so its centrality is negative. */
  lemma {:induction false} IsolatedHopSum(g: Graph, node: nat, k: nat)
    requires node < |g| && k <= |g|
    requires forall e :: 0 <= e < |g| && e != node ==> !Reachable(g, node, e)
    ensures HopSum(g, node, k) == -(k - (if node < k then 1 else 0))
  {
    if k > 0 {
      IsolatedHopSum(g, node, k - 1);
    }
  }

  /** The centrality of a vertex reaching every other vertex lies in (0, 1 / (|g| − 1)]. */
  lemma ConnectedCentrality(g: Graph, node: nat)
    requires node < |g| && |g| >= 2
    requires forall e :: 0 <= e < |g| ==> Reachable(g, node, e)
    ensures 0.0 < Reciprocal(HopSum(g, node, |g|) as real) <= 1.0 / (|g| - 1) as real
  {
    ConnectedHopSum(g, node, |g|);
    var s := HopSum(g, node, |g|) as real;
    var t := (|g| - 1) as real;
    assert s >= t > 0.0;
    ReciprocalAntitone(s, t);
  }

  /** The centrality of a vertex reaching no other vertex is −1 / (|g| − 1). */
  lemma IsolatedCentrality(g: Graph, node: nat)
    requires node < |g| && |g| >= 2
    requires forall e :: 0 <= e < |g| && e != node ==> !Reachable(g, node, e)
    ensures Reciprocal(HopSum(g, node, |g|) as real) == -1.0 / (|g| - 1) as real
  {
    IsolatedHopSum(g, node, |g|);
  }

  lemma ReciprocalAntitone(s: real, t: real)
    requires s >= t > 0.0
    ensures 0.0 < Reciprocal(s) <= 1.0 / t
  {
    assert (1.0 / s) * s == 1.0 && (1.0 / t) * t == 1.0;
    assert (1.0 / s) * t <= (1.0 / s) * s;
  }
}
