/** Betweenness centrality: for every ordered pair of distinct vertices, the BFS path
    between them adds one to the counter of each vertex strictly inside it; the
    counters are then min–max normalised. */
module Betweenness {
  import opened Graphs
  import opened Bfs
  import opened Normalisation

  /** Positions 1 .. |p| − 2 of a path: the vertices it passes through. */
  function Interior(p: seq<nat>): seq<nat> {
    if |p| >= 2 then p[1..|p| - 1] else []
  }

  /** Sum of a list of counters. */
  function Total(c: seq<int>): int {
    if c == [] then 0 else Total(c[..|c| - 1]) + c[|c| - 1]
  }

  /** The counters as the doubles `Counter.Min()` and the division see. */
  function AsReals(c: seq<int>): seq<real> {
    seq(|c|, i requires 0 <= i < |c| => c[i] as real)
  }

  /** What one ordered pair adds to the sum of all counters: the number of vertices
      strictly between its ends on a shortest path, whichever one BFS finds. */
  ghost function PairTerm(g: Graph, s: nat, e: nat): int {
    if s != e && Reachable(g, s, e) then Dist(g, s, e) - 1 else 0
  }

  /** `PairTerm` summed over the targets `e < k`. */
  ghost function RowTotal(g: Graph, s: nat, k: nat): int {
    if k == 0 then 0 else RowTotal(g, s, k - 1) + PairTerm(g, s, k - 1)
  }

  /** `PairTerm` summed over the sources `s < k` and every target. */
  ghost function PairsTotal(g: Graph, k: nat): int {
    if k == 0 then 0 else PairsTotal(g, k - 1) + RowTotal(g, k - 1, |g|)
  }

  /** Every vertex passed through by the paths of one row, with multiplicity. */
  ghost function RowVisits(row: seq<seq<nat>>): multiset<nat> {
    if row == [] then multiset{}
    else RowVisits(row[..|row| - 1]) + multiset(Interior(row[|row| - 1]))
  }

  /** Every vertex passed through by the paths of every row, with multiplicity. */
  ghost function AllVisits(found: seq<seq<seq<nat>>>): multiset<nat> {
    if found == [] then multiset{}
    else AllVisits(found[..|found| - 1]) + RowVisits(found[|found| - 1])
  }

  /** `row[e]` is the path BFS returns from `s` to `e`: empty for `e == s` (the pair
      is skipped) and for an unreachable `e`, a shortest walk otherwise. */
  ghost predicate ShortestRow(g: Graph, s: nat, row: seq<seq<nat>>) {
    |row| == |g| && s < |g| && forall e :: 0 <= e < |g| ==> Found(g, s, e, row[e])
  }

  /** `p` is what BFS returns for the pair (s, e) when `s != e`. */
  ghost predicate Found(g: Graph, s: nat, e: nat, p: seq<nat>) {
    if s == e then p == []
    else (p == [] <==> !Reachable(g, s, e)) && (p != [] ==> IsShortest(g, p, s, e))
  }

  ghost predicate PathTable(g: Graph, found: seq<seq<seq<nat>>>) {
    |found| == |g| && forall s :: 0 <= s < |g| ==> ShortestRow(g, s, found[s])
  }

  /** The innermost loop: +1 on the counter of every interior vertex of `path`. */
  method AddInterior(counter: seq<int>, path: seq<nat>) returns (counter': seq<int>)
    requires forall k :: 0 <= k < |path| ==> path[k] < |counter|
    ensures |counter'| == |counter|
    ensures forall v :: 0 <= v < |counter| ==> counter'[v] == counter[v] + multiset(Interior(path))[v]
    ensures Total(counter') == Total(counter) + |Interior(path)|
  {
    counter' := counter;
    if |path| < 2 {
      return;
    }
    for i := 1 to |path| - 1
      invariant |counter'| == |counter|
      invariant forall v :: 0 <= v < |counter| ==> counter'[v] == counter[v] + multiset(path[1..i])[v]
      invariant Total(counter') == Total(counter) + i - 1
    {
      var visited := path[i];
      TotalIncrement(counter', visited);
      assert path[1..i + 1] == path[1..i] + [visited];
      counter' := counter'[visited := counter'[visited] + 1];
    }
  }

  lemma {:induction false} TotalIncrement(c: seq<int>, x: nat)
    requires x < |c|
    ensures Total(c[x := c[x] + 1]) == Total(c) + 1
  {
    var c' := c[x := c[x] + 1];
    assert c'[..|c| - 1] == if x == |c| - 1 then c[..|c| - 1] else c[..|c| - 1][x := c[x] + 1];
    if x < |c| - 1 {
      TotalIncrement(c[..|c| - 1], x);
    }
  }

  lemma {:induction false} TotalZeros(n: nat)
    ensures Total(seq(n, _ => 0)) == 0
  {
    if n > 0 {
      assert seq(n, _ => 0)[..n - 1] == seq(n - 1, _ => 0);
      TotalZeros(n - 1);
    }
  }

  /** One pass of the inner loop body: the BFS path for (node, e), skipped when
      `node == e`, and +1 for each vertex inside it. */
  method CountPair(g: Graph, node: nat, e: nat, counter: seq<int>) returns (counter': seq<int>, spath: seq<nat>)
    requires ValidGraph(g) && node < |g| && |counter| == |g|
    ensures |counter'| == |g| && Found(g, node, e, spath)
    ensures forall v :: 0 <= v < |g| ==> counter'[v] == counter[v] + multiset(Interior(spath))[v]
    ensures Total(counter') == Total(counter) + PairTerm(g, node, e)
  {
    spath := [];
    if node != e {
      spath := ShortestPath(g, node, e);
      if spath != [] {
        ShortestLength(g, spath, node, e);
        DistPositive(g, node, e);
      }
    }
    counter' := AddInterior(counter, spath);
  }

  /** The inner `foreach (int End in Nodes)` for one `Node`. */
  method CountFrom(g: Graph, node: nat, counter: seq<int>) returns (counter': seq<int>, ghost row: seq<seq<nat>>)
    requires ValidGraph(g) && node < |g| && |counter| == |g|
    ensures |counter'| == |g| && ShortestRow(g, node, row)
    ensures forall v :: 0 <= v < |g| ==> counter'[v] == counter[v] + RowVisits(row)[v]
    ensures Total(counter') == Total(counter) + RowTotal(g, node, |g|)
  {
    counter' := counter;
    row := [];
    for e := 0 to |g|
      invariant |counter'| == |g| && |row| == e
      invariant FoundAll(g, node, row)
      invariant forall v :: 0 <= v < |g| ==> counter'[v] == counter[v] + RowVisits(row)[v]
      invariant Total(counter') == Total(counter) + RowTotal(g, node, e)
    {
      var spath;
      var next;
      next, spath := CountPair(g, node, e, counter');
      RowStep(g, node, counter, counter', next, row, spath);
      counter', row := next, row + [spath];
    }
    forall f | 0 <= f < |g|
      ensures Found(g, node, f, row[f])
    {
      FoundAllAt(g, node, row, f);
    }
  }

  lemma RowStep(g: Graph, node: nat, counter: seq<int>, c0: seq<int>, c1: seq<int>,
                row: seq<seq<nat>>, spath: seq<nat>)
    requires |c0| == |g| && |c1| == |g| && |counter| == |g|
    requires FoundAll(g, node, row) && Found(g, node, |row|, spath)
    requires forall v :: 0 <= v < |g| ==> c0[v] == counter[v] + RowVisits(row)[v]
    requires forall v :: 0 <= v < |g| ==> c1[v] == c0[v] + multiset(Interior(spath))[v]
    requires Total(c0) == Total(counter) + RowTotal(g, node, |row|)
    requires Total(c1) == Total(c0) + PairTerm(g, node, |row|)
    ensures FoundAll(g, node, row + [spath])
    ensures forall v :: 0 <= v < |g| ==> c1[v] == counter[v] + RowVisits(row + [spath])[v]
    ensures Total(c1) == Total(counter) + RowTotal(g, node, |row| + 1)
  {
    assert (row + [spath])[..|row|] == row;
  }

  /** `Found` for every target `e < |row|`, one target at a time. */
  ghost predicate FoundAll(g: Graph, s: nat, row: seq<seq<nat>>) {
    row == [] || (FoundAll(g, s, row[..|row| - 1]) && Found(g, s, |row| - 1, row[|row| - 1]))
  }

  lemma {:induction false} FoundAllAt(g: Graph, s: nat, row: seq<seq<nat>>, e: nat)
    requires FoundAll(g, s, row) && e < |row|
    ensures Found(g, s, e, row[e])
  {
    if e < |row| - 1 {
      FoundAllAt(g, s, row[..|row| - 1], e);
    }
  }

  /** `Counter` gets one entry per vertex, `Normalized` its min–max ratio. `found[s][e]`
      is the path BFS returned for the pair (s, e). */
  method Betweenness(g: Graph) returns (counter: seq<int>, normalized: seq<Double>, ghost found: seq<seq<seq<nat>>>)
    requires ValidGraph(g) && |g| > 0
    ensures |counter| == |g| && PathTable(g, found)
    ensures forall v :: 0 <= v < |g| ==> counter[v] == AllVisits(found)[v]
    ensures Total(counter) == PairsTotal(g, |g|)
    ensures normalized == MinMaxRatio(AsReals(counter))
  {
    counter := seq(|g|, _ => 0);
    TotalZeros(|g|);
    found := [];
    for node := 0 to |g|
      invariant |counter| == |g| && |found| == node
      invariant forall s :: 0 <= s < node ==> ShortestRow(g, s, found[s])
      invariant forall v :: 0 <= v < |g| ==> counter[v] == AllVisits(found)[v]
      invariant Total(counter) == PairsTotal(g, node)
    {
      ghost var row;
      counter, row := CountFrom(g, node, counter);
      assert (found + [row])[..node] == found;
      found := found + [row];
    }
    normalized := Normalize(AsReals(counter));
  }

  /** Fewer than two distinct neighbours. */
  ghost predicate FewNeighbours(g: Graph, v: nat)
    requires v < |g|
  {
    forall a, b :: a in g[v] && b in g[v] ==> a == b
  }

  /** On an undirected graph, a shortest path can pass through a vertex only by
      entering from one neighbour and leaving to a different one. */
  lemma NotInterior(g: Graph, p: seq<nat>, s: nat, e: nat, v: nat)
    requires ValidGraph(g) && Symmetric(g) && v < |g| && FewNeighbours(g, v)
    requires IsShortest(g, p, s, e)
    ensures multiset(Interior(p))[v] == 0
  {
    ShortestHasNoRepeats(g, p, s, e);
    forall i | 1 <= i < |p| - 1
      ensures p[i] != v
    {
      TwoNeighbours(g, p, i);
    }
    assert v !in Interior(p);
  }

  /** Inside a walk without repeats, a vertex is entered from one neighbour and left
      to another. */
  lemma TwoNeighbours(g: Graph, p: seq<nat>, i: nat)
    requires ValidGraph(g) && Symmetric(g) && IsWalk(g, p) && NoRepeats(p) && 1 <= i < |p| - 1
    ensures p[i - 1] in g[p[i]] && p[i + 1] in g[p[i]] && p[i - 1] != p[i + 1]
  {
    assert p[i] in g[p[i - 1]];
  }

  lemma {:induction false} RowNotVisited(g: Graph, s: nat, row: seq<seq<nat>>, v: nat)
    requires ValidGraph(g) && Symmetric(g) && v < |g| && FewNeighbours(g, v)
    requires forall e :: 0 <= e < |row| && row[e] != [] ==> IsShortest(g, row[e], s, e)
    ensures RowVisits(row)[v] == 0
  {
    if row != [] {
      var last := |row| - 1;
      RowNotVisited(g, s, row[..last], v);
      if row[last] != [] {
        NotInterior(g, row[last], s, last, v);
      }
    }
  }

  /** A vertex with fewer than two distinct neighbours is never counted. */
  lemma {:induction false} FewNeighboursScoreZero(g: Graph, found: seq<seq<seq<nat>>>, k: nat, v: nat)
    requires ValidGraph(g) && Symmetric(g) && v < |g| && FewNeighbours(g, v)
    requires PathTable(g, found) && k <= |found|
    ensures AllVisits(found[..k])[v] == 0
  {
    if k > 0 {
      FewNeighboursScoreZero(g, found, k - 1, v);
      assert found[..k][..k - 1] == found[..k - 1];
      RowNotVisited(g, k - 1, found[k - 1], v);
    }
  }
}
