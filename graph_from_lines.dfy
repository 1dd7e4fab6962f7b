/** `GraphFromLinesComponent`: the end points of straight curves are welded into
    vertices (points closer than 0.001 on every axis count as one), and every line
    joins the vertices its two ends snap to, in both adjacency lists. */
module GraphFromLines {
  import opened Geometry
  import opened Graphs
  import opened Seqs

  /** A curve as the component sees it: its end points and whether it is linear. */
  datatype Curve = Curve(start: Point, end: Point, linear: bool)

  /** The tolerance `AreSimilar` applies on each axis. */
  const Tolerance: real := 0.001

  /** `AreSimilar`: every coordinate differs by less than the tolerance. */
  predicate AreSimilar(a: Point, b: Point) {
    Abs(a.x - b.x) < Tolerance && Abs(a.y - b.y) < Tolerance && Abs(a.z - b.z) < Tolerance
  }

  lemma SimilarReflexive(a: Point)
    ensures AreSimilar(a, a)
  {
  }

  lemma SimilarSymmetric(a: Point, b: Point)
    ensures AreSimilar(a, b) == AreSimilar(b, a)
  {
  }

  /** The test is per axis, not Euclidean: two similar points can lie farther apart
      than the tolerance. */
  lemma SimilarNotEuclidean()
    ensures var a, b := Point(0.0, 0.0, 0.0), Point(0.0009, 0.0009, 0.0009);
            AreSimilar(a, b) && SqDist(a, b) > Tolerance * Tolerance
  {
  }

  /** Similarity is not transitive. */
  lemma SimilarNotTransitive()
    ensures var a, b, c := Point(0.0, 0.0, 0.0), Point(0.0006, 0.0, 0.0), Point(0.0012, 0.0, 0.0);
            AreSimilar(a, b) && AreSimilar(b, c) && !AreSimilar(a, c)
  {
  }

  // ---------------------------------------------------------------------------
  // Lines and their end points

  /** The lines of the linear curves, in order. */
  function Straight(curves: seq<Curve>): seq<Line> {
    if curves == [] then []
    else
      var c := curves[|curves| - 1];
      Straight(curves[..|curves| - 1]) + if c.linear then [Line(c.start, c.end)] else []
  }

  /** A line of `Straight(curves)` is exactly the line of some linear curve. */
  lemma {:induction false} StraightLines(curves: seq<Curve>, ln: Line)
    ensures ln in Straight(curves) <==>
            exists k :: 0 <= k < |curves| && curves[k].linear && ln == Line(curves[k].start, curves[k].end)
  {
    if curves != [] {
      var init := curves[..|curves| - 1];
      StraightLines(init, ln);
      if ln in Straight(init) {
        var k :| 0 <= k < |init| && init[k].linear && ln == Line(init[k].start, init[k].end);
        assert curves[k] == init[k];
      }
      if exists k :: 0 <= k < |curves| && curves[k].linear && ln == Line(curves[k].start, curves[k].end) {
        var k :| 0 <= k < |curves| && curves[k].linear && ln == Line(curves[k].start, curves[k].end);
        if k < |init| {
          assert init[k] == curves[k];
        }
      }
    }
  }

  /** The loop over the input curves: each linear curve becomes a line from its start
      to its end point; any other curve raises the error message and is skipped. */
  method CollectLines(curves: seq<Curve>) returns (L: seq<Line>, error: bool)
    ensures L == Straight(curves)
    ensures error <==> exists k :: 0 <= k < |curves| && !curves[k].linear
  {
    L, error := [], false;
    for i := 0 to |curves|
      invariant L == Straight(curves[..i])
      invariant error <==> exists k :: 0 <= k < i && !curves[k].linear
    {
      assert curves[..i + 1][..i] == curves[..i];
      var curve := curves[i];
      if curve.linear {
        L := L + [Line(curve.start, curve.end)];
      } else {
        error := true;
      }
    }
    assert curves[..|curves|] == curves;
  }

  /** `p` is the `From` or `To` point of one of the lines. */
  ghost predicate IsEnd(L: seq<Line>, p: Point) {
    exists k :: 0 <= k < |L| && (L[k].from == p || L[k].to == p)
  }

  /** `s` with `p` appended unless it already holds that exact point. */
  function AddNew(s: seq<Point>, p: Point): seq<Point> {
    if p in s then s else s + [p]
  }

  /** The line ends in first-appearance order: each line's `From`, then its `To`. */
  function Ends(L: seq<Line>): seq<Point> {
    if L == [] then []
    else
      var ln := L[|L| - 1];
      AddNew(AddNew(Ends(L[..|L| - 1]), ln.from), ln.to)
  }

  /** The `points` loop: each line's `From`, then its `To`, is appended unless the
      list already holds that exact point. */
  method CollectPoints(L: seq<Line>) returns (points: seq<Point>)
    ensures points == Ends(L)
    ensures Distinct(points)
    ensures forall p :: p in points <==> IsEnd(L, p)
  {
    points := [];
    for i := 0 to |L|
      invariant points == Ends(L[..i])
    {
      assert L[..i + 1][..i] == L[..i];
      var ln := L[i];
      if ln.from !in points {
        points := points + [ln.from];
      }
      if ln.to !in points {
        points := points + [ln.to];
      }
    }
    assert L[..|L|] == L;
    EndsMembers(L);
  }

  /** The first-appearance list holds every line end exactly once. */
  lemma {:induction false} EndsMembers(L: seq<Line>)
    ensures Distinct(Ends(L))
    ensures forall p :: p in Ends(L) <==> IsEnd(L, p)
  {
    if L != [] {
      var init := L[..|L| - 1];
      EndsMembers(init);
      forall p | IsEnd(init, p)
        ensures IsEnd(L, p)
      {
        var k :| 0 <= k < |init| && (init[k].from == p || init[k].to == p);
        assert L[k] == init[k];
      }
      forall p | IsEnd(L, p) && !IsEnd(init, p)
        ensures p == L[|L| - 1].from || p == L[|L| - 1].to
      {
        var k :| 0 <= k < |L| && (L[k].from == p || L[k].to == p);
      }
    }
  }

  // ---------------------------------------------------------------------------
  // Welding

  /** `points[j]` is similar to some point before it. */
  ghost predicate Shadowed(points: seq<Point>, j: nat) {
    j < |points| && exists i :: 0 <= i < j && AreSimilar(points[i], points[j])
  }

  /** `points[j]` is similar to `points[i]` for an `i` before `lo`, or for `i == lo`
      and `j` above `hi`: the pairs the nested loops have visited. */
  ghost predicate Visited(points: seq<Point>, lo: nat, hi: nat, p: Point) {
    exists i, j :: && 0 <= i <= lo && i < j < |points| && (i < lo || hi < j)
                   && points[j] == p && AreSimilar(points[i], points[j])
  }

  /** The `ToRemove` loops: for each `i`, every later point similar to `points[i]`,
      scanning `j` down from the end. A point is listed exactly when some earlier
      point is similar to it. */
  method FindDuplicates(points: seq<Point>) returns (toRemove: seq<Point>)
    ensures forall p :: p in toRemove <==> exists j :: 0 <= j < |points| && points[j] == p && Shadowed(points, j)
  {
    toRemove := [];
    for i := 0 to |points|
      invariant forall p :: p in toRemove <==> Visited(points, i, |points|, p)
    {
      var pt := points[i];
      var j := |points| - 1;
      while j > i
        invariant i <= j < |points| || (j == i - 1 && |points| == i)
        invariant forall p :: p in toRemove <==> Visited(points, i, j, p)
      {
        var other := points[j];
        if AreSimilar(pt, other) {
          toRemove := toRemove + [points[j]];
        }
        j := j - 1;
      }
      forall p ensures Visited(points, i, j, p) <==> Visited(points, i + 1, |points|, p) {
        if Visited(points, i, j, p) {
          var i', j' :| && 0 <= i' <= i && i' < j' < |points| && (i' < i || j < j')
                        && points[j'] == p && AreSimilar(points[i'], points[j']);
        }
        if Visited(points, i + 1, |points|, p) {
          var i', j' :| && 0 <= i' <= i + 1 && i' < j' < |points| && (i' < i + 1 || |points| < j')
                        && points[j'] == p && AreSimilar(points[i'], points[j']);
        }
      }
    }
    forall p
      ensures Visited(points, |points|, |points|, p) <==>
              exists j :: 0 <= j < |points| && points[j] == p && Shadowed(points, j)
    {
      if Visited(points, |points|, |points|, p) {
        var i, j :| && 0 <= i <= |points| && i < j < |points| && (i < |points| || |points| < j)
                    && points[j] == p && AreSimilar(points[i], points[j]);
        assert Shadowed(points, j);
      }
    }
  }

  /** `uniquePointsSet.ExceptWith(ToRemove)`: the points not listed for removal, in
      the order they were collected. */
  function Survivors(points: seq<Point>, toRemove: seq<Point>): (pts: seq<Point>)
    ensures forall p :: p in pts <==> p in points && p !in toRemove
    ensures Distinct(points) ==> Distinct(pts)
  {
    if points == [] then []
    else
      var rest := Survivors(points[1..], toRemove);
      if points[0] in toRemove then rest
      else
        assert Distinct(points) ==> points[0] !in points[1..];
        [points[0]] + rest
  }

  /** The first collected point is never removed: nothing comes before it. */
  lemma FirstSurvives(points: seq<Point>, toRemove: seq<Point>)
    requires |points| > 0 && Distinct(points)
    requires forall p :: p in toRemove <==> exists j :: 0 <= j < |points| && points[j] == p && Shadowed(points, j)
    ensures points[0] in Survivors(points, toRemove)
  {
    forall j | 0 <= j < |points| && points[j] == points[0]
      ensures !Shadowed(points, j)
    {
      assert j == 0;
    }
  }

  /** No two surviving points are similar. */
  lemma SurvivorsApart(points: seq<Point>, toRemove: seq<Point>, a: Point, b: Point)
    requires Distinct(points)
    requires forall p :: p in toRemove <==> exists j :: 0 <= j < |points| && points[j] == p && Shadowed(points, j)
    requires a in Survivors(points, toRemove) && b in Survivors(points, toRemove) && a != b
    ensures !AreSimilar(a, b)
  {
    var i: nat :| i < |points| && points[i] == a;
    var j: nat :| j < |points| && points[j] == b;
    assert i < j ==> (AreSimilar(a, b) ==> Shadowed(points, j));
    assert j < i ==> (AreSimilar(b, a) ==> Shadowed(points, i));
  }

  /** A chain of similar points keeps only its first: the last point of
      `a ~ b ~ c` is dropped although no surviving point is similar to it. */
  lemma ChainCollapses(points: seq<Point>, toRemove: seq<Point>)
    requires points == [Point(0.0, 0.0, 0.0), Point(0.0006, 0.0, 0.0), Point(0.0012, 0.0, 0.0)]
    requires forall p :: p in toRemove <==> exists j :: 0 <= j < |points| && points[j] == p && Shadowed(points, j)
    ensures Survivors(points, toRemove) == [points[0]]
    ensures !AreSimilar(points[0], points[2])
  {
    assert AreSimilar(points[0], points[1]) && AreSimilar(points[1], points[2]);
    assert Shadowed(points, 1) && Shadowed(points, 2);
    assert points[1] in toRemove && points[2] in toRemove;
    assert Distinct(points);
    FirstSurvives(points, toRemove);
    assert Survivors(points[2..][1..], toRemove) == [];
    assert Survivors(points[1..][1..], toRemove) == [];
    assert Survivors(points[1..], toRemove) == [];
  }

  /** The index loop: vertex `i` is the `i`-th surviving point and starts with an
      empty adjacency list. */
  method AssignIndices(pts: seq<Point>) returns (pointToIndex: map<Point, nat>, graph: seq<seq<nat>>)
    ensures |graph| == |pts| && forall i :: 0 <= i < |pts| ==> graph[i] == []
    ensures forall p :: p in pointToIndex <==> p in pts
    ensures Distinct(pts) ==> forall i :: 0 <= i < |pts| ==> pointToIndex[pts[i]] == i
  {
    pointToIndex, graph := map[], [];
    for i := 0 to |pts|
      invariant |graph| == i && forall k :: 0 <= k < i ==> graph[k] == []
      invariant forall p :: p in pointToIndex <==> p in pts[..i]
      invariant Distinct(pts) ==> forall k :: 0 <= k < i ==> pointToIndex[pts[k]] == k
    {
      assert pts[..i + 1] == pts[..i] + [pts[i]];
      pointToIndex := pointToIndex[pts[i] := i];
      graph := graph + [[]];
    }
    assert pts[..|pts|] == pts;
  }

  // ---------------------------------------------------------------------------
  // Snapping and connecting

  /** `c` is the first index of a point nearest to `pt`. */
  ghost predicate IsClosest(pt: Point, pts: seq<Point>, c: nat) {
    && c < |pts|
    && (forall j :: 0 <= j < |pts| ==> SqDist(pt, pts[c]) <= SqDist(pt, pts[j]))
    && (forall j :: 0 <= j < c ==> SqDist(pt, pts[c]) < SqDist(pt, pts[j]))
  }

  /** Only one index is the first nearest. */
  lemma ClosestUnique(pt: Point, pts: seq<Point>, c: nat, d: nat)
    requires IsClosest(pt, pts, c) && IsClosest(pt, pts, d)
    ensures c == d
  {
    assert SqDist(pt, pts[c]) <= SqDist(pt, pts[d]) && SqDist(pt, pts[d]) <= SqDist(pt, pts[c]);
  }

  /** `FindClosestPt`: the running minimum over the indexed points in order, replaced
      only by a strictly nearer one, so the first nearest point wins. With no points
      there is none (`Point3d.Unset`). */
  method FindClosest(pt: Point, pts: seq<Point>) returns (closest: Option<nat>)
    ensures closest.None? <==> |pts| == 0
    ensures closest.Some? ==> IsClosest(pt, pts, closest.value)
  {
    closest := None;
    for k := 0 to |pts|
      invariant closest.None? <==> k == 0
      invariant closest.Some? ==> IsClosest(pt, pts[..k], closest.value)
    {
      if closest.None? || SqDist(pt, pts[k]) < SqDist(pt, pts[closest.value]) {
        closest := Some(k);
      }
    }
    assert pts[..|pts|] == pts;
  }

  /** A member of `pts` snaps to its own index. */
  lemma SnapToSelf(pts: seq<Point>, c: nat)
    requires Distinct(pts) && c < |pts|
    ensures IsClosest(pts[c], pts, c)
  {
    forall j | 0 <= j < |pts|
      ensures SqDist(pts[c], pts[c]) <= SqDist(pts[c], pts[j])
    {
      SqDistPositive(pts[c], pts[j]);
    }
    forall j | 0 <= j < c
      ensures SqDist(pts[c], pts[c]) < SqDist(pts[c], pts[j])
    {
      SqDistPositive(pts[c], pts[j]);
    }
  }

  /** `u` and `v` are the snapped ends of one of the lines, in either direction. */
  predicate Connects(ends: seq<(nat, nat)>, u: nat, v: nat) {
    (u, v) in ends || (v, u) in ends
  }

  /** The adjacency lists describe exactly the snapped lines, without repeats. */
  ghost predicate Describes(graph: seq<seq<nat>>, ends: seq<(nat, nat)>) {
    && (forall u, v :: 0 <= u < |graph| ==> (v in graph[u] <==> Connects(ends, u, v)))
    && (forall u :: 0 <= u < |graph| ==> Distinct(graph[u]))
  }

  /** The connection loop: each line's ends snap to their nearest points, and each
      vertex is added to the other's list unless already there. A line whose ends
      snap to one vertex adds that vertex to its own list once. */
  method Connect(L: seq<Line>, pts: seq<Point>, pointToIndex: map<Point, nat>, empty: seq<seq<nat>>)
    returns (graph: seq<seq<nat>>, ghost ends: seq<(nat, nat)>)
    requires Distinct(pts) && (|L| > 0 ==> |pts| > 0)
    requires forall p :: p in pointToIndex <==> p in pts
    requires forall i :: 0 <= i < |pts| ==> pointToIndex[pts[i]] == i
    requires |empty| == |pts| && forall i :: 0 <= i < |pts| ==> empty[i] == []
    ensures |graph| == |pts| && |ends| == |L|
    ensures forall k :: 0 <= k < |L| ==> IsClosest(L[k].from, pts, ends[k].0) && IsClosest(L[k].to, pts, ends[k].1)
    ensures Describes(graph, ends)
  {
    graph, ends := empty, [];
    for k := 0 to |L|
      invariant |graph| == |pts| && |ends| == k
      invariant forall m :: 0 <= m < k ==> IsClosest(L[m].from, pts, ends[m].0) && IsClosest(L[m].to, pts, ends[m].1)
      invariant Describes(graph, ends)
    {
      var cf := FindClosest(L[k].from, pts);
      var ct := FindClosest(L[k].to, pts);
      graph := AddAdjacency(graph, ends, pointToIndex[pts[cf.value]], pointToIndex[pts[ct.value]]);
      ends := ends + [(cf.value, ct.value)];
    }
  }

  /** One line's adjacency: each end vertex is added to the other's list unless it is
      already there. */
  method AddAdjacency(graph: seq<seq<nat>>, ghost ends: seq<(nat, nat)>, fromIndex: nat, toIndex: nat)
    returns (graph': seq<seq<nat>>)
    requires fromIndex < |graph| && toIndex < |graph| && Describes(graph, ends)
    ensures |graph'| == |graph| && Describes(graph', ends + [(fromIndex, toIndex)])
  {
    graph' := graph;
    if toIndex !in graph'[fromIndex] {
      graph' := graph'[fromIndex := graph'[fromIndex] + [toIndex]];
    }
    if fromIndex !in graph'[toIndex] {
      graph' := graph'[toIndex := graph'[toIndex] + [fromIndex]];
    }
    ghost var ends' := ends + [(fromIndex, toIndex)];
    forall u, v | 0 <= u < |graph'|
      ensures v in graph'[u] <==> Connects(ends', u, v)
    {
      assert Connects(ends', u, v) <==> Connects(ends, u, v) || (u, v) == (fromIndex, toIndex) || (v, u) == (fromIndex, toIndex);
    }
  }

  /** Adjacency lists that describe lines between existing vertices form a valid,
      symmetric graph. */
  lemma DescribedGraph(graph: seq<seq<nat>>, ends: seq<(nat, nat)>)
    requires Describes(graph, ends)
    requires forall m :: 0 <= m < |ends| ==> ends[m].0 < |graph| && ends[m].1 < |graph|
    ensures ValidGraph(graph) && Symmetric(graph)
  {
    forall u, k | 0 <= u < |graph| && 0 <= k < |graph[u]|
      ensures graph[u][k] < |graph|
    {
      var v := graph[u][k];
      assert Connects(ends, u, v);
      var m :| 0 <= m < |ends| && (ends[m] == (u, v) || ends[m] == (v, u));
    }
    forall u, v | 0 <= u < |graph| && v in graph[u]
      ensures u in graph[v]
    {
      assert Connects(ends, u, v);
      var m :| 0 <= m < |ends| && (ends[m] == (u, v) || ends[m] == (v, u));
      assert Connects(ends, v, u);
    }
  }

  /** Every surviving point is the end of some line, so every vertex has a neighbour
      and the output tree has one branch per vertex, numbered as the vertices are. */
  lemma NoLonelyVertex(L: seq<Line>, pts: seq<Point>, graph: seq<seq<nat>>, ends: seq<(nat, nat)>, u: nat)
    requires Distinct(pts) && |graph| == |pts| && u < |pts| && IsEnd(L, pts[u]) && |ends| == |L|
    requires forall k :: 0 <= k < |L| ==> IsClosest(L[k].from, pts, ends[k].0) && IsClosest(L[k].to, pts, ends[k].1)
    requires Describes(graph, ends)
    ensures |graph[u]| > 0
  {
    var k :| 0 <= k < |L| && (L[k].from == pts[u] || L[k].to == pts[u]);
    SnapToSelf(pts, u);
    if L[k].from == pts[u] {
      ClosestUnique(pts[u], pts, u, ends[k].0);
      assert Connects(ends, u, ends[k].1);
    } else {
      ClosestUnique(pts[u], pts, u, ends[k].1);
      assert Connects(ends, u, ends[k].0);
    }
  }

  /** The vertex points are exactly the points of `points` not similar to an
      earlier one. */
  ghost predicate Welded(points: seq<Point>, pts: seq<Point>) {
    forall p :: p in pts <==> exists j :: 0 <= j < |points| && points[j] == p && !Shadowed(points, j)
  }

  /** Among distinct points, the survivors are exactly the points not similar to
      an earlier one. */
  lemma Unshadowed(points: seq<Point>, toRemove: seq<Point>, pts: seq<Point>)
    requires Distinct(points)
    requires forall p :: p in toRemove <==> exists j :: 0 <= j < |points| && points[j] == p && Shadowed(points, j)
    requires forall p :: p in pts <==> p in points && p !in toRemove
    ensures Welded(points, pts)
  {
    forall p
      ensures p in pts <==> exists j :: 0 <= j < |points| && points[j] == p && !Shadowed(points, j)
    {
      if p in pts {
        var j :| 0 <= j < |points| && points[j] == p;
        assert !Shadowed(points, j);
      }
      if exists j :: 0 <= j < |points| && points[j] == p && !Shadowed(points, j) {
        var j :| 0 <= j < |points| && points[j] == p && !Shadowed(points, j);
        assert p !in toRemove;
      }
    }
  }

  /** The welding phase: the line ends collected once, in first-appearance order,
      then those similar to an earlier end dropped. */
  method Weld(L: seq<Line>) returns (pts: seq<Point>, ghost endPoints: seq<Point>)
    ensures endPoints == Ends(L)
    ensures Distinct(endPoints) && forall p :: p in endPoints <==> IsEnd(L, p)
    ensures Welded(endPoints, pts)
    ensures Distinct(pts) && forall p :: p in pts ==> IsEnd(L, p)
    ensures forall i, j :: 0 <= i < |pts| && 0 <= j < |pts| && i != j ==> !AreSimilar(pts[i], pts[j])
    ensures |L| > 0 ==> |pts| > 0
  {
    var points := CollectPoints(L);
    var toRemove := FindDuplicates(points);
    pts := Survivors(points, toRemove);
    endPoints := points;
    Unshadowed(points, toRemove, pts);
    if |L| > 0 {
      assert IsEnd(L, L[0].from);
      FirstSurvives(points, toRemove);
    }
    forall i, j | 0 <= i < |pts| && 0 <= j < |pts| && i != j
      ensures !AreSimilar(pts[i], pts[j])
    {
      SurvivorsApart(points, toRemove, pts[i], pts[j]);
    }
  }

  /** The whole component: lines from the linear curves, their end points collected
      once, similar points welded onto the first of them, one vertex per surviving
      point, and one undirected adjacency per line between the vertices its ends snap
      to. The result is a symmetric graph without repeated neighbours in which every
      vertex has a neighbour; no two vertex points are similar. `endPoints` is the
      list of line ends the welding scans: the vertices are exactly those of its
      points that are not similar to an earlier one. */
  method GraphFromLines(curves: seq<Curve>)
    returns (graph: Graph, pts: seq<Point>, error: bool, ghost ends: seq<(nat, nat)>, ghost endPoints: seq<Point>)
    ensures error <==> exists k :: 0 <= k < |curves| && !curves[k].linear
    ensures |graph| == |pts| && |ends| == |Straight(curves)|
    ensures forall k :: 0 <= k < |ends| ==> && IsClosest(Straight(curves)[k].from, pts, ends[k].0)
                                             && IsClosest(Straight(curves)[k].to, pts, ends[k].1)
    ensures Describes(graph, ends)
    ensures ValidGraph(graph) && Symmetric(graph)
    ensures forall u :: 0 <= u < |graph| ==> |graph[u]| > 0
    ensures Distinct(pts) && forall p :: p in pts ==> IsEnd(Straight(curves), p)
    ensures forall i, j :: 0 <= i < |pts| && 0 <= j < |pts| && i != j ==> !AreSimilar(pts[i], pts[j])
    ensures endPoints == Ends(Straight(curves))
    ensures Distinct(endPoints) && forall p :: p in endPoints <==> IsEnd(Straight(curves), p)
    ensures Welded(endPoints, pts)
  {
    var L;
    L, error := CollectLines(curves);
    pts, endPoints := Weld(L);
    var pointToIndex, empty := AssignIndices(pts);
    graph, ends := Connect(L, pts, pointToIndex, empty);
    DescribedGraph(graph, ends);
    forall u | 0 <= u < |graph|
      ensures |graph[u]| > 0
    {
      NoLonelyVertex(L, pts, graph, ends, u);
    }
  }
}
