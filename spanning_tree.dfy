/** Kruskal's minimum spanning tree: the undirected edges of the adjacency lists,
    sorted by length, are taken in order whenever their ends lie in different trees
    of a union–find forest (`parents` / `rank`, path compression, union by rank). */
module SpanningTree {
  import opened Graphs
  import opened Geometry
  import opened Seqs
  import opened Sorting

  type Edge = (nat, nat)

  // ---------------------------------------------------------------------------
  // Union–find over the `parents` and `rank` arrays

  /** Every parent index is in range, and a non-root has a smaller rank than its
      parent; ranks lie in [0, bound]. */
  ghost predicate Ranked(p: seq<int>, rk: seq<int>, bound: int) {
    && |p| == |rk|
    && (forall i :: 0 <= i < |p| ==> 0 <= p[i] < |p|)
    && (forall i :: 0 <= i < |rk| ==> 0 <= rk[i] <= bound)
    && forall i {:trigger p[i]} :: 0 <= i < |p| && p[i] != i ==> rk[i] < rk[p[i]]
  }

  /** The root reached by following parents from `i`. */
  ghost function Root(p: seq<int>, rk: seq<int>, bound: int, i: int): (r: int)
    requires Ranked(p, rk, bound) && 0 <= i < |p|
    ensures 0 <= r < |p| && p[r] == r && rk[i] <= rk[r]
    ensures p[i] != i ==> rk[i] < rk[r]
    decreases bound - rk[i]
  {
    if p[i] == i then i else Root(p, rk, bound, p[i])
  }

  /** The root of every element, as one sequence. */
  ghost function Roots(p: seq<int>, rk: seq<int>, bound: int): (r: seq<int>)
    requires Ranked(p, rk, bound)
    ensures |r| == |p|
  {
    seq(|p|, j requires 0 <= j < |p| => Root(p, rk, bound, j))
  }

  /** `Find`: returns the root of `i` and points `i` (and, recursively, every vertex
      on its way up) straight at the root. No root changes. */
  method Find(parents: array<int>, rank: array<int>, ghost bound: int, i: int) returns (r: int)
    modifies parents
    requires parents != rank && Ranked(parents[..], rank[..], bound) && 0 <= i < parents.Length
    ensures Ranked(parents[..], rank[..], bound)
    ensures r == Root(old(parents[..]), rank[..], bound, i) && parents[i] == r && parents[r] == r
    ensures Roots(parents[..], rank[..], bound) == Roots(old(parents[..]), rank[..], bound)
    decreases bound - rank[i]
  {
    if parents[i] != i {
      ghost var p0 := parents[..];
      var up := Find(parents, rank, bound, parents[i]);
      ghost var p1 := parents[..];
      assert Roots(p1, rank[..], bound)[i] == Roots(p0, rank[..], bound)[i];
      parents[i] := up;
      Compress(p1, rank[..], bound, i, up);
    }
    r := parents[i];
  }

  /** Pointing `i` at its root keeps the forest ranked and every root unchanged. */
  lemma Compress(p: seq<int>, rk: seq<int>, bound: int, i: int, r: int)
    requires Ranked(p, rk, bound) && 0 <= i < |p| && r == Root(p, rk, bound, i)
    ensures Ranked(p[i := r], rk, bound)
    ensures Roots(p[i := r], rk, bound) == Roots(p, rk, bound)
  {
    assert Ranked(p[i := r], rk, bound);
    forall j | 0 <= j < |p|
      ensures Roots(p[i := r], rk, bound)[j] == Roots(p, rk, bound)[j]
    {
      CompressRoot(p, rk, bound, i, r, j);
    }
  }

  lemma {:induction false} CompressRoot(p: seq<int>, rk: seq<int>, bound: int, i: int, r: int, j: int)
    requires Ranked(p, rk, bound) && 0 <= i < |p| && r == Root(p, rk, bound, i) && 0 <= j < |p|
    requires Ranked(p[i := r], rk, bound)
    ensures Root(p[i := r], rk, bound, j) == Root(p, rk, bound, j)
    decreases bound - rk[j]
  {
    var q := p[i := r];
    if j != i && p[j] != j {
      CompressRoot(p, rk, bound, i, r, p[j]);
    } else if j == i && r != i {
      assert q[r] == r;
    }
  }

  /** The root a vertex gets when the trees rooted at `rx` and `ry` are joined under `w`. */
  function Relabel(root: int, rx: int, ry: int, w: int): int {
    if root == rx || root == ry then w else root
  }

  /** Union by rank: the root of higher rank stays a root; on a tie `rx` does. */
  function Winner(rk: seq<int>, rx: int, ry: int): int
    requires 0 <= rx < |rk| && 0 <= ry < |rk|
  {
    if rk[rx] < rk[ry] then ry else rx
  }

  /** `Relabel` applied to every root. */
  function RelabelAll(roots: seq<int>, rx: int, ry: int, w: int): (r: seq<int>)
    ensures |r| == |roots|
  {
    seq(|roots|, j requires 0 <= j < |roots| => Relabel(roots[j], rx, ry, w))
  }

  /** After a union of `x` and `y` every vertex of their two trees has the winning
      root and every other vertex keeps its root. */
  ghost predicate Joined(p0: seq<int>, k0: seq<int>, bound: int, x: int, y: int, p: seq<int>, k: seq<int>)
    requires Ranked(p0, k0, bound) && 0 <= x < |p0| && 0 <= y < |p0|
  {
    && Ranked(p, k, bound + 1) && |p| == |p0|
    && var rx, ry := Root(p0, k0, bound, x), Root(p0, k0, bound, y);
       Roots(p, k, bound + 1) == RelabelAll(Roots(p0, k0, bound), rx, ry, Winner(k0, rx, ry))
  }

  /** Union by rank: the lower-rank root is hung under the higher-rank one; on a tie
      the root of `y` goes under the root of `x`, whose rank grows by one. Equal roots
      change no rank. */
  ghost predicate ByRank(p0: seq<int>, k0: seq<int>, bound: int, x: int, y: int, p: seq<int>, k: seq<int>)
    requires Ranked(p0, k0, bound) && 0 <= x < |p0| && 0 <= y < |p0| && |p| == |p0|
  {
    var rx, ry := Root(p0, k0, bound, x), Root(p0, k0, bound, y);
    && (rx == ry || k0[rx] != k0[ry] ==> k == k0)
    && (rx != ry && k0[rx] > k0[ry] ==> p[ry] == rx)
    && (rx != ry && k0[rx] < k0[ry] ==> p[rx] == ry)
    && (rx != ry && k0[rx] == k0[ry] ==> p[ry] == rx && k == k0[rx := k0[rx] + 1])
  }

  /** The parents after `ApplyUnion` has found the roots `rx` and `ry`. */
  function UnionParents(p: seq<int>, rk: seq<int>, rx: int, ry: int): seq<int>
    requires |rk| == |p| && 0 <= rx < |p| && 0 <= ry < |p|
  {
    if rx == ry then p
    else if rk[rx] > rk[ry] then p[ry := rx]
    else if rk[rx] < rk[ry] then p[rx := ry]
    else p[ry := rx]
  }

  /** The ranks after `ApplyUnion` has found the roots `rx` and `ry`. */
  function UnionRanks(rk: seq<int>, rx: int, ry: int): seq<int>
    requires 0 <= rx < |rk| && 0 <= ry < |rk|
  {
    if rx != ry && rk[rx] == rk[ry] then rk[rx := rk[rx] + 1] else rk
  }

  /** `ApplyUnion`: joins the trees of `x` and `y`, hanging one root under the other
      by rank. */
  method ApplyUnion(parents: array<int>, rank: array<int>, ghost bound: int, x: int, y: int)
    modifies parents, rank
    requires parents != rank && Ranked(parents[..], rank[..], bound)
    requires 0 <= x < parents.Length && 0 <= y < parents.Length
    ensures Joined(old(parents[..]), old(rank[..]), bound, x, y, parents[..], rank[..])
    ensures ByRank(old(parents[..]), old(rank[..]), bound, x, y, parents[..], rank[..])
  {
    ghost var p0, k0 := parents[..], rank[..];
    var rootX := Find(parents, rank, bound, x);
    ghost var pa := parents[..];
    var rootY := Find(parents, rank, bound, y);
    ghost var p1 := parents[..];
    assert Roots(pa, k0, bound)[y] == Roots(p0, k0, bound)[y];
    if rootX != rootY {
      if rank[rootX] > rank[rootY] {
        parents[rootY] := rootX;
      } else if rank[rootX] < rank[rootY] {
        parents[rootX] := rootY;
      } else {
        parents[rootY] := rootX;
        rank[rootX] := rank[rootX] + 1;
      }
    }
    UnionEffect(p0, k0, bound, x, y, p1, parents[..], rank[..]);
  }

  /** What `ApplyUnion` leaves: the trees of `x` and `y` joined, by rank. */
  lemma UnionEffect(p0: seq<int>, k0: seq<int>, bound: int, x: int, y: int, p1: seq<int>, p: seq<int>, k: seq<int>)
    requires Ranked(p0, k0, bound) && 0 <= x < |p0| && 0 <= y < |p0|
    requires Ranked(p1, k0, bound) && Roots(p1, k0, bound) == Roots(p0, k0, bound)
    requires var rx, ry := Root(p0, k0, bound, x), Root(p0, k0, bound, y);
             p == UnionParents(p1, k0, rx, ry) && k == UnionRanks(k0, rx, ry)
    ensures Joined(p0, k0, bound, x, y, p, k)
    ensures ByRank(p0, k0, bound, x, y, p, k)
  {
    var rx, ry := Root(p0, k0, bound, x), Root(p0, k0, bound, y);
    UnionCorrect(p0, p1, k0, bound, x, y, rx, ry);
    UnionByRank(p0, k0, bound, x, y, p, k, p1);
  }

  /** Linking the two roots `rx`, `ry` found in a root-preserving copy `p1` of the
      forest joins the two trees. */
  lemma UnionCorrect(p0: seq<int>, p1: seq<int>, k0: seq<int>, bound: int, x: int, y: int, rx: int, ry: int)
    requires Ranked(p0, k0, bound) && Ranked(p1, k0, bound) && 0 <= x < |p0| && 0 <= y < |p0|
    requires Roots(p1, k0, bound) == Roots(p0, k0, bound)
    requires rx == Root(p0, k0, bound, x) && ry == Root(p0, k0, bound, y)
    ensures Joined(p0, k0, bound, x, y, UnionParents(p1, k0, rx, ry), UnionRanks(k0, rx, ry))
  {
    assert Roots(p0, k0, bound)[rx] == rx && Roots(p0, k0, bound)[ry] == ry;
    if rx == ry {
      UnionSame(p0, p1, k0, bound, rx);
    } else {
      UnionLink(p0, p1, k0, bound, rx, ry);
    }
  }

  lemma UnionSame(p0: seq<int>, p1: seq<int>, k0: seq<int>, bound: int, r: int)
    requires Ranked(p0, k0, bound) && Ranked(p1, k0, bound) && 0 <= r < |p0|
    requires Roots(p1, k0, bound) == Roots(p0, k0, bound)
    ensures Ranked(UnionParents(p1, k0, r, r), UnionRanks(k0, r, r), bound + 1)
    ensures Roots(UnionParents(p1, k0, r, r), UnionRanks(k0, r, r), bound + 1)
            == RelabelAll(Roots(p0, k0, bound), r, r, Winner(k0, r, r))
  {
    Widen(p1, k0, bound);
    assert RelabelAll(Roots(p0, k0, bound), r, r, r) == Roots(p0, k0, bound);
  }

  lemma UnionLink(p0: seq<int>, p1: seq<int>, k0: seq<int>, bound: int, rx: int, ry: int)
    requires Ranked(p0, k0, bound) && Ranked(p1, k0, bound) && 0 <= rx < |p0| && 0 <= ry < |p0| && rx != ry
    requires Roots(p1, k0, bound) == Roots(p0, k0, bound)
    requires Roots(p0, k0, bound)[rx] == rx && Roots(p0, k0, bound)[ry] == ry
    ensures Ranked(UnionParents(p1, k0, rx, ry), UnionRanks(k0, rx, ry), bound + 1)
    ensures Roots(UnionParents(p1, k0, rx, ry), UnionRanks(k0, rx, ry), bound + 1)
            == RelabelAll(Roots(p0, k0, bound), rx, ry, Winner(k0, rx, ry))
  {
    assert Root(p1, k0, bound, rx) == rx && Root(p1, k0, bound, ry) == ry;
    Link(p1, k0, bound, rx, ry, UnionParents(p1, k0, rx, ry), UnionRanks(k0, rx, ry));
  }

  lemma UnionByRank(p0: seq<int>, k0: seq<int>, bound: int, x: int, y: int, p: seq<int>, k: seq<int>, p1: seq<int>)
    requires Ranked(p0, k0, bound) && |p1| == |p0| && 0 <= x < |p0| && 0 <= y < |p0|
    requires var rx, ry := Root(p0, k0, bound, x), Root(p0, k0, bound, y);
             p == UnionParents(p1, k0, rx, ry) && k == UnionRanks(k0, rx, ry)
    ensures ByRank(p0, k0, bound, x, y, p, k)
  {
  }

  /** Hanging the losing root under the winning one. */
  lemma Link(p: seq<int>, rk: seq<int>, bound: int, rx: int, ry: int, p': seq<int>, rk': seq<int>)
    requires Ranked(p, rk, bound) && 0 <= rx < |p| && 0 <= ry < |p| && rx != ry && p[rx] == rx && p[ry] == ry
    requires var w := Winner(rk, rx, ry);
             var l := if w == rx then ry else rx;
             && p' == p[l := w]
             && rk' == if rk[rx] == rk[ry] then rk[rx := rk[rx] + 1] else rk
    ensures Ranked(p', rk', bound + 1)
    ensures Roots(p', rk', bound + 1) == RelabelAll(Roots(p, rk, bound), rx, ry, Winner(rk, rx, ry))
  {
    assert Ranked(p', rk', bound + 1);
    forall j | 0 <= j < |p|
      ensures Roots(p', rk', bound + 1)[j] == RelabelAll(Roots(p, rk, bound), rx, ry, Winner(rk, rx, ry))[j]
    {
      LinkRoot(p, rk, bound, rx, ry, p', rk', j);
    }
  }

  lemma {:induction false} LinkRoot(p: seq<int>, rk: seq<int>, bound: int, rx: int, ry: int, p': seq<int>, rk': seq<int>, j: int)
    requires Ranked(p, rk, bound) && 0 <= rx < |p| && 0 <= ry < |p| && rx != ry && p[rx] == rx && p[ry] == ry
    requires var w := Winner(rk, rx, ry);
             var l := if w == rx then ry else rx;
             && p' == p[l := w]
             && rk' == if rk[rx] == rk[ry] then rk[rx := rk[rx] + 1] else rk
    requires Ranked(p', rk', bound + 1) && 0 <= j < |p|
    ensures Root(p', rk', bound + 1, j) == Relabel(Root(p, rk, bound, j), rx, ry, Winner(rk, rx, ry))
    decreases bound - rk[j]
  {
    var w := Winner(rk, rx, ry);
    if p[j] != j {
      LinkRoot(p, rk, bound, rx, ry, p', rk', p[j]);
    } else if p'[j] != j {
      assert p'[w] == w;
    }
  }

  /** A larger rank bound changes no root. */
  lemma {:induction false} Widen(p: seq<int>, rk: seq<int>, bound: int)
    requires Ranked(p, rk, bound)
    ensures Ranked(p, rk, bound + 1)
    ensures Roots(p, rk, bound + 1) == Roots(p, rk, bound)
  {
    forall j | 0 <= j < |p|
      ensures Roots(p, rk, bound + 1)[j] == Roots(p, rk, bound)[j]
    {
      WidenRoot(p, rk, bound, j);
    }
  }

  lemma {:induction false} WidenRoot(p: seq<int>, rk: seq<int>, bound: int, j: int)
    requires Ranked(p, rk, bound) && 0 <= j < |p|
    ensures Ranked(p, rk, bound + 1) && Root(p, rk, bound + 1, j) == Root(p, rk, bound, j)
    decreases bound - rk[j]
  {
    if p[j] != j {
      WidenRoot(p, rk, bound, p[j]);
    }
  }

  // ---------------------------------------------------------------------------
  // Undirected connectivity over a list of edges

  /** `a` and `b` are the two ends of an edge of `E`, in either direction. */
  predicate Joins(E: seq<Edge>, a: nat, b: nat) {
    (a, b) in E || (b, a) in E
  }

  /** A non-empty vertex sequence whose consecutive vertices are joined by edges of `E`. */
  ghost predicate EdgeWalk(E: seq<Edge>, w: seq<nat>) {
    |w| > 0 && forall j, k :: 0 <= j && k == j + 1 && k < |w| ==> Joins(E, w[j], w[k])
  }

  /** `u` and `v` lie in the same tree of the forest `E`. */
  ghost predicate Linked(E: seq<Edge>, u: nat, v: nat) {
    exists w :: EdgeWalk(E, w) && w[0] == u && w[|w| - 1] == v
  }

  /** No edge of `E` joins two vertices that the edges before it already link. */
  ghost predicate Acyclic(E: seq<Edge>) {
    forall k :: 0 <= k < |E| ==> !Linked(E[..k], E[k].0, E[k].1)
  }

  lemma LinkedSelf(E: seq<Edge>, u: nat)
    ensures Linked(E, u, u)
  {
    assert EdgeWalk(E, [u]);
  }

  lemma LinkedEdge(E: seq<Edge>, a: nat, b: nat)
    requires Joins(E, a, b)
    ensures Linked(E, a, b)
  {
    assert EdgeWalk(E, [a, b]);
  }

  lemma LinkedSym(E: seq<Edge>, u: nat, v: nat)
    requires Linked(E, u, v)
    ensures Linked(E, v, u)
  {
    var w :| EdgeWalk(E, w) && w[0] == u && w[|w| - 1] == v;
    var r := Reversed(w);
    forall j, k | 0 <= j && k == j + 1 && k < |r|
      ensures Joins(E, r[j], r[k])
    {
      assert Joins(E, w[|w| - 1 - k], w[|w| - 1 - j]);
    }
    assert EdgeWalk(E, r);
  }

  lemma LinkedTrans(E: seq<Edge>, u: nat, v: nat, x: nat)
    requires Linked(E, u, v) && Linked(E, v, x)
    ensures Linked(E, u, x)
  {
    var w1 :| EdgeWalk(E, w1) && w1[0] == u && w1[|w1| - 1] == v;
    var w2 :| EdgeWalk(E, w2) && w2[0] == v && w2[|w2| - 1] == x;
    var w := w1 + w2[1..];
    forall j, k | 0 <= j && k == j + 1 && k < |w|
      ensures Joins(E, w[j], w[k])
    {
      if k < |w1| {
        assert w[j] == w1[j] && w[k] == w1[k];
      } else {
        assert w[j] == w2[j - |w1| + 1] && w[k] == w2[k - |w1| + 1];
      }
    }
    assert EdgeWalk(E, w);
  }

  /** Adding an edge keeps every link. */
  lemma LinkedMore(E: seq<Edge>, e: Edge, u: nat, v: nat)
    requires Linked(E, u, v)
    ensures Linked(E + [e], u, v)
  {
    var w :| EdgeWalk(E, w) && w[0] == u && w[|w| - 1] == v;
    assert EdgeWalk(E + [e], w);
  }

  /** If every edge of `E` has its ends linked in `F`, whatever `E` links `F` links. */
  lemma {:induction false} LinkedVia(E: seq<Edge>, F: seq<Edge>, w: seq<nat>)
    requires EdgeWalk(E, w)
    requires forall k :: 0 <= k < |E| ==> Linked(F, E[k].0, E[k].1)
    ensures Linked(F, w[0], w[|w| - 1])
    decreases |w|
  {
    if |w| == 1 {
      LinkedSelf(F, w[0]);
    } else {
      var w' := w[..|w| - 1];
      assert EdgeWalk(E, w');
      LinkedVia(E, F, w');
      var a, b := w[|w| - 2], w[|w| - 1];
      if (a, b) in E {
        var k :| 0 <= k < |E| && E[k] == (a, b);
      } else {
        var k :| 0 <= k < |E| && E[k] == (b, a);
        LinkedSym(F, b, a);
      }
      LinkedTrans(F, w[0], a, b);
    }
  }

  /** Every edge of `E` has both ends in range and in the same class of `R`. */
  ghost predicate Respects(R: seq<int>, E: seq<Edge>) {
    forall k :: 0 <= k < |E| ==> E[k].0 < |R| && E[k].1 < |R| && R[E[k].0] == R[E[k].1]
  }

  /** A walk over edges that stay within classes stays within its first vertex's class. */
  lemma {:induction false} WalkInClass(R: seq<int>, E: seq<Edge>, w: seq<nat>)
    requires Respects(R, E) && EdgeWalk(E, w) && w[0] < |R|
    ensures w[|w| - 1] < |R| && R[w[|w| - 1]] == R[w[0]]
    decreases |w|
  {
    if |w| > 1 {
      var w' := w[..|w| - 1];
      assert EdgeWalk(E, w');
      WalkInClass(R, E, w');
      var a, b := w[|w| - 2], w[|w| - 1];
      assert Joins(E, a, b);
      if (a, b) in E {
        var k :| 0 <= k < |E| && E[k] == (a, b);
      } else {
        var k :| 0 <= k < |E| && E[k] == (b, a);
      }
    }
  }

  lemma LinkedInClass(R: seq<int>, E: seq<Edge>, u: nat, v: nat)
    requires Respects(R, E) && u < |R| && Linked(E, u, v)
    ensures v < |R| && R[u] == R[v]
  {
    var w :| EdgeWalk(E, w) && w[0] == u && w[|w| - 1] == v;
    WalkInClass(R, E, w);
  }

  /** The classes of `R` are exactly the trees of `E`. */
  ghost predicate Partition(R: seq<int>, E: seq<Edge>) {
    && Respects(R, E)
    && forall u, v :: 0 <= u < |R| && 0 <= v < |R| && R[u] == R[v] ==> Linked(E, u, v)
  }

  /** Each vertex's class is named by a member that names itself. */
  ghost predicate Canonical(R: seq<int>) {
    forall j :: 0 <= j < |R| ==> 0 <= R[j] < |R| && R[R[j]] == R[j]
  }

  /** The number of `j < k` that name their own class. */
  ghost function Count(R: seq<int>, k: nat): nat
    requires k <= |R|
  {
    if k == 0 then 0 else Count(R, k - 1) + (if R[k - 1] == k - 1 then 1 else 0)
  }

  /** The number of classes: in a canonical `R`, one self-named member each. */
  ghost function Trees(R: seq<int>): nat {
    Count(R, |R|)
  }

  lemma {:induction false} CountAll(R: seq<int>, k: nat)
    requires k <= |R| && forall j :: 0 <= j < |R| ==> R[j] == j
    ensures Count(R, k) == k
  {
    if k > 0 { CountAll(R, k - 1); }
  }

  lemma {:induction false} CountOne(R: seq<int>, k: nat, a: nat)
    requires a < k <= |R| && R[a] == a
    ensures Count(R, k) >= 1
  {
    if k - 1 != a { CountOne(R, k - 1, a); }
  }

  lemma {:induction false} CountTwo(R: seq<int>, k: nat, a: nat, b: nat)
    requires a < k <= |R| && b < k && a != b && R[a] == a && R[b] == b
    ensures Count(R, k) >= 2
  {
    if k - 1 == a {
      CountOne(R, k - 1, b);
    } else if k - 1 == b {
      CountOne(R, k - 1, a);
    } else {
      CountTwo(R, k - 1, a, b);
    }
  }

  /** Only `r` names itself: one class. */
  lemma {:induction false} CountSingle(R: seq<int>, k: nat, r: nat)
    requires k <= |R| && r < |R| && forall j :: 0 <= j < |R| ==> (R[j] == j <==> j == r)
    ensures Count(R, k) == if r < k then 1 else 0
  {
    if k > 0 { CountSingle(R, k - 1, r); }
  }

  /** `R'` has the self-named members of `R` except `l`. */
  lemma {:induction false} CountDrop(R: seq<int>, R': seq<int>, k: nat, l: nat)
    requires k <= |R| == |R'| && l < |R| && R[l] == l
    requires forall j :: 0 <= j < |R| ==> (R'[j] == j <==> R[j] == j && j != l)
    ensures Count(R', k) + (if l < k then 1 else 0) == Count(R, k)
  {
    if k > 0 { CountDrop(R, R', k - 1, l); }
  }

  // ---------------------------------------------------------------------------
  // Edges, their order, and Kruskal's loop

  /** Every neighbour index names one of the `n` points. */
  predicate EdgesIn(g: Graph, n: nat) {
    forall u, k :: 0 <= u < |g| && 0 <= k < |g[u]| ==> u < n && g[u][k] < n
  }

  /** `GetEdges`: each adjacency `(i, j)` of branch `i` is kept unless `(j, i)` already
      was; the set keeps insertion order. Every undirected edge appears exactly once. */
  method GetEdges(g: Graph) returns (edges: seq<Edge>)
    ensures forall k :: 0 <= k < |edges| ==> edges[k].0 < |g| && edges[k].1 in g[edges[k].0]
    ensures forall u, j :: 0 <= u < |g| && j in g[u] ==> Joins(edges, u, j)
    ensures forall k, l :: 0 <= k < |edges| && 0 <= l < |edges| && edges[k] == (edges[l].1, edges[l].0) ==> k == l
    ensures forall k, l :: 0 <= k < l < |edges| ==> edges[k] != edges[l]
  {
    edges := [];
    for i := 0 to |g|
      invariant forall k :: 0 <= k < |edges| ==> edges[k].0 < i && edges[k].1 in g[edges[k].0]
      invariant forall u, j :: 0 <= u < i && j in g[u] ==> Joins(edges, u, j)
      invariant forall k, l :: 0 <= k < |edges| && 0 <= l < |edges| && edges[k] == (edges[l].1, edges[l].0) ==> k == l
      invariant forall k, l :: 0 <= k < l < |edges| ==> edges[k] != edges[l]
    {
      var branch := g[i];
      for m := 0 to |branch|
        invariant forall k :: 0 <= k < |edges| ==> edges[k].0 <= i && edges[k].1 in g[edges[k].0]
        invariant forall u, j :: 0 <= u < i && j in g[u] ==> Joins(edges, u, j)
        invariant forall c :: 0 <= c < m ==> Joins(edges, i, branch[c])
        invariant forall k, l :: 0 <= k < |edges| && 0 <= l < |edges| && edges[k] == (edges[l].1, edges[l].0) ==> k == l
        invariant forall k, l :: 0 <= k < l < |edges| ==> edges[k] != edges[l]
      {
        var j := branch[m];
        if (j, i) !in edges && (i, j) !in edges {
          edges := edges + [(i, j)];
        }
      }
      assert forall j :: j in g[i] ==> Joins(edges, i, j);
    }
  }

  /** The length of an edge, compared as `Line.Length` compares: squared. */
  function EdgeLength(P: seq<Point>): Edge -> real {
    (e: Edge) => if e.0 < |P| && e.1 < |P| then SqDist(P[e.0], P[e.1]) else 0.0
  }

  /** `Sort`: the edges in order of length. */
  method SortEdges(edges: seq<Edge>, P: seq<Point>) returns (sorted: seq<Edge>)
    ensures multiset(sorted) == multiset(edges)
    ensures SortedBy(sorted, EdgeLength(P))
  {
    var a := new Edge[|edges|](k requires 0 <= k < |edges| => edges[k]);
    assert a[..] == edges;
    Sort(a, ByKey(EdgeLength(P)));
    sorted := a[..];
    ByKeyOrdered(EdgeLength(P), sorted);
  }

  /** Before any union every vertex is its own class. */
  lemma Singletons(n: nat, p: seq<int>, rk: seq<int>)
    requires |p| == n && |rk| == n
    requires forall j :: 0 <= j < n ==> p[j] == j && rk[j] == 0
    ensures Ranked(p, rk, 0)
    ensures Roots(p, rk, 0) == p
    ensures Canonical(p) && Trees(p) == n
    ensures Partition(p, [])
  {
    var R := Roots(p, rk, 0);
    assert R == p by {
      forall j | 0 <= j < n ensures R[j] == p[j] { }
    }
    CountAll(p, n);
    forall u, v | 0 <= u < n && 0 <= v < n && p[u] == p[v]
      ensures Linked([], u, v)
    {
      LinkedSelf([], u);
    }
  }

  /** Joining the classes of the ends of a new edge `(a, b)` keeps classes equal
      to trees. */
  lemma JoinClasses(R: seq<int>, E: seq<Edge>, a: nat, b: nat, w: int)
    requires Partition(R, E) && a < |R| && b < |R| && R[a] != R[b]
    requires w == R[a] || w == R[b]
    ensures Partition(RelabelAll(R, R[a], R[b], w), E + [(a, b)])
  {
    var rx, ry := R[a], R[b];
    var R' := RelabelAll(R, rx, ry, w);
    var E' := E + [(a, b)];
    assert Respects(R', E') by {
      forall k | 0 <= k < |E'|
        ensures E'[k].0 < |R'| && E'[k].1 < |R'| && R'[E'[k].0] == R'[E'[k].1]
      {
        if k < |E| { assert E'[k] == E[k]; }
      }
    }
    assert Linked(E', b, a) by {
      assert Joins(E', b, a);
      LinkedEdge(E', b, a);
    }
    forall u | 0 <= u < |R| && (R[u] == rx || R[u] == ry)
      ensures Linked(E', u, a)
    {
      if R[u] == rx {
        LinkedMore(E, (a, b), u, a);
      } else {
        LinkedMore(E, (a, b), u, b);
        LinkedTrans(E', u, b, a);
      }
    }
    forall u, v | 0 <= u < |R'| && 0 <= v < |R'| && R'[u] == R'[v]
      ensures Linked(E', u, v)
    {
      if R[u] == R[v] {
        LinkedMore(E, (a, b), u, v);
      } else {
        assert (R[u] == rx || R[u] == ry) && (R[v] == rx || R[v] == ry);
        LinkedSym(E', v, a);
        LinkedTrans(E', u, a, v);
      }
    }
  }

  /** Merging the classes of `a` and `b` under one of their names removes one class. */
  lemma DropClass(R: seq<int>, a: nat, b: nat, w: int)
    requires Canonical(R) && a < |R| && b < |R| && R[a] != R[b] && (w == R[a] || w == R[b])
    ensures Canonical(RelabelAll(R, R[a], R[b], w))
    ensures Trees(RelabelAll(R, R[a], R[b], w)) + 1 == Trees(R)
  {
    var rx, ry := R[a], R[b];
    var R' := RelabelAll(R, rx, ry, w);
    var loser: nat := if w == rx then ry else rx;
    forall j | 0 <= j < |R'|
      ensures 0 <= R'[j] < |R'| && R'[R'[j]] == R'[j]
    {
      if R[j] == rx || R[j] == ry {
        assert R[w] == w;
      } else {
        assert R[R[j]] == R[j];
      }
    }
    forall j | 0 <= j < |R|
      ensures R'[j] == j <==> R[j] == j && j != loser
    {
      if R[j] == rx || R[j] == ry {
        assert R[w] == w;
      }
    }
    CountDrop(R, R', |R|, loser);
  }

  /** One class left: every two vertices are in it. */
  lemma OneClass(R: seq<int>, u: nat, v: nat)
    requires Canonical(R) && Trees(R) <= 1 && u < |R| && v < |R|
    ensures R[u] == R[v]
  {
    if R[u] != R[v] {
      CountTwo(R, |R|, R[u], R[v]);
    }
  }

  // ---------------------------------------------------------------------------
  // Kruskal's rule as a specification

  /** Kruskal's rule over `s` in order: each edge is kept unless the edges kept
      before it already link its ends. */
  ghost function Greedy(s: seq<Edge>): seq<Edge>
  {
    if s == [] then []
    else
      var m := Greedy(s[..|s| - 1]);
      var e := s[|s| - 1];
      if Linked(m, e.0, e.1) then m else m + [e]
  }

  /** The greedy forest is made of edges of `s`. */
  lemma {:induction false} GreedyIn(s: seq<Edge>)
    ensures forall k :: 0 <= k < |Greedy(s)| ==> Greedy(s)[k] in s
  {
    if s != [] {
      var s' := s[..|s| - 1];
      GreedyIn(s');
      assert s == s' + [s[|s| - 1]];
      forall k | 0 <= k < |Greedy(s)|
        ensures Greedy(s)[k] in s
      {
        if k < |Greedy(s')| {
          assert Greedy(s)[k] == Greedy(s')[k];
        }
      }
    }
  }

  /** Over edges in length order, the greedy forest is in length order too. */
  lemma {:induction false} GreedySorted(s: seq<Edge>, key: Edge -> real)
    requires SortedBy(s, key)
    ensures SortedBy(Greedy(s), key)
  {
    if s != [] {
      var s' := s[..|s| - 1];
      var e := s[|s| - 1];
      var m := Greedy(s');
      GreedySorted(s', key);
      GreedyIn(s');
      if !Linked(m, e.0, e.1) {
        var m' := m + [e];
        forall i, j | 0 <= i < j < |m'|
          ensures key(m'[i]) <= key(m'[j])
        {
          assert m'[i] == m[i];
          var k :| 0 <= k < |s'| && s'[k] == m[i];
          if j == |m| {
            assert s[k] == m[i];
          } else {
            assert m'[j] == m[j];
          }
        }
      }
    }
  }

  /** No kept edge closes a cycle. */
  lemma {:induction false} GreedyAcyclic(s: seq<Edge>)
    ensures Acyclic(Greedy(s))
  {
    if s != [] {
      var s' := s[..|s| - 1];
      var e := s[|s| - 1];
      var m := Greedy(s');
      GreedyAcyclic(s');
      if !Linked(m, e.0, e.1) {
        var m' := m + [e];
        forall k | 0 <= k < |m'|
          ensures !Linked(m'[..k], m'[k].0, m'[k].1)
        {
          if k < |m| {
            assert m'[..k] == m[..k] && m'[k] == m[k];
          } else {
            assert m'[..k] == m;
          }
        }
      }
    }
  }

  /** The greedy forest links the ends of every edge of `s`: it spans each
      connected part of the graph `s` forms. */
  lemma {:induction false} GreedyLinks(s: seq<Edge>)
    ensures forall k :: 0 <= k < |s| ==> Linked(Greedy(s), s[k].0, s[k].1)
  {
    if s != [] {
      var s' := s[..|s| - 1];
      var e := s[|s| - 1];
      var m := Greedy(s');
      GreedyLinks(s');
      forall k | 0 <= k < |s|
        ensures Linked(Greedy(s), s[k].0, s[k].1)
      {
        if k < |s'| {
          assert s[k] == s'[k];
          if !Linked(m, e.0, e.1) {
            LinkedMore(m, e, s[k].0, s[k].1);
          }
        } else if !Linked(m, e.0, e.1) {
          assert Joins(m + [e], e.0, e.1);
          LinkedEdge(m + [e], e.0, e.1);
        }
      }
    }
  }

  /** Once the kept edges link every two of the `n` vertices, no later edge is kept:
      stopping early changes nothing. */
  lemma {:induction false} GreedyStops(s: seq<Edge>, i: nat, j: nat, n: nat)
    requires i <= j <= |s|
    requires forall k :: 0 <= k < |s| ==> s[k].0 < n && s[k].1 < n
    requires forall u, v :: 0 <= u < n && 0 <= v < n ==> Linked(Greedy(s[..i]), u, v)
    ensures Greedy(s[..j]) == Greedy(s[..i])
  {
    if j > i {
      GreedyStops(s, i, j - 1, n);
      var m, e := Greedy(s[..i]), s[j - 1];
      assert Linked(m, e.0, e.1);
      assert s[..j][..j - 1] == s[..j - 1] && s[..j][j - 1] == e;
    }
  }

  // ---------------------------------------------------------------------------
  // Kruskal's loop

  /** What Kruskal's loop holds after `i` sorted edges, with the classes `R`: the
      kept edges are the greedy forest of those edges, its trees are the classes,
      and there is one class fewer than `n` per kept edge. */
  ghost predicate Progress(R: seq<int>, mst: seq<Edge>, sorted: seq<Edge>, i: nat, n: nat) {
    && i <= |sorted| && |R| == n && Canonical(R)
    && Partition(R, mst) && Trees(R) + |mst| == n
    && mst == Greedy(sorted[..i])
  }

  /** Keeping `sorted[i]`, whose ends lie in different classes. */
  lemma KeepStep(R: seq<int>, mst: seq<Edge>, sorted: seq<Edge>, i: nat, n: nat, w: int)
    requires Progress(R, mst, sorted, i, n) && i < |sorted|
    requires sorted[i].0 < n && sorted[i].1 < n
    requires R[sorted[i].0] != R[sorted[i].1] && (w == R[sorted[i].0] || w == R[sorted[i].1])
    ensures Progress(RelabelAll(R, R[sorted[i].0], R[sorted[i].1], w), mst + [sorted[i]], sorted, i + 1, n)
  {
    var a, b := sorted[i].0, sorted[i].1;
    JoinClasses(R, mst, a, b, w);
    DropClass(R, a, b, w);
    if Linked(mst, a, b) {
      LinkedInClass(R, mst, a, b);
    }
    assert sorted[..i + 1][..i] == sorted[..i];
  }

  /** Skipping `sorted[i]`, whose ends already share a class. */
  lemma SkipStep(R: seq<int>, mst: seq<Edge>, sorted: seq<Edge>, i: nat, n: nat)
    requires Progress(R, mst, sorted, i, n) && i < |sorted|
    requires sorted[i].0 < n && sorted[i].1 < n && R[sorted[i].0] == R[sorted[i].1]
    ensures Progress(R, mst, sorted, i + 1, n)
  {
    assert Linked(mst, sorted[i].0, sorted[i].1);
    assert sorted[..i + 1][..i] == sorted[..i];
  }

  /** When the loop stops, having processed `i` edges: the kept edges are the greedy
      forest of all sorted edges, fewer than `n` of them and, when the sorted edges
      connect all `n` vertices, exactly `n - 1`. */
  lemma Finish(R: seq<int>, mst: seq<Edge>, sorted: seq<Edge>, i: nat, n: nat)
    requires Progress(R, mst, sorted, i, n)
    requires forall k :: 0 <= k < |sorted| ==> sorted[k].0 < n && sorted[k].1 < n
    requires i == |sorted| || |mst| + 1 >= n
    ensures mst == Greedy(sorted)
    ensures |mst| < n || mst == []
    ensures (n > 0 && forall u, v :: 0 <= u < n && 0 <= v < n ==> Linked(sorted, u, v)) ==> |mst| == n - 1
  {
    if n > 0 {
      CountOne(R, n, R[0]);
    }
    if i < |sorted| {
      forall u, v | 0 <= u < n && 0 <= v < n
        ensures Linked(Greedy(sorted[..i]), u, v)
      {
        OneClass(R, u, v);
      }
      GreedyStops(sorted, i, |sorted|, n);
    }
    assert sorted[..|sorted|] == sorted;
    if n > 0 && forall u, v :: 0 <= u < n && 0 <= v < n ==> Linked(sorted, u, v) {
      GreedyLinks(sorted);
      Connected(R, mst, sorted);
    }
  }

  /** If the sorted edges connect all vertices and the forest links every edge's
      ends, the forest is a single tree with `n - 1` edges. */
  lemma Connected(R: seq<int>, mst: seq<Edge>, sorted: seq<Edge>)
    requires Partition(R, mst) && Canonical(R) && Trees(R) + |mst| == |R| && |R| > 0
    requires forall k :: 0 <= k < |sorted| ==> Linked(mst, sorted[k].0, sorted[k].1)
    requires forall u, v :: 0 <= u < |R| && 0 <= v < |R| ==> Linked(sorted, u, v)
    ensures |mst| == |R| - 1
  {
    forall u | 0 <= u < |R|
      ensures R[u] == R[0]
    {
      assert Linked(sorted, u, 0);
      var w :| EdgeWalk(sorted, w) && w[0] == u && w[|w| - 1] == 0;
      LinkedVia(sorted, mst, w);
      LinkedInClass(R, mst, u, 0);
    }
    forall j | 0 <= j < |R|
      ensures R[j] == j <==> j == R[0]
    {
      assert R[R[0]] == R[0];
    }
    CountSingle(R, |R|, R[0]);
  }

  /** The union–find arrays after `i` edges: ranks bounded by the number of unions,
      and the classes their roots give in `Progress`. */
  ghost predicate State(p: seq<int>, rk: seq<int>, mst: seq<Edge>, sorted: seq<Edge>, i: nat, n: nat) {
    Ranked(p, rk, |mst|) && Progress(Roots(p, rk, |mst|), mst, sorted, i, n)
  }

  /** Before the loop: singleton trees, nothing kept. */
  lemma Start(p: seq<int>, rk: seq<int>, sorted: seq<Edge>, n: nat)
    requires |p| == n && |rk| == n
    requires forall j :: 0 <= j < n ==> p[j] == j && rk[j] == 0
    ensures State(p, rk, [], sorted, 0, n)
  {
    Singletons(n, p, rk);
    assert sorted[..0] == [];
  }

  /** `Find` the roots of `u` and `v` and, when they differ, `ApplyUnion` them.
      `keep` tells whether they differed; their classes are then merged under `w`. */
  method JoinEnds(parents: array<int>, rank: array<int>, u: int, v: int, ghost bound: int, ghost R: seq<int>)
    returns (keep: bool, ghost w: int)
    modifies parents, rank
    requires parents != rank && 0 <= u < parents.Length && 0 <= v < parents.Length
    requires Ranked(parents[..], rank[..], bound) && R == Roots(parents[..], rank[..], bound)
    ensures keep == (R[u] != R[v])
    ensures keep ==> && Ranked(parents[..], rank[..], bound + 1) && (w == R[u] || w == R[v])
                     && Roots(parents[..], rank[..], bound + 1) == RelabelAll(R, R[u], R[v], w)
    ensures !keep ==> Ranked(parents[..], rank[..], bound) && Roots(parents[..], rank[..], bound) == R
  {
    var rootU := Find(parents, rank, bound, u);
    ghost var pu := parents[..];
    var rootV := Find(parents, rank, bound, v);
    assert Roots(pu, rank[..], bound)[v] == R[v];
    keep := rootU != rootV;
    w := rootU;
    if keep {
      ghost var p1, k1 := parents[..], rank[..];
      assert R[u] == rootU && R[v] == rootV;
      assert Roots(p1, k1, bound)[rootU] == rootU && Roots(p1, k1, bound)[rootV] == rootV;
      ApplyUnion(parents, rank, bound, rootU, rootV);
      w := Winner(k1, rootU, rootV);
    }
  }

  /** One pass of Kruskal's loop over `sorted[i]`: `keep` tells whether its ends had
      different roots, which are then joined and the edge added to the forest. */
  method ConsiderEdge(parents: array<int>, rank: array<int>, sorted: seq<Edge>, i: nat, n: nat,
                      mst: seq<Edge>) returns (keep: bool, mst': seq<Edge>)
    modifies parents, rank
    requires parents != rank && parents.Length == n && rank.Length == n
    requires i < |sorted| && sorted[i].0 < n && sorted[i].1 < n
    requires State(parents[..], rank[..], mst, sorted, i, n)
    ensures mst' == if keep then mst + [sorted[i]] else mst
    ensures State(parents[..], rank[..], mst', sorted, i + 1, n)
  {
    var edge := sorted[i];
    ghost var R := Roots(parents[..], rank[..], |mst|);
    ghost var w;
    keep, w := JoinEnds(parents, rank, edge.0, edge.1, |mst|, R);
    mst' := mst;
    if keep {
      KeepStep(R, mst, sorted, i, n, w);
      mst' := mst + [edge];
    } else {
      SkipStep(R, mst, sorted, i, n);
    }
  }

  /** Kruskal's loop over the union–find arrays: walks the sorted edges while fewer
      than `n - 1` are kept, keeping an edge exactly when `Find` gives its ends
      different roots, and then joining the two trees with `ApplyUnion`. */
  method Scan(parents: array<int>, rank: array<int>, sorted: seq<Edge>, n: nat) returns (mst: seq<Edge>, i: nat)
    modifies parents, rank
    requires parents != rank && parents.Length == n && rank.Length == n
    requires forall k :: 0 <= k < |sorted| ==> sorted[k].0 < n && sorted[k].1 < n
    requires State(parents[..], rank[..], [], sorted, 0, n)
    ensures State(parents[..], rank[..], mst, sorted, i, n)
    ensures i == |sorted| || |mst| + 1 >= n
  {
    var edgeCount := 0;
    mst := [];
    i := 0;
    while i < |sorted| && edgeCount < n - 1
      invariant edgeCount == |mst|
      invariant State(parents[..], rank[..], mst, sorted, i, n)
    {
      var keep;
      keep, mst := ConsiderEdge(parents, rank, sorted, i, n, mst);
      if keep {
        edgeCount := edgeCount + 1;
      }
      i := i + 1;
    }
  }

  /** `MinimumSpanningTreeComponent`'s edge selection: fresh union–find arrays, one
      tree per vertex, then Kruskal's loop. The result is the greedy forest of the
      sorted edges; when they connect all `n` vertices it has `n - 1` edges. */
  method Kruskal(sorted: seq<Edge>, n: nat) returns (mst: seq<Edge>)
    requires forall k :: 0 <= k < |sorted| ==> sorted[k].0 < n && sorted[k].1 < n
    ensures mst == Greedy(sorted)
    ensures |mst| < n || mst == []
    ensures (n > 0 && forall u, v :: 0 <= u < n && 0 <= v < n ==> Linked(sorted, u, v)) ==> |mst| == n - 1
  {
    var parents := new int[n](j => j);
    var rank := new int[n](j => 0);
    Start(parents[..], rank[..], sorted, n);
    var i;
    mst, i := Scan(parents, rank, sorted, n);
    Finish(Roots(parents[..], rank[..], |mst|), mst, sorted, i, n);
  }

  // ---------------------------------------------------------------------------
  // The component

  /** A walk of the graph is a walk over any edge list that joins all its adjacencies. */
  lemma ReachableLinked(g: Graph, E: seq<Edge>, u: nat, v: nat)
    requires forall a, b :: 0 <= a < |g| && b in g[a] ==> Joins(E, a, b)
    requires Reachable(g, u, v)
    ensures Linked(E, u, v)
  {
    var p :| WalkFrom(g, p, u, v);
    forall j, k | 0 <= j && k == j + 1 && k < |p|
      ensures Joins(E, p[j], p[k])
    {
      assert p[j] < |g| && p[j + 1] in g[p[j]];
    }
    assert EdgeWalk(E, p);
  }

  /** Reordering an edge list keeps which pairs it joins. */
  lemma JoinsReordered(E: seq<Edge>, F: seq<Edge>, a: nat, b: nat)
    requires multiset(E) == multiset(F) && Joins(E, a, b)
    ensures Joins(F, a, b)
  {
    if (a, b) in E {
      assert (a, b) in multiset(F);
    } else {
      assert (b, a) in multiset(F);
    }
  }

  /** `MinimumSpanningTreeComponent`: the undirected edges of the adjacency lists,
      sorted by length, then Kruskal's loop over the `|P|` points. The kept edges
      are adjacencies of the graph, in length order, without a cycle; they link
      every two vertices the graph connects, and when it connects all the points
      they form a spanning tree of `|P| - 1` edges. */
  method MinimumSpanningTree(g: Graph, P: seq<Point>) returns (mst: seq<Edge>)
    requires EdgesIn(g, |P|)
    ensures forall k :: 0 <= k < |mst| ==> mst[k].0 < |g| && mst[k].1 in g[mst[k].0]
    ensures SortedBy(mst, EdgeLength(P))
    ensures Acyclic(mst)
    ensures |mst| < |P| || mst == []
    ensures forall u, v :: Reachable(g, u, v) ==> Linked(mst, u, v)
    ensures (|P| > 0 && forall u, v :: 0 <= u < |P| && 0 <= v < |P| ==> Reachable(g, u, v)) ==> |mst| == |P| - 1
  {
    var edges := GetEdges(g);
    var sorted := SortEdges(edges, P);
    forall k | 0 <= k < |sorted|
      ensures sorted[k].0 < |P| && sorted[k].1 < |P|
    {
      assert sorted[k] in multiset(edges);
      var l :| 0 <= l < |edges| && edges[l] == sorted[k];
      assert g[edges[l].0][0] < |P|;
    }
    mst := Kruskal(sorted, |P|);
    GreedyIn(sorted);
    GreedySorted(sorted, EdgeLength(P));
    GreedyAcyclic(sorted);
    GreedyLinks(sorted);
    forall k | 0 <= k < |mst|
      ensures mst[k].0 < |g| && mst[k].1 in g[mst[k].0]
    {
      assert mst[k] in multiset(edges);
      var l :| 0 <= l < |edges| && edges[l] == mst[k];
    }
    forall a, b | 0 <= a < |g| && b in g[a]
      ensures Joins(sorted, a, b)
    {
      JoinsReordered(edges, sorted, a, b);
    }
    forall u, v | Reachable(g, u, v)
      ensures Linked(sorted, u, v) && Linked(mst, u, v)
    {
      ReachableLinked(g, sorted, u, v);
      var w :| EdgeWalk(sorted, w) && w[0] == u && w[|w| - 1] == v;
      LinkedVia(sorted, mst, w);
    }
  }
}
