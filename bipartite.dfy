/** Bipartiteness test: BFS two-colouring of every component in index order, with the
    `Result` flag, the point lists `a` / `b` and the `Sets` tree of non-seed vertices. */
module Bipartite {
  import opened Graphs
  import opened Geometry

  /** A proper two-colouring: every edge joins different colours. */
  ghost predicate TwoColouring(g: Graph, c: seq<bool>) {
    && |c| == |g| && ValidGraph(g)
    && forall u, k :: 0 <= u < |g| && 0 <= k < |g[u]| ==> c[g[u][k]] != c[u]
  }

  ghost predicate IsBipartite(g: Graph) {
    exists c :: TwoColouring(g, c)
  }

  /** `Colors` keeps one entry per vertex, each −1 (uncoloured), 0 or 1. */
  ghost predicate ColourRange(g: Graph, colors: seq<int>) {
    |colors| == |g| && forall v :: 0 <= v < |g| ==> -1 <= colors[v] <= 1
  }

  /** Every neighbour of a vertex in `S` is coloured, with the other colour. */
  ghost predicate Separated(g: Graph, colors: seq<int>, S: set<nat>) {
    && ValidGraph(g) && |colors| == |g|
    && forall u, k :: u in S && u < |g| && 0 <= k < |g[u]| ==>
         colors[g[u][k]] != -1 && colors[g[u][k]] != colors[u]
  }

  /** The vertices coloured so far: the finished components `F` and the current one `C`. */
  ghost predicate Coloured(g: Graph, colors: seq<int>, F: set<nat>, C: set<nat>) {
    && |colors| == |g| && F !! C
    && (forall v :: v in F ==> v < |g|)
    && (forall v :: v in C ==> v < |g|)
    && forall v :: 0 <= v < |g| ==> (colors[v] != -1 <==> v in F || v in C)
  }

  /** No edge leaves the finished components. */
  ghost predicate Closed(g: Graph, F: set<nat>) {
    forall u, k :: u in F && u < |g| && 0 <= k < |g[u]| ==> g[u][k] in F
  }

  /** Every vertex `v` of the current component is reached from the seed by a walk
      whose length has the parity of `colors[v]`. */
  ghost predicate Rooted(g: Graph, colors: seq<int>, C: set<nat>, seed: nat, walk: seq<seq<nat>>) {
    && |walk| == |g| && |colors| == |g|
    && forall v :: v in C ==> v < |g| && WalkFrom(g, walk[v], seed, v) && (|walk[v]| - 1) % 2 == colors[v]
  }

  /** The queue holds the vertices of the current component not yet processed;
      `busy` is the vertex whose neighbours are being scanned, if any. */
  ghost predicate Pending(queue: seq<nat>, C: set<nat>, D: set<nat>, busy: set<nat>) {
    && D <= C && busy <= C && D !! busy && NoRepeats(queue)
    && (forall i :: 0 <= i < |queue| ==> queue[i] in C && queue[i] !in D && queue[i] !in busy)
    && forall u :: u in C ==> u in D || u in queue || u in busy
  }

  /** The vertices of `order` whose colour is `c`, in order. */
  function WithColour(order: seq<nat>, colors: seq<int>, c: int): (r: seq<nat>)
    requires forall i :: 0 <= i < |order| ==> order[i] < |colors|
    ensures forall i :: 0 <= i < |r| ==> r[i] in order && colors[r[i]] == c
  {
    if order == [] then []
    else
      var v := order[|order| - 1];
      WithColour(order[..|order| - 1], colors, c) + (if colors[v] == c then [v] else [])
  }

  /** The vertices of `order` that are not seeds, in order. */
  function Unseeded(order: seq<nat>, seeds: set<nat>): (r: seq<nat>)
    ensures forall i :: 0 <= i < |r| ==> r[i] in order && r[i] !in seeds
  {
    if order == [] then []
    else
      var v := order[|order| - 1];
      Unseeded(order[..|order| - 1], seeds) + (if v in seeds then [] else [v])
  }

  function Points(P: seq<Point>, vs: seq<nat>): seq<Point>
    requires forall i :: 0 <= i < |vs| ==> vs[i] < |P|
  {
    seq(|vs|, i requires 0 <= i < |vs| => P[vs[i]])
  }

  /** The breadth-first discovery order: every entry is a seed or a neighbour of an
      earlier entry, and the seeds come in increasing index order. */
  ghost predicate Ordered(g: Graph, order: seq<nat>, seeds: set<nat>) {
    && (forall k :: 0 <= k < |order| ==>
          order[k] in seeds || exists j :: 0 <= j < k && order[j] < |g| && order[k] in g[order[j]])
    && (forall j, k :: 0 <= j < k < |order| && order[j] in seeds && order[k] in seeds ==> order[j] < order[k])
  }

  /** `order` lists every coloured vertex once; the seeds are among them, with colour 0. */
  ghost predicate Discovered(g: Graph, colors: seq<int>, order: seq<nat>, seeds: set<nat>) {
    && |colors| == |g| && NoRepeats(order)
    && (forall i :: 0 <= i < |order| ==> order[i] < |g| && colors[order[i]] != -1)
    && (forall v :: 0 <= v < |g| && colors[v] != -1 ==> v in order)
    && (forall s :: s in seeds ==> s in order && colors[s] == 0)
  }

  /** No vertex of smaller index reaches `v`: the outer loop finds `v` uncoloured. */
  ghost predicate FirstOfReach(g: Graph, v: nat) {
    forall u :: 0 <= u < v ==> !Reachable(g, u, v)
  }

  /** Every finished vertex is reached from a seed of no larger index. */
  ghost predicate Sourced(g: Graph, F: set<nat>, seeds: set<nat>) {
    forall w :: w in F ==> exists s :: s in seeds && s <= w && Reachable(g, s, w)
  }

  /** The outputs against the discovery order: `a` lists the colour-0 points and `b`
      the colour-1 points in the order they were coloured; branch {0} of `Sets` lists
      the colour-0 vertices other than the seeds, branch {1} the colour-1 vertices. */
  ghost predicate Outputs(g: Graph, P: seq<Point>, colors: seq<int>, order: seq<nat>, seeds: set<nat>,
                          zeros: seq<nat>, ones: seq<nat>, a: seq<Point>, b: seq<Point>) {
    && |colors| == |g| && |g| <= |P|
    && (forall i :: 0 <= i < |order| ==> order[i] < |g|)
    && zeros == WithColour(Unseeded(order, seeds), colors, 0)
    && ones == WithColour(order, colors, 1)
    && a == Points(P, WithColour(order, colors, 0))
    && b == Points(P, ones)
  }

  ghost predicate Listed(g: Graph, P: seq<Point>, colors: seq<int>, order: seq<nat>, seeds: set<nat>,
                         zeros: seq<nat>, ones: seq<nat>, a: seq<Point>, b: seq<Point>) {
    Discovered(g, colors, order, seeds) && Outputs(g, P, colors, order, seeds, zeros, ones, a, b)
  }

  /** The mutable locals of the component. */
  datatype State = State(colors: seq<int>, queue: seq<nat>, zeros: seq<nat>, ones: seq<nat>, a: seq<Point>, b: seq<Point>)

  /** Proof bookkeeping: finished components, current component, its processed
      vertices, its seed, a walk from the seed to each of its vertices, the order in
      which vertices were coloured and the seeds so far. */
  datatype Trace = Trace(finished: set<nat>, comp: set<nat>, done: set<nat>, seed: nat,
                         walk: seq<seq<nat>>, order: seq<nat>, seeds: set<nat>)

  ghost predicate Searching(g: Graph, P: seq<Point>, st: State, t: Trace, busy: set<nat>) {
    && ValidGraph(g) && ColourRange(g, st.colors)
    && Coloured(g, st.colors, t.finished, t.comp)
    && Closed(g, t.finished)
    && Separated(g, st.colors, t.finished + t.done)
    && Pending(st.queue, t.comp, t.done, busy)
    && Rooted(g, st.colors, t.comp, t.seed, t.walk)
    && Listed(g, P, st.colors, t.order, t.seeds, st.zeros, st.ones, st.a, st.b)
  }

  /** Scans the neighbours of `node` (the `foreach (int neig in G.Branch(node))` loop):
      an uncoloured neighbour gets `1 - Colors[node]`, joins `a` or `b` and `Sets`, and
      is queued; a neighbour with the colour of `node` stops the scan with `conflict`. */
  method ColourNeighbours(g: Graph, P: seq<Point>, node: nat, st: State, ghost t: Trace)
    returns (st': State, conflict: bool, ghost t': Trace)
    requires Searching(g, P, st, t, {node}) && node in t.comp && node !in t.done
    requires Ordered(g, t.order, t.seeds)
    ensures Ordered(g, t'.order, t'.seeds)
    ensures !conflict ==> Searching(g, P, st', t'.(done := t'.done + {node}), {})
    ensures !conflict ==> multiset(st'.colors)[-1] + |st'.queue| == multiset(st.colors)[-1] + |st.queue|
    ensures !conflict ==> multiset(st'.colors)[-1] <= multiset(st.colors)[-1]
    ensures !conflict ==> t'.finished == t.finished && t'.done == t.done && t.comp <= t'.comp
    ensures t'.seed == t.seed && t'.seeds == t.seeds
    ensures conflict ==> ValidGraph(g) && ColourRange(g, st'.colors) && Listed(g, P, st'.colors, t'.order, t'.seeds, st'.zeros, st'.ones, st'.a, st'.b)
    ensures conflict && Symmetric(g) ==> !IsBipartite(g)
  {
    st', t' := st, t;
    conflict := false;
    for k := 0 to |g[node]|
      invariant Searching(g, P, st', t', {node}) && node in t'.comp && node !in t'.done
      invariant t'.done == t.done && t'.finished == t.finished && t'.seed == t.seed && t'.seeds == t.seeds && t.comp <= t'.comp
      invariant Scanned(g, st'.colors, node, k) && Ordered(g, t'.order, t'.seeds)
      invariant multiset(st'.colors)[-1] + |st'.queue| == multiset(st.colors)[-1] + |st.queue|
      invariant multiset(st'.colors)[-1] <= multiset(st.colors)[-1]
    {
      var neig := g[node][k];
      ghost var t0, st0 := t', st';
      if st'.colors[neig] == -1 {
        var c := 1 - st'.colors[node];
        var colors := st'.colors[neig := c];
        if c == 0 {
          st' := st'.(colors := colors, queue := st'.queue + [neig], zeros := st'.zeros + [neig], a := st'.a + [P[neig]]);
        } else {
          st' := st'.(colors := colors, queue := st'.queue + [neig], ones := st'.ones + [neig], b := st'.b + [P[neig]]);
        }
        ScanStep(g, node, k, st0.colors, colors);
        t' := t'.(comp := t'.comp + {neig}, walk := t'.walk[neig := t'.walk[node] + [neig]], order := t'.order + [neig]);
        ColourStep(g, P, node, neig, c, st0, t0, st', t');
        assert node in t0.order && neig !in t0.seeds;
        OrderedSnoc(g, t0.order, t0.seeds, node, neig);
      } else if st'.colors[neig] == st'.colors[node] {
        conflict := true;
        Clash(g, P, node, neig, st', t');
        break;
      } else {
        ScanStep(g, node, k, st0.colors, st0.colors);
      }
    }
    if !conflict {
      FinishNode(g, P, node, st', t');
    }
  }

  /** The first `k` neighbours of `node` are coloured, with the other colour. */
  ghost predicate Scanned(g: Graph, colors: seq<int>, node: nat, k: nat) {
    && ValidGraph(g) && |colors| == |g| && node < |g| && k <= |g[node]|
    && forall j :: 0 <= j < k ==> colors[g[node][j]] != -1 && colors[g[node][j]] != colors[node]
  }

  lemma ScanStep(g: Graph, node: nat, k: nat, c0: seq<int>, c1: seq<int>)
    requires Scanned(g, c0, node, k) && k < |g[node]| && 0 <= c0[node] <= 1
    requires var neig := g[node][k];
             || (c0[neig] == -1 && c1 == c0[neig := 1 - c0[node]])
             || (c0[neig] != -1 && c0[neig] != c0[node] && c1 == c0)
    ensures Scanned(g, c1, node, k + 1) && c1[node] == c0[node]
  {
    assert c1[node] == c0[node];
    forall j | 0 <= j < k + 1
      ensures c1[g[node][j]] != -1 && c1[g[node][j]] != c1[node]
    {
      if j < k {
        assert c1[g[node][j]] == c0[g[node][j]];
      }
    }
  }

  /** `st`, `t` are `st0`, `t0` after colouring the uncoloured neighbour `neig` of
      `node` with `c` and queueing it. */
  ghost predicate ColouredNext(g: Graph, P: seq<Point>, node: nat, neig: nat, c: int,
                               st0: State, t0: Trace, st: State, t: Trace) {
    && node < |g| && neig in g[node] && neig < |g| && neig < |st0.colors| && node < |st0.colors| && neig < |P|
    && neig < |t0.walk| && node < |t0.walk|
    && st0.colors[neig] == -1 && c == 1 - st0.colors[node] && (c == 0 || c == 1)
    && st.colors == st0.colors[neig := c] && st.queue == st0.queue + [neig]
    && (c == 0 ==> st.zeros == st0.zeros + [neig] && st.ones == st0.ones && st.a == st0.a + [P[neig]] && st.b == st0.b)
    && (c != 0 ==> st.zeros == st0.zeros && st.ones == st0.ones + [neig] && st.a == st0.a && st.b == st0.b + [P[neig]])
    && t.finished == t0.finished && t.done == t0.done && t.seed == t0.seed && t.seeds == t0.seeds
    && t.comp == t0.comp + {neig} && t.walk == t0.walk[neig := t0.walk[node] + [neig]] && t.order == t0.order + [neig]
  }

  /** Colouring one new neighbour keeps the search invariant. */
  lemma ColourStep(g: Graph, P: seq<Point>, node: nat, neig: nat, c: int, st0: State, t0: Trace, st: State, t: Trace)
    requires Searching(g, P, st0, t0, {node}) && node in t0.comp && node !in t0.done
    requires ColouredNext(g, P, node, neig, c, st0, t0, st, t)
    ensures Searching(g, P, st, t, {node}) && node in t.comp && node !in t.done
    ensures multiset(st.colors)[-1] + |st.queue| == multiset(st0.colors)[-1] + |st0.queue|
    ensures multiset(st.colors)[-1] < multiset(st0.colors)[-1]
  {
    StepKeepsColours(g, P, node, neig, c, st0, t0, st, t);
    StepKeepsRooted(g, P, node, neig, c, st0, t0, st, t);
    StepKeepsListed(g, P, node, neig, c, st0, t0, st, t);
    assert multiset(st.colors)[-1] == multiset(st0.colors)[-1] - 1;
  }

  lemma StepKeepsColours(g: Graph, P: seq<Point>, node: nat, neig: nat, c: int, st0: State, t0: Trace, st: State, t: Trace)
    requires Searching(g, P, st0, t0, {node}) && node in t0.comp && node !in t0.done
    requires ColouredNext(g, P, node, neig, c, st0, t0, st, t)
    ensures ColourRange(g, st.colors) && Coloured(g, st.colors, t.finished, t.comp) && Closed(g, t.finished)
    ensures Separated(g, st.colors, t.finished + t.done) && Pending(st.queue, t.comp, t.done, {node})
  {
    assert neig !in t0.comp && neig !in t0.finished;
  }

  lemma StepKeepsRooted(g: Graph, P: seq<Point>, node: nat, neig: nat, c: int, st0: State, t0: Trace, st: State, t: Trace)
    requires Searching(g, P, st0, t0, {node}) && node in t0.comp
    requires ColouredNext(g, P, node, neig, c, st0, t0, st, t)
    ensures Rooted(g, st.colors, t.comp, t.seed, t.walk)
  {
    assert WalkFrom(g, t.walk[neig], t0.seed, neig) by {
      assert t.walk[neig] == t0.walk[node] + [neig];
    }
  }

  lemma StepKeepsListed(g: Graph, P: seq<Point>, node: nat, neig: nat, c: int, st0: State, t0: Trace, st: State, t: Trace)
    requires Listed(g, P, st0.colors, t0.order, t0.seeds, st0.zeros, st0.ones, st0.a, st0.b)
    requires ColouredNext(g, P, node, neig, c, st0, t0, st, t)
    ensures Listed(g, P, st.colors, t.order, t.seeds, st.zeros, st.ones, st.a, st.b)
  {
    assert neig !in t0.order;
    StepKeepsDiscovered(g, P, node, neig, c, st0, t0, st, t);
    StepKeepsOutputs(g, P, node, neig, c, st0, t0, st, t);
  }

  lemma StepKeepsDiscovered(g: Graph, P: seq<Point>, node: nat, neig: nat, c: int, st0: State, t0: Trace, st: State, t: Trace)
    requires Discovered(g, st0.colors, t0.order, t0.seeds)
    requires ColouredNext(g, P, node, neig, c, st0, t0, st, t)
    ensures neig !in t0.order
    ensures Discovered(g, st.colors, t.order, t.seeds)
  {
  }

  /** Appending a neighbour of a listed vertex keeps the discovery order. */
  lemma OrderedSnoc(g: Graph, order: seq<nat>, seeds: set<nat>, node: nat, v: nat)
    requires Ordered(g, order, seeds) && node in order && node < |g| && v in g[node] && v !in seeds
    ensures Ordered(g, order + [v], seeds)
  {
    var o := order + [v];
    var j :| 0 <= j < |order| && order[j] == node;
    assert o[j] == node;
    forall k | 0 <= k < |order|
      ensures o[k] in seeds || exists j :: 0 <= j < k && o[j] < |g| && o[k] in g[o[j]]
    {
      if order[k] !in seeds {
        var j' :| 0 <= j' < k && order[j'] < |g| && order[k] in g[order[j']];
        assert o[j'] == order[j'];
      }
    }
  }

  /** Appending a new seed larger than every earlier seed keeps the discovery order. */
  lemma OrderedSeed(g: Graph, order: seq<nat>, seeds: set<nat>, i: nat)
    requires Ordered(g, order, seeds) && i !in order && forall s :: s in seeds ==> s < i
    ensures Ordered(g, order + [i], seeds + {i})
  {
    var o := order + [i];
    forall k | 0 <= k < |order|
      ensures o[k] in seeds + {i} || exists j :: 0 <= j < k && o[j] < |g| && o[k] in g[o[j]]
    {
      if order[k] !in seeds {
        var j' :| 0 <= j' < k && order[j'] < |g| && order[k] in g[order[j']];
        assert o[j'] == order[j'];
      }
    }
    forall j, k | 0 <= j < k < |o| && o[j] in seeds + {i} && o[k] in seeds + {i}
      ensures o[j] < o[k]
    {
      assert o[j] == order[j] && order[j] != i;
    }
  }

  lemma StepKeepsOutputs(g: Graph, P: seq<Point>, node: nat, neig: nat, c: int, st0: State, t0: Trace, st: State, t: Trace)
    requires Outputs(g, P, st0.colors, t0.order, t0.seeds, st0.zeros, st0.ones, st0.a, st0.b)
    requires ColouredNext(g, P, node, neig, c, st0, t0, st, t) && neig !in t0.order && neig !in t0.seeds
    ensures Outputs(g, P, st.colors, t.order, t.seeds, st.zeros, st.ones, st.a, st.b)
  {
    var o0, u0 := t0.order, Unseeded(t0.order, t0.seeds);
    assert t.order == o0 + [neig];
    assert Unseeded(t.order, t.seeds) == u0 + [neig];
    ColourSnoc(o0, st0.colors, st.colors, neig, c, 0);
    ColourSnoc(o0, st0.colors, st.colors, neig, c, 1);
    ColourSnoc(u0, st0.colors, st.colors, neig, c, 0);
    PointsSnoc(P, WithColour(o0, st0.colors, 0), neig);
    PointsSnoc(P, WithColour(o0, st0.colors, 1), neig);
  }

  /** Colouring a new vertex `v` and appending it to a list extends the list's
      colour-`k` part by `v` exactly when `v` got colour `k`. */
  lemma ColourSnoc(order: seq<nat>, colors0: seq<int>, colors: seq<int>, v: nat, c: int, k: int)
    requires forall i :: 0 <= i < |order| ==> order[i] < |colors0| && order[i] != v
    requires v < |colors0| && colors == colors0[v := c]
    ensures WithColour(order + [v], colors, k) == WithColour(order, colors0, k) + (if c == k then [v] else [])
  {
    WithColourFrame(order, colors0, colors, k);
    assert (order + [v])[..|order|] == order;
  }

  lemma PointsSnoc(P: seq<Point>, vs: seq<nat>, v: nat)
    requires (forall i :: 0 <= i < |vs| ==> vs[i] < |P|) && v < |P|
    ensures Points(P, vs + [v]) == Points(P, vs) + [P[v]]
  {
  }

  /** `WithColour` only reads the colours of the listed vertices. */
  lemma {:induction false} WithColourFrame(order: seq<nat>, colors: seq<int>, colors': seq<int>, c: int)
    requires forall i :: 0 <= i < |order| ==> order[i] < |colors| && order[i] < |colors'| && colors'[order[i]] == colors[order[i]]
    ensures WithColour(order, colors', c) == WithColour(order, colors, c)
  {
    if order != [] {
      WithColourFrame(order[..|order| - 1], colors, colors', c);
    }
  }

  /** All neighbours of `node` scanned without a clash: `node` is processed. */
  lemma FinishNode(g: Graph, P: seq<Point>, node: nat, st: State, t: Trace)
    requires Searching(g, P, st, t, {node}) && node in t.comp && node !in t.done && node < |g|
    requires Scanned(g, st.colors, node, |g[node]|)
    ensures Searching(g, P, st, t.(done := t.done + {node}), {})
  {
  }

  /** A neighbour with the colour of `node`: on an undirected graph it belongs to the
      current component, and the two walks from the seed close an odd cycle. */
  lemma Clash(g: Graph, P: seq<Point>, node: nat, neig: nat, st: State, t: Trace)
    requires Searching(g, P, st, t, {node}) && node in t.comp && node < |g|
    requires neig in g[node] && st.colors[neig] != -1 && st.colors[neig] == st.colors[node]
    ensures Symmetric(g) ==> !IsBipartite(g)
  {
    if Symmetric(g) {
      if neig in t.finished {
        ClosedBack(g, t.finished, node, neig);
      }
      OddCycle(g, t.seed, node, neig, t.walk[node], t.walk[neig]);
    }
  }

  /** On an undirected graph, a neighbour of a vertex outside a closed set is outside it too. */
  lemma ClosedBack(g: Graph, F: set<nat>, u: nat, w: nat)
    requires ValidGraph(g) && Symmetric(g) && Closed(g, F) && u < |g| && w in g[u] && w in F
    ensures u in F
  {
    assert u in g[w];
    var k :| 0 <= k < |g[w]| && g[w][k] == u;
  }

  /** Two walks from one vertex whose lengths have the same parity, ending at the two
      ends of an edge: no two-colouring exists. */
  lemma OddCycle(g: Graph, s: nat, u: nat, w: nat, pu: seq<nat>, pw: seq<nat>)
    requires ValidGraph(g) && u < |g| && w in g[u]
    requires WalkFrom(g, pu, s, u) && WalkFrom(g, pw, s, w) && (|pu| - 1) % 2 == (|pw| - 1) % 2
    ensures !IsBipartite(g)
  {
    forall c | TwoColouring(g, c)
      ensures false
    {
      WalkParity(g, c, pu);
      WalkParity(g, c, pw);
    }
  }

  /** Along a walk a two-colouring alternates, so the colour of the last vertex is
      fixed by the first one and the parity of the length. */
  lemma {:induction false} WalkParity(g: Graph, c: seq<bool>, p: seq<nat>)
    requires TwoColouring(g, c) && IsWalk(g, p)
    ensures c[p[|p| - 1]] == (c[p[0]] == ((|p| - 1) % 2 == 0))
  {
    if |p| > 1 {
      WalkPrefix(g, p);
      WalkParity(g, c, p[..|p| - 1]);
      var k :| 0 <= k < |g[p[|p| - 2]]| && g[p[|p| - 2]][k] == p[|p| - 1];
    }
  }

  /** The `while (Qu.Count != 0)` loop: dequeue a vertex and scan its neighbours, until
      the queue is empty or a clash sets `Result` to false. */
  method DrainQueue(g: Graph, P: seq<Point>, st: State, ghost t: Trace)
    returns (result: bool, st': State, ghost t': Trace)
    requires Searching(g, P, st, t, {}) && Ordered(g, t.order, t.seeds)
    ensures Ordered(g, t'.order, t'.seeds)
    ensures result ==> Searching(g, P, st', t', {}) && st'.queue == [] && t'.finished == t.finished && t.comp <= t'.comp
    ensures t'.seed == t.seed && t'.seeds == t.seeds
    ensures !result ==> ValidGraph(g) && ColourRange(g, st'.colors) && Listed(g, P, st'.colors, t'.order, t'.seeds, st'.zeros, st'.ones, st'.a, st'.b)
    ensures !result && Symmetric(g) ==> !IsBipartite(g)
  {
    st', t' := st, t;
    result := true;
    while st'.queue != []
      invariant Searching(g, P, st', t', {}) && t'.finished == t.finished && t.comp <= t'.comp
      invariant t'.seed == t.seed && t'.seeds == t.seeds && Ordered(g, t'.order, t'.seeds)
      decreases multiset(st'.colors)[-1], |st'.queue|
    {
      var node := st'.queue[0];
      ghost var st0 := st';
      st' := st'.(queue := st'.queue[1..]);
      Dequeue(g, P, node, st0, st', t');
      var conflict;
      st', conflict, t' := ColourNeighbours(g, P, node, st', t');
      if conflict {
        result := false;
        break;
      }
      t' := t'.(done := t'.done + {node});
    }
  }

  lemma Dequeue(g: Graph, P: seq<Point>, node: nat, st0: State, st: State, t: Trace)
    requires Searching(g, P, st0, t, {}) && st0.queue != [] && node == st0.queue[0]
    requires st == st0.(queue := st0.queue[1..])
    ensures Searching(g, P, st, t, {node}) && node in t.comp && node !in t.done
  {
    assert forall i :: 0 <= i < |st.queue| ==> st.queue[i] == st0.queue[i + 1];
  }

  /** Every vertex coloured 0 or 1, and every edge joining different colours. */
  ghost predicate ProperColours(g: Graph, colors: seq<int>) {
    && ValidGraph(g) && |colors| == |g|
    && (forall v :: 0 <= v < |g| ==> colors[v] == 0 || colors[v] == 1)
    && forall u, k :: 0 <= u < |g| && 0 <= k < |g[u]| ==> colors[g[u][k]] != colors[u]
  }

  /** The component: seed every still-uncoloured vertex, in index order, with colour 0
      (adding its point to `a` only), drain the queue, and stop at the first clash.
      `order` is the order in which the vertices were coloured, `seeds` the seeds. */
  method IsGraphBipartite(g: Graph, P: seq<Point>)
    returns (result: bool, colors: seq<int>, zeros: seq<nat>, ones: seq<nat>, a: seq<Point>, b: seq<Point>,
             ghost order: seq<nat>, ghost seeds: set<nat>)
    requires ValidGraph(g) && |g| <= |P|
    ensures ColourRange(g, colors)
    ensures result ==> ProperColours(g, colors)
    ensures forall u :: 0 <= u < |g| && u in g[u] ==> !result
    ensures Symmetric(g) ==> (result <==> IsBipartite(g))
    ensures Listed(g, P, colors, order, seeds, zeros, ones, a, b)
    ensures Ordered(g, order, seeds)
    ensures result ==> seeds == set v | 0 <= v < |g| && FirstOfReach(g, v)
  {
    var st := State(seq(|g|, _ => -1), [], [], [], [], []);
    ghost var t := Trace({}, {}, {}, 0, seq(|g|, _ => []), [], {});
    result := true;
    for i := 0 to |g|
      invariant result ==> Searching(g, P, st, t, {}) && st.queue == [] && t.comp == {} && t.done == {}
      invariant result ==> forall v :: 0 <= v < i ==> v in t.finished
      invariant result ==> t.seeds == (set v | 0 <= v < i && FirstOfReach(g, v)) && Sourced(g, t.finished, t.seeds)
      invariant Ordered(g, t.order, t.seeds)
      invariant !result ==> ValidGraph(g) && ColourRange(g, st.colors) && Listed(g, P, st.colors, t.order, t.seeds, st.zeros, st.ones, st.a, st.b)
      invariant !result && Symmetric(g) ==> !IsBipartite(g)
    {
      result, st, t := VisitVertex(g, P, st, t, i);
      if !result {
        break;
      }
    }
    colors, zeros, ones, a, b := st.colors, st.zeros, st.ones, st.a, st.b;
    order, seeds := t.order, t.seeds;
    if result {
      AllColoured(g, P, st, t);
      ProperIsBipartite(g, colors);
    }
  }

  /** One pass of the outer loop: vertex `i` starts a new component exactly when it
      is still uncoloured, which happens exactly when no smaller index reaches it. */
  method VisitVertex(g: Graph, P: seq<Point>, st: State, ghost t: Trace, i: nat)
    returns (result: bool, st': State, ghost t': Trace)
    requires Searching(g, P, st, t, {}) && st.queue == [] && t.comp == {} && t.done == {}
    requires i < |g| && forall v :: 0 <= v < i ==> v in t.finished
    requires t.seeds == (set v | 0 <= v < i && FirstOfReach(g, v)) && Sourced(g, t.finished, t.seeds)
    requires Ordered(g, t.order, t.seeds)
    ensures Ordered(g, t'.order, t'.seeds)
    ensures result ==> Searching(g, P, st', t', {}) && st'.queue == [] && t'.comp == {} && t'.done == {}
    ensures result ==> forall v :: 0 <= v < i + 1 ==> v in t'.finished
    ensures result ==> t'.seeds == (set v | 0 <= v < i + 1 && FirstOfReach(g, v)) && Sourced(g, t'.finished, t'.seeds)
    ensures !result ==> ValidGraph(g) && ColourRange(g, st'.colors) && Listed(g, P, st'.colors, t'.order, t'.seeds, st'.zeros, st'.ones, st'.a, st'.b)
    ensures !result && Symmetric(g) ==> !IsBipartite(g)
  {
    if st.colors[i] == -1 {
      FirstUncoloured(g, t.finished, i);
      result, st', t' := ColourComponent(g, P, st, t, i);
      if result {
        NewSeed(g, t.seeds, t.finished, t'.finished, i);
      }
    } else {
      assert i in t.finished;
      ReachedBefore(g, t.finished, t.seeds, i);
      result, st', t' := true, st, t;
    }
  }

  /** The breadth-first search from the uncoloured vertex `i`: `i` gets colour 0,
      then the queue is drained; on success its whole component is finished. */
  method ColourComponent(g: Graph, P: seq<Point>, st: State, ghost t: Trace, i: nat)
    returns (result: bool, st': State, ghost t': Trace)
    requires Searching(g, P, st, t, {}) && st.queue == [] && t.comp == {} && t.done == {}
    requires i < |g| && st.colors[i] == -1 && forall v :: 0 <= v < i ==> v in t.finished
    requires Ordered(g, t.order, t.seeds) && forall s :: s in t.seeds ==> s < i
    ensures Ordered(g, t'.order, t'.seeds)
    ensures result ==> Searching(g, P, st', t', {}) && st'.queue == [] && t'.comp == {} && t'.done == {}
    ensures result ==> forall v :: 0 <= v < i + 1 ==> v in t'.finished
    ensures result ==> t'.seeds == t.seeds + {i}
    ensures result ==> forall w :: w in t'.finished ==> w in t.finished || (i <= w && Reachable(g, i, w))
    ensures !result ==> ValidGraph(g) && ColourRange(g, st'.colors) && Listed(g, P, st'.colors, t'.order, t'.seeds, st'.zeros, st'.ones, st'.a, st'.b)
    ensures !result && Symmetric(g) ==> !IsBipartite(g)
  {
    st' := st.(queue := [i], colors := st.colors[i := 0], a := st.a + [P[i]]);
    t' := t.(comp := {i}, seed := i, walk := t.walk[i := [i]], order := t.order + [i], seeds := t.seeds + {i});
    SeedStep(g, P, i, st, t, st', t');
    assert i !in t.order;
    OrderedSeed(g, t.order, t.seeds, i);
    result, st', t' := DrainQueue(g, P, st', t');
    if result {
      FinishComponent(g, P, st', t', i);
      forall w | w in t'.comp
        ensures i <= w && Reachable(g, i, w)
      {
        assert WalkFrom(g, t'.walk[w], i, w);
      }
      t' := t'.(finished := t'.finished + t'.comp, comp := {}, done := {});
    }
  }

  /** `st`, `t` are `st0`, `t0` after seeding the uncoloured vertex `i`. */
  ghost predicate Seeded(g: Graph, P: seq<Point>, i: nat, st0: State, t0: Trace, st: State, t: Trace) {
    && i < |g| && i < |P| && i < |st0.colors| && i < |t0.walk| && st0.colors[i] == -1
    && (forall s :: s in t0.seeds ==> s < i)
    && st.colors == st0.colors[i := 0] && st.queue == [i] && st.a == st0.a + [P[i]]
    && st.b == st0.b && st.zeros == st0.zeros && st.ones == st0.ones
    && t.finished == t0.finished && t.comp == {i} && t.done == {} && t.seed == i
    && t.walk == t0.walk[i := [i]] && t.order == t0.order + [i] && t.seeds == t0.seeds + {i}
  }

  lemma SeedStep(g: Graph, P: seq<Point>, i: nat, st0: State, t0: Trace, st: State, t: Trace)
    requires Searching(g, P, st0, t0, {}) && t0.comp == {} && t0.done == {}
    requires i < |g| && st0.colors[i] == -1 && forall s :: s in t0.seeds ==> s < i
    requires st == st0.(queue := [i], colors := st0.colors[i := 0], a := st0.a + [P[i]])
    requires t == t0.(comp := {i}, seed := i, walk := t0.walk[i := [i]], order := t0.order + [i], seeds := t0.seeds + {i})
    ensures Searching(g, P, st, t, {})
  {
    assert Seeded(g, P, i, st0, t0, st, t);
    SeedKeepsColours(g, P, i, st0, t0, st, t);
    SeedKeepsListed(g, P, i, st0, t0, st, t);
    assert WalkFrom(g, [i], i, i);
  }

  lemma SeedKeepsColours(g: Graph, P: seq<Point>, i: nat, st0: State, t0: Trace, st: State, t: Trace)
    requires Searching(g, P, st0, t0, {}) && t0.comp == {} && t0.done == {}
    requires Seeded(g, P, i, st0, t0, st, t)
    ensures ColourRange(g, st.colors) && Coloured(g, st.colors, t.finished, t.comp) && Closed(g, t.finished)
    ensures Separated(g, st.colors, t.finished + t.done) && Pending(st.queue, t.comp, t.done, {})
  {
    assert i !in t0.finished;
  }

  lemma SeedKeepsListed(g: Graph, P: seq<Point>, i: nat, st0: State, t0: Trace, st: State, t: Trace)
    requires Listed(g, P, st0.colors, t0.order, t0.seeds, st0.zeros, st0.ones, st0.a, st0.b)
    requires Seeded(g, P, i, st0, t0, st, t)
    ensures Listed(g, P, st.colors, t.order, t.seeds, st.zeros, st.ones, st.a, st.b)
  {
    assert i !in t0.order;
    SeedKeepsOutputs(g, P, i, st0, t0, st, t);
  }

  lemma SeedKeepsOutputs(g: Graph, P: seq<Point>, i: nat, st0: State, t0: Trace, st: State, t: Trace)
    requires Outputs(g, P, st0.colors, t0.order, t0.seeds, st0.zeros, st0.ones, st0.a, st0.b)
    requires Seeded(g, P, i, st0, t0, st, t) && i !in t0.order
    ensures Outputs(g, P, st.colors, t.order, t.seeds, st.zeros, st.ones, st.a, st.b)
  {
    var o0, o := t0.order, t.order;
    assert o[..|o0|] == o0 && o[|o| - 1] == i;
    WithColourFrame(o0, st0.colors, st.colors, 0);
    WithColourFrame(o0, st0.colors, st.colors, 1);
    var u0 := Unseeded(o0, t0.seeds);
    WithColourFrame(u0, st0.colors, st.colors, 0);
    UnseededAbsent(o0, t0.seeds, i);
    assert Unseeded(o, t.seeds) == u0;
    assert WithColour(o, st.colors, 0) == WithColour(o0, st0.colors, 0) + [i];
    assert WithColour(o, st.colors, 1) == WithColour(o0, st0.colors, 1);
    PointsSnoc(P, WithColour(o0, st0.colors, 0), i);
  }

  /** Adding a vertex that is not listed to the seeds leaves `Unseeded` alone. */
  lemma {:induction false} UnseededAbsent(order: seq<nat>, seeds: set<nat>, v: nat)
    requires v !in order
    ensures Unseeded(order, seeds + {v}) == Unseeded(order, seeds)
  {
    if order != [] {
      UnseededAbsent(order[..|order| - 1], seeds, v);
    }
  }

  /** An empty queue closes the current component: every vertex of it is processed. */
  lemma FinishComponent(g: Graph, P: seq<Point>, st: State, t: Trace, i: nat)
    requires Searching(g, P, st, t, {}) && st.queue == []
    requires i in t.comp && forall v :: 0 <= v < i ==> v in t.finished
    ensures Searching(g, P, st, t.(finished := t.finished + t.comp, comp := {}, done := {}), {})
    ensures forall v :: 0 <= v < i + 1 ==> v in t.finished + t.comp
  {
    assert t.comp == t.done;
  }

  /** A walk that starts in a closed set stays in it. */
  lemma {:induction false} ClosedReach(g: Graph, F: set<nat>, p: seq<nat>)
    requires Closed(g, F) && IsWalk(g, p) && p[0] in F
    ensures p[|p| - 1] in F
    decreases |p|
  {
    if |p| > 1 {
      WalkPrefix(g, p);
      ClosedReach(g, F, p[..|p| - 1]);
      var k :| 0 <= k < |g[p[|p| - 2]]| && g[p[|p| - 2]][k] == p[|p| - 1];
    }
  }

  /** A vertex still uncoloured when the outer loop reaches it is reached from no
      smaller index, since all of those lie in closed, finished components. */
  lemma FirstUncoloured(g: Graph, F: set<nat>, i: nat)
    requires Closed(g, F) && i !in F && forall v :: 0 <= v < i ==> v in F
    ensures FirstOfReach(g, i)
  {
    forall u | 0 <= u < i && Reachable(g, u, i)
      ensures false
    {
      var p :| WalkFrom(g, p, u, i);
      ClosedReach(g, F, p);
    }
  }

  /** A vertex already coloured when the outer loop reaches it is reached from an
      earlier seed. */
  lemma ReachedBefore(g: Graph, F: set<nat>, seeds: set<nat>, i: nat)
    requires Sourced(g, F, seeds) && i in F && forall v :: 0 <= v < i ==> v in F
    requires seeds == set v | 0 <= v < i && FirstOfReach(g, v)
    ensures !FirstOfReach(g, i)
    ensures seeds == set v | 0 <= v < i + 1 && FirstOfReach(g, v)
    ensures forall v :: 0 <= v < i + 1 ==> v in F
  {
    var s :| s in seeds && s <= i && Reachable(g, s, i);
  }

  /** On the single edge 0–1 only vertex 0 is a seed, so vertex 1 alone goes into `Sets`. */
  lemma EdgeHasOneSeed()
    ensures (set v | 0 <= v < 2 && FirstOfReach([[1], [0]], v)) == {0}
  {
    var g: Graph := [[1], [0]];
    assert WalkFrom(g, [0, 1], 0, 1);
    assert Reachable(g, 0, 1);
    assert FirstOfReach(g, 0) && !FirstOfReach(g, 1);
    var S := set v | 0 <= v < 2 && FirstOfReach(g, v);
    assert 0 in S && 1 !in S;
    assert forall v :: v in S ==> v == 0;
  }

  /** Seeding `i` and finishing its component keeps the seeds and their reach. */
  lemma NewSeed(g: Graph, seeds: set<nat>, F: set<nat>, F': set<nat>, i: nat)
    requires Sourced(g, F, seeds) && FirstOfReach(g, i)
    requires seeds == set v | 0 <= v < i && FirstOfReach(g, v)
    requires forall w :: w in F' ==> w in F || (i <= w && Reachable(g, i, w))
    ensures seeds + {i} == set v | 0 <= v < i + 1 && FirstOfReach(g, v)
    ensures Sourced(g, F', seeds + {i})
  {
    forall w | w in F'
      ensures exists s :: s in seeds + {i} && s <= w && Reachable(g, s, w)
    {
      if w in F {
        var s :| s in seeds && s <= w && Reachable(g, s, w);
        assert s in seeds + {i};
      } else {
        assert i in seeds + {i};
      }
    }
  }

  /** With every component finished, the colouring is proper. */
  lemma AllColoured(g: Graph, P: seq<Point>, st: State, t: Trace)
    requires Searching(g, P, st, t, {})
    requires forall v :: 0 <= v < |g| ==> v in t.finished
    ensures ProperColours(g, st.colors)
  {
  }

  /** A proper colouring gives a two-colouring. */
  lemma ProperIsBipartite(g: Graph, colors: seq<int>)
    requires ProperColours(g, colors)
    ensures IsBipartite(g)
  {
    var c := seq(|g|, v requires 0 <= v < |g| => colors[v] == 1);
    assert TwoColouring(g, c);
  }

  /** A self-loop rules out every two-colouring, so `Result` is false. */
  lemma SelfLoopNotBipartite(g: Graph, u: nat)
    requires ValidGraph(g) && u < |g| && u in g[u]
    ensures !IsBipartite(g)
  {
    OddCycle(g, u, u, u, [u], [u]);
  }
}
