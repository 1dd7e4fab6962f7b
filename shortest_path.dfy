/** Breadth-first shortest path between two vertices (the `ShortestPath`/`GetPath`
    pair; the closeness and betweenness components carry identical copies). */
module Bfs {
  import opened Graphs
  import opened Seqs

  /** The predecessor links recorded by the search: every visited vertex other than
      the start was reached from a visited vertex one level closer to the start. */
  ghost predicate PrevTree(g: Graph, start: nat, visited: seq<bool>, level: seq<nat>, prev: map<nat, nat>) {
    && |visited| == |g| && |level| == |g|
    && start < |g| && visited[start] && level[start] == 0
    && (forall v {:trigger v in prev} :: v in prev <==> 0 <= v < |g| && visited[v] && v != start)
    && forall v {:trigger prev[v]} :: v in prev ==>
         && prev[v] < |g| && visited[prev[v]]
         && v in g[prev[v]] && level[v] == level[prev[v]] + 1
  }

  lemma WalkCons(g: Graph, x: nat, w: seq<nat>)
    requires IsWalk(g, w) && x < |g| && w[0] in g[x]
    ensures IsWalk(g, [x] + w)
  {
    var p := [x] + w;
    forall k | 0 <= k < |p| - 1
      ensures p[k + 1] in g[p[k]]
    {
      if k > 0 {
        assert p[k] == w[k - 1] && p[k + 1] == w[k];
      }
    }
  }

  /** Follows the predecessor links back from `end` and reverses the result. */
  method GetPath(g: Graph, start: nat, end: nat, prev: map<nat, nat>,
                 ghost visited: seq<bool>, ghost level: seq<nat>)
    returns (path: seq<nat>)
    requires PrevTree(g, start, visited, level, prev)
    requires end < |g| && visited[end]
    ensures WalkFrom(g, path, start, end) && |path| == level[end] + 1
  {
    var pth: seq<nat> := [];
    var item: nat := end;
    while item != start
      invariant item < |g| && visited[item]
      invariant |pth| + level[item] == level[end]
      invariant WalkFrom(g, [item] + Reversed(pth), item, end)
      decreases level[item]
    {
      var before := item;
      pth := pth + [item];
      item := prev[item];
      ReversedSnoc(pth[..|pth| - 1], before);
      assert pth[..|pth| - 1] + [before] == pth;
      WalkCons(g, item, [before] + Reversed(pth[..|pth| - 1]));
    }
    ReversedSnoc(pth, start);
    pth := pth + [start];
    path := Reversed(pth);
  }

  /** Every walk from the start with at most `m` edges ends at a visited vertex
      whose level is at most the walk's length, provided every visited vertex below
      level `m` has been expanded. */
  lemma {:induction false} ShortWalksReached(g: Graph, start: nat, visited: seq<bool>, level: seq<nat>,
                                            done: set<nat>, m: nat, q: seq<nat>)
    requires ValidGraph(g)
    requires |visited| == |g| && |level| == |g| && start < |g| && visited[start] && level[start] == 0
    requires forall v :: 0 <= v < |g| && visited[v] && level[v] < m ==> v in done
    requires forall u :: u in done ==> u < |g| && visited[u]
    requires forall u, w :: u in done && w in g[u] ==> visited[w] && level[w] <= level[u] + 1
    requires IsWalk(g, q) && q[0] == start && |q| - 1 <= m
    ensures visited[q[|q| - 1]] && level[q[|q| - 1]] <= |q| - 1
    decreases |q|
  {
    if |q| > 1 {
      var q' := q[..|q| - 1];
      WalkPrefix(g, q);
      ShortWalksReached(g, start, visited, level, done, m, q');
      var u := q[|q| - 2];
      assert u == q'[|q'| - 1];
      assert u in done;
    }
  }

  /** The state of the search between two iterations of its loop: `done` holds the
      vertices already dequeued and expanded, the queue holds `cut` vertices of level
      `m` followed by vertices of level `m + 1`, and every neighbour of an expanded
      vertex has been visited. */
  ghost predicate Searching(g: Graph, start: nat, visited: seq<bool>, level: seq<nat>, prev: map<nat, nat>,
                            queue: seq<nat>, done: set<nat>, m: nat, cut: nat) {
    && ValidGraph(g)
    && PrevTree(g, start, visited, level, prev)
    && Queued(g, visited, level, queue, done, m, cut)
    && Closed(g, visited, level, done)
  }

  /** The queue and the expanded set partition the visited vertices; the queue is
      ordered by level. */
  ghost predicate Queued(g: Graph, visited: seq<bool>, level: seq<nat>, queue: seq<nat>, done: set<nat>, m: nat, cut: nat)
    requires |visited| == |g| && |level| == |g|
  {
    && NoRepeats(queue)
    && (forall i :: 0 <= i < |queue| ==> queue[i] < |g| && visited[queue[i]] && queue[i] !in done)
    && (forall v :: v in done ==> v < |g| && visited[v] && level[v] <= m)
    && (forall v :: 0 <= v < |g| && visited[v] ==> v in done || v in queue)
    && cut <= |queue|
    && (forall i :: 0 <= i < cut ==> level[queue[i]] == m)
    && (forall i :: cut <= i < |queue| ==> level[queue[i]] == m + 1)
  }

  /** Every neighbour of an expanded vertex is visited, at most one level deeper. */
  ghost predicate Closed(g: Graph, visited: seq<bool>, level: seq<nat>, done: set<nat>)
    requires ValidGraph(g) && |visited| == |g| && |level| == |g| && forall u :: u in done ==> u < |g|
  {
    forall u, w {:trigger w in g[u], u in done} :: u in done && w in g[u] ==> visited[w] && level[w] <= level[u] + 1
  }

  /** Before the first iteration only the start is visited and queued. */
  lemma StartSearching(g: Graph, start: nat)
    requires ValidGraph(g) && start < |g|
    ensures Searching(g, start, seq(|g|, _ => false)[start := true], seq(|g|, _ => 0), map[], [start], {}, 0, 1)
  {
  }

  /** When the vertices of level `m` are used up, the queue holds only level `m + 1`. */
  lemma NextLevel(g: Graph, start: nat, visited: seq<bool>, level: seq<nat>, prev: map<nat, nat>,
                  queue: seq<nat>, done: set<nat>, m: nat)
    requires Searching(g, start, visited, level, prev, queue, done, m, 0)
    ensures Searching(g, start, visited, level, prev, queue, done, m + 1, |queue|)
  {
  }

  /** The levels after expanding a vertex of level `m`: the newly queued vertices
      get level `m + 1`, every other vertex keeps its level. */
  ghost function Relevel(level: seq<nat>, added: seq<nat>, m: nat): (level': seq<nat>)
    ensures |level'| == |level|
  {
    seq(|level|, v requires 0 <= v < |level| => if v in added then m + 1 else level[v])
  }

  /** Dequeuing `node` (of level `m`) and visiting its neighbours keeps the search
      state, with `node` now expanded. */
  lemma ExpandKeepsSearching(g: Graph, start: nat, visited: seq<bool>, level: seq<nat>,
                             prev: map<nat, nat>, q0: seq<nat>, done: set<nat>, m: nat, cut: nat,
                             visited': seq<bool>, prev': map<nat, nat>, queue': seq<nat>)
    requires Searching(g, start, visited, level, prev, q0, done, m, cut + 1) && |q0| > 0
    requires Expanded(g, q0[0], visited, prev, q0[1..], visited', prev', queue')
    ensures Searching(g, start, visited', Relevel(level, queue'[|q0| - 1..], m), prev', queue', done + {q0[0]}, m, cut)
    ensures |done + {q0[0]}| <= |g|
  {
    ExpandKeepsTree(g, start, visited, level, prev, q0, done, m, cut, visited', prev', queue');
    ExpandKeepsQueued(g, start, visited, level, prev, q0, done, m, cut, visited', prev', queue');
    ExpandKeepsClosed(g, start, visited, level, prev, q0, done, m, cut, visited', prev', queue');
    BoundedSetSize(done + {q0[0]}, |g|);
  }

  lemma ExpandKeepsTree(g: Graph, start: nat, visited: seq<bool>, level: seq<nat>,
                        prev: map<nat, nat>, q0: seq<nat>, done: set<nat>, m: nat, cut: nat,
                        visited': seq<bool>, prev': map<nat, nat>, queue': seq<nat>)
    requires Searching(g, start, visited, level, prev, q0, done, m, cut + 1) && |q0| > 0
    requires Expanded(g, q0[0], visited, prev, q0[1..], visited', prev', queue')
    ensures PrevTree(g, start, visited', Relevel(level, queue'[|q0| - 1..], m), prev')
  {
    var (node, queue) := (q0[0], q0[1..]);
    var added := queue'[|queue|..];
    var level' := Relevel(level, added, m);
    assert forall v :: 0 <= v < |g| && visited[v] ==> v !in added && level'[v] == level[v];
    forall v | 0 <= v < |g| && visited'[v] && v != start
      ensures v in prev'
    {
      if !visited[v] {
        var i :| 0 <= i < |added| && added[i] == v;
      }
    }
    forall v | v in prev'
      ensures && prev'[v] < |g| && visited'[prev'[v]]
              && v in g[prev'[v]] && level'[v] == level'[prev'[v]] + 1
    {
      if v !in prev {
        var i :| 0 <= i < |added| && added[i] == v;
      }
    }
  }

  lemma ExpandKeepsQueued(g: Graph, start: nat, visited: seq<bool>, level: seq<nat>,
                          prev: map<nat, nat>, q0: seq<nat>, done: set<nat>, m: nat, cut: nat,
                          visited': seq<bool>, prev': map<nat, nat>, queue': seq<nat>)
    requires Searching(g, start, visited, level, prev, q0, done, m, cut + 1) && |q0| > 0
    requires Expanded(g, q0[0], visited, prev, q0[1..], visited', prev', queue')
    ensures Queued(g, visited', Relevel(level, queue'[|q0| - 1..], m), queue', done + {q0[0]}, m, cut)
  {
    ExpandKeepsEntries(g, start, visited, level, prev, q0, done, m, cut, visited', prev', queue');
    ExpandKeepsCoverage(g, start, visited, level, prev, q0, done, m, cut, visited', prev', queue');
  }

  /** Each queued vertex after the visit: in range, visited, not expanded, and of
      level `m` before the cut and `m + 1` after it. */
  lemma ExpandKeepsEntries(g: Graph, start: nat, visited: seq<bool>, level: seq<nat>,
                          prev: map<nat, nat>, q0: seq<nat>, done: set<nat>, m: nat, cut: nat,
                          visited': seq<bool>, prev': map<nat, nat>, queue': seq<nat>)
    requires Searching(g, start, visited, level, prev, q0, done, m, cut + 1) && |q0| > 0
    requires Expanded(g, q0[0], visited, prev, q0[1..], visited', prev', queue')
    ensures var level' := Relevel(level, queue'[|q0| - 1..], m);
            forall i :: 0 <= i < |queue'| ==>
              && queue'[i] < |g| && visited'[queue'[i]] && queue'[i] !in done + {q0[0]}
              && (i < cut ==> level'[queue'[i]] == m)
              && (cut <= i ==> level'[queue'[i]] == m + 1)
  {
    var (node, queue) := (q0[0], q0[1..]);
    var added := queue'[|queue|..];
    var level' := Relevel(level, added, m);
    forall i | 0 <= i < |queue'|
      ensures queue'[i] < |g| && visited'[queue'[i]] && queue'[i] !in done + {node}
      ensures i < cut ==> level'[queue'[i]] == m
      ensures cut <= i ==> level'[queue'[i]] == m + 1
    {
      if i < |queue| {
        assert queue'[i] == q0[i + 1];
        assert q0[i + 1] != q0[0];
        assert queue'[i] !in added;
      } else {
        assert queue'[i] == added[i - |queue|];
      }
    }
  }

  /** Every vertex visited after the visit is expanded or still queued. */
  lemma ExpandKeepsCoverage(g: Graph, start: nat, visited: seq<bool>, level: seq<nat>,
                          prev: map<nat, nat>, q0: seq<nat>, done: set<nat>, m: nat, cut: nat,
                          visited': seq<bool>, prev': map<nat, nat>, queue': seq<nat>)
    requires Searching(g, start, visited, level, prev, q0, done, m, cut + 1) && |q0| > 0
    requires Expanded(g, q0[0], visited, prev, q0[1..], visited', prev', queue')
    ensures forall v :: 0 <= v < |g| && visited'[v] ==> v in done + {q0[0]} || v in queue'
  {
    var (node, queue) := (q0[0], q0[1..]);
    var added := queue'[|queue|..];
    forall v | 0 <= v < |g| && visited'[v]
      ensures v in done + {node} || v in queue'
    {
      if visited[v] && v !in done && v != node {
        var i :| 0 <= i < |q0| && q0[i] == v;
        assert queue'[i - 1] == v;
      } else if !visited[v] {
        var i :| 0 <= i < |added| && added[i] == v;
        assert queue'[|queue| + i] == v;
      }
    }
  }

  lemma ExpandKeepsClosed(g: Graph, start: nat, visited: seq<bool>, level: seq<nat>,
                          prev: map<nat, nat>, q0: seq<nat>, done: set<nat>, m: nat, cut: nat,
                          visited': seq<bool>, prev': map<nat, nat>, queue': seq<nat>)
    requires Searching(g, start, visited, level, prev, q0, done, m, cut + 1) && |q0| > 0
    requires Expanded(g, q0[0], visited, prev, q0[1..], visited', prev', queue')
    ensures Closed(g, visited', Relevel(level, queue'[|q0| - 1..], m), done + {q0[0]})
  {
    var (node, queue) := (q0[0], q0[1..]);
    var added := queue'[|queue|..];
    var level' := Relevel(level, added, m);
    assert forall v :: 0 <= v < |g| && visited[v] ==> v !in added && level'[v] == level[v];
    forall u, w | u in done + {node} && w in g[u]
      ensures visited'[w] && level'[w] <= level'[u] + 1
    {
      if u != node {
        assert u in done && w in g[u];
        assert visited[w] && level[w] <= level[u] + 1;
      } else if visited[w] {
        assert w in done || w in q0;
      }
    }
  }

  /** The vertex at the head of the queue is visited, of level `m` and not yet
      expanded; the rest of the queue and the predecessor links meet what the visit
      of its branch needs. */
  lemma ReadyToVisit(g: Graph, start: nat, visited: seq<bool>, level: seq<nat>, prev: map<nat, nat>,
                     q0: seq<nat>, done: set<nat>, m: nat, cut: nat)
    requires Searching(g, start, visited, level, prev, q0, done, m, cut + 1) && |q0| > 0
    ensures q0[0] < |g| && visited[q0[0]] && level[q0[0]] == m && q0[0] !in done
    ensures NoRepeats(q0[1..]) && forall i :: 0 <= i < |q0| - 1 ==> q0[1..][i] < |g| && visited[q0[1..][i]]
    ensures forall v :: v in prev ==> v < |g| && visited[v]
  {
  }

  /** A walk of `m + 1` vertices to a vertex of level `m` is a shortest one when
      every visited vertex below level `m` has been expanded. */
  lemma FoundIsShortest(g: Graph, start: nat, end: nat, visited: seq<bool>, level: seq<nat>,
                        prev: map<nat, nat>, q0: seq<nat>, done: set<nat>, m: nat, cut: nat, path: seq<nat>)
    requires Searching(g, start, visited, level, prev, q0, done, m, cut + 1) && |q0| > 0 && q0[0] == end
    requires WalkFrom(g, path, start, end) && |path| == level[end] + 1
    ensures IsShortest(g, path, start, end)
  {
    assert level[end] == m;
    forall q | WalkFrom(g, q, start, end)
      ensures |path| <= |q|
    {
      if |q| - 1 < m {
        ShortWalksReached(g, start, visited, level, done, m, q);
      }
    }
  }

  /** Once the queue is empty, a vertex that was never expanded cannot be reached. */
  lemma UnvisitedUnreachable(g: Graph, start: nat, end: nat, visited: seq<bool>, level: seq<nat>,
                             prev: map<nat, nat>, done: set<nat>, m: nat, cut: nat)
    requires Searching(g, start, visited, level, prev, [], done, m, cut)
    requires end !in done
    ensures !Reachable(g, start, end)
  {
    if Reachable(g, start, end) {
      var q :| WalkFrom(g, q, start, end);
      ShortWalksReached(g, start, visited, level, done, |q|, q);
      assert false;
    }
  }

  /** What the visit of `node`'s branch changes: the vertices it appends to the
      queue are exactly the neighbours not visited before, now visited with `node`
      as predecessor; nothing visited before changes. */
  ghost predicate Expanded(g: Graph, node: nat, visited: seq<bool>, prev: map<nat, nat>, queue: seq<nat>,
                           visited': seq<bool>, prev': map<nat, nat>, queue': seq<nat>)
    requires ValidGraph(g) && |visited| == |g| && node < |g|
  {
    && |visited'| == |g|
    && |queue| <= |queue'| && queue'[..|queue|] == queue && NoRepeats(queue')
    && var added: seq<nat> := queue'[|queue|..];
    && (forall i :: 0 <= i < |added| ==>
          && added[i] < |g| && !visited[added[i]] && added[i] in g[node]
          && added[i] in prev' && prev'[added[i]] == node)
    && (forall v :: 0 <= v < |g| ==> visited'[v] == (visited[v] || v in added))
    && (forall v :: v in prev' <==> v in prev || v in added)
    && (forall v :: v in prev ==> prev'[v] == prev[v])
    && (forall w :: w in g[node] ==> visited'[w])
  }

  /** The `foreach` over the dequeued vertex's branch: every neighbour not yet
      visited is appended to the queue, marked visited and given `node` as its
      predecessor. */
  method VisitNeighbours(g: Graph, node: nat, visited: seq<bool>, prev: map<nat, nat>, queue: seq<nat>)
    returns (visited': seq<bool>, prev': map<nat, nat>, queue': seq<nat>)
    requires ValidGraph(g) && node < |g| && |visited| == |g|
    requires NoRepeats(queue) && forall i :: 0 <= i < |queue| ==> queue[i] < |g| && visited[queue[i]]
    requires forall v :: v in prev ==> v < |g| && visited[v]
    ensures Expanded(g, node, visited, prev, queue, visited', prev', queue')
  {
    visited', prev', queue' := visited, prev, queue;
    ghost var added: seq<nat> := [];
    var neighbours := g[node];
    var k := 0;
    while k < |neighbours|
      invariant 0 <= k <= |neighbours| && neighbours == g[node]
      invariant |visited'| == |g|
      invariant queue' == queue + added && NoRepeats(added)
      invariant forall i :: 0 <= i < |added| ==>
                  && added[i] < |g| && !visited[added[i]] && added[i] in g[node]
                  && added[i] in prev' && prev'[added[i]] == node
      invariant forall v :: 0 <= v < |g| ==> visited'[v] == (visited[v] || v in added)
      invariant forall v :: v in prev' <==> v in prev || v in added
      invariant forall v :: v in prev ==> prev'[v] == prev[v]
      invariant forall i :: 0 <= i < k ==> visited'[neighbours[i]]
    {
      var j := neighbours[k];
      if !visited'[j] {
        queue' := queue' + [j];
        added := added + [j];
        visited' := visited'[j := true];
        prev' := prev'[j := node];
      }
      k := k + 1;
    }
    assert queue'[..|queue|] == queue && queue'[|queue|..] == added;
    NoRepeatsAppend(queue, added);
  }

  /** Joining two repetition-free sequences with no common element repeats nothing. */
  lemma NoRepeatsAppend(a: seq<nat>, b: seq<nat>)
    requires NoRepeats(a) && NoRepeats(b) && forall i :: 0 <= i < |b| ==> b[i] !in a
    ensures NoRepeats(a + b)
  {
    var c := a + b;
    forall i, j | 0 <= i < j < |c|
      ensures c[i] != c[j]
    {
      if i < |a| && j >= |a| {
        assert c[i] in a && c[j] == b[j - |a|];
      }
    }
  }

  /** Breadth-first search from `Start`; stops as soon as `End` is dequeued. */
  method ShortestPath(g: Graph, start: nat, end: nat) returns (path: seq<nat>)
    requires ValidGraph(g) && start < |g|
    ensures path == [] <==> !Reachable(g, start, end)
    ensures path != [] ==> IsShortest(g, path, start, end)
  {
    var visited := seq(|g|, _ => false);
    visited := visited[start := true];
    var prev: map<nat, nat> := map[];
    var queue: seq<nat> := [start];
    path := [];
    // `level[v]` is the number of edges from the start to `v` in the search tree
    ghost var level: seq<nat> := seq(|g|, _ => 0);
    ghost var done: set<nat> := {};
    ghost var m: nat := 0;
    ghost var cut: nat := 1;
    StartSearching(g, start);
    while |queue| != 0
      invariant Searching(g, start, visited, level, prev, queue, done, m, cut)
      invariant end !in done && path == [] && |done| <= |g|
      decreases |g| - |done|
    {
      if cut == 0 {
        NextLevel(g, start, visited, level, prev, queue, done, m);
        m, cut := m + 1, |queue|;
      }
      ghost var q0 := queue;
      ReadyToVisit(g, start, visited, level, prev, q0, done, m, cut - 1);
      var node := queue[0];
      queue := queue[1..];
      cut := cut - 1;
      if node == end {
        path := GetPath(g, start, end, prev, visited, level);
        FoundIsShortest(g, start, end, visited, level, prev, q0, done, m, cut, path);
        break;
      }
      ghost var (visited0, prev0) := (visited, prev);
      visited, prev, queue := VisitNeighbours(g, node, visited, prev, queue);
      ExpandKeepsSearching(g, start, visited0, level, prev0, q0, done, m, cut, visited, prev, queue);
      level := Relevel(level, queue[|q0| - 1..], m);
      done := done + {node};
    }
    if path == [] {
      UnvisitedUnreachable(g, start, end, visited, level, prev, done, m, cut);
    }
  }
}
