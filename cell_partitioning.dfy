// The RecursiveCellPartitioning component: cells of a grid are drawn at random
// in turn; around each, the window of nearby cells is searched ring by ring
// for cells already taken, the cells behind those are ruled out, and a
// rectangle is drawn from the cell to one of the remaining candidates. The
// cells the rectangle covers are marked and leave the pool of indices.
module CellPartitioning {
  import opened Seqs
  import opened RandomDraws
  import opened Arith

  /** A cell by its row (the branch of the input tree) and its column. */
  type Coord = (int, int)

  predicate InGrid(c: Coord, rows: int, cols: int) {
    0 <= c.0 < rows && 0 <= c.1 < cols
  }

  function Abs(x: int): nat {
    if x < 0 then -x else x
  }

  /** The Chebyshev distance: the larger of the row and column differences. */
  function Chebyshev(a: Coord, b: Coord): nat {
    var dx, dy := Abs(a.0 - b.0), Abs(a.1 - b.1);
    if dx < dy then dy else dx
  }

  /** Row-major order: by row, then by column. */
  predicate Before(a: Coord, b: Coord) {
    a.0 < b.0 || (a.0 == b.0 && a.1 < b.1)
  }

  /** Strictly increasing in row-major order. */
  predicate Ordered(w: seq<Coord>) {
    forall i, j :: 0 <= i < j < |w| ==> Before(w[i], w[j])
  }

  lemma ConcatOrdered(s: seq<Coord>, t: seq<Coord>)
    requires Ordered(s) && Ordered(t)
    requires forall i, j :: 0 <= i < |s| && 0 <= j < |t| ==> Before(s[i], t[j])
    ensures Ordered(s + t)
  {
    var u := s + t;
    forall i, j | 0 <= i < j < |u|
      ensures Before(u[i], u[j])
    {
      if j < |s| {
        assert u[i] == s[i] && u[j] == s[j];
      } else if i >= |s| {
        assert u[i] == t[i - |s|] && u[j] == t[j - |s|];
      } else {
        assert u[i] == s[i] && u[j] == t[j - |s|];
      }
    }
  }

  // ---------------------------------------------------------------------------
  // The window of neighbours

  /** The cells of row `x` at columns `y0 + lo`, ..., `y0 + lo + k - 1` that
      lie in the grid, in order. */
  function RowCells(x: int, y0: int, lo: int, k: nat, rows: int, cols: int): seq<Coord>
    decreases k
  {
    if k == 0 then []
    else
      var y := y0 + lo + k - 1;
      RowCells(x, y0, lo, k - 1, rows, cols) + if 0 <= x && x <= rows - 1 && 0 <= y && y <= cols - 1 then [(x, y)] else []
  }

  /** The rows `c.0 + lo`, ..., `c.0 + lo + k - 1` of the window, each with
      `width` columns starting at `c.1 + lo`. */
  function Block(c: Coord, lo: int, k: nat, width: nat, rows: int, cols: int): seq<Coord>
    decreases k
  {
    if k == 0 then [] else Block(c, lo, k - 1, width, rows, cols) + RowCells(c.0 + lo + k - 1, c.1, lo, width, rows, cols)
  }

  /** Offsets run from `-N + 1` to `N - 1`: `2N - 1` of them, none when `N < 1`. */
  function Span(N: int): nat {
    if N >= 1 then 2 * N - 1 else 0
  }

  /** The window `GetNeighbours` returns, in the order it builds it. */
  function Window(c: Coord, rows: int, cols: int, N: int): seq<Coord> {
    Block(c, -N + 1, Span(N), Span(N), rows, cols)
  }

  /** `GetNeighbours`: for each row offset and then each column offset from
      `-N + 1` to `N - 1`, the cell at that offset when it lies in the grid. */
  method GetNeighbours(c: Coord, rows: int, cols: int, N: int) returns (neighbours: seq<Coord>)
    ensures neighbours == Window(c, rows, cols, N)
  {
    neighbours := [];
    var i := -N + 1;
    while i < N
      invariant -N + 1 <= i && (N >= 1 ==> i <= N) && (N < 1 ==> i == -N + 1)
      invariant neighbours == Block(c, -N + 1, i + N - 1, Span(N), rows, cols)
    {
      ghost var before := neighbours;
      var j := -N + 1;
      while j < N
        invariant -N + 1 <= j <= N
        invariant neighbours == before + RowCells(c.0 + i, c.1, -N + 1, j + N - 1, rows, cols)
      {
        var x := c.0 + i;
        var y := c.1 + j;
        if 0 <= x && x <= rows - 1 && 0 <= y && y <= cols - 1 {
          neighbours := neighbours + [(x, y)];
        }
        j := j + 1;
      }
      assert j + N - 1 == Span(N);
      i := i + 1;
    }
    assert i + N - 1 == Span(N);
  }

  lemma {:induction false} RowCellsMembers(x: int, y0: int, lo: int, k: nat, rows: int, cols: int, p: Coord)
    ensures p in RowCells(x, y0, lo, k, rows, cols) <==>
              p.0 == x && InGrid(p, rows, cols) && y0 + lo <= p.1 < y0 + lo + k
  {
    if k > 0 {
      RowCellsMembers(x, y0, lo, k - 1, rows, cols, p);
    }
  }

  lemma {:induction false} RowCellsOrdered(x: int, y0: int, lo: int, k: nat, rows: int, cols: int)
    ensures Ordered(RowCells(x, y0, lo, k, rows, cols))
  {
    if k > 0 {
      RowCellsOrdered(x, y0, lo, k - 1, rows, cols);
      var r' := RowCells(x, y0, lo, k - 1, rows, cols);
      var y := y0 + lo + k - 1;
      var last := if 0 <= x && x <= rows - 1 && 0 <= y && y <= cols - 1 then [(x, y)] else [];
      forall a, b | 0 <= a < |r'| && 0 <= b < |last|
        ensures Before(r'[a], last[b])
      {
        RowCellsMembers(x, y0, lo, k - 1, rows, cols, r'[a]);
      }
      ConcatOrdered(r', last);
    }
  }

  lemma {:induction false} BlockMembers(c: Coord, lo: int, k: nat, width: nat, rows: int, cols: int, p: Coord)
    ensures p in Block(c, lo, k, width, rows, cols) <==>
              InGrid(p, rows, cols) && c.0 + lo <= p.0 < c.0 + lo + k && c.1 + lo <= p.1 < c.1 + lo + width
  {
    if k > 0 {
      BlockMembers(c, lo, k - 1, width, rows, cols, p);
      RowCellsMembers(c.0 + lo + k - 1, c.1, lo, width, rows, cols, p);
    }
  }

  lemma {:induction false} BlockOrdered(c: Coord, lo: int, k: nat, width: nat, rows: int, cols: int)
    ensures Ordered(Block(c, lo, k, width, rows, cols))
  {
    if k > 0 {
      BlockOrdered(c, lo, k - 1, width, rows, cols);
      var x := c.0 + lo + k - 1;
      RowCellsOrdered(x, c.1, lo, width, rows, cols);
      var front, row := Block(c, lo, k - 1, width, rows, cols), RowCells(x, c.1, lo, width, rows, cols);
      forall i, j | 0 <= i < |front| && 0 <= j < |row|
        ensures Before(front[i], row[j])
      {
        BlockMembers(c, lo, k - 1, width, rows, cols, front[i]);
        RowCellsMembers(x, c.1, lo, width, rows, cols, row[j]);
      }
      ConcatOrdered(front, row);
    }
  }

  /** The window holds exactly the cells of the grid within Chebyshev distance
      `N - 1` of `c`, each once and in row-major order; `c` itself is among
      them when it is in the grid and `N >= 1`. */
  lemma WindowExact(c: Coord, rows: int, cols: int, N: int)
    ensures forall p :: p in Window(c, rows, cols, N) <==> InGrid(p, rows, cols) && Chebyshev(c, p) <= N - 1
    ensures Ordered(Window(c, rows, cols, N)) && Distinct(Window(c, rows, cols, N))
    ensures InGrid(c, rows, cols) && N >= 1 ==> c in Window(c, rows, cols, N)
  {
    forall p
      ensures p in Window(c, rows, cols, N) <==> InGrid(p, rows, cols) && Chebyshev(c, p) <= N - 1
    {
      BlockMembers(c, -N + 1, Span(N), Span(N), rows, cols, p);
    }
    BlockOrdered(c, -N + 1, Span(N), Span(N), rows, cols);
  }

  // ---------------------------------------------------------------------------
  // Rings

  /** The cells of `L` at Chebyshev distance `step` from `c`, in the order of
      `L`. */
  function Ring(c: Coord, L: seq<Coord>, step: int): seq<Coord> {
    if L == [] then []
    else Ring(c, L[..|L| - 1], step) + if Chebyshev(c, L[|L| - 1]) == step then [L[|L| - 1]] else []
  }

  /** The test `RoundNeighbours` applies to one cell: on the row `step` above or
      below within the column span, or else on the column `step` left or right
      within the row span. It is the Chebyshev ring of radius `step`. */
  lemma OnRing(c: Coord, p: Coord, step: int)
    ensures (if p.0 == c.0 + step || p.0 == c.0 - step then c.1 - step <= p.1 <= c.1 + step
             else (p.1 == c.1 + step || p.1 == c.1 - step) && c.0 - step <= p.0 <= c.0 + step)
            <==> Chebyshev(c, p) == step
  {
  }

  /** `RoundNeighbours`: the cells of `neighbours` on the ring of radius
      `step` around `cell`, kept in order. */
  method RoundNeighbours(cell: Coord, neighbours: seq<Coord>, step: int) returns (n: seq<Coord>)
    ensures n == Ring(cell, neighbours, step)
  {
    n := [];
    for k := 0 to |neighbours|
      invariant n == Ring(cell, neighbours[..k], step)
    {
      var i := neighbours[k];
      OnRing(cell, i, step);
      if i.0 == cell.0 + step || i.0 == cell.0 - step {
        if cell.1 - step <= i.1 && i.1 <= cell.1 + step {
          n := n + [i];
        }
      } else if i.1 == cell.1 + step || i.1 == cell.1 - step {
        if cell.0 - step <= i.0 && i.0 <= cell.0 + step {
          n := n + [i];
        }
      }
      assert neighbours[..k + 1][..k] == neighbours[..k];
    }
    assert neighbours[..|neighbours|] == neighbours;
  }

  /** The ring keeps exactly the cells of `L` at distance `step`, and no more
      cells than `L` has. */
  lemma {:induction false} RingMembers(c: Coord, L: seq<Coord>, step: int)
    ensures forall p :: p in Ring(c, L, step) <==> p in L && Chebyshev(c, p) == step
    ensures |Ring(c, L, step)| <= |L|
  {
    if L != [] {
      var front := L[..|L| - 1];
      RingMembers(c, front, step);
      assert L == front + [L[|L| - 1]];
    }
  }

  // ---------------------------------------------------------------------------
  // Ruling out cells behind taken ones

  /** Whether cell `p` of the first list is ruled out by cell `q` of the
      second: with `equal2` only the columns are compared, by `opA`; otherwise
      the rows are compared by `opA` and, unless `equal1`, the columns by
      `opB`. */
  predicate RuledOut(p: Coord, q: Coord, opA: (int, int) -> bool, opB: (int, int) -> bool, equal1: bool, equal2: bool) {
    if !equal2 then opA(p.0, q.0) && (equal1 || opB(p.1, q.1)) else opA(p.1, q.1)
  }

  /** The positions `t < k` of `list1` that `q` rules out, ascending. */
  function Hits(list1: seq<Coord>, q: Coord, k: nat, opA: (int, int) -> bool, opB: (int, int) -> bool,
                equal1: bool, equal2: bool): seq<int>
    requires k <= |list1|
  {
    if k == 0 then []
    else Hits(list1, q, k - 1, opA, opB, equal1, equal2)
         + if RuledOut(list1[k - 1], q, opA, opB, equal1, equal2) then [k - 1] else []
  }

  /** What `CheckConditions` returns after the first `i` cells of `list2`: for
      each of them in turn, the positions of `list1` it rules out. */
  function Removals(list1: seq<Coord>, list2: seq<Coord>, i: nat, opA: (int, int) -> bool, opB: (int, int) -> bool,
                    equal1: bool, equal2: bool): seq<int>
    requires i <= |list2|
  {
    if i == 0 then []
    else Removals(list1, list2, i - 1, opA, opB, equal1, equal2)
         + Hits(list1, list2[i - 1], |list1|, opA, opB, equal1, equal2)
  }

  /** `CheckConditions`: for each cell of `list2` and then each position of
      `list1`, the position when the cell rules it out. */
  method CheckConditions(list1: seq<Coord>, list2: seq<Coord>, opA: (int, int) -> bool, opB: (int, int) -> bool,
                         equal1: bool, equal2: bool) returns (toRemove: seq<int>)
    ensures toRemove == Removals(list1, list2, |list2|, opA, opB, equal1, equal2)
  {
    toRemove := [];
    if !equal2 {
      for i := 0 to |list2|
        invariant toRemove == Removals(list1, list2, i, opA, opB, equal1, equal2)
      {
        for t := 0 to |list1|
          invariant toRemove == Removals(list1, list2, i, opA, opB, equal1, equal2)
                               + Hits(list1, list2[i], t, opA, opB, equal1, equal2)
        {
          if opA(list1[t].0, list2[i].0) {
            if !equal1 && opB(list1[t].1, list2[i].1) {
              toRemove := toRemove + [t];
            } else if equal1 {
              toRemove := toRemove + [t];
            }
          }
        }
      }
    } else {
      for i := 0 to |list2|
        invariant toRemove == Removals(list1, list2, i, opA, opB, equal1, equal2)
      {
        for t := 0 to |list1|
          invariant toRemove == Removals(list1, list2, i, opA, opB, equal1, equal2)
                               + Hits(list1, list2[i], t, opA, opB, equal1, equal2)
        {
          if opA(list1[t].1, list2[i].1) {
            toRemove := toRemove + [t];
          }
        }
      }
    }
  }

  lemma {:induction false} HitsMembers(list1: seq<Coord>, q: Coord, k: nat, opA: (int, int) -> bool, opB: (int, int) -> bool,
                                       equal1: bool, equal2: bool)
    requires k <= |list1|
    ensures var h := Hits(list1, q, k, opA, opB, equal1, equal2);
            (forall t :: t in h <==> 0 <= t < k && RuledOut(list1[t], q, opA, opB, equal1, equal2)) && |h| <= k
  {
    if k > 0 {
      HitsMembers(list1, q, k - 1, opA, opB, equal1, equal2);
    }
  }

  /** Some of the first `i` cells of `list2` rules out position `t` of `list1`. */
  ghost predicate RuledOutBefore(list1: seq<Coord>, list2: seq<Coord>, i: nat, t: int, opA: (int, int) -> bool,
                                 opB: (int, int) -> bool, equal1: bool, equal2: bool)
    requires 0 <= t < |list1| && i <= |list2|
  {
    exists j :: 0 <= j < i && RuledOut(list1[t], list2[j], opA, opB, equal1, equal2)
  }

  /** Every index `CheckConditions` returns is a position of `list1`, and a
      position is returned exactly when some cell of `list2` rules it out. */
  lemma {:induction false} RemovalsMembers(list1: seq<Coord>, list2: seq<Coord>, i: nat, opA: (int, int) -> bool,
                                           opB: (int, int) -> bool, equal1: bool, equal2: bool)
    requires i <= |list2|
    ensures forall t :: t in Removals(list1, list2, i, opA, opB, equal1, equal2) <==>
              0 <= t < |list1| && RuledOutBefore(list1, list2, i, t, opA, opB, equal1, equal2)
  {
    if i > 0 {
      RemovalsMembers(list1, list2, i - 1, opA, opB, equal1, equal2);
      HitsMembers(list1, list2[i - 1], |list1|, opA, opB, equal1, equal2);
      forall t
        ensures t in Removals(list1, list2, i, opA, opB, equal1, equal2) <==>
                0 <= t < |list1| && RuledOutBefore(list1, list2, i, t, opA, opB, equal1, equal2)
      {
        if 0 <= t < |list1| {
          if RuledOutBefore(list1, list2, i, t, opA, opB, equal1, equal2) {
            var j :| 0 <= j < i && RuledOut(list1[t], list2[j], opA, opB, equal1, equal2);
            if j < i - 1 {
              assert RuledOutBefore(list1, list2, i - 1, t, opA, opB, equal1, equal2);
            }
          }
          if RuledOutBefore(list1, list2, i - 1, t, opA, opB, equal1, equal2) {
            var j :| 0 <= j < i - 1 && RuledOut(list1[t], list2[j], opA, opB, equal1, equal2);
            assert 0 <= j < i;
          }
        }
      }
    }
  }

  /** A position can come back once per cell that rules it out, so there are
      at most `|list1| * i` indices in all. */
  lemma {:induction false} RemovalsLength(list1: seq<Coord>, list2: seq<Coord>, i: nat, opA: (int, int) -> bool,
                                          opB: (int, int) -> bool, equal1: bool, equal2: bool)
    requires i <= |list2|
    ensures |Removals(list1, list2, i, opA, opB, equal1, equal2)| <= i * |list1|
  {
    if i > 0 {
      RemovalsLength(list1, list2, i - 1, opA, opB, equal1, equal2);
      HitsMembers(list1, list2[i - 1], |list1|, opA, opB, equal1, equal2);
      assert (i - 1) * |list1| + |list1| == i * |list1|;
    }
  }

  /** Two cells of `list2` that both rule out a position, such as two visited
      cells in one direction of a far corner, return it twice. */
  lemma RemovalsRepeat(p: Coord, q1: Coord, q2: Coord, opA: (int, int) -> bool, opB: (int, int) -> bool,
                       equal1: bool, equal2: bool)
    requires RuledOut(p, q1, opA, opB, equal1, equal2) && RuledOut(p, q2, opA, opB, equal1, equal2)
    ensures Removals([p], [q1, q2], 2, opA, opB, equal1, equal2) == [0, 0]
  {
    var l1, l2 := [p], [q1, q2];
    assert Hits(l1, q1, 1, opA, opB, equal1, equal2) == [0] by {
      assert Hits(l1, q1, 0, opA, opB, equal1, equal2) == [];
    }
    assert Hits(l1, q2, 1, opA, opB, equal1, equal2) == [0] by {
      assert Hits(l1, q2, 0, opA, opB, equal1, equal2) == [];
    }
    assert Removals(l1, l2, 1, opA, opB, equal1, equal2) == [0] by {
      assert l2[0] == q1;
    }
    assert l2[1] == q2;
  }

  // ---------------------------------------------------------------------------
  // Cells already taken around the drawn cell, and the candidates left

  /** `FindIndex`: the first position of `x` in `s`, or -1 when it is absent. */
  function FindIndex(s: seq<Coord>, x: Coord): (r: int)
    ensures -1 <= r < |s|
    ensures r == -1 <==> x !in s
    ensures 0 <= r ==> r < |s| && s[r] == x && x !in s[..r]
  {
    if s == [] then -1
    else if s[0] == x then 0
    else
      var r := FindIndex(s[1..], x);
      if r == -1 then -1
      else
        assert s[..r + 1] == [s[0]] + s[1..][..r];
        r + 1
  }

  function Sign(d: int): int {
    if d > 0 then 1 else if d < 0 then -1 else 0
  }

  /** Where a cell lies from the drawn cell: the signs of the row and of the
      column difference. */
  type Quadrant = (int, int)

  function QuadrantOf(c: Coord, q: Coord): Quadrant {
    (Sign(q.0 - c.0), Sign(q.1 - c.1))
  }

  /** The eight lists the source keeps, `larger["larger"]` to
      `equal["smaller"]`: every direction but the cell itself. */
  predicate IsQuadrant(k: Quadrant) {
    -1 <= k.0 <= 1 && -1 <= k.1 <= 1 && k != (0, 0)
  }

  /** The cells of `L` that are in `neighbours` and visited, in order. */
  function VisitedIn(L: seq<Coord>, neighbours: seq<Coord>, visited: set<Coord>): seq<Coord> {
    if L == [] then []
    else
      var q := L[|L| - 1];
      VisitedIn(L[..|L| - 1], neighbours, visited) + if q in neighbours && q in visited then [q] else []
  }

  /** The taken cells the first `j` rings around `c` yield, ring after ring. */
  function Taken(c: Coord, neighbours: seq<Coord>, visited: set<Coord>, j: nat): seq<Coord> {
    if j == 0 then []
    else Taken(c, neighbours, visited, j - 1) + VisitedIn(Ring(c, neighbours, j), neighbours, visited)
  }

  /** The cells of `taken` that lie in direction `k` from `c`, in order. */
  function Group(c: Coord, taken: seq<Coord>, k: Quadrant): seq<Coord> {
    if taken == [] then []
    else
      var q := taken[|taken| - 1];
      Group(c, taken[..|taken| - 1], k) + if QuadrantOf(c, q) == k then [q] else []
  }

  /** The number of rings the source inspects: `M - 1`, none when `M < 2`. */
  function Rounds(M: int): nat {
    if M >= 1 then M - 1 else 0
  }

  lemma {:induction false} VisitedInMembers(L: seq<Coord>, neighbours: seq<Coord>, visited: set<Coord>)
    ensures forall q :: q in VisitedIn(L, neighbours, visited) <==> q in L && q in neighbours && q in visited
  {
    if L != [] {
      VisitedInMembers(L[..|L| - 1], neighbours, visited);
      assert L == L[..|L| - 1] + [L[|L| - 1]];
    }
  }

  /** The taken cells are exactly the visited cells of the window at distance
      1 to `j` from `c`. */
  lemma {:induction false} TakenMembers(c: Coord, neighbours: seq<Coord>, visited: set<Coord>, j: nat)
    ensures forall q :: q in Taken(c, neighbours, visited, j) <==>
              q in neighbours && q in visited && 1 <= Chebyshev(c, q) <= j
  {
    if j > 0 {
      TakenMembers(c, neighbours, visited, j - 1);
      RingMembers(c, neighbours, j);
      VisitedInMembers(Ring(c, neighbours, j), neighbours, visited);
    }
  }

  lemma {:induction false} GroupMembers(c: Coord, taken: seq<Coord>, k: Quadrant)
    ensures forall q :: q in Group(c, taken, k) <==> q in taken && QuadrantOf(c, q) == k
  {
    if taken != [] {
      GroupMembers(c, taken[..|taken| - 1], k);
      assert taken == taken[..|taken| - 1] + [taken[|taken| - 1]];
    }
  }

  /** What the flags and the eight lists hold once the cells of `taken` have
      been found: a position is flagged exactly when its cell is taken, and
      each list holds the taken cells in its direction, in order. */
  ghost predicate Marked(c: Coord, neighbours: seq<Coord>, check: seq<bool>, groups: map<Quadrant, seq<Coord>>,
                         taken: seq<Coord>) {
    && |check| == |neighbours|
    && (forall m :: 0 <= m < |neighbours| ==> (check[m] <==> neighbours[m] in taken))
    && (forall k :: IsQuadrant(k) ==> k in groups && groups[k] == Group(c, taken, k))
  }

  lemma MarkStep(c: Coord, neighbours: seq<Coord>, check: seq<bool>, groups: map<Quadrant, seq<Coord>>,
                 before: seq<Coord>, L: seq<Coord>, visited: set<Coord>, k: nat, idx: int,
                 groups': map<Quadrant, seq<Coord>>)
    requires Distinct(neighbours)
    requires k < |L| && 0 <= idx < |neighbours| && neighbours[idx] == L[k] && L[k] in visited
    requires Marked(c, neighbours, check, groups, before + VisitedIn(L[..k], neighbours, visited))
    requires groups' == if IsQuadrant(QuadrantOf(c, L[k])) then groups[QuadrantOf(c, L[k]) := groups[QuadrantOf(c, L[k])] + [L[k]]]
                        else groups
    ensures Marked(c, neighbours, check[idx := true], groups', before + VisitedIn(L[..k + 1], neighbours, visited))
  {
    var q := L[k];
    var taken := before + VisitedIn(L[..k], neighbours, visited);
    assert L[..k + 1][..k] == L[..k];
    assert before + VisitedIn(L[..k + 1], neighbours, visited) == taken + [q];
    forall k | IsQuadrant(k)
      ensures Group(c, taken + [q], k) == Group(c, taken, k) + if QuadrantOf(c, q) == k then [q] else []
    {
      assert (taken + [q])[..|taken|] == taken;
    }
  }

  lemma MarkSkip(c: Coord, neighbours: seq<Coord>, check: seq<bool>, groups: map<Quadrant, seq<Coord>>,
                 before: seq<Coord>, L: seq<Coord>, visited: set<Coord>, k: nat)
    requires k < |L| && !(L[k] in neighbours && L[k] in visited)
    requires Marked(c, neighbours, check, groups, before + VisitedIn(L[..k], neighbours, visited))
    ensures Marked(c, neighbours, check, groups, before + VisitedIn(L[..k + 1], neighbours, visited))
  {
    assert L[..k + 1][..k] == L[..k];
    assert VisitedIn(L[..k + 1], neighbours, visited) == VisitedIn(L[..k], neighbours, visited);
  }

  /** Appending a taken cell to the list of its direction, by the source's
      chain of comparisons; the cell itself belongs to no list. */
  method Classify(cord: Coord, q: Coord, groups: map<Quadrant, seq<Coord>>) returns (groups': map<Quadrant, seq<Coord>>)
    requires forall k :: IsQuadrant(k) ==> k in groups
    ensures groups' == if IsQuadrant(QuadrantOf(cord, q)) then groups[QuadrantOf(cord, q) := groups[QuadrantOf(cord, q)] + [q]]
                       else groups
  {
    groups' := groups;
    if q.0 > cord.0 && q.1 > cord.1 {
      groups' := groups[(1, 1) := groups[(1, 1)] + [q]];
    } else if q.0 > cord.0 && q.1 < cord.1 {
      groups' := groups[(1, -1) := groups[(1, -1)] + [q]];
    } else if q.0 > cord.0 && q.1 == cord.1 {
      groups' := groups[(1, 0) := groups[(1, 0)] + [q]];
    } else if q.0 < cord.0 && q.1 > cord.1 {
      groups' := groups[(-1, 1) := groups[(-1, 1)] + [q]];
    } else if q.0 < cord.0 && q.1 < cord.1 {
      groups' := groups[(-1, -1) := groups[(-1, -1)] + [q]];
    } else if q.0 < cord.0 && q.1 == cord.1 {
      groups' := groups[(-1, 0) := groups[(-1, 0)] + [q]];
    } else if q.0 == cord.0 && q.1 > cord.1 {
      groups' := groups[(0, 1) := groups[(0, 1)] + [q]];
    } else if q.0 == cord.0 && q.1 < cord.1 {
      groups' := groups[(0, -1) := groups[(0, -1)] + [q]];
    }
  }

  lemma MarkedStart(c: Coord, neighbours: seq<Coord>, check: seq<bool>, groups: map<Quadrant, seq<Coord>>)
    requires |check| == |neighbours| && forall m :: 0 <= m < |check| ==> !check[m]
    requires groups == map[(1, 1) := [], (1, -1) := [], (1, 0) := [], (-1, 1) := [], (-1, -1) := [], (-1, 0) := [],
                           (0, 1) := [], (0, -1) := []]
    ensures Marked(c, neighbours, check, groups, [])
  {
  }

  /** One ring of the first loop: each cell of `round` found in `neighbours`
      and visited flags its position and joins the list of its direction. */
  method MarkRing(cord: Coord, neighbours: seq<Coord>, visited: set<Coord>, round: seq<Coord>,
                  check0: seq<bool>, groups0: map<Quadrant, seq<Coord>>, ghost before: seq<Coord>)
    returns (check: seq<bool>, groups: map<Quadrant, seq<Coord>>)
    requires Distinct(neighbours) && Marked(cord, neighbours, check0, groups0, before)
    ensures Marked(cord, neighbours, check, groups, before + VisitedIn(round, neighbours, visited))
  {
    check, groups := check0, groups0;
    assert before + VisitedIn(round[..0], neighbours, visited) == before;
    for k := 0 to |round|
      invariant Marked(cord, neighbours, check, groups, before + VisitedIn(round[..k], neighbours, visited))
    {
      var q := round[k];
      var neighIndex := FindIndex(neighbours, q);
      if neighIndex == -1 {
        MarkSkip(cord, neighbours, check, groups, before, round, visited, k);
        continue;
      }
      if q in visited {
        ghost var groups1 := groups;
        groups := Classify(cord, q, groups);
        MarkStep(cord, neighbours, check, groups1, before, round, visited, k, neighIndex, groups);
        check := check[neighIndex := true];
      } else {
        MarkSkip(cord, neighbours, check, groups, before, round, visited, k);
      }
    }
    assert round[..|round|] == round;
  }

  /** The first loop of the drawn cell's iteration: rings 1 to `M - 1` are
      walked in turn, and each visited cell of a ring flags its position in
      `neighbours` and joins the list of its direction. */
  method MarkTaken(cord: Coord, neighbours: seq<Coord>, visited: set<Coord>, M: int)
    returns (check: seq<bool>, groups: map<Quadrant, seq<Coord>>)
    requires Distinct(neighbours)
    ensures Marked(cord, neighbours, check, groups, Taken(cord, neighbours, visited, Rounds(M)))
  {
    check := [];
    for i := 0 to |neighbours|
      invariant |check| == i && forall m :: 0 <= m < i ==> !check[m]
    {
      check := check + [false];
    }
    groups := map[(1, 1) := [], (1, -1) := [], (1, 0) := [], (-1, 1) := [], (-1, -1) := [], (-1, 0) := [],
                  (0, 1) := [], (0, -1) := []];
    MarkedStart(cord, neighbours, check, groups);
    var j := 0;
    while j < M - 1
      invariant 0 <= j <= Rounds(M)
      invariant Marked(cord, neighbours, check, groups, Taken(cord, neighbours, visited, j))
    {
      var round := RoundNeighbours(cord, neighbours, j + 1);
      check, groups := MarkRing(cord, neighbours, visited, round, check, groups, Taken(cord, neighbours, visited, j));
      assert Taken(cord, neighbours, visited, j) + VisitedIn(round, neighbours, visited) == Taken(cord, neighbours, visited, j + 1);
      j := j + 1;
    }
    assert j == Rounds(M);
  }

  /** `(a, b) => a >= b` and `(a, b) => a <= b`, the comparisons the source
      passes to `CheckConditions`. */
  function AtLeast(): (int, int) -> bool {
    (a: int, b: int) => a >= b
  }

  function AtMost(): (int, int) -> bool {
    (a: int, b: int) => a <= b
  }

  /** The arguments `CheckConditions` receives along with one list. */
  datatype Rule = Rule(opA: (int, int) -> bool, opB: (int, int) -> bool, equal1: bool, equal2: bool)

  /** The rule the source pairs with the list of each direction. */
  function RuleFor(k: Quadrant): Rule {
    if k == (1, 1) then Rule(AtLeast(), AtLeast(), false, false)
    else if k == (1, -1) then Rule(AtLeast(), AtMost(), false, false)
    else if k == (1, 0) then Rule(AtLeast(), AtLeast(), true, false)
    else if k == (-1, 1) then Rule(AtMost(), AtLeast(), false, false)
    else if k == (-1, -1) then Rule(AtMost(), AtMost(), false, false)
    else if k == (-1, 0) then Rule(AtMost(), AtMost(), true, false)
    else if k == (0, 1) then Rule(AtLeast(), AtLeast(), true, true)
    else Rule(AtMost(), AtMost(), true, true)
  }

  /** `x` lies between `a` and `b`, either way round. */
  predicate Between(a: int, x: int, b: int) {
    (a <= x <= b) || (b <= x <= a)
  }

  /** Cell `q` lies in the block of cells with opposite corners `c` and `p`. */
  predicate InRect(c: Coord, p: Coord, q: Coord) {
    Between(c.0, q.0, p.0) && Between(c.1, q.1, p.1)
  }

  /** For a taken cell `q` in any direction from `c`, the rule of its
      direction rules `p` out exactly when the block from `c` to `p` holds
      `q`: the eight calls to `CheckConditions` remove the cells a rectangle
      from `c` could reach only across a taken cell. */
  lemma RuleMeansInRect(c: Coord, p: Coord, q: Coord)
    requires q != c
    ensures IsQuadrant(QuadrantOf(c, q))
    ensures var r := RuleFor(QuadrantOf(c, q));
            RuledOut(p, q, r.opA, r.opB, r.equal1, r.equal2) <==> InRect(c, p, q)
  {
  }

  /** The directions in the order the source handles their lists. */
  function Direction(i: nat): Quadrant
    requires i < 8
  {
    if i == 0 then (1, 1) else if i == 1 then (1, -1) else if i == 2 then (1, 0)
    else if i == 3 then (-1, 1) else if i == 4 then (-1, -1) else if i == 5 then (-1, 0)
    else if i == 6 then (0, 1) else (0, -1)
  }

  /** The place of direction `k` in that order; 8 for no direction. */
  function IndexOf(k: Quadrant): (i: nat)
    ensures i <= 8
    ensures i < 8 <==> IsQuadrant(k)
  {
    if k == (1, 1) then 0 else if k == (1, -1) then 1 else if k == (1, 0) then 2
    else if k == (-1, 1) then 3 else if k == (-1, -1) then 4 else if k == (-1, 0) then 5
    else if k == (0, 1) then 6 else if k == (0, -1) then 7 else 8
  }

  lemma IndexOfDirection(i: nat)
    requires i < 8
    ensures IsQuadrant(Direction(i)) && IndexOf(Direction(i)) == i
  {
  }

  /** The place of `q`'s direction from `c`; 8 for `c` itself. */
  function DirectionIndex(c: Coord, q: Coord): nat {
    IndexOf(QuadrantOf(c, q))
  }

  lemma DirectionOfIndex(c: Coord, q: Coord)
    ensures DirectionIndex(c, q) < 8 <==> q != c
    ensures DirectionIndex(c, q) < 8 ==> Direction(DirectionIndex(c, q)) == QuadrantOf(c, q)
  {
  }

  /** Some cell of `taken`, in one of the first `n` directions, lies in the
      block from `c` to `p`. */
  ghost predicate BlockedBy(c: Coord, p: Coord, taken: seq<Coord>, n: nat) {
    exists q :: q in taken && DirectionIndex(c, q) < n && InRect(c, p, q)
  }

  /** Some cell of `taken` lies in the block from `c` to `p`. */
  ghost predicate Blocked(c: Coord, p: Coord, taken: seq<Coord>) {
    exists q :: q in taken && InRect(c, p, q)
  }

  /** The positions collected so far: the flagged ones and those the lists of
      the first `n` directions rule out. */
  ghost predicate Covered(c: Coord, neighbours: seq<Coord>, taken: seq<Coord>, acc: seq<int>, n: nat) {
    forall t :: t in acc <==> 0 <= t < |neighbours| && (neighbours[t] in taken || BlockedBy(c, neighbours[t], taken, n))
  }

  /** A position the list of direction `n` rules out is blocked by a cell of
      that direction. */
  lemma RemovedIsBlocked(c: Coord, neighbours: seq<Coord>, taken: seq<Coord>, n: nat, t: int, j: int)
    requires n < 8 && 0 <= t < |neighbours|
    requires var g, rule := Group(c, taken, Direction(n)), RuleFor(Direction(n));
             0 <= j < |g| && RuledOut(neighbours[t], g[j], rule.opA, rule.opB, rule.equal1, rule.equal2)
    ensures BlockedBy(c, neighbours[t], taken, n + 1)
  {
    var q := Group(c, taken, Direction(n))[j];
    GroupMembers(c, taken, Direction(n));
    IndexOfDirection(n);
    assert q in taken && QuadrantOf(c, q) == Direction(n);
    RuleMeansInRect(c, neighbours[t], q);
  }

  /** A position blocked by a cell of direction `n` is ruled out by the list of
      that direction. */
  lemma BlockedIsRemoved(c: Coord, neighbours: seq<Coord>, taken: seq<Coord>, n: nat, t: int, q: Coord)
    requires n < 8 && 0 <= t < |neighbours|
    requires q in taken && DirectionIndex(c, q) == n && InRect(c, neighbours[t], q)
    ensures var g, rule := Group(c, taken, Direction(n)), RuleFor(Direction(n));
            RuledOutBefore(neighbours, g, |g|, t, rule.opA, rule.opB, rule.equal1, rule.equal2)
  {
    var g := Group(c, taken, Direction(n));
    DirectionOfIndex(c, q);
    GroupMembers(c, taken, Direction(n));
    assert q in g;
    var j :| 0 <= j < |g| && g[j] == q;
    RuleMeansInRect(c, neighbours[t], q);
  }

  lemma AddGroup(c: Coord, neighbours: seq<Coord>, taken: seq<Coord>, acc: seq<int>, r: seq<int>, n: nat)
    requires n < 8 && Covered(c, neighbours, taken, acc, n)
    requires var g, rule := Group(c, taken, Direction(n)), RuleFor(Direction(n));
             r == Removals(neighbours, g, |g|, rule.opA, rule.opB, rule.equal1, rule.equal2)
    ensures Covered(c, neighbours, taken, acc + r, n + 1)
  {
    var g, rule := Group(c, taken, Direction(n)), RuleFor(Direction(n));
    RemovalsMembers(neighbours, g, |g|, rule.opA, rule.opB, rule.equal1, rule.equal2);
    forall t
      ensures t in acc + r <==> 0 <= t < |neighbours| && (neighbours[t] in taken || BlockedBy(c, neighbours[t], taken, n + 1))
    {
      if t in r {
        var j :| 0 <= j < |g| && RuledOut(neighbours[t], g[j], rule.opA, rule.opB, rule.equal1, rule.equal2);
        RemovedIsBlocked(c, neighbours, taken, n, t, j);
      }
      if 0 <= t < |neighbours| && BlockedBy(c, neighbours[t], taken, n + 1) && !BlockedBy(c, neighbours[t], taken, n) {
        var q :| q in taken && DirectionIndex(c, q) < n + 1 && InRect(c, neighbours[t], q);
        BlockedIsRemoved(c, neighbours, taken, n, t, q);
      }
    }
  }

  lemma AllGroups(c: Coord, neighbours: seq<Coord>, taken: seq<Coord>, acc: seq<int>)
    requires c !in taken && Covered(c, neighbours, taken, acc, 8)
    ensures forall t :: t in acc <==> 0 <= t < |neighbours| && Blocked(c, neighbours[t], taken)
  {
    forall t | 0 <= t < |neighbours|
      ensures neighbours[t] in taken || BlockedBy(c, neighbours[t], taken, 8) <==> Blocked(c, neighbours[t], taken)
    {
      var p := neighbours[t];
      if p in taken {
        assert InRect(c, p, p);
      }
      if Blocked(c, p, taken) {
        var q :| q in taken && InRect(c, p, q);
        DirectionOfIndex(c, q);
      }
    }
  }

  /** The lists of the cells on later rows: `larger[...]` in the source. */
  method RuleOutLarger(cord: Coord, neighbours: seq<Coord>, groups: map<Quadrant, seq<Coord>>, acc: seq<int>,
                       ghost taken: seq<Coord>) returns (toRemove: seq<int>)
    requires (1, 1) in groups && groups[(1, 1)] == Group(cord, taken, (1, 1))
    requires (1, -1) in groups && groups[(1, -1)] == Group(cord, taken, (1, -1))
    requires (1, 0) in groups && groups[(1, 0)] == Group(cord, taken, (1, 0))
    requires Covered(cord, neighbours, taken, acc, 0)
    ensures Covered(cord, neighbours, taken, toRemove, 3)
  {
    toRemove := acc;
    var r;
    r := CheckConditions(neighbours, groups[(1, 1)], AtLeast(), AtLeast(), false, false);
    AddGroup(cord, neighbours, taken, toRemove, r, 0);
    toRemove := toRemove + r;
    r := CheckConditions(neighbours, groups[(1, -1)], AtLeast(), AtMost(), false, false);
    AddGroup(cord, neighbours, taken, toRemove, r, 1);
    toRemove := toRemove + r;
    r := CheckConditions(neighbours, groups[(1, 0)], AtLeast(), AtLeast(), true, false);
    AddGroup(cord, neighbours, taken, toRemove, r, 2);
    toRemove := toRemove + r;
  }

  /** The lists of the cells on earlier rows: `smaller[...]` in the source. */
  method RuleOutSmaller(cord: Coord, neighbours: seq<Coord>, groups: map<Quadrant, seq<Coord>>, acc: seq<int>,
                        ghost taken: seq<Coord>) returns (toRemove: seq<int>)
    requires (-1, 1) in groups && groups[(-1, 1)] == Group(cord, taken, (-1, 1))
    requires (-1, -1) in groups && groups[(-1, -1)] == Group(cord, taken, (-1, -1))
    requires (-1, 0) in groups && groups[(-1, 0)] == Group(cord, taken, (-1, 0))
    requires Covered(cord, neighbours, taken, acc, 3)
    ensures Covered(cord, neighbours, taken, toRemove, 6)
  {
    toRemove := acc;
    var r;
    r := CheckConditions(neighbours, groups[(-1, 1)], AtMost(), AtLeast(), false, false);
    AddGroup(cord, neighbours, taken, toRemove, r, 3);
    toRemove := toRemove + r;
    r := CheckConditions(neighbours, groups[(-1, -1)], AtMost(), AtMost(), false, false);
    AddGroup(cord, neighbours, taken, toRemove, r, 4);
    toRemove := toRemove + r;
    r := CheckConditions(neighbours, groups[(-1, 0)], AtMost(), AtMost(), true, false);
    AddGroup(cord, neighbours, taken, toRemove, r, 5);
    toRemove := toRemove + r;
  }

  /** The lists of the cells on the same row: `equal[...]` in the source. */
  method RuleOutEqual(cord: Coord, neighbours: seq<Coord>, groups: map<Quadrant, seq<Coord>>, acc: seq<int>,
                      ghost taken: seq<Coord>) returns (toRemove: seq<int>)
    requires (0, 1) in groups && groups[(0, 1)] == Group(cord, taken, (0, 1))
    requires (0, -1) in groups && groups[(0, -1)] == Group(cord, taken, (0, -1))
    requires Covered(cord, neighbours, taken, acc, 6)
    ensures Covered(cord, neighbours, taken, toRemove, 8)
  {
    toRemove := acc;
    var r;
    r := CheckConditions(neighbours, groups[(0, 1)], AtLeast(), AtLeast(), true, true);
    AddGroup(cord, neighbours, taken, toRemove, r, 6);
    toRemove := toRemove + r;
    r := CheckConditions(neighbours, groups[(0, -1)], AtMost(), AtMost(), true, true);
    AddGroup(cord, neighbours, taken, toRemove, r, 7);
    toRemove := toRemove + r;
  }

  /** The second part of the drawn cell's iteration: the flagged positions,
      then the positions each direction's list rules out, without repeats. */
  method RuleOut(cord: Coord, neighbours: seq<Coord>, check: seq<bool>, groups: map<Quadrant, seq<Coord>>,
                 ghost taken: seq<Coord>) returns (toRemove: seq<int>)
    requires Marked(cord, neighbours, check, groups, taken) && cord !in taken
    ensures Distinct(toRemove)
    ensures forall t :: t in toRemove <==> 0 <= t < |neighbours| && Blocked(cord, neighbours[t], taken)
  {
    toRemove := [];
    for m := 0 to |check|
      invariant forall t :: t in toRemove <==> 0 <= t < m && check[t]
    {
      if check[m] {
        toRemove := toRemove + [m];
      }
    }
    assert Covered(cord, neighbours, taken, toRemove, 0);
    toRemove := RuleOutLarger(cord, neighbours, groups, toRemove, taken);
    toRemove := RuleOutSmaller(cord, neighbours, groups, toRemove, taken);
    toRemove := RuleOutEqual(cord, neighbours, groups, toRemove, taken);
    AllGroups(cord, neighbours, taken, toRemove);
    toRemove := Dedup(toRemove);
  }

  /** No visited cell of rings 1 to `M - 1` lies in the block from `c` to
      `p`. */
  ghost predicate Free(c: Coord, p: Coord, neighbours: seq<Coord>, visited: set<Coord>, M: int) {
    forall q :: q in neighbours && q in visited && 1 <= Chebyshev(c, q) <= M - 1 ==> !InRect(c, p, q)
  }

  /** The candidates for the far corner of the drawn cell's rectangle: the
      window cells whose block from `cord` crosses no visited cell of the
      inspected rings, in window order, and then `cord` itself. */
  method Candidates(cord: Coord, neighbours: seq<Coord>, visited: set<Coord>, M: int) returns (notVisited: seq<Coord>)
    requires Distinct(neighbours)
    ensures |notVisited| >= 1 && notVisited[|notVisited| - 1] == cord
    ensures forall p :: p in notVisited[..|notVisited| - 1] <==> p in neighbours && Free(cord, p, neighbours, visited, M)
  {
    var check, groups := MarkTaken(cord, neighbours, visited, M);
    ghost var taken := Taken(cord, neighbours, visited, Rounds(M));
    TakenMembers(cord, neighbours, visited, Rounds(M));
    var toRemove := RuleOut(cord, neighbours, check, groups, taken);
    notVisited := [];
    for n := 0 to |neighbours|
      invariant forall p :: p in notVisited <==> p in neighbours[..n] && !Blocked(cord, p, taken)
    {
      assert neighbours[..n + 1] == neighbours[..n] + [neighbours[n]];
      if n !in toRemove {
        notVisited := notVisited + [neighbours[n]];
      }
    }
    assert neighbours[..|neighbours|] == neighbours;
    forall p
      ensures Blocked(cord, p, taken) <==> !Free(cord, p, neighbours, visited, M)
    {
      if !Free(cord, p, neighbours, visited, M) {
        var q :| q in neighbours && q in visited && 1 <= Chebyshev(cord, q) <= M - 1 && InRect(cord, p, q);
        assert q in taken;
      }
    }
    notVisited := notVisited + [cord];
    assert notVisited[..|notVisited| - 1] == notVisited[..|notVisited| - 1];
  }

  // ---------------------------------------------------------------------------
  // Flat indices

  /** The flat index of a cell: rows one after the other. */
  function Encode(c: Coord, cols: int): int {
    c.0 * cols + c.1
  }

  /** A flat index back to its row and column. */
  function Decode(t: int, cols: int): Coord
    requires cols > 0
  {
    (t / cols, t % cols)
  }

  /** A cell of the grid has a flat index below `rows * cols`, and decoding
      it gives the cell back. */
  lemma DecodeEncode(c: Coord, rows: int, cols: int)
    requires InGrid(c, rows, cols)
    ensures 0 <= Encode(c, cols) < rows * cols && Decode(Encode(c, cols), cols) == c
  {
    MulNonNeg(rows - c.0 - 1, cols);
    DivMod(Encode(c, cols), cols, c.0, c.1);
  }

  /** Every flat index below `rows * cols` decodes to a cell of the grid,
      whose index it is. */
  lemma EncodeDecode(t: int, rows: nat, cols: nat)
    requires 0 <= t < rows * cols
    ensures cols > 0 && InGrid(Decode(t, cols), rows, cols) && Encode(Decode(t, cols), cols) == t
  {
    if cols == 0 {
      assert false;
    }
    if t / cols >= rows {
      MulNonNeg(t / cols - rows, cols);
      assert false;
    }
  }

  // ---------------------------------------------------------------------------
  // The main loop

  /** `Counter.Where(t => !vis_ind.Contains(t))`: the indices of `s` not in
      `drop`, in order. */
  function Without(s: seq<int>, drop: seq<int>): (r: seq<int>)
    ensures forall x :: x in r <==> x in s && x !in drop
    ensures Distinct(s) ==> Distinct(r)
    ensures |r| <= |s|
  {
    if s == [] then []
    else
      var front := s[..|s| - 1];
      assert s == front + [s[|s| - 1]];
      Without(front, drop) + if s[|s| - 1] in drop then [] else [s[|s| - 1]]
  }

  /** The marking loop after a rectangle is drawn: each window cell whose centre
      the rectangle from `cord` to `cc` holds (`covers`, the geometric test)
      becomes visited and gives up its flat index. */
  method MarkCovered(cord: Coord, cc: Coord, neighbours: seq<Coord>, visited0: set<Coord>, cols: int,
                     covers: (Coord, Coord, Coord) -> bool) returns (visited: set<Coord>, visInd: seq<int>)
    ensures forall v :: v in visited <==> v in visited0 || (v in neighbours && covers(cord, cc, v))
    ensures forall t :: t in visInd ==> exists m :: m in neighbours && covers(cord, cc, m) && t == Encode(m, cols)
    ensures forall m :: m in neighbours && covers(cord, cc, m) ==> Encode(m, cols) in visInd
  {
    visited, visInd := visited0, [];
    for k := 0 to |neighbours|
      invariant forall v :: v in visited <==> v in visited0 || (v in neighbours[..k] && covers(cord, cc, v))
      invariant forall t :: t in visInd ==> exists m :: m in neighbours[..k] && covers(cord, cc, m) && t == Encode(m, cols)
      invariant forall m :: m in neighbours[..k] && covers(cord, cc, m) ==> Encode(m, cols) in visInd
    {
      var m := neighbours[k];
      assert neighbours[..k + 1] == neighbours[..k] + [m];
      if covers(cord, cc, m) {
        visited := visited + {m};
        visInd := visInd + [m.0 * cols + m.1];
      }
    }
    assert neighbours[..|neighbours|] == neighbours;
  }

  /** Cell `c` is the first corner of some rectangle. */
  ghost predicate Started(rectangles: seq<(Coord, Coord)>, c: Coord) {
    exists i :: 0 <= i < |rectangles| && rectangles[i].0 == c
  }

  /** A rectangle from a drawn cell to a candidate: both corners in the grid,
      the second the cell itself or a window cell. */
  predicate Corners(r: (Coord, Coord), rows: int, cols: int, M: int) {
    InGrid(r.0, rows, cols) && InGrid(r.1, rows, cols) && (r.1 == r.0 || Chebyshev(r.0, r.1) <= M - 1)
  }

  /** The pool holds distinct flat indices of the grid. */
  ghost predicate PoolOk(rows: nat, cols: nat, counter: seq<int>) {
    Distinct(counter) && forall t :: t in counter ==> 0 <= t < rows * cols
  }

  /** Each rectangle starts at a cell whose index has left the pool, no two at
      the same cell. */
  ghost predicate RectanglesOk(rows: nat, cols: nat, M: int, counter: seq<int>, rectangles: seq<(Coord, Coord)>) {
    && (forall i :: 0 <= i < |rectangles| ==> Corners(rectangles[i], rows, cols, M) && Encode(rectangles[i].0, cols) !in counter)
    && (forall i, j :: 0 <= i < j < |rectangles| ==> rectangles[i].0 != rectangles[j].0)
  }

  /** Every cell of the grid is still in the pool, visited, or the start of a
      rectangle. */
  ghost predicate CoverageOk(rows: nat, cols: nat, counter: seq<int>, rectangles: seq<(Coord, Coord)>, visited: set<Coord>) {
    && (forall v :: v in visited ==> InGrid(v, rows, cols))
    && (forall t :: 0 <= t < rows * cols && cols > 0 ==>
          t in counter || Decode(t, cols) in visited || Started(rectangles, Decode(t, cols)))
  }

  /** What holds at every iteration of the main loop. */
  ghost predicate PartitionInv(rows: nat, cols: nat, M: int, counter: seq<int>, rectangles: seq<(Coord, Coord)>,
                               visited: set<Coord>) {
    && PoolOk(rows, cols, counter)
    && RectanglesOk(rows, cols, M, counter, rectangles)
    && CoverageOk(rows, cols, counter, rectangles, visited)
    && |rectangles| + |counter| <= rows * cols
  }

  lemma PartitionStart(rows: nat, cols: nat, M: int)
    ensures PartitionInv(rows, cols, M, Range(rows * cols), [], {})
  {
    forall t | 0 <= t < rows * cols
      ensures t in Range(rows * cols)
    {
      assert Range(rows * cols)[t] == t;
    }
    forall t | t in Range(rows * cols)
      ensures 0 <= t < rows * cols
    {
    }
  }

  /** Removing position `index` removes exactly its element from a sequence
      without repeats. */
  lemma RemoveAtMembers(counter: seq<int>, index: nat)
    requires index < |counter| && Distinct(counter)
    ensures var removed := RemoveAt(counter, index);
            Distinct(removed) && forall x :: x in removed <==> x in counter && x != counter[index]
  {
    var removed := RemoveAt(counter, index);
    forall x
      ensures x in removed <==> x in counter && x != counter[index]
    {
      if x in counter && x != counter[index] {
        var k :| 0 <= k < |counter| && counter[k] == x;
        assert removed[if k < index then k else k - 1] == x;
      }
    }
  }

  lemma RectanglesStep(rows: nat, cols: nat, M: int, counter: seq<int>, rectangles: seq<(Coord, Coord)>,
                       ix: int, cc: Coord, counter': seq<int>)
    requires RectanglesOk(rows, cols, M, counter, rectangles)
    requires cols > 0 && ix in counter && 0 <= ix < rows * cols && Corners((Decode(ix, cols), cc), rows, cols, M)
    requires forall x :: x in counter' ==> x in counter && x != ix
    ensures RectanglesOk(rows, cols, M, counter', rectangles + [(Decode(ix, cols), cc)])
  {
    var rectangles' := rectangles + [(Decode(ix, cols), cc)];
    EncodeDecode(ix, rows, cols);
    forall i | 0 <= i < |rectangles'|
      ensures Corners(rectangles'[i], rows, cols, M) && Encode(rectangles'[i].0, cols) !in counter'
    {
      if i < |rectangles| {
        assert rectangles'[i] == rectangles[i];
      }
    }
    forall i, j | 0 <= i < j < |rectangles'|
      ensures rectangles'[i].0 != rectangles'[j].0
    {
      if j == |rectangles| {
        assert Encode(rectangles[i].0, cols) !in counter;
      }
    }
  }

  lemma CoverageStep(rows: nat, cols: nat, counter: seq<int>, rectangles: seq<(Coord, Coord)>, visited: set<Coord>,
                     ix: int, cc: Coord, counter': seq<int>, visited': set<Coord>, visInd: seq<int>)
    requires CoverageOk(rows, cols, counter, rectangles, visited)
    requires cols > 0 && 0 <= ix < rows * cols
    requires forall x :: x in counter ==> x in counter' || x == ix || x in visInd
    requires forall v :: v in visited' ==> v in visited || InGrid(v, rows, cols)
    requires visited <= visited'
    requires forall t :: t in visInd ==> exists m :: m in visited' && InGrid(m, rows, cols) && t == Encode(m, cols)
    ensures CoverageOk(rows, cols, counter', rectangles + [(Decode(ix, cols), cc)], visited')
  {
    var rectangles' := rectangles + [(Decode(ix, cols), cc)];
    forall t | 0 <= t < rows * cols
      ensures t in counter' || Decode(t, cols) in visited' || Started(rectangles', Decode(t, cols))
    {
      if t == ix {
        assert rectangles'[|rectangles|].0 == Decode(t, cols);
      } else if t in counter && t !in counter' {
        var m :| m in visited' && InGrid(m, rows, cols) && t == Encode(m, cols);
        DecodeEncode(m, rows, cols);
      } else if t !in counter && Started(rectangles, Decode(t, cols)) {
        var i :| 0 <= i < |rectangles| && rectangles[i].0 == Decode(t, cols);
        assert rectangles'[i].0 == Decode(t, cols);
      }
    }
  }

  /** One iteration keeps the invariant and shrinks the pool. */
  lemma PartitionStep(rows: nat, cols: nat, M: int, counter: seq<int>, rectangles: seq<(Coord, Coord)>,
                      visited: set<Coord>, index: nat, cc: Coord, visited': set<Coord>, visInd: seq<int>)
    requires PartitionInv(rows, cols, M, counter, rectangles, visited)
    requires index < |counter| && cols > 0
    requires Corners((Decode(counter[index], cols), cc), rows, cols, M)
    requires forall v :: v in visited' ==> v in visited || InGrid(v, rows, cols)
    requires visited <= visited'
    requires forall t :: t in visInd ==> exists m :: m in visited' && InGrid(m, rows, cols) && t == Encode(m, cols)
    ensures var counter' := Without(RemoveAt(counter, index), visInd);
            PartitionInv(rows, cols, M, counter', rectangles + [(Decode(counter[index], cols), cc)], visited')
            && |counter'| < |counter|
  {
    var ix := counter[index];
    var removed := RemoveAt(counter, index);
    var counter' := Without(removed, visInd);
    RemoveAtMembers(counter, index);
    RectanglesStep(rows, cols, M, counter, rectangles, ix, cc, counter');
    CoverageStep(rows, cols, counter, rectangles, visited, ix, cc, counter', visited', visInd);
  }

  /** The main loop of the component. While the pool of flat indices is not
      empty, one is drawn (`draw` with the current seed) and leaves the pool;
      its cell's window is searched for candidates, one is drawn with the
      seed plus one, the rectangle to it is recorded, the window cells it
      covers become visited and leave the pool, and the seed becomes
      `3 * Seed / 2` in 32-bit arithmetic. Each cell starts at most one
      rectangle, and every cell ends up visited or the start of one. */
  method Partition(rows: nat, cols: nat, M: int, S: int, draw: (int, nat) -> nat, covers: (Coord, Coord, Coord) -> bool)
    returns (rectangles: seq<(Coord, Coord)>, visited: set<Coord>)
    requires Draws(draw) && IsInt32(S)
    ensures forall i :: 0 <= i < |rectangles| ==> Corners(rectangles[i], rows, cols, M)
    ensures forall i, j :: 0 <= i < j < |rectangles| ==> rectangles[i].0 != rectangles[j].0
    ensures forall v :: v in visited ==> InGrid(v, rows, cols)
    ensures forall c :: InGrid(c, rows, cols) ==> c in visited || Started(rectangles, c)
    ensures |rectangles| <= rows * cols
    ensures rows * cols > 0 ==> |rectangles| > 0
  {
    var counter: seq<int> := Range(rows * cols);
    rectangles, visited := [], {};
    var seed := S;
    PartitionStart(rows, cols, M);
    while |counter| > 0
      invariant PartitionInv(rows, cols, M, counter, rectangles, visited)
      invariant IsInt32(seed)
      invariant rows * cols > 0 && |counter| < rows * cols ==> |rectangles| > 0
      decreases |counter|
    {
      var index := draw(seed, |counter|);
      var ix := counter[index];
      var removed := RemoveAt(counter, index);
      assert ix in counter;
      EncodeDecode(ix, rows, cols);
      var x := ix / cols;
      var y := ix % cols;
      var cord := (x, y);
      var neighbours := GetNeighbours(cord, rows, cols, M);
      WindowExact(cord, rows, cols, M);
      var notVisited := Candidates(cord, neighbours, visited, M);
      var updatedSeed := Wrap32(seed + 1);
      var cc := notVisited[draw(updatedSeed, |notVisited|)];
      assert cc == cord || cc in notVisited[..|notVisited| - 1];
      var visited', visInd := MarkCovered(cord, cc, neighbours, visited, cols, covers);
      forall t | t in visInd
        ensures exists m :: m in visited' && InGrid(m, rows, cols) && t == Encode(m, cols)
      {
        var m :| m in neighbours && covers(cord, cc, m) && t == Encode(m, cols);
      }
      PartitionStep(rows, cols, M, counter, rectangles, visited, index, cc, visited', visInd);
      counter := Without(removed, visInd);
      visited := visited';
      seed := Half(Wrap32(3 * seed));
      rectangles := rectangles + [(cord, cc)];
    }
    forall c | InGrid(c, rows, cols)
      ensures c in visited || Started(rectangles, c)
    {
      DecodeEncode(c, rows, cols);
    }
  }

  // ---------------------------------------------------------------------------
  // The component's output

  /** What the component returns after the loop. Its last statements read the
      first rectangle and the cell at row 3, column 1 of the grid before the
      list is output, so an empty grid fails on the first, a grid of fewer
      than four rows on the missing branch (`Branch(int index)` indexes the
      branch list) and one of fewer than two columns on the missing cell. */
  function Output(rows: nat, cols: nat, rectangles: seq<(Coord, Coord)>): Result<seq<(Coord, Coord)>> {
    if |rectangles| == 0 then Failure("ArgumentOutOfRangeException")
    else if rows < 4 then Failure("ArgumentOutOfRangeException")
    else if cols < 2 then Failure("ArgumentOutOfRangeException")
    else Success(rectangles)
  }

  /** `SolveInstance` as written: the partition, then the trailing statements.
      It outputs rectangles exactly when the grid has at least four rows and
      two columns, however the cells are drawn: a 3 by 3 grid always fails. */
  method SolveInstance(rows: nat, cols: nat, M: int, S: int, draw: (int, nat) -> nat, covers: (Coord, Coord, Coord) -> bool)
    returns (result: Result<seq<(Coord, Coord)>>)
    requires Draws(draw) && IsInt32(S)
    ensures result.Success? <==> rows >= 4 && cols >= 2
    ensures result.Success? ==> forall i :: 0 <= i < |result.value| ==> Corners(result.value[i], rows, cols, M)
  {
    var rectangles, visited := Partition(rows, cols, M, S, draw, covers);
    result := Output(rows, cols, rectangles);
  }

  /** `SolveInstance` without the trailing statements, which only build values
      nothing uses: the rectangles come out for every grid, one per drawn
      cell, and none when the grid is empty. */
  method SolveInstanceIntended(rows: nat, cols: nat, M: int, S: int, draw: (int, nat) -> nat,
                               covers: (Coord, Coord, Coord) -> bool)
    returns (result: Result<seq<(Coord, Coord)>>)
    requires Draws(draw) && IsInt32(S)
    ensures result.Success?
    ensures forall i :: 0 <= i < |result.value| ==> Corners(result.value[i], rows, cols, M)
    ensures forall i, j :: 0 <= i < j < |result.value| ==> result.value[i].0 != result.value[j].0
    ensures |result.value| == 0 <==> rows * cols == 0
  {
    var rectangles, visited := Partition(rows, cols, M, S, draw, covers);
    result := Success(rectangles);
  }
}
