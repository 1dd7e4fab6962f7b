// The Maze component: a depth-first walk over a grid of cells, drawn at random,
// joins neighbouring cells; the walls left standing are collected and freed of
// duplicates.
module Maze {
  import opened Seqs
  import opened Geometry
  import opened RandomDraws
  import opened Arith

  // ---------------------------------------------------------------------------
  // Duplicate walls

  /** `AreSimilar`: every coordinate differs by less than `tol`. */
  predicate AreSimilar(a: Point, b: Point, tol: real) {
    Abs(a.x - b.x) < tol && Abs(a.y - b.y) < tol && Abs(a.z - b.z) < tol
  }

  /** `AreDuplicate`: the end points match, in the same or in the opposite
      direction. */
  predicate AreDuplicate(lineA: Line, lineB: Line, tol: real) {
    || (AreSimilar(lineA.from, lineB.from, tol) && AreSimilar(lineA.to, lineB.to, tol))
    || (AreSimilar(lineA.from, lineB.to, tol) && AreSimilar(lineA.to, lineB.from, tol))
  }

  /** Being duplicates does not depend on the order of the lines or on their
      direction, and with a positive tolerance a line duplicates itself. */
  lemma DuplicateSymmetric(lineA: Line, lineB: Line, tol: real)
    ensures AreDuplicate(lineA, lineB, tol) == AreDuplicate(lineB, lineA, tol)
    ensures AreDuplicate(lineA, lineB, tol) == AreDuplicate(lineA, Line(lineB.to, lineB.from), tol)
    ensures tol > 0.0 ==> AreDuplicate(lineA, lineA, tol)
  {
  }

  /** `lines[p]` duplicates the line kept at one of the first `lim` kept
      positions, which comes before it. */
  ghost predicate DroppedFor(lines: seq<Line>, idx: seq<nat>, p: nat, lim: nat, tol: real)
    requires p < |lines|
  {
    exists a :: 0 <= a < lim && a < |idx| && idx[a] < p && idx[a] < |lines| && AreDuplicate(lines[idx[a]], lines[p], tol)
  }

  /** `RemoveDuplicates`: for each line in turn, every later duplicate of it is
      removed, scanning from the end. What is left is the input in order with
      no two lines duplicates of each other, and every line removed duplicates
      a kept line that comes before it. */
  method RemoveDuplicates(lines: seq<Line>, tolerance: real) returns (clean: seq<Line>, ghost kept: seq<nat>)
    ensures SubsequenceAt(clean, lines, kept)
    ensures forall a, b :: 0 <= a < b < |clean| ==> !AreDuplicate(clean[a], clean[b], tolerance)
    ensures forall p :: 0 <= p < |lines| && p !in kept ==> DroppedFor(lines, kept, p, |kept|, tolerance)
  {
    clean, kept := lines, Range(|lines|);
    forall p | 0 <= p < |lines|
      ensures p in kept
    {
      assert kept[p] == p;
    }
    var i := 0;
    while i < |clean|
      invariant 0 <= i <= |clean|
      invariant SubsequenceAt(clean, lines, kept)
      invariant forall a, b :: 0 <= a < i && a < b < |clean| ==> !AreDuplicate(clean[a], clean[b], tolerance)
      invariant forall p :: 0 <= p < |lines| && p !in kept ==> DroppedFor(lines, kept, p, i, tolerance)
      decreases |clean| - i
    {
      clean, kept := RemoveLaterDuplicates(lines, clean, kept, i, tolerance);
      i := i + 1;
    }
    forall p | 0 <= p < |lines| && p !in kept
      ensures DroppedFor(lines, kept, p, |kept|, tolerance)
    {
      var a :| 0 <= a < i && a < |kept| && kept[a] < p && kept[a] < |lines| && AreDuplicate(lines[kept[a]], lines[p], tolerance);
    }
  }

  /** The inner loop of `RemoveDuplicates` for line `i`. */
  method RemoveLaterDuplicates(lines: seq<Line>, clean0: seq<Line>, ghost kept0: seq<nat>, i: nat, tolerance: real)
    returns (clean: seq<Line>, ghost kept: seq<nat>)
    requires i < |clean0| && SubsequenceAt(clean0, lines, kept0)
    requires forall a, b :: 0 <= a < i && a < b < |clean0| ==> !AreDuplicate(clean0[a], clean0[b], tolerance)
    requires forall p :: 0 <= p < |lines| && p !in kept0 ==> DroppedFor(lines, kept0, p, i, tolerance)
    ensures i < |clean| && SubsequenceAt(clean, lines, kept)
    ensures forall a, b :: 0 <= a <= i && a < b < |clean| ==> !AreDuplicate(clean[a], clean[b], tolerance)
    ensures forall p :: 0 <= p < |lines| && p !in kept ==> DroppedFor(lines, kept, p, i + 1, tolerance)
    ensures |clean| - i <= |clean0| - i
  {
    clean, kept := clean0, kept0;
    var line := clean[i];
    var j := |clean| - 1;
    ScanStart(lines, clean0, kept0, i, tolerance);
    while j > i
      invariant Scanned(lines, clean0, kept0, clean, kept, i, j, tolerance)
      decreases j
    {
      var other := clean[j];
      if AreDuplicate(line, other, tolerance) {
        ScanRemove(lines, clean0, kept0, clean, kept, i, j, tolerance);
        clean := RemoveAt(clean, j);
        kept := RemoveAt(kept, j);
      } else {
        ScanKeep(lines, clean0, kept0, clean, kept, i, j, tolerance);
      }
      j := j - 1;
    }
    ScanDone(lines, clean0, kept0, clean, kept, i, tolerance);
  }

  /** The state of the inner loop of `RemoveDuplicates` for line `i` once the
      positions after `j` are scanned: the first `i + 1` lines are untouched,
      no line after `j` duplicates line `i`, and every removed line has a
      witness among the first `i + 1` kept ones. */
  ghost predicate Scanned(lines: seq<Line>, clean0: seq<Line>, kept0: seq<nat>, clean: seq<Line>, kept: seq<nat>,
                          i: nat, j: int, tolerance: real)
  {
    && i <= j < |clean| <= |clean0| && |kept0| == |clean0|
    && SubsequenceAt(clean, lines, kept)
    && clean[..i + 1] == clean0[..i + 1] && kept[..i + 1] == kept0[..i + 1]
    && (forall a, b :: 0 <= a < i && a < b < |clean| ==> !AreDuplicate(clean[a], clean[b], tolerance))
    && (forall b :: j < b < |clean| ==> !AreDuplicate(clean[i], clean[b], tolerance))
    && (forall p :: 0 <= p < |lines| && p !in kept ==> DroppedFor(lines, kept, p, i + 1, tolerance))
  }

  lemma ScanStart(lines: seq<Line>, clean0: seq<Line>, kept0: seq<nat>, i: nat, tolerance: real)
    requires i < |clean0| && SubsequenceAt(clean0, lines, kept0)
    requires forall a, b :: 0 <= a < i && a < b < |clean0| ==> !AreDuplicate(clean0[a], clean0[b], tolerance)
    requires forall p :: 0 <= p < |lines| && p !in kept0 ==> DroppedFor(lines, kept0, p, i, tolerance)
    ensures Scanned(lines, clean0, kept0, clean0, kept0, i, |clean0| - 1, tolerance)
  {
    forall p | 0 <= p < |lines| && p !in kept0
      ensures DroppedFor(lines, kept0, p, i + 1, tolerance)
    {
      var a :| 0 <= a < i && a < |kept0| && kept0[a] < p && kept0[a] < |lines| && AreDuplicate(lines[kept0[a]], lines[p], tolerance);
    }
  }

  /** With every position after `i` scanned, no two of the first `i + 1`
      lines and the ones after them are duplicates. */
  lemma ScanDone(lines: seq<Line>, clean0: seq<Line>, kept0: seq<nat>, clean: seq<Line>, kept: seq<nat>,
                 i: nat, tolerance: real)
    requires Scanned(lines, clean0, kept0, clean, kept, i, i, tolerance)
    ensures i < |clean| && SubsequenceAt(clean, lines, kept)
    ensures forall a, b :: 0 <= a <= i && a < b < |clean| ==> !AreDuplicate(clean[a], clean[b], tolerance)
    ensures forall p :: 0 <= p < |lines| && p !in kept ==> DroppedFor(lines, kept, p, i + 1, tolerance)
  {
  }

  /** Removing position `j`, a duplicate of line `i`, keeps the scan's state. */
  lemma ScanRemove(lines: seq<Line>, clean0: seq<Line>, kept0: seq<nat>, clean: seq<Line>, kept: seq<nat>,
                   i: nat, j: nat, tolerance: real)
    requires i < j && Scanned(lines, clean0, kept0, clean, kept, i, j, tolerance)
    requires AreDuplicate(clean[i], clean[j], tolerance)
    ensures Scanned(lines, clean0, kept0, RemoveAt(clean, j), RemoveAt(kept, j), i, j - 1, tolerance)
  {
    var clean', kept' := RemoveAt(clean, j), RemoveAt(kept, j);
    RemovalKeepsOrder(lines, clean, kept, j);
    DroppedAfterRemoval(lines, kept, j, i, tolerance);
    assert clean'[..i + 1] == clean[..i + 1];
    assert kept'[..i + 1] == kept[..i + 1];
    assert clean'[i] == clean[i];
  }

  /** Passing over position `j`, not a duplicate of line `i`, keeps it. */
  lemma ScanKeep(lines: seq<Line>, clean0: seq<Line>, kept0: seq<nat>, clean: seq<Line>, kept: seq<nat>,
                 i: nat, j: nat, tolerance: real)
    requires i < j && Scanned(lines, clean0, kept0, clean, kept, i, j, tolerance)
    requires !AreDuplicate(clean[i], clean[j], tolerance)
    ensures Scanned(lines, clean0, kept0, clean, kept, i, j - 1, tolerance)
  {
  }

  /** Removing position `j` keeps the rest a subsequence of the input. */
  lemma RemovalKeepsOrder(lines: seq<Line>, clean: seq<Line>, kept: seq<nat>, j: nat)
    requires j < |clean| && SubsequenceAt(clean, lines, kept)
    ensures SubsequenceAt(RemoveAt(clean, j), lines, RemoveAt(kept, j))
  {
  }

  /** A removed line has its witness at `i`, and earlier witnesses stay. */
  lemma DroppedAfterRemoval(lines: seq<Line>, kept: seq<nat>, j: nat, i: nat, tol: real)
    requires i < j < |kept|
    requires forall k :: 0 <= k < |kept| ==> kept[k] < |lines|
    requires forall k, l :: 0 <= k < l < |kept| ==> kept[k] < kept[l]
    requires AreDuplicate(lines[kept[i]], lines[kept[j]], tol)
    requires forall p :: 0 <= p < |lines| && p !in kept ==> DroppedFor(lines, kept, p, i + 1, tol)
    ensures forall p :: 0 <= p < |lines| && p !in RemoveAt(kept, j) ==> DroppedFor(lines, RemoveAt(kept, j), p, i + 1, tol)
  {
    var kept' := RemoveAt(kept, j);
    forall p | 0 <= p < |lines| && p !in kept'
      ensures DroppedFor(lines, kept', p, i + 1, tol)
    {
      if p == kept[j] {
        assert kept'[i] == kept[i];
      } else {
        forall k | 0 <= k < |kept|
          ensures kept[k] != p
        {
          if k < j {
            assert kept'[k] == kept[k];
          } else if k > j {
            assert kept'[k - 1] == kept[k];
          }
        }
        assert p !in kept;
        assert DroppedFor(lines, kept, p, i + 1, tol);
        var a :| 0 <= a < i + 1 && a < |kept| && kept[a] < p && kept[a] < |lines| && AreDuplicate(lines[kept[a]], lines[p], tol);
        assert kept'[a] == kept[a];
      }
    }
  }

  // ---------------------------------------------------------------------------
  // The grid

  /** A cell by its row (the branch of the input tree) and its column (the item
      in the branch). */
  type Cell = (int, int)

  predicate InGrid(c: Cell, rows: int, cols: int) {
    0 <= c.0 < rows && 0 <= c.1 < cols
  }

  /** Two cells share a side. */
  predicate Adjacent(a: Cell, b: Cell) {
    || (a.0 == b.0 && (a.1 == b.1 + 1 || b.1 == a.1 + 1))
    || (a.1 == b.1 && (a.0 == b.0 + 1 || b.0 == a.0 + 1))
  }

  /** All the cells of the grid. */
  function Grid(rows: nat, cols: nat): set<Cell> {
    set x, y | 0 <= x < rows && 0 <= y < cols :: (x, y)
  }

  /** The cells one pass of `GetNeighbours` adds for one offset: the cell
      `offset` away along the rows, then the one along the columns, each when
      inside the grid and not visited. */
  function Pass(c: Cell, offset: int, visited: set<Cell>, rows: int, cols: int): seq<Cell> {
    var x := c.0 + offset;
    var y := c.1 + offset;
    (if 0 <= x < rows && (x, c.1) !in visited then [(x, c.1)] else [])
    + (if 0 <= y < cols && (c.0, y) !in visited then [(c.0, y)] else [])
  }

  lemma PassMembers(c: Cell, offset: int, visited: set<Cell>, rows: int, cols: int, d: Cell)
    requires InGrid(c, rows, cols) && (offset == 1 || offset == -1)
    ensures d in Pass(c, offset, visited, rows, cols) ==> InGrid(d, rows, cols) && d !in visited && Adjacent(c, d)
  {
  }

  lemma PassHas(c: Cell, offset: int, visited: set<Cell>, rows: int, cols: int, d: Cell)
    requires InGrid(d, rows, cols) && d !in visited
    requires (d.0 == c.0 + offset && d.1 == c.1) || (d.0 == c.0 && d.1 == c.1 + offset)
    ensures d in Pass(c, offset, visited, rows, cols)
  {
    assert d == (d.0, d.1);
  }

  /** The passes for the offsets in order. */
  function Passes(c: Cell, offsets: seq<int>, visited: set<Cell>, rows: int, cols: int): seq<Cell> {
    if offsets == [] then []
    else Passes(c, offsets[..|offsets| - 1], visited, rows, cols) + Pass(c, offsets[|offsets| - 1], visited, rows, cols)
  }

  /** The unvisited neighbours of a cell in the order `GetNeighbours` lists
      them: row above, column left, row below, column right. */
  function Neighbours(c: Cell, visited: set<Cell>, rows: int, cols: int): seq<Cell> {
    Passes(c, Offsets(), visited, rows, cols)
  }

  /** The offsets `GetNeighbours` walks through. */
  function Offsets(): seq<int> {
    [-1, 1]
  }

  lemma NeighboursUnfold(c: Cell, visited: set<Cell>, rows: int, cols: int)
    ensures Neighbours(c, visited, rows, cols) == Pass(c, -1, visited, rows, cols) + Pass(c, 1, visited, rows, cols)
  {
    assert Passes(c, [-1], visited, rows, cols) == Pass(c, -1, visited, rows, cols) by {
      assert [-1][..0] == [];
    }
    assert Offsets()[..1] == [-1];
    assert Offsets()[1] == 1;
  }

  /** The neighbours are exactly the cells of the grid that share a side with
      the cell and are not visited; there are at most four. */
  lemma NeighboursExact(c: Cell, visited: set<Cell>, rows: int, cols: int)
    requires InGrid(c, rows, cols)
    ensures |Neighbours(c, visited, rows, cols)| <= 4
    ensures forall d :: d in Neighbours(c, visited, rows, cols) <==>
              InGrid(d, rows, cols) && d !in visited && Adjacent(c, d)
  {
    NeighboursUnfold(c, visited, rows, cols);
    forall d
      ensures d in Neighbours(c, visited, rows, cols) <==> InGrid(d, rows, cols) && d !in visited && Adjacent(c, d)
    {
      PassMembers(c, -1, visited, rows, cols, d);
      PassMembers(c, 1, visited, rows, cols, d);
      if InGrid(d, rows, cols) && d !in visited && Adjacent(c, d) {
        var offset := if d.0 != c.0 then d.0 - c.0 else d.1 - c.1;
        PassHas(c, offset, visited, rows, cols, d);
      }
    }
  }

  /** `GetNeighbours`: for the offsets -1 and 1, the neighbour along the rows
      and then the one along the columns, when inside the grid and unvisited
      (the `isVisited` flags of the cells are the set `visited`). */
  method GetNeighbours(cell: Cell, visited: set<Cell>, rows: int, cols: int) returns (neighbours: seq<Cell>)
    ensures neighbours == Neighbours(cell, visited, rows, cols)
  {
    neighbours := [];
    var offsets := Offsets();
    for k := 0 to |offsets|
      invariant neighbours == Passes(cell, offsets[..k], visited, rows, cols)
    {
      var offset := offsets[k];
      var x := cell.0 + offset;
      if x >= 0 && x < rows && (x, cell.1) !in visited {
        neighbours := neighbours + [(x, cell.1)];
      }
      var y := cell.1 + offset;
      if y >= 0 && y < cols && (cell.0, y) !in visited {
        neighbours := neighbours + [(cell.0, y)];
      }
      assert offsets[..k + 1][..k] == offsets[..k];
    }
    assert offsets[..|offsets|] == offsets;
  }

  /** The start cell `(ix / cols, ix % cols)` of a flat index below the number
      of cells is in the grid. */
  lemma DecodeInGrid(ix: int, rows: int, cols: int)
    requires rows > 0 && cols > 0 && 0 <= ix < rows * cols
    ensures InGrid((ix / cols, ix % cols), rows, cols)
  {
    if ix / cols >= rows {
      MulMonotone(rows, ix / cols, cols);
    }
  }

  // ---------------------------------------------------------------------------
  // The depth-first walk


  /** The state of the walk: the visited cells, the stack, the current cell, the
      steps drawn so far (`Path`, each from a cell to the neighbour it moved to)
      and the seed `S`. */
  datatype Walk = Walk(visited: set<Cell>, stack: seq<Cell>, current: Cell, path: seq<(Cell, Cell)>, seed: int)

  /** The walk before the loop: the cell at flat index `Next(rows * cols)` is
      visited, current and on the stack. */
  function Start(rows: nat, cols: nat, S: int, draw: (int, nat) -> nat): (w: Walk)
    requires rows > 0 && cols > 0 && Draws(draw)
    ensures InGrid(w.current, rows, cols)
  {
    var ix := draw(S, rows * cols);
    DecodeInGrid(ix, rows, cols);
    var c := (ix / cols, ix % cols);
    Walk({c}, [c], c, [], S)
  }

  /** What holds of the walk at every iteration: everything lies in the grid,
      the stack holds visited cells or the current one, every step joins two
      cells that share a side, and each step reached one new cell. */
  ghost predicate Inv(w: Walk, rows: nat, cols: nat) {
    && InGrid(w.current, rows, cols)
    && w.visited <= Grid(rows, cols)
    && (forall k :: 0 <= k < |w.stack| ==> w.stack[k] in w.visited + {w.current})
    && (forall k :: 0 <= k < |w.path| ==> Adjacent(w.path[k].0, w.path[k].1))
    && |w.path| + 1 == |w.visited + {w.current}|
  }

  /** Three per unvisited cell, one per stack entry, two more once the current
      cell is visited: every iteration lowers it. */
  function Measure(w: Walk, rows: nat, cols: nat): nat {
    3 * |Grid(rows, cols) - w.visited| + |w.stack| + if w.current in w.visited then 2 else 0
  }

  /** A move to a drawn unvisited neighbour, the branch both walks share: the
      current cell is marked visited, the neighbour pushed, the step recorded. */
  function Advance(w: Walk, ns: seq<Cell>, draw: (int, nat) -> nat): Walk
    requires Draws(draw) && |ns| > 0
  {
    var next := ns[draw(w.seed, |ns|)];
    Walk(w.visited + {w.current}, w.stack + [next], next, w.path + [(w.current, next)], w.seed + 1)
  }

  /** One iteration of the loop as written: with no unvisited neighbour, the
      current cell is marked and the popped cell becomes current. */
  function Step(w: Walk, rows: nat, cols: nat, draw: (int, nat) -> nat): Walk
    requires Draws(draw) && |w.stack| > 0
  {
    var ns := Neighbours(w.current, w.visited, rows, cols);
    if |ns| > 0 then Advance(w, ns, draw)
    else Walk(w.visited + {w.current}, w.stack[..|w.stack| - 1], w.stack[|w.stack| - 1], w.path, w.seed + 1)
  }

  /** The first iterations from the start, stopping when the stack is empty. */
  function Run(w: Walk, fuel: nat, rows: nat, cols: nat, draw: (int, nat) -> nat): Walk
    requires Draws(draw)
    decreases fuel
  {
    if fuel == 0 || |w.stack| == 0 then w else Run(Step(w, rows, cols, draw), fuel - 1, rows, cols, draw)
  }

  /** The start satisfies the invariant. */
  lemma StartInv(rows: nat, cols: nat, S: int, draw: (int, nat) -> nat)
    requires rows > 0 && cols > 0 && Draws(draw)
    ensures Inv(Start(rows, cols, S, draw), rows, cols)
    ensures Measure(Start(rows, cols, S, draw), rows, cols) <= 3 * rows * cols
  {
    var w := Start(rows, cols, S, draw);
    GridSize(rows, cols);
    assert w.visited <= Grid(rows, cols) by {
      assert w.current in Grid(rows, cols);
    }
    assert |Grid(rows, cols) - w.visited| == rows * cols - 1;
  }

  /** The move branch keeps the invariant and lowers the measure. */
  lemma AdvanceFacts(w: Walk, rows: nat, cols: nat, draw: (int, nat) -> nat)
    requires Draws(draw) && Inv(w, rows, cols)
    requires |Neighbours(w.current, w.visited, rows, cols)| > 0
    ensures var w' := Advance(w, Neighbours(w.current, w.visited, rows, cols), draw);
            Inv(w', rows, cols) && Measure(w', rows, cols) < Measure(w, rows, cols)
            && w'.current !in w'.visited && w'.stack == w.stack + [w'.current]
            && w'.visited == w.visited + {w.current}
  {
    var ns := Neighbours(w.current, w.visited, rows, cols);
    var w' := Advance(w, ns, draw);
    var next := w'.current;
    NeighboursExact(w.current, w.visited, rows, cols);
    assert next in ns;
    assert next != w.current && next !in w.visited + {w.current};
    assert w'.visited + {next} == (w.visited + {w.current}) + {next};
    assert |w'.visited + {next}| == |w.visited + {w.current}| + 1;
    forall k | 0 <= k < |w'.stack|
      ensures w'.stack[k] in w'.visited + {next}
    {
      if k < |w.stack| {
        assert w'.stack[k] == w.stack[k];
      }
    }
    forall k | 0 <= k < |w'.path|
      ensures Adjacent(w'.path[k].0, w'.path[k].1)
    {
      if k < |w.path| {
        assert w'.path[k] == w.path[k];
      }
    }
    assert w.current in Grid(rows, cols) && next in Grid(rows, cols);
    UnvisitedShrinks(Grid(rows, cols), w.visited, w.current);
  }

  /** Marking a cell visited removes at most that cell from the unvisited ones. */
  lemma UnvisitedShrinks(grid: set<Cell>, visited: set<Cell>, c: Cell)
    requires c in grid
    ensures c !in visited ==> |grid - (visited + {c})| == |grid - visited| - 1
    ensures c in visited ==> grid - (visited + {c}) == grid - visited
  {
    if c !in visited {
      assert grid - (visited + {c}) == (grid - visited) - {c};
    }
  }

  /** One iteration as written keeps the invariant and lowers the measure. */
  lemma StepFacts(w: Walk, rows: nat, cols: nat, draw: (int, nat) -> nat)
    requires Draws(draw) && Inv(w, rows, cols) && |w.stack| > 0
    ensures Inv(Step(w, rows, cols, draw), rows, cols)
    ensures Measure(Step(w, rows, cols, draw), rows, cols) < Measure(w, rows, cols)
  {
    var ns := Neighbours(w.current, w.visited, rows, cols);
    if |ns| > 0 {
      AdvanceFacts(w, rows, cols, draw);
    } else {
      var w' := Step(w, rows, cols, draw);
      assert w.stack[|w.stack| - 1] in w.visited + {w.current};
      assert w'.visited + {w'.current} == w.visited + {w.current};
      UnvisitedShrinks(Grid(rows, cols), w.visited, w.current);
      forall k | 0 <= k < |w'.stack|
        ensures w'.stack[k] in w'.visited + {w'.current}
      {
        assert w'.stack[k] == w.stack[k];
      }
    }
  }

  /** With at least as much fuel as the measure, the run empties the stack and
      keeps the invariant. */
  lemma {:induction false} RunFacts(w: Walk, fuel: nat, rows: nat, cols: nat, draw: (int, nat) -> nat)
    requires Draws(draw) && Inv(w, rows, cols) && fuel >= Measure(w, rows, cols)
    ensures Inv(Run(w, fuel, rows, cols, draw), rows, cols)
    ensures Run(w, fuel, rows, cols, draw).stack == []
    decreases fuel
  {
    if |w.stack| > 0 {
      StepFacts(w, rows, cols, draw);
      RunFacts(Step(w, rows, cols, draw), fuel - 1, rows, cols, draw);
    }
  }

  /** Row `x` of the grid. */
  function RowCells(x: int, cols: nat): set<Cell> {
    set y | 0 <= y < cols :: (x, y)
  }

  lemma {:induction false} RowSize(x: int, cols: nat)
    ensures |RowCells(x, cols)| == cols
  {
    if cols > 0 {
      RowSize(x, cols - 1);
      assert RowCells(x, cols) == RowCells(x, cols - 1) + {(x, cols - 1)};
    }
  }

  /** The grid has `rows * cols` cells. */
  lemma {:induction false} GridSize(rows: nat, cols: nat)
    ensures |Grid(rows, cols)| == rows * cols
  {
    if rows > 0 {
      GridSize(rows - 1, cols);
      RowSize(rows - 1, cols);
      var g, r := Grid(rows - 1, cols), RowCells(rows - 1, cols);
      forall c | c in Grid(rows, cols)
        ensures c in g + r
      {
        if c.0 < rows - 1 {
          assert c in g;
        } else {
          assert c == (rows - 1, c.1);
        }
      }
      assert Grid(rows, cols) == g + r;
      assert g * r == {} by {
        forall c | c in r
          ensures c !in g
        {
        }
      }
      assert |g + r| == |g| + |r|;
      assert (rows - 1) * cols + cols == rows * cols;
    }
  }

  /** The fuel that always suffices. */
  function Fuel(rows: nat, cols: nat): nat {
    3 * rows * cols
  }

  /** The walk of the Maze component as written. Each step joins two cells that
      share a side, there are at most `rows * cols - 1` of them, and the loop
      ends; the end state is the one `Run` reaches. */
  method DepthFirstWalk(rows: nat, cols: nat, S: int, draw: (int, nat) -> nat)
    returns (path: seq<(Cell, Cell)>, visited: set<Cell>)
    requires rows > 0 && cols > 0 && Draws(draw)
    ensures var w := Run(Start(rows, cols, S, draw), Fuel(rows, cols), rows, cols, draw);
            path == w.path && visited == w.visited
    ensures forall k :: 0 <= k < |path| ==> Adjacent(path[k].0, path[k].1)
    ensures |path| <= rows * cols - 1
  {
    var ix := draw(S, rows * cols);
    var idx := ix / cols;
    var idy := ix % cols;
    var w := Walk({(idx, idy)}, [(idx, idy)], (idx, idy), [], S);
    ghost var fuel := Fuel(rows, cols);
    ghost var target := Run(w, fuel, rows, cols, draw);
    TracksStart(rows, cols, S, draw);
    while |w.stack| > 0
      invariant Tracks(w, fuel, target, rows, cols, draw)
      decreases Measure(w, rows, cols)
    {
      ghost var before := w;
      w := Iteration(w, rows, cols, draw);
      TracksStep(before, w, fuel, target, rows, cols, draw);
      fuel := fuel - 1;
    }
    TracksDone(w, fuel, target, rows, cols, draw);
    path, visited := w.path, w.visited;
  }

  /** A run with fuel left and a non-empty stack takes one step. */
  lemma RunUnfold(w: Walk, fuel: nat, rows: nat, cols: nat, draw: (int, nat) -> nat)
    requires Draws(draw) && |w.stack| > 0 && fuel >= Measure(w, rows, cols)
    ensures fuel > 0 && Run(w, fuel, rows, cols, draw) == Run(Step(w, rows, cols, draw), fuel - 1, rows, cols, draw)
  {
  }

  /** The loop state of `DepthFirstWalk`: the invariant holds, the fuel covers
      the measure, and running on from here reaches `target`. */
  ghost predicate Tracks(w: Walk, fuel: nat, target: Walk, rows: nat, cols: nat, draw: (int, nat) -> nat)
    requires Draws(draw)
  {
    Inv(w, rows, cols) && fuel >= Measure(w, rows, cols) && Run(w, fuel, rows, cols, draw) == target
  }

  /** The loop state holds at the start. */
  lemma TracksStart(rows: nat, cols: nat, S: int, draw: (int, nat) -> nat)
    requires rows > 0 && cols > 0 && Draws(draw)
    ensures var start := Start(rows, cols, S, draw);
            Tracks(start, Fuel(rows, cols), Run(start, Fuel(rows, cols), rows, cols, draw), rows, cols, draw)
  {
    StartInv(rows, cols, S, draw);
  }

  /** Once the stack is empty the walk is the target, and its steps join
      neighbouring cells. */
  lemma TracksDone(w: Walk, fuel: nat, target: Walk, rows: nat, cols: nat, draw: (int, nat) -> nat)
    requires Draws(draw) && |w.stack| == 0 && Tracks(w, fuel, target, rows, cols, draw)
    ensures w == target
    ensures forall k :: 0 <= k < |w.path| ==> Adjacent(w.path[k].0, w.path[k].1)
    ensures |w.path| <= rows * cols - 1
  {
    PathBound(w, rows, cols);
  }

  /** One iteration keeps the loop state and lowers the measure. */
  lemma TracksStep(w: Walk, w': Walk, fuel: nat, target: Walk, rows: nat, cols: nat, draw: (int, nat) -> nat)
    requires Draws(draw) && |w.stack| > 0 && Tracks(w, fuel, target, rows, cols, draw)
    requires w' == Step(w, rows, cols, draw)
    ensures fuel > 0 && Tracks(w', fuel - 1, target, rows, cols, draw)
    ensures Measure(w', rows, cols) < Measure(w, rows, cols)
  {
    RunUnfold(w, fuel, rows, cols, draw);
    StepFacts(w, rows, cols, draw);
  }

  /** Each step reaches a new cell, so there are fewer steps than cells. */
  lemma PathBound(w: Walk, rows: nat, cols: nat)
    requires Inv(w, rows, cols)
    ensures |w.path| <= rows * cols - 1
  {
    GridSize(rows, cols);
    assert w.visited + {w.current} <= Grid(rows, cols);
    SubsetSize(w.visited + {w.current}, Grid(rows, cols));
  }

  /** The body of the loop of `DepthFirstWalk`: move to a drawn unvisited
      neighbour, or mark the cell and pop. */
  method Iteration(w: Walk, rows: nat, cols: nat, draw: (int, nat) -> nat) returns (w': Walk)
    requires Draws(draw) && |w.stack| > 0
    ensures w' == Step(w, rows, cols, draw)
  {
    var visited, stack, current, path, seed := w.visited, w.stack, w.current, w.path, w.seed;
    var neighbours := GetNeighbours(current, visited, rows, cols);
    if |neighbours| > 0 {
      var neig := neighbours[draw(seed, |neighbours|)];
      stack := stack + [neig];
      visited := visited + {current};
      path := path + [(current, neig)];
      current := neig;
      seed := seed + 1;
    } else {
      visited := visited + {current};
      current := stack[|stack| - 1];
      stack := stack[..|stack| - 1];
      seed := seed + 1;
    }
    w' := Walk(visited, stack, current, path, seed);
  }

  lemma SubsetSize(a: set<Cell>, b: set<Cell>)
    requires a <= b
    ensures |a| <= |b|
  {
    assert b == a + (b - a);
  }

  // ---------------------------------------------------------------------------
  // The walk stops early

  /** A draw that starts at flat index 1 of three cells and otherwise takes the
      first neighbour. */
  function FixedDraw(): (int, nat) -> nat {
    (seed: int, n: nat) => if n == 3 then 1 else 0
  }

  /** On a grid of one row and three columns the walk as written starts in the
      middle, moves left, pops twice and stops with the stack empty: the right
      cell is never reached, so one of the three cells is missing from the
      maze's path. */
  lemma WalkMissesCell()
    ensures Draws(FixedDraw())
    ensures var w := Run(Start(1, 3, 0, FixedDraw()), Fuel(1, 3), 1, 3, FixedDraw());
            w.stack == [] && (0, 2) in Grid(1, 3) && (0, 2) !in w.visited && (0, 2) != w.current
            && |w.path| < 1 * 3 - 1
  {
    var draw := FixedDraw();
    var w0 := Start(1, 3, 0, draw);
    assert w0 == Walk({(0, 1)}, [(0, 1)], (0, 1), [], 0);
    NeighboursUnfold((0, 1), {(0, 1)}, 1, 3);
    assert Neighbours((0, 1), {(0, 1)}, 1, 3) == [(0, 0), (0, 2)];
    var w1 := Step(w0, 1, 3, draw);
    assert w1 == Walk({(0, 1)}, [(0, 1), (0, 0)], (0, 0), [((0, 1), (0, 0))], 1);
    NeighboursUnfold((0, 0), {(0, 1)}, 1, 3);
    assert Neighbours((0, 0), {(0, 1)}, 1, 3) == [];
    var w2 := Step(w1, 1, 3, draw);
    assert w2 == Walk({(0, 1), (0, 0)}, [(0, 1)], (0, 0), [((0, 1), (0, 0))], 2);
    NeighboursUnfold((0, 0), {(0, 1), (0, 0)}, 1, 3);
    assert Neighbours((0, 0), {(0, 1), (0, 0)}, 1, 3) == [];
    var w3 := Step(w2, 1, 3, draw);
    assert w3 == Walk({(0, 1), (0, 0)}, [], (0, 1), [((0, 1), (0, 0))], 3);
    assert Run(w0, 9, 1, 3, draw) == Run(w1, 8, 1, 3, draw) == Run(w2, 7, 1, 3, draw) == Run(w3, 6, 1, 3, draw) == w3;
  }

  // ---------------------------------------------------------------------------
  // The walk as intended

  /** One iteration of the backtracking walk as evidently intended: at a dead
      end the current cell is marked and popped, and the walk goes on from the
      cell now on top of the stack. */
  function StepIntended(w: Walk, rows: nat, cols: nat, draw: (int, nat) -> nat): Walk
    requires Draws(draw) && |w.stack| > 0
  {
    var ns := Neighbours(w.current, w.visited, rows, cols);
    if |ns| > 0 then Advance(w, ns, draw)
    else
      var rest := w.stack[..|w.stack| - 1];
      Walk(w.visited + {w.current}, rest, if |rest| > 0 then rest[|rest| - 1] else w.current, w.path, w.seed + 1)
  }

  function RunIntended(w: Walk, fuel: nat, rows: nat, cols: nat, draw: (int, nat) -> nat): Walk
    requires Draws(draw)
    decreases fuel
  {
    if fuel == 0 || |w.stack| == 0 then w else RunIntended(StepIntended(w, rows, cols, draw), fuel - 1, rows, cols, draw)
  }

  /** Every visited cell that is off the stack has all its neighbours in the
      grid visited. */
  ghost predicate Closed(w: Walk, rows: nat, cols: nat) {
    forall v, d {:trigger Adjacent(v, d)} :: v in w.visited && v !in w.stack && InGrid(d, rows, cols) && Adjacent(v, d) ==> d in w.visited
  }

  /** What the intended walk keeps besides `Inv`: the current cell is the top
      of the stack, or visited once the stack is empty, and the visited cells
      off the stack are closed. */
  ghost predicate Backtracks(w: Walk, rows: nat, cols: nat) {
    && (|w.stack| > 0 ==> w.current == w.stack[|w.stack| - 1])
    && (|w.stack| == 0 ==> w.current in w.visited)
    && Closed(w, rows, cols)
  }

  lemma StartInvIntended(rows: nat, cols: nat, S: int, draw: (int, nat) -> nat)
    requires rows > 0 && cols > 0 && Draws(draw)
    ensures Inv(Start(rows, cols, S, draw), rows, cols) && Backtracks(Start(rows, cols, S, draw), rows, cols)
    ensures Measure(Start(rows, cols, S, draw), rows, cols) <= Fuel(rows, cols)
  {
    StartInv(rows, cols, S, draw);
  }

  /** One intended iteration keeps the invariant and lowers the measure. */
  lemma StepIntendedFacts(w: Walk, rows: nat, cols: nat, draw: (int, nat) -> nat)
    requires Draws(draw) && Inv(w, rows, cols) && Backtracks(w, rows, cols) && |w.stack| > 0
    ensures Inv(StepIntended(w, rows, cols, draw), rows, cols) && Backtracks(StepIntended(w, rows, cols, draw), rows, cols)
    ensures Measure(StepIntended(w, rows, cols, draw), rows, cols) < Measure(w, rows, cols)
  {
    var ns := Neighbours(w.current, w.visited, rows, cols);
    var w' := StepIntended(w, rows, cols, draw);
    if |ns| > 0 {
      AdvanceFacts(w, rows, cols, draw);
      assert w'.stack[|w'.stack| - 1] == w'.current;
      forall v, d | v in w'.visited && v !in w'.stack && InGrid(d, rows, cols) && Adjacent(v, d)
        ensures d in w'.visited
      {
        assert w.current in w'.stack by {
          assert w'.stack[|w.stack| - 1] == w.current;
        }
        assert v in w.visited && v !in w.stack;
      }
    } else {
      PopFacts(w, rows, cols, draw);
    }
  }

  /** The dead-end branch of `StepIntended`. */
  lemma PopFacts(w: Walk, rows: nat, cols: nat, draw: (int, nat) -> nat)
    requires Draws(draw) && Inv(w, rows, cols) && Backtracks(w, rows, cols) && |w.stack| > 0
    requires |Neighbours(w.current, w.visited, rows, cols)| == 0
    ensures Inv(StepIntended(w, rows, cols, draw), rows, cols) && Backtracks(StepIntended(w, rows, cols, draw), rows, cols)
    ensures Measure(StepIntended(w, rows, cols, draw), rows, cols) < Measure(w, rows, cols)
  {
    var w' := StepIntended(w, rows, cols, draw);
    var rest := w.stack[..|w.stack| - 1];
    assert w'.stack == rest;
    assert w'.visited + {w'.current} == w.visited + {w.current} by {
      if |rest| > 0 {
        assert rest[|rest| - 1] == w.stack[|rest| - 1];
      }
    }
    UnvisitedShrinks(Grid(rows, cols), w.visited, w.current);
    forall k | 0 <= k < |rest|
      ensures rest[k] in w'.visited + {w'.current}
    {
      assert rest[k] == w.stack[k];
    }
    NeighboursExact(w.current, w.visited, rows, cols);
    PopKeepsClosed(w, w', rows, cols);
  }

  /** Popping a cell whose grid neighbours are all visited keeps the visited
      cells off the stack closed. */
  lemma PopKeepsClosed(w: Walk, w': Walk, rows: nat, cols: nat)
    requires |w.stack| > 0 && w.stack[|w.stack| - 1] == w.current && Closed(w, rows, cols)
    requires w'.visited == w.visited + {w.current} && w'.stack == w.stack[..|w.stack| - 1]
    requires forall d :: InGrid(d, rows, cols) && Adjacent(w.current, d) ==> d in w.visited
    ensures Closed(w', rows, cols)
  {
    var rest := w'.stack;
    forall v, d | v in w'.visited && v !in rest && InGrid(d, rows, cols) && Adjacent(v, d)
      ensures d in w'.visited
    {
      if v != w.current {
        forall k | 0 <= k < |w.stack|
          ensures w.stack[k] != v
        {
          if k < |rest| {
            assert rest[k] == w.stack[k];
          }
        }
      }
    }
  }

  /** The intended invariant, as one predicate on walks. */
  ghost predicate Good(w: Walk, rows: nat, cols: nat) {
    Inv(w, rows, cols) && Backtracks(w, rows, cols)
  }

  /** Any property every intended step keeps while lowering a measure `M`
      holds at the end of the run, and with at least `M` fuel the run ends with
      the stack empty. */
  lemma {:induction false} RunIntendedKeeps(P: Walk -> bool, M: Walk -> nat, w: Walk, fuel: nat,
                                            rows: nat, cols: nat, draw: (int, nat) -> nat)
    requires Draws(draw) && P(w) && fuel >= M(w)
    requires forall v {:trigger StepIntended(v, rows, cols, draw)} :: P(v) && |v.stack| > 0 ==>
               P(StepIntended(v, rows, cols, draw)) && M(StepIntended(v, rows, cols, draw)) < M(v)
    ensures P(RunIntended(w, fuel, rows, cols, draw))
    ensures RunIntended(w, fuel, rows, cols, draw).stack == []
    decreases fuel
  {
    if |w.stack| > 0 {
      var w' := StepIntended(w, rows, cols, draw);
      assert P(w') && M(w') < M(w);
      RunIntendedKeeps(P, M, w', fuel - 1, rows, cols, draw);
      assert RunIntended(w, fuel, rows, cols, draw) == RunIntended(w', fuel - 1, rows, cols, draw);
    } else {
      assert RunIntended(w, fuel, rows, cols, draw) == w;
    }
  }

  /** A set that holds one cell of the grid and every grid neighbour of each
      of its cells holds the whole grid. */
  lemma Spreads(s: set<Cell>, c: Cell, rows: nat, cols: nat)
    requires c in s && InGrid(c, rows, cols)
    requires forall v, d :: v in s && InGrid(d, rows, cols) && Adjacent(v, d) ==> d in s
    ensures Grid(rows, cols) <= s
  {
    forall g | g in Grid(rows, cols)
      ensures g in s
    {
      AlongRow(s, c.0, c.1, g.1, rows, cols);
      AlongColumn(s, c.0, g.0, g.1, rows, cols);
    }
  }

  lemma {:induction false} AlongRow(s: set<Cell>, x: int, y0: int, y: int, rows: nat, cols: nat)
    requires (x, y0) in s && InGrid((x, y0), rows, cols) && 0 <= y < cols
    requires forall v, d :: v in s && InGrid(d, rows, cols) && Adjacent(v, d) ==> d in s
    ensures (x, y) in s
    decreases if y < y0 then y0 - y else y - y0
  {
    if y != y0 {
      var y1 := if y < y0 then y0 - 1 else y0 + 1;
      assert Adjacent((x, y0), (x, y1));
      AlongRow(s, x, y1, y, rows, cols);
    }
  }

  lemma {:induction false} AlongColumn(s: set<Cell>, x0: int, x: int, y: int, rows: nat, cols: nat)
    requires (x0, y) in s && InGrid((x0, y), rows, cols) && 0 <= x < rows
    requires forall v, d :: v in s && InGrid(d, rows, cols) && Adjacent(v, d) ==> d in s
    ensures (x, y) in s
    decreases if x < x0 then x0 - x else x - x0
  {
    if x != x0 {
      var x1 := if x < x0 then x0 - 1 else x0 + 1;
      assert Adjacent((x0, y), (x1, y));
      AlongColumn(s, x1, x, y, rows, cols);
    }
  }

  /** The intended walk visits every cell of the grid, and its steps, each
      between cells sharing a side, form a spanning tree of `rows * cols - 1`
      edges. */
  lemma WalkIntendedVisitsAll(rows: nat, cols: nat, S: int, draw: (int, nat) -> nat)
    requires rows > 0 && cols > 0 && Draws(draw)
    ensures var w := RunIntended(Start(rows, cols, S, draw), Fuel(rows, cols), rows, cols, draw);
            w.visited == Grid(rows, cols) && |w.path| == rows * cols - 1
            && (forall k :: 0 <= k < |w.path| ==> Adjacent(w.path[k].0, w.path[k].1))
  {
    var w0 := Start(rows, cols, S, draw);
    StartInvIntended(rows, cols, S, draw);
    StepsKeepGood(rows, cols, draw);
    RunIntendedKeeps(w => Good(w, rows, cols), w => Measure(w, rows, cols), w0, Fuel(rows, cols), rows, cols, draw);
    DoneCoversGrid(RunIntended(w0, Fuel(rows, cols), rows, cols, draw), rows, cols);
  }

  lemma StepsKeepGood(rows: nat, cols: nat, draw: (int, nat) -> nat)
    requires Draws(draw)
    ensures forall v {:trigger StepIntended(v, rows, cols, draw)} :: Good(v, rows, cols) && |v.stack| > 0 ==>
              Good(StepIntended(v, rows, cols, draw), rows, cols)
              && Measure(StepIntended(v, rows, cols, draw), rows, cols) < Measure(v, rows, cols)
  {
    forall v | Good(v, rows, cols) && |v.stack| > 0
      ensures Good(StepIntended(v, rows, cols, draw), rows, cols)
      ensures Measure(StepIntended(v, rows, cols, draw), rows, cols) < Measure(v, rows, cols)
    {
      StepIntendedFacts(v, rows, cols, draw);
    }
  }

  /** A walk that keeps the intended invariant and has emptied its stack has
      visited the whole grid, in one step fewer than there are cells. */
  lemma DoneCoversGrid(w: Walk, rows: nat, cols: nat)
    requires Good(w, rows, cols) && w.stack == []
    ensures w.visited == Grid(rows, cols) && |w.path| == rows * cols - 1
  {
    Spreads(w.visited, w.current, rows, cols);
    assert w.visited + {w.current} == w.visited;
    GridSize(rows, cols);
  }
}
