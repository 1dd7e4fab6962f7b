// The Recursive Snowflake component: a base line rotated into B arms, each
// line then replaced by four lines, `i` times over.
module Snowflake {
  import opened Seqs
  import opened Geometry
  import opened Arith

  // ---------------------------------------------------------------------------
  // One generation

  /** `PointAtLength(Length * t)` on a line: the point a fraction `t` of the way
      from its start (beyond it when `t` is outside 0..1). */
  function Along(ln: Line, t: real): Point {
    Point(ln.from.x + t * (ln.to.x - ln.from.x),
          ln.from.y + t * (ln.to.y - ln.from.y),
          ln.from.z + t * (ln.to.z - ln.from.z))
  }

  /** `Vector * Length * Width`: the unitised normal `(dY, -dX, -dZ)` scaled by
      the line's length, which cancels the unitising, and by the width. A
      zero-length line cannot be unitised and its normal is zero either way. */
  function Offset(ln: Line, width: real): Point {
    Point(width * (ln.to.y - ln.from.y), -width * (ln.to.x - ln.from.x), -width * (ln.to.z - ln.from.z))
  }

  function Translate(p: Point, v: Point, sign: real): Point {
    Point(p.x + sign * v.x, p.y + sign * v.y, p.z + sign * v.z)
  }

  /** The four lines a line becomes: start to midpoint, midpoint to end, and the
      two branches from the midpoint to the point at `depth` pushed out to
      either side by `width`. */
  function Spread(ln: Line, depth: real, width: real): (r: seq<Line>)
    ensures |r| == 4
  {
    var p0 := Along(ln, 0.5);
    var p1 := Translate(Along(ln, depth), Offset(ln, width), 1.0);
    var p2 := Translate(Along(ln, depth), Offset(ln, width), -1.0);
    [Line(ln.from, p0), Line(p0, ln.to), Line(p0, p1), Line(p0, p2)]
  }

  /** The first two lines of a spread chain from the line's start to its end
      through a point equally far from both; the branches leave from that
      point and mirror each other about the point at `depth`. */
  lemma SpreadSplitsLine(ln: Line, depth: real, width: real)
    ensures var r := Spread(ln, depth, width);
            && r[0].from == ln.from && r[0].to == r[1].from && r[1].to == ln.to
            && SqDist(ln.from, r[0].to) == SqDist(r[0].to, ln.to)
            && r[2].from == r[3].from == r[0].to
            && Along(ln, depth) == Along(Line(r[2].to, r[3].to), 0.5)
  {
    var p0 := Along(ln, 0.5);
    assert ln.from.x - p0.x == p0.x - ln.to.x;
    assert ln.from.y - p0.y == p0.y - ln.to.y;
    assert ln.from.z - p0.z == p0.z - ln.to.z;
  }

  /** Each line of the input in turn becomes its four lines. */
  function NextGeneration(lins: seq<Line>, depth: real, width: real): (r: seq<Line>)
  {
    if |lins| == 0 then [] else NextGeneration(lins[..|lins| - 1], depth, width) + Spread(lins[|lins| - 1], depth, width)
  }

  /** A generation has four lines per parent, and lines `4k` to `4k + 3` are
      the spread of parent `k`. */
  lemma {:induction false} NextGenerationLayout(lins: seq<Line>, depth: real, width: real)
    ensures |NextGeneration(lins, depth, width)| == 4 * |lins|
    ensures forall k, c :: 0 <= k < |lins| && 0 <= c < 4 ==>
              NextGeneration(lins, depth, width)[4 * k + c] == Spread(lins[k], depth, width)[c]
  {
    if |lins| > 0 {
      var init := lins[..|lins| - 1];
      NextGenerationLayout(init, depth, width);
      var r := NextGeneration(lins, depth, width);
      forall k, c | 0 <= k < |lins| && 0 <= c < 4
        ensures r[4 * k + c] == Spread(lins[k], depth, width)[c]
      {
        if k < |lins| - 1 {
          assert lins[k] == init[k];
        }
      }
    }
  }

  /** `Snowflake`: replaces every line by its four, in order. */
  method SnowflakeStep(lins: seq<Line>, depth: real, width: real) returns (snowf: seq<Line>)
    ensures snowf == NextGeneration(lins, depth, width)
  {
    snowf := [];
    for k := 0 to |lins|
      invariant snowf == NextGeneration(lins[..k], depth, width)
    {
      assert lins[..k + 1][..k] == lins[..k];
      snowf := snowf + Spread(lins[k], depth, width);
    }
    assert lins[..|lins|] == lins;
  }

  // ---------------------------------------------------------------------------
  // Polar array

  /** `360 / rotations` on two integers: the quotient truncated. */
  function AngleStep(rotations: int): int
    requires rotations > 0
  {
    360 / rotations
  }

  /** `Polar`: `rotations` copies of the line, copy `j` turned about the centre
      by `j` steps (the rotation itself is the parameter `rotate`, angles in
      degrees). */
  method Polar(lin: Line, center: Point, rotations: int, rotate: (Line, real, Point) -> Line)
    returns (lines: seq<Line>)
    requires rotations > 0
    ensures |lines| == rotations
    ensures forall j :: 0 <= j < rotations ==> lines[j] == rotate(lin, (AngleStep(rotations) * j) as real, center)
    ensures forall j :: 0 <= j < rotations ==> 0 <= AngleStep(rotations) * j < 360
  {
    var angleStep := AngleStep(rotations);
    lines := [];
    for j := 0 to rotations
      invariant |lines| == j
      invariant forall k :: 0 <= k < j ==> lines[k] == rotate(lin, (angleStep * k) as real, center)
    {
      lines := lines + [rotate(lin, (angleStep * j) as real, center)];
    }
    StepsWithinTurn(rotations);
  }

  /** The copies' angles stay below a full turn. */
  lemma StepsWithinTurn(rotations: int)
    requires rotations > 0
    ensures forall j :: 0 <= j < rotations ==> 0 <= AngleStep(rotations) * j < 360
  {
    var s := AngleStep(rotations);
    assert s * rotations + 360 % rotations == 360;
    forall j | 0 <= j < rotations
      ensures 0 <= s * j < 360
    {
      MulNonNeg(j, s);
      MulMonotone(j, rotations, s);
    }
  }

  /** With a number of arms that does not divide 360 the truncated step leaves
      the arms unevenly spaced: with 7 arms the step is 51 degrees, and the gap
      from the last arm back to the first is 54. */
  lemma UnevenArms()
    ensures AngleStep(7) == 51 && 360 - AngleStep(7) * 6 == 54
  {
  }

  /** The evidently intended step: a real division, so the arms divide the full
      turn evenly. */
  function AngleStepIntended(rotations: int): (step: real)
    requires rotations > 0
    ensures step * rotations as real == 360.0
  {
    360.0 / rotations as real
  }

  /** The angle of arm `j`. */
  function ArmAngle(step: real, j: int): real {
    step * j as real
  }

  /** `Polar` with the intended step. */
  method PolarIntended(lin: Line, center: Point, rotations: int, rotate: (Line, real, Point) -> Line)
    returns (lines: seq<Line>)
    requires rotations > 0
    ensures |lines| == rotations
    ensures forall j :: 0 <= j < rotations ==> lines[j] == rotate(lin, ArmAngle(AngleStepIntended(rotations), j), center)
  {
    var angleStep := AngleStepIntended(rotations);
    lines := [];
    for j := 0 to rotations
      invariant |lines| == j
      invariant forall k :: 0 <= k < j ==> lines[k] == rotate(lin, ArmAngle(angleStep, k), center)
    {
      lines := lines + [rotate(lin, ArmAngle(angleStep, j), center)];
    }
  }

  // ---------------------------------------------------------------------------
  // Recursion

  /** The lines after `n` generations. */
  function Iterate(lins: seq<Line>, n: nat, depth: real, width: real): seq<Line>
    decreases n
  {
    if n == 0 then lins else Iterate(NextGeneration(lins, depth, width), n - 1, depth, width)
  }

  function Pow4(n: nat): nat {
    if n == 0 then 1 else 4 * Pow4(n - 1)
  }

  /** Each generation multiplies the count by four. */
  lemma {:induction false} IterateCount(lins: seq<Line>, n: nat, depth: real, width: real)
    ensures |Iterate(lins, n, depth, width)| == Pow4(n) * |lins|
    decreases n
  {
    if n > 0 {
      NextGenerationLayout(lins, depth, width);
      IterateCount(NextGeneration(lins, depth, width), n - 1, depth, width);
    }
  }

  /** `recursive`: with `iterations > 0`, computes the next generation, recurses
      on it, and only the innermost call (the one left with no iterations)
      appends its generation to the shared list, so the list gains the last
      generation alone. */
  method Recursive(lns: seq<Line>, iterations: int, list: seq<Line>, depth: real, width: real)
    returns (list': seq<Line>)
    ensures iterations <= 0 ==> list' == list
    ensures iterations > 0 ==> list' == list + Iterate(lns, iterations, depth, width)
    decreases iterations
  {
    list' := list;
    if iterations > 0 {
      var newLines := SnowflakeStep(lns, depth, width);
      var remaining := iterations - 1;
      list' := Recursive(newLines, remaining, list', depth, width);
      if remaining == 0 {
        list' := list' + newLines;
      }
    }
  }

  /** The `rotations` copies of `lin` that `Polar` produces. */
  function Arms(lin: Line, center: Point, rotations: int, rotate: (Line, real, Point) -> Line): seq<Line>
    requires rotations > 0
  {
    seq(rotations, j requires 0 <= j < rotations => rotate(lin, (AngleStep(rotations) * j) as real, center))
  }

  /** The component: `B` arms of length `R` from `P` (the base line points along
      Y), developed for `i` generations. */
  method RecursiveSnowflake(P: Point, R: real, B: int, W: real, D: real, i: int,
                            rotate: (Line, real, Point) -> Line)
    returns (r: Result<seq<Line>>)
    ensures B < 1 <==> r == Failure("B must be postive")
    ensures B >= 1 && i <= 0 ==> r == Success([])
    ensures B >= 1 && i > 0 ==> r.Success? && |r.value| == B * Pow4(i)
    ensures B >= 1 && i > 0 ==>
              r == Success(Iterate(Arms(Line(P, Point(P.x + 0.0, P.y + R, P.z + 0.0)), P, B, rotate), i, D, W))
  {
    if B < 1 {
      return Failure("B must be postive");
    }
    var line := Line(P, Point(P.x + 0.0, P.y + R, P.z + 0.0));
    var arrayPolar := Polar(line, P, B, rotate);
    assert arrayPolar == Arms(line, P, B, rotate);
    var sFlake := Recursive(arrayPolar, i, [], D, W);
    if i > 0 {
      IterateCount(arrayPolar, i, D, W);
      assert [] + Iterate(arrayPolar, i, D, W) == Iterate(arrayPolar, i, D, W);
    }
    r := Success(sFlake);
  }
}
