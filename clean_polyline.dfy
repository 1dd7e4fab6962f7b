// The Clean Polyline components: interior points are removed one at a time,
// the first whose turn angle passes a test each time, until none does. One
// component removes points whose angle is below a threshold, the other points
// whose angle is above it and then also checks the closing corner of a closed
// polyline.
module CleanPolyline {
  import opened Seqs
  import opened Geometry

  /** `Vector3d.VectorAngle` (an arc cosine) is the parameter `vectorAngle`. The
      turn angle at interior point `i` is the angle between the segment into it
      and the segment out of it. */
  function Turn(pts: seq<Point>, i: nat, vectorAngle: (Point, Point) -> real): real
    requires 1 <= i < |pts| - 1
  {
    vectorAngle(Sub(pts[i], pts[i - 1]), Sub(pts[i + 1], pts[i]))
  }

  /** The first interior point whose turn angle `drop` accepts. */
  function FirstDropped(pts: seq<Point>, drop: real -> bool, vectorAngle: (Point, Point) -> real): (r: Option<nat>)
    ensures r.Some? ==> 1 <= r.value < |pts| - 1 && drop(Turn(pts, r.value, vectorAngle))
    ensures r.Some? ==> forall k :: 1 <= k < r.value ==> !drop(Turn(pts, k, vectorAngle))
    ensures r.None? <==> forall k :: 1 <= k < |pts| - 1 ==> !drop(Turn(pts, k, vectorAngle))
  {
    FirstDroppedFrom(pts, 1, drop, vectorAngle)
  }

  function FirstDroppedFrom(pts: seq<Point>, i: nat, drop: real -> bool, vectorAngle: (Point, Point) -> real)
    : (r: Option<nat>)
    requires i >= 1
    ensures r.Some? ==> i <= r.value < |pts| - 1 && drop(Turn(pts, r.value, vectorAngle))
    ensures r.Some? ==> forall k :: i <= k < r.value ==> !drop(Turn(pts, k, vectorAngle))
    ensures r.None? <==> forall k :: i <= k < |pts| - 1 ==> !drop(Turn(pts, k, vectorAngle))
    decreases |pts| - i
  {
    if i >= |pts| - 1 then None
    else if drop(Turn(pts, i, vectorAngle)) then Some(i)
    else FirstDroppedFrom(pts, i + 1, drop, vectorAngle)
  }

  /** The points left once no interior point is dropped any more. */
  function Cleaned(pts: seq<Point>, drop: real -> bool, vectorAngle: (Point, Point) -> real): (r: seq<Point>)
    ensures |r| <= |pts| && (|pts| >= 2 ==> |r| >= 2)
    decreases |pts|
  {
    match FirstDropped(pts, drop, vectorAngle)
    case None => pts
    case Some(i) => Cleaned(RemoveAt(pts, i), drop, vectorAngle)
  }

  /** The positions in `pts` of the points `Cleaned` keeps. */
  function Kept(pts: seq<Point>, drop: real -> bool, vectorAngle: (Point, Point) -> real): seq<nat>
    decreases |pts|
  {
    match FirstDropped(pts, drop, vectorAngle)
    case None => Range(|pts|)
    case Some(i) =>
      Shift(Kept(RemoveAt(pts, i), drop, vectorAngle), i)
  }

  /** Positions after the removal of position `i`, as positions before it. */
  function Shift(k: seq<nat>, i: nat): seq<nat> {
    seq(|k|, j requires 0 <= j < |k| => if k[j] < i then k[j] else k[j] + 1)
  }

  /** One step of the removal, as `Cleaned` and `Kept` see it. */
  lemma RemovalStep(pts: seq<Point>, i: nat, drop: real -> bool, vectorAngle: (Point, Point) -> real)
    requires FirstDropped(pts, drop, vectorAngle) == Some(i)
    ensures Cleaned(pts, drop, vectorAngle) == Cleaned(RemoveAt(pts, i), drop, vectorAngle)
    ensures Kept(pts, drop, vectorAngle) == Shift(Kept(RemoveAt(pts, i), drop, vectorAngle), i)
  {
  }

  /** `r` is `pts` with interior points left out, at the positions `idx`. */
  predicate KeepsEnds(pts: seq<Point>, r: seq<Point>, idx: seq<nat>) {
    && SubsequenceAt(r, pts, idx)
    && (|pts| >= 2 ==> |idx| >= 2 && idx[0] == 0 && idx[|idx| - 1] == |pts| - 1)
    && (|pts| < 2 ==> r == pts)
  }

  /** The cleaned points are the input with interior points left out: the first
      and the last point are always kept. */
  lemma {:induction false} CleanedKeepsEnds(pts: seq<Point>, drop: real -> bool, vectorAngle: (Point, Point) -> real)
    ensures KeepsEnds(pts, Cleaned(pts, drop, vectorAngle), Kept(pts, drop, vectorAngle))
    decreases |pts|
  {
    var d := FirstDropped(pts, drop, vectorAngle);
    if d.None? {
      NothingDropped(pts, drop, vectorAngle);
      RangeIsSubsequence(pts);
    } else {
      var pts' := RemoveAt(pts, d.value);
      CleanedKeepsEnds(pts', drop, vectorAngle);
      RemovalStep(pts, d.value, drop, vectorAngle);
      KeptAfterRemoval(pts, d.value, Cleaned(pts', drop, vectorAngle), Kept(pts', drop, vectorAngle));
    }
  }

  lemma NothingDropped(pts: seq<Point>, drop: real -> bool, vectorAngle: (Point, Point) -> real)
    requires FirstDropped(pts, drop, vectorAngle).None?
    ensures Cleaned(pts, drop, vectorAngle) == pts && Kept(pts, drop, vectorAngle) == Range(|pts|)
  {
  }

  lemma RangeIsSubsequence(pts: seq<Point>)
    ensures KeepsEnds(pts, pts, Range(|pts|))
  {
  }

  /** Removing the point at `i` shifts the positions at and after `i` by one. */
  lemma KeptAfterRemoval(pts: seq<Point>, i: nat, r: seq<Point>, k: seq<nat>)
    requires 1 <= i < |pts| - 1
    requires KeepsEnds(RemoveAt(pts, i), r, k)
    ensures KeepsEnds(pts, r, Shift(k, i))
  {
  }

  /** No interior point of the cleaned points is dropped: it is a fixpoint. */
  lemma {:induction false} CleanedIsFixpoint(pts: seq<Point>, drop: real -> bool, vectorAngle: (Point, Point) -> real)
    ensures var r := Cleaned(pts, drop, vectorAngle);
            forall k :: 1 <= k < |r| - 1 ==> !drop(Turn(r, k, vectorAngle))
    decreases |pts|
  {
    match FirstDropped(pts, drop, vectorAngle)
    case None =>
      assert Cleaned(pts, drop, vectorAngle) == pts;
    case Some(i) =>
      assert Cleaned(pts, drop, vectorAngle) == Cleaned(RemoveAt(pts, i), drop, vectorAngle);
      CleanedIsFixpoint(RemoveAt(pts, i), drop, vectorAngle);
  }

  /** The points that already are a fixpoint stay as they are. */
  lemma CleanedIdempotent(pts: seq<Point>, drop: real -> bool, vectorAngle: (Point, Point) -> real)
    ensures Cleaned(Cleaned(pts, drop, vectorAngle), drop, vectorAngle) == Cleaned(pts, drop, vectorAngle)
  {
    CleanedIsFixpoint(pts, drop, vectorAngle);
  }

  /** The removal loop: a scan from the second point to the last but one
      removes the first point whose turn angle `drop` accepts and restarts;
      the loop stops after a scan that removes nothing. */
  method RemovePoints(P: seq<Point>, drop: real -> bool, vectorAngle: (Point, Point) -> real)
    returns (pts: seq<Point>)
    ensures pts == Cleaned(P, drop, vectorAngle)
  {
    pts := P;
    var pointRemoved := true;
    while pointRemoved
      invariant Cleaned(pts, drop, vectorAngle) == Cleaned(P, drop, vectorAngle)
      invariant !pointRemoved ==> FirstDropped(pts, drop, vectorAngle).None?
      decreases if pointRemoved then |pts| + 1 else 0
    {
      pointRemoved := false;
      var i := 1;
      while i < |pts| - 1
        invariant 1 <= i
        invariant forall k :: 1 <= k < i && k < |pts| - 1 ==> !drop(Turn(pts, k, vectorAngle))
        decreases |pts| - i
      {
        if drop(Turn(pts, i, vectorAngle)) {
          assert FirstDropped(pts, drop, vectorAngle) == Some(i);
          pts := RemoveAt(pts, i);
          pointRemoved := true;
          break;
        }
        i := i + 1;
      }
    }
  }

  /** `Polyline.IsClosed`: more than two points and the last is the first. */
  predicate IsClosed(pts: seq<Point>) {
    |pts| > 2 && pts[0] == pts[|pts| - 1]
  }

  // ---------------------------------------------------------------------------
  // The two components

  /** The test of Clean Polyline: the turn is below the threshold. */
  function Below(a: real): real -> bool {
    angle => angle < a
  }

  /** The test of the angle-greater-than component. */
  function Above(a: real): real -> bool {
    angle => angle > a
  }

  /** Clean Polyline: removes points whose turn angle is below `a`. The input is
      what `TryGetPolyline` gives, nothing when the curve is not a polyline. */
  method CleanPolylineBelow(C: Option<seq<Point>>, a: real, vectorAngle: (Point, Point) -> real)
    returns (r: Result<seq<Point>>)
    ensures C.None? <==> r == Failure("P must be a polyline")
    ensures C.Some? ==> r == Success(Cleaned(C.value, Below(a), vectorAngle))
  {
    if C.None? {
      return Failure("P must be a polyline");
    }
    var pts := RemovePoints(C.value, Below(a), vectorAngle);
    r := Success(pts);
  }

  /** What the angle-greater-than component does after the removal loop: for a
      closed input, if the corner where the last segment meets the first turns
      by more than `a`, the last and the first points go too, and a closed input
      whose points no longer close gets its first point appended. */
  function CloseUp(P: seq<Point>, pts: seq<Point>, a: real, vectorAngle: (Point, Point) -> real): (r: seq<Point>)
    requires |pts| >= 2
    ensures IsClosed(P) ==> |r| >= 2 && r[0] == r[|r| - 1]
    ensures !IsClosed(P) ==> r == pts
  {
    var pts1 :=
      if |pts| > 2 && IsClosed(P)
         && vectorAngle(Sub(pts[|pts| - 1], pts[|pts| - 2]), Sub(pts[1], pts[0])) > a
      then pts[1..|pts| - 1]
      else pts;
    if IsClosed(P) && !IsClosed(pts1) then pts1 + [pts1[0]] else pts1
  }

  /** Clean Polyline (angle greater than): removes points whose turn angle is
      above `a`, then closes up a closed input. */
  method CleanPolylineAbove(C: Option<seq<Point>>, a: real, vectorAngle: (Point, Point) -> real)
    returns (r: Result<seq<Point>>)
    ensures C.None? <==> r == Failure("P must be a polyline")
    ensures C.Some? && |C.value| >= 2 ==>
              r == Success(CloseUp(C.value, Cleaned(C.value, Above(a), vectorAngle), a, vectorAngle))
    ensures C.Some? && |C.value| < 2 ==> r == Success(C.value)
    ensures C.Some? && IsClosed(C.value) ==> r.Success? && |r.value| >= 2 && r.value[0] == r.value[|r.value| - 1]
  {
    if C.None? {
      return Failure("P must be a polyline");
    }
    var P := C.value;
    var drop := Above(a);
    var pts := RemovePoints(P, drop, vectorAngle);
    if |pts| > 2 && IsClosed(P) {
      var lastSegment := Sub(pts[|pts| - 1], pts[|pts| - 2]);
      var firstSegment := Sub(pts[1], pts[0]);
      if vectorAngle(lastSegment, firstSegment) > a {
        ghost var before := pts;
        pts := RemoveAt(pts, |pts| - 1);
        pts := RemoveAt(pts, 0);
        assert pts == before[1..|before| - 1];
      }
    }
    if IsClosed(P) && !IsClosed(pts) {
      pts := pts + [pts[0]];
    }
    r := Success(pts);
  }
}
