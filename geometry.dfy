/** `Point3d` as a triple of reals and the comparisons the components make on it.
    Distances are compared squared, which orders them as `DistanceTo` does. */
module Geometry {

  datatype Point = Point(x: real, y: real, z: real)

  /** `Line`: a segment from one point to another. */
  datatype Line = Line(from: Point, to: Point)

  function Abs(r: real): real {
    if r < 0.0 then -r else r
  }

  function Sq(r: real): real {
    r * r
  }

  /** `a - b`: the vector from `b` to `a`. */
  function Sub(a: Point, b: Point): Point {
    Point(a.x - b.x, a.y - b.y, a.z - b.z)
  }

  /** The dot product of two position vectors. */
  function Dot(a: Point, b: Point): real {
    a.x * b.x + a.y * b.y + a.z * b.z
  }

  /** Square of the Euclidean distance. */
  function SqDist(p: Point, q: Point): real {
    Sq(p.x - q.x) + Sq(p.y - q.y) + Sq(p.z - q.z)
  }

  lemma PositiveSquare(r: real)
    requires r > 0.0
    ensures r * r > 0.0
  {
  }

  lemma NonZeroSquare(r: real)
    requires r != 0.0
    ensures r * r > 0.0
  {
    if r > 0.0 {
      PositiveSquare(r);
    } else {
      var m := -r;
      PositiveSquare(m);
      assert r * r == m * m;
    }
  }

  /** A square is never negative, and it is zero only for zero.  Each step is
      taken through `calc`, which keeps the nonlinear term apart from the
      definition of `Sq`. */
  lemma SqSign(r: real)
    ensures Sq(r) >= 0.0
    ensures r != 0.0 ==> Sq(r) > 0.0
  {
    if r != 0.0 {
      NonZeroSquare(r);
      calc {
        Sq(r);
      ==
        r * r;
      >
        0.0;
      }
    }
  }

  /** The distance from a point to itself is zero and to any other point
      positive: a point is strictly nearest to itself. */
  lemma SqDistPositive(p: Point, q: Point)
    ensures SqDist(p, p) == 0.0
    ensures SqDist(p, q) >= 0.0
    ensures p != q ==> SqDist(p, q) > 0.0
  {
    SqSign(p.x - q.x);
    SqSign(p.y - q.y);
    SqSign(p.z - q.z);
    assert p.x == q.x && p.y == q.y && p.z == q.z ==> p == q;
  }
}
