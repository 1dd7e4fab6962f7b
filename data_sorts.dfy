/** The six sorting components of the Data tab. Each one tags every input item
    with its position, sorts the tagged list in place with a comparison, and
    unzips it into the sorted items and the original positions (plus the sort
    keys, for the components that output them). */
module DataSorts {
  import opened Seqs
  import opened Sorting
  import opened Geometry
  import opened Normalisation

  /** `Tuple.Create(n, item)`: an item with the position it had in the input. */
  datatype Entry<T> = Entry(index: nat, item: T)

  /** The input tagged with positions, as the tuple-building loops produce it. */
  function Tagged<T>(items: seq<T>): (r: seq<Entry<T>>)
    ensures |r| == |items|
    ensures forall n :: 0 <= n < |items| ==> r[n] == Entry(n, items[n])
  {
    seq(|items|, n requires 0 <= n < |items| => Entry(n, items[n]))
  }

  function Indices<T>(s: seq<Entry<T>>): (r: seq<nat>)
    ensures |r| == |s| && forall m :: 0 <= m < |s| ==> r[m] == s[m].index
  {
    seq(|s|, m requires 0 <= m < |s| => s[m].index)
  }

  function Items<T>(s: seq<Entry<T>>): (r: seq<T>)
    ensures |r| == |s| && forall m :: 0 <= m < |s| ==> r[m] == s[m].item
  {
    seq(|s|, m requires 0 <= m < |s| => s[m].item)
  }

  /** The tuple loop, the in-place sort and the unzipping loop. The positions come
      out as a permutation of 0 .. n-1, each output item is the input item at the
      position next to it, and the items are in the comparison's order whenever
      the comparison is consistent. */
  method IndexedSort<T(!new)>(items: seq<T>, after: (T, T) -> bool) returns (sorted: seq<T>, index: seq<nat>)
    ensures |sorted| == |items| && IsPermutationOfRange(index, |items|)
    ensures forall m :: 0 <= m < |items| ==> index[m] < |items| && sorted[m] == items[index[m]]
    ensures TotalPreorder(after) ==> Ordered(sorted, after)
  {
    var tagged: seq<Entry<T>> := [];
    for n := 0 to |items|
      invariant tagged == Tagged(items[..n])
    {
      tagged := tagged + [Entry(n, items[n])];
    }
    assert items[..|items|] == items;
    var a := new Entry<T>[|tagged|](i requires 0 <= i < |tagged| => tagged[i]);
    assert a[..] == tagged;
    var byItem := (x: Entry<T>, y: Entry<T>) => after(x.item, y.item);
    Sort(a, byItem);
    sorted, index := [], [];
    for m := 0 to a.Length
      invariant sorted == Items(a[..m]) && index == Indices(a[..m])
    {
      sorted := sorted + [a[m].item];
      index := index + [a[m].index];
    }
    assert a[..a.Length] == a[..];
    EntriesFromInput(a[..], items);
    IndicesPermuted(a[..], Tagged(items));
    assert Indices(Tagged(items)) == Range(|items|);
    if TotalPreorder(after) {
      ByItemConsistent(after);
      ItemsOrdered(a[..], after);
    }
  }

  /** Every tuple of a rearrangement of the tagged input pairs a position with the
      item at that position. */
  lemma EntriesFromInput<T>(s: seq<Entry<T>>, items: seq<T>)
    requires multiset(s) == multiset(Tagged(items))
    ensures forall m :: 0 <= m < |s| ==> s[m].index < |items| && s[m].item == items[s[m].index]
  {
    forall m | 0 <= m < |s|
      ensures s[m].index < |items| && s[m].item == items[s[m].index]
    {
      assert s[m] in multiset(Tagged(items));
      var n :| 0 <= n < |items| && Tagged(items)[n] == s[m];
    }
  }

  /** Rearranging the tuples rearranges their positions alike. */
  lemma {:induction false} IndicesPermuted<T>(s: seq<Entry<T>>, t: seq<Entry<T>>)
    requires multiset(s) == multiset(t)
    ensures multiset(Indices(s)) == multiset(Indices(t))
    decreases |s|
  {
    if s == [] {
      assert |t| == |multiset(t)| == 0;
    } else {
      var x := s[0];
      assert x in multiset(t);
      var i :| 0 <= i < |t| && t[i] == x;
      var rest := t[..i] + t[i + 1..];
      assert t == t[..i] + [x] + t[i + 1..];
      assert s == [x] + s[1..];
      assert multiset(t) == multiset(t[..i]) + multiset{x} + multiset(t[i + 1..]);
      assert multiset(s) == multiset{x} + multiset(s[1..]);
      assert multiset(rest) == multiset(t[..i]) + multiset(t[i + 1..]);
      assert multiset(s[1..]) == multiset(s) - multiset{x} == multiset(t) - multiset{x} == multiset(rest);
      IndicesPermuted(s[1..], rest);
      IndicesAppend([x], s[1..]);
      IndicesAppend(t[..i], t[i + 1..]);
      IndicesAppend(t[..i] + [x], t[i + 1..]);
      IndicesAppend(t[..i], [x]);
    }
  }

  lemma IndicesAppend<T>(a: seq<Entry<T>>, b: seq<Entry<T>>)
    ensures Indices(a + b) == Indices(a) + Indices(b)
  {
  }

  lemma ByItemConsistent<T(!new)>(after: (T, T) -> bool)
    requires TotalPreorder(after)
    ensures TotalPreorder((x: Entry<T>, y: Entry<T>) => after(x.item, y.item))
  {
    var byItem := (x: Entry<T>, y: Entry<T>) => after(x.item, y.item);
    forall x, y | true
      ensures !byItem(x, y) || !byItem(y, x)
    {
      assert !after(x.item, y.item) || !after(y.item, x.item);
    }
    forall x, y, z | !byItem(x, y) && !byItem(y, z)
      ensures !byItem(x, z)
    {
      assert !after(x.item, y.item) && !after(y.item, z.item);
    }
  }

  lemma ItemsOrdered<T>(s: seq<Entry<T>>, after: (T, T) -> bool)
    requires Ordered(s, (x: Entry<T>, y: Entry<T>) => after(x.item, y.item))
    ensures Ordered(Items(s), after)
  {
    var byItem := (x: Entry<T>, y: Entry<T>) => after(x.item, y.item);
    forall i, j | 0 <= i < j < |s|
      ensures !after(Items(s)[i], Items(s)[j])
    {
      assert !byItem(s[i], s[j]);
    }
  }

  // ---------------------------------------------------------------------------
  // SortPointsByX

  /** Sorts the points by X and outputs them with their original positions. */
  method SortPointsByX(P: seq<Point>) returns (pts: seq<Point>, index: seq<nat>)
    ensures |pts| == |P| && IsPermutationOfRange(index, |P|)
    ensures forall m :: 0 <= m < |P| ==> index[m] < |P| && pts[m] == P[index[m]]
    ensures SortedBy(pts, (p: Point) => p.x)
  {
    var x := (p: Point) => p.x;
    pts, index := IndexedSort(P, ByKey(x));
    ByKeyOrdered(x, pts);
  }

  // ---------------------------------------------------------------------------
  // SortPointsByZ

  /** The comparison `a.X.CompareTo(b.Z) > 0` the component sorts with. */
  function XAgainstZ(): (after: (Point, Point) -> bool) {
    (a: Point, b: Point) => a.x > b.z
  }

  /** Sorts with the comparison as written: the output is still the input
      rearranged, with the original positions, but nothing is promised about the
      order of its Z coordinates. */
  method SortPointsByZ(P: seq<Point>) returns (pts: seq<Point>, index: seq<nat>)
    ensures |pts| == |P| && IsPermutationOfRange(index, |P|)
    ensures forall m :: 0 <= m < |P| ==> index[m] < |P| && pts[m] == P[index[m]]
  {
    pts, index := IndexedSort(P, XAgainstZ());
  }

  /** The comparison as written is not an ordering: a point whose X exceeds its own
      Z is put after itself, and a list the comparison accepts as sorted can have
      decreasing Z coordinates. */
  lemma XAgainstZMisorders()
    ensures !TotalPreorder(XAgainstZ())
    ensures var p, q := Point(0.0, 0.0, 1.0), Point(2.0, 0.0, 0.0);
            Ordered([p, q], XAgainstZ()) && !SortedBy([p, q], (r: Point) => r.z)
  {
    var a := Point(1.0, 0.0, 0.0);
    assert XAgainstZ()(a, a);
    var p, q := Point(0.0, 0.0, 1.0), Point(2.0, 0.0, 0.0);
    assert [p, q][0] == p && [p, q][1] == q;
  }

  /** The evidently intended component: sorting by Z. */
  method SortPointsByZIntended(P: seq<Point>) returns (pts: seq<Point>, index: seq<nat>)
    ensures |pts| == |P| && IsPermutationOfRange(index, |P|)
    ensures forall m :: 0 <= m < |P| ==> index[m] < |P| && pts[m] == P[index[m]]
    ensures SortedBy(pts, (p: Point) => p.z)
  {
    var z := (p: Point) => p.z;
    pts, index := IndexedSort(P, ByKey(z));
    ByKeyOrdered(z, pts);
  }

  // ---------------------------------------------------------------------------
  // SortByDistance

  /** Distances from `C` (`C.DistanceTo`, a square root, is the parameter
      `distance`), then the `(distance, index, point)` tuples sorted by distance
      and unzipped into three lists. */
  method SortByDistance(P: seq<Point>, C: Point, distance: (Point, Point) -> real)
    returns (points: seq<Point>, distances: seq<real>, indexes: seq<nat>)
    ensures |points| == |distances| == |P| && IsPermutationOfRange(indexes, |P|)
    ensures forall m :: 0 <= m < |P| ==> && indexes[m] < |P| && points[m] == P[indexes[m]]
                                         && distances[m] == distance(C, P[indexes[m]])
    ensures forall i, j :: 0 <= i < j < |distances| ==> distances[i] <= distances[j]
  {
    var measured: seq<(Point, real)> := [];
    for j := 0 to |P|
      invariant |measured| == j
      invariant forall k :: 0 <= k < j ==> measured[k] == (P[k], distance(C, P[k]))
    {
      measured := measured + [(P[j], distance(C, P[j]))];
    }
    var byDistance := (e: (Point, real)) => e.1;
    var sorted;
    sorted, indexes := IndexedSort(measured, ByKey(byDistance));
    ByKeyOrdered(byDistance, sorted);
    points := seq(|sorted|, m requires 0 <= m < |sorted| => sorted[m].0);
    distances := seq(|sorted|, m requires 0 <= m < |sorted| => sorted[m].1);
  }

  // ---------------------------------------------------------------------------
  // SortByVector

  /** `Vector3d.Unitize`: the vector divided by its length (a square root, the
      parameter `length`); a zero-length vector cannot be unitised and stays as it
      is. */
  function Unitize(v: Point, length: Point -> real): (u: Point)
    ensures length(v) == 0.0 ==> u == v
  {
    if length(v) == 0.0 then v
    else Point(v.x / length(v), v.y / length(v), v.z / length(v))
  }

  /** `ScalarProjection(A, B)`: the dot product over the length of `B`, a double
      division, so NaN or an infinity when `B` has length zero. */
  function ScalarProjection(a: Point, b: Point, length: Point -> real): (r: Double)
    ensures r.Finite? <==> length(b) != 0.0
    ensures length(b) != 0.0 ==> r.value * length(b) == Dot(a, b)
  {
    Divide(Dot(a, b), length(b))
  }

  /** The position of a double in `double.CompareTo`'s order: NaN first, then
      negative infinity, the finite values, positive infinity. */
  function Rank(d: Double): nat {
    match d
    case NaN => 0
    case NegativeInfinity => 1
    case Finite(_) => 2
    case PositiveInfinity => 3
  }

  /** `a.CompareTo(b) > 0` on doubles. */
  function DoubleAfter(): (after: (Double, Double) -> bool) {
    (a: Double, b: Double) => Rank(a) > Rank(b) || (a.Finite? && b.Finite? && a.value > b.value)
  }

  /** Comparing doubles orders them consistently, NaN included. */
  lemma DoubleOrderConsistent()
    ensures TotalPreorder(DoubleAfter())
  {
    var after := DoubleAfter();
    forall x, y, z | !after(x, y) && !after(y, z)
      ensures !after(x, z)
    {
      assert Rank(x) <= Rank(y) <= Rank(z);
    }
  }

  /** The reference vector is unitised, each point's scalar projection onto it is
      its key, and the `(index, point, key)` tuples are sorted by key. */
  method SortByVector(P: seq<Point>, V: Point, length: Point -> real)
    returns (pointsSorted: seq<Point>, index: seq<nat>, ghost keys: seq<Double>)
    ensures |pointsSorted| == |keys| == |P| && IsPermutationOfRange(index, |P|)
    ensures forall m :: 0 <= m < |P| ==> && index[m] < |P| && pointsSorted[m] == P[index[m]]
                                         && keys[m] == ScalarProjection(P[index[m]], Unitize(V, length), length)
    ensures Ordered(keys, DoubleAfter())
  {
    var U := Unitize(V, length);
    var projected: seq<Double> := [];
    for j := 0 to |P|
      invariant |projected| == j
      invariant forall k :: 0 <= k < j ==> projected[k] == ScalarProjection(P[k], U, length)
    {
      projected := projected + [ScalarProjection(P[j], U, length)];
    }
    var byKey := (e: (Point, Double)) => e.1;
    var tuples := seq(|P|, n requires 0 <= n < |P| => (P[n], projected[n]));
    var after := (x: (Point, Double), y: (Point, Double)) => DoubleAfter()(x.1, y.1);
    var sorted;
    sorted, index := IndexedSort(tuples, after);
    DoubleOrderConsistent();
    KeyOrderConsistent(DoubleAfter(), byKey);
    pointsSorted := seq(|sorted|, m requires 0 <= m < |sorted| => sorted[m].0);
    keys := seq(|sorted|, m requires 0 <= m < |sorted| => sorted[m].1);
    forall i, j | 0 <= i < j < |keys|
      ensures !DoubleAfter()(keys[i], keys[j])
    {
      assert !after(sorted[i], sorted[j]);
    }
  }

  /** Comparing by a key keeps a consistent comparison of the keys consistent. */
  lemma KeyOrderConsistent<K(!new), T(!new)>(after: (K, K) -> bool, key: T -> K)
    requires TotalPreorder(after)
    ensures TotalPreorder((x: T, y: T) => after(key(x), key(y)))
  {
    var byKey := (x: T, y: T) => after(key(x), key(y));
    forall x, y | true
      ensures !byKey(x, y) || !byKey(y, x)
    {
      assert !after(key(x), key(y)) || !after(key(y), key(x));
    }
    forall x, y, z | !byKey(x, y) && !byKey(y, z)
      ensures !byKey(x, z)
    {
      assert !after(key(x), key(y)) && !after(key(y), key(z));
    }
  }

  // ---------------------------------------------------------------------------
  // SortByLength

  /** Curves with their lengths (`GetLength`, the parameter `length`) as
      `(index, curve, length)` tuples sorted by length and unzipped. */
  method SortByLength<Crv(!new)>(C: seq<Crv>, length: Crv -> real)
    returns (crvs: seq<Crv>, lengths: seq<real>, index: seq<nat>)
    ensures |crvs| == |lengths| == |C| && IsPermutationOfRange(index, |C|)
    ensures forall m :: 0 <= m < |C| ==> && index[m] < |C| && crvs[m] == C[index[m]]
                                         && lengths[m] == length(C[index[m]])
    ensures forall i, j :: 0 <= i < j < |lengths| ==> lengths[i] <= lengths[j]
  {
    var measured := seq(|C|, n requires 0 <= n < |C| => (C[n], length(C[n])));
    var byLength := (e: (Crv, real)) => e.1;
    var sorted;
    sorted, index := IndexedSort(measured, ByKey(byLength));
    ByKeyOrdered(byLength, sorted);
    crvs := seq(|sorted|, m requires 0 <= m < |sorted| => sorted[m].0);
    lengths := seq(|sorted|, m requires 0 <= m < |sorted| => sorted[m].1);
  }

  // ---------------------------------------------------------------------------
  // SortCurveByX

  /** The curves sorted by the X coordinate of their point at length `t`
      (`PointAtLength(t).X`, the parameter `xAt`). `t` must be non-negative and
      within every curve's length (`GetLength`, the parameter `length`). */
  method SortCurveByX<Crv(!new)>(C: seq<Crv>, t: real, length: Crv -> real, xAt: (Crv, real) -> real)
    returns (r: Result<(seq<Crv>, seq<nat>)>)
    ensures r.Failure? <==> t < 0.0 || exists j :: 0 <= j < |C| && t > length(C[j])
    ensures t < 0.0 ==> r == Failure("t must be postive")
    ensures r.Failure? && t >= 0.0 ==> r == Failure("t must be inside the curve range")
    ensures r.Success? ==> var (crvs, index) := r.value;
              && |crvs| == |C| && IsPermutationOfRange(index, |C|)
              && (forall m :: 0 <= m < |C| ==> index[m] < |C| && crvs[m] == C[index[m]])
              && SortedBy(crvs, (c: Crv) => xAt(c, t))
  {
    if t < 0.0 {
      return Failure("t must be postive");
    }
    for j := 0 to |C|
      invariant forall k :: 0 <= k < j ==> t <= length(C[k])
    {
      if t > length(C[j]) {
        return Failure("t must be inside the curve range");
      }
    }
    var x := (c: Crv) => xAt(c, t);
    var crvs, index := IndexedSort(C, ByKey(x));
    ByKeyOrdered(x, crvs);
    r := Success((crvs, index));
  }
}
