/** Min–max normalisation of a list of centrality values, as both centrality
    components compute it with `Min()`, `Max()` and a division per value. */
module Normalisation {

  /** An IEEE double as far as the normalisation can produce one: a finite value,
      or what a division by zero gives. */
  datatype Double = Finite(value: real) | NaN | PositiveInfinity | NegativeInfinity

  /** Floating-point division: `0 / 0` is NaN and a non-zero value over zero is an
      infinity of its sign. */
  function Divide(a: real, b: real): (r: Double)
    ensures r.Finite? <==> b != 0.0
    ensures r == NaN <==> a == 0.0 && b == 0.0
  {
    if b != 0.0 then Finite(a / b)
    else if a == 0.0 then NaN
    else if a > 0.0 then PositiveInfinity
    else NegativeInfinity
  }

  /** `Enumerable.Min`: the least element. */
  function Min(s: seq<real>): (m: real)
    requires |s| > 0
    ensures m in s && forall i :: 0 <= i < |s| ==> m <= s[i]
  {
    if |s| == 1 then s[0]
    else
      var rest := Min(s[1..]);
      assert s[1..][0] == s[1];
      if s[0] <= rest then s[0] else rest
  }

  /** `Enumerable.Max`: the greatest element. */
  function Max(s: seq<real>): (m: real)
    requires |s| > 0
    ensures m in s && forall i :: 0 <= i < |s| ==> s[i] <= m
  {
    if |s| == 1 then s[0]
    else
      var rest := Max(s[1..]);
      assert s[1..][0] == s[1];
      if rest <= s[0] then s[0] else rest
  }

  /** `(num - min) / (max - min)` for one value. */
  function Ratio(v: real, min: real, max: real): Double {
    Divide(v - min, max - min)
  }

  /** `(num - min) / (max - min)` for every value. */
  function MinMaxRatio(values: seq<real>): (r: seq<Double>)
    requires |values| > 0
    ensures |r| == |values|
  {
    var min, max := Min(values), Max(values);
    seq(|values|, i requires 0 <= i < |values| => Ratio(values[i], min, max))
  }

  /** Appends `(num - min) / (max - min)` for every value; there is no guard for
      `max == min`. */
  method Normalize(values: seq<real>) returns (normalized: seq<Double>)
    requires |values| > 0
    ensures normalized == MinMaxRatio(values)
  {
    var min := Min(values);
    var max := Max(values);
    normalized := [];
    for k := 0 to |values|
      invariant |normalized| == k
      invariant forall i :: 0 <= i < k ==> normalized[i] == Ratio(values[i], min, max)
    {
      normalized := normalized + [Ratio(values[k], min, max)];
    }
  }

  /** When the values are not all equal, every ratio lies in [0, 1], the minimum maps
      to 0 and the maximum to 1, and no other value does; when they are all equal,
      every ratio is NaN. */
  lemma MinMaxRatioRange(values: seq<real>)
    requires |values| > 0
    ensures Max(values) == Min(values) ==> forall i :: 0 <= i < |values| ==> MinMaxRatio(values)[i] == NaN
    ensures Max(values) > Min(values) ==>
              forall i :: 0 <= i < |values| ==>
                var r := MinMaxRatio(values)[i];
                && r.Finite? && 0.0 <= r.value <= 1.0
                && (values[i] == Min(values) <==> r.value == 0.0)
                && (values[i] == Max(values) <==> r.value == 1.0)
  {
    var min, max := Min(values), Max(values);
    if max > min {
      forall i | 0 <= i < |values|
        ensures var r := Ratio(values[i], min, max);
                && r.Finite? && 0.0 <= r.value <= 1.0
                && (values[i] == min <==> r.value == 0.0)
                && (values[i] == max <==> r.value == 1.0)
      {
        UnitRatio(values[i], min, max);
      }
    }
  }

  /** For `min <= v <= max` with `min < max`, the ratio is finite and lies in [0, 1],
      and is 0 or 1 only at the ends. */
  lemma UnitRatio(v: real, min: real, max: real)
    requires min <= v <= max && min < max
    ensures Ratio(v, min, max).Finite? && 0.0 <= Ratio(v, min, max).value <= 1.0
    ensures Ratio(v, min, max).value == 0.0 <==> v == min
    ensures Ratio(v, min, max).value == 1.0 <==> v == max
  {
    var q := (v - min) / (max - min);
    assert q * (max - min) == v - min;
  }
}
