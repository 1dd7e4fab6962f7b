/** The in-place sorts of the components (`List.Sort`, `Array.Sort` with a
    comparison), modelled once as an insertion sort driven by the comparison. */
module Sorting {

  /** `after(x, y)` is `Compare(x, y) > 0`: the comparison puts `x` after `y`.
      It orders consistently when "not after" is total and transitive. */
  ghost predicate TotalPreorder<T(!new)>(after: (T, T) -> bool) {
    && (forall x, y :: !after(x, y) || !after(y, x))
    && (forall x, y, z :: !after(x, y) && !after(y, z) ==> !after(x, z))
  }

  /** No element is put after a later one. */
  ghost predicate Ordered<T>(s: seq<T>, after: (T, T) -> bool) {
    forall i, j :: 0 <= i < j < |s| ==> !after(s[i], s[j])
  }

  /** The comparison `key(x).CompareTo(key(y)) > 0`. */
  function ByKey<T>(key: T -> real): (after: (T, T) -> bool) {
    (x: T, y: T) => key(x) > key(y)
  }

  /** The keys of `s` never decrease. */
  ghost predicate SortedBy<T>(s: seq<T>, key: T -> real) {
    forall i, j :: 0 <= i < j < |s| ==> key(s[i]) <= key(s[j])
  }

  /** Comparing by a real key orders consistently, and then "ordered" means the keys
      never decrease. */
  lemma ByKeyOrdered<T(!new)>(key: T -> real, s: seq<T>)
    ensures TotalPreorder(ByKey(key))
    ensures Ordered(s, ByKey(key)) <==> SortedBy(s, key)
  {
    var after := ByKey(key);
    forall x, y, z | !after(x, y) && !after(y, z)
      ensures !after(x, z)
    {
      assert key(x) <= key(y) <= key(z);
    }
    if Ordered(s, after) {
      forall i, j | 0 <= i < j < |s|
        ensures key(s[i]) <= key(s[j])
      {
        assert !after(s[i], s[j]);
      }
    }
  }

  /** Sorts `a` in place by `after`. The result is always a permutation; it is
      ordered whenever the comparison is consistent. */
  method Sort<T(!new)>(a: array<T>, after: (T, T) -> bool)
    modifies a
    ensures multiset(a[..]) == multiset(old(a[..]))
    ensures TotalPreorder(after) ==> Ordered(a[..], after)
  {
    ghost var consistent := TotalPreorder(after);
    var i := 0;
    while i < a.Length
      invariant 0 <= i <= a.Length
      invariant multiset(a[..]) == multiset(old(a[..]))
      invariant consistent ==> Ordered(a[..i], after)
    {
      Insert(a, i, after, consistent);
      i := i + 1;
    }
    assert a[..a.Length] == a[..];
  }

  /** Moves `a[i]` left past every element that the comparison puts after it. */
  method Insert<T(!new)>(a: array<T>, i: nat, after: (T, T) -> bool, ghost consistent: bool)
    modifies a
    requires i < a.Length
    requires consistent ==> TotalPreorder(after) && Ordered(a[..i], after)
    ensures multiset(a[..]) == multiset(old(a[..]))
    ensures consistent ==> Ordered(a[..i + 1], after)
  {
    var j := i;
    while j > 0 && after(a[j - 1], a[j])
      invariant 0 <= j <= i
      invariant multiset(a[..]) == multiset(old(a[..]))
      invariant consistent ==> TotalPreorder(after) && Gap(a[..], i, j, after)
    {
      ghost var s := a[..];
      Swap(a, j);
      if consistent {
        GapStep(s, a[..], i, j, after);
      }
      j := j - 1;
    }
    if consistent {
      GapClosed(a[..], i, j, after);
    }
  }

  /** Exchanges `a[j - 1]` and `a[j]`. */
  method Swap<T>(a: array<T>, j: nat)
    modifies a
    requires 0 < j < a.Length
    ensures a[..] == old(a[..])[j - 1 := old(a[j])][j := old(a[j - 1])]
    ensures multiset(a[..]) == multiset(old(a[..]))
  {
    a[j - 1], a[j] := a[j], a[j - 1];
  }

  /** While `s[j]` is being moved left: every pair not involving position `j` is in
      order, and `s[j]` is not after anything to its right. */
  ghost predicate Gap<T>(s: seq<T>, i: nat, j: nat, after: (T, T) -> bool) {
    && j <= i < |s|
    && (forall k, l :: 0 <= k < l <= i && k != j && l != j ==> !after(s[k], s[l]))
    && (forall l :: j < l <= i ==> !after(s[j], s[l]))
  }

  lemma GapStep<T(!new)>(s: seq<T>, s': seq<T>, i: nat, j: nat, after: (T, T) -> bool)
    requires TotalPreorder(after) && Gap(s, i, j, after) && 0 < j && after(s[j - 1], s[j])
    requires s' == s[j - 1 := s[j]][j := s[j - 1]]
    ensures Gap(s', i, j - 1, after)
  {
    assert !after(s[j], s[j - 1]);
  }

  lemma GapClosed<T(!new)>(s: seq<T>, i: nat, j: nat, after: (T, T) -> bool)
    requires TotalPreorder(after) && Gap(s, i, j, after)
    requires j == 0 || !after(s[j - 1], s[j])
    ensures Ordered(s[..i + 1], after)
  {
    forall k, l | 0 <= k < l <= i
      ensures !after(s[k], s[l])
    {
      if l == j && k < j - 1 {
        assert !after(s[k], s[j - 1]);
      }
    }
  }
}
