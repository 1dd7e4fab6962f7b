/** Sequence helpers standing in for the .NET list operations the components use. */
module Seqs {

  datatype Option<T> = None | Some(value: T)

  /** A value, or the message of the error the component reports instead. */
  datatype Result<T> = Success(value: T) | Failure(message: string)

  /** No element occurs twice. */
  predicate Distinct<T(==)>(s: seq<T>) {
    forall i, j :: 0 <= i < j < |s| ==> s[i] != s[j]
  }

  /** `List.Reverse`: the same elements back to front. */
  function Reversed<T>(s: seq<T>): (r: seq<T>)
    ensures |r| == |s|
    ensures forall i :: 0 <= i < |s| ==> r[i] == s[|s| - 1 - i]
  {
    seq(|s|, i requires 0 <= i < |s| => s[|s| - 1 - i])
  }

  lemma ReversedSnoc<T>(s: seq<T>, x: T)
    ensures Reversed(s + [x]) == [x] + Reversed(s)
  {
  }

  /** `Enumerable.Range(0, n)`. */
  function Range(n: nat): (r: seq<nat>)
    ensures |r| == n && forall i :: 0 <= i < n ==> r[i] == i
  {
    seq(n, i requires 0 <= i < n => i)
  }

  /** `s` holds each of 0 .. n-1 exactly once. */
  ghost predicate IsPermutationOfRange(s: seq<nat>, n: nat) {
    |s| == n && multiset(s) == multiset(Range(n))
  }

  /** A permutation of the range holds only in-range values, each once. */
  lemma PermutationOfRangeFacts(s: seq<nat>, n: nat)
    requires IsPermutationOfRange(s, n)
    ensures forall i :: 0 <= i < |s| ==> s[i] < n
    ensures forall i, j :: 0 <= i < j < |s| ==> s[i] != s[j]
  {
    forall i | 0 <= i < |s|
      ensures s[i] < n
    {
      assert s[i] in multiset(s);
      assert s[i] in multiset(Range(n));
    }
    forall i, j | 0 <= i < j < |s|
      ensures s[i] != s[j]
    {
      if s[i] == s[j] {
        var x := s[i];
        assert s == s[..i] + [x] + s[i + 1..];
        assert multiset(s) == multiset(s[..i]) + multiset([x]) + multiset(s[i + 1..]);
        assert s[i + 1..] == s[i + 1..j] + [x] + s[j + 1..];
        assert multiset(s)[x] >= 2;
        RangeCountsOnce(n, x);
        assert false;
      }
    }
  }

  lemma RangeCountsOnce(n: nat, x: nat)
    ensures multiset(Range(n))[x] <= 1
  {
    if n > 0 {
      assert Range(n) == Range(n - 1) + [n - 1];
      RangeCountsOnce(n - 1, x);
      if x == n - 1 {
        assert x !in Range(n - 1);
      }
    }
  }

  /** `List.RemoveAt(i)`: the sequence without its element at `i`. */
  function RemoveAt<T>(s: seq<T>, i: nat): (r: seq<T>)
    requires i < |s|
    ensures |r| == |s| - 1
    ensures forall k :: 0 <= k < |r| ==> r[k] == if k < i then s[k] else s[k + 1]
  {
    s[..i] + s[i + 1..]
  }

  /** `s` is `t` with some elements left out: `s[k]` is `t[idx[k]]` for
      increasing positions `idx`. */
  predicate SubsequenceAt<T(==)>(s: seq<T>, t: seq<T>, idx: seq<nat>) {
    && |idx| == |s|
    && (forall k :: 0 <= k < |idx| ==> idx[k] < |t| && s[k] == t[idx[k]])
    && (forall k, l :: 0 <= k < l < |idx| ==> idx[k] < idx[l])
  }

  /** `Distinct().ToList()`: the first occurrence of each element, in order. */
  function Dedup<T(==,!new)>(s: seq<T>): (r: seq<T>)
    ensures forall x :: x in r <==> x in s
    ensures Distinct(r)
  {
    if s == [] then []
    else
      var r := Dedup(s[..|s| - 1]);
      assert s == s[..|s| - 1] + [s[|s| - 1]];
      if s[|s| - 1] in r then r else r + [s[|s| - 1]]
  }
}
