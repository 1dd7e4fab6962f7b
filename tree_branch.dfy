// The Tree Branch component: picks one branch of a data tree by index,
// wrapping the index around the number of branches.
module TreeBranch {
  import opened Seqs
  import opened Arith

  /** One branch of a data tree: its path and its items. */
  datatype Branch<T> = Branch(path: seq<nat>, items: seq<T>)

  /** `idx % T.PathCount` with a non-negative `idx`; C#'s remainder and Dafny's
      agree when both operands are non-negative. A tree with no paths makes the
      remainder throw. */
  function Select<T>(tree: seq<Branch<T>>, idx: int): (r: Result<Branch<T>>)
    ensures idx < 0 ==> r == Failure("Index must be postive")
    ensures idx >= 0 && |tree| == 0 ==> r == Failure("DivideByZeroException")
    ensures r.Success? <==> idx >= 0 && |tree| > 0
    ensures r.Success? ==> exists n :: 0 <= n < |tree| && r.value == tree[n] && (idx - n) % |tree| == 0
  {
    if idx < 0 then Failure("Index must be postive")
    else if |tree| == 0 then Failure("DivideByZeroException")
    else
      var n := idx % |tree|;
      DivMod(idx - n, |tree|, idx / |tree|, 0);
      assert 0 <= n < |tree| && (idx - n) % |tree| == 0;
      Success(tree[n])
  }

  /** An index below the branch count picks that branch. */
  lemma SelectInRange<T>(tree: seq<Branch<T>>, idx: int)
    requires 0 <= idx < |tree|
    ensures Select(tree, idx) == Success(tree[idx])
  {
  }

  /** `idx` and `idx + PathCount` pick the same branch. */
  lemma SelectWraps<T>(tree: seq<Branch<T>>, idx: int)
    requires idx >= 0 && |tree| > 0
    ensures Select(tree, idx + |tree|) == Select(tree, idx)
  {
    var k := |tree|;
    DivMod(idx + k, k, idx / k + 1, idx % k);
  }
}
