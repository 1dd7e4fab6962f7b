// The pseudo-random numbers and 32-bit seed arithmetic of the .NET runtime, as
// the grid components use them.
module RandomDraws {
  /** `new Random(seed).Next(n)`, the first number drawn with a seed: below `n`
      and the same whenever the seed and `n` are. */
  ghost predicate Draws(draw: (int, nat) -> nat) {
    forall seed: int, n: nat :: n > 0 ==> draw(seed, n) < n
  }

  const TwoTo31: int := 0x8000_0000
  const TwoTo32: int := 0x1_0000_0000

  /** Within the range of a 32-bit signed `int`. */
  predicate IsInt32(x: int) {
    -TwoTo31 <= x < TwoTo31
  }

  /** Unchecked 32-bit arithmetic: the value modulo 2^32, read back as signed. */
  function Wrap32(x: int): (r: int)
    ensures IsInt32(r)
    ensures (r - x) % TwoTo32 == 0
    ensures IsInt32(x) ==> r == x
  {
    (x + TwoTo31) % TwoTo32 - TwoTo31
  }

  /** `a / 2` on C# integers: the quotient rounds toward zero, so the remainder
      takes the sign of `a`. */
  function Half(a: int): (r: int)
    ensures 0 <= a ==> 0 <= a - 2 * r <= 1
    ensures a < 0 ==> -1 <= a - 2 * r <= 0
  {
    if a >= 0 then a / 2 else -((-a) / 2)
  }
}
