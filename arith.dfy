/** Integer facts that the grid and tree components' index arithmetic rests on. */
module Arith {

  lemma MulNonNeg(x: int, y: int)
    requires x >= 0 && y >= 0
    ensures x * y >= 0
  {
  }

  /** Multiplying by a non-negative factor keeps the order. */
  lemma MulMonotone(a: int, b: int, k: int)
    requires a <= b && k >= 0
    ensures a * k <= b * k
  {
    MulNonNeg(b - a, k);
  }

  /** Division by a positive number is determined by quotient and remainder. */
  lemma DivMod(a: int, b: int, q: int, r: int)
    requires b > 0 && 0 <= r < b && a == q * b + r
    ensures a / b == q && a % b == r
  {
    var q' := a / b;
    if q' > q {
      MulNonNeg(q' - q - 1, b);
      assert false;
    } else if q' < q {
      MulNonNeg(q - q' - 1, b);
      assert false;
    }
  }
}
