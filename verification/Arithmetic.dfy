/** Division facts shared by the weight wheel and the page count. */
module Arithmetic {
  /** Quotient and remainder are determined by the division equation. */
  lemma DivisionIsUnique(n: nat, d: nat, q: nat, r: nat)
    requires d > 0 && r < d && n == q * d + r
    ensures n / d == q && n % d == r
  {
    var x := n / d - q;
    assert x * d == r - n % d by {
      assert n == (n / d) * d + n % d;
      assert (n / d - q) * d == (n / d) * d - q * d;
    }
    if x >= 1 {
      assert x * d == (x - 1) * d + d && (x - 1) * d >= 0;
    } else if x <= -1 {
      assert (-x) * d == (-x - 1) * d + d && (-x - 1) * d >= 0;
      assert (-x) * d == -(x * d);
    }
  }
}
