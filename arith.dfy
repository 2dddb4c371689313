/** Facts about multiplication and Euclidean division that page arithmetic needs. */
module Arith {

  lemma MulMonotone(x: int, x': int, y: nat)
    requires x <= x'
    ensures x * y <= x' * y
  {
    assert x' * y - x * y == (x' - x) * y;
  }

  lemma DivModParts(x: int, d: int)
    requires d >= 1
    ensures x == (x / d) * d + x % d && 0 <= x % d < d
  {
  }

  /** Euclidean division has one quotient and one remainder. */
  lemma DivUnique(x: int, d: int, q: int, r: int)
    requires d >= 1 && x == q * d + r && 0 <= r < d
    ensures x / d == q && x % d == r
  {
    DivModParts(x, d);
    if x / d < q {
      MulMonotone(x / d + 1, q, d);
      assert false;
    } else if q < x / d {
      MulMonotone(q + 1, x / d, d);
      assert false;
    }
  }
}
