/** Division facts used by the allocator, the hash and the statistics. */
module Arithmetic {

  lemma MulAtLeast(k: int, d: int)
    requires k >= 1 && d > 0
    ensures k * d >= d
  {
    assert (k - 1) * d >= 0;
  }

  /** Quotient and remainder are unique. */
  lemma DivUnique(z: int, d: int, q: int, r: int)
    requires d > 0 && 0 <= r < d && z == q * d + r
    ensures z / d == q && z % d == r
  {
    var k, r' := z / d - q, z % d;
    assert k * d == r - r' by {
      assert z == (z / d) * d + r';
      assert k * d == (z / d) * d - q * d;
    }
    assert (-k) * d == -(k * d);
    if k >= 1 {
      MulAtLeast(k, d);
    } else if k <= -1 {
      MulAtLeast(-k, d);
    }
  }
}
