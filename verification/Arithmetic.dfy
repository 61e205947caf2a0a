/** Quotients and remainders are unique. */
module Arithmetic {
  lemma Small(d: int, k: int)
    requires d > 0 && -d < d * k < d
    ensures k == 0
  {}

  lemma DivModUnique(v: int, d: int, q: int, r: int)
    requires d > 0 && v == d * q + r && 0 <= r < d
    ensures v / d == q && v % d == r
  {
    var k := v / d - q;
    assert d * k == d * (v / d) - d * q == r - v % d;
    Small(d, k);
  }
}
