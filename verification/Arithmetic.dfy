/** Facts about products, quotients and remainders that several models share. */
module Arithmetic {

  function Min(a: nat, b: nat): nat {
    if a < b then a else b
  }

  lemma MulMonotone(x: int, y: int, d: int)
    requires x <= y && d >= 0
    ensures x * d <= y * d
  {
  }

  lemma QuotientUnique(a: int, d: int, q: int, r: int)
    requires 0 <= r < d && a == q * d + r
    ensures a % d == r && a / d == q
  {
    var k := a / d;
    assert a == k * d + a % d;
    var t := k - q;
    assert t * d == k * d - q * d;
    if t >= 1 {
      MulMonotone(1, t, d);
    } else if t <= -1 {
      MulMonotone(t, -1, d);
    }
  }
}
