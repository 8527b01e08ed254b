/** Division with remainder by a divisor that is not a literal */
module Arith {

  lemma ModIs(p: nat, d: nat, q: nat, r: nat)
    requires d > 0 && p == q * d + r && r < d
    ensures p % d == r
  {
    var k, m := p / d, p % d;
    Multiple(q, k, d, r, m);
  }

  /** Division with remainder is unique. */
  lemma Multiple(q: nat, k: nat, d: nat, r: nat, m: nat)
    requires r < d && m < d && q * d + r == k * d + m
    ensures r == m
  {
    if k < q {
      AtLeastOne(q, k, d);
    } else if q < k {
      AtLeastOne(k, q, d);
    }
  }

  lemma AtLeastOne(q: nat, k: nat, d: nat)
    requires k < q
    ensures q * d >= k * d + d
  {
    var x: nat := q - k - 1;
    assert q * d == k * d + d + x * d by {
      assert q == k + 1 + x;
    }
  }
}
