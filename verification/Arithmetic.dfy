/** Division facts that the solver does not find by itself. */
module Arithmetic {
  lemma {:induction false} AtLeast(d: nat, a: nat, b: nat)
    requires a < b
    ensures d * b >= d * a + d
    decreases b
  {
    assert d * b == d * (b - 1) + d;
    if a + 1 < b { AtLeast(d, a, b - 1); }
  }

  lemma DivUnique(x: nat, d: nat, q: nat, r: nat)
    requires x == d * q + r && r < d
    ensures x / d == q && x % d == r
  {
    var q' := x / d;
    assert x == d * q' + x % d;
    if q' < q {
      AtLeast(d, q', q);
    } else if q < q' {
      AtLeast(d, q, q');
    }
  }
}
