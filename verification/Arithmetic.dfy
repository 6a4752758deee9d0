/** Facts about products and remainders of natural numbers. */
module Arithmetic {

  lemma {:induction false} Monotone(a: nat, b: nat, d: nat)
    requires a <= b
    ensures a * d <= b * d
    decreases b
  {
    if a < b {
      Monotone(a, b - 1, d);
      assert b * d == (b - 1) * d + d;
    }
  }

  lemma DivisionUnique(q: nat, d: nat, r: nat)
    requires r < d
    ensures (q * d + r) / d == q && (q * d + r) % d == r
  {
    var x := q * d + r;
    var q', r' := x / d, x % d;
    assert x == q' * d + r';
    assert (q + 1) * d == q * d + d && (q' + 1) * d == q' * d + d;
    if q' > q {
      Monotone(q + 1, q', d);
    } else if q' < q {
      Monotone(q' + 1, q, d);
    }
  }

  /** Taking the divisor away once leaves the remainder. */
  lemma ModStep(k: nat, d: nat)
    requires 0 < d <= k
    ensures (k - d) % d == k % d
  {
    var q, r := (k - d) / d, (k - d) % d;
    assert k - d == q * d + r;
    assert k == (q + 1) * d + r;
    DivisionUnique(q + 1, d, r);
  }
}
