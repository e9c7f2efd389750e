/** Two facts about products and integer division. */
module Arithmetic {
  lemma DivisionBound(n: nat, unit: nat, total: nat)
    requires unit > 0
    ensures n * unit <= total <==> n <= total / unit
  {
    var q := total / unit;
    assert total == q * unit + total % unit;
    if n <= q {
      MulMonotone(n, q, unit);
    } else {
      MulMonotone(q + 1, n, unit);
      assert (q + 1) * unit == q * unit + unit;
    }
  }

  lemma MulMonotone(a: nat, b: nat, unit: nat)
    requires a <= b
    ensures a * unit <= b * unit
  {
    assert b * unit == a * unit + (b - a) * unit;
  }
}
