/** Facts about multiplication and division that the solver needs spelled out. */
module Arithmetic {
  lemma MulMonotone(a: nat, b: nat, m: nat)
    requires a <= b
    ensures a * m <= b * m
  {
  }

  lemma UniqueRemainder(a: nat, m: nat, q: nat, r: nat)
    requires 0 < m && r < m && a == q * m + r
    ensures a / m == q && a % m == r
  {
    var other := a / m;
    assert other * m + a % m == q * m + r;
    if other < q {
      MulMonotone(other + 1, q, m);
    }
    if q < other {
      MulMonotone(q + 1, other, m);
    }
  }

  lemma RemainderOfNegative(a: int, m: int)
    requires 0 < m && 0 <= a + m && a < 0
    ensures a % m == a + m
  {
  }
}
