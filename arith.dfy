/** Facts about Euclidean division on naturals used by the partition and
    barrier proofs. */
module Arith {

  /** Division by the quotient and remainder it must produce. */
  lemma DivUnique(n: int, p: int, q: int, r: int)
    requires p > 0 && 0 <= r < p && n == q * p + r
    ensures n / p == q && n % p == r
  {
    var q0, r0 := n / p, n % p;
    assert (q - q0) * p == r0 - r;
    if q0 < q {
      MulAtLeast(q - q0, p);
    } else if q < q0 {
      MulAtLeast(q0 - q, p);
    }
  }

  lemma MulAtLeast(a: int, p: int)
    requires a >= 1 && p > 0
    ensures a * p >= p
  {
  }

  /** Division by a positive number is monotone. */
  lemma DivMonotone(a: nat, b: nat, p: nat)
    requires p > 0 && a <= b
    ensures a / p <= b / p
  {
    var qa, ra := a / p, a % p;
    var qb, rb := b / p, b % p;
    assert a == qa * p + ra && b == qb * p + rb;
    if qa > qb {
      MulAtLeast(qa - qb, p);
    }
  }

  /** Multiplication distributes over a sum on the left factor. */
  lemma MulAddRight(a: int, b: int, h: int)
    ensures (a + b) * h == a * h + b * h
  {
  }

  lemma MulNonneg(a: nat, b: nat)
    ensures a * b >= 0
  {
  }
}
