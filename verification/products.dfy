/** Facts about products that the verifier should not have to rediscover inside larger proofs. */
module Products {

  lemma OneMoreStep(n: int, d: int)
    ensures (n + 1) * d == n * d + d
  {
  }

  lemma ScaleMonotone(a: int, b: int, d: nat)
    requires a <= b
    ensures a * d <= b * d
  {
  }

  lemma StepAtLeastOne(n: int, step: nat)
    requires 0 <= n && step >= 1
    ensures n <= n * step
  {
  }

  lemma ProductBelow(a: int, b: int, bound: int)
    requires 0 <= a <= bound && 0 <= b <= bound
    ensures 0 <= a * b <= bound * bound
  {
    assert a * b <= a * bound;
    assert a * bound <= bound * bound;
  }

  lemma QuotientUnique(a: nat, d: nat, q: nat, r: nat)
    requires d > 0 && a == q * d + r && r < d
    ensures a / d == q && a % d == r
  {
    var p := a / d;
    assert a == p * d + a % d;
    OneMoreStep(p, d);
    OneMoreStep(q, d);
    if p < q {
      ScaleMonotone(p + 1, q, d);
    } else if p > q {
      ScaleMonotone(q + 1, p, d);
    }
  }

  /** Sampling coordinates are exact quotients of the pixel coordinates they came from. */
  lemma DivideExactly(n: nat, d: nat)
    requires d > 0
    ensures n * d / d == n
  {
    var q := n * d / d;
    assert n * d == q * d + n * d % d;
    OneMoreStep(q, d);
    OneMoreStep(n, d);
    if q < n {
      ScaleMonotone(q + 1, n, d);
    } else if q > n {
      ScaleMonotone(n + 1, q, d);
    }
  }
}
