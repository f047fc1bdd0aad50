/** Division and multiplication by a positive number, where the solver needs help. */
module Arithmetic {

  lemma MulMono(j: int, k: int, p: int)
    requires 0 < p
    ensures j * p < k * p <==> j < k
  {
  }

  lemma Divide(x: int, q: int, p: int, r: int)
    requires 0 <= r < p && x == q * p + r
    ensures x / p == q && x % p == r
  {
    MulMono(x / p, q + 1, p);
    MulMono(q, x / p + 1, p);
    assert (q + 1) * p == q * p + p && (x / p + 1) * p == x / p * p + p;
  }
}
