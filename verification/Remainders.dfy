/** Remainders of products, for the counting and formatting proofs. */
module Remainders {
  lemma RemainderUnique(n: int, d: int, q: int, r: int)
    requires d > 0 && n == d * q + r && 0 <= r < d
    ensures n % d == r
  {
    var q', r' := n / d, n % d;
    assert n == d * q' + r';
    MulStep(d, q, q');
    MulStep(d, q', q);
  }

  lemma MulStep(d: int, a: int, b: int)
    requires d > 0
    ensures a < b ==> d * a + d <= d * b
  {
    if a < b {
      MulAtLeast(d, b - a);
      Distribute(d, a, b);
    }
  }

  lemma {:induction false} MulAtLeast(d: int, k: int)
    requires d > 0 && k >= 1
    ensures d * k >= d
    decreases k
  {
    if k > 1 {
      MulAtLeast(d, k - 1);
      Distribute(d, 1, k);
    }
  }

  lemma Distribute(d: int, a: int, b: int)
    ensures d * (b - a) == d * b - d * a
  {
  }
}
