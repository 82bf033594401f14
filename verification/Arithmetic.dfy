/** The little nonlinear arithmetic the proofs need. */
module Arithmetic {

  /** ALIGN_UP with ALIGN = 16: round up to a multiple. */
  function AlignUp(x: nat): nat { (x + 15) / 16 * 16 }

  lemma AlignUpBounds(x: nat)
    ensures AlignUp(x) % 16 == 0 && x <= AlignUp(x) < x + 16
  {
  }

  lemma MulLe(x: nat, y: nat, k: nat)
    requires x <= y
    ensures x * k <= y * k
  {
  }

  /** Quotient and remainder are unique. */
  lemma DivUnique(x: nat, d: nat, q: nat, r: nat)
    requires r < d && x == q * d + r
    ensures x / d == q && x % d == r
  {
    var q', r' := x / d, x % d;
    assert x == q' * d + r';
    if q' < q {
      MulLe(q' + 1, q, d);
    } else if q < q' {
      MulLe(q + 1, q', d);
    }
  }

  /** `(x + 1) % n` steps from `x % n` to the next residue, wrapping at n. */
  lemma ModNext(x: nat, n: nat)
    requires n > 0
    ensures (x + 1) % n == if x % n + 1 == n then 0 else x % n + 1
  {
    var q, r := x / n, x % n;
    assert x == q * n + r;
    if r + 1 < n {
      DivUnique(x + 1, n, q, r + 1);
    } else {
      assert (q + 1) * n == q * n + n;
      DivUnique(x + 1, n, q + 1, 0);
    }
  }
}
