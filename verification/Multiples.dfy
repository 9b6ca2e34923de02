/** Products and quotients. */
module Multiples {
  lemma MulLe(a: int, b: int, r: nat)
    requires a <= b
    ensures a * r <= b * r
  {
    assert (b - a) * r >= 0;
  }

  lemma DivExact(r: nat, q: nat, s: nat)
    requires s < r
    ensures (q * r + s) / r == q && (q * r + s) % r == s
  {
    if (q * r + s) / r < q {
      MulLe((q * r + s) / r + 1, q, r);
    } else if (q * r + s) / r > q {
      MulLe(q + 1, (q * r + s) / r, r);
    }
  }
}
