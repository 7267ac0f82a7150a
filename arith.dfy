/** Arithmetic facts shared by the sub-sampler and the instance counter. */
module Arith {

  /** Multiplying by the same natural number keeps the order. */
  lemma MulMonotone(a: nat, c: nat, b: nat)
    requires a <= c
    ensures a * b <= c * b
  {
  }

  /** The floor quotient q of c by w satisfies q * w <= c < (q + 1) * w. */
  lemma DivBounds(c: nat, w: nat)
    requires w > 0
    ensures (c / w) * w <= c < (c / w + 1) * w
  {
    assert c == (c / w) * w + c % w;
    assert (c / w + 1) * w == (c / w) * w + w;
  }

  /** A count of at most n * w gives a quotient of at most n. */
  lemma DivAtMost(c: nat, w: nat, n: nat)
    requires w > 0 && c <= n * w
    ensures c / w <= n
  {
    DivBounds(c, w);
    if c / w > n {
      MulMonotone(n + 1, c / w, w);
    }
  }

  /** n * w divided by w is n. */
  lemma DivOfMultiple(n: nat, w: nat)
    requires w > 0
    ensures (n * w) / w == n
  {
    DivBounds(n * w, w);
    DivAtMost(n * w, w, n);
    if (n * w) / w < n {
      MulMonotone((n * w) / w + 1, n, w);
    }
  }
}
