/** Facts about Euclidean division on naturals, used where the source
    extracts bit fields with shifts and masks. */
module Arith {

  lemma {:induction false} MulAtLeast(a: nat, n: nat)
    requires a >= 1
    ensures a * n >= n
  {
    if a > 1 {
      MulAtLeast(a - 1, n);
      assert a * n == (a - 1) * n + n;
    }
  }

  lemma MulSucc(w: nat, n: nat)
    ensures w * (n + 1) == w * n + w
  {
  }

  /** Quotient and remainder are the only pair that rebuilds `x`. */
  lemma DivModUnique(x: int, n: int, q: int, r: int)
    requires 0 < n && 0 <= r < n && x == q * n + r
    ensures x % n == r && x / n == q
  {
    var q0, r0 := x / n, x % n;
    assert q0 * n + r0 == q * n + r;
    if q > q0 {
      MulAtLeast(q - q0, n);
    } else if q < q0 {
      MulAtLeast(q0 - q, n);
    }
  }

  lemma {:induction false} MulMonotone(a: nat, b: nat, n: nat)
    requires a <= b
    ensures a * n <= b * n
    decreases b - a
  {
    if a < b {
      MulMonotone(a, b - 1, n);
      assert b * n == (b - 1) * n + n;
    }
  }

  /** The quotient by `n` is below `c` exactly when the dividend is below
      `c * n`. */
  lemma DivBelow(p: nat, n: nat, c: nat)
    requires n > 0
    ensures p < c * n <==> p / n < c
  {
    if p / n >= c {
      MulMonotone(c, p / n, n);
    } else if c > 0 {
      MulMonotone(p / n, c - 1, n);
      assert (c - 1) * n + n == c * n;
    }
  }
}
