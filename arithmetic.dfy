/** Facts about multiplication and Euclidean division by a positive divisor. */
module Arithmetic {

  lemma MulMonotone(a: int, b: int, n: int)
    requires a <= b && 0 <= n
    ensures a * n <= b * n
  {
    assert b * n - a * n == (b - a) * n;
  }

  /** q*n + rem with 0 <= rem < n is the only way to split k by n. */
  lemma DivModUnique(k: int, n: int, q: int, rem: int)
    requires 0 < n && 0 <= rem < n
    ensures q * n + rem == k <==> (q == k / n && rem == k % n)
  {
    if q * n + rem == k {
      var q', r' := k / n, k % n;
      assert k == q' * n + r';
      if q < q' {
        assert (q + 1) * n == q * n + n;
        MulMonotone(q + 1, q', n);
      } else if q' < q {
        MulMonotone(q' + 1, q, n);
      }
    }
  }

  /** A point t >= 0 lies in block q of width n exactly when t / n == q. */
  lemma InBlock(t: int, q: int, n: int)
    requires 0 < n && 0 <= t
    ensures (q * n <= t < q * n + n) <==> t / n == q
  {
    if q * n <= t < q * n + n {
      DivModUnique(t, n, q, t - q * n);
    }
    if t / n == q {
      assert t == q * n + t % n;
    }
  }

  /** Below n whole blocks of width b exactly when the block number is below n. */
  lemma BelowBlocks(t: int, n: int, b: int)
    requires 0 < b && 0 <= t
    ensures t / b < n <==> t < n * b
  {
    var q := t / b;
    assert t == q * b + t % b;
    if q < n {
      MulMonotone(q + 1, n, b);
      assert (q + 1) * b == q * b + b;
    } else {
      MulMonotone(n, q, b);
    }
  }

  /** The remainder of b modulo n, taken away from b, leaves a multiple of n. */
  lemma ModCongruent(b: int, n: int)
    requires 0 < n
    ensures (b - b % n) % n == 0
  {
    assert b - b % n == (b / n) * n;
    DivModUnique((b / n) * n, n, b / n, 0);
  }
}
