/** The few facts about Euclidean remainders that wrap-around navigation needs. */
module Modular {

  lemma MulPos(m: int, n: int)
    requires m >= 1 && n > 0
    ensures m * n >= n
  {
  }

  lemma MulDiff(q: int, q0: int, n: int)
    requires n > 0
    ensures q > q0 ==> q * n >= q0 * n + n
    ensures q < q0 ==> q * n + n <= q0 * n
  {
    if q > q0 {
      assert q * n == (q - q0) * n + q0 * n;
      MulPos(q - q0, n);
    } else if q < q0 {
      assert q0 * n == (q0 - q) * n + q * n;
      MulPos(q0 - q, n);
    }
  }

  /** The remainder is the only `r` in `[0, n)` that differs from `a` by a multiple of `n`. */
  lemma DivModUnique(a: int, n: int, q: int, r: int)
    requires n > 0 && 0 <= r < n && a == q * n + r
    ensures a % n == r
  {
    var q0, r0 := a / n, a % n;
    assert a == q0 * n + r0;
    MulDiff(q, q0, n);
  }

  /** Adding one period does not change a remainder. */
  lemma ModDropPeriod(a: int, n: int)
    requires n > 0
    ensures (a + n) % n == a % n
  {
    var q, r := a / n, a % n;
    assert a + n == (q + 1) * n + r;
    DivModUnique(a + n, n, q + 1, r);
  }

  /** An index shifted by exactly one period wraps back onto itself. */
  lemma WrapOnce(i: nat, n: nat)
    requires i < n
    ensures (i + n) % n == i
  {
    ModDropPeriod(i, n);
    DivModUnique(i, n, 0, i);
  }

  /** Wrapping the left operand first does not change a sum modulo `n`. */
  lemma {:induction false} ModAddLeft(a: nat, b: nat, n: nat)
    requires n > 0
    ensures (a % n + b) % n == (a + b) % n
    decreases a
  {
    if a >= n {
      ModDropPeriod(a - n, n);
      ModDropPeriod(a - n + b, n);
      ModAddLeft(a - n, b, n);
    }
  }
}
