/** Small facts of natural-number arithmetic (products, quotients and remainders by a
    variable divisor) that the solver does not find by itself. */
module Arith {

  lemma MulAtLeast(d: int, a: int)
    requires d >= 1 && a > 0
    ensures d * a >= a
  {}

  /** Quotient and remainder are determined by `x == q * a + r` with `0 <= r < a`. */
  lemma DivModUnique(x: int, a: int, q: int, r: int)
    requires a > 0 && 0 <= r < a && x == q * a + r
    ensures x % a == r && x / a == q
  {
    var q', r' := x / a, x % a;
    assert x == q' * a + r';
    assert (q - q') * a == r' - r;
    if q > q' {
      MulAtLeast(q - q', a);
    } else if q < q' {
      MulAtLeast(q' - q, a);
    }
  }

  /** A number with remainder 0 is its quotient times the divisor. */
  lemma DivExact(x: nat, a: nat)
    requires a > 0 && x % a == 0
    ensures x == (x / a) * a
  {}

  /** Every multiple of `a` leaves remainder 0. */
  lemma MultipleMod(k: nat, a: nat)
    requires a > 0
    ensures (k * a) % a == 0 && (k * a) / a == k
  {
    DivModUnique(k * a, a, k, 0);
  }

  /** Adding a multiple of `a` keeps the remainder. */
  lemma ModAddMultiple(x: nat, k: nat, a: nat)
    requires a > 0
    ensures (x + k * a) % a == x % a
  {
    DivModUnique(x + k * a, a, x / a + k, x % a);
  }

  /** A multiple of `b`, where `b` is a multiple of `a`, is a multiple of `a`. */
  lemma ModTransitive(x: nat, b: nat, a: nat)
    requires a > 0 && b > 0 && x % b == 0 && b % a == 0
    ensures x % a == 0
  {
    var k, j := x / b, b / a;
    assert x == k * b;
    assert b == j * a;
    assert x == (k * j) * a;
    MultipleMod(k * j, a);
  }

  /** `k + 1` whole elements of size `a` fit in `n` bytes exactly when `k < n / a`. */
  lemma FitsBelowQuotient(k: nat, a: nat, n: nat)
    requires a > 0
    ensures (k + 1) * a <= n <==> k < n / a
  {
    var q, r := n / a, n % a;
    assert n == q * a + r;
    if k < q {
      MulMonotone(k + 1, q, a);
    } else {
      MulMonotone(q + 1, k + 1, a);
    }
  }

  lemma MulMonotone(i: nat, j: nat, a: nat)
    requires i <= j
    ensures i * a <= j * a
  {
    if i < j {
      assert j * a == i * a + (j - i) * a;
    }
  }

  /** Incrementing a counter kept modulo `a` agrees with incrementing it first. */
  lemma ModSucc(k: nat, a: nat)
    requires a > 0
    ensures (k % a + 1) % a == (k + 1) % a
  {
    var q, r := k / a, k % a;
    if r + 1 < a {
      DivModUnique(k + 1, a, q, r + 1);
      DivModUnique(r + 1, a, 0, r + 1);
    } else {
      DivModUnique(k + 1, a, q + 1, 0);
      DivModUnique(r + 1, a, 1, 0);
    }
  }

  lemma MulSucc(k: nat, a: nat)
    ensures (k + 1) * a == k * a + a
  {}

  lemma MulAssoc(a: nat, b: nat, c: nat)
    ensures a * (b * c) == (a * b) * c
  {}
}
