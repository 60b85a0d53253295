/** Division with remainder, where the divisor is not a constant. */
module Remainders {

  lemma MulMonotone(a: nat, b: nat, n: nat)
    requires a <= b
    ensures a * n <= b * n
  {
    assert b * n == a * n + (b - a) * n;
  }

  lemma SameRun(n: nat, a: nat, b: nat, x: nat)
    requires a * n <= x < a * n + n && b * n <= x < b * n + n
    ensures a == b
  {
    if a < b {
      MulMonotone(a + 1, b, n);
    } else if b < a {
      MulMonotone(b + 1, a, n);
    }
  }

  lemma NextRemainder(x: nat, n: nat)
    requires n > 0
    ensures (x + 1) % n == if x % n == n - 1 then 0 else x % n + 1
  {
    var q, r := x / n, x % n;
    assert x == q * n + r;
    if r == n - 1 {
      assert x + 1 == (q + 1) * n;
      Remainder(q + 1, n, 0);
    } else {
      Remainder(q, n, r + 1);
    }
  }

  lemma Remainder(q: nat, n: nat, r: nat)
    requires r < n
    ensures (q * n + r) % n == r
  {
    var x := q * n + r;
    SameRun(n, q, x / n, x);
  }

  lemma Rounding(x: nat, n: nat)
    requires n > 0
    ensures x % n % n == x % n
  {
    Remainder(0, n, x % n);
  }

  /** Adding one before or after taking the remainder is the same. */
  lemma NextAround(x: nat, n: nat)
    requires n > 0
    ensures (x % n + 1) % n == (x + 1) % n
  {
    NextRemainder(x, n);
    NextRemainder(x % n, n);
    Rounding(x, n);
  }

  /** Two numbers less than n apart have the same remainder only when they are equal. */
  lemma SameRemainder(a: nat, b: nat, n: nat)
    requires n > 0 && a <= b < a + n && a % n == b % n
    ensures a == b
  {
    var q, p := a / n, b / n;
    assert a == q * n + a % n && b == p * n + b % n;
    assert q * n <= p * n < q * n + n;
    SameRun(n, q, p, p * n);
  }
}
