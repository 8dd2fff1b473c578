/** Facts about quotients and remainders by a variable divisor. */
module Arithmetic {
  lemma QuotientUnique(m: nat, q: nat, r: nat, q': nat, r': nat)
    requires r < m && r' < m
    requires m * q + r == m * q' + r'
    ensures q == q' && r == r'
  {
    if q < q' {
      StepUp(m, q, q');
    } else if q' < q {
      StepUp(m, q', q);
    }
  }

  lemma {:induction false} StepUp(m: nat, low: nat, high: nat)
    requires low < high
    ensures m * low + m <= m * high
    decreases high - low
  {
    if low + 1 < high {
      StepUp(m, low + 1, high);
    }
    assert m * (low + 1) == m * low + m;
  }

  lemma DivModUnique(a: nat, q: nat, r: nat, m: nat)
    requires r < m && a == m * q + r
    ensures a / m == q && a % m == r
  {
    QuotientUnique(m, q, r, a / m, a % m);
  }

  lemma ModMultiple(q: nat, x: nat, m: nat)
    requires m > 0
    ensures (m * q + x) % m == x % m
  {
    assert x == m * (x / m) + x % m;
    assert m * q + m * (x / m) == m * (q + x / m);
    DivModUnique(m * q + x, q + x / m, x % m, m);
  }

  lemma ModOfSum(a: nat, b: nat, m: nat)
    requires m > 0
    ensures (a % m + b) % m == (a + b) % m
  {
    assert a == m * (a / m) + a % m;
    ModMultiple(a / m, a % m + b, m);
  }

  /** Quotient and remainder of the next number. */
  lemma NextDivMod(n: nat, m: nat)
    requires m > 0
    ensures n % m + 1 < m ==> (n + 1) / m == n / m && (n + 1) % m == n % m + 1
    ensures n % m + 1 == m ==> (n + 1) / m == n / m + 1 && (n + 1) % m == 0
  {
    var q, r := n / m, n % m;
    assert n == m * q + r;
    if r + 1 < m {
      DivModUnique(n + 1, q, r + 1, m);
    } else {
      assert m * (q + 1) == m * q + m;
      DivModUnique(n + 1, q + 1, 0, m);
    }
  }

  lemma WrapOnce(x: nat, m: nat)
    requires x < 2 * m
    ensures x % m == if x < m then x else x - m
  {
  }

  lemma LeMul(m: nat, low: nat, high: nat)
    requires low <= high
    ensures m * low <= m * high
  {
  }
}
