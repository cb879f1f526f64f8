/** Nonlinear facts about products, quotients and remainders, each proved in isolation. */
module Arithmetic {

  lemma {:induction false} MulMonotone(m: nat, a: int, b: int)
    requires a <= b
    ensures m * a <= m * b
  {
    assert m * (b - a) >= 0;
  }

  lemma MulStrict(m: nat, a: int, b: int)
    requires a < b
    ensures m * a + m <= m * b
  {
    MulMonotone(m, a + 1, b);
    assert m * (a + 1) == m * a + m;
  }

  lemma MulSucc(n: nat, m: nat)
    ensures (n + 1) * m == n * m + m
  {
  }

  /** Quotient and remainder are determined by their defining equation. */
  lemma DivMod(a: int, m: nat, q: int, r: int)
    requires 0 < m && 0 <= r < m && a == m * q + r
    ensures a / m == q && a % m == r
  {
    Bracket(a, m, q);
  }

  lemma Bracket(a: int, m: nat, q: int)
    requires 0 < m && m * q <= a < m * q + m
    ensures a / m == q
  {
    var q' := a / m;
    Quotient(a, m);
    if q < q' {
      MulStrict(m, q, q');
    } else if q' < q {
      MulStrict(m, q', q);
    }
  }

  lemma Quotient(a: int, m: nat)
    requires 0 < m
    ensures m * (a / m) <= a < m * (a / m) + m
    ensures a == m * (a / m) + a % m
  {
  }

  lemma QuotientMonotone(a: int, b: int, m: nat)
    requires 0 < m && a <= b
    ensures a / m <= b / m
  {
    Quotient(a, m);
    Quotient(b, m);
    if b / m < a / m {
      MulStrict(m, b / m, a / m);
    }
  }

  /** Two numbers less than `c` apart with equal remainders are equal. */
  lemma SameRemainder(c: nat, a: nat, b: nat)
    requires 0 < c && a % c == b % c && a < b + c && b < a + c
    ensures a == b
  {
    Quotient(a, c);
    Quotient(b, c);
    if a / c < b / c {
      MulStrict(c, a / c, b / c);
    } else if b / c < a / c {
      MulStrict(c, b / c, a / c);
    }
  }

  lemma RemainderSucc(a: nat, m: nat)
    requires 0 < m
    ensures (a % m + 1) % m == (a + 1) % m
  {
    var r := a % m;
    Quotient(a, m);
    if r + 1 < m {
      DivMod(a + 1, m, a / m, r + 1);
      DivMod(r + 1, m, 0, r + 1);
    } else {
      assert m * (a / m + 1) == m * (a / m) + m;
      DivMod(a + 1, m, a / m + 1, 0);
      DivMod(r + 1, m, 1, 0);
    }
  }
}
