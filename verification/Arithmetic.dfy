/** Facts about products and remainders that the solver does not find alone. */
module Arithmetic {
  lemma MulGap(m: nat, a: nat, b: nat)
    requires a < b
    ensures m * b >= m * a + m
  {
    var c := b - a - 1;
    assert b == a + 1 + c;
    assert m * b == m * (a + 1) + m * c;
  }

  lemma DivUnique(value: nat, m: nat, k: nat, r: nat)
    requires m > 0 && r < m && value == m * k + r
    ensures value % m == r
  {
    var k' := value / m;
    assert value == m * k' + value % m;
    if k > k' {
      MulGap(m, k', k);
    } else if k < k' {
      MulGap(m, k, k');
    }
  }

  lemma DivDiv(value: nat, m: nat, p: nat)
    requires m > 0 && p > 0
    ensures m * p > 0 && value / m / p == value / (m * p)
  {
    var q, r := value / m / p, value / m % p;
    MulGap(m, 0, p);
    assert value / m == p * q + r;
    assert value == m * (p * q + r) + value % m;
    assert m * (p * q + r) == (m * p) * q + m * r;
    MulGap(m, r, p);
    QuotientUnique(value, m * p, q, m * r + value % m);
  }

  lemma QuotientUnique(value: int, m: nat, k: int, r: nat)
    requires r < m && value == m * k + r
    ensures value / m == k
  {
    var k' := value / m;
    assert value == m * k' + value % m;
    assert m * (k - k') == m * k - m * k';
    if k > k' {
      MulGap(m, 0, k - k');
    } else if k < k' {
      MulGap(m, 0, k' - k);
    }
  }
}
