/** Division and remainder, from multiplication by small steps. */
module Arithmetic {

  lemma MulAtLeast(b: int, d: int)
    requires b > 0 && d >= 1
    ensures b * d >= b
  {
  }

  /** Quotient and remainder are the only numbers with their property. */
  lemma DivModUnique(a: int, b: int, q: int, r: int)
    requires a == b * q + r && 0 <= r < b
    ensures a / b == q && a % b == r
  {
    var d := a / b - q;
    assert b * d == r - a % b by {
      assert b * (a / b) == b * q + b * d;
    }
    if d >= 1 {
      MulAtLeast(b, d);
    } else if d <= -1 {
      MulAtLeast(b, -d);
    }
  }

  lemma QuotientBelow(a: nat, b: nat)
    requires b > 0
    ensures a / b <= a
  {
    var q := a / b;
    assert a == b * q + a % b;
    if q >= 1 {
      assert b * q == q * b;
      MulAtLeast(q, b);
    }
  }

  lemma RemainderOfSum(a: int, k: int, m: int)
    requires m > 0
    ensures (a + k * m) % m == a % m
  {
    var q, r := a / m, a % m;
    Distribute(m, q, k);
    assert a + k * m == m * (q + k) + r by {
      assert a == m * q + r && k * m == m * k;
    }
    DivModUnique(a + k * m, m, q + k, r);
  }

  lemma Distribute(m: int, a: int, b: int)
    ensures m * (a + b) == m * a + m * b
  {
  }

  lemma Doubles(a: int, b: int)
    ensures a * (2 * b) == (2 * a) * b
  {
    Distribute(a, b, b);
    assert 2 * a == a + a;
    assert (a + a) * b == a * b + a * b;
  }

  lemma MulMonotone(a: nat, b: nat, c: nat)
    requires a <= b
    ensures a * c <= b * c
  {
  }

  /** A factor fits exactly if it is at most the quotient. */
  lemma FactorFits(n: nat, k: nat, m: nat)
    requires k > 0
    ensures n <= m / k <==> n * k <= m
  {
    var q := m / k;
    assert m == k * q + m % k && k * q == q * k;
    if n <= q {
      MulMonotone(n, q, k);
    } else {
      MulMonotone(q + 1, n, k);
      Distribute(k, q, 1);
      assert (q + 1) * k == k * (q + 1) == k * q + k;
    }
  }

  /** Two multiples of m that are less than m apart are equal. */
  lemma CloseMultiples(a: int, b: int, m: int)
    requires m > 0 && a % m == 0 && b % m == 0 && -m < a - b < m
    ensures a == b
  {
    var j, k := a / m, b / m;
    assert a == m * j && b == m * k;
    var d := j - k;
    Distribute(m, k, d);
    if d >= 1 {
      MulAtLeast(m, d);
    } else if d <= -1 {
      MulAtLeast(m, -d);
      Distribute(m, d, -d);
    }
  }
}
