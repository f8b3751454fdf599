/** Products and remainders: the few nonlinear facts the layout arithmetic needs. */
module Arithmetic {
  lemma MulMonotone(a: int, b: int, m: nat)
    requires a <= b
    ensures a * m <= b * m
  {
    assert b * m - a * m == (b - a) * m;
  }

  lemma MulSucc(a: int, m: int)
    ensures (a + 1) * m == a * m + m
  {}

  /** A multiple of `m` smaller than `m` in size is zero. */
  lemma SmallMultiple(d: int, m: int)
    requires -m < d * m < m
    ensures d == 0
  {
    if d >= 1 {
      MulMonotone(1, d, m);
    } else if d <= -1 {
      MulMonotone(d, -1, m);
    }
  }

  /** Quotient and remainder are unique. */
  lemma DivModUnique(x: int, k: int, m: nat, o: nat)
    requires o < m && x == k * m + o
    ensures x / m == k && x % m == o
  {
    var q := x / m;
    assert x == q * m + x % m;
    assert (k - q) * m == k * m - q * m;
    SmallMultiple(k - q, m);
  }

  lemma QuotientBound(x: nat, m: nat)
    requires m > 0
    ensures 0 <= x / m <= x
  {
    var q := x / m;
    assert x == q * m + x % m;
    if q < 0 {
      MulMonotone(q, -1, m);
    } else {
      MulMonotone(1, m, q);
      assert m * q == q * m;
    }
  }

  /** Scaling both sides of a remainder. */
  lemma ScaledRemainder(s: int, m: nat, c: nat)
    requires m > 0 && c > 0 && m * c > 0
    ensures s * c % (m * c) == (s % m) * c
  {
    var q := s / m;
    assert s == q * m + s % m;
    assert s * c == q * (m * c) + (s % m) * c;
    MulMonotone(s % m, m - 1, c);
    MulSucc(m - 1, c);
    DivModUnique(s * c, q, m * c, (s % m) * c);
  }

  lemma MultipleMod(k: int, m: nat)
    requires m > 0
    ensures k * m % m == 0
  {
    DivModUnique(k * m, k, m, 0);
  }

  lemma AddMultiples(a: int, b: int, m: nat)
    requires m > 0 && a % m == 0 && b % m == 0
    ensures (a + b) % m == 0
  {
    assert a + b == (a / m + b / m) * m + 0;
    DivModUnique(a + b, a / m + b / m, m, 0);
  }
}
