/** Small facts about exact arithmetic on `real`. Each is stated for arbitrary
    operands and proved on its own, so that a longer calculation can be put together
    from them one step at a time. */
module RealArith {

  /** Equal factors give equal products. */
  lemma MulEq(l: real, x: real, y: real)
    requires x == y
    ensures l * x == l * y
  {
  }

  /** Equal numerators over equal non-zero denominators give equal quotients. */
  lemma QuotEq(n1: real, n2: real, d1: real, d2: real)
    requires n1 == n2 && d1 == d2 && d1 != 0.0
    ensures n1 / d1 == n2 / d2
  {
  }

  /** The product of two non-zero numbers is non-zero. */
  lemma MulNonZero(x: real, y: real)
    requires x != 0.0 && y != 0.0
    ensures x * y != 0.0
  {
  }

  /** The product of two non-negative numbers is non-negative. */
  lemma MulNonNegative(x: real, y: real)
    requires 0.0 <= x && 0.0 <= y
    ensures 0.0 <= x * y
  {
  }

  /** A non-negative number divided by a positive one is non-negative. */
  lemma DivNonNegative(x: real, y: real)
    requires 0.0 <= x && 0.0 < y
    ensures 0.0 <= x / y
  {
  }

  /** The product of two positive numbers is positive. */
  lemma MulPositive(x: real, y: real)
    requires 0.0 < x && 0.0 < y
    ensures 0.0 < x * y
  {
  }

  /** Dividing by d and multiplying back by d gives the number again. */
  lemma DivMulCancel(n: real, d: real)
    requires d != 0.0
    ensures n / d * d == n
  {
  }

  /** Multiplying by p and dividing back by p gives the number again. */
  lemma MulDivCancel(x: real, p: real)
    requires p != 0.0
    ensures x * p / p == x
  {
  }

  /** Dividing by a positive number keeps a non-strict order. */
  lemma DivMonotone(x: real, y: real, d: real)
    requires x <= y && 0.0 < d
    ensures x / d <= y / d
  {
    assert 0.0 <= (y - x) / d;
  }

  /** Dividing by a positive number keeps a strict order. */
  lemma DivStrictlyMonotone(x: real, y: real, d: real)
    requires x < y && 0.0 < d
    ensures x / d < y / d
  {
    assert 0.0 < (y - x) / d;
  }

  /** A non-decreasing pair stays ordered when multiplied by a non-negative factor. */
  lemma MulMonotone(x: real, y: real, k: real)
    requires x <= y && 0.0 <= k
    ensures x * k <= y * k
  {
    assert 0.0 <= (y - x) * k;
  }

  /** A strictly increasing pair stays strictly ordered when multiplied by a positive
      factor. */
  lemma MulStrictlyMonotone(x: real, y: real, k: real)
    requires x < y && 0.0 < k
    ensures x * k < y * k
  {
    assert 0.0 < (y - x) * k;
  }

  /** The product of a/q and b/q is a·b divided by q twice. */
  lemma MulOfQuotients(a: real, b: real, q: real)
    requires q != 0.0
    ensures (a / q) * (b / q) == a * b / q / q
  {
    assert (a / q) * (b / q) * q == a * (b / q);
  }

  /** The difference of b/q and a/q is (b − a)/q. */
  lemma SubOfQuotients(a: real, b: real, q: real)
    requires q != 0.0
    ensures b / q - a / q == (b - a) / q
  {
  }

  /** Multiplying x/q by l is dividing l·x by q. */
  lemma MulQuotient(l: real, x: real, q: real)
    requires q != 0.0
    ensures l * (x / q) == (l * x) / q
  {
  }

  /** Dividing by two non-zero numbers in turn is dividing by their product. */
  lemma DivDiv(x: real, y: real, z: real)
    requires y != 0.0 && z != 0.0
    ensures x / y / z == x / (y * z)
  {
  }

  /** Dividing by d/q is multiplying by q and dividing by d. */
  lemma DivByQuotient(x: real, d: real, q: real)
    requires q != 0.0 && d != 0.0
    ensures x / (d / q) == x * q / d
  {
    assert d / q * q == d;
  }

  /** Dividing numerator and denominator by the same q leaves the quotient alone. */
  lemma CancelQuotients(n: real, m: real, q: real)
    requires q != 0.0 && m != 0.0
    ensures (n / q) / (m / q) == n / m
  {
    assert m / q * q == m;
  }

  /** Dividing the numerator by q once and the denominator by q twice multiplies the
      quotient by q. */
  lemma Rescale(n: real, m: real, q: real)
    requires q != 0.0 && m != 0.0
    ensures (n / q) / (m / q / q) == n * q / m
  {
    assert m / q / q * q == m / q;
  }
}
