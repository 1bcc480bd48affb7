/** Division and multiplication facts shared by the hex codec, the history recorder and the engine. */
module Arith {

  /** Multiplying by a positive number keeps the order. */
  lemma MulMonotone(m: int, x: int, y: int)
    requires m > 0 && x <= y
    ensures m * x <= m * y
  {
  }

  /** Quotient and remainder are the only ones: u = m*a + r with 0 <= r < m
      fixes u / m and u % m. */
  lemma DivModUnique(u: int, m: int, a: int, r: int)
    requires m > 0 && 0 <= r < m && u == m * a + r
    ensures u / m == a && u % m == r
  {
    var a' := u / m;
    var r' := u % m;
    assert u == m * a' + r';
    if a' > a {
      assert m * a' >= m * (a + 1) by { MulMonotone(m, a + 1, a'); }
    } else if a' < a {
      assert m * a >= m * (a' + 1) by { MulMonotone(m, a' + 1, a); }
    }
  }

  /** One more factor: (n + 1) * c == n * c + c. */
  lemma MulSucc(n: int, c: int)
    ensures (n + 1) * c == n * c + c
  {
  }

  /** Multiplying both sides by a positive real keeps an order, strict or not. */
  lemma ScaleInequality(x: real, y: real, q: real)
    requires q > 0.0
    ensures x <= y ==> x * q <= y * q
    ensures x < y ==> x * q < y * q
  {
    assert (y - x) * q == y * q - x * q;
  }

  /** Comparing a quotient with a bound is comparing the numerator with the scaled bound. */
  lemma QuotientBound(a: real, q: real, b: real)
    requires q > 0.0
    ensures a / q <= b <==> a <= b * q
    ensures a / q < b <==> a < b * q
  {
    var x := a / q;
    assert x * q == a;
    ScaleInequality(x, b, q);
    ScaleInequality(b, x, q);
  }

  /** Adding a whole number moves the floor by that number. */
  lemma FloorShift(k: int, x: real)
    ensures (k as real + x).Floor == k + x.Floor
  {
  }
}
