/**
Facts about products and floored quotients of real numbers.
*/
module RealArithmetic {

  lemma Scale(a: real, b: real, p: real)
    requires p > 0.0
    ensures a <= b ==> a * p <= b * p
    ensures a < b ==> a * p < b * p
  {
  }

  lemma Product(a: real, y: real)
    requires y > 0.0
    ensures a >= 0.0 ==> a * y >= 0.0
    ensures a > 0.0 ==> a * y > 0.0
  {
  }

  lemma RemainderBounds(x: real, y: real, q: real, k: real)
    requires y > 0.0 && q == x / y && k <= q < k + 1.0
    ensures 0.0 <= x - y * k < y
  {
    var a, b := q - k, k + 1.0 - q;
    assert q * y == x;
    Product(a, y);
    Product(b, y);
    Parts(q, k, y, a, b);
    assert a * y == x - y * k;
    assert b * y == y * k + y - x;
  }

  lemma Parts(q: real, k: real, y: real, a: real, b: real)
    requires a == q - k && b == k + 1.0 - q
    ensures a * y == q * y - y * k && b * y == y * k + y - q * y
  {
  }

  lemma Cancel(x: real, y: real, b: real)
    requires b > 0.0 && x * b == y * b
    ensures x == y
  {
    assert (x - y) * b == 0.0;
  }

  /** A floored quotient reaches k exactly when the dividend reaches k times the divisor. */
  lemma FloorAtLeast(e: real, y: real, k: int)
    requires y > 0.0
    ensures (e / y).Floor >= k <==> e >= k as real * y
  {
    var x := e / y;
    assert x * y == e;
    if x >= k as real {
      Scale(k as real, x, y);
    } else {
      Scale(x, k as real, y);
    }
  }

  lemma QuotientAtLeast(x: real, d: real, k: real)
    requires d > 0.0 && x >= k * d
    ensures x / d >= k
  {
    var c := x / d - k;
    assert c * d == x - k * d;
    Product(-c, d);
  }
}
