/** Quotients and remainders. */
module Arith {

  lemma DivUnique(y: int, d: nat, q: int, r: nat)
    requires d > 0 && y == d * q + r && r < d
    ensures y / d == q && y % d == r
  {
    var e := y / d - q;
    assert y == d * (y / d) + y % d;
    assert d * e == r - y % d;
  }

  lemma Multiple(y: nat, d: nat)
    requires d > 0
    ensures (y - y % d) % d == 0
    ensures y < d ==> y % d == y
  {
    assert y - y % d == d * (y / d);
    DivUnique(d * (y / d), d, y / d, 0);
  }

  /** Dividing twice. */
  lemma SumOfMultiples(a: int, b: int, d: nat)
    requires d > 0 && a % d == 0 && b % d == 0
    ensures (a + b) % d == 0
  {
    assert a == d * (a / d) && b == d * (b / d);
    assert d * (a / d) + d * (b / d) == d * (a / d + b / d);
    DivUnique(a + b, d, a / d + b / d, 0);
  }

  lemma DivDiv(x: nat, a: nat, b: nat)
    requires a > 0 && b > 0
    ensures a * b > 0 && x / (a * b) == x / a / b
    ensures x % (a * b) == a * (x / a % b) + x % a
  {
    var q, r := x / a / b, x / a % b;
    assert x / a == b * q + r;
    assert x == a * (x / a) + x % a;
    assert x == (a * b) * q + (a * r + x % a) by {
      assert a * (b * q + r) == a * (b * q) + a * r;
      assert a * (b * q) == (a * b) * q;
    }
    assert a * r + x % a < a * b by { assert a * r <= a * (b - 1); assert a * (b - 1) == a * b - a; }
    DivUnique(x, a * b, q, a * r + x % a);
  }

  /** A common factor cancels. */
  lemma ScaledDiv(x: nat, a: nat, c: nat)
    requires a > 0 && c > 0
    ensures c * a > 0 && (c * x) / (c * a) == x / a && (c * x) % (c * a) == c * (x % a)
  {
    assert x == a * (x / a) + x % a;
    assert c * x == (c * a) * (x / a) + c * (x % a) by {
      assert c * (a * (x / a) + x % a) == c * (a * (x / a)) + c * (x % a);
      assert c * (a * (x / a)) == (c * a) * (x / a);
    }
    assert c * (x % a) < c * a;
    DivUnique(c * x, c * a, x / a, c * (x % a));
  }

  /** Adding a multiple of the divisor. */
  lemma AddMultiple(q: nat, d: nat, r: nat)
    requires d > 0 && r < d
    ensures (d * q + r) / d == q && (d * q + r) % d == r
  {
    DivUnique(d * q + r, d, q, r);
  }

  lemma MulAssoc(a: nat, b: nat, c: nat)
    ensures a * (b * c) == (a * b) * c
  {
  }

  lemma MulMono(a: nat, b: nat, c: nat)
    requires a <= b
    ensures a * c <= b * c
  {
    assert b * c == a * c + (b - a) * c;
  }

  /** Multiplying by something positive does not make smaller. */
  lemma MulAtLeast(a: nat, c: nat)
    requires c > 0
    ensures a <= a * c
  {
    MulMono(1, c, a);
  }

  /** A quotient is determined by any remainder below the divisor. */
  lemma SameQuotient(q: nat, h: nat, p: nat, r: nat)
    requires p > 0 && r < p && q * p == h * p + r
    ensures q == h && r == 0
  {
    if q > h {
      MulMono(h + 1, q, p);
    } else if q < h {
      MulMono(q + 1, h, p);
    }
  }

  lemma Cancel(a: nat, b: nat, c: nat)
    requires c > 0 && a * c == b * c
    ensures a == b
  {
    SameQuotient(a, b, c, 0);
  }
}
