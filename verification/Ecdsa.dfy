/** ECDSA signing and verifying, over the multiples of the generator. */
module Ecdsa {
  import opened Arith

  // ---------- arithmetic modulo a prime ----------

  lemma ModShift(x: int, k: int, n: nat)
    requires n > 0
    ensures (x + n * k) % n == x % n
  {
    assert x + n * k == n * (x / n + k) + x % n by { assert x == n * (x / n) + x % n; }
    DivUnique(x + n * k, n, x / n + k, x % n);
  }

  lemma ModFactor(a: int, b: int, n: nat)
    requires n > 0
    ensures ((a % n) * b) % n == (a * b) % n
  {
    var q := a / n;
    assert a == n * q + a % n;
    Expand(n, q, a % n, b);
    ModShift((a % n) * b, q * b, n);
  }

  lemma Expand(n: int, q: int, r: int, b: int)
    ensures (n * q + r) * b == r * b + n * (q * b)
  {
  }

  lemma ModTerm(a: int, b: int, n: nat)
    requires n > 0
    ensures (a % n + b) % n == (a + b) % n
  {
    var q := a / n;
    assert a == n * q + a % n;
    ModShift(a % n + b, q, n);
  }

  predicate IsPrime(n: nat) {
    n > 1 && forall d :: 1 < d < n ==> n % d != 0
  }

  /** A common divisor g of a and b, and a x + b y == g. */
  function Euclid(a: nat, b: nat): (e: (nat, int, int))
    decreases b
  {
    if b == 0 then (a, 1, 0)
    else
      var (g, x, y) := Euclid(b, a % b);
      (g, y, x - (a / b) * y)
  }

  /** g is a common divisor, and so the greatest one. */
  ghost predicate Bezout(a: nat, b: nat, g: nat, x: int, y: int) {
    g > 0 && a * x + b * y == g && a % g == 0 && b % g == 0
  }

  lemma {:induction false} EuclidIs(a: nat, b: nat)
    requires a > 0 || b > 0
    ensures var (g, x, y) := Euclid(a, b); Bezout(a, b, g, x, y)
    decreases b
  {
    if b > 0 {
      hide Bezout;
      EuclidIs(b, a % b);
      var (g, x, y) := Euclid(b, a % b);
      BezoutStep(a, b, g, x, y);
    } else {
      BezoutZero(a);
    }
  }

  lemma BezoutZero(a: nat)
    requires a > 0
    ensures Bezout(a, 0, a, 1, 0)
  {
    DivUnique(a, a, 1, 0);
    DivUnique(0, a, 0, 0);
  }

  lemma BezoutStep(a: nat, b: nat, g: nat, x: int, y: int)
    requires b > 0 && Bezout(b, a % b, g, x, y)
    ensures Bezout(a, b, g, y, x - (a / b) * y)
  {
    var q, r := a / b, a % b;
    assert a == b * q + r;
    EuclidStep(a, b, q, r, g, x, y);
  }

  lemma EuclidStep(a: nat, b: nat, q: nat, r: nat, g: nat, x: int, y: int)
    requires a == b * q + r && b * x + r * y == g && g > 0 && b % g == 0 && r % g == 0
    ensures a * y + b * (x - q * y) == g && a % g == 0
  {
    assert a * y + b * (x - q * y) == g by {
      Expand(b, q, r, y);
      Minus(b, x, q * y);
    }
    assert b == g * (b / g);
    Expand(g, b / g, 0, q);
    ModShift(r, (b / g) * q, g);
  }

  lemma Minus(b: int, x: int, y: int)
    ensures b * (x - y) == b * x - b * y
  {
  }

  function Inverse(a: nat, n: nat): (t: nat)
    requires n > 0
    ensures t < n
  {
    Euclid(a, n).1 % n
  }

  lemma InverseIs(a: nat, n: nat)
    requires IsPrime(n) && 0 < a < n
    ensures (a * Inverse(a, n)) % n == 1
  {
    hide Bezout;
    EuclidIs(a, n);
    var (g, x, y) := Euclid(a, n);
    CoprimeInverse(a, n, g, x, y);
  }

  lemma CoprimeInverse(a: nat, n: nat, g: nat, x: int, y: int)
    requires IsPrime(n) && 0 < a < n && Bezout(a, n, g, x, y)
    ensures (a * (x % n)) % n == 1
  {
    if g > a { Multiple(a, g); }
    assert g == 1;
    ModFactor(x, a, n);
    assert (x % n) * a == a * (x % n);
    assert x * a == 1 + n * (-y) by { Minus(n, 0, y); }
    ModShift(1, -y, n);
    DivUnique(1, n, 0, 1);
  }

  /** A factor that is not a multiple of the prime can be cancelled. */
  lemma CancelFactor(a: nat, b: nat, c: nat, p: nat)
    requires IsPrime(p) && a < p && b < p && c % p != 0 && (a * c) % p == (b * c) % p
    ensures a == b
  {
    var d := c % p;
    InverseIs(d, p);
    var t := Inverse(d, p);
    TimesInverse(a, c, t, p);
    TimesInverse(b, c, t, p);
  }

  lemma TimesInverse(a: nat, c: nat, t: nat, p: nat)
    requires p > 0 && a < p && ((c % p) * t) % p == 1
    ensures (((a * c) % p) * t) % p == a
  {
    ModFactor(a * c, t, p);
    ModFactor(c, t, p);
    assert (a * c) * t == (c * t) * a;
    ModFactor(c * t, a, p);
    DivUnique(a, p, 0, a);
  }

  /** A product of factors that are not multiples of the prime is none either. */
  lemma SquareNotZero(z: nat, p: nat)
    requires IsPrime(p) && 0 < z < p
    ensures (z * z) % p != 0
  {
    DivUnique(z, p, 0, z);
    DivUnique(0, p, 0, 0);
    if (z * z) % p == 0 { CancelFactor(z, 0, z, p); }
  }

  // ---------- scalars ----------

  function Mul(a: nat, b: nat, n: nat): (c: nat)
    requires n > 0
    ensures c < n
  {
    (a * b) % n
  }

  function Add(a: nat, b: nat, n: nat): (c: nat)
    requires n > 0
    ensures c < n
  {
    (a + b) % n
  }

  function Negate(a: nat, n: nat): (c: nat)
    requires a < n
    ensures c < n
  {
    if a == 0 then 0 else n - a
  }

  lemma MulLaws(a: nat, b: nat, c: nat, n: nat)
    requires n > 0
    ensures Mul(a, b, n) == Mul(b, a, n)
    ensures Mul(Mul(a, b, n), c, n) == Mul(a, Mul(b, c, n), n)
    ensures Add(Mul(a, b, n), Mul(a, c, n), n) == Mul(a, Add(b, c, n), n)
  {
    assert a * b == b * a;
    ModFactor(a * b, c, n);
    assert (a * b) * c == (b * c) * a;
    ModFactor(b * c, a, n);
    assert ((b * c) % n) * a == a * ((b * c) % n);
    ModTerm(a * b, Mul(a, c, n), n);
    ModTerm(a * c, a * b, n);
    ModFactor(b + c, a, n);
    assert (b + c) * a == a * b + a * c;
    assert ((b + c) % n) * a == a * ((b + c) % n);
  }

  lemma MulOne(a: nat, n: nat)
    requires 1 < n && a < n
    ensures Mul(1, a, n) == a && Mul(a, 1, n) == a
  {
    DivUnique(a, n, 0, a);
  }

  lemma MulNegate(a: nat, b: nat, n: nat)
    requires a < n && b < n
    ensures Mul(a, Negate(b, n), n) == Negate(Mul(a, b, n), n)
  {
    if b == 0 {
      DivUnique(0, n, 0, 0);
    } else {
      var product: int := a * b;
      assert a * (n - b) == -product + n * a by { Minus(a, n, b); }
      ModShift(-product, a, n);
      Opposite(product, n);
    }
  }

  lemma Opposite(x: int, n: nat)
    requires n > 0
    ensures (-x) % n == Negate(x % n, n)
  {
    var q, r := x / n, x % n;
    assert x == n * q + r;
    if r == 0 {
      DivUnique(-x, n, -q, 0);
    } else {
      DivUnique(-x, n, -q - 1, n - r);
    }
  }

  // ---------- points ----------

  /**
    A group of prime order n over a field of prime order p. Its points are the multiples of the
    generator, and x and odd give the affine x-coordinate and the parity of y of all but the zeroth.
   */
  datatype Curve = Curve(n: nat, p: nat, x: nat -> nat, odd: nat -> bool)

  /** The order is below the field's size by less than itself, and opposite points differ in y's sign alone. */
  ghost predicate ValidCurve(c: Curve) {
    && IsPrime(c.n) && IsPrime(c.p) && c.n % 2 == 1 && c.n < c.p < 2 * c.n
    && forall k :: 0 < k < c.n ==> c.x(k) < c.p && c.x(c.n - k) == c.x(k) && c.odd(c.n - k) == !c.odd(k)
  }

  /** The order of secp256k1, and by how much its field is larger. */
  const ORDER: nat := 0xFFFFFFFF_FFFFFFFF_FFFFFFFF_FFFFFFFE_BAAEDCE6_AF48A03B_BFD25E8C_D0364141
  const P_MINUS_ORDER: nat := 0x1_45512319_50B75FC4_402DA172_2FC9BAEE

  /** The field of secp256k1 has 2^256 - 2^32 - 977 elements, fewer than twice the order. */
  lemma OrderFits()
    ensures ORDER + P_MINUS_ORDER == 0xFFFFFFFF_FFFFFFFF_FFFFFFFF_FFFFFFFF_FFFFFFFF_FFFFFFFF_FFFFFFFE_FFFFFC2F
    ensures ORDER % 2 == 1 && 0 < P_MINUS_ORDER < ORDER
  {
  }

  /** Jacobian coordinates: the x-coordinate is x / z^2. */
  datatype Gej = Infinity | Gej(x: nat, z: nat)

  /** The multiple k of the generator, with z the coordinate in which the multiplication left it. */
  function Jacobian(c: Curve, k: nat, z: nat): Gej
    requires c.p > 0
  {
    if k == 0 then Infinity else Gej((c.x(k) * (z * z)) % c.p, z)
  }

  predicate EqX(xr: nat, pr: Gej, p: nat)
    requires p > 0 && pr.Gej?
  {
    (xr * (pr.z * pr.z)) % p == pr.x
  }

  lemma EqXIff(c: Curve, xr: nat, k: nat, z: nat)
    requires ValidCurve(c) && 0 < k < c.n && xr < c.p && 0 < z < c.p
    ensures EqX(xr, Jacobian(c, k, z), c.p) <==> xr == c.x(k)
  {
    SquareNotZero(z, c.p);
    if EqX(xr, Jacobian(c, k, z), c.p) { CancelFactor(xr, c.x(k), z * z, c.p); }
  }

  // ---------- verifying ----------

  /** The multiple of the generator that verification computes from a signature by the key d. */
  function VerifiedPoint(n: nat, r: nat, s: nat, d: nat, message: nat): (k: nat)
    requires n > 0
    ensures k < n
  {
    var sn := Inverse(s, n);
    Add(Mul(sn, message, n), Mul(Mul(sn, r, n), d, n), n)
  }

  /** Section 4.1.4 of SEC 1: the point is finite, and its x-coordinate modulo n is r. */
  predicate Verifies(c: Curve, r: nat, s: nat, d: nat, message: nat)
    requires c.n > 0
  {
    var k := VerifiedPoint(c.n, r, s, d, message);
    r != 0 && s != 0 && k != 0 && c.x(k) % c.n == r
  }

  /** The check for the public key d times the generator; z is the coordinate ecmult leaves. */
  method SigVerify(c: Curve, r: nat, s: nat, d: nat, message: nat, z: nat) returns (ok: bool)
    requires ValidCurve(c) && r < c.n && s < c.n && d < c.n && message < c.n && 0 < z < c.p
    ensures ok <==>
              && r != 0 && s != 0
              && exists k: nat :: 0 < k < c.n && (k * s) % c.n == (message + r * d) % c.n && (c.x(k) == r || c.x(k) == r + c.n)
  {
    hide ValidCurve, EqX, Jacobian, VerifiedPoint;
    CurveSizes(c);
    VerifiesIff(c, r, s, d, message);
    if r == 0 || s == 0 {
      return false;
    }
    var k := VerifiedPoint(c.n, r, s, d, message);
    var pr := Jacobian(c, k, z);
    InfinityIff(c, k, z);
    if pr.Infinity? {
      return false;
    }
    TwoCases(c, r, k);
    EqXIff(c, r, k, z);
    if EqX(r, pr, c.p) {
      return true;
    }
    if r >= c.p - c.n {
      return false;
    }
    EqXIff(c, r + c.n, k, z);
    ok := EqX(r + c.n, pr, c.p);
  }

  /** A signature verifies exactly when some finite point times s is the message plus r d, and has the x-coordinate r. */
  lemma VerifiesIff(c: Curve, r: nat, s: nat, d: nat, message: nat)
    requires ValidCurve(c) && r < c.n && s < c.n && d < c.n && message < c.n
    ensures Verifies(c, r, s, d, message) <==>
              && r != 0 && s != 0
              && exists k: nat :: 0 < k < c.n && (k * s) % c.n == (message + r * d) % c.n && (c.x(k) == r || c.x(k) == r + c.n)
  {
    hide VerifiedPoint;
    var p := VerifiedPoint(c.n, r, s, d, message);
    if s != 0 {
      PointIff(c.n, r, s, d, message, p);
      if 0 < p { TwoCases(c, r, p); }
      forall k: nat | 0 < k < c.n && (k * s) % c.n == (message + r * d) % c.n ensures k == p {
        PointIff(c.n, r, s, d, message, k);
      }
    }
  }

  /** The point is the only one that s takes to the message plus r d. */
  lemma PointIff(n: nat, r: nat, s: nat, d: nat, message: nat, k: nat)
    requires IsPrime(n) && 0 < s < n && k < n
    ensures (k * s) % n == (message + r * d) % n <==> k == VerifiedPoint(n, r, s, d, message)
  {
    hide Inverse;
    var sn, v := Inverse(s, n), Add(Mul(r, d, n), message, n);
    ModTerm(r * d, message, n);
    assert v == (message + r * d) % n && Mul(k, s, n) == (k * s) % n;
    hide Mul, Add;
    PointOf(n, r, s, d, message);
    InverseOf(s, n);
    if k == VerifiedPoint(n, r, s, d, message) {
      // k s == (v / s) s
      MulLaws(v, sn, s, n);
      MulLaws(sn, v, s, n);
      MulOne(v, n);
    }
    if Mul(k, s, n) == v { Recovered(sn, s, k, n); }
  }

  lemma CurveSizes(c: Curve)
    requires ValidCurve(c)
    ensures 1 < c.n < c.p < 2 * c.n && c.n % 2 == 1
  {
  }

  lemma InfinityIff(c: Curve, k: nat, z: nat)
    requires c.p > 0
    ensures Jacobian(c, k, z).Infinity? <==> k == 0
  {
  }

  /** An x-coordinate is r modulo n in two cases only. */
  lemma TwoCases(c: Curve, r: nat, k: nat)
    requires ValidCurve(c) && r < c.n && 0 < k < c.n
    ensures c.x(k) % c.n == r <==> c.x(k) == r || (r < c.p - c.n && c.x(k) == r + c.n)
  {
    var x := c.x(k);
    DivUnique(x, c.n, if x < c.n then 0 else 1, if x < c.n then x else x - c.n);
  }

  // ---------- signing ----------

  /** The signature's s before its sign is chosen. */
  function RawS(n: nat, r: nat, d: nat, message: nat, nonce: nat): (s: nat)
    requires n > 0
    ensures s < n
  {
    Mul(Inverse(nonce, n), Add(Mul(r, d, n), message, n), n)
  }

  predicate IsHigh(s: nat, n: nat) {
    s > n / 2
  }

  /** The nonce times s is the message plus r d. */
  lemma SignedProduct(n: nat, r: nat, d: nat, message: nat, nonce: nat)
    requires IsPrime(n) && r < n && d < n && message < n && 0 < nonce < n
    ensures (nonce * RawS(n, r, d, message, nonce)) % n == (message + r * d) % n
  {
    hide Inverse;
    var s, t := RawS(n, r, d, message, nonce), Inverse(nonce, n);
    var sum := Add(Mul(r, d, n), message, n);
    ModTerm(r * d, message, n);
    assert sum == (message + r * d) % n && Mul(nonce, s, n) == (nonce * s) % n;
    hide Mul, Add;
    InverseOf(nonce, n);
    MulLaws(nonce, t, sum, n);
    MulOne(sum, n);
  }

  datatype Signature = Signature(r: nat, s: nat, recid: nat)

  /** Section 4.1.3 of SEC 1, with the smaller of s and its opposite. */
  method SigSign(c: Curve, d: nat, message: nat, nonce: nat) returns (ok: bool, sig: Signature)
    requires ValidCurve(c) && d < c.n && message < c.n && 0 < nonce < c.n
    ensures sig.r == c.x(nonce) % c.n && sig.s <= c.n / 2
    ensures ok <==> sig.s != 0
    ensures var s := RawS(c.n, sig.r, d, message, nonce);
      && (sig.s == s || (s > 0 && sig.s == c.n - s))
      && (sig.recid % 2 == 1 <==> c.odd(nonce) != (sig.s != s))
    ensures sig.recid / 2 == if c.x(nonce) >= c.n then 1 else 0
    ensures ok ==> var flipped := c.odd(nonce) != (sig.recid % 2 == 1);
      (nonce * (if flipped then c.n - sig.s else sig.s)) % c.n == (message + sig.r * d) % c.n
  {
    SignedProduct(c.n, c.x(nonce) % c.n, d, message, nonce);
    hide RawS, Mul, Add;
    var x := c.x(nonce);
    var r := x % c.n;
    var overflow := x >= c.n;
    var recid := (if overflow then 2 else 0) + (if c.odd(nonce) then 1 else 0);
    var s := RawS(c.n, r, d, message, nonce);
    if s == 0 {
      return false, Signature(r, s, recid);
    }
    if IsHigh(s, c.n) {
      s := Negate(s, c.n);
      recid := if recid % 2 == 1 then recid - 1 else recid + 1;
    }
    return true, Signature(r, s, recid);
  }

  /** Verification recomputes the nonce's point from s, and its opposite from the opposite of s. */
  lemma RawSIsVerified(n: nat, r: nat, d: nat, message: nat, nonce: nat)
    requires IsPrime(n) && r < n && d < n && message < n && 0 < nonce < n && RawS(n, r, d, message, nonce) != 0
    ensures var s := RawS(n, r, d, message, nonce);
      && VerifiedPoint(n, r, s, d, message) == nonce
      && VerifiedPoint(n, r, Negate(s, n), d, message) == Negate(nonce, n)
  {
    hide Mul, Add, Inverse;
    var s, t := RawS(n, r, d, message, nonce), Inverse(nonce, n);
    var sum := Add(Mul(r, d, n), message, n);
    // nonce s == sum
    InverseOf(nonce, n);
    MulLaws(nonce, t, sum, n);
    MulOne(sum, n);
    assert Mul(nonce, s, n) == sum;
    PointOf(n, r, s, d, message);
    InverseOf(s, n);
    Recovered(Inverse(s, n), s, nonce, n);
    var m := Negate(s, n);
    PointOf(n, r, m, d, message);
    InverseOf(m, n);
    MulNegate(nonce, s, n);
    Recovered(Inverse(m, n), m, nonce, n);
    Negated(Inverse(m, n), sum, nonce, n);
  }

  lemma InverseOf(a: nat, n: nat)
    requires IsPrime(n) && 0 < a < n
    ensures Mul(a, Inverse(a, n), n) == 1 && Mul(Inverse(a, n), a, n) == 1
  {
    InverseIs(a, n);
    MulLaws(a, Inverse(a, n), 0, n);
  }

  /** The point is (message + r d) / s. */
  lemma PointOf(n: nat, r: nat, s: nat, d: nat, message: nat)
    requires n > 0
    ensures VerifiedPoint(n, r, s, d, message) == Mul(Inverse(s, n), Add(Mul(r, d, n), message, n), n)
  {
    hide Mul, Inverse;
    var sn := Inverse(s, n);
    MulLaws(sn, r, d, n);
    MulLaws(sn, message, Mul(r, d, n), n);
  }

  /** Dividing a product with s by s. */
  lemma Recovered(sn: nat, s: nat, k: nat, n: nat)
    requires 1 < n && k < n && Mul(sn, s, n) == 1
    ensures Mul(sn, Mul(k, s, n), n) == k
  {
    MulLaws(k, s, 0, n);
    MulLaws(sn, s, k, n);
    MulOne(k, n);
  }

  lemma Negated(sn: nat, sum: nat, k: nat, n: nat)
    requires sn < n && sum < n && k < n && Mul(sn, Negate(sum, n), n) == k
    ensures Mul(sn, sum, n) == Negate(k, n)
  {
    MulNegate(sn, sum, n);
  }

  /** Verifying what a point was recovered for. */
  method VerifySigned(c: Curve, r: nat, s: nat, d: nat, message: nat, z: nat) returns (ok: bool)
    requires ValidCurve(c) && r < c.n && s < c.n && d < c.n && message < c.n && 0 < z < c.p
    ensures ok <==> Verifies(c, r, s, d, message)
  {
    hide ValidCurve, Verifies, VerifiedPoint;
    ok := SigVerify(c, r, s, d, message, z);
    VerifiesIff(c, r, s, d, message);
  }

  /**
    What is signed is verified, unless the nonce's x-coordinate is a multiple of the order; and recid tells
    the point that was verified: the parity of its y, and whether its x is r or r plus the order.
   */
  method SignThenVerify(c: Curve, d: nat, message: nat, nonce: nat, z: nat)
    returns (signed: bool, sig: Signature, verified: bool)
    requires ValidCurve(c) && d < c.n && message < c.n && 0 < nonce < c.n && 0 < z < c.p
    ensures signed ==> (verified <==> sig.r != 0)
    ensures signed ==> var k := VerifiedPoint(c.n, sig.r, sig.s, d, message);
      && (k == nonce || k == c.n - nonce)
      && (sig.recid % 2 == 1 <==> c.odd(k))
      && c.x(k) == sig.r + (sig.recid / 2) * c.n
  {
    hide RawS, VerifiedPoint;
    signed, sig := SigSign(c, d, message, nonce);
    verified := false;
    if signed {
      RawSIsVerified(c.n, sig.r, d, message, nonce);
      TwoCases(c, sig.r, nonce);
      verified := VerifySigned(c, sig.r, sig.s, d, message, z);
    }
  }
}
