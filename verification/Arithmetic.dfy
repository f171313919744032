/** Integer division as C++ does it, and the greatest common divisor. */
module Arithmetic {

  /** `a / b` in C++: the quotient is rounded toward zero. */
  function Quot(a: int, b: int): (q: int)
    requires b != 0
  {
    if a >= 0 then a / b else -(-a / b)
  }

  /** `a % b` in C++: the remainder has the sign of the dividend. */
  function Rem(a: int, b: int): (r: int)
    requires b != 0
    ensures a == Quot(a, b) * b + r
    ensures -Abs(b) < r < Abs(b)
    ensures a >= 0 ==> r >= 0
    ensures a <= 0 ==> r <= 0
  {
    if a >= 0 then a % b else -(-a % b)
  }

  function Abs(a: int): (r: int)
    ensures r >= 0 && (r == 0 <==> a == 0)
  {
    if a < 0 then -a else a
  }

  lemma QuotExact(k: int, d: int)
    requires d != 0
    ensures Quot(k * d, d) == k
  {
    var q := Quot(k * d, d);
    if q != k {
      Distribute(k, -q, d);
      LargeMultiple(k - q, d);
      assert false;
    }
  }

  lemma LargeMultiple(k: int, d: int)
    requires k != 0
    ensures Abs(k * d) >= Abs(d)
  {
    assert Abs(k * d) == Abs(k) * Abs(d);
    Distribute(Abs(k) - 1, 1, Abs(d));
    assert (Abs(k) - 1) * Abs(d) >= 0;
  }

  /** Rearranging a product of four. */
  lemma Regroup(a: int, b: int, c: int, d: int)
    ensures (a * b) * (c * d) == (a * c) * (b * d) == a * (b * (c * d))
  {
    Associate(a, b, c * d);
    Associate(a, c, b * d);
    Associate(b, c, d);
    Associate(c, b, d);
  }

  lemma Associate(a: int, b: int, c: int)
    ensures (a * b) * c == a * (b * c)
  {
  }

  lemma Distribute(a: int, b: int, c: int)
    ensures (a + b) * c == a * c + b * c && c * (a + b) == c * a + c * b
  {
  }

  ghost predicate Divides(d: int, a: int) {
    exists k :: Multiple(k, d, a)
  }

  ghost predicate Multiple(k: int, d: int, a: int) {
    k * d == a
  }

  /** `g` is the non-negative greatest common divisor: a common divisor that is
      a combination of the two, so every common divisor divides it. */
  ghost predicate IsGcd(g: int, a: int, b: int) {
    g >= 0 && Divides(g, a) && Divides(g, b) && exists x, y :: Combination(g, a, x, b, y)
  }

  ghost predicate Combination(g: int, a: int, x: int, b: int, y: int) {
    a * x + b * y == g
  }

  /** Euclid's algorithm. */
  function Gcd(a: int, b: int): (g: nat)
    decreases Abs(b)
  {
    if b == 0 then Abs(a) else Gcd(b, a % b)
  }

  /** Any step of Euclid's algorithm, whatever the rounding of the quotient. */
  lemma GcdStep(g: int, a: int, b: int, q: int, m: int)
    requires a == q * b + m && IsGcd(g, b, m)
    ensures IsGcd(g, a, b)
  {
    var k :| Multiple(k, g, b);
    var l :| Multiple(l, g, m);
    Associate(q, k, g);
    Distribute(q * k, l, g);
    assert Multiple(q * k + l, g, a);
    var x, y :| Combination(g, b, x, m, y);
    Associate(q, b, y);
    Associate(b, q, y);
    Distribute(q * b, m, y);
    Distribute(x, -(q * y), b);
    assert Combination(g, a, y, b, x - q * y);
  }

  lemma {:induction false} GcdIsGcd(a: int, b: int)
    ensures IsGcd(Gcd(a, b), a, b)
    decreases Abs(b)
  {
    var g := Gcd(a, b);
    if b == 0 {
      assert Multiple(0, g, b);
      assert Multiple(if a >= 0 then 1 else -1, g, a);
      assert Combination(g, a, if a >= 0 then 1 else -1, b, 0);
    } else {
      GcdIsGcd(b, a % b);
      GcdStep(g, a, b, a / b, a % b);
    }
  }

  lemma CommonDivides(d: int, g: int, a: int, b: int)
    requires IsGcd(g, a, b) && Divides(d, a) && Divides(d, b)
    ensures Divides(d, g)
  {
    var k :| Multiple(k, d, a);
    var l :| Multiple(l, d, b);
    var x, y :| Combination(g, a, x, b, y);
    Associate(k, d, x);
    Associate(k, x, d);
    Associate(l, d, y);
    Associate(l, y, d);
    Distribute(k * x, l * y, d);
    assert Multiple(k * x + l * y, d, g);
  }

  lemma DividesBothWays(g: int, h: int)
    requires g >= 0 && h >= 0 && Divides(g, h) && Divides(h, g)
    ensures g == h
  {
    var k :| Multiple(k, g, h);
    var l :| Multiple(l, h, g);
    if g != 0 && h != 0 {
      LargeMultiple(k, g);
      LargeMultiple(l, h);
    }
  }

  /** There is one greatest common divisor. */
  lemma GcdUnique(g: int, a: int, b: int)
    requires IsGcd(g, a, b)
    ensures g == Gcd(a, b)
  {
    GcdIsGcd(a, b);
    CommonDivides(g, Gcd(a, b), a, b);
    CommonDivides(Gcd(a, b), g, a, b);
    DividesBothWays(g, Gcd(a, b));
  }

  // ------------------------------------------------------------- relative primes

  ghost predicate Coprime(a: int, b: int) {
    exists x, y :: Combination(1, a, x, b, y)
  }

  lemma CoprimeIsGcdOne(a: int, b: int)
    ensures Coprime(a, b) <==> Gcd(a, b) == 1
  {
    GcdIsGcd(a, b);
    if Gcd(a, b) == 1 {
      var x, y :| Combination(Gcd(a, b), a, x, b, y);
      assert Combination(1, a, x, b, y);
    }
    if Coprime(a, b) {
      assert Multiple(a, 1, a) && Multiple(b, 1, b);
      assert IsGcd(1, a, b);
      GcdUnique(1, a, b);
    }
  }

  lemma CoprimeSymmetric(a: int, b: int)
    requires Coprime(a, b)
    ensures Coprime(b, a)
  {
    var x, y :| Combination(1, a, x, b, y);
    assert Combination(1, b, y, a, x);
  }

  lemma CoprimeNegate(a: int, b: int)
    requires Coprime(a, b)
    ensures Coprime(-a, -b) && Coprime(-a, b)
  {
    var x, y :| Combination(1, a, x, b, y);
    assert Combination(1, -a, -x, -b, -y);
    assert Combination(1, -a, -x, b, y);
  }

  lemma CoprimeProduct(a: int, b: int, c: int)
    requires Coprime(a, b) && Coprime(a, c)
    ensures Coprime(a, b * c)
  {
    var x, y :| Combination(1, a, x, b, y);
    var u, v :| Combination(1, a, u, c, v);
    // 1 = a*x + (b*y) * (a*u + c*v)
    Distribute(a * u, c * v, b * y);
    Regroup(b, y, a, u);
    Associate(b, a, y * u);
    Associate(a, b, y * u);
    Regroup(b, y, c, v);
    Distribute(x, b * (y * u), a);
    assert Combination(1, a, x + b * (y * u), b * c, y * v);
  }

  lemma CoprimeFactor(a: int, b: int, c: int)
    requires Coprime(a, b * c)
    ensures Coprime(a, b) && Coprime(a, c)
  {
    var x, y :| Combination(1, a, x, b * c, y);
    Associate(b, c, y);
    Associate(c, b, y);
    assert Combination(1, a, x, b, c * y);
    assert Combination(1, a, x, c, b * y);
  }

  lemma CoprimeFactors(a: int, f: int, b: int, e: int)
    requires Coprime(a * f, b * e)
    ensures Coprime(a, b)
  {
    CoprimeFactor(a * f, b, e);
    CoprimeSymmetric(a * f, b);
    CoprimeFactor(b, a, f);
    CoprimeSymmetric(b, a);
  }

  lemma CoprimeShift(a: int, b: int, k: int)
    requires Coprime(a, b)
    ensures Coprime(a + k * b, b)
  {
    var x, y :| Combination(1, a, x, b, y);
    Distribute(a, k * b, x);
    Associate(b, k, x);
    Distribute(y, -(k * x), b);
    assert Combination(1, a + k * b, x, b, y - k * x);
  }

  /** The two numbers over their greatest common divisor. */
  lemma GcdQuotients(a: int, b: int) returns (a1: int, b1: int)
    requires a != 0 || b != 0
    ensures Gcd(a, b) > 0 && a == a1 * Gcd(a, b) && b == b1 * Gcd(a, b)
    ensures a1 == Quot(a, Gcd(a, b)) && b1 == Quot(b, Gcd(a, b))
    ensures Coprime(a1, b1)
  {
    var g := Gcd(a, b);
    GcdIsGcd(a, b);
    a1 :| Multiple(a1, g, a);
    b1 :| Multiple(b1, g, b);
    assert g == 0 ==> a1 * g == 0 && b1 * g == 0;
    QuotExact(a1, g);
    QuotExact(b1, g);
    var x, y :| Combination(g, a, x, b, y);
    Associate(g, a1, x);
    Associate(g, b1, y);
    Distribute(a1 * x, b1 * y, g);
    CancelFactor(a1 * x + b1 * y, 1, g);
    assert Combination(1, a1, x, b1, y);
  }

  lemma CancelFactor(a: int, b: int, g: int)
    requires g != 0 && a * g == b * g
    ensures a == b
  {
    QuotExact(a, g);
    QuotExact(b, g);
  }

  /** Two quotients of relative primes with positive denominators that are equal
      as numbers are equal part by part. */
  lemma NormalFormUnique(a: int, b: int, c: int, d: int)
    requires b > 0 && d > 0 && Gcd(a, b) == 1 && Gcd(c, d) == 1
    requires a * d == c * b
    ensures a == c && b == d
  {
    DenominatorDivides(a, b, c, d);
    DenominatorDivides(c, d, a, b);
    DividesBothWays(b, d);
    CancelFactor(a, c, b);
  }

  lemma DenominatorDivides(a: int, b: int, c: int, d: int)
    requires Gcd(a, b) == 1 && a * d == c * b
    ensures Divides(b, d)
  {
    CoprimeIsGcdOne(a, b);
    var x, y :| Combination(1, a, x, b, y);
    Associate(c, x, b);
    Associate(c, b, x);
    Associate(d, y, b);
    Distribute(c * x, d * y, b);
    Associate(d, a, x);
    Associate(d, b, y);
    Distribute(a * x, b * y, d);
    assert Multiple(c * x + d * y, b, d);
  }
}
