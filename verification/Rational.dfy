/** `rational.hpp` over unbounded integers: exact arithmetic that keeps its
    normal form while dividing by as little as it can, and comparison without
    cross-multiplication. */
module Rationals {
  import opened Arithmetic

  /** `a/b == c/d` for nonzero denominators, as cross products. */
  ghost predicate SameValue(a: int, b: int, c: int, d: int) {
    a * d == c * b
  }

  /** The representation invariant: `test_invariant`. */
  predicate Normal(num: int, den: int) {
    den > 0 && Gcd(num, den) == 1
  }

  /** `inner_gcd`: Euclid's algorithm on truncated remainders. Its result may be negative. */
  function InnerGcd(a: int, b: int): int
    decreases Abs(b)
  {
    if b == 0 then a else InnerGcd(b, Rem(a, b))
  }

  /** `is_normalized` */
  predicate IsNormalized(n: int, d: int) {
    d > 0 && (n != 0 || d == 1) && Abs(InnerGcd(n, d)) == 1
  }

  lemma {:induction false} InnerGcdIsGcd(a: int, b: int)
    ensures Abs(InnerGcd(a, b)) == Gcd(a, b)
    decreases Abs(b)
  {
    if b != 0 {
      var m := Rem(a, b);
      InnerGcdIsGcd(b, m);
      GcdIsGcd(b, m);
      GcdStep(Gcd(b, m), a, b, Quot(a, b), m);
      GcdUnique(Gcd(b, m), a, b);
    }
  }

  /** The compile-time check accepts exactly the pairs that the run-time
      invariant check accepts. */
  lemma IsNormalizedIsInvariant(n: int, d: int)
    ensures IsNormalized(n, d) <==> Normal(n, d)
  {
    InnerGcdIsGcd(n, d);
    if n == 0 && d > 0 {
      assert Gcd(0, d) == Gcd(d, 0 % d) == d;
    }
  }

  /** Numbers in normal form are equal as numbers exactly when `operator==` says so. */
  lemma EqualityIsStructural(a: int, b: int, c: int, d: int)
    requires Normal(a, b) && Normal(c, d)
    ensures SameValue(a, b, c, d) <==> a == c && b == d
  {
    if SameValue(a, b, c, d) {
      NormalFormUnique(a, b, c, d);
    }
  }

  // ------------------------------------------------------------- the four operations

  /** The sum or difference `a/b + c/d`: the steps of `operator+=`. */
  lemma SumNormal(a: int, b: int, c: int, d: int) returns (n: int, m: int)
    requires Normal(a, b) && Normal(c, d)
    ensures var g := Gcd(b, d);
            && g > 0
            && var b1 := Quot(b, g);
            var top := a * Quot(d, g) + c * b1;
            var h := Gcd(top, g);
            h > 0 && n == Quot(top, h) && m == b1 * Quot(d, h)
    ensures Normal(n, m) && SameValue(n, m, a * d + c * b, b * d)
  {
    var g := Gcd(b, d);
    var b1, d1 := GcdQuotients(b, d);
    var top := a * d1 + c * b1;
    var h := Gcd(top, g);
    var e;
    n, e := GcdQuotients(top, g);
    // d / h is d1 * e
    Associate(d1, e, h);
    QuotExact(d1 * e, h);
    m := b1 * (d1 * e);
    SumCoprime(a, b1, c, d1, g, n, h);
    CoprimeProduct(n, d1, e);
    CoprimeProduct(n, b1, d1 * e);
    CoprimeIsGcdOne(n, m);
    SumValue(a, b1, c, d1, e, n, h);
    assert b == b1 * (e * h) && d == d1 * (e * h);
    PositiveFactor(b1, g);
    PositiveFactor(d1, g);
    PositiveFactor(e, h);
    PositiveProduct(d1, e);
    PositiveProduct(b1, d1 * e);
  }

  lemma SumCoprime(a: int, b1: int, c: int, d1: int, g: int, n: int, h: int)
    requires Gcd(a, b1 * g) == 1 && Gcd(c, d1 * g) == 1 && Coprime(b1, d1)
    requires a * d1 + c * b1 == n * h
    ensures Coprime(n, b1) && Coprime(n, d1)
  {
    CoprimeIsGcdOne(a, b1 * g);
    CoprimeIsGcdOne(c, d1 * g);
    CoprimeFactor(a, b1, g);
    CoprimeFactor(c, d1, g);
    SumCoprimeHalf(a, b1, c, d1, n, h);
    CoprimeSymmetric(b1, d1);
    SumCoprimeHalf(c, d1, a, b1, n, h);
  }

  lemma SumCoprimeHalf(a: int, b1: int, c: int, d1: int, n: int, h: int)
    requires Coprime(a, b1) && Coprime(b1, d1) && a * d1 + c * b1 == n * h
    ensures Coprime(n, b1)
  {
    CoprimeSymmetric(a, b1);
    CoprimeProduct(b1, a, d1);
    CoprimeSymmetric(b1, a * d1);
    CoprimeShift(a * d1, b1, c);
    CoprimeSymmetric(n * h, b1);
    CoprimeFactor(b1, n, h);
    CoprimeSymmetric(b1, n);
  }

  lemma SumValue(a: int, b1: int, c: int, d1: int, e: int, n: int, h: int)
    requires a * d1 + c * b1 == n * h
    ensures var b, d := b1 * (e * h), d1 * (e * h);
            SameValue(n, b1 * (d1 * e), a * d + c * b, b * d)
  {
    var g := e * h;
    var b, d := b1 * g, d1 * g;
    var m := b1 * (d1 * e);
    Associate(a, d1, g);
    Associate(c, b1, g);
    Distribute(a * d1, c * b1, g);
    Associate(n, h, g);
    assert a * d + c * b == n * (h * g);
    SumDenominator(b1, d1, e, h);
    ScaledSame(n, m, h * g);
  }

  lemma SumDenominator(b1: int, d1: int, e: int, h: int)
    ensures (b1 * (e * h)) * (d1 * (e * h)) == (b1 * (d1 * e)) * (h * (e * h))
  {
    var g := e * h;
    Regroup(b1, g, d1, g);
    Associate(e, h, g);
    Regroup(b1, d1, e, h * g);
    Associate(b1 * d1, e, h * g);
    Associate(b1, d1, e);
  }

  /** A fraction extended by a common factor has the same value. */
  lemma ScaledSame(n: int, m: int, k: int)
    ensures SameValue(n, m, n * k, m * k)
  {
    Associate(n, m, k);
    Associate(m, n, k);
  }

  lemma PositiveFactor(k: int, d: int)
    requires d > 0 && k * d > 0
    ensures k > 0
  {
  }

  lemma PositiveProduct(k: int, d: int)
    requires d > 0 && k > 0
    ensures k * d > 0
  {
  }

  /** The product `a/b * c/d` for denominators of any sign: the steps of
      `operator*=`, and of `operator/=` with the second number upside down. */
  lemma ProductCoprime(a: int, b: int, c: int, d: int) returns (n: int, m: int)
    requires b != 0 && d != 0 && Coprime(a, b) && Coprime(c, d)
    ensures var g1, g2 := Gcd(a, d), Gcd(c, b);
            && g1 > 0 && g2 > 0
            && n == Quot(a, g1) * Quot(c, g2) && m == Quot(b, g2) * Quot(d, g1)
    ensures Coprime(n, m) && SameValue(n, m, a * c, b * d)
    ensures b > 0 && d > 0 ==> m > 0
    ensures m != 0
  {
    var g1, g2 := Gcd(a, d), Gcd(c, b);
    var a1, d1 := GcdQuotients(a, d);
    var c1, b1 := GcdQuotients(c, b);
    n, m := a1 * c1, b1 * d1;
    CoprimeFactors(a1, g1, b1, g2);
    CoprimeFactors(c1, g2, d1, g1);
    ProductOfCoprimes(a1, c1, b1, d1);
    // both cross products are n * m * g1 * g2
    Regroup(a1, g1, c1, g2);
    Regroup(b1, g2, d1, g1);
    assert g2 * g1 == g1 * g2;
    var g := g1 * g2;
    ScaledSame(n, m, g);
    if m == 0 {
      assert b * d == m * g;
      ZeroProduct(b, d);
      assert false;
    }
    if b > 0 && d > 0 {
      PositiveFactor(b1, g2);
      PositiveFactor(d1, g1);
      PositiveProduct(b1, d1);
    }
  }

  lemma NonzeroFactor(k: int, d: int)
    requires k * d != 0
    ensures k != 0
  {
  }

  lemma ZeroProduct(a: int, b: int)
    requires a * b == 0
    ensures a == 0 || b == 0
  {
  }

  lemma ProductOfCoprimes(a: int, c: int, b: int, d: int)
    requires Coprime(a, b) && Coprime(a, d) && Coprime(c, b) && Coprime(c, d)
    ensures Coprime(a * c, b * d)
  {
    CoprimeProduct(a, b, d);
    CoprimeProduct(c, b, d);
    CoprimeSymmetric(a, b * d);
    CoprimeSymmetric(c, b * d);
    CoprimeProduct(b * d, a, c);
    CoprimeSymmetric(b * d, a * c);
  }

  /** Moving the sign of the denominator to the numerator. */
  lemma FixSign(n: int, m: int, p: int, q: int)
    requires m != 0 && Coprime(n, m) && SameValue(n, m, p, q)
    ensures Normal(if m < 0 then -n else n, if m < 0 then -m else m)
    ensures SameValue(if m < 0 then -n else n, if m < 0 then -m else m, p, q)
  {
    CoprimeNegate(n, m);
    CoprimeIsGcdOne(n, m);
    CoprimeIsGcdOne(-n, -m);
    assert (-n) * q == -(n * q) && p * (-m) == -(p * m);
  }

  lemma NormalCoprime(n: int, m: int)
    requires m > 0
    ensures Normal(n, m) <==> Coprime(n, m)
  {
    CoprimeIsGcdOne(n, m);
  }

  class Rational {
    var num: int
    var den: int

    ghost predicate Valid() reads this {
      Normal(num, den)
    }

    /** `rational(n)`, and `rational()` for zero. */
    constructor (n: int)
      ensures Valid() && num == n && den == 1
    {
      num, den := n, 1;
      new;
      OverOne(n);
    }

    /** `rational(n, d)` up to the call of `normalize` in its body. */
    constructor Raw(n: int, d: int)
      ensures num == n && den == d
    {
      num, den := n, d;
    }

    /** Reports failure where the original throws `bad_rational`. */
    method Normalize() returns (ok: bool)
      modifies this
      ensures ok <==> old(den) != 0
      ensures ok ==> Valid() && SameValue(num, den, old(num), old(den))
      ensures !ok ==> num == old(num) && den == old(den)
    {
      if den == 0 {
        return false;
      }
      if num == 0 {
        den := 1;
        OverOne(0);
        return true;
      }
      var g := Gcd(num, den);
      ghost var n, m := GcdQuotients(num, den);
      ScaledSame(n, m, g);
      NonzeroFactor(m, g);
      FixSign(n, m, num, den);
      num := Quot(num, g);
      den := Quot(den, g);
      if den < 0 {
        num := -num;
        den := -den;
      }
      return true;
    }

    /** `assign`: a failure leaves the old value in place. */
    method Assign(n: int, d: int) returns (ok: bool)
      modifies this
      ensures ok <==> d != 0
      ensures ok ==> Valid() && SameValue(num, den, n, d)
      ensures !ok ==> num == old(num) && den == old(den)
    {
      var r := new Rational.Raw(n, d);
      ok := r.Normalize();
      if ok {
        num, den := r.num, r.den;
      }
    }

    /** `operator+=`. The argument may be the object itself. */
    method Add(r: Rational)
      requires Valid() && r.Valid()
      modifies this
      ensures Valid()
      ensures SameValue(num, den, old(num * r.den + r.num * den), old(den * r.den))
    {
      var rNum, rDen := r.num, r.den;
      ghost var n, m := SumNormal(num, den, rNum, rDen);
      var g := Gcd(den, rDen);
      den := Quot(den, g);
      num := num * Quot(rDen, g) + rNum * den;
      g := Gcd(num, g);
      num := Quot(num, g);
      den := den * Quot(rDen, g);
    }

    /** `operator-=` */
    method Subtract(r: Rational)
      requires Valid() && r.Valid()
      modifies this
      ensures Valid()
      ensures SameValue(num, den, old(num * r.den - r.num * den), old(den * r.den))
    {
      var rNum, rDen := r.num, r.den;
      NormalCoprime(rNum, rDen);
      CoprimeNegate(rNum, rDen);
      NormalCoprime(-rNum, rDen);
      ghost var n, m := SumNormal(num, den, -rNum, rDen);
      assert (-rNum) * den == -(rNum * den);
      var g := Gcd(den, rDen);
      assert (-rNum) * Quot(den, g) == -(rNum * Quot(den, g));
      den := Quot(den, g);
      num := num * Quot(rDen, g) - rNum * den;
      g := Gcd(num, g);
      num := Quot(num, g);
      den := den * Quot(rDen, g);
    }

    /** `operator*=` */
    method Multiply(r: Rational)
      requires Valid() && r.Valid()
      modifies this
      ensures Valid()
      ensures SameValue(num, den, old(num * r.num), old(den * r.den))
    {
      var rNum, rDen := r.num, r.den;
      NormalCoprime(num, den);
      NormalCoprime(rNum, rDen);
      ghost var n, m := ProductCoprime(num, den, rNum, rDen);
      NormalCoprime(n, m);
      var gcd1, gcd2 := Gcd(num, rDen), Gcd(rNum, den);
      num := Quot(num, gcd1) * Quot(rNum, gcd2);
      den := Quot(den, gcd2) * Quot(rDen, gcd1);
    }

    /** `operator/=`: reports failure for a zero divisor. */
    method Divide(r: Rational) returns (ok: bool)
      requires Valid() && r.Valid()
      modifies this
      ensures ok <==> old(r.num) != 0
      ensures Valid()
      ensures ok ==> SameValue(num, den, old(num * r.den), old(den * r.num))
      ensures !ok ==> num == old(num) && den == old(den)
    {
      var rNum, rDen := r.num, r.den;
      if rNum == 0 {
        return false;
      }
      if num == 0 {
        return true;
      }
      NormalCoprime(num, den);
      NormalCoprime(rNum, rDen);
      CoprimeSymmetric(rNum, rDen);
      ghost var n, m := ProductCoprime(num, den, rDen, rNum);
      FixSign(n, m, num * rDen, den * rNum);
      var gcd1, gcd2 := Gcd(num, rNum), Gcd(rDen, den);
      num := Quot(num, gcd1) * Quot(rDen, gcd2);
      den := Quot(den, gcd2) * Quot(rNum, gcd1);
      if den < 0 {
        num := -num;
        den := -den;
      }
      return true;
    }

    /** `operator+=` with an integer; `++` is the case of 1, `-=` and `--` the negatives. */
    method AddInt(i: int)
      requires Valid()
      modifies this
      ensures Valid() && den == old(den) && num == old(num) + i * den
    {
      NormalCoprime(num, den);
      CoprimeShift(num, den, i);
      num := num + i * den;
      NormalCoprime(num, den);
    }

    /** `operator*=` with an integer. */
    method MultiplyInt(i: int)
      requires Valid()
      modifies this
      ensures Valid() && SameValue(num, den, old(num) * i, old(den))
    {
      NormalCoprime(num, den);
      OverOne(i);
      NormalCoprime(i, 1);
      ghost var n, m := ProductCoprime(num, den, i, 1);
      NormalCoprime(n, m);
      GcdOne(num);
      QuotExact(num, 1);
      QuotExact(1, 1);
      var gcd := Gcd(i, den);
      num := num * Quot(i, gcd);
      den := Quot(den, gcd);
    }

    /** `operator/=` with an integer. */
    method DivideInt(i: int) returns (ok: bool)
      requires Valid()
      modifies this
      ensures ok <==> i != 0
      ensures Valid()
      ensures ok ==> SameValue(num, den, old(num), old(den) * i)
      ensures !ok ==> num == old(num) && den == old(den)
    {
      if i == 0 {
        return false;
      }
      if num == 0 {
        return true;
      }
      NormalCoprime(num, den);
      OverOne(i);
      NormalCoprime(i, 1);
      CoprimeSymmetric(i, 1);
      ghost var n, m := ProductCoprime(num, den, 1, i);
      FixSign(n, m, num, den * i);
      GcdOne(den);
      QuotExact(den, 1);
      QuotExact(1, 1);
      var gcd := Gcd(num, i);
      num := Quot(num, gcd);
      den := den * Quot(i, gcd);
      if den < 0 {
        num := -num;
        den := -den;
      }
      return true;
    }

    /** `operator<`: decided by the continued-fraction expansions of the two. */
    method Less(r: Rational) returns (less: bool)
      requires den > 0 && r.den > 0
      ensures less <==> num * r.den < r.num * den
    {
      var tsN, tsD, tsQ, tsR := num, den, Quot(num, den), Rem(num, den);
      var rsN, rsD, rsQ, rsR := r.num, r.den, Quot(r.num, r.den), Rem(r.num, r.den);
      var reverse := false;
      while tsR < 0
        invariant tsN == tsQ * tsD + tsR && tsR < tsD
        decreases -tsR
      {
        Distribute(tsQ, -1, tsD);
        tsR := tsR + tsD;
        tsQ := tsQ - 1;
      }
      while rsR < 0
        invariant rsN == rsQ * rsD + rsR && rsR < rsD
        decreases -rsR
      {
        Distribute(rsQ, -1, rsD);
        rsR := rsR + rsD;
        rsQ := rsQ - 1;
      }
      ghost var answer := Below(num, den, r.num, r.den);
      while true
        invariant tsN == tsQ * tsD + tsR && 0 <= tsR < tsD
        invariant rsN == rsQ * rsD + rsR && 0 <= rsR < rsD
        invariant answer == if reverse then Below(rsN, rsD, tsN, tsD) else Below(tsN, tsD, rsN, rsD)
        decreases tsD
      {
        if tsQ != rsQ {
          QuotientsDecide(tsD, tsQ, tsR, rsD, rsQ, rsR);
          return if reverse then tsQ > rsQ else tsQ < rsQ;
        }
        Reciprocal(tsD, tsQ, tsR, rsD, rsR);
        reverse := !reverse;
        if tsR == 0 || rsR == 0 {
          break;
        }
        tsN, tsD := tsD, tsR;
        tsQ, tsR := Quot(tsN, tsD), Rem(tsN, tsD);
        rsN, rsD := rsD, rsR;
        rsQ, rsR := Quot(rsN, rsD), Rem(rsN, rsD);
      }
      if tsR == rsR {
        return false;
      } else {
        return (tsR != 0) != reverse;
      }
    }

    /** `operator<` with an integer. */
    method LessInt(i: int) returns (less: bool)
      requires den > 0
      ensures less <==> num < i * den
    {
      var q, r := Quot(num, den), Rem(num, den);
      while r < 0
        invariant num == q * den + r && r < den
        decreases -r
      {
        Distribute(q, -1, den);
        r := r + den;
        q := q - 1;
      }
      if q < i {
        LargeGap(i - q, den);
        Distribute(i, -q, den);
      } else {
        LargeGap(q - i + 1, den);
        Distribute(q, 1 - i, den);
        Distribute(1, -i, den);
      }
      less := q < i;
    }

    /** `operator>` with an integer. */
    method GreaterInt(i: int) returns (greater: bool)
      requires Valid()
      ensures greater <==> num > i * den
    {
      NormalCoprime(num, den);
      OverOne(i);
      EqualityIsStructural(num, den, i, 1);
      var less := LessInt(i);
      greater := if den == 1 && num == i then false else !less;
    }
  }

  /** `n1/d1 < n2/d2` for positive denominators. */
  ghost predicate Below(n1: int, d1: int, n2: int, d2: int) {
    n1 * d2 < n2 * d1
  }

  lemma LargeGap(k: int, d: int)
    requires k >= 1 && d > 0
    ensures k * d >= d
  {
    LargeMultiple(k, d);
    PositiveProduct(k, d);
  }

  /** Different whole parts decide the comparison. */
  lemma QuotientsDecide(d1: int, q1: int, r1: int, d2: int, q2: int, r2: int)
    requires 0 <= r1 < d1 && 0 <= r2 < d2 && q1 != q2
    ensures Below(q1 * d1 + r1, d1, q2 * d2 + r2, d2) <==> q1 < q2
    ensures Below(q2 * d2 + r2, d2, q1 * d1 + r1, d1) <==> q2 < q1
  {
    if q1 < q2 {
      WholePartDecides(d1, q1, r1, d2, q2, r2);
    } else {
      WholePartDecides(d2, q2, r2, d1, q1, r1);
    }
  }

  lemma WholePartDecides(d1: int, q1: int, r1: int, d2: int, q2: int, r2: int)
    requires 0 <= r1 < d1 && 0 <= r2 < d2 && q1 < q2
    ensures Below(q1 * d1 + r1, d1, q2 * d2 + r2, d2)
  {
    Distribute(q1 * d1, r1, d2);
    Distribute(q2 * d2, r2, d1);
    Associate(q1, d1, d2);
    Associate(q2, d2, d1);
    PositiveProduct(d1, d2);
    LargeGap(q2 - q1, d1 * d2);
    Distribute(q2, -q1, d1 * d2);
    PositiveProduct(d1 - r1, d2);
    Distribute(d1, -r1, d2);
    assert r2 * d1 >= 0;
  }

  /** With equal whole parts the comparison is that of the fractions, which is
      the opposite comparison of their reciprocals. */
  lemma Reciprocal(d1: int, q: int, r1: int, d2: int, r2: int)
    ensures Below(q * d1 + r1, d1, q * d2 + r2, d2) <==> Below(d2, r2, d1, r1)
    ensures Below(q * d2 + r2, d2, q * d1 + r1, d1) <==> Below(d1, r1, d2, r2)
  {
    Distribute(q * d1, r1, d2);
    Distribute(q * d2, r2, d1);
    Associate(q, d1, d2);
    Associate(q, d2, d1);
  }

  lemma OverOne(n: int)
    ensures Normal(n, 1)
  {
    assert n % 1 == 0;
    assert Gcd(n, 1) == Gcd(1, 0) == 1;
  }

  lemma GcdOne(a: int)
    ensures Gcd(a, 1) == 1 && Gcd(1, a) == 1
  {
    OverOne(a);
    CoprimeIsGcdOne(a, 1);
    CoprimeSymmetric(a, 1);
    CoprimeIsGcdOne(1, a);
  }
}
