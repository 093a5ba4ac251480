/** Normalised rational numbers.  The arithmetic divides by greatest common divisors before it
    multiplies, and the order is decided by comparing continued fractions.  */
module Rational {
  import opened Gcd

  datatype Ratio = Ratio(num: int, den: int)

  ghost predicate Normal(p: Ratio) {
    p.den > 0 && GCD(p.num, p.den) == 1
  }

  /** The number that a pair stands for. */
  ghost function Real(p: Ratio): real
    requires p.den != 0
  {
    p.num as real / p.den as real
  }

  // ---------- values and cross multiplication ----------

  lemma QuotientTimes(x: real, n: real, d: real)
    requires d != 0.0
    ensures x == n / d <==> x * d == n
  {
    assert n / d * d == n;
    if x * d == n {
      assert (x - n / d) * d == 0.0;
    }
  }

  lemma SameValue(p: Ratio, q: Ratio)
    requires p.den != 0 && q.den != 0
    ensures Real(p) == Real(q) <==> p.num * q.den == q.num * p.den
  {
    var x, y := Real(p), Real(q);
    var a, b, c, d := p.num as real, p.den as real, q.num as real, q.den as real;
    QuotientTimes(x, a, b);
    QuotientTimes(y, c, d);
    assert a * d == x * b * d && c * b == y * d * b;
    assert (p.num * q.den) as real == a * d && (q.num * p.den) as real == c * b;
    if a * d == c * b {
      assert (x - y) * (b * d) == 0.0;
      assert b * d != 0.0;
    }
  }

  lemma LessValue(p: Ratio, q: Ratio)
    requires p.den > 0 && q.den > 0
    ensures Real(p) < Real(q) <==> p.num * q.den < q.num * p.den
  {
    var x, y := Real(p), Real(q);
    var a, b, c, d := p.num as real, p.den as real, q.num as real, q.den as real;
    QuotientTimes(x, a, b);
    QuotientTimes(y, c, d);
    assert a * d == x * (b * d) && c * b == y * (b * d) by {
      assert x * b * d == x * (b * d);
      assert y * d * b == y * (b * d);
    }
    assert (p.num * q.den) as real == a * d && (q.num * p.den) as real == c * b;
    assert b * d > 0.0;
    assert (y - x) * (b * d) == c * b - a * d;
    if x < y {
      assert (y - x) * (b * d) > 0.0;
    } else {
      assert (x - y) * (b * d) >= 0.0;
    }
  }

  lemma ZeroIsNormal()
    ensures Normal(Ratio(0, 1))
  {
  }

  /** A normalised pair is determined by its value. */
  lemma NormalUnique(p: Ratio, q: Ratio)
    requires Normal(p) && Normal(q) && Real(p) == Real(q)
    ensures p == q
  {
    hide GCD, Coprime;
    SameValue(p, q);
    GcdOneIsCoprime(p.num, p.den);
    GcdOneIsCoprime(q.num, q.den);
    DenominatorDivides(p.num, p.den, q.num, q.den);
    DenominatorDivides(q.num, q.den, p.num, p.den);
    var k :| Times(p.den, k) == q.den;
    var l :| Times(q.den, l) == p.den;
    ProductSize(p.den, k);
    ProductSize(q.den, l);
    assert p.den == q.den;
    assert (p.num - q.num) * p.den == 0;
  }

  lemma DenominatorDivides(a: int, b: int, c: int, d: int)
    requires Coprime(a, b) && a * d == c * b
    ensures Divides(b, d)
  {
    var x, y :| Comb(a, b, x, y) == 1;
    assert d == d * (a * x + b * y);
    assert d * (a * x) == (a * d) * x;
    assert (c * b) * x == b * (c * x);
    assert d * (b * y) == b * (d * y);
    assert d == b * (c * x + d * y);
    DividesBy(b, c * x + d * y);
  }

  // ---------- why the reduced forms are normalised ----------

  lemma CoprimeParts(a: int, k: int, b: int, l: int)
    requires Coprime(a * k, b * l)
    ensures Coprime(a, b)
  {
    CoprimeFactor(a, k, b * l);
    CoprimeSymmetric(a, b * l);
    CoprimeFactor(b, l, a);
    CoprimeSymmetric(b, a);
  }

  /** a*d1 + c*b1 shares no factor with b1. */
  lemma SumCoprime(a: int, b1: int, c: int, d1: int)
    requires Coprime(a, b1) && Coprime(d1, b1)
    ensures Coprime(a * d1 + c * b1, b1)
  {
    CoprimeProduct(a, d1, b1);
    CoprimeShift(a * d1, b1, c);
    assert b1 * c == c * b1;
  }

  /** Adding a/(b1*g) and c/(d1*g): it is enough to divide by gcd(t, g). */
  lemma ReducedSum(a: int, b1: int, c: int, d1: int, g: int, t1: int, g1: int, g2: int)
    requires Coprime(a, b1 * g) && Coprime(c, d1 * g) && Coprime(b1, d1)
    requires g2 * t1 == a * d1 + c * b1 && g == g2 * g1 && Coprime(t1, g1)
    ensures Coprime(t1, b1 * (g1 * d1))
    ensures t1 * (b1 * g * (d1 * g)) == (a * (d1 * g) + c * (b1 * g)) * (b1 * (g1 * d1))
  {
    var t := a * d1 + c * b1;
    CoprimeSymmetric(b1, d1);
    CoprimeSymmetric(a, b1 * g);
    CoprimeFactor(b1, g, a);
    CoprimeSymmetric(b1, a);
    SumCoprime(a, b1, c, d1);
    CoprimeSymmetric(c, d1 * g);
    CoprimeFactor(d1, g, c);
    CoprimeSymmetric(d1, c);
    SumCoprime(c, d1, a, b1);
    assert t == c * b1 + a * d1 && t == t1 * g2;
    CoprimeFactor(t1, g2, b1);
    CoprimeFactor(t1, g2, d1);
    CoprimeSymmetric(t1, g1);
    CoprimeSymmetric(t1, d1);
    CoprimeSymmetric(t1, b1);
    CoprimeProduct(g1, d1, t1);
    CoprimeProduct(b1, g1 * d1, t1);
    CoprimeSymmetric(b1 * (g1 * d1), t1);
    SumValue(a, b1, c, d1, g, t1, g1, g2);
  }

  lemma SumValue(a: int, b1: int, c: int, d1: int, g: int, t1: int, g1: int, g2: int)
    requires g2 * t1 == a * d1 + c * b1 && g == g2 * g1
    ensures t1 * (b1 * g * (d1 * g)) == (a * (d1 * g) + c * (b1 * g)) * (b1 * (g1 * d1))
  {
    CommonFactorOut(t1, b1, d1, g1, g2);
    CrossSum(a, b1, c, d1, g);
    SameFactor(g2 * t1, a * d1 + c * b1, g, b1 * (g1 * d1));
  }

  lemma CommonFactorOut(t1: int, b1: int, d1: int, g1: int, g2: int)
    ensures t1 * (b1 * (g2 * g1) * (d1 * (g2 * g1))) == g2 * t1 * (g2 * g1) * (b1 * (g1 * d1))
  {
  }

  lemma CrossSum(a: int, b1: int, c: int, d1: int, g: int)
    ensures a * (d1 * g) + c * (b1 * g) == (a * d1 + c * b1) * g
  {
  }

  lemma SameFactor(x: int, y: int, g: int, w: int)
    requires x == y
    ensures x * g * w == y * g * w
  {
  }

  /** Multiplying a1*g1/(b1*g2) by c1*g2/(d1*g1): cross-cancelling is enough. */
  lemma ReducedProduct(a1: int, b1: int, c1: int, d1: int, g1: int, g2: int)
    requires Coprime(a1 * g1, b1 * g2) && Coprime(c1 * g2, d1 * g1) && Coprime(a1, d1) && Coprime(c1, b1)
    ensures Coprime(a1 * c1, b1 * d1)
    ensures (a1 * c1) * (b1 * g2 * (d1 * g1)) == (a1 * g1 * (c1 * g2)) * (b1 * d1)
  {
    CoprimeParts(a1, g1, b1, g2);
    CoprimeParts(c1, g2, d1, g1);
    CoprimeProduct(a1, c1, b1);
    CoprimeProduct(a1, c1, d1);
    CoprimeSymmetric(a1 * c1, b1);
    CoprimeSymmetric(a1 * c1, d1);
    CoprimeProduct(b1, d1, a1 * c1);
    CoprimeSymmetric(b1 * d1, a1 * c1);
    assert (a1 * c1) * (b1 * g2 * (d1 * g1)) == a1 * c1 * b1 * g2 * d1 * g1;
    assert (a1 * g1 * (c1 * g2)) * (b1 * d1) == a1 * c1 * b1 * g2 * d1 * g1;
  }

  // ---------- the class ----------

  lemma PositiveFactor(n: int, g: int, k: int)
    requires n == g * k && n > 0 && g > 0
    ensures k > 0
  {
    ProductSize(g, k);
  }

  lemma PositiveProduct(m: int, n: int)
    requires m > 0 && n > 0
    ensures m * n > 0
  {
  }

  class Rational {
    var num: int
    var den: int

    function Value(): Ratio
      reads this
    {
      Ratio(num, den)
    }

    /** Add r, which may be this very object. */
    method AddAssign(r: Rational)
      requires Normal(Value()) && Normal(r.Value())
      modifies this
      ensures Normal(Value()) && Real(Value()) == Real(old(Value())) + Real(old(r.Value()))
    {
      var rNum, rDen := r.num, r.den;
      ghost var p, q := Value(), r.Value();
      GcdDivides(den, rDen);
      var g := GCD(den, rDen);
      den := CDiv(den, g);
      num := num * CDiv(rDen, g) + rNum * den;
      ghost var t := num;
      GcdDivides(num, g);
      g := GCD(num, g);
      num := CDiv(num, g);
      den := den * CDiv(rDen, g);
      SumIsNormal(p, q, t, g);
    }

    /** Subtract r. */
    method SubAssign(r: Rational)
      requires Normal(Value()) && Normal(r.Value())
      modifies this
      ensures Normal(Value()) && Real(Value()) == Real(old(Value())) - Real(old(r.Value()))
    {
      var rNum, rDen := r.num, r.den;
      ghost var p, q := Value(), r.Value();
      GcdDivides(den, rDen);
      var g := GCD(den, rDen);
      den := CDiv(den, g);
      num := num * CDiv(rDen, g) - rNum * den;
      ghost var t := num;
      GcdDivides(num, g);
      g := GCD(num, g);
      num := CDiv(num, g);
      den := den * CDiv(rDen, g);
      NegatedValue(q);
      assert -(rNum * CDiv(p.den, GCD(p.den, rDen))) == -rNum * CDiv(p.den, GCD(p.den, rDen));
      SumIsNormal(p, Ratio(-rNum, rDen), t, g);
    }

    /** Multiply by r, cancelling crosswise first. */
    method MulAssign(r: Rational)
      requires Normal(Value()) && Normal(r.Value())
      modifies this
      ensures Normal(Value()) && Real(Value()) == Real(old(Value())) * Real(old(r.Value()))
    {
      hide GCD, Coprime, CDiv;
      var rNum, rDen := r.num, r.den;
      ghost var p, q := Value(), r.Value();
      GcdDivides(num, rDen);
      GcdDivides(rNum, den);
      var gcd1 := GCD(num, rDen);
      var gcd2 := GCD(rNum, den);
      ProductIsNormal(p, q);
      num := CDiv(num, gcd1) * CDiv(rNum, gcd2);
      den := CDiv(den, gcd2) * CDiv(rDen, gcd1);
    }

    /** Divide by r; false stands for the bad_rational exception, which changes nothing. */
    method DivAssign(r: Rational) returns (ok: bool)
      requires Normal(Value()) && Normal(r.Value())
      modifies this
      ensures ok <==> Real(old(r.Value())) != 0.0
      ensures ok ==> Normal(Value()) && Real(Value()) == Real(old(Value())) / Real(old(r.Value()))
      ensures !ok ==> Value() == old(Value())
    {
      var rNum, rDen := r.num, r.den;
      ghost var p, q := Value(), r.Value();
      ZeroValue(q);
      if rNum == 0 {
        return false;
      }
      ok := true;
      if num == 0 {
        ZeroValue(p);
        return;
      }
      GcdDivides(num, rNum);
      GcdDivides(rDen, den);
      var gcd1 := GCD(num, rNum);
      var gcd2 := GCD(rDen, den);
      num := CDiv(num, gcd1) * CDiv(rDen, gcd2);
      den := CDiv(den, gcd2) * CDiv(rNum, gcd1);
      QuotientIsNormal(p, q);
      if den < 0 {
        num := -num;
        den := -den;
      }
    }

    /** Multiply by an integer. */
    method MulAssignInt(i: int)
      requires Normal(Value())
      modifies this
      ensures Normal(Value()) && Real(Value()) == Real(old(Value())) * i as real
    {
      hide GCD, Coprime, CDiv;
      ghost var p := Value();
      GcdDivides(i, den);
      var gcd := GCD(i, den);
      Whole(i);
      OneWithAll(p.num);
      ProductIsNormal(p, Ratio(i, 1));
      num := num * CDiv(i, gcd);
      den := CDiv(den, gcd);
    }

    /** Divide by an integer; false stands for bad_rational. */
    method DivAssignInt(i: int) returns (ok: bool)
      requires Normal(Value())
      modifies this
      ensures ok <==> i != 0
      ensures ok ==> Normal(Value()) && Real(Value()) == Real(old(Value())) / i as real
      ensures !ok ==> Value() == old(Value())
    {
      ghost var p := Value();
      if i == 0 {
        return false;
      }
      ok := true;
      if num == 0 {
        ZeroValue(p);
        return;
      }
      GcdDivides(num, i);
      var gcd := GCD(num, i);
      num := CDiv(num, gcd);
      den := den * CDiv(i, gcd);
      Whole(i);
      OneWithAll(p.den);
      QuotientIsNormal(p, Ratio(i, 1));
      if den < 0 {
        num := -num;
        den := -den;
      }
    }

    /** Bring any pair with a denominator into normal form; false stands for bad_rational. */
    method Normalize() returns (ok: bool)
      modifies this
      ensures ok <==> old(den) != 0
      ensures ok ==> Normal(Value()) && Real(Value()) == Real(old(Value()))
      ensures !ok ==> Value() == old(Value())
    {
      hide GCD, CDiv;
      if den == 0 {
        return false;
      }
      ok := true;
      ghost var p := Value();
      if num == 0 {
        den := 1;
        ZeroIsNormal();
        assert 0.0 / p.den as real == 0.0;
        return;
      }
      var g := GCD(num, den);
      GcdDivides(num, den);
      ghost var a1, b1 := Reduced(num, den);
      CDivExact(g, a1);
      CDivExact(g, b1);
      num := CDiv(num, g);
      den := CDiv(den, g);
      assert den != 0;
      assert num * p.den == p.num * den;
      SameValue(Value(), p);
      FlipSign(Value());
      if den < 0 {
        num := -num;
        den := -den;
      }
      GcdOneIsCoprime(num, den);
    }

    // ---------- order ----------

    /** Compare with r by continued fractions. */
    method Less(r: Rational) returns (less: bool)
      requires den > 0 && r.den > 0
      ensures less <==> Real(Value()) < Real(r.Value())
    {
      LessValue(Value(), r.Value());
      ghost var want := Below(num, den, r.num, r.den);
      var tn, td, tq, tr := num, den, CDiv(num, den), CMod(num, den);
      var rn, rd, rq, rr := r.num, r.den, CDiv(r.num, r.den), CMod(r.num, r.den);
      TruncatedRemainder(num, den);
      TruncatedRemainder(r.num, r.den);
      tq, tr := Floor(tn, td, tq, tr);
      rq, rr := Floor(rn, rd, rq, rr);
      var reverse := false;
      while true
        invariant td > 0 && rd > 0 && 0 <= tr < td && 0 <= rr < rd
        invariant tn == tq * td + tr && rn == rq * rd + rr
        invariant want == if reverse then Below(rn, rd, tn, td) else Below(tn, td, rn, rd)
        decreases td
      {
        FloorsDecide(tn, td, tq, tr, rn, rd, rq, rr);
        FloorsDecide(rn, rd, rq, rr, tn, td, tq, tr);
        if tq != rq {
          return if reverse then tq > rq else tq < rq;
        }
        reverse := !reverse;
        if tr == 0 || rr == 0 {
          break;
        }
        assert want == if reverse then Below(rd, rr, td, tr) else Below(td, tr, rd, rr);
        tn, td := td, tr;
        tq, tr := CDiv(tn, td), CMod(tn, td);
        rn, rd := rd, rr;
        rq, rr := CDiv(rn, rd), CMod(rn, rd);
        PositiveDivision(tn, td);
        PositiveDivision(rn, rd);
      }
      PositiveProductOrZero(tr, rd);
      PositiveProductOrZero(rr, td);
      if tr == rr {
        return false;
      } else {
        return (tr != 0) != reverse;
      }
    }

    /** Compare with an integer: only the floor matters. */
    method LessInt(i: int) returns (less: bool)
      requires den > 0
      ensures less <==> Real(Value()) < i as real
    {
      var q, rem := CDiv(num, den), CMod(num, den);
      TruncatedRemainder(num, den);
      q, rem := Floor(num, den, q, rem);
      LessValue(Value(), Ratio(i, 1));
      Whole(i);
      FloorsDecide(num, den, q, rem, i, 1, i, 0);
      FloorsDecide(i, 1, i, 0, num, den, q, rem);
      PositiveProductOrZero(rem, 1);
      less := q < i;
    }

    /** On normalised numbers, equality of the fields is equality of the values. */
    method Equals(r: Rational) returns (same: bool)
      requires Normal(Value()) && Normal(r.Value())
      ensures same <==> Real(Value()) == Real(r.Value())
    {
      same := num == r.num && den == r.den;
      if Real(Value()) == Real(r.Value()) {
        NormalUnique(Value(), r.Value());
      }
    }
  }

  /** a/b < c/d for positive denominators. */
  predicate Below(a: int, b: int, c: int, d: int) {
    a * d < c * b
  }

  /** The loop that turns a truncated quotient into a floor. */
  method Floor(n: int, d: int, q0: int, r0: int) returns (q: int, r: int)
    requires d > 0 && n == q0 * d + r0 && -d < r0 < d
    ensures n == q * d + r && 0 <= r < d
  {
    q, r := q0, r0;
    while r < 0
      invariant n == q * d + r && -d < r < d
      decreases -r
    {
      r := r + d;
      q := q - 1;
    }
  }

  lemma FinishSum(p: Ratio, q: Ratio, b1: int, d1: int, t1: int, g1: int, g2: int)
    requires Normal(p) && Normal(q) && g2 > 0
    requires var g := GCD(p.den, q.den);
      && g > 0 && p.den == g * b1 && q.den == g * d1 && Coprime(b1, d1)
      && p.num * d1 + q.num * b1 == g2 * t1 && g == g2 * g1 && Coprime(t1, g1)
    ensures var r := Ratio(t1, b1 * (g1 * d1)); Normal(r) && Real(r) == Real(p) + Real(q)
  {
    var g := GCD(p.den, q.den);
    var r := Ratio(t1, b1 * (g1 * d1));
    GcdOneIsCoprime(p.num, p.den);
    GcdOneIsCoprime(q.num, q.den);
    assert p.den == b1 * g && q.den == d1 * g;
    ReducedSum(p.num, b1, q.num, d1, g, t1, g1, g2);
    GcdOneIsCoprime(r.num, r.den);
    PositiveFactor(p.den, g, b1);
    PositiveFactor(q.den, g, d1);
    PositiveFactor(g, g2, g1);
    PositiveProduct(g1, d1);
    PositiveProduct(b1, g1 * d1);
    RealSum(p, q, r);
  }

  lemma RealSum(p: Ratio, q: Ratio, r: Ratio)
    requires p.den != 0 && q.den != 0 && r.den != 0
    requires r.num * (p.den * q.den) == (p.num * q.den + q.num * p.den) * r.den
    ensures Real(r) == Real(p) + Real(q)
  {
    var s := Ratio(p.num * q.den + q.num * p.den, p.den * q.den);
    assert s.den != 0;
    SameValue(r, s);
    var x, y := Real(p), Real(q);
    var a, b, c, d := p.num as real, p.den as real, q.num as real, q.den as real;
    QuotientTimes(x, a, b);
    QuotientTimes(y, c, d);
    assert (x + y) * (b * d) == (x * b) * d + (y * d) * b;
    assert s.num as real == a * d + c * b && s.den as real == b * d;
    QuotientTimes(x + y, s.num as real, s.den as real);
  }

  lemma RealProduct(p: Ratio, q: Ratio, r: Ratio)
    requires p.den != 0 && q.den != 0 && r.den != 0
    requires r.num * (p.den * q.den) == p.num * q.num * r.den
    ensures Real(r) == Real(p) * Real(q)
  {
    var s := Ratio(p.num * q.num, p.den * q.den);
    assert s.den != 0;
    SameValue(r, s);
    var x, y := Real(p), Real(q);
    var a, b, c, d := p.num as real, p.den as real, q.num as real, q.den as real;
    QuotientTimes(x, a, b);
    QuotientTimes(y, c, d);
    assert (x * y) * (b * d) == (x * b) * (y * d);
    assert s.num as real == a * c && s.den as real == b * d;
    QuotientTimes(x * y, s.num as real, s.den as real);
  }

  lemma NegatedValue(p: Ratio)
    requires p.den != 0
    ensures Real(Ratio(-p.num, p.den)) == -Real(p)
    ensures Normal(p) ==> Normal(Ratio(-p.num, p.den))
  {
    var x, n, d := Real(p), p.num as real, p.den as real;
    QuotientTimes(x, n, d);
    assert -x * d == -(x * d);
    QuotientTimes(-x, -n, d);
  }

  lemma FlipSign(p: Ratio)
    requires p.den != 0
    ensures Real(Ratio(-p.num, -p.den)) == Real(p)
    ensures Coprime(p.num, p.den) ==> Coprime(-p.num, -p.den)
  {
    assert -p.num * p.den == p.num * -p.den;
    SameValue(Ratio(-p.num, -p.den), p);
    if Coprime(p.num, p.den) {
      var x, y :| Comb(p.num, p.den, x, y) == 1;
      assert -p.num * -x == p.num * x && -p.den * -y == p.den * y;
      CoprimeBy(-p.num, -p.den, -x, -y);
    }
  }

  lemma ZeroValue(p: Ratio)
    requires p.den != 0
    ensures Real(p) == 0.0 <==> p.num == 0
  {
    QuotientTimes(0.0, p.num as real, p.den as real);
  }

  lemma Whole(i: int)
    ensures Normal(Ratio(i, 1)) && Real(Ratio(i, 1)) == i as real
  {
    CoprimeBy(i, 1, 0, 1);
    GcdOneIsCoprime(i, 1);
    QuotientTimes(i as real, i as real, 1.0);
  }

  lemma Inverse(q: Ratio)
    requires q.den != 0 && q.num != 0
    ensures Real(q) != 0.0 && Real(Ratio(q.den, q.num)) == 1.0 / Real(q)
  {
    var n, d := q.num as real, q.den as real;
    ZeroValue(q);
    var x, y := Real(q), Real(Ratio(q.den, q.num));
    QuotientTimes(x, n, d);
    QuotientTimes(y, d, n);
    assert x * d == n && y * n == d;
    assert y * n == y * (x * d) == (y * x) * d;
    assert (y * x - 1.0) * d == 0.0;
    QuotientTimes(y, 1.0, x);
  }

  /** 1 has no factor in common with anything. */
  lemma OneWithAll(n: int)
    ensures GCD(n, 1) == 1 && GCD(1, n) == 1 && CDiv(n, 1) == n && CDiv(1, 1) == 1
  {
    CoprimeBy(n, 1, 0, 1);
    GcdOneIsCoprime(n, 1);
    GcdOneIsCoprime(1, n);
    CDivExact(1, n);
    CDivExact(1, 1);
  }

  /** Exact division by the greatest common divisor. */
  lemma DividedByGcd(a: int, b: int)
    requires a != 0 || b != 0
    ensures var g := GCD(a, b);
      g > 0 && a == g * CDiv(a, g) && b == g * CDiv(b, g) && Coprime(CDiv(a, g), CDiv(b, g))
  {
    GcdDivides(a, b);
    var a1, b1 := Reduced(a, b);
    CDivExact(GCD(a, b), a1);
    CDivExact(GCD(a, b), b1);
  }

  lemma SumIsNormal(p: Ratio, q: Ratio, t: int, g: int)
    requires Normal(p) && Normal(q) && GCD(p.den, q.den) != 0
    requires t == p.num * CDiv(q.den, GCD(p.den, q.den)) + q.num * CDiv(p.den, GCD(p.den, q.den))
    requires g == GCD(t, GCD(p.den, q.den)) != 0
    ensures var r := Ratio(CDiv(t, g), CDiv(p.den, GCD(p.den, q.den)) * CDiv(q.den, g));
      Normal(r) && Real(r) == Real(p) + Real(q)
  {
    var h := GCD(p.den, q.den);
    DividedByGcd(p.den, q.den);
    var b1, d1 := CDiv(p.den, h), CDiv(q.den, h);
    DividedByGcd(t, h);
    var t1, g1 := CDiv(t, g), CDiv(h, g);
    assert q.den == g * (g1 * d1);
    CDivExact(g, g1 * d1);
    FinishSum(p, q, b1, d1, t1, g1, g);
  }

  lemma ProductIsNormal(p: Ratio, q: Ratio)
    requires Normal(p) && Normal(q) && GCD(p.num, q.den) != 0 && GCD(q.num, p.den) != 0
    ensures var g1, g2 := GCD(p.num, q.den), GCD(q.num, p.den);
      var r := Ratio(CDiv(p.num, g1) * CDiv(q.num, g2), CDiv(p.den, g2) * CDiv(q.den, g1));
      Normal(r) && Real(r) == Real(p) * Real(q)
  {
    var g1, g2 := GCD(p.num, q.den), GCD(q.num, p.den);
    DividedByGcd(p.num, q.den);
    DividedByGcd(q.num, p.den);
    GcdOneIsCoprime(p.num, p.den);
    GcdOneIsCoprime(q.num, q.den);
    var a1, b1, c1, d1 := CDiv(p.num, g1), CDiv(p.den, g2), CDiv(q.num, g2), CDiv(q.den, g1);
    FinishProduct(p, q, a1, b1, c1, d1, g1, g2);
    PositiveFactor(p.den, g2, b1);
    PositiveFactor(q.den, g1, d1);
    PositiveProduct(b1, d1);
    GcdOneIsCoprime(a1 * c1, b1 * d1);
  }

  /** The quotient before its sign is moved to the numerator. */
  lemma QuotientIsNormal(p: Ratio, q: Ratio)
    requires Normal(p) && Normal(q) && q.num != 0 && GCD(p.num, q.num) != 0 && GCD(q.den, p.den) != 0
    ensures var g1, g2 := GCD(p.num, q.num), GCD(q.den, p.den);
      var r := Ratio(CDiv(p.num, g1) * CDiv(q.den, g2), CDiv(p.den, g2) * CDiv(q.num, g1));
      var s := if r.den < 0 then Ratio(-r.num, -r.den) else r;
      Real(q) != 0.0 && Normal(s) && Real(s) == Real(p) / Real(q)
  {
    hide GCD, Coprime, CDiv;
    var g1, g2 := GCD(p.num, q.num), GCD(q.den, p.den);
    DividedByGcd(p.num, q.num);
    DividedByGcd(q.den, p.den);
    GcdOneIsCoprime(p.num, p.den);
    GcdOneIsCoprime(q.num, q.den);
    CoprimeSymmetric(q.num, q.den);
    var a1, b1, c1, d1 := CDiv(p.num, g1), CDiv(p.den, g2), CDiv(q.den, g2), CDiv(q.num, g1);
    FinishProduct(p, Ratio(q.den, q.num), a1, b1, c1, d1, g1, g2);
    Inverse(q);
    DivideIsTimesInverse(Real(p), Real(q));
    FlipSign(Ratio(a1 * c1, b1 * d1));
    GcdOneIsCoprime(a1 * c1, b1 * d1);
    GcdOneIsCoprime(-(a1 * c1), -(b1 * d1));
  }

  lemma DivideIsTimesInverse(x: real, y: real)
    requires y != 0.0
    ensures x * (1.0 / y) == x / y
  {
    assert (x * (1.0 / y)) * y == x;
    QuotientTimes(x * (1.0 / y), x, y);
  }

  lemma FinishProduct(p: Ratio, q: Ratio, a1: int, b1: int, c1: int, d1: int, g1: int, g2: int)
    requires p.den != 0 && q.den != 0 && Coprime(p.num, p.den) && Coprime(q.num, q.den)
    requires p.num == g1 * a1 && q.den == g1 * d1 && q.num == g2 * c1 && p.den == g2 * b1
    requires Coprime(a1, d1) && Coprime(c1, b1)
    ensures b1 * d1 != 0 && Coprime(a1 * c1, b1 * d1)
    ensures Real(Ratio(a1 * c1, b1 * d1)) == Real(p) * Real(q)
  {
    assert p.num == a1 * g1 && p.den == b1 * g2 && q.num == c1 * g2 && q.den == d1 * g1;
    ReducedProduct(a1, b1, c1, d1, g1, g2);
    assert b1 != 0 && d1 != 0;
    assert b1 * d1 != 0;
    RealProduct(p, q, Ratio(a1 * c1, b1 * d1));
  }

  // ---------- steps of the comparison ----------

  lemma TruncatedRemainder(n: int, d: int)
    requires d > 0
    ensures n == CDiv(n, d) * d + CMod(n, d) && -d < CMod(n, d) < d
  {
    var m := Abs(n);
    assert m == d * (m / d) + m % d;
    assert CDiv(n, d) * d == d * CDiv(n, d);
    if n < 0 {
      assert d * -(m / d) == -(d * (m / d));
    }
  }

  lemma PositiveDivision(n: int, d: int)
    requires n > 0 && d > 0
    ensures n == CDiv(n, d) * d + CMod(n, d) && 0 <= CMod(n, d) < d
  {
    assert n == d * (n / d) + n % d;
  }

  lemma ScaledFloor(n: int, d: int, q: int, r: int, e: int)
    requires n == q * d + r && 0 <= r < d && e > 0
    ensures n * e == q * (d * e) + r * e && 0 <= r * e < d * e
  {
    assert (q * d + r) * e == q * (d * e) + r * e;
    assert (d - r) * e > 0;
  }

  /** Different floors decide the order; equal floors leave it to the remainders. */
  lemma FloorsDecide(n1: int, d1: int, q1: int, r1: int, n2: int, d2: int, q2: int, r2: int)
    requires d1 > 0 && d2 > 0 && 0 <= r1 < d1 && 0 <= r2 < d2
    requires n1 == q1 * d1 + r1 && n2 == q2 * d2 + r2
    ensures q1 < q2 ==> Below(n1, d1, n2, d2) && !Below(n2, d2, n1, d1)
    ensures q1 == q2 ==> (Below(n1, d1, n2, d2) <==> r1 * d2 < r2 * d1)
  {
    ScaledFloor(n1, d1, q1, r1, d2);
    ScaledFloor(n2, d2, q2, r2, d1);
    var both := d1 * d2;
    assert d2 * d1 == both;
    FloorGap(q1, q2, both, r1 * d2, r2 * d1);
  }

  lemma FloorGap(q1: int, q2: int, both: int, x: int, y: int)
    requires 0 <= x < both && 0 <= y < both
    ensures q1 < q2 ==> q1 * both + x < q2 * both + y
    ensures q1 == q2 ==> q1 * both == q2 * both
  {
    if q1 < q2 {
      NotNegative(q2 - q1 - 1, both);
      Spread(q1, q2 - q1 - 1, both);
    }
  }

  lemma NotNegative(k: int, m: int)
    requires k >= 0 && m >= 0
    ensures k * m >= 0
  {
  }

  lemma Spread(q: int, k: int, m: int)
    ensures (q + 1 + k) * m == q * m + m + k * m
  {
  }

  lemma PositiveProductOrZero(r: int, d: int)
    requires r >= 0 && d > 0
    ensures r * d >= 0 && (r * d == 0 <==> r == 0)
  {
  }

  // ---------- is_normalized ----------

  /** The original's own recursion, on truncated remainders; its sign is arbitrary. */
  function InnerGcd(a: int, b: int): int
    decreases Abs(b)
  {
    if b == 0 then a else
      assert Abs(CMod(a, b)) < Abs(b) by { RemainderSize(a, b); }
      InnerGcd(b, CMod(a, b))
  }

  lemma RemainderSize(a: int, b: int)
    requires b != 0
    ensures Abs(CMod(a, b)) == Abs(a) % Abs(b)
  {
    var m: int, n: int := Abs(a), Abs(b);
    var q: int := m / n;
    var t: int := n * q;
    assert m == t + m % n;
    SignedProduct(n, q);
    assert CDiv(a, b) == if (a < 0) == (b < 0) then q else -q;
    assert b * CDiv(a, b) == if a < 0 then -t else t;
  }

  lemma SignedProduct(n: int, q: int)
    ensures -n * q == -(n * q) && n * -q == -(n * q) && -n * -q == n * q
  {
  }

  lemma {:induction false} InnerGcdIsGcd(a: int, b: int)
    ensures Abs(InnerGcd(a, b)) == GCD(a, b)
    decreases Abs(b)
  {
    if b != 0 {
      RemainderSize(a, b);
      InnerGcdIsGcd(b, CMod(a, b));
    }
  }

  function IsNormalized(n: int, d: int): bool {
    d > 0 && (n != 0 || d == 1) && Abs(InnerGcd(n, d)) == 1
  }

  /** The extra test for zero is implied by the others. */
  lemma IsNormalizedExactly(n: int, d: int)
    ensures IsNormalized(n, d) <==> Normal(Ratio(n, d))
  {
    InnerGcdIsGcd(n, d);
    if n == 0 && d > 0 {
      assert 0 % d == 0;
      assert Euclid(0, d) == Euclid(d, 0 % d) == d;
    }
  }

  // ---------- the operators undo each other ----------

  lemma QuotientOfProduct(x: real, y: real)
    requires y != 0.0
    ensures x * y / y == x
  {
    QuotientTimes(x, x * y, y);
  }

  lemma OneIsNormal()
    ensures Normal(Ratio(1, 1))
  {
  }

  lemma WholeValue(i: int)
    ensures Real(Ratio(i, 1)) == i as real
  {
  }

  /** x += q followed by x -= q: x is what it was, field by field, unless q is x itself. */
  method AddThenSubtract(x: Rational, q: Rational)
    requires Normal(x.Value()) && Normal(q.Value())
    modifies x
    ensures x.Value() == if x == q then Ratio(0, 1) else old(x.Value())
  {
    hide Normal, Real;
    ZeroIsNormal();
    WholeValue(0);
    x.AddAssign(q);
    x.SubAssign(q);
    NormalUnique(x.Value(), if x == q then Ratio(0, 1) else old(x.Value()));
  }

  /** x *= q followed by x /= q: x is what it was, field by field, unless q is x itself; for q zero
      the division throws and leaves the product. */
  method MultiplyThenDivide(x: Rational, q: Rational) returns (ok: bool)
    requires Normal(x.Value()) && Normal(q.Value())
    modifies x
    ensures ok <==> Real(old(q.Value())) != 0.0
    ensures x.Value() == if !ok then Ratio(0, 1) else if x == q then Ratio(1, 1) else old(x.Value())
  {
    hide GCD, Real;
    ZeroIsNormal();
    OneIsNormal();
    WholeValue(0);
    WholeValue(1);
    ghost var a, b := Real(x.Value()), Real(q.Value());
    x.MulAssign(q);
    ghost var product := Real(x.Value());
    assert product == a * b;
    Cancels(a, b);
    ok := x.DivAssign(q);
    if !ok {
      assert Real(x.Value()) == product == 0.0;
      NormalUnique(x.Value(), Ratio(0, 1));
    } else if x == q {
      assert Real(x.Value()) == product / product == 1.0;
      NormalUnique(x.Value(), Ratio(1, 1));
    } else {
      assert Real(x.Value()) == product / b == a;
      NormalUnique(x.Value(), old(x.Value()));
    }
  }

  lemma Cancels(a: real, b: real)
    ensures if b == 0.0 then a * b == 0.0 else a * b / b == a && (a == b ==> a * b != 0.0 && a * b / (a * b) == 1.0)
  {
    if b != 0.0 {
      QuotientOfProduct(a, b);
      if a == b {
        SameSign(a, b);
        SelfQuotient(a * b);
      }
    }
  }

  lemma SelfQuotient(z: real)
    requires z != 0.0
    ensures z / z == 1.0
  {
  }

  lemma SameSign(x: real, y: real)
    requires (x > 0.0 && y > 0.0) || (x < 0.0 && y < 0.0)
    ensures x * y > 0.0
  {
    var u, v := if x > 0.0 then x else -x, if y > 0.0 then y else -y;
    PositiveReals(u, v);
    Negated(x, y);
  }

  lemma PositiveReals(x: real, y: real)
    requires x > 0.0 && y > 0.0
    ensures x * y > 0.0
  {
  }

  lemma Negated(x: real, y: real)
    ensures -x * -y == x * y
  {
  }
}
