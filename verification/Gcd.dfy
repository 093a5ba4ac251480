/** Greatest common divisors of arbitrary integers, by way of Bezout's identity, and division
    that truncates toward zero as the built-in operators of the original do.  */
module Gcd {

  function Abs(a: int): nat {
    if a < 0 then -a else a
  }

  function Euclid(m: nat, n: nat): nat
    decreases n
  {
    if n == 0 then m else Euclid(n, m % n)
  }

  /** Never negative; zero only for two zeros. */
  function GCD(a: int, b: int): nat {
    Euclid(Abs(a), Abs(b))
  }

  function Comb(a: int, b: int, x: int, y: int): int {
    a * x + b * y
  }

  /** Some integer combination of a and b is 1. */
  ghost predicate Coprime(a: int, b: int) {
    exists x, y :: Comb(a, b, x, y) == 1
  }

  ghost predicate Divides(d: int, a: int) {
    exists k :: Times(d, k) == a
  }

  function Times(d: int, k: int): int {
    d * k
  }

  // ---------- truncating division ----------

  function CDiv(a: int, b: int): int
    requires b != 0
  {
    if (a < 0) == (b < 0) then Abs(a) / Abs(b) else -(Abs(a) / Abs(b))
  }

  function CMod(a: int, b: int): int
    requires b != 0
  {
    a - b * CDiv(a, b)
  }

  lemma ExactQuotient(k: nat, d: nat)
    requires d > 0
    ensures d * k / d == k
  {
    var q, r := d * k / d, d * k % d;
    assert d * k == d * q + r && 0 <= r < d;
    assert d * (k - q) == r;
    MultipleBelow(d, k - q, r);
  }

  lemma ProductSize(d: int, k: int)
    requires d > 0
    ensures k >= 1 ==> d * k >= d
    ensures k == 0 ==> d * k == 0
    ensures k < 0 ==> d * k <= -d
  {
    if k >= 1 {
      assert d * k == d * (k - 1) + d;
    } else if k < 0 {
      assert d * k == -(d * (-k - 1)) - d;
    }
  }

  /** The only multiple of d in [0, d) is 0. */
  lemma MultipleBelow(d: nat, k: int, r: nat)
    requires d > 0 && d * k == r < d
    ensures k == 0 && r == 0
  {
    ProductSize(d, k);
  }

  lemma CDivExact(d: int, k: int)
    requires d != 0
    ensures CDiv(d * k, d) == k
  {
    var q := Abs(k);
    assert Abs(d * k) == Abs(d) * q by {
      if d >= 0 && k >= 0 {
        assert d * k >= 0;
      } else if d >= 0 {
        assert d * k == -(d * -k);
        assert d * -k >= 0;
      } else if k >= 0 {
        assert d * k == -(-d * k);
        assert -d * k >= 0;
      } else {
        assert d * k == -d * -k;
        assert -d * -k >= 0;
      }
    }
    ExactQuotient(q, Abs(d));
    if k == 0 {
      assert d * k == 0;
    } else if (d < 0) == (k < 0) {
      assert d * k > 0 by {
        if d > 0 { assert d * k > 0; } else { assert d * k == -d * -k; assert -d * -k > 0; }
      }
    } else {
      assert d * k < 0 by {
        if d > 0 { assert d * -k > 0; assert d * k == -(d * -k); } else { assert -d * k > 0; assert d * k == -(-d * k); }
      }
    }
  }

  // ---------- divisors ----------

  lemma DividesBy(d: int, k: int)
    ensures Divides(d, d * k)
  {
    assert Times(d, k) == d * k;
  }

  lemma DividesComb(d: int, a: int, b: int, x: int, y: int)
    requires Divides(d, a) && Divides(d, b)
    ensures Divides(d, a * x + b * y)
  {
    var k :| Times(d, k) == a;
    var l :| Times(d, l) == b;
    assert (d * k) * x + (d * l) * y == d * (k * x + l * y);
    DividesBy(d, k * x + l * y);
  }

  lemma {:induction false} EuclidDivides(m: nat, n: nat)
    ensures Divides(Euclid(m, n), m) && Divides(Euclid(m, n), n)
    ensures m != 0 || n != 0 ==> Euclid(m, n) > 0
    decreases n
  {
    var g := Euclid(m, n);
    if n == 0 {
      assert Times(m, 1) == m && Times(m, 0) == 0;
    } else {
      EuclidDivides(n, m % n);
      assert n * (m / n) + (m % n) * 1 == m;
      DividesComb(g, n, m % n, m / n, 1);
    }
  }

  /** Bezout's identity. */
  lemma {:induction false} EuclidBezout(m: nat, n: nat) returns (x: int, y: int)
    ensures Comb(m, n, x, y) == Euclid(m, n)
    decreases n
  {
    if n == 0 {
      x, y := 1, 0;
      assert Comb(m, n, 1, 0) == m * 1 + 0;
    } else {
      var u, v := EuclidBezout(n, m % n);
      x, y := v, u - m / n * v;
      var q, r := m / n, m % n;
      assert m == n * q + r;
      assert (n * q + r) * v + n * (u - q * v) == n * u + r * v;
    }
  }

  lemma DividesAbs(d: int, a: int)
    requires Divides(d, Abs(a))
    ensures Divides(d, a)
  {
    var k :| Times(d, k) == Abs(a);
    assert d * -k == -(d * k);
    assert a < 0 ==> Times(d, -k) == a;
  }

  lemma GcdDivides(a: int, b: int)
    ensures Divides(GCD(a, b), a) && Divides(GCD(a, b), b)
    ensures a != 0 || b != 0 ==> GCD(a, b) > 0
  {
    EuclidDivides(Abs(a), Abs(b));
    DividesAbs(GCD(a, b), a);
    DividesAbs(GCD(a, b), b);
  }

  lemma GcdBezout(a: int, b: int) returns (x: int, y: int)
    ensures Comb(a, b, x, y) == GCD(a, b)
  {
    x, y := EuclidBezout(Abs(a), Abs(b));
    if a < 0 {
      assert -a * x == a * -x;
      x := -x;
    }
    if b < 0 {
      assert -b * y == b * -y;
      y := -y;
    }
  }

  lemma DivisorOfOne(d: int, k: int)
    requires d * k == 1 && d > 0
    ensures d == 1
  {
    ProductSize(d, k);
  }

  /** A greatest common divisor of 1 and an integer combination that is 1 are the same thing. */
  lemma GcdOneIsCoprime(a: int, b: int)
    ensures GCD(a, b) == 1 <==> Coprime(a, b)
  {
    var x, y := GcdBezout(a, b);
    if Coprime(a, b) {
      var u, v :| Comb(a, b, u, v) == 1;
      GcdDivides(a, b);
      DividesComb(GCD(a, b), a, b, u, v);
      var k :| Times(GCD(a, b), k) == 1;
      assert a == 0 && b == 0 ==> a * u + b * v == 0;
      DivisorOfOne(GCD(a, b), k);
    }
  }

  /** Any common divisor divides the greatest one. */
  lemma CommonDivides(d: int, a: int, b: int)
    requires Divides(d, a) && Divides(d, b)
    ensures Divides(d, GCD(a, b))
  {
    var x, y := GcdBezout(a, b);
    DividesComb(d, a, b, x, y);
  }

  // ---------- coprime numbers ----------

  lemma CoprimeBy(a: int, b: int, x: int, y: int)
    requires a * x + b * y == 1
    ensures Coprime(a, b) && Coprime(b, a)
  {
    assert Comb(a, b, x, y) == 1;
    assert Comb(b, a, y, x) == 1;
  }

  lemma CoprimeSymmetric(a: int, b: int)
    requires Coprime(a, b)
    ensures Coprime(b, a)
  {
    var x, y :| Comb(a, b, x, y) == 1;
    CoprimeBy(a, b, x, y);
  }

  lemma CoprimeProduct(a: int, b: int, c: int)
    requires Coprime(a, c) && Coprime(b, c)
    ensures Coprime(a * b, c)
  {
    var x, y :| Comb(a, c, x, y) == 1;
    var u, v :| Comb(b, c, u, v) == 1;
    ProductOfCombs(a, b, c, x, y, u, v);
    CoprimeBy(a * b, c, x * u, a * x * v + y * b * u + y * c * v);
  }

  lemma ProductOfCombs(a: int, b: int, c: int, x: int, y: int, u: int, v: int)
    ensures (a * x + c * y) * (b * u + c * v) == (a * b) * (x * u) + c * (a * x * v + y * b * u + y * c * v)
  {
    assert (a * x + c * y) * (b * u + c * v) == (a * x) * (b * u) + (a * x) * (c * v) + (c * y) * (b * u) + (c * y) * (c * v);
    assert (a * x) * (b * u) == (a * b) * (x * u);
    assert (a * x) * (c * v) == c * (a * x * v);
    assert (c * y) * (b * u) == c * (y * b * u);
    assert (c * y) * (c * v) == c * (y * c * v);
  }

  /** A factor of a number coprime to b is coprime to b. */
  lemma CoprimeFactor(a: int, k: int, b: int)
    requires Coprime(a * k, b)
    ensures Coprime(a, b)
  {
    var x, y :| Comb(a * k, b, x, y) == 1;
    assert a * k * x == a * (k * x);
    CoprimeBy(a, b, k * x, y);
  }

  lemma CoprimeShift(a: int, b: int, k: int)
    requires Coprime(a, b)
    ensures Coprime(a + b * k, b)
  {
    var x, y :| Comb(a, b, x, y) == 1;
    assert (a + b * k) * x + b * (y - k * x) == a * x + b * y;
    CoprimeBy(a + b * k, b, x, y - k * x);
  }

  /** Dividing both numbers by their greatest common divisor leaves coprime numbers. */
  lemma Reduced(a: int, b: int) returns (a': int, b': int)
    requires a != 0 || b != 0
    ensures a == GCD(a, b) * a' && b == GCD(a, b) * b' && Coprime(a', b')
  {
    GcdDivides(a, b);
    var g := GCD(a, b);
    a' :| Times(g, a') == a;
    b' :| Times(g, b') == b;
    var x, y := GcdBezout(a, b);
    assert g * a' * x + g * b' * y == g * (a' * x + b' * y);
    CancelOne(g, a' * x + b' * y);
    CoprimeBy(a', b', x, y);
  }

  lemma CancelOne(g: int, k: int)
    requires g > 0 && g * k == g
    ensures k == 1
  {
    assert g * (k - 1) == 0;
  }
}
