/** Congruences, powers, divisibility and greatest common divisors over the integers. */
module Arithmetic {

  // ---------- Congruence ----------

  /** a and b leave the same remainder modulo m. */
  ghost predicate Cong(a: int, b: int, m: int)
    requires m > 0
  {
    (a - b) % m == 0
  }

  lemma MulMonotone(m: int, a: int, b: int)
    requires m >= 0 && a <= b
    ensures m * a <= m * b
  {
    assert m * (b - a) >= 0;
  }

  lemma RemainderUnique(a: int, m: int, k: int, r: int)
    requires m > 0 && 0 <= r < m && a == m * k + r
    ensures a % m == r && a / m == k
  {
    var q := a / m;
    if q > k {
      MulMonotone(m, k + 1, q);
    } else if q < k {
      MulMonotone(m, q + 1, k);
    }
  }

  lemma MultipleHasNoRemainder(m: int, k: int)
    requires m > 0
    ensures (m * k) % m == 0 && (k * m) % m == 0
  {
    RemainderUnique(m * k, m, k, 0);
  }

  lemma CongIntro(a: int, b: int, m: int, k: int)
    requires m > 0 && a - b == m * k
    ensures Cong(a, b, m)
  {
    MultipleHasNoRemainder(m, k);
  }

  lemma CongQuotient(a: int, b: int, m: int) returns (k: int)
    requires m > 0 && Cong(a, b, m)
    ensures a == b + m * k
  {
    k := (a - b) / m;
  }

  lemma CongMod(a: int, m: int)
    requires m > 0
    ensures Cong(a % m, a, m) && Cong(a, a % m, m) && 0 <= a % m < m
  {
    CongIntro(a % m, a, m, -(a / m));
    CongIntro(a, a % m, m, a / m);
  }

  lemma CongSymmetric(a: int, b: int, m: int)
    requires m > 0 && Cong(a, b, m)
    ensures Cong(b, a, m)
  {
    var k := CongQuotient(a, b, m);
    CongIntro(b, a, m, -k);
  }

  lemma CongTransitive(a: int, b: int, c: int, m: int)
    requires m > 0 && Cong(a, b, m) && Cong(b, c, m)
    ensures Cong(a, c, m)
  {
    var k := CongQuotient(a, b, m);
    var l := CongQuotient(b, c, m);
    CongIntro(a, c, m, k + l);
  }

  lemma CongAdd(a: int, b: int, c: int, d: int, m: int)
    requires m > 0 && Cong(a, b, m) && Cong(c, d, m)
    ensures Cong(a + c, b + d, m)
  {
    var k := CongQuotient(a, b, m);
    var l := CongQuotient(c, d, m);
    CongIntro(a + c, b + d, m, k + l);
  }

  lemma CongSub(a: int, b: int, c: int, d: int, m: int)
    requires m > 0 && Cong(a, b, m) && Cong(c, d, m)
    ensures Cong(a - c, b - d, m)
  {
    var k := CongQuotient(a, b, m);
    var l := CongQuotient(c, d, m);
    CongIntro(a - c, b - d, m, k - l);
  }

  lemma CongMul(a: int, b: int, c: int, d: int, m: int)
    requires m > 0 && Cong(a, b, m) && Cong(c, d, m)
    ensures Cong(a * c, b * d, m)
  {
    var k := CongQuotient(a, b, m);
    var l := CongQuotient(c, d, m);
    calc {
      a * c;
      (b + m * k) * c;
      b * c + m * k * c;
      b * (d + m * l) + m * k * c;
      b * d + m * (b * l) + m * (k * c);
      b * d + m * (b * l + k * c);
    }
    CongIntro(a * c, b * d, m, b * l + k * c);
  }

  /** Congruence is equality of remainders. */
  lemma CongIsEqualRemainder(a: int, b: int, m: int)
    requires m > 0
    ensures Cong(a, b, m) <==> a % m == b % m
  {
    if Cong(a, b, m) {
      var k := CongQuotient(a, b, m);
      assert a == m * (b / m + k) + b % m;
      RemainderUnique(a, m, b / m + k, b % m);
    }
    if a % m == b % m {
      CongIntro(a, b, m, a / m - b / m);
    }
  }

  /** Residues already below the modulus are congruent only when equal. */
  lemma CongOfResidues(a: int, b: int, m: int)
    requires m > 0 && 0 <= a < m && 0 <= b < m && Cong(a, b, m)
    ensures a == b
  {
    CongIsEqualRemainder(a, b, m);
    RemainderUnique(a, m, 0, a);
    RemainderUnique(b, m, 0, b);
  }

  // ---------- Powers ----------

  function Pow(b: int, e: nat): int {
    if e == 0 then 1 else b * Pow(b, e - 1)
  }

  lemma PowOne(e: nat)
    ensures Pow(1, e) == 1
  {
  }

  lemma {:induction false} PowAdd(b: int, d: nat, e: nat)
    ensures Pow(b, d + e) == Pow(b, d) * Pow(b, e)
  {
    if d != 0 {
      PowAdd(b, d - 1, e);
      assert Pow(b, d + e) == b * Pow(b, d - 1 + e);
      assert b * (Pow(b, d - 1) * Pow(b, e)) == (b * Pow(b, d - 1)) * Pow(b, e);
    }
  }

  lemma {:induction false} PowPow(b: int, d: nat, e: nat)
    ensures d * e >= 0 && Pow(Pow(b, d), e) == Pow(b, d * e)
    decreases e
  {
    if e == 0 {
      assert d * e == 0;
    } else {
      PowPow(b, d, e - 1);
      assert d * e == d + d * (e - 1);
      PowAdd(b, d, d * (e - 1));
    }
  }

  lemma MulInterchange(a: int, b: int, c: int, d: int)
    ensures (a * b) * (c * d) == (a * c) * (b * d)
  {
    assert (a * b) * (c * d) == a * (b * (c * d)) == a * (c * (b * d)) by {
      assert b * (c * d) == c * (b * d);
    }
  }

  lemma {:induction false} CongPow(a: int, b: int, e: nat, m: int)
    requires m > 0 && Cong(a, b, m)
    ensures Cong(Pow(a, e), Pow(b, e), m)
  {
    if e == 0 {
      CongIntro(1, 1, m, 0);
    } else {
      CongPow(a, b, e - 1, m);
      CongMul(a, b, Pow(a, e - 1), Pow(b, e - 1), m);
    }
  }

  lemma {:induction false} PowPositive(b: int, e: nat)
    requires b > 0
    ensures Pow(b, e) > 0
  {
    if e != 0 {
      PowPositive(b, e - 1);
      assert b * Pow(b, e - 1) > 0;
    }
  }

  lemma {:induction false} PowTwoMonotone(a: nat, b: nat)
    requires a <= b
    ensures Pow(2, a) <= Pow(2, b)
  {
    if a < b {
      PowTwoMonotone(a, b - 1);
      PowPositive(2, b - 1);
    }
  }

  // ---------- Divisibility and greatest common divisors ----------

  predicate Divides(d: int, n: int)
    requires d > 0
  {
    n % d == 0
  }

  lemma DividesIntro(d: int, n: int, k: int)
    requires d > 0 && n == d * k
    ensures Divides(d, n)
  {
    MultipleHasNoRemainder(d, k);
  }

  lemma DividesQuotient(d: int, n: int) returns (k: int)
    requires d > 0 && Divides(d, n)
    ensures n == d * k
  {
    k := n / d;
  }

  lemma DividesTransitive(a: int, b: int, n: int)
    requires a > 0 && b > 0 && Divides(a, b) && Divides(b, n)
    ensures Divides(a, n)
  {
    var k := DividesQuotient(a, b);
    var l := DividesQuotient(b, n);
    assert n == a * (k * l);
    DividesIntro(a, n, k * l);
  }

  lemma DividesLinear(d: int, a: int, b: int, x: int, y: int)
    requires d > 0 && Divides(d, a) && Divides(d, b)
    ensures Divides(d, a * x + b * y)
  {
    var k := DividesQuotient(d, a);
    var l := DividesQuotient(d, b);
    assert a * x + b * y == d * (k * x + l * y) by {
      assert a * x == d * (k * x);
      assert b * y == d * (l * y);
    }
    DividesIntro(d, a * x + b * y, k * x + l * y);
  }

  lemma DividesBound(d: int, n: int)
    requires d > 0 && n > 0 && Divides(d, n)
    ensures d <= n
  {
    var k := DividesQuotient(d, n);
    if k <= 0 {
      MulMonotone(d, k, 0);
    }
    MulMonotone(d, 1, k);
  }

  function Gcd(a: nat, b: nat): nat
    decreases b
  {
    if b == 0 then a else Gcd(b, a % b)
  }

  lemma BezoutStep(a: int, b: int, q: int, r: int, u: int, v: int)
    requires a == b * q + r
    ensures a * v + b * (u - q * v) == b * u + r * v
  {
    assert a * v == (b * q) * v + r * v;
    assert b * (u - q * v) == b * u - b * (q * v);
    assert b * (q * v) == (b * q) * v;
  }

  /** The greatest common divisor divides both arguments and is an integer
      combination x*a + y*b of them. */
  lemma {:induction false} GcdBezout(a: nat, b: nat) returns (x: int, y: int)
    requires a > 0 || b > 0
    ensures Gcd(a, b) > 0 && a * x + b * y == Gcd(a, b)
    ensures Divides(Gcd(a, b), a) && Divides(Gcd(a, b), b)
    decreases b
  {
    if b == 0 {
      x, y := 1, 0;
      DividesIntro(a, a, 1);
      DividesIntro(a, 0, 0);
    } else {
      var u, v := GcdBezout(b, a % b);
      x, y := v, u - (a / b) * v;
      BezoutStep(a, b, a / b, a % b, u, v);
      DividesLinear(Gcd(a, b), b, a % b, a / b, 1);
    }
  }

  /** Every common divisor divides the greatest one. */
  lemma GcdGreatest(d: int, a: nat, b: nat)
    requires d > 0 && (a > 0 || b > 0) && Divides(d, a) && Divides(d, b)
    ensures Gcd(a, b) > 0 && Divides(d, Gcd(a, b))
  {
    var x, y := GcdBezout(a, b);
    DividesLinear(d, a, b, x, y);
  }

  /** gcd(a, b) exceeds one exactly when some d > 1 divides both. */
  lemma GcdAboveOne(a: nat, b: nat)
    requires b > 0
    ensures Gcd(a, b) > 0
    ensures Gcd(a, b) != 1 <==> exists d :: d > 1 && Divides(d, a) && Divides(d, b)
  {
    var x, y := GcdBezout(a, b);
    if d :| d > 1 && Divides(d, a) && Divides(d, b) {
      GcdGreatest(d, a, b);
      DividesBound(d, Gcd(a, b));
    }
  }

  /** A divisor of a product that shares nothing with one factor divides the other. */
  lemma CoprimeDivides(n: nat, a: nat, b: int)
    requires n > 0 && Gcd(a, n) == 1 && Divides(n, a * b)
    ensures Divides(n, b)
  {
    var x, y := GcdBezout(a, n);
    var k := DividesQuotient(n, a * b);
    CoprimeStep(n, a, b, x, y, k);
    DividesIntro(n, b, k * x + y * b);
  }

  lemma CoprimeStep(n: int, a: int, b: int, x: int, y: int, k: int)
    requires a * x + n * y == 1 && a * b == n * k
    ensures b == n * (k * x + y * b)
  {
    assert (a * x) * b == n * (k * x) by {
      assert (a * x) * b == (a * b) * x == (n * k) * x;
    }
    assert b == (a * x + n * y) * b == (a * x) * b + n * (y * b);
  }
}
