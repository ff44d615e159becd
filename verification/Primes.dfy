/** Primes, Euclid's lemma and Fermat's little theorem. */
module Primes {
  import opened Arithmetic

  ghost predicate IsPrime(p: int) {
    p >= 2 && forall d :: 1 < d < p ==> !Divides(d, p)
  }

  ghost predicate IsComposite(n: int) {
    exists d :: 1 < d < n && Divides(d, n)
  }

  /** n is p to some positive power, for a single prime p. */
  ghost predicate IsPrimePower(n: int) {
    exists p: int, k: nat :: IsPrime(p) && k > 0 && n == Pow(p, k)
  }

  lemma PrimeCoprime(p: int, a: nat)
    requires IsPrime(p) && !Divides(p, a)
    ensures Gcd(a, p) == 1
  {
    var x, y := GcdBezout(a, p);
    var g := Gcd(a, p);
    DividesBound(g, p);
    assert g == 1 || g == p;
  }

  /** Euclid's lemma. */
  lemma PrimeDividesProduct(p: int, a: nat, b: int)
    requires IsPrime(p) && Divides(p, a * b)
    ensures Divides(p, a) || Divides(p, b)
  {
    if !Divides(p, a) {
      PrimeCoprime(p, a);
      CoprimeDivides(p, a, b);
    }
  }

  lemma {:induction false} PrimeDividesPower(p: int, a: nat, e: nat)
    requires IsPrime(p) && Divides(p, Pow(a, e))
    ensures Divides(p, a)
  {
    if e == 0 {
      DividesBound(p, 1);
    } else {
      PrimeDividesProduct(p, a, Pow(a, e - 1));
      if Divides(p, Pow(a, e - 1)) {
        PrimeDividesPower(p, a, e - 1);
      }
    }
  }

  /** Modulo a prime, a product vanishes only when a factor does. */
  lemma ZeroProduct(p: int, a: int, b: int)
    requires IsPrime(p) && Cong(a * b, 0, p)
    ensures Cong(a, 0, p) || Cong(b, 0, p)
  {
    CongMod(a, p);
    CongIntro(b, b, p, 0);
    CongMul(a % p, a, b, b, p);
    CongTransitive((a % p) * b, a * b, 0, p);
    PrimeDividesProduct(p, a % p, b);
    if Divides(p, a % p) {
      CongTransitive(a, a % p, 0, p);
    }
  }

  /** Every number above one has a prime divisor. */
  lemma {:induction false} PrimeDivisor(n: int) returns (p: int)
    requires n > 1
    ensures IsPrime(p) && Divides(p, n) && p <= n
    decreases n
  {
    if IsPrime(n) {
      p := n;
      DividesIntro(n, n, 1);
    } else {
      var d :| 1 < d < n && Divides(d, n);
      p := PrimeDivisor(d);
      DividesTransitive(p, d, n);
    }
  }

  lemma PrimeIsNotComposite(n: int)
    requires n > 1
    ensures IsComposite(n) <==> !IsPrime(n)
  {
  }

  // ---------- Fermat's little theorem, by the binomial theorem ----------

  ghost function Binomial(n: nat, k: nat): nat {
    if k == 0 then 1
    else if n == 0 then 0
    else Binomial(n - 1, k - 1) + Binomial(n - 1, k)
  }

  lemma {:induction false} BinomialAboveRow(n: nat, k: nat)
    requires k > n
    ensures Binomial(n, k) == 0
  {
    if n > 0 {
      BinomialAboveRow(n - 1, k - 1);
      BinomialAboveRow(n - 1, k);
    }
  }

  lemma {:induction false} BinomialEnd(n: nat)
    ensures Binomial(n, n) == 1
  {
    if n > 0 {
      BinomialEnd(n - 1);
      BinomialAboveRow(n - 1, n);
    }
  }

  lemma AbsorptionStep(n: int, k: int, x: int, y: int, z: int, w: int)
    requires x == z + w
    requires (k - 1) * x == (n - 1) * z && k * y == (n - 1) * w
    ensures k * (x + y) == n * x
  {
    assert k * (x + y) == (k - 1) * x + x + k * y;
    assert (n - 1) * (z + w) == (n - 1) * z + (n - 1) * w;
  }

  lemma {:induction false} BinomialAbsorption(n: nat, k: nat)
    requires n > 0 && k > 0
    ensures k * Binomial(n, k) == n * Binomial(n - 1, k - 1)
  {
    if n == 1 {
      if k > 1 {
        BinomialAboveRow(1, k);
        BinomialAboveRow(0, k - 1);
      }
    } else if k == 1 {
      BinomialAbsorption(n - 1, 1);
    } else {
      BinomialAbsorption(n - 1, k - 1);
      BinomialAbsorption(n - 1, k);
      AbsorptionStep(n, k, Binomial(n - 1, k - 1), Binomial(n - 1, k),
                     Binomial(n - 2, k - 2), Binomial(n - 2, k - 1));
    }
  }

  lemma PrimeDividesBinomial(p: int, k: nat)
    requires IsPrime(p) && 0 < k < p
    ensures Divides(p, Binomial(p, k))
  {
    BinomialAbsorption(p, k);
    DividesIntro(p, k * Binomial(p, k), Binomial(p - 1, k - 1));
    PrimeDividesProduct(p, k, Binomial(p, k));
    if Divides(p, k) {
      DividesBound(p, k);
    }
  }

  /** The sum of binomial(n, i) * a^i for i up to j. */
  ghost function BinomialSum(a: int, n: nat, j: nat): int {
    Binomial(n, j) * Pow(a, j) + (if j == 0 then 0 else BinomialSum(a, n, j - 1))
  }

  lemma PascalStep(a: int, w: int, u: int, v: int, s: int)
    ensures (u + v) * (a * w) == v * (a * w) + a * (u * w)
    ensures a * (u * w + s) == a * (u * w) + a * s
  {
    assert (u + v) * (a * w) == u * (a * w) + v * (a * w);
    assert u * (a * w) == a * (u * w);
  }

  lemma {:induction false} BinomialSumStep(a: int, n: nat, j: nat)
    requires j > 0
    ensures BinomialSum(a, n + 1, j) == BinomialSum(a, n, j) + a * BinomialSum(a, n, j - 1)
  {
    if j > 1 {
      BinomialSumStep(a, n, j - 1);
    }
    PascalStep(a, Pow(a, j - 1), Binomial(n, j - 1), Binomial(n, j),
               if j == 1 then 0 else BinomialSum(a, n, j - 2));
  }

  /** The binomial theorem for (a + 1)^n. */
  lemma {:induction false} BinomialTheorem(a: int, n: nat)
    ensures Pow(a + 1, n) == BinomialSum(a, n, n)
  {
    if n > 0 {
      hide BinomialSum;
      BinomialTheorem(a, n - 1);
      BinomialSumStep(a, n - 1, n);
      LastTermVanishes(a, n);
      var s := BinomialSum(a, n - 1, n - 1);
      assert (a + 1) * s == s + a * s;
    }
  }

  lemma LastTermVanishes(a: int, n: nat)
    requires n > 0
    ensures BinomialSum(a, n - 1, n) == BinomialSum(a, n - 1, n - 1)
  {
    BinomialAboveRow(n - 1, n);
  }

  lemma {:induction false} MiddleTermsVanish(a: int, p: int, j: nat)
    requires IsPrime(p) && j < p
    ensures Cong(BinomialSum(a, p, j), 1, p)
  {
    if j == 0 {
      CongIntro(1, 1, p, 0);
    } else {
      MiddleTermsVanish(a, p, j - 1);
      PrimeDividesBinomial(p, j);
      CongIntro(Pow(a, j), Pow(a, j), p, 0);
      CongMul(Binomial(p, j), 0, Pow(a, j), Pow(a, j), p);
      CongAdd(Binomial(p, j) * Pow(a, j), 0, BinomialSum(a, p, j - 1), 1, p);
    }
  }

  lemma {:induction false} FermatForNaturals(a: nat, p: int)
    requires IsPrime(p)
    ensures Cong(Pow(a, p), a, p)
  {
    if a == 0 {
      CongIntro(0, 0, p, 0);
    } else {
      FermatForNaturals(a - 1, p);
      BinomialTheorem(a - 1, p);
      BinomialEnd(p);
      MiddleTermsVanish(a - 1, p, p - 1);
      CongAdd(Pow(a - 1, p), a - 1, BinomialSum(a - 1, p, p - 1), 1, p);
    }
  }

  /** a^p is congruent to a, for every integer a. */
  lemma FermatPower(a: int, p: int)
    requires IsPrime(p)
    ensures Cong(Pow(a, p), a, p)
  {
    CongMod(a, p);
    FermatForNaturals(a % p, p);
    CongPow(a, a % p, p, p);
    CongTransitive(Pow(a, p), Pow(a % p, p), a % p, p);
    CongTransitive(Pow(a, p), a % p, a, p);
  }

  /** A factor not divisible by the prime can be cancelled. */
  lemma CancelFactor(p: int, c: int, a: int, b: int)
    requires IsPrime(p) && !Cong(c, 0, p) && Cong(c * a, c * b, p)
    ensures Cong(a, b, p)
  {
    var k := CongQuotient(c * a, c * b, p);
    assert c * (a - b) == p * k;
    CongIntro(c * (a - b), 0, p, k);
    ZeroProduct(p, c, a - b);
  }

  /** Fermat's little theorem: a^(p-1) is congruent to 1 unless p divides a. */
  lemma FermatLittle(a: int, p: int)
    requires IsPrime(p) && !Cong(a, 0, p)
    ensures Cong(Pow(a, p - 1), 1, p)
  {
    FermatPower(a, p);
    CancelFactor(p, a, Pow(a, p - 1), 1);
  }

  /** Fermat for every exponent that is a multiple of p - 1. */
  lemma FermatMultiple(a: int, p: int, k: nat)
    requires IsPrime(p) && !Cong(a, 0, p)
    ensures (p - 1) * k >= 0 && Cong(Pow(a, (p - 1) * k), 1, p)
  {
    FermatLittle(a, p);
    PowPow(a, p - 1, k);
    CongPow(Pow(a, p - 1), 1, k, p);
    PowOne(k);
  }

  /** In a prime field, 1 has only the square roots 1 and -1. */
  lemma SquareRootsOfOne(x: int, p: int)
    requires IsPrime(p) && Cong(x * x, 1, p)
    ensures Cong(x, 1, p) || Cong(x, -1, p)
  {
    var k := CongQuotient(x * x, 1, p);
    assert (x - 1) * (x + 1) == p * k;
    CongIntro((x - 1) * (x + 1), 0, p, k);
    ZeroProduct(p, x - 1, x + 1);
  }

  /** p - 1 divides p^k - 1. */
  lemma {:induction false} PowMinusOne(p: int, k: nat)
    requires p > 1
    ensures Pow(p, k) >= 1 && Divides(p - 1, Pow(p, k) - 1)
  {
    PowPositive(p, k);
    if k == 0 {
      DividesIntro(p - 1, 0, 0);
    } else {
      PowMinusOne(p, k - 1);
      var m := DividesQuotient(p - 1, Pow(p, k - 1) - 1);
      assert p * Pow(p, k - 1) - 1 == p * (Pow(p, k - 1) - 1) + (p - 1);
      assert p * ((p - 1) * m) == (p - 1) * (p * m);
      DividesIntro(p - 1, Pow(p, k) - 1, p * m + 1);
    }
  }
}
