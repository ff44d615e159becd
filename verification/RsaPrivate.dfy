/** RSA private-key validation: the algebraic checks of section 6.4.1.2.1 of SP 800-56B Rev. 2 and
    the Miller-Rabin test of section B.3.1 of FIPS 186-5. */
module RsaPrivate {
  import opened Arithmetic
  import opened Primes
  import opened Bytes
  import opened MillerRabin
  import opened BaseDraws

  datatype Error = InvalidPrivateKey | RandomnessUnavailable

  datatype Key = Key(n: nat, e: nat, d: nat, primes: seq<nat>)

  const MAX_SAMPLES := 128
  const MIN_RSA_BITS := 512
  const MAX_RSA_BITS := 16384

  // ---------- Miller-Rabin ----------

  /** The rounds for odd n > 3: the answer and the stream position after the last draw. */
  ghost function RoundsVerdict(n: nat, rng: Rng, pos: nat, rounds: nat): (r: (Result<bool, Error>, nat))
    requires n > 3 && n % 2 == 1
    ensures pos <= r.1 <= pos + MAX_SAMPLES * rounds
    decreases rounds
  {
    if rounds == 0 then (Ok(true), pos)
    else
      var (sample, next) := SampleBase(n, rng, pos, MAX_SAMPLES);
      if sample.None? then (Err(RandomnessUnavailable), next)
      else if IsStrongProbablePrime(n, TrailingZeros(n - 1), OddFactor(n), sample.value) then
        RoundsVerdict(n, rng, next, rounds - 1)
      else (Ok(false), next)
  }

  ghost function PrimeVerdict(n: nat, rng: Rng, pos: nat, rounds: nat): (r: (Result<bool, Error>, nat))
    ensures pos <= r.1 <= pos + MAX_SAMPLES * rounds
  {
    if n <= 3 then (Ok(n == 2 || n == 3), pos)
    else if n % 2 == 0 then (Ok(false), pos)
    else RoundsVerdict(n, rng, pos, rounds)
  }

  lemma {:induction false} PrimePassesRounds(n: nat, rng: Rng, pos: nat, rounds: nat)
    requires IsPrime(n) && n > 3 && n % 2 == 1
    ensures RoundsVerdict(n, rng, pos, rounds).0 in {Ok(true), Err(RandomnessUnavailable)}
    decreases rounds
  {
    hide IsStrongProbablePrime, SampleBase, TrailingZeros;
    if rounds > 0 {
      var (sample, next) := SampleBase(n, rng, pos, MAX_SAMPLES);
      if sample.Some? {
        OddPart(n);
        SmallerIsNotMultiple(n, sample.value);
        PrimePasses(n, TrailingZeros(n - 1), OddFactor(n), sample.value);
        PrimePassesRounds(n, rng, next, rounds - 1);
      }
    }
  }

  lemma SmallerIsNotMultiple(n: nat, b: nat)
    requires 0 < b < n
    ensures !Divides(n, b)
  {
    RemainderUnique(b, n, 0, b);
  }

  /** A prime is never reported composite, whatever the random source does. */
  lemma PrimeNeverRejected(n: nat, rng: Rng, pos: nat, rounds: nat)
    requires IsPrime(n)
    ensures PrimeVerdict(n, rng, pos, rounds).0 in {Ok(true), Err(RandomnessUnavailable)}
  {
    hide RoundsVerdict;
    assert n == 2 || n == 3 || !Divides(2, n);
    if n > 3 {
      PrimePassesRounds(n, rng, pos, rounds);
    }
  }

  /** Acceptance of n > 3 means that one fresh base per round failed to witness against n. */
  lemma {:induction false} AcceptedRounds(n: nat, rng: Rng, pos: nat, rounds: nat) returns (bases: seq<nat>)
    requires n > 3 && n % 2 == 1 && RoundsVerdict(n, rng, pos, rounds).0 == Ok(true)
    ensures |bases| == rounds
    ensures forall b :: b in bases ==> 1 < b < n - 1 && IsStrongProbablePrime(n, TrailingZeros(n - 1), OddFactor(n), b)
    decreases rounds
  {
    hide IsStrongProbablePrime, SampleBase, TrailingZeros;
    if rounds == 0 {
      bases := [];
    } else {
      var (sample, next) := SampleBase(n, rng, pos, MAX_SAMPLES);
      var rest := AcceptedRounds(n, rng, next, rounds - 1);
      bases := [sample.value] + rest;
    }
  }

  /** One round on one base: the squaring loop answers whether b is no witness. */
  method StrongRound(n: nat, upper: nat, a: nat, oddPart: nat, base: nat) returns (passed: bool)
    requires Decomposes(n, a, oddPart) && upper == n - 1
    ensures passed <==> IsStrongProbablePrime(n, a, oddPart, base)
  {
    hide Chain;
    var z := Pow(base, oddPart) % n;
    ChainStart(n, oddPart, base);
    if z == 1 || z == upper {
      return true;
    }
    var i := 1;
    while i < a
      invariant 1 <= i <= a
      invariant z == Chain(n, oddPart, base, i - 1)
      invariant forall j :: 0 <= j < i ==> Chain(n, oddPart, base, j) != 1 && Chain(n, oddPart, base, j) != upper
    {
      var square := z * z;
      z := square % n;
      ChainStep(n, oddPart, base, i - 1);
      if z == upper {
        return true;
      }
      if z == 1 {
        forall j | i < j < a ensures Chain(n, oddPart, base, j) != upper {
          ChainStaysOne(n, oddPart, base, i, j);
        }
        return false;
      }
      i := i + 1;
    }
    return false;
  }

  method ProbablePrime(n: nat, rounds: nat, rng: Rng, pos: nat) returns (answer: Result<bool, Error>, next: nat)
    ensures (answer, next) == PrimeVerdict(n, rng, pos, rounds)
  {
    hide IsStrongProbablePrime, SampleBase, Decomposes, TrailingZeros;
    next := pos;
    if n <= 3 {
      return Ok(n == 2 || n == 3), next;
    }
    if n % 2 == 0 {
      return Ok(false), next;
    }
    var a := TrailingZeros(n - 1);
    var oddPart := OddFactor(n);
    OddPart(n);
    var round := 0;
    while round < rounds
      invariant 0 <= round <= rounds
      invariant RoundsVerdict(n, rng, pos, rounds) == RoundsVerdict(n, rng, next, rounds - round)
    {
      var sample;
      sample, next := RandomBase(n, rng, next, MAX_SAMPLES);
      if sample.None? {
        return Err(RandomnessUnavailable), next;
      }
      var passed := StrongRound(n, n - 1, a, oddPart, sample.value);
      if !passed {
        return Ok(false), next;
      }
      round := round + 1;
    }
    return Ok(true), next;
  }

  // ---------- The algebraic checks ----------

  function Lcm(a: nat, b: nat): nat {
    if a == 0 || b == 0 then 0
    else
      GcdIsPositive(a, b);
      Quotient(a, Gcd(a, b)) * b
  }

  lemma GcdIsPositive(a: nat, b: nat)
    requires a > 0 || b > 0
    ensures Gcd(a, b) > 0
  {
    var x, y := GcdBezout(a, b);
  }

  lemma LcmIsCommonMultiple(a: nat, b: nat)
    requires a > 0 && b > 0
    ensures Divides(a, Lcm(a, b)) && Divides(b, Lcm(a, b)) && Lcm(a, b) > 0
  {
    var x, y := GcdBezout(a, b);
    var g := Gcd(a, b);
    var s := DividesQuotient(g, a);
    var t := DividesQuotient(g, b);
    RemainderUnique(a, g, s, 0);
    if s <= 0 {
      MulMonotone(g, s, 0);
    }
    assert s * b == a * t by {
      assert s * (g * t) == (g * s) * t;
    }
    DividesIntro(b, s * b, s);
    DividesIntro(a, s * b, t);
    assert s * b > 0;
  }

  /** Every check made before primality testing. */
  predicate AlgebraicChecks(key: Key, bits: nat) {
    && MIN_RSA_BITS <= bits <= MAX_RSA_BITS
    && Bits(key.n) == bits
    && key.e >= 3 && key.e % 2 == 1 && Bits(key.e) <= 256
    && |key.primes| == 2
    && var p, q := key.primes[0], key.primes[1];
    && Bits(p) + Bits(q) == bits && -1 <= Bits(p) - Bits(q) <= 1
    && p % 2 == 1 && q % 2 == 1
    && p * p >= Pow(2, 2 * Bits(p) - 1) && q * q >= Pow(2, 2 * Bits(q) - 1)
    && p * q == key.n
    && (if p > q then p - q else q - p) > Pow(2, bits / 2 - 100)
    && Gcd(p - 1, key.e) == 1 && Gcd(q - 1, key.e) == 1
    && key.d > Pow(2, bits / 2) && key.d < Lcm(p - 1, q - 1)
    && (key.d * key.e) % Lcm(p - 1, q - 1) == 1
  }

  /** m^x returns m modulo a prime whenever x is 1 more than a multiple of p - 1. */
  lemma ExponentOne(m: int, p: int, x: nat)
    requires IsPrime(p) && x >= 1 && Divides(p - 1, x - 1)
    ensures Cong(Pow(m, x), m, p)
  {
    var k := DividesQuotient(p - 1, x - 1);
    if k < 0 {
      MulMonotone(p - 1, k, -1);
    }
    if Cong(m, 0, p) {
      CongIntro(Pow(m, x - 1), Pow(m, x - 1), p, 0);
      CongMul(m, 0, Pow(m, x - 1), Pow(m, x - 1), p);
      CongSymmetric(m, 0, p);
      CongTransitive(Pow(m, x), 0, m, p);
    } else {
      FermatMultiple(m, p, k);
      CongIntro(m, m, p, 0);
      CongMul(m, m, Pow(m, x - 1), 1, p);
    }
  }

  /** Congruence modulo two distinct primes is congruence modulo their product. */
  lemma CombinePrimes(p: nat, q: nat, a: int, b: int)
    requires IsPrime(p) && IsPrime(q) && p != q && Cong(a, b, p) && Cong(a, b, q)
    ensures p * q > 0 && Cong(a, b, p * q)
  {
    var k := CongQuotient(a, b, p);
    if Divides(q, p) {
      DividesBound(q, p);
    }
    DividesIntro(q, p * k, (a - b) / q);
    PrimeDividesProduct(q, p, k);
    var l := DividesQuotient(q, k);
    assert p * (q * l) == (p * q) * l;
    assert p * q > 0;
    CongIntro(a, b, p * q, l);
  }

  lemma ExponentFitsFactor(x: nat, lambda: nat, f: nat)
    requires lambda > 0 && f > 0 && x % lambda == 1 && Divides(f, lambda)
    ensures x >= 1 && Divides(f, x - 1)
  {
    DividesIntro(lambda, x - 1, x / lambda);
    DividesTransitive(f, lambda, x - 1);
  }

  lemma FactorsAreDistinct(key: Key, bits: nat)
    requires AlgebraicChecks(key, bits)
    ensures key.primes[0] != key.primes[1]
  {
    PowPositive(2, bits / 2 - 100);
  }

  lemma ExponentsInverse(key: Key, bits: nat)
    requires AlgebraicChecks(key, bits)
    ensures |key.primes| == 2
    ensures var p, q := key.primes[0], key.primes[1];
            p > 0 && q > 0 && Lcm(p - 1, q - 1) > 0 && (key.e * key.d) % Lcm(p - 1, q - 1) == 1 && key.n == p * q
  {
    hide Lcm;
    Commute(key.e, key.d);
  }

  lemma Commute(a: int, b: int)
    ensures a * b == b * a
  {
  }

  /** A key that passes, with prime factors, undoes its own exponentiation on every residue. */
  lemma KeyInverts(key: Key, bits: nat, m: nat)
    requires AlgebraicChecks(key, bits) && IsPrime(key.primes[0]) && IsPrime(key.primes[1]) && m < key.n
    ensures Pow(Pow(m, key.e) % key.n, key.d) % key.n == m
  {
    hide AlgebraicChecks, Lcm, Pow;
    ExponentsInverse(key, bits);
    FactorsAreDistinct(key, bits);
    var p, q := key.primes[0], key.primes[1];
    LcmIsCommonMultiple(p - 1, q - 1);
    ExponentsInvert(p, q, Lcm(p - 1, q - 1), key.e, key.d, m);
  }

  /** Exponents inverse to each other modulo a common multiple of p - 1 and q - 1 undo each other. */
  lemma ExponentsInvert(p: nat, q: nat, lambda: nat, e: nat, d: nat, m: nat)
    requires IsPrime(p) && IsPrime(q) && p != q && m < p * q
    requires lambda > 0 && Divides(p - 1, lambda) && Divides(q - 1, lambda) && (e * d) % lambda == 1
    ensures Pow(Pow(m, e) % (p * q), d) % (p * q) == m
  {
    hide Pow, Cong, Divides, IsPrime;
    PrimeAtLeastTwo(p);
    PrimeAtLeastTwo(q);
    var x := e * d;
    assert x >= 0;
    ExponentFitsFactor(x, lambda, p - 1);
    ExponentFitsFactor(x, lambda, q - 1);
    ExponentOne(m, p, x);
    ExponentOne(m, q, x);
    CombinePrimes(p, q, Pow(m, x), m);
    InvertsModN(p * q, m, e, d);
  }

  lemma PrimeAtLeastTwo(p: int)
    requires IsPrime(p)
    ensures p >= 2
  {
  }

  lemma InvertsModN(n: nat, m: nat, e: nat, d: nat)
    requires m < n && e * d >= 0 && Cong(Pow(m, e * d), m, n)
    ensures Pow(Pow(m, e) % n, d) % n == m
  {
    var c := Pow(m, e);
    CongMod(c, n);
    CongPow(c % n, c, d, n);
    PowPow(m, e, d);
    CongTransitive(Pow(c % n, d), Pow(m, e * d), m, n);
    CongIsEqualRemainder(Pow(c % n, d), m, n);
    RemainderUnique(m, n, 0, m);
  }

  /** The private exponent is determined by the rest of the key. */
  lemma CanonicalExponent(k1: Key, k2: Key, bits: nat)
    requires AlgebraicChecks(k1, bits) && AlgebraicChecks(k2, bits)
    requires k1.e == k2.e && k1.primes == k2.primes
    ensures k1 == k2
  {
    var p, q := k1.primes[0], k1.primes[1];
    LcmIsCommonMultiple(p - 1, q - 1);
    SameInverse(k1.d, k2.d, k1.e, Lcm(p - 1, q - 1));
  }

  lemma SameInverse(c: nat, d: nat, e: nat, m: nat)
    requires m > 0 && c < m && d < m && (c * e) % m == 1 && (d * e) % m == 1
    ensures c == d
  {
    RemainderUnique(1 % m, m, 0, 1 % m);
    var s, t := (c * e) / m, (d * e) / m;
    assert c * e == m * s + 1 && d * e == m * t + 1;
    CrossMultiply(c, d, e, m, s, t);
    CongIntro(c, d, m, d * s - c * t);
    CongOfResidues(c, d, m);
  }

  lemma CrossMultiply(c: int, d: int, e: int, m: int, s: int, t: int)
    requires c * e == m * s + 1 && d * e == m * t + 1
    ensures c - d == m * (d * s - c * t)
  {
    assert c * (d * e) == d * (c * e);
    assert c * (m * t + 1) == m * (c * t) + c;
    assert d * (m * s + 1) == m * (d * s) + d;
    assert m * (d * s - c * t) == m * (d * s) - m * (c * t);
  }

  // ---------- The whole validation ----------

  ghost function PrivateVerdict(key: Key, bits: nat, rounds: nat, rng: Rng,
                                decrypt: (Key, nat) -> Option<nat>): Result<(), Error> {
    if !AlgebraicChecks(key, bits) then Err(InvalidPrivateKey)
    else
      var (first, next) := PrimeVerdict(key.primes[0], rng, 0, rounds);
      if first.Err? then Err(first.error)
      else if !first.value then Err(InvalidPrivateKey)
      else
        var (second, _) := PrimeVerdict(key.primes[1], rng, next, rounds);
        if second.Err? then Err(second.error)
        else if !second.value then Err(InvalidPrivateKey)
        else if decrypt(key, Pow(2, key.e) % key.n) == Some(2) then Ok(())
        else Err(InvalidPrivateKey)
  }

  method ValidateWithRng(key: Key, bits: nat, rounds: nat, rng: Rng, decrypt: (Key, nat) -> Option<nat>)
    returns (result: Result<(), Error>)
    ensures result == PrivateVerdict(key, bits, rounds, rng, decrypt)
  {
    hide AlgebraicChecks, PrimeVerdict;
    if !AlgebraicChecks(key, bits) {
      return Err(InvalidPrivateKey);
    }
    TwoPrimes(key, bits);
    var first, next := ProbablePrime(key.primes[0], rounds, rng, 0);
    if first.Err? {
      return Err(first.error);
    }
    if !first.value {
      return Err(InvalidPrivateKey);
    }
    var second, _ := ProbablePrime(key.primes[1], rounds, rng, next);
    if second.Err? {
      return Err(second.error);
    }
    if !second.value {
      return Err(InvalidPrivateKey);
    }
    var recovered := decrypt(key, Pow(2, key.e) % key.n);
    if recovered != Some(2) {
      return Err(InvalidPrivateKey);
    }
    return Ok(());
  }

  lemma TwoPrimes(key: Key, bits: nat)
    requires AlgebraicChecks(key, bits)
    ensures |key.primes| == 2 && key.n > 3
  {
    BitsBelow(key.n, 2);
    assert Pow(2, 2) == 4;
  }

  /** A key with genuine prime factors that satisfies the checks is refused only for lack of
      randomness, given a private operation that computes c^d mod n. */
  lemma ValidKeyAccepted(key: Key, bits: nat, rounds: nat, rng: Rng, decrypt: (Key, nat) -> Option<nat>)
    requires AlgebraicChecks(key, bits) && IsPrime(key.primes[0]) && IsPrime(key.primes[1])
    requires forall c: nat :: decrypt(key, c) == Some(Pow(c, key.d) % key.n)
    ensures PrivateVerdict(key, bits, rounds, rng, decrypt) in {Ok(()), Err(RandomnessUnavailable)}
  {
    TwoPrimes(key, bits);
    KeyInverts(key, bits, 2);
    var (first, next) := PrimeVerdict(key.primes[0], rng, 0, rounds);
    PrimeNeverRejected(key.primes[0], rng, 0, rounds);
    PrimeNeverRejected(key.primes[1], rng, next, rounds);
  }

  lemma FactorsAreLarge(key: Key, bits: nat)
    requires AlgebraicChecks(key, bits)
    ensures |key.primes| == 2 && key.primes[0] > 3 && key.primes[1] > 3
    ensures key.primes[0] % 2 == 1 && key.primes[1] % 2 == 1
  {
    hide Pow, Lcm, Gcd, Bits;
    assert Pow(2, 2) == 4 by { PowAdd(2, 1, 1); PowTwo(); }
    BitsBelow(key.primes[0], 2);
    BitsBelow(key.primes[1], 2);
  }

  lemma PowTwo()
    ensures Pow(2, 1) == 2
  {
  }

  // ---------- Exactly what is accepted ----------

  /** The least common multiple divides every common multiple. */
  lemma LcmLeast(a: nat, b: nat, m: nat)
    requires a > 0 && b > 0 && Divides(a, m) && Divides(b, m)
    ensures Lcm(a, b) > 0 && Divides(Lcm(a, b), m)
  {
    LcmIsCommonMultiple(a, b);
    var x, y := GcdBezout(a, b);
    var g := Gcd(a, b);
    var s := DividesQuotient(g, a);
    var t := DividesQuotient(g, b);
    RemainderUnique(a, g, s, 0);
    var u := DividesQuotient(a, m);
    var v := DividesQuotient(b, m);
    hide Gcd, Divides;
    LcmStep(g, a, b, s, t, u, v, x, y, m);
    assert Lcm(a, b) == s * b;
    DividesIntro(Lcm(a, b), m, v * x + u * y);
  }

  lemma LcmStep(g: int, a: int, b: int, s: int, t: int, u: int, v: int, x: int, y: int, m: int)
    requires g > 0 && a == g * s && b == g * t && m == a * u && m == b * v && a * x + b * y == g
    ensures m == (s * b) * (v * x + u * y)
  {
    assert g * m == g * ((s * b) * (v * x + u * y)) by {
      var p := a * x * m + b * y * m;
      assert g * m == (a * x + b * y) * m == p;
      assert a * x * m == a * x * (b * v) == (a * b) * (v * x);
      assert b * y * m == b * y * (a * u) == (a * b) * (u * y);
      assert (a * b) * (v * x) + (a * b) * (u * y) == (a * b) * (v * x + u * y);
      assert a * b == g * (s * b);
      assert (g * (s * b)) * (v * x + u * y) == g * ((s * b) * (v * x + u * y));
    }
    CancelPositive(g, m, (s * b) * (v * x + u * y));
  }

  lemma CancelPositive(g: int, x: int, y: int)
    requires g > 0 && g * x == g * y
    ensures x == y
  {
    if x < y {
      MulMonotone(g, x + 1, y);
    } else if y < x {
      MulMonotone(g, y + 1, x);
    }
  }

  /** v has exactly k bits. */
  ghost predicate HasBits(v: nat, k: nat) { v < Pow(2, k) && (k > 0 ==> Pow(2, k - 1) <= v) }

  lemma HasBitsIff(v: nat, k: nat)
    ensures HasBits(v, k) <==> Bits(v) == k
  {
    hide Pow, Bits;
    BitsBelow(v, k);
    if k > 0 {
      BitsBelow(v, k - 1);
    }
  }

  /** The checks as inequalities: sizes, oddness, factor bounds and distance, coprimality of the public
      exponent, and the range of the private one, its inverse modulo the least common multiple. */
  lemma ChecksIff(key: Key, bits: nat, pBits: nat, qBits: nat)
    requires |key.primes| == 2 ==> HasBits(key.primes[0], pBits) && HasBits(key.primes[1], qBits)
    ensures AlgebraicChecks(key, bits) <==>
            && 512 <= bits <= 16384 && HasBits(key.n, bits)
            && 3 <= key.e < Pow(2, 256) && key.e % 2 == 1 && |key.primes| == 2
            && var p, q := key.primes[0], key.primes[1];
            && pBits + qBits == bits && pBits <= qBits + 1 && qBits <= pBits + 1
            && p % 2 == 1 && q % 2 == 1 && key.n == p * q
            && Pow(2, 2 * pBits - 1) <= p * p && Pow(2, 2 * qBits - 1) <= q * q
            && (p - q > Pow(2, bits / 2 - 100) || q - p > Pow(2, bits / 2 - 100))
            && !(exists c :: c > 1 && Divides(c, p - 1) && Divides(c, key.e))
            && !(exists c :: c > 1 && Divides(c, q - 1) && Divides(c, key.e))
            && Pow(2, bits / 2) < key.d < Lcm(p - 1, q - 1)
            && (key.d * key.e) % Lcm(p - 1, q - 1) == 1
  {
    hide Pow, Bits, Lcm, Gcd, HasBits, Divides;
    BitsBelow(key.e, 256);
    if bits >= 512 {
      HasBitsIff(key.n, bits);
      PowPositive(2, bits / 2 - 100);
    }
    if |key.primes| == 2 {
      BitsCount(key.primes[0], pBits);
      BitsCount(key.primes[1], qBits);
      if key.e > 0 {
        if key.primes[0] >= 1 {
          GcdAboveOne(key.primes[0] - 1, key.e);
        }
        if key.primes[1] >= 1 {
          GcdAboveOne(key.primes[1] - 1, key.e);
        }
      }
    }
  }

  lemma BitsCount(v: nat, k: nat)
    requires HasBits(v, k)
    ensures Bits(v) == k
  {
    HasBitsIff(v, k);
  }

  /** Rounds answer true exactly when every base drawn satisfies Fermat's congruence without revealing a
      root of 1. */
  lemma {:induction false} RoundsPassed(n: nat, rng: Rng, pos: nat, rounds: nat, bases: seq<nat>, end: nat)
    requires n > 3 && n % 2 == 1 && |bases| == rounds && Drawn(n, rng, pos, bases, end)
    requires forall i :: 0 <= i < |bases| ==> FermatWithoutRoots(n, TrailingZeros(n - 1), OddFactor(n), bases[i])
    ensures RoundsVerdict(n, rng, pos, rounds) == (Ok(true), end)
    decreases rounds
  {
    hide Drawn, IsStrongProbablePrime, SampleBase, TrailingZeros, FermatWithoutRoots;
    if rounds == 0 {
      DrawnNothing(n, rng, pos, bases, end);
    } else {
      DrawnNext(n, rng, pos, bases, end);
      OddPart(n);
      StrongIffFermatWithoutRoots(n, TrailingZeros(n - 1), OddFactor(n), bases[0]);
      RoundsPassed(n, rng, SampleBase(n, rng, pos, 128).1, rounds - 1, bases[1..], end);
    }
  }

  lemma DrawnNothing(n: nat, rng: Rng, pos: nat, bases: seq<nat>, end: nat)
    requires bases == []
    ensures Drawn(n, rng, pos, bases, end) <==> end == pos
  {
  }

  lemma {:induction false} PassedBases(n: nat, rng: Rng, pos: nat, rounds: nat) returns (bases: seq<nat>)
    requires n > 3 && n % 2 == 1 && RoundsVerdict(n, rng, pos, rounds).0 == Ok(true)
    ensures |bases| == rounds && Drawn(n, rng, pos, bases, RoundsVerdict(n, rng, pos, rounds).1)
    ensures forall i :: 0 <= i < |bases| ==>
              1 < bases[i] < n - 1 && FermatWithoutRoots(n, TrailingZeros(n - 1), OddFactor(n), bases[i])
    decreases rounds
  {
    hide Drawn, IsStrongProbablePrime, SampleBase, TrailingZeros, FermatWithoutRoots;
    if rounds == 0 {
      bases := [];
      DrawnNothing(n, rng, pos, [], pos);
    } else {
      var (sample, next) := SampleBase(n, rng, pos, 128);
      var rest := PassedBases(n, rng, next, rounds - 1);
      bases := [sample.value] + rest;
      DrawnMore(n, rng, pos, rest, RoundsVerdict(n, rng, next, rounds - 1).1);
      OddPart(n);
      StrongIffFermatWithoutRoots(n, TrailingZeros(n - 1), OddFactor(n), sample.value);
    }
  }

  /** Numbers up to 3 and even numbers are decided outright, and rightly, without a draw. */
  lemma TrivialVerdicts(n: nat, rng: Rng, pos: nat, rounds: nat)
    requires n <= 3 || n % 2 == 0
    ensures PrimeVerdict(n, rng, pos, rounds) == (Ok(IsPrime(n)), pos)
  {
    if n > 3 {
      assert Divides(2, n);
    } else if n == 3 {
      assert !Divides(2, 3);
    }
  }

  /** p, then q, survives one base per round drawn in one continued run of the random source. */
  ghost predicate FactorsSurvive(p: nat, q: nat, rounds: nat, rng: Rng, ps: seq<nat>, qs: seq<nat>, middle: nat,
                                 end: nat)
    requires p > 3 && q > 3
  {
    && |ps| == |qs| == rounds && Drawn(p, rng, 0, ps, middle) && Drawn(q, rng, middle, qs, end)
    && (forall i :: 0 <= i < |ps| ==> FermatWithoutRoots(p, TrailingZeros(p - 1), OddFactor(p), ps[i]))
    && (forall i :: 0 <= i < |qs| ==> FermatWithoutRoots(q, TrailingZeros(q - 1), OddFactor(q), qs[i]))
  }

  /** Acceptance, both ways and for every random stream: the algebraic checks hold, both factors survive
      their bases, and the private operation undoes the public one on 2. */
  lemma AcceptedIff(key: Key, bits: nat, rounds: nat, rng: Rng, decrypt: (Key, nat) -> Option<nat>)
    ensures PrivateVerdict(key, bits, rounds, rng, decrypt).Ok? <==>
            && AlgebraicChecks(key, bits) && |key.primes| == 2 && key.primes[0] > 3 && key.primes[1] > 3 && key.n > 0
            && (exists ps, qs, middle, end ::
                  FactorsSurvive(key.primes[0], key.primes[1], rounds, rng, ps, qs, middle, end))
            && decrypt(key, Pow(2, key.e) % key.n) == Some(2)
  {
    hide AlgebraicChecks, RoundsVerdict, TrailingZeros, OddFactor, Pow, Drawn, FermatWithoutRoots;
    if AlgebraicChecks(key, bits) {
      FactorsAreLarge(key, bits);
      TwoPrimes(key, bits);
      var p, q := key.primes[0], key.primes[1];
      var next := PrimeVerdict(p, rng, 0, rounds).1;
      if PrimeVerdict(p, rng, 0, rounds).0 == Ok(true) && PrimeVerdict(q, rng, next, rounds).0 == Ok(true) {
        var ps := PassedBases(p, rng, 0, rounds);
        var qs := PassedBases(q, rng, next, rounds);
        assert FactorsSurvive(p, q, rounds, rng, ps, qs, next, PrimeVerdict(q, rng, next, rounds).1);
      }
      forall ps, qs, middle, end | FactorsSurvive(p, q, rounds, rng, ps, qs, middle, end)
        ensures PrimeVerdict(p, rng, 0, rounds).0 == Ok(true) && PrimeVerdict(q, rng, next, rounds).0 == Ok(true)
      {
        RoundsPassed(p, rng, 0, rounds, ps, middle);
        RoundsPassed(q, rng, middle, rounds, qs, end);
      }
    }
  }

  /** Whatever the random source does, an accepted key passed every algebraic check, each factor has
      one base per round that failed to witness against it, and the private operation undid the public
      one on 2. */
  lemma AcceptedKey(key: Key, bits: nat, rounds: nat, rng: Rng, decrypt: (Key, nat) -> Option<nat>)
    returns (pBases: seq<nat>, qBases: seq<nat>)
    requires PrivateVerdict(key, bits, rounds, rng, decrypt).Ok?
    ensures AlgebraicChecks(key, bits) && |pBases| == |qBases| == rounds
    ensures var p := key.primes[0];
            forall b :: b in pBases ==> 1 < b < p - 1 && IsStrongProbablePrime(p, TrailingZeros(p - 1), OddFactor(p), b)
    ensures var q := key.primes[1];
            forall b :: b in qBases ==> 1 < b < q - 1 && IsStrongProbablePrime(q, TrailingZeros(q - 1), OddFactor(q), b)
    ensures decrypt(key, Pow(2, key.e) % key.n) == Some(2)
  {
    hide AlgebraicChecks, RoundsVerdict, IsStrongProbablePrime, TrailingZeros, OddFactor, Pow;
    FactorsAreLarge(key, bits);
    var next := PrimeVerdict(key.primes[0], rng, 0, rounds).1;
    pBases := AcceptedRounds(key.primes[0], rng, 0, rounds);
    qBases := AcceptedRounds(key.primes[1], rng, next, rounds);
  }
}
