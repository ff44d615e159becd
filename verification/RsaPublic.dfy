/** RSA public-key plausibility checks: small factors, random bases and the enhanced
    Miller-Rabin round of section B.3.2 of FIPS 186-5. */
module RsaPublic {
  import opened Arithmetic
  import opened Primes
  import opened MillerRabin
  import opened BaseDraws
  import opened Bytes

  datatype Round = ProbablyPrime | CompositeWithFactor | CompositeNotPrimePower

  datatype Error = InvalidPublicKey | RandomnessUnavailable

  const MAX_ROUNDS := 5
  const MAX_BASE_ATTEMPTS := 128
  const MIN_RSA_BITS := 512
  const MAX_RSA_BITS := 16384

  // ---------- The enhanced round ----------

  /** Never "probably prime"; "with factor" exactly when some d > 1 divides both x - 1 and n, which for
      1 < x < n is a proper divisor of n, and always when n is a power of a prime dividing x - 1. */
  method ClassifyComposite(n: nat, x: nat) returns (round: Round)
    requires n > 1 && x >= 1
    ensures round != ProbablyPrime
    ensures round == CompositeWithFactor <==> exists d :: d > 1 && Divides(d, x - 1) && Divides(d, n)
    ensures round == CompositeWithFactor && 1 < x < n ==> IsComposite(n)
    ensures forall p, k: nat :: IsPrime(p) && k > 0 && n == Pow(p, k) && Divides(p, x - 1) ==>
            round == CompositeWithFactor
  {
    GcdAboveOne(x - 1, n);
    forall p, k: nat | IsPrime(p) && k > 0 && n == Pow(p, k) ensures Divides(p, n) {
      DividesIntro(p, n, Pow(p, k - 1));
    }
    if Gcd(x - 1, n) > 1 && 1 < x < n {
      ProperDivisor(n, x - 1);
    }
    if Gcd(x - 1, n) > 1 {
      round := CompositeWithFactor;
    } else {
      round := CompositeNotPrimePower;
    }
  }

  /** What the round decides, without reference to how: whether b^(n-1) - 1 shares a factor with n. */
  ghost predicate ShowsNotPrimePower(n: nat, b: nat)
    requires n > 1
  {
    Gcd(b, n) == 1 && Pow(b, n - 1) % n >= 1 && Gcd(Pow(b, n - 1) % n - 1, n) == 1
  }

  lemma UnitChainShowsNothing(n: nat, b: nat)
    requires n > 1 && Pow(b, n - 1) % n == 1
    ensures !ShowsNotPrimePower(n, b)
  {
    assert Gcd(0, n) == Gcd(n, 0) == n;
  }

  /** No power of a single prime passes: by Fermat, p divides b^(n-1) - 1 whenever n = p^k. */
  lemma PrimePowerShowsNothing(n: nat, b: nat)
    requires n > 1 && IsPrimePower(n)
    ensures !ShowsNotPrimePower(n, b)
  {
    var p: int, k: nat :| IsPrime(p) && k > 0 && n == Pow(p, k);
    DividesIntro(p, n, Pow(p, k - 1));
    if Gcd(b, n) == 1 {
      var x := Pow(b, n - 1) % n;
      if Divides(p, b) {
        GcdAboveOne(b, n);
      } else {
        FermatForPrimePower(p, k, b, n);
        GcdAboveOne(if x >= 1 then x - 1 else 0, n);
      }
    }
  }

  lemma FermatForPrimePower(p: int, k: nat, b: nat, n: nat)
    requires IsPrime(p) && k > 0 && n == Pow(p, k) && Divides(p, n) && n > 1 && !Divides(p, b)
    ensures Divides(p, Pow(b, n - 1) % n - 1)
  {
    PowMinusOne(p, k);
    var j := DividesQuotient(p - 1, n - 1);
    if j < 0 {
      MulMonotone(p - 1, j, 0);
    }
    FermatMultiple(b, p, j);
    RemainderKeepsDivisor(p, n, Pow(b, n - 1));
  }

  lemma RemainderKeepsDivisor(p: int, n: int, z: int)
    requires p > 0 && n > 0 && Divides(p, n) && Cong(z, 1, p)
    ensures Divides(p, z % n - 1)
  {
    var c := DividesQuotient(p, n);
    var u := CongQuotient(z, 1, p);
    assert n * (z / n) == p * (c * (z / n));
    DividesIntro(p, z % n - 1, u - c * (z / n));
  }

  /** A verdict of "not a prime power" is right: n is composite and no power of a prime. */
  lemma NotPrimePowerIsRight(n: nat, b: nat)
    requires n > 1 && ShowsNotPrimePower(n, b)
    ensures !IsPrimePower(n) && IsComposite(n)
  {
    if IsPrimePower(n) {
      PrimePowerShowsNothing(n, b);
    }
    if IsPrime(n) {
      assert Pow(n, 1) == n;
      assert IsPrimePower(n);
    }
    PrimeIsNotComposite(n);
  }

  lemma ProperDivisor(n: nat, y: nat)
    requires 0 < y < n && Gcd(y, n) > 1
    ensures IsComposite(n)
  {
    var u, v := GcdBezout(y, n);
    DividesBound(Gcd(y, n), y);
  }

  /** When the chain meets 1 from a value that is neither 1 nor -1, it never met -1. */
  lemma NotStrong(n: nat, a: nat, m: nat, b: nat, i: nat)
    requires n > 2 && i <= a && Chain(n, m, b, i) == 1
    requires forall j :: 0 <= j < i ==> Chain(n, m, b, j) != 1 && Chain(n, m, b, j) != n - 1
    requires i >= 1
    ensures !IsStrongProbablePrime(n, a, m, b)
  {
    hide Chain;
    forall j | i < j < a ensures Chain(n, m, b, j) != n - 1 {
      ChainStaysOne(n, m, b, i, j);
    }
  }

  /** One enhanced round. "Not a prime power" is reported exactly when b^(n-1) - 1 is coprime to n,
      "probably prime" exactly for strong probable primes, and "with factor" only when a proper
      divisor exists; the argument of `x - 1` is never zero. */
  method EnhancedRound(n: nat, upper: nat, a: nat, m: nat, b: nat) returns (round: Round)
    requires Decomposes(n, a, m) && upper == n - 1 && 0 < b < n
    ensures round == CompositeNotPrimePower <==> ShowsNotPrimePower(n, b)
    ensures round == ProbablyPrime <==> Gcd(b, n) == 1 && IsStrongProbablePrime(n, a, m, b)
    ensures round == CompositeWithFactor ==> IsComposite(n)
  {
    hide Chain;
    if Gcd(b, n) > 1 {
      ProperDivisor(n, b);
      return CompositeWithFactor;
    }
    assert Gcd(b, n) == 1 by { var u, v := GcdBezout(b, n); }
    var z := Pow(b, m) % n;
    ChainStart(n, m, b);
    if z == 1 || z == upper {
      ChainStaysOne(n, m, b, 0, a);
      ChainEnd(n, a, m, b);
      UnitChainShowsNothing(n, b);
      return ProbablyPrime;
    }
    ChainNotZero(n, m, b, 0);
    var i := 1;
    while i < a
      invariant 1 <= i <= a
      invariant z == Chain(n, m, b, i - 1) && 0 <= z < n
      invariant forall j :: 0 <= j < i ==> Chain(n, m, b, j) != 1 && Chain(n, m, b, j) != upper
    {
      var x := z;
      z := (x * x) % n;
      ChainStep(n, m, b, i - 1);
      if z == upper {
        ChainStaysOne(n, m, b, i, a);
        ChainEnd(n, a, m, b);
        UnitChainShowsNothing(n, b);
        return ProbablyPrime;
      }
      if z == 1 {
        round := FoundRoot(n, a, m, b, i, x);
        return;
      }
      i := i + 1;
    }
    var x := z;
    z := (x * x) % n;
    ChainStep(n, m, b, a - 1);
    ChainEnd(n, a, m, b);
    if z == 1 {
      round := FoundRoot(n, a, m, b, a, x);
      return;
    }
    x := z;
    ChainNotZero(n, m, b, a);
    round := ClassifyComposite(n, x);
    GcdAboveOne(x - 1, n);
  }

  /** The two places where the squared value is 1: the root always reveals a factor. */
  method FoundRoot(n: nat, a: nat, m: nat, b: nat, i: nat, x: nat) returns (round: Round)
    requires Decomposes(n, a, m) && Gcd(b, n) == 1 && 1 <= i <= a
    requires x == Chain(n, m, b, i - 1) && x < n && (x * x) % n == 1 == Chain(n, m, b, i)
    requires forall j :: 0 <= j < i ==> Chain(n, m, b, j) != 1 && Chain(n, m, b, j) != n - 1
    ensures round == CompositeWithFactor && IsComposite(n)
    ensures !ShowsNotPrimePower(n, b) && !IsStrongProbablePrime(n, a, m, b)
  {
    hide Chain;
    ChainNotZero(n, m, b, i - 1);
    RootRevealsFactor(n, x);
    round := ClassifyComposite(n, x);
    GcdAboveOne(x - 1, n);
    NotStrong(n, a, m, b, i);
    if i < a {
      ChainStaysOne(n, m, b, i, a);
    }
    ChainEnd(n, a, m, b);
    UnitChainShowsNothing(n, b);
  }

  // ---------- Small factors ----------

  /** The product of the odd primes below k. */
  ghost function OddPrimorial(k: nat): (r: nat)
    ensures r >= 1
  {
    if k <= 3 then 1
    else if (k - 1) % 2 == 1 && IsPrime(k - 1) then
      var r := OddPrimorial(k - 1);
      assert r * (k - 1) >= 1;
      r * (k - 1)
    else OddPrimorial(k - 1)
  }

  /** A prime divides the product exactly when it is one of those primes. */
  lemma {:induction false} PrimeDividesPrimorial(k: nat, p: int)
    requires IsPrime(p)
    ensures Divides(p, OddPrimorial(k)) <==> 3 <= p < k
  {
    if k <= 3 {
      if Divides(p, 1) {
        DividesBound(p, 1);
      }
    } else {
      PrimeDividesPrimorial(k - 1, p);
      if (k - 1) % 2 == 1 && IsPrime(k - 1) {
        PrimeDividesTimes(p, OddPrimorial(k - 1), k - 1);
      } else if p == k - 1 {
        EvenPrime(p);
      }
    }
  }

  lemma PrimeDividesTimes(p: int, r: nat, c: int)
    requires IsPrime(p) && IsPrime(c)
    ensures Divides(p, r * c) <==> Divides(p, r) || p == c
  {
    if Divides(p, r * c) {
      PrimeDividesProduct(p, r, c);
      if Divides(p, c) {
        DividesBound(p, c);
      }
    }
    if Divides(p, r) {
      var q := DividesQuotient(p, r);
      assert r * c == p * (q * c);
      DividesIntro(p, r * c, q * c);
    }
    if p == c {
      DividesIntro(p, r * c, r);
    }
  }

  lemma EvenPrime(p: int)
    requires IsPrime(p) && p % 2 == 0
    ensures p == 2
  {
    assert Divides(2, p);
  }

  /** gcd(n, product) = 1 says that no odd prime below k divides n. */
  lemma CoprimeToPrimorial(n: nat, k: nat)
    requires n > 0
    ensures Gcd(n, OddPrimorial(k)) == 1 <==> forall p :: IsPrime(p) && 3 <= p < k ==> !Divides(p, n)
  {
    hide OddPrimorial;
    var product := OddPrimorial(k);
    GcdAboveOne(n, product);
    if Gcd(n, product) == 1 {
      forall p | IsPrime(p) && 3 <= p < k ensures !Divides(p, n) {
        PrimeDividesPrimorial(k, p);
      }
    } else {
      var d :| d > 1 && Divides(d, n) && Divides(d, product);
      var p := PrimeDivisor(d);
      DividesTransitive(p, d, n);
      DividesTransitive(p, d, product);
      PrimeDividesPrimorial(k, p);
    }
  }

  /** Trial division by odd numbers only. */
  method HasNoOddDivisor(candidate: nat) returns (prime: bool)
    requires candidate >= 3 && candidate % 2 == 1
    ensures prime <==> IsPrime(candidate)
  {
    prime := true;
    var divisor := 3;
    EvenDivisor(2, candidate);
    while divisor < candidate
      invariant 3 <= divisor <= candidate && divisor % 2 == 1
      invariant prime <==> forall d :: 1 < d < divisor ==> !Divides(d, candidate)
    {
      prime := prime && candidate % divisor != 0;
      EvenDivisor(divisor + 1, candidate);
      NextOddDivisor(divisor, candidate);
      divisor := divisor + 2;
    }
  }

  lemma NextOddDivisor(divisor: int, candidate: int)
    requires divisor > 1 && !Divides(divisor + 1, candidate)
    ensures (forall d :: 1 < d < divisor + 2 ==> !Divides(d, candidate))
       <==> (forall d :: 1 < d < divisor ==> !Divides(d, candidate)) && candidate % divisor != 0
  {
    assert Divides(divisor, candidate) <==> candidate % divisor == 0;
  }

  lemma EvenDivisor(d: int, candidate: int)
    requires d > 0 && d % 2 == 0 && candidate % 2 == 1
    ensures !Divides(d, candidate)
  {
    if Divides(d, candidate) {
      assert Divides(2, d);
      DividesTransitive(2, d, candidate);
    }
  }

  /** The product of the odd primes 3..751, found by trial division. */
  method SmallFactors() returns (product: nat)
    ensures product == OddPrimorial(752)
  {
    hide OddPrimorial;
    product := 1;
    var candidate := 3;
    PrimorialStart();
    while candidate < 752
      invariant 3 <= candidate <= 753 && candidate % 2 == 1
      invariant product == OddPrimorial(candidate)
    {
      var prime := HasNoOddDivisor(candidate);
      PrimorialStep(candidate);
      if prime {
        product := product * candidate;
      }
      candidate := candidate + 2;
    }
    PrimorialStep(751);
    PrimorialEven(752);
  }

  lemma PrimorialStart()
    ensures OddPrimorial(3) == 1
  {
  }

  lemma PrimorialEven(k: nat)
    requires k >= 3 && k % 2 == 0
    ensures OddPrimorial(k + 1) == OddPrimorial(k)
  {
  }

  lemma PrimorialStep(k: nat)
    requires k >= 3 && k % 2 == 1
    ensures OddPrimorial(k + 2) == if IsPrime(k) then OddPrimorial(k) * k else OddPrimorial(k)
  {
    PrimorialEven(k + 1);
    assert OddPrimorial(k + 1) == if IsPrime(k) then OddPrimorial(k) * k else OddPrimorial(k);
  }

  // ---------- The whole check ----------

  /** What the rounds from one point of the random stream decide. */
  ghost function RoundsVerdict(n: nat, a: nat, m: nat, rng: Rng, pos: nat, rounds: nat): Result<(), Error>
    requires n > 2
    decreases rounds
  {
    if rounds == 0 then Err(InvalidPublicKey)
    else
      var (sample, next) := SampleBase(n, rng, pos, MAX_BASE_ATTEMPTS);
      if sample.None? then Err(RandomnessUnavailable)
      else if ShowsNotPrimePower(n, sample.value) then Ok(())
      else if Gcd(sample.value, n) == 1 && IsStrongProbablePrime(n, a, m, sample.value) then
        RoundsVerdict(n, a, m, rng, next, rounds - 1)
      else Err(InvalidPublicKey)
  }

  /** The checks made before any random base is drawn. */
  predicate WellFormed(modulus: seq<byte>, exponent: seq<byte>, expectedBits: nat) {
    && MIN_RSA_BITS <= expectedBits <= MAX_RSA_BITS
    && |modulus| == (expectedBits + 7) / 8
    && modulus[|modulus| - 1] % 2 == 1
    && 0 < |exponent| <= 32
    && var n, e := FromBigEndian(modulus), FromBigEndian(exponent);
    && Bits(n) == expectedBits && 3 <= e < n && Bits(e) <= 256 && e % 2 == 1
  }

  lemma {:induction false} AcceptedIsNotPrimePower(n: nat, a: nat, m: nat, rng: Rng, pos: nat, rounds: nat)
    requires n > 2 && RoundsVerdict(n, a, m, rng, pos, rounds).Ok?
    ensures IsComposite(n) && !IsPrimePower(n)
    decreases rounds
  {
    hide ShowsNotPrimePower, IsStrongProbablePrime, SampleBase;
    var (sample, next) := SampleBase(n, rng, pos, MAX_BASE_ATTEMPTS);
    if ShowsNotPrimePower(n, sample.value) {
      NotPrimePowerIsRight(n, sample.value);
    } else {
      AcceptedIsNotPrimePower(n, a, m, rng, next, rounds - 1);
    }
  }

  ghost predicate HasNoSmallFactor(n: nat) {
    forall p :: IsPrime(p) && 3 <= p < 752 ==> !Divides(p, n)
  }

  /** What public validation answers, for any random stream. */
  ghost function PublicVerdict(modulus: seq<byte>, exponent: seq<byte>, expectedBits: nat,
                               rng: Rng): Result<(), Error> {
    var n := FromBigEndian(modulus);
    if !WellFormed(modulus, exponent, expectedBits) || !HasNoSmallFactor(n) then Err(InvalidPublicKey)
    else RoundsVerdict(n, TrailingZeros(n - 1), OddFactor(n), rng, 0, MAX_ROUNDS)
  }

  /** Whatever the random source does, an accepted modulus is odd, composite, no power of a single
      prime and free of prime factors up to 751, and its exponent is odd and in range. */
  lemma AcceptedModulus(modulus: seq<byte>, exponent: seq<byte>, expectedBits: nat, rng: Rng)
    requires PublicVerdict(modulus, exponent, expectedBits, rng).Ok?
    ensures var n := FromBigEndian(modulus);
            && Bits(n) == expectedBits && n % 2 == 1
            && IsComposite(n) && !IsPrimePower(n)
            && forall p :: IsPrime(p) && p <= 751 ==> !Divides(p, n)
    ensures var e := FromBigEndian(exponent);
            e % 2 == 1 && 3 <= e < FromBigEndian(modulus) && e < Pow(2, 256)
  {
    hide RoundsVerdict, FromBigEndian;
    var n := FromBigEndian(modulus);
    AcceptedIsNotPrimePower(n, TrailingZeros(n - 1), OddFactor(n), rng, 0, MAX_ROUNDS);
    LastByteParity(modulus);
    NoEvenPrime(n);
    BitsBelow(FromBigEndian(exponent), 256);
  }

  // ---------- Exactly what is accepted ----------

  /** The bases drawn before the last keep n looking prime, and the last shows that it is not a prime
      power. */
  ghost predicate LastBaseShows(n: nat, bases: seq<nat>)
    requires n > 2
  {
    bases != [] &&
    (forall i :: 0 <= i < |bases| - 1 ==> KeepsLookingPrime(n, bases[i])) &&
    var b := bases[|bases| - 1];
    Gcd(b, n) == 1 && Pow(b, n - 1) % n >= 1 && Gcd(Pow(b, n - 1) % n - 1, n) == 1
  }

  ghost predicate KeepsLookingPrime(n: nat, b: nat)
    requires n > 2
  {
    Gcd(b, n) == 1 && FermatWithoutRoots(n, TrailingZeros(n - 1), OddFactor(n), b)
  }

  lemma LooksPrime(n: nat, b: nat)
    requires n > 2 && n % 2 == 1
    ensures KeepsLookingPrime(n, b) <==>
            Gcd(b, n) == 1 && IsStrongProbablePrime(n, TrailingZeros(n - 1), OddFactor(n), b)
    ensures KeepsLookingPrime(n, b) ==> !ShowsNotPrimePower(n, b)
  {
    hide IsStrongProbablePrime, TrailingZeros;
    OddPart(n);
    StrongIffFermatWithoutRoots(n, TrailingZeros(n - 1), OddFactor(n), b);
    if KeepsLookingPrime(n, b) {
      UnitChainShowsNothing(n, b);
    }
  }

  lemma OneBase(n: nat, b: nat)
    requires n > 2
    ensures LastBaseShows(n, [b]) <==> ShowsNotPrimePower(n, b)
  {
  }

  lemma OneMoreBase(n: nat, b: nat, rest: seq<nat>)
    requires n > 2 && rest != []
    ensures LastBaseShows(n, [b] + rest) <==> KeepsLookingPrime(n, b) && LastBaseShows(n, rest)
  {
    hide KeepsLookingPrime, Gcd, Pow;
    var bases := [b] + rest;
    assert bases[0] == b && bases[1..] == rest && bases[|bases| - 1] == rest[|rest| - 1];
    if LastBaseShows(n, bases) {
      forall i | 0 <= i < |rest| - 1 ensures KeepsLookingPrime(n, rest[i]) {
        assert rest[i] == bases[i + 1];
      }
    }
  }

  lemma {:induction false} RoundsAccept(n: nat, rng: Rng, pos: nat, rounds: nat, bases: seq<nat>, end: nat)
    requires n > 2 && n % 2 == 1 && |bases| <= rounds && Drawn(n, rng, pos, bases, end) && LastBaseShows(n, bases)
    ensures RoundsVerdict(n, TrailingZeros(n - 1), OddFactor(n), rng, pos, rounds).Ok?
    decreases rounds
  {
    hide Drawn, LastBaseShows, ShowsNotPrimePower, IsStrongProbablePrime, SampleBase, TrailingZeros, KeepsLookingPrime;
    NotEmpty(n, bases);
    var b, rest := bases[0], bases[1..];
    assert bases == [b] + rest;
    DrawnNext(n, rng, pos, bases, end);
    if rest == [] {
      assert bases == [b];
      OneBase(n, b);
    } else {
      OneMoreBase(n, b, rest);
      LooksPrime(n, b);
      RoundsAccept(n, rng, SampleBase(n, rng, pos, 128).1, rounds - 1, rest, end);
    }
  }

  lemma NotEmpty(n: nat, bases: seq<nat>)
    requires n > 2 && LastBaseShows(n, bases)
    ensures bases != []
  {
  }

  lemma {:induction false} AcceptedBases(n: nat, rng: Rng, pos: nat, rounds: nat) returns (bases: seq<nat>, end: nat)
    requires n > 2 && n % 2 == 1 && RoundsVerdict(n, TrailingZeros(n - 1), OddFactor(n), rng, pos, rounds).Ok?
    ensures |bases| <= rounds && Drawn(n, rng, pos, bases, end) && LastBaseShows(n, bases)
    decreases rounds
  {
    hide Drawn, LastBaseShows, ShowsNotPrimePower, IsStrongProbablePrime, SampleBase, TrailingZeros, KeepsLookingPrime;
    var (sample, next) := SampleBase(n, rng, pos, 128);
    var b := sample.value;
    LooksPrime(n, b);
    if ShowsNotPrimePower(n, b) {
      bases, end := [b], next;
      NoMoreDraws(n, rng, next);
      DrawnMore(n, rng, pos, [], next);
      assert [b] + [] == [b];
      OneBase(n, b);
    } else {
      var rest;
      rest, end := AcceptedBases(n, rng, next, rounds - 1);
      NotEmpty(n, rest);
      bases := [b] + rest;
      DrawnMore(n, rng, pos, rest, end);
      OneMoreBase(n, b, rest);
    }
  }

  lemma NoMoreDraws(n: nat, rng: Rng, pos: nat)
    ensures Drawn(n, rng, pos, [], pos)
  {
  }

  /** The format in plain terms: sizes, parity and ranges of the two numbers. */
  lemma FormatIff(modulus: seq<byte>, exponent: seq<byte>, expectedBits: nat)
    ensures var n, e := FromBigEndian(modulus), FromBigEndian(exponent);
            WellFormed(modulus, exponent, expectedBits) <==>
            && 512 <= expectedBits <= 16384 && expectedBits <= 8 * |modulus| < expectedBits + 8
            && Pow(2, expectedBits - 1) <= n < Pow(2, expectedBits) && n % 2 == 1
            && 1 <= |exponent| <= 32 && 3 <= e < n && e % 2 == 1
  {
    hide FromBigEndian, Bits, Pow;
    var n, e := FromBigEndian(modulus), FromBigEndian(exponent);
    if 512 <= expectedBits {
      BitsBelow(n, expectedBits);
      BitsBelow(n, expectedBits - 1);
    }
    if modulus != [] {
      LastByteParity(modulus);
    }
    if |exponent| <= 32 {
      ShortExponent(exponent);
    }
  }

  lemma ShortExponent(exponent: seq<byte>)
    requires |exponent| <= 32
    ensures Bits(FromBigEndian(exponent)) <= 256
  {
    hide FromBigEndian, Bits, Pow;
    BigEndianBound(exponent);
    TwoToTheEighth();
    PowPow(2, 8, |exponent|);
    PowTwoMonotone(8 * |exponent|, 256);
    BitsBelow(FromBigEndian(exponent), 256);
  }

  /** Acceptance, both ways and for every random stream: the format holds, no prime up to 751 divides the
      modulus, and among the first five bases drawn one shows that it is not a prime power while those
      before it keep it looking prime. */
  lemma AcceptedIff(modulus: seq<byte>, exponent: seq<byte>, expectedBits: nat, rng: Rng)
    ensures var n, e := FromBigEndian(modulus), FromBigEndian(exponent);
            PublicVerdict(modulus, exponent, expectedBits, rng).Ok? <==>
            && 512 <= expectedBits <= 16384 && expectedBits <= 8 * |modulus| < expectedBits + 8
            && Pow(2, expectedBits - 1) <= n < Pow(2, expectedBits) && n % 2 == 1
            && 1 <= |exponent| <= 32 && 3 <= e < n && e % 2 == 1
            && (forall p :: IsPrime(p) && p <= 751 ==> !Divides(p, n))
            && exists bases, end :: |bases| <= 5 && Drawn(n, rng, 0, bases, end) && LastBaseShows(n, bases)
  {
    hide FromBigEndian, Pow, WellFormed, RoundsVerdict, Drawn, LastBaseShows, IsPrime, Divides;
    var n := FromBigEndian(modulus);
    FormatIff(modulus, exponent, expectedBits);
    if WellFormed(modulus, exponent, expectedBits) {
      NoSmallFactorIff(n);
      if RoundsVerdict(n, TrailingZeros(n - 1), OddFactor(n), rng, 0, MAX_ROUNDS).Ok? {
        var bases, end := AcceptedBases(n, rng, 0, MAX_ROUNDS);
      }
      forall bases, end | |bases| <= 5 && Drawn(n, rng, 0, bases, end) && LastBaseShows(n, bases)
        ensures RoundsVerdict(n, TrailingZeros(n - 1), OddFactor(n), rng, 0, MAX_ROUNDS).Ok?
      {
        RoundsAccept(n, rng, 0, 5, bases, end);
      }
    }
  }

  lemma NoSmallFactorIff(n: nat)
    requires n % 2 == 1
    ensures HasNoSmallFactor(n) <==> forall p :: IsPrime(p) && p <= 751 ==> !Divides(p, n)
  {
    if HasNoSmallFactor(n) {
      NoEvenPrime(n);
    }
  }

  lemma {:induction false} RoundsStarve(n: nat, rng: Rng, pos: nat, rounds: nat, bases: seq<nat>, end: nat)
    requires n > 2 && n % 2 == 1 && |bases| < rounds && Drawn(n, rng, pos, bases, end) && NoneAcceptable(n, rng, end)
    requires forall i :: 0 <= i < |bases| ==> KeepsLookingPrime(n, bases[i])
    ensures RoundsVerdict(n, TrailingZeros(n - 1), OddFactor(n), rng, pos, rounds) == Err(RandomnessUnavailable)
    decreases rounds
  {
    hide NoneAcceptable, ShowsNotPrimePower, IsStrongProbablePrime, SampleBase, TrailingZeros, KeepsLookingPrime;
    if bases == [] {
      SampleFailsIff(n, rng, pos);
    } else {
      DrawnNext(n, rng, pos, bases, end);
      hide Drawn;
      LooksPrime(n, bases[0]);
      RoundsStarve(n, rng, SampleBase(n, rng, pos, 128).1, rounds - 1, bases[1..], end);
    }
  }

  lemma {:induction false} StarvedBases(n: nat, rng: Rng, pos: nat, rounds: nat) returns (bases: seq<nat>, end: nat)
    requires n > 2 && n % 2 == 1
    requires RoundsVerdict(n, TrailingZeros(n - 1), OddFactor(n), rng, pos, rounds) == Err(RandomnessUnavailable)
    ensures |bases| < rounds && Drawn(n, rng, pos, bases, end) && NoneAcceptable(n, rng, end)
    ensures forall i :: 0 <= i < |bases| ==> KeepsLookingPrime(n, bases[i])
    decreases rounds
  {
    hide Drawn, NoneAcceptable, ShowsNotPrimePower, IsStrongProbablePrime, SampleBase, TrailingZeros, KeepsLookingPrime;
    var (sample, next) := SampleBase(n, rng, pos, 128);
    if sample.None? {
      bases, end := [], pos;
      SampleFailsIff(n, rng, pos);
      NoMoreDraws(n, rng, pos);
    } else {
      var rest;
      rest, end := StarvedBases(n, rng, next, rounds - 1);
      bases := [sample.value] + rest;
      DrawnMore(n, rng, pos, rest, end);
      LooksPrime(n, sample.value);
    }
  }

  /** Unusable randomness is reported exactly when, for a well-formed modulus without small factors, the
      source gives out after fewer than five bases, all of which kept the modulus looking prime. */
  lemma UnavailableIff(modulus: seq<byte>, exponent: seq<byte>, expectedBits: nat, rng: Rng)
    ensures var n, e := FromBigEndian(modulus), FromBigEndian(exponent);
            PublicVerdict(modulus, exponent, expectedBits, rng) == Err(RandomnessUnavailable) <==>
            && 512 <= expectedBits <= 16384 && expectedBits <= 8 * |modulus| < expectedBits + 8
            && Pow(2, expectedBits - 1) <= n < Pow(2, expectedBits) && n % 2 == 1
            && 1 <= |exponent| <= 32 && 3 <= e < n && e % 2 == 1
            && (forall p :: IsPrime(p) && p <= 751 ==> !Divides(p, n))
            && exists bases, end :: |bases| < 5 && Drawn(n, rng, 0, bases, end) && NoneAcceptable(n, rng, end) &&
                 forall i :: 0 <= i < |bases| ==> KeepsLookingPrime(n, bases[i])
  {
    hide FromBigEndian, Pow, WellFormed, RoundsVerdict, Drawn, NoneAcceptable, KeepsLookingPrime, IsPrime, Divides;
    var n := FromBigEndian(modulus);
    FormatIff(modulus, exponent, expectedBits);
    if WellFormed(modulus, exponent, expectedBits) {
      NoSmallFactorIff(n);
      if RoundsVerdict(n, TrailingZeros(n - 1), OddFactor(n), rng, 0, MAX_ROUNDS) == Err(RandomnessUnavailable) {
        var bases, end := StarvedBases(n, rng, 0, MAX_ROUNDS);
      }
      forall bases, end | |bases| < 5 && Drawn(n, rng, 0, bases, end) && NoneAcceptable(n, rng, end) &&
                          forall i :: 0 <= i < |bases| ==> KeepsLookingPrime(n, bases[i])
        ensures RoundsVerdict(n, TrailingZeros(n - 1), OddFactor(n), rng, 0, MAX_ROUNDS) == Err(RandomnessUnavailable)
      {
        RoundsStarve(n, rng, 0, 5, bases, end);
      }
    }
  }

  /** An ordinary key is accepted whenever the first base drawn shows that it is not a prime power. */
  lemma GoodKeyAccepted(modulus: seq<byte>, exponent: seq<byte>, expectedBits: nat, rng: Rng, k: nat, b: nat)
    requires 512 <= expectedBits <= 16384 && expectedBits <= 8 * |modulus| < expectedBits + 8
    requires var n, e := FromBigEndian(modulus), FromBigEndian(exponent);
             && Pow(2, expectedBits - 1) <= n < Pow(2, expectedBits) && n % 2 == 1
             && 1 <= |exponent| <= 32 && 3 <= e < n && e % 2 == 1
             && (forall p :: IsPrime(p) && p <= 751 ==> !Divides(p, n))
             && FirstAcceptable(n, rng, 0, k, b)
             && Gcd(b, n) == 1 && Pow(b, n - 1) % n >= 1 && Gcd(Pow(b, n - 1) % n - 1, n) == 1
    ensures PublicVerdict(modulus, exponent, expectedBits, rng).Ok?
  {
    hide FromBigEndian, PublicVerdict, IsPrime, Divides, FirstAcceptable, Gcd, Pow;
    var n := FromBigEndian(modulus);
    NoMoreDraws(n, rng, k + 1);
    assert [b][0] == b && [b][1..] == [];
    assert Drawn(n, rng, 0, [b], k + 1) by { assert FirstAcceptable(n, rng, 0, k, [b][0]); }
    assert LastBaseShows(n, [b]);
    AcceptedIff(modulus, exponent, expectedBits, rng);
  }

  /** No prime modulus is ever accepted. */
  lemma PrimeModulusRejected(modulus: seq<byte>, exponent: seq<byte>, expectedBits: nat, rng: Rng)
    requires IsPrime(FromBigEndian(modulus))
    ensures PublicVerdict(modulus, exponent, expectedBits, rng).Err?
  {
    hide PublicVerdict;
    if PublicVerdict(modulus, exponent, expectedBits, rng).Ok? {
      AcceptedModulus(modulus, exponent, expectedBits, rng);
      PrimeIsNotComposite(FromBigEndian(modulus));
    }
  }

  /** Checks a public modulus and exponent. */
  method ValidateWithRng(modulus: seq<byte>, exponent: seq<byte>, expectedBits: nat, rng: Rng)
    returns (result: Result<(), Error>)
    ensures result == PublicVerdict(modulus, exponent, expectedBits, rng)
  {
    hide RoundsVerdict, FromBigEndian, Bits;
    if !WellFormed(modulus, exponent, expectedBits) {
      return Err(InvalidPublicKey);
    }
    var n := FromBigEndian(modulus);
    LastByteParity(modulus);
    var factors := SmallFactors();
    CoprimeToPrimorial(n, 752);
    if Gcd(n, factors) != 1 {
      return Err(InvalidPublicKey);
    }
    OddPart(n);
    result := RunRounds(n, n - 1, TrailingZeros(n - 1), OddFactor(n), rng);
  }

  lemma NoEvenPrime(n: nat)
    requires n % 2 == 1 && forall p :: IsPrime(p) && 3 <= p < 752 ==> !Divides(p, n)
    ensures forall p :: IsPrime(p) && p <= 751 ==> !Divides(p, n)
  {
    forall p | IsPrime(p) && p <= 751 ensures !Divides(p, n) {
      if p == 2 {
        assert n % 2 == 1;
      }
    }
  }

  lemma LastByteParity(s: seq<byte>)
    requires s != []
    ensures FromBigEndian(s) % 2 == s[|s| - 1] % 2
  {
  }

  /** The bounded round loop. */
  method RunRounds(n: nat, upper: nat, a: nat, m: nat, rng: Rng) returns (result: Result<(), Error>)
    requires Decomposes(n, a, m) && upper == n - 1
    ensures result == RoundsVerdict(n, a, m, rng, 0, MAX_ROUNDS)
  {
    hide ShowsNotPrimePower, IsStrongProbablePrime, SampleBase;
    var pos := 0;
    var round := 0;
    while round < MAX_ROUNDS
      invariant 0 <= round <= MAX_ROUNDS
      invariant RoundsVerdict(n, a, m, rng, 0, MAX_ROUNDS) == RoundsVerdict(n, a, m, rng, pos, MAX_ROUNDS - round)
    {
      var sample;
      sample, pos := RandomBase(n, rng, pos, MAX_BASE_ATTEMPTS);
      if sample.None? {
        return Err(RandomnessUnavailable);
      }
      var verdict := EnhancedRound(n, upper, a, m, sample.value);
      match verdict {
        case CompositeNotPrimePower => return Ok(());
        case CompositeWithFactor => return Err(InvalidPublicKey);
        case ProbablyPrime =>
          assert !ShowsNotPrimePower(n, sample.value);
      }
      round := round + 1;
    }
    return Err(InvalidPublicKey);
  }
}
