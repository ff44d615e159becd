/** Strong probable primes: the squaring chain that both Miller-Rabin tests walk. */
module MillerRabin {
  import opened Arithmetic
  import opened Primes
  import opened Bytes

  /** n - 1 = 2^a * m with m odd, as the caller computes them. */
  ghost predicate Decomposes(n: int, a: nat, m: nat) {
    n > 2 && a >= 1 && m % 2 == 1 && n - 1 == Pow(2, a) * m
  }

  /** The i-th value of the squaring chain: b^(2^i * m) mod n. */
  ghost function Chain(n: nat, m: nat, b: nat, i: nat): (c: int)
    requires n > 0
    ensures 0 <= c < n
  {
    PowPositive(2, i);
    Pow(b, Pow(2, i) * m) % n
  }

  lemma ChainStart(n: nat, m: nat, b: nat)
    requires n > 0
    ensures Chain(n, m, b, 0) == Pow(b, m) % n
  {
  }

  lemma ChainStep(n: nat, m: nat, b: nat, i: nat)
    requires n > 0
    ensures Chain(n, m, b, i + 1) == (Chain(n, m, b, i) * Chain(n, m, b, i)) % n
  {
    PowPositive(2, i);
    var e := Pow(2, i) * m;
    assert Pow(2, i + 1) * m == e + e;
    PowAdd(b, e, e);
    var p := Pow(b, e);
    CongMod(p, n);
    CongMul(p % n, p, p % n, p, n);
    CongIsEqualRemainder((p % n) * (p % n), p * p, n);
  }

  lemma ChainEnd(n: nat, a: nat, m: nat, b: nat)
    requires Decomposes(n, a, m)
    ensures Chain(n, m, b, a) == Pow(b, n - 1) % n
  {
  }

  /** Squaring 1 or -1 gives 1. */
  lemma SquareOfUnit(n: nat, x: int)
    requires n > 1 && (x == 1 || x == n - 1)
    ensures (x * x) % n == 1
  {
    if x == 1 {
      RemainderUnique(1, n, 0, 1);
    } else {
      assert x * x == n * (n - 2) + 1;
      RemainderUnique(x * x, n, n - 2, 1);
    }
  }

  /** Once the chain reaches 1 or -1, every later value is 1. */
  lemma {:induction false} ChainStaysOne(n: nat, m: nat, b: nat, i: nat, j: nat)
    requires n > 1 && i < j && (Chain(n, m, b, i) == 1 || Chain(n, m, b, i) == n - 1)
    ensures Chain(n, m, b, j) == 1
    decreases j
  {
    hide Chain;
    ChainStep(n, m, b, j - 1);
    if i < j - 1 {
      ChainStaysOne(n, m, b, i, j - 1);
    }
    SquareOfUnit(n, Chain(n, m, b, j - 1));
  }

  /** A square root of 1 other than 1 and -1 shares a factor with n. */
  lemma RootRevealsFactor(n: nat, x: nat)
    requires n > 1 && 1 < x < n - 1 && (x * x) % n == 1
    ensures Gcd(x - 1, n) > 1
  {
    var u, v := GcdBezout(x - 1, n);
    if Gcd(x - 1, n) == 1 {
      assert (x - 1) * (x + 1) == x * x - 1 == n * ((x * x) / n);
      DividesIntro(n, (x - 1) * (x + 1), (x * x) / n);
      CoprimeDivides(n, x - 1, x + 1);
      DividesBound(n, x + 1);
    }
  }

  /** A base without a common factor keeps the chain away from zero. */
  lemma ChainNotZero(n: nat, m: nat, b: nat, i: nat)
    requires n > 1 && Gcd(b, n) == 1
    ensures Chain(n, m, b, i) >= 1
  {
    PowPositive(2, i);
    if Chain(n, m, b, i) == 0 {
      var p := PrimeDivisor(n);
      DividesTransitive(p, n, Pow(b, Pow(2, i) * m));
      PrimeDividesPower(p, b, Pow(2, i) * m);
      GcdAboveOne(b, n);
    }
  }

  /** b is no witness against n: the chain starts at 1 or passes through -1 before its end. */
  ghost predicate IsStrongProbablePrime(n: nat, a: nat, m: nat, b: nat)
    requires n > 0
  {
    Chain(n, m, b, 0) == 1 || exists i :: 0 <= i < a && Chain(n, m, b, i) == n - 1
  }

  /** Walking back from a 1 in a prime field meets -1 or reaches the start. */
  lemma {:induction false} ChainBack(n: nat, m: nat, b: nat, i: nat)
    requires IsPrime(n) && Chain(n, m, b, i) == 1
    ensures Chain(n, m, b, 0) == 1 || exists j :: 0 <= j < i && Chain(n, m, b, j) == n - 1
  {
    hide Chain;
    if i > 0 {
      var x := Chain(n, m, b, i - 1);
      ChainStep(n, m, b, i - 1);
      RootInPrimeField(n, x);
      if Chain(n, m, b, i - 1) == 1 {
        ChainBack(n, m, b, i - 1);
      }
    }
  }

  lemma RootInPrimeField(n: nat, x: int)
    requires IsPrime(n) && (x * x) % n == 1
    ensures 0 <= x < n ==> x == 1 || x == n - 1
  {
    RemainderUnique(1, n, 0, 1);
    CongIsEqualRemainder(x * x, 1, n);
    SquareRootsOfOne(x, n);
    if 0 <= x < n {
      if Cong(x, 1, n) {
        CongOfResidues(x, 1, n);
      } else {
        CongIntro(-1, n - 1, n, -1);
        CongTransitive(x, -1, n - 1, n);
        CongOfResidues(x, n - 1, n);
      }
    }
  }

  /** A prime passes the test in every base it does not divide. */
  lemma PrimePasses(n: nat, a: nat, m: nat, b: nat)
    requires IsPrime(n) && Decomposes(n, a, m) && !Divides(n, b)
    ensures IsStrongProbablePrime(n, a, m, b)
  {
    hide Chain;
    FermatLittle(b, n);
    CongIsEqualRemainder(Pow(b, n - 1), 1, n);
    RemainderUnique(1, n, 0, 1);
    ChainEnd(n, a, m, b);
    ChainBack(n, m, b, a);
  }

  /** b^(n-1) = 1, and no power b^(2^i m) squares to 1 without being 1 or -1. */
  ghost predicate FermatWithoutRoots(n: nat, a: nat, m: nat, b: nat)
    requires n > 0
  {
    Pow(b, n - 1) % n == 1 &&
    forall i :: 0 <= i < a && Chain(n, m, b, i + 1) == 1 ==> Chain(n, m, b, i) == 1 || Chain(n, m, b, i) == n - 1
  }

  /** A base is no witness exactly when Fermat's congruence holds and no other root of 1 turns up. */
  lemma StrongIffFermatWithoutRoots(n: nat, a: nat, m: nat, b: nat)
    requires Decomposes(n, a, m)
    ensures IsStrongProbablePrime(n, a, m, b) <==> FermatWithoutRoots(n, a, m, b)
  {
    hide Chain;
    ChainEnd(n, a, m, b);
    if IsStrongProbablePrime(n, a, m, b) {
      var j := if Chain(n, m, b, 0) == 1 then 0 else var j :| 0 <= j < a && Chain(n, m, b, j) == n - 1; j;
      RootsAround(n, a, m, b, j);
    }
    if FermatWithoutRoots(n, a, m, b) {
      RootsBack(n, a, m, b, a);
    }
  }

  lemma RootsAround(n: nat, a: nat, m: nat, b: nat, j: nat)
    requires Decomposes(n, a, m) && j < a
    requires (j == 0 && Chain(n, m, b, 0) == 1) || Chain(n, m, b, j) == n - 1
    ensures Chain(n, m, b, a) == 1
    ensures forall i :: 0 <= i < a && Chain(n, m, b, i + 1) == 1 ==>
            Chain(n, m, b, i) == 1 || Chain(n, m, b, i) == n - 1
  {
    hide Chain;
    ChainStaysOne(n, m, b, j, a);
    forall i | 0 <= i < a && Chain(n, m, b, i + 1) == 1
      ensures Chain(n, m, b, i) == 1 || Chain(n, m, b, i) == n - 1
    {
      if j < i {
        ChainStaysOne(n, m, b, j, i);
      } else if i + 1 < j {
        ChainStaysOne(n, m, b, i + 1, j);
      }
    }
  }

  lemma {:induction false} RootsBack(n: nat, a: nat, m: nat, b: nat, i: nat)
    requires n > 0 && FermatWithoutRoots(n, a, m, b) && i <= a && Chain(n, m, b, i) == 1
    ensures Chain(n, m, b, 0) == 1 || exists j :: 0 <= j < i && Chain(n, m, b, j) == n - 1
  {
    hide Chain;
    if i > 0 {
      assert Chain(n, m, b, (i - 1) + 1) == 1;
      if Chain(n, m, b, i - 1) == 1 {
        RootsBack(n, a, m, b, i - 1);
      }
    }
  }

  // ---------- Bit lengths and the odd part of n - 1 ----------

  /** The length of n in bits. */
  function Bits(n: nat): nat {
    if n == 0 then 0 else 1 + Bits(n / 2)
  }

  lemma {:induction false} BitsBounds(n: nat)
    ensures n < Pow(2, Bits(n)) && (n > 0 ==> Bits(n) >= 1 && Pow(2, Bits(n) - 1) <= n)
  {
    if n > 0 {
      BitsBounds(n / 2);
    }
  }

  lemma BitsBelow(n: nat, k: nat)
    ensures Bits(n) <= k <==> n < Pow(2, k)
  {
    BitsBounds(n);
    if Bits(n) <= k {
      PowTwoMonotone(Bits(n), k);
    } else {
      PowTwoMonotone(k, Bits(n) - 1);
    }
  }

  function TrailingZeros(x: nat): nat
    requires x > 0
  {
    if x % 2 == 1 then 0 else 1 + TrailingZeros(x / 2)
  }

  lemma {:induction false} TrailingZerosSplit(x: nat)
    requires x > 0
    ensures Pow(2, TrailingZeros(x)) > 0
    ensures var m := x / Pow(2, TrailingZeros(x)); m % 2 == 1 && x == Pow(2, TrailingZeros(x)) * m
  {
    PowPositive(2, TrailingZeros(x));
    if x % 2 == 0 {
      TrailingZerosSplit(x / 2);
      DoubledSplit(x, Pow(2, TrailingZeros(x / 2)), (x / 2) / Pow(2, TrailingZeros(x / 2)));
    }
  }

  lemma DoubledSplit(x: nat, p: nat, m: nat)
    requires x % 2 == 0 && p > 0 && x / 2 == p * m
    ensures x == (2 * p) * m && x / (2 * p) == m
  {
    assert (2 * p) * m == 2 * (p * m);
    RemainderUnique(x, 2 * p, m, 0);
  }

  /** n - 1 shifted right by its trailing zeros. */
  function OddFactor(n: nat): nat
    requires n > 2
  {
    PowPositive(2, TrailingZeros(n - 1));
    Quotient(n - 1, Pow(2, TrailingZeros(n - 1)))
  }

  function Quotient(x: nat, d: nat): nat
    requires d > 0
  {
    x / d
  }

  lemma OddPart(n: nat)
    requires n > 2 && n % 2 == 1
    ensures Decomposes(n, TrailingZeros(n - 1), OddFactor(n))
  {
    TrailingZerosSplit(n - 1);
  }

  // ---------- Random bases ----------

  /** A random source: each call either fails or fills the buffer. */
  type Rng = nat -> Option<nat -> byte>

  /** The candidate that one filled buffer gives for n: surplus high bits are masked off. */
  function Candidate(n: nat, fill: nat -> byte): nat {
    var length := (Bits(n) + 7) / 8;
    var keep := 8 - (8 - Bits(n) % 8) % 8;
    PowPositive(2, keep);
    if length == 0 then 0
    else
      var bytes := seq(length, i requires 0 <= i < length => fill(i));
      FromBigEndian([bytes[0] % Pow(2, keep)] + bytes[1..])
  }

  /** The first draw strictly between 1 and n - 1, and the position after it; None when a draw
      fails or the attempts run out. */
  function SampleBase(n: nat, rng: Rng, pos: nat, attempts: nat): (r: (Option<nat>, nat))
    ensures r.0.Some? ==> 1 < r.0.value < n - 1
    ensures pos <= r.1 <= pos + attempts
    decreases attempts
  {
    if attempts == 0 then (None, pos)
    else match rng(pos)
      case None => (None, pos + 1)
      case Some(fill) =>
        var b := Candidate(n, fill);
        if 1 < b < n - 1 then (Some(b), pos + 1) else SampleBase(n, rng, pos + 1, attempts - 1)
  }

  /** Bounded rejection sampling. */
  method RandomBase(n: nat, rng: Rng, pos: nat, attempts: nat) returns (sample: Option<nat>, next: nat)
    ensures (sample, next) == SampleBase(n, rng, pos, attempts)
  {
    next := pos;
    var tried := 0;
    while tried < attempts
      invariant 0 <= tried <= attempts
      invariant SampleBase(n, rng, pos, attempts) == SampleBase(n, rng, next, attempts - tried)
    {
      var draw := rng(next);
      next := next + 1;
      if draw.None? {
        return None, next;
      }
      var b := Candidate(n, draw.value);
      if b > 1 && b < n - 1 {
        return Some(b), next;
      }
      tried := tried + 1;
    }
    return None, next;
  }
}
