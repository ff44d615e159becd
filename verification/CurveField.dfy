/** Arithmetic modulo the curve prime: the source's modular subtraction, inverses, and the
    congruence steps that the point formulas share. */
module CurveField {
  import opened Arithmetic
  import opened Primes

  /** Modular subtraction as the source writes it. */
  function ModSub(left: nat, right: nat, modulus: nat): (r: nat)
    requires modulus > 0
  {
    if left >= right then (left - right) % modulus else modulus - (right - left) % modulus
  }

  lemma ModSubIsDifference(left: nat, right: nat, p: nat)
    requires p > 0
    ensures Cong(ModSub(left, right, p), left - right, p)
  {
    if left >= right {
      CongMod(left - right, p);
    } else {
      var d := right - left;
      CongMod(d, p);
      CongIntro(p, 0, p, 1);
      CongSub(p, 0, d % p, d, p);
    }
  }

  /** The result is reduced except when right exceeds left by a multiple of the modulus. */
  lemma ModSubReduced(left: nat, right: nat, p: nat)
    requires p > 0
    ensures ModSub(left, right, p) < p <==> !(left < right && (right - left) % p == 0)
    ensures left < p && right < p ==> ModSub(left, right, p) < p
  {
    if left < right < p {
      RemainderUnique(right - left, p, 0, right - left);
    }
  }

  /** The unreduced case: 0 - p gives p itself. */
  lemma ModSubUnreduced(p: nat)
    requires p > 0
    ensures ModSub(0, p, p) == p
  {
    MultipleHasNoRemainder(p, 1);
  }

  // ---------- Steps ----------

  lemma Same(a: int, p: nat)
    requires p > 0
    ensures Cong(a, a, p)
  {
    CongIntro(a, a, p, 0);
  }

  /** Reducing keeps what the expression is congruent to. */
  lemma Reduced(e: int, t: int, p: nat)
    requires p > 0 && Cong(e, t, p)
    ensures Cong(e % p, t, p) && 0 <= e % p < p
  {
    hide Cong;
    CongMod(e, p);
    CongTransitive(e % p, e, t, p);
  }

  lemma ProductIs(a: int, s: int, b: int, t: int, p: nat)
    requires p > 0 && Cong(a, s, p) && Cong(b, t, p)
    ensures Cong((a * b) % p, s * t, p) && 0 <= (a * b) % p < p
  {
    hide Cong;
    CongMul(a, s, b, t, p);
    Reduced(a * b, s * t, p);
  }

  lemma SumIs(a: int, s: int, b: int, t: int, p: nat)
    requires p > 0 && Cong(a, s, p) && Cong(b, t, p)
    ensures Cong((a + b) % p, s + t, p) && 0 <= (a + b) % p < p
  {
    hide Cong;
    CongAdd(a, s, b, t, p);
    Reduced(a + b, s + t, p);
  }

  lemma DoubledIs(a: int, s: int, k: int, p: nat)
    requires p > 0 && Cong(a, s, p)
    ensures Cong((a * k) % p, k * s, p) && 0 <= (a * k) % p < p
  {
    hide Cong;
    Same(k, p);
    CongMul(a, s, k, k, p);
    assert s * k == k * s;
    Reduced(a * k, k * s, p);
  }

  lemma DifferenceIs(a: nat, s: int, b: nat, t: int, p: nat)
    requires p > 0 && a < p && b < p && Cong(a, s, p) && Cong(b, t, p)
    ensures Cong(ModSub(a, b, p), s - t, p) && ModSub(a, b, p) < p
  {
    hide Cong;
    ModSubIsDifference(a, b, p);
    ModSubReduced(a, b, p);
    CongSub(a, s, b, t, p);
    CongTransitive(ModSub(a, b, p), a - b, s - t, p);
  }

  // ---------- Inverses ----------

  /** The inverse modulo a prime, by Fermat; zero has none and is sent to zero. */
  function Inverse(d: int, p: nat): (r: nat)
    requires p > 2
    ensures r < p
  {
    Pow(d, p - 2) % p
  }

  lemma InverseIsInverse(d: int, p: nat)
    requires IsPrime(p) && p > 2 && !Cong(d, 0, p)
    ensures Cong(d * Inverse(d, p), 1, p)
  {
    FermatLittle(d, p);
    var w := Pow(d, p - 2);
    CongMod(w, p);
    Same(d, p);
    CongMul(d, d, w % p, w, p);
    CongTransitive(d * (w % p), d * w, 1, p);
  }

  /** A quotient times its divisor gives the dividend back. */
  lemma QuotientTimesDivisor(n: int, d: int, p: nat)
    requires IsPrime(p) && p > 2 && !Cong(d, 0, p)
    ensures Cong(((n * Inverse(d, p)) % p) * d, n, p)
  {
    hide Cong;
    InverseIsInverse(d, p);
    var i := Inverse(d, p);
    CongMod(n * i, p);
    Same(d, p);
    CongMul((n * i) % p, n * i, d, d, p);
    Same(n, p);
    CongMul(n, n, d * i, 1, p);
    assert (n * i) * d == n * (d * i);
    CongTransitive(((n * i) % p) * d, n * (d * i), n, p);
  }

  /** Nonzero residues are not congruent to zero. */
  lemma NonZeroResidue(x: int, p: nat)
    requires p > 0 && 0 < x < p
    ensures !Cong(x, 0, p)
  {
    RemainderUnique(x, p, 0, x);
  }

  lemma DistinctResidues(x: int, y: int, p: nat)
    requires p > 0 && 0 <= x < p && 0 <= y < p && x != y
    ensures !Cong(y - x, 0, p)
  {
    if Cong(y - x, 0, p) {
      CongOfResidues(y, x, p);
    }
  }

  lemma NonZeroProduct(a: int, b: int, p: nat)
    requires IsPrime(p) && !Cong(a, 0, p) && !Cong(b, 0, p)
    ensures !Cong(a * b, 0, p)
  {
    if Cong(a * b, 0, p) {
      ZeroProduct(p, a, b);
    }
  }

  lemma NonZeroTwo(p: nat)
    requires p > 2
    ensures !Cong(2, 0, p)
  {
    RemainderUnique(2, p, 0, 2);
  }
}
