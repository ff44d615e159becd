/** The residues modulo q and the bit-reversed twiddle table of FIPS 204 (section 7.5). */
module NttTwiddles {
  import opened Arithmetic

  const Q := 8380417
  const ZETA := 1753
  const INVERSE_256 := 8347681

  type Residue = x: int | 0 <= x < Q

  // ---------- Field elements ----------

  function ElemAdd(a: Residue, b: Residue): Residue { (a + b) % Q }

  function ElemSub(a: Residue, b: Residue): Residue { (a - b) % Q }

  function ElemMul(a: Residue, b: Residue): Residue { (a * b) % Q }

  function ElemNeg(a: Residue): Residue { (Q - a) % Q }

  // ---------- Twiddle factors ----------

  /** The low `bits` bits of x in reverse order. */
  function BitRev(bits: nat, x: nat): nat {
    if bits == 0 then 0
    else
      PowPositive(2, bits - 1);
      (x % 2) * Pow(2, bits - 1) + BitRev(bits - 1, x / 2)
  }

  function BitRev8(x: nat): nat { BitRev(8, x) }

  lemma {:induction false} BitRevDrop(n: nat, x: nat)
    requires x < Pow(2, n)
    ensures BitRev(n + 1, x) == 2 * BitRev(n, x)
  {
    if n == 0 {
      assert BitRev(1, 0) == 0;
    } else {
      BitRevDrop(n - 1, x / 2);
      var t := x % 2;
      assert t * Pow(2, n) == 2 * (t * Pow(2, n - 1)) by {
        assert Pow(2, n) == 2 * Pow(2, n - 1);
      }
    }
  }

  lemma PowersOfTwo()
    ensures Pow(2, 0) == 1 && Pow(2, 1) == 2 && Pow(2, 2) == 4 && Pow(2, 3) == 8
    ensures Pow(2, 4) == 16 && Pow(2, 5) == 32 && Pow(2, 6) == 64 && Pow(2, 7) == 128
    ensures Pow(2, 8) == 256
  {
    assert Pow(2, 2) == 4;
    assert Pow(2, 4) == 16;
    assert Pow(2, 6) == 64;
  }

  /** Appending a low bit to the index moves the reversed index down one place. */
  lemma BitRev8Child(k: nat)
    requires k < 128
    ensures 2 * BitRev8(2 * k) == BitRev8(k)
    ensures 2 * BitRev8(2 * k + 1) == BitRev8(k) + 256
  {
    assert Pow(2, 7) == 128 by { PowersOfTwo(); }
    BitRevDrop(7, k);
    BitRevChild(7, k);
  }

  lemma BitRevChild(n: nat, k: nat)
    ensures BitRev(n + 1, 2 * k) == BitRev(n, k)
    ensures BitRev(n + 1, 2 * k + 1) == Pow(2, n) + BitRev(n, k)
  {
  }

  lemma BitRev8One()
    ensures BitRev8(1) == 128
  {
    PowersOfTwo();
    BitRevDrop(6, 0);
    BitRevZero(7);
    assert BitRev(8, 1) == Pow(2, 7) + BitRev(7, 0);
  }

  lemma {:induction false} BitRevZero(n: nat)
    ensures BitRev(n, 0) == 0
  {
    if n > 0 {
      BitRevZero(n - 1);
    }
  }

  /** Entry k of the twiddle table; entry zero is unused and left zero. */
  function Zeta(k: int): (z: int)
    ensures 0 <= z < Q
  {
    if 1 <= k < 256 then Pow(ZETA, BitRev8(k)) % Q else 0
  }

  lemma SquarePower(e: nat, r: int, s: int)
    requires Cong(Pow(ZETA, e), r, Q) && Cong(r * r, s, Q)
    ensures Cong(Pow(ZETA, 2 * e), s, Q)
  {
    PowAdd(ZETA, e, e);
    CongMul(Pow(ZETA, e), r, Pow(ZETA, e), r, Q);
    CongTransitive(Pow(ZETA, 2 * e), r * r, s, Q);
  }

  /** zeta^256 = -1: zeta is a 512th root of unity. */
  lemma ZetaHasOrder512()
    ensures Cong(Pow(ZETA, 256), -1, Q)
  {
    assert Pow(ZETA, 1) == ZETA;
    SquarePower(1, ZETA, 3073009);
    SquarePower(2, 3073009, 3602218);
    SquarePower(4, 3602218, 5010068);
    SquarePower(8, 5010068, 7778734);
    SquarePower(16, 7778734, 5178923);
    SquarePower(32, 5178923, 3765607);
    SquarePower(64, 3765607, 4808194);
    SquarePower(128, 4808194, -1);
  }

  /** The value that x^len must equal for block k of its layer: -1 at the top, then the
      two square roots of the parent's value. */
  function Root(k: nat): int
    requires k >= 1
  {
    if k == 1 then -1 else if k % 2 == 0 then Zeta(k / 2) else -Zeta(k / 2)
  }

  /** Zeta(k) squared, in terms of the reversed index of k's parent. */
  lemma ZetaSquaredPower(k: nat, e: nat, r: int)
    requires 1 <= k < 256 && 2 * BitRev8(k) == e && Cong(Pow(ZETA, e), r, Q)
    ensures Cong(Zeta(k) * Zeta(k), r, Q)
  {
    var h := BitRev8(k);
    var p := Pow(ZETA, h);
    PowAdd(ZETA, h, h);
    CongMod(p, Q);
    CongMul(Zeta(k), p, Zeta(k), p, Q);
    CongTransitive(Zeta(k) * Zeta(k), Pow(ZETA, e), r, Q);
  }

  lemma ShiftedPower(e: nat, r: int)
    requires Cong(Pow(ZETA, e), r, Q)
    ensures Cong(Pow(ZETA, e + 256), -r, Q)
  {
    PowAdd(ZETA, e, 256);
    ZetaHasOrder512();
    CongMul(Pow(ZETA, e), r, Pow(ZETA, 256), -1, Q);
  }

  /** Each twiddle is a square root of its block's value. */
  lemma ZetaSquared(k: nat)
    requires 1 <= k < 256
    ensures Cong(Zeta(k) * Zeta(k), Root(k), Q)
  {
    if k == 1 {
      BitRev8One();
      ZetaHasOrder512();
      ZetaSquaredPower(1, 256, -1);
    } else {
      var j := k / 2;
      BitRev8Child(j);
      CongMod(Pow(ZETA, BitRev8(j)), Q);
      if k % 2 == 0 {
        ZetaSquaredPower(k, BitRev8(j), Zeta(j));
      } else {
        ShiftedPower(BitRev8(j), Zeta(j));
        ZetaSquaredPower(k, BitRev8(j) + 256, -Zeta(j));
      }
    }
  }

  lemma HalfPower(j: nat)
    requires j < 7
    ensures Pow(2, j) <= 64
  {
    PowersOfTwo();
  }

  /** The bit-reversal identity behind the downward walk of the inverse direction. */
  lemma {:induction false} MirrorIndices(j: nat, b: nat)
    requires j < 8 && b < Pow(2, j)
    ensures Pow(2, j) <= 128
    ensures BitRev8(Pow(2, j) + b) + BitRev8(2 * Pow(2, j) - 1 - b) == 256
  {
    if j == 0 {
      BitRev8One();
    } else {
      var m := Pow(2, j - 1);
      HalfPower(j - 1);
      var c := b / 2;
      MirrorIndices(j - 1, c);
      BitRev8Child(m + c);
      BitRev8Child(2 * m - 1 - c);
      if b % 2 == 0 {
        assert Pow(2, j) + b == 2 * (m + c);
        assert 2 * Pow(2, j) - 1 - b == 2 * (2 * m - 1 - c) + 1;
      } else {
        assert Pow(2, j) + b == 2 * (m + c) + 1;
        assert 2 * Pow(2, j) - 1 - b == 2 * (2 * m - 1 - c);
      }
    }
  }

  lemma ReciprocalTwiddles(k: nat, t: nat)
    requires 1 <= k < 256 && 1 <= t < 256 && BitRev8(k) + BitRev8(t) == 256
    ensures Cong(Zeta(t) * Zeta(k), -1, Q)
  {
    var d, e := BitRev8(t), BitRev8(k);
    var p, r := Pow(ZETA, e), Pow(ZETA, d);
    CongMod(p, Q);
    CongMod(r, Q);
    CongMul(Zeta(t), r, Zeta(k), p, Q);
    PowAdd(ZETA, d, e);
    ZetaHasOrder512();
    CongTransitive(Zeta(t) * Zeta(k), Pow(ZETA, 256), -1, Q);
  }

  /** The inverse direction's twiddle at the mirrored index is the negated reciprocal. */
  lemma MirrorTwiddles(j: nat, k: nat, t: nat)
    requires j < 8 && Pow(2, j) <= k < 2 * Pow(2, j) && k + t == 3 * Pow(2, j) - 1
    ensures Cong(Zeta(t) * Zeta(k), -1, Q)
  {
    MirrorIndices(j, k - Pow(2, j));
    PowPositive(2, j);
    ReciprocalTwiddles(k, t);
  }
}
