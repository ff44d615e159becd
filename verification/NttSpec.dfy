/** The transform of FIPS 204 (Algorithms 41 and 42) as a sequence of layers on value sequences,
    and what it computes: the forward direction evaluates a polynomial at the odd powers of
    zeta, the two directions undo each other, and pointwise products become ring products. */
module NttSpec {
  import opened Arithmetic
  import opened NttTwiddles
  import opened Polynomials

  // ---------- One layer ----------

  /** One half of a forward butterfly: a + c*b. */
  function Combine(a: seq<Residue>, c: int, b: seq<Residue>): (h: seq<Residue>)
    requires |a| == |b|
    ensures |h| == |a|
  {
    seq(|a|, i requires 0 <= i < |a| => (a[i] + c * b[i]) % Q)
  }

  /** The upper half of an inverse butterfly: c*(a - b). */
  function ScaledDifference(a: seq<Residue>, c: int, b: seq<Residue>): (h: seq<Residue>)
    requires |a| == |b|
    ensures |h| == |a|
  {
    seq(|a|, i requires 0 <= i < |a| => (c * (a[i] as int - b[i] as int)) % Q)
  }

  /** Butterflies on consecutive blocks of 2*len values, with twiddles k, k + 1, ... */
  function ForwardLayer(s: seq<Residue>, len: nat, k: int): (r: seq<Residue>)
    requires len > 0
    ensures |r| == |s|
  {
    if |s| < 2 * len then s
    else
      Combine(s[..len], Zeta(k), s[len..2 * len])
      + Combine(s[..len], -Zeta(k), s[len..2 * len])
      + ForwardLayer(s[2 * len..], len, k + 1)
  }

  /** Inverse butterflies on consecutive blocks, with negated twiddles t, t - 1, ... */
  function InverseLayer(s: seq<Residue>, len: nat, t: int): (r: seq<Residue>)
    requires len > 0
    ensures |r| == |s|
  {
    if |s| < 2 * len then s
    else
      Combine(s[..len], 1, s[len..2 * len])
      + ScaledDifference(s[..len], -Zeta(t), s[len..2 * len])
      + InverseLayer(s[2 * len..], len, t - 1)
  }

  // ---------- Whole transforms ----------

  /** The forward layers of block length 2^7 down to 2^j. */
  function ForwardDownTo(s: seq<Residue>, j: nat): (r: seq<Residue>)
    requires j <= 8
    ensures |r| == |s|
    decreases 8 - j
  {
    PowPositive(2, j);
    if j == 8 then s else ForwardLayer(ForwardDownTo(s, j + 1), Pow(2, j), Pow(2, 7 - j))
  }

  /** The inverse layers of block length 2^0 up to 2^(j-1). */
  function InverseUpTo(s: seq<Residue>, j: nat): (r: seq<Residue>)
    requires j <= 8
    ensures |r| == |s|
  {
    if j == 0 then s
    else
      PowPositive(2, j - 1);
      InverseLayer(InverseUpTo(s, j - 1), Pow(2, j - 1), 2 * Pow(2, 8 - j) - 1)
  }

  function Scale(s: seq<Residue>, c: int): (r: seq<Residue>)
    ensures |r| == |s|
  {
    seq(|s|, i requires 0 <= i < |s| => (c * s[i]) % Q)
  }

  function Forward(s: Poly): Poly { ForwardDownTo(s, 0) }

  function Inverse(s: Poly): Poly { Scale(InverseUpTo(s, 8), INVERSE_256) }

  // ---------- The forward transform evaluates ----------

  /** block agrees with p at every x with x^|block| = root. */
  ghost predicate Represents(block: seq<int>, p: seq<int>, root: int) {
    forall x: int :: Cong(Pow(x, |block|), root, Q) ==> Cong(Eval(block, x), Eval(p, x), Q)
  }

  lemma HalfRepresents(lo: seq<Residue>, hi: seq<Residue>, p: seq<int>, root: int, z: int)
    requires |lo| == |hi| && Represents(lo + hi, p, root) && Cong(z * z, root, Q)
    ensures Represents(Combine(lo, z, hi), p, z)
  {
    var h := Combine(lo, z, hi);
    forall x: int | Cong(Pow(x, |h|), z, Q) ensures Cong(Eval(h, x), Eval(p, x), Q) {
      HalfAgrees(lo, hi, p, root, z, x);
    }
  }

  lemma HalfAgrees(lo: seq<Residue>, hi: seq<Residue>, p: seq<int>, root: int, z: int, x: int)
    requires |lo| == |hi| && Represents(lo + hi, p, root) && Cong(z * z, root, Q)
    requires Cong(Pow(x, |lo|), z, Q)
    ensures Cong(Eval(Combine(lo, z, hi), x), Eval(p, x), Q)
  {
    var h, n := Combine(lo, z, hi), |lo|;
    var a, b := Eval(lo, x), Eval(hi, x);
    CombineIsCombination(lo, z, hi);
    EvalCombination(h, lo, z, hi, x);
    PowAdd(x, n, n);
    CongMul(Pow(x, n), z, Pow(x, n), z, Q);
    CongTransitive(Pow(x, n + n), z * z, root, Q);
    assert |lo + hi| == n + n;
    assert Cong(Eval(lo + hi, x), Eval(p, x), Q);
    EvalConcat(lo, hi, x);
    CongIntro(b, b, Q, 0);
    CongIntro(a, a, Q, 0);
    CongSymmetric(Pow(x, n), z, Q);
    CongMul(z, Pow(x, n), b, b, Q);
    CongAdd(a, a, z * b, Pow(x, n) * b, Q);
    CongTransitive(Eval(h, x), a + z * b, Eval(lo + hi, x), Q);
    CongTransitive(Eval(h, x), Eval(lo + hi, x), Eval(p, x), Q);
  }

  lemma BlockSplits(lo: seq<Residue>, hi: seq<Residue>, p: seq<int>, k: nat)
    requires 1 <= k < 256 && |lo| == |hi| && Represents(lo + hi, p, Root(k))
    ensures Represents(Combine(lo, Zeta(k), hi), p, Root(2 * k))
    ensures Represents(Combine(lo, -Zeta(k), hi), p, Root(2 * k + 1))
  {
    ZetaSquared(k);
    SquareOfNegation(Zeta(k), Root(k));
    HalfRepresents(lo, hi, p, Root(k), Zeta(k));
    HalfRepresents(lo, hi, p, Root(k), -Zeta(k));
    ChildRoots(k);
  }

  lemma SquareOfNegation(z: int, r: int)
    requires Cong(z * z, r, Q)
    ensures Cong(-z * -z, r, Q)
  {
    assert -z * -z == z * z;
  }

  lemma ChildRoots(k: nat)
    requires k >= 1
    ensures Root(2 * k) == Zeta(k) && Root(2 * k + 1) == -Zeta(k)
  {
  }

  lemma CombineIsCombination(a: seq<Residue>, c: int, b: seq<Residue>)
    requires |a| == |b|
    ensures IsCombination(Combine(a, c, b), a, c, b)
  {
    forall i | 0 <= i < |a| ensures Cong(Combine(a, c, b)[i], a[i] + c * b[i], Q) {
      CongMod(a[i] + c * b[i], Q);
    }
  }

  /** s is n blocks of len values; block i agrees with p where x^len = Root(k + i). */
  ghost predicate BlocksRepresent(s: seq<Residue>, p: seq<int>, len: nat, k: nat, n: nat)
    requires k >= 1
    decreases n
  {
    if n == 0 then s == []
    else
      && |s| >= len
      && Represents(s[..len], p, Root(k))
      && BlocksRepresent(s[len..], p, len, k + 1, n - 1)
  }

  lemma LayerSlices(s: seq<Residue>, len: nat, k: int)
    requires len > 0 && |s| >= 2 * len
    ensures ForwardLayer(s, len, k)[..len] == Combine(s[..len], Zeta(k), s[len..2 * len])
    ensures ForwardLayer(s, len, k)[len..][..len] == Combine(s[..len], -Zeta(k), s[len..2 * len])
    ensures ForwardLayer(s, len, k)[len..][len..] == ForwardLayer(s[2 * len..], len, k + 1)
  {
  }

  lemma FirstBlockSplits(s: seq<Residue>, p: seq<int>, len: nat, k: nat)
    requires 1 <= k < 256 && |s| >= 2 * len && Represents(s[..2 * len], p, Root(k))
    ensures Represents(Combine(s[..len], Zeta(k), s[len..2 * len]), p, Root(2 * k))
    ensures Represents(Combine(s[..len], -Zeta(k), s[len..2 * len]), p, Root(2 * k + 1))
  {
    assert s[..2 * len] == s[..len] + s[len..2 * len];
    BlockSplits(s[..len], s[len..2 * len], p, k);
  }

  lemma TwoBlocks(s: seq<Residue>, p: seq<int>, len: nat, k: nat, n: nat)
    requires 1 <= k && n >= 1 && |s| >= 2 * len
    requires Represents(s[..len], p, Root(2 * k))
    requires Represents(s[len..][..len], p, Root(2 * k + 1))
    requires BlocksRepresent(s[len..][len..], p, len, 2 * k + 2, 2 * n - 2)
    ensures BlocksRepresent(s, p, len, 2 * k, 2 * n)
  {
    assert BlocksRepresent(s[len..], p, len, 2 * k + 1, 2 * n - 1);
  }

  lemma LayerStep(s: seq<Residue>, p: seq<int>, len: nat, k: nat, n: nat)
    requires len > 0 && 1 <= k < 256 && n >= 1 && |s| >= 2 * len
    requires Represents(s[..2 * len], p, Root(k))
    requires BlocksRepresent(ForwardLayer(s[2 * len..], len, k + 1), p, len, 2 * k + 2, 2 * n - 2)
    ensures BlocksRepresent(ForwardLayer(s, len, k), p, len, 2 * k, 2 * n)
  {
    FirstBlockSplits(s, p, len, k);
    LayerSlices(s, len, k);
    TwoBlocks(ForwardLayer(s, len, k), p, len, k, n);
  }

  lemma {:induction false} LayerRepresents(s: seq<Residue>, p: seq<int>, len: nat, k: nat, n: nat)
    requires len > 0 && 1 <= k && k + n <= 256 && BlocksRepresent(s, p, 2 * len, k, n)
    ensures BlocksRepresent(ForwardLayer(s, len, k), p, len, 2 * k, 2 * n)
    decreases n
  {
    hide ForwardLayer, Represents, Root;
    if n > 0 {
      LayerRepresents(s[2 * len..], p, len, k + 1, n - 1);
      LayerStep(s, p, len, k, n);
    }
  }

  lemma {:induction false} LayersRepresent(p: Poly, j: nat)
    requires j <= 8
    ensures Pow(2, j) >= 1 && Pow(2, 8 - j) >= 1
    ensures BlocksRepresent(ForwardDownTo(p, j), p, Pow(2, j), Pow(2, 8 - j), Pow(2, 8 - j))
    decreases 8 - j
  {
    PowersOfTwo();
    if j == 8 {
      assert p[..256] == p && p[256..] == [];
      forall x: int ensures Cong(Eval(p, x), Eval(p, x), Q) {
        CongIntro(Eval(p, x), Eval(p, x), Q, 0);
      }
    } else {
      LayersRepresent(p, j + 1);
      PowPositive(2, j);
      HalfOf256(7 - j);
      assert Pow(2, j + 1) == 2 * Pow(2, j);
      assert Pow(2, 8 - j) == 2 * Pow(2, 7 - j);
      LayerRepresents(ForwardDownTo(p, j + 1), p, Pow(2, j), Pow(2, 7 - j), Pow(2, 7 - j));
    }
  }

  lemma HalfOf256(j: nat)
    requires j <= 7
    ensures 1 <= Pow(2, j) <= 128
  {
    PowersOfTwo();
  }

  lemma {:induction false} SingletonBlocks(s: seq<Residue>, p: seq<int>, k: nat, n: nat, i: nat)
    requires k >= 1 && BlocksRepresent(s, p, 1, k, n) && i < n
    ensures i < |s| && Cong(s[i], Eval(p, Root(k + i)), Q)
    decreases n
  {
    if i == 0 {
      var x := Root(k);
      assert s[..1] == [s[0]];
      assert Pow(x, 1) == x;
      CongIntro(x, x, Q, 0);
      assert Cong(Eval(s[..1], x), Eval(p, x), Q);
      assert Eval([s[0]], x) == s[0];
    } else {
      SingletonBlocks(s[1..], p, k + 1, n - 1, i - 1);
    }
  }

  /** The point at which entry i of the transform evaluates: zeta^(2*BitRev8(i) + 1). */
  function Point(i: nat): int { Pow(ZETA, 2 * BitRev8(i) + 1) }

  lemma PointExponent(i: nat)
    requires i < 256
    ensures 2 * BitRev8(i) + 1 == BitRev8(128 + i / 2) + (if i % 2 == 0 then 0 else 256)
  {
    BitRev8Child(i / 2);
    BitRevHigh(i / 2);
  }

  lemma RootIsPoint(i: nat)
    requires i < 256
    ensures Cong(Root(256 + i), Point(i), Q)
  {
    var j := i / 2;
    var e := BitRev8(128 + j);
    PointExponent(i);
    CongMod(Pow(ZETA, e), Q);
    if i % 2 == 1 {
      ShiftedPower(e, Zeta(128 + j));
      CongSymmetric(Pow(ZETA, e + 256), -Zeta(128 + j), Q);
    }
  }

  lemma BitRevHigh(j: nat)
    requires j < 128
    ensures BitRev8(128 + j) == BitRev8(j) + 1
  {
    PowersOfTwo();
    BitRevAddHigh(7, j);
  }

  lemma {:induction false} BitRevAddHigh(n: nat, x: nat)
    requires x < Pow(2, n)
    ensures BitRev(n + 1, Pow(2, n) + x) == BitRev(n + 1, x) + 1
  {
    if n == 0 {
      assert BitRev(1, 1) == 1 * Pow(2, 0) + BitRev(0, 0);
      assert BitRev(1, 0) == 0;
    } else {
      BitRevAddHigh(n - 1, x / 2);
      assert Pow(2, n) == 2 * Pow(2, n - 1);
      assert (Pow(2, n) + x) / 2 == Pow(2, n - 1) + x / 2;
      assert (Pow(2, n) + x) % 2 == x % 2;
    }
  }

  lemma {:induction false} EvalCong(p: seq<int>, x: int, y: int)
    requires Cong(x, y, Q)
    ensures Cong(Eval(p, x), Eval(p, y), Q)
  {
    if p == [] {
      CongIntro(0, 0, Q, 0);
    } else {
      EvalCong(p[1..], x, y);
      CongMul(x, y, Eval(p[1..], x), Eval(p[1..], y), Q);
      CongIntro(p[0], p[0], Q, 0);
      CongAdd(p[0], p[0], x * Eval(p[1..], x), y * Eval(p[1..], y), Q);
    }
  }

  lemma ForwardAtRoot(p: Poly, i: nat)
    requires i < 256
    ensures Cong(Forward(p)[i], Eval(p, Root(256 + i)), Q)
  {
    LayersRepresent(p, 0);
    assert Pow(2, 8) == 256 by { PowersOfTwo(); }
    SingletonBlocks(Forward(p), p, 256, 256, i);
  }

  /** Entry i of the forward transform is the polynomial's value at zeta^(2*BitRev8(i) + 1). */
  lemma ForwardEvaluates(p: Poly, i: nat)
    requires i < 256
    ensures Forward(p)[i] == Eval(p, Point(i)) % Q
  {
    var x := Point(i);
    ForwardAtRoot(p, i);
    RootIsPoint(i);
    EvalCong(p, Root(256 + i), x);
    ReducedValue(Forward(p)[i], Eval(p, Root(256 + i)), Eval(p, x));
  }

  lemma ReducedValue(v: Residue, a: int, b: int)
    requires Cong(v, a, Q) && Cong(a, b, Q)
    ensures v == b % Q
  {
    CongTransitive(v, a, b, Q);
    CongIsEqualRemainder(v, b, Q);
  }
}
