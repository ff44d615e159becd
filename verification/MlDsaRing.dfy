/** The transform is a ring isomorphism, and what that makes of the A*s1 row computation. */
module MlDsaRing {
  import opened Arithmetic
  import opened NttTwiddles
  import opened Polynomials
  import opened NttSpec
  import opened NttInverse

  function PointwiseMul(f: Poly, g: Poly): Poly {
    seq(256, i requires 0 <= i < 256 => ElemMul(f[i], g[i]))
  }

  lemma {:induction false} PowMinusOneOdd(n: nat)
    ensures Pow(-1, 2 * n) == 1 && Pow(-1, 2 * n + 1) == -1
  {
    if n > 0 {
      PowMinusOneOdd(n - 1);
      assert Pow(-1, 2 * n) == -1 * Pow(-1, 2 * n - 1);
    }
    assert Pow(-1, 2 * n + 1) == -1 * Pow(-1, 2 * n);
  }

  /** Every evaluation point satisfies x^256 = -1. */
  lemma PointsAreRoots(i: nat)
    ensures Cong(Pow(Point(i), 256), -1, Q)
  {
    var o := 2 * BitRev8(i) + 1;
    PowPow(ZETA, o, 256);
    PowPow(ZETA, 256, o);
    assert o * 256 == 256 * o;
    ZetaHasOrder512();
    CongPow(Pow(ZETA, 256), -1, o, Q);
    PowMinusOneOdd(BitRev8(i));
  }

  lemma ReducedProduct(h: int, a: int, b: int)
    requires Cong(h, a * b, Q)
    ensures h % Q == ((a % Q) * (b % Q)) % Q
  {
    CongMod(a, Q);
    CongMod(b, Q);
    CongMul(a % Q, a, b % Q, b, Q);
    CongSymmetric((a % Q) * (b % Q), a * b, Q);
    CongTransitive(h, a * b, (a % Q) * (b % Q), Q);
    CongIsEqualRemainder(h, (a % Q) * (b % Q), Q);
  }

  lemma ReducedSum(h: Residue, f: Residue, g: Residue, eh: int, ef: int, eg: int)
    requires h == eh % Q && f == ef % Q && g == eg % Q && Cong(eh, ef + eg, Q)
    ensures h == ElemAdd(f, g)
  {
    CongMod(ef, Q);
    CongMod(eg, Q);
    CongAdd(f, ef, g, eg, Q);
    var s: int := f as int + g;
    CongSymmetric(s, ef + eg, Q);
    CongTransitive(eh, ef + eg, s, Q);
    CongIsEqualRemainder(eh, s, Q);
  }

  lemma ForwardOfProductAt(f: Poly, g: Poly, i: nat)
    requires i < 256
    ensures Forward(RingMul(f, g))[i] == ElemMul(Forward(f)[i], Forward(g)[i])
  {
    var x := Point(i);
    PointsAreRoots(i);
    EvalRingMul(f, g, x);
    ForwardEvaluates(f, i);
    ForwardEvaluates(g, i);
    ForwardEvaluates(RingMul(f, g), i);
    ReducedProduct(Eval(RingMul(f, g), x), Eval(f, x), Eval(g, x));
  }

  /** The transform carries ring products to pointwise products. */
  lemma ForwardOfProduct(f: Poly, g: Poly)
    ensures Forward(RingMul(f, g)) == PointwiseMul(Forward(f), Forward(g))
  {
    forall i | 0 <= i < 256 ensures Forward(RingMul(f, g))[i] == PointwiseMul(Forward(f), Forward(g))[i] {
      ForwardOfProductAt(f, g, i);
    }
  }

  lemma ForwardOfSumAt(f: Poly, g: Poly, i: nat)
    requires i < 256
    ensures Forward(RingAdd(f, g))[i] == ElemAdd(Forward(f)[i], Forward(g)[i])
  {
    hide ForwardDownTo;
    var x := Point(i);
    EvalRingAdd(f, g, x);
    ForwardEvaluates(f, i);
    ForwardEvaluates(g, i);
    ForwardEvaluates(RingAdd(f, g), i);
    ReducedSum(Forward(RingAdd(f, g))[i], Forward(f)[i], Forward(g)[i],
               Eval(RingAdd(f, g), x), Eval(f, x), Eval(g, x));
  }

  /** The transform carries sums to pointwise sums. */
  lemma ForwardOfSum(f: Poly, g: Poly)
    ensures Forward(RingAdd(f, g)) == RingAdd(Forward(f), Forward(g))
  {
    forall i | 0 <= i < 256 ensures Forward(RingAdd(f, g))[i] == RingAdd(Forward(f), Forward(g))[i] {
      ForwardOfSumAt(f, g, i);
    }
  }

  /** Multiplying pointwise between the two transforms is multiplying in the ring. */
  lemma ProductThroughTransform(f: Poly, g: Poly)
    ensures Inverse(PointwiseMul(Forward(f), Forward(g))) == RingMul(f, g)
  {
    ForwardOfProduct(f, g);
    InverseOfForward(RingMul(f, g));
  }

  // ---------- Rows ----------

  function ZeroPoly(): Poly { seq(256, _ => 0) }

  /** The sum of a[j] * s[j] in the ring, over the first n columns. */
  function RowProduct(a: seq<Poly>, s: seq<Poly>, n: nat): Poly
    requires n <= |a| && n <= |s|
  {
    if n == 0 then ZeroPoly() else RingAdd(RowProduct(a, s, n - 1), RingMul(a[n - 1], s[n - 1]))
  }

  /** The sum of a[j](x) * s[j](x) over the first n columns. */
  ghost function RowValue(a: seq<Poly>, s: seq<Poly>, n: nat, x: int): int
    requires n <= |a| && n <= |s|
  {
    if n == 0 then 0 else RowValue(a, s, n - 1, x) + Eval(a[n - 1], x) * Eval(s[n - 1], x)
  }

  /** Wherever x^256 = -1, and so at all 256 transform points, the row is the sum of the products. */
  lemma {:induction false} EvalRowProduct(a: seq<Poly>, s: seq<Poly>, n: nat, x: int)
    requires n <= |a| && n <= |s| && Cong(Pow(x, 256), -1, Q)
    ensures Cong(Eval(RowProduct(a, s, n), x), RowValue(a, s, n, x), Q)
  {
    hide Cong, RingMul, RingAdd, Pow;
    if n == 0 {
      EvalZero(ZeroPoly(), x);
      CongIntro(0, 0, Q, 0);
    } else {
      var f, g := RowProduct(a, s, n - 1), RingMul(a[n - 1], s[n - 1]);
      EvalRowProduct(a, s, n - 1, x);
      EvalRingMul(a[n - 1], s[n - 1], x);
      EvalRingAdd(f, g, x);
      var u, v := RowValue(a, s, n - 1, x), Eval(a[n - 1], x) * Eval(s[n - 1], x);
      CongAdd(Eval(f, x), u, Eval(g, x), v, Q);
      CongTransitive(Eval(RingAdd(f, g), x), Eval(f, x) + Eval(g, x), u + v, Q);
    }
  }

  /** The pointwise sum the accumulation loop forms. */
  function RowAccumulator(aHat: seq<Poly>, sHat: seq<Poly>, n: nat): Poly
    requires n <= |aHat| && n <= |sHat|
  {
    if n == 0 then ZeroPoly()
    else RingAdd(RowAccumulator(aHat, sHat, n - 1), PointwiseMul(aHat[n - 1], sHat[n - 1]))
  }

  function ForwardAll(s: seq<Poly>): (r: seq<Poly>)
    ensures |r| == |s|
  {
    seq(|s|, j requires 0 <= j < |s| => Forward(s[j]))
  }

  function InverseAll(s: seq<Poly>): (r: seq<Poly>)
    ensures |r| == |s|
  {
    seq(|s|, j requires 0 <= j < |s| => Inverse(s[j]))
  }

  lemma ForwardOfZero()
    ensures Forward(ZeroPoly()) == ZeroPoly()
  {
    hide ForwardDownTo;
    forall i | 0 <= i < 256 ensures Forward(ZeroPoly())[i] == ZeroPoly()[i] {
      ForwardOfZeroAt(ZeroPoly(), i);
    }
  }

  lemma ForwardOfZeroAt(z: Poly, i: nat)
    requires i < 256 && forall j :: 0 <= j < 256 ==> z[j] == 0
    ensures Forward(z)[i] == 0
  {
    hide ForwardDownTo;
    ForwardEvaluates(z, i);
    EvalZero(z, Point(i));
  }

  lemma {:induction false} ForwardOfRow(aHat: seq<Poly>, s: seq<Poly>, n: nat)
    requires n <= |aHat| && n <= |s|
    ensures Forward(RowProduct(InverseAll(aHat), s, n)) == RowAccumulator(aHat, ForwardAll(s), n)
  {
    hide Forward, Inverse, RingAdd, RingMul, PointwiseMul;
    if n == 0 {
      ForwardOfZero();
    } else {
      var a := Inverse(aHat[n - 1]);
      ForwardOfRow(aHat, s, n - 1);
      ForwardOfSum(RowProduct(InverseAll(aHat), s, n - 1), RingMul(a, s[n - 1]));
      ForwardOfProduct(a, s[n - 1]);
      ForwardOfInverse(aHat[n - 1]);
    }
  }

  /** Accumulating pointwise and transforming back gives the ring's matrix row, where the matrix
      is the one whose transform was sampled. */
  lemma RowThroughTransform(aHat: seq<Poly>, s: seq<Poly>)
    requires |aHat| == |s|
    ensures Inverse(RowAccumulator(aHat, ForwardAll(s), |s|)) == RowProduct(InverseAll(aHat), s, |s|)
  {
    ForwardOfRow(aHat, s, |s|);
    InverseOfForward(RowProduct(InverseAll(aHat), s, |s|));
  }
}
