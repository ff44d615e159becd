/** Polynomials with integer coefficients, lowest degree first, and the negacyclic product of
    Z_q[X]/(X^256 + 1). */
module Polynomials {
  import opened Arithmetic
  import opened NttTwiddles

  function Eval(p: seq<int>, x: int): int {
    if p == [] then 0 else p[0] + x * Eval(p[1..], x)
  }

  lemma {:induction false} EvalConcat(p: seq<int>, r: seq<int>, x: int)
    ensures Eval(p + r, x) == Eval(p, x) + Pow(x, |p|) * Eval(r, x)
  {
    if p == [] {
      assert p + r == r;
    } else {
      EvalConcat(p[1..], r, x);
      assert (p + r)[1..] == p[1..] + r;
      var a, b, c := Eval(p[1..], x), Pow(x, |p| - 1), Eval(r, x);
      assert x * (a + b * c) == x * a + (x * b) * c;
    }
  }

  /** Coefficientwise: h is a + c*b modulo q. */
  ghost predicate IsCombination(h: seq<int>, a: seq<int>, c: int, b: seq<int>) {
    |h| == |a| == |b| && forall i :: 0 <= i < |h| ==> Cong(h[i], a[i] + c * b[i], Q)
  }

  lemma CombinationStep(x: int, h0: int, a0: int, b0: int, h: int, a: int, b: int, c: int)
    requires Cong(h0, a0 + c * b0, Q) && Cong(h, a + c * b, Q)
    ensures Cong(h0 + x * h, (a0 + x * a) + c * (b0 + x * b), Q)
  {
    CongIntro(x, x, Q, 0);
    CongMul(x, x, h, a + c * b, Q);
    CongAdd(h0, a0 + c * b0, x * h, x * (a + c * b), Q);
    assert x * (a + c * b) == x * a + c * (x * b) by {
      assert x * (c * b) == c * (x * b);
    }
    assert c * (b0 + x * b) == c * b0 + c * (x * b);
  }

  /** Evaluation is linear. */
  lemma {:induction false} EvalCombination(h: seq<int>, a: seq<int>, c: int, b: seq<int>, x: int)
    requires IsCombination(h, a, c, b)
    ensures Cong(Eval(h, x), Eval(a, x) + c * Eval(b, x), Q)
  {
    hide Cong;
    if h == [] {
      assert c * 0 == 0;
      CongIntro(0, 0, Q, 0);
    } else {
      EvalCombination(h[1..], a[1..], c, b[1..], x);
      CombinationStep(x, h[0], a[0], b[0], Eval(h[1..], x), Eval(a[1..], x), Eval(b[1..], x), c);
    }
  }

  // ---------- The negacyclic product ----------

  type Poly = p: seq<Residue> | |p| == 256 witness seq(256, _ => 0)

  /** Coefficient d of a polynomial extended by X^256 = -1 to negative degrees. */
  function Wrapped(g: Poly, d: int): int
    requires -256 <= d < 256
  {
    if d >= 0 then g[d] else -(g[256 + d] as int)
  }

  /** The sum of f[i] * Wrapped(g, k + n - i) for i from n to 255. */
  function ProductSum(f: Poly, g: Poly, k: nat, n: nat, i: nat): int
    requires k < 256 && n <= i <= 256
    decreases 256 - i
  {
    if i == 256 then 0 else f[i] * Wrapped(g, k + n - i) + ProductSum(f, g, k, n, i + 1)
  }

  /** Multiplication in Z_q[X]/(X^256 + 1), by the schoolbook formula. */
  function RingMul(f: Poly, g: Poly): Poly {
    seq(256, k requires 0 <= k < 256 => ProductSum(f, g, k, 0, 0) % Q)
  }

  function RingAdd(f: Poly, g: Poly): Poly {
    seq(256, k requires 0 <= k < 256 => ElemAdd(f[k], g[k]))
  }

  /** The product of g and the tail of f from degree n, shifted down by X^n. */
  ghost function TailProduct(f: Poly, g: Poly, n: nat): (t: seq<int>)
    requires n <= 256
    ensures |t| == 256
  {
    seq(256, k requires 0 <= k < 256 => ProductSum(f, g, k, n, n))
  }

  /** Multiplication by X: rotate up, negating what wraps round. */
  ghost function TimesX(t: seq<int>): (r: seq<int>)
    requires |t| == 256
    ensures |r| == 256
  {
    [-t[255]] + t[..255]
  }

  lemma {:induction false} ProductSumShift(f: Poly, g: Poly, k: nat, n: nat, i: nat)
    requires k < 256 && n < i <= 256
    ensures ProductSum(f, g, k, n, i)
         == if k == 0 then -ProductSum(f, g, 255, n + 1, i) else ProductSum(f, g, k - 1, n + 1, i)
    decreases 256 - i
  {
    if i < 256 {
      ProductSumShift(f, g, k, n, i + 1);
      if k == 0 {
        var u, v: int := f[i], g[256 + n - i];
        assert u * -v == -(u * v);
      }
    }
  }

  lemma TailProductStep(f: Poly, g: Poly, n: nat)
    requires n < 256
    ensures IsCombination(TailProduct(f, g, n), TimesX(TailProduct(f, g, n + 1)), f[n], g)
  {
    forall k | 0 <= k < 256
      ensures Cong(TailProduct(f, g, n)[k], TimesX(TailProduct(f, g, n + 1))[k] + f[n] * g[k], Q)
    {
      ProductSumShift(f, g, k, n, n + 1);
      CongIntro(TailProduct(f, g, n)[k], TailProduct(f, g, n)[k], Q, 0);
    }
  }

  lemma EvalTimesX(t: seq<int>, x: int)
    requires |t| == 256 && Cong(Pow(x, 256), -1, Q)
    ensures Cong(Eval(TimesX(t), x), x * Eval(t, x), Q)
  {
    var e, z := Eval(t[..255], x), t[255];
    EvalConcat(t[..255], [z], x);
    assert t == t[..255] + [z];
    assert Eval([z], x) == z;
    assert TimesX(t)[1..] == t[..255];
    assert Eval(TimesX(t), x) == -z + x * e;
    WrapAround(x, Pow(x, 255), e, z);
  }

  lemma WrapAround(x: int, w: int, e: int, z: int)
    requires Cong(x * w, -1, Q)
    ensures Cong(-z + x * e, x * (e + w * z), Q)
  {
    var k := CongQuotient(x * w, -1, Q);
    assert x * (e + w * z) == x * e + (x * w) * z;
    assert (x * w) * z == -z + Q * (k * z);
    CongIntro(-z + x * e, x * (e + w * z), Q, -(k * z));
  }

  lemma {:induction false} EvalTailProduct(f: Poly, g: Poly, n: nat, x: int)
    requires n <= 256 && Cong(Pow(x, 256), -1, Q)
    ensures Cong(Eval(TailProduct(f, g, n), x), Eval(f[n..], x) * Eval(g, x), Q)
    decreases 256 - n
  {
    var t := TailProduct(f, g, n);
    if n == 256 {
      assert f[256..] == [];
      EvalZero(t, x);
      CongIntro(0, 0, Q, 0);
    } else {
      var u := TailProduct(f, g, n + 1);
      var a, b := Eval(f[n + 1..], x), Eval(g, x);
      EvalTailProduct(f, g, n + 1, x);
      EvalTimesX(u, x);
      TailProductStep(f, g, n);
      EvalCombination(t, TimesX(u), f[n], g, x);
      CongIntro(x, x, Q, 0);
      CongMul(x, x, Eval(u, x), a * b, Q);
      CongTransitive(Eval(TimesX(u), x), x * Eval(u, x), x * (a * b), Q);
      CongIntro(f[n] * b, f[n] * b, Q, 0);
      CongAdd(Eval(TimesX(u), x), x * (a * b), f[n] * b, f[n] * b, Q);
      CongTransitive(Eval(t, x), Eval(TimesX(u), x) + f[n] * b, x * (a * b) + f[n] * b, Q);
      assert f[n..][1..] == f[n + 1..];
      HornerProduct(f[n], x, a, b);
    }
  }

  lemma HornerProduct(c: int, x: int, a: int, b: int)
    ensures (c + x * a) * b == x * (a * b) + c * b
  {
    assert (x * a) * b == x * (a * b);
  }

  lemma {:induction false} EvalZero(t: seq<int>, x: int)
    requires forall i :: 0 <= i < |t| ==> t[i] == 0
    ensures Eval(t, x) == 0
  {
    if t != [] {
      EvalZero(t[1..], x);
    }
  }

  lemma EvalReduced(h: seq<int>, t: seq<int>, x: int)
    requires |h| == |t| && forall i :: 0 <= i < |h| ==> h[i] == t[i] % Q
    ensures Cong(Eval(h, x), Eval(t, x), Q)
  {
    forall i | 0 <= i < |h| ensures Cong(h[i], t[i] + 0 * t[i], Q) {
      CongMod(t[i], Q);
    }
    EvalCombination(h, t, 0, t, x);
  }

  /** Wherever x^256 = -1, the ring product evaluates to the product of the values. */
  lemma EvalRingMul(f: Poly, g: Poly, x: int)
    requires Cong(Pow(x, 256), -1, Q)
    ensures Cong(Eval(RingMul(f, g), x), Eval(f, x) * Eval(g, x), Q)
  {
    EvalTailProduct(f, g, 0, x);
    assert f[0..] == f;
    EvalReduced(RingMul(f, g), TailProduct(f, g, 0), x);
    CongTransitive(Eval(RingMul(f, g), x), Eval(TailProduct(f, g, 0), x), Eval(f, x) * Eval(g, x), Q);
  }

  lemma EvalRingAdd(f: Poly, g: Poly, x: int)
    ensures Cong(Eval(RingAdd(f, g), x), Eval(f, x) + Eval(g, x), Q)
  {
    var h := RingAdd(f, g);
    forall i | 0 <= i < 256 ensures Cong(h[i], (f[i] as int) + 1 * g[i], Q) {
      var s: int := f[i] as int + g[i] as int;
      CongMod(s, Q);
    }
    EvalCombination(h, f, 1, g, x);
  }
}
