/** The inverse transform undoes the forward one and conversely, so the transform carries the
    ring Z_q[X]/(X^256 + 1) onto pointwise arithmetic. */
module NttInverse {
  import opened Arithmetic
  import opened NttTwiddles
  import opened Polynomials
  import opened NttSpec

  /** r is c times s, modulo q. */
  ghost predicate IsScaled(r: seq<Residue>, s: seq<Residue>, c: int) {
    |r| == |s| && forall i :: 0 <= i < |r| ==> Cong(r[i], c * s[i], Q)
  }

  // ---------- One butterfly ----------

  lemma UndoSum(a: int, b: int, c: int, f: int, g: int, l: int, w: int)
    requires Cong(a, c * f, Q) && Cong(b, c * g, Q) && Cong(f, l + w, Q) && Cong(g, l - w, Q)
    ensures Cong(a + b, (2 * c) * l, Q) && Cong(a - b, (2 * c) * w, Q)
  {
    hide Cong;
    CongIntro(c, c, Q, 0);
    CongMul(c, c, f, l + w, Q);
    CongMul(c, c, g, l - w, Q);
    CongTransitive(a, c * f, c * (l + w), Q);
    CongTransitive(b, c * g, c * (l - w), Q);
    RedoSums(a, b, c, l, w);
  }

  /** With reciprocal twiddles, multiplying by -t undoes multiplying by z. */
  lemma Reciprocal(t: int, z: int, x: int, d: int, h: int)
    requires Cong(t * z, -1, Q) && Cong(x, d * (z * h), Q)
    ensures Cong(-t * x, d * h, Q)
  {
    hide Cong;
    CongIntro(-t, -t, Q, 0);
    CongMul(-t, -t, x, d * (z * h), Q);
    var k := CongQuotient(t * z, -1, Q);
    assert -t * (d * (z * h)) == -((t * z) * (d * h)) by {
      assert t * (d * (z * h)) == (t * z) * (d * h);
    }
    assert (t * z) * (d * h) == -(d * h) + Q * (k * (d * h));
    CongIntro(-t * (d * (z * h)), d * h, Q, -(k * (d * h)));
    CongTransitive(-t * x, -t * (d * (z * h)), d * h, Q);
  }

  lemma UndoButterfly(a: Residue, b: Residue, c: int, l: Residue, h: Residue, z: int, t: int)
    requires Cong(a, c * ((l + z * h) % Q), Q) && Cong(b, c * ((l + -z * h) % Q), Q)
    requires Cong(t * z, -1, Q)
    ensures Cong((a as int + 1 * b) % Q, (2 * c) * l, Q)
    ensures Cong((-t * (a as int - b as int)) % Q, (2 * c) * h, Q)
  {
    hide Cong;
    var w := z * h;
    CongMod(l + w, Q);
    CongMod(l - w, Q);
    NegatedProduct(z, h);
    UndoSum(a, b, c, (l + w) % Q, (l - w) % Q, l, w);
    UndoReduced(a, b, c, l, h, z, t);
  }

  lemma NegatedProduct(z: int, h: int)
    ensures -z * h == -(z * h)
  {
  }

  lemma UndoReduced(a: int, b: int, c: int, l: int, h: int, z: int, t: int)
    requires Cong(a + b, (2 * c) * l, Q) && Cong(a - b, (2 * c) * (z * h), Q) && Cong(t * z, -1, Q)
    ensures Cong((a + 1 * b) % Q, (2 * c) * l, Q) && Cong((-t * (a - b)) % Q, (2 * c) * h, Q)
  {
    hide Cong;
    Reciprocal(t, z, a - b, 2 * c, h);
    CongMod(a + b, Q);
    CongMod(-t * (a - b), Q);
    CongTransitive((a + b) % Q, a + b, (2 * c) * l, Q);
    CongTransitive((-t * (a - b)) % Q, -t * (a - b), (2 * c) * h, Q);
  }

  lemma RedoButterfly(a: Residue, b: Residue, c: int, l: Residue, h: Residue, z: int, t: int)
    requires Cong(a, c * ((l as int + 1 * h) % Q), Q)
    requires Cong(b, c * ((-t * (l as int - h as int)) % Q), Q)
    requires Cong(t * z, -1, Q)
    ensures Cong((a + z * b) % Q, (2 * c) * l, Q)
    ensures Cong((a + -z * b) % Q, (2 * c) * h, Q)
  {
    hide Cong;
    var sum, difference := l as int + h, l as int - h as int;
    CongMod(sum, Q);
    CongMod(-t * difference, Q);
    CongIntro(c, c, Q, 0);
    CongMul(c, c, sum % Q, sum, Q);
    CongTransitive(a, c * (sum % Q), c * sum, Q);
    CongMul(c, c, (-t * difference) % Q, -t * difference, Q);
    CongTransitive(b, c * ((-t * difference) % Q), c * (-t * difference), Q);
    RedoUpper(b, c, difference, z, t);
    RedoSums(a, z * b, c, l, h);
    assert -z * b == -(z * b);
    CongMod(a + z * b, Q);
    CongMod(a - z * b, Q);
    CongTransitive((a + z * b) % Q, a + z * b, (2 * c) * l, Q);
    CongTransitive((a - z * b) % Q, a - z * b, (2 * c) * h, Q);
  }

  lemma RedoUpper(b: int, c: int, difference: int, z: int, t: int)
    requires Cong(b, c * (-t * difference), Q) && Cong(t * z, -1, Q)
    ensures Cong(z * b, c * difference, Q)
  {
    hide Cong;
    CongIntro(z, z, Q, 0);
    CongMul(z, z, b, c * (-t * difference), Q);
    var k := CongQuotient(t * z, -1, Q);
    var e := c * difference;
    assert z * (c * (-t * difference)) == -((t * z) * e) by {
      assert c * (-t * difference) == -(t * e);
      assert z * (t * e) == (t * z) * e;
    }
    assert (t * z) * e == -e + Q * (k * e);
    CongIntro(z * (c * (-t * difference)), e, Q, -(k * e));
    CongTransitive(z * b, z * (c * (-t * difference)), e, Q);
  }

  lemma RedoSums(a: int, y: int, c: int, l: int, h: int)
    requires Cong(a, c * (l + h), Q) && Cong(y, c * (l - h), Q)
    ensures Cong(a + y, (2 * c) * l, Q) && Cong(a - y, (2 * c) * h, Q)
  {
    hide Cong;
    CongAdd(a, c * (l + h), y, c * (l - h), Q);
    CongSub(a, c * (l + h), y, c * (l - h), Q);
    SumsOfProducts(c, l, h);
  }

  lemma SumsOfProducts(c: int, l: int, h: int)
    ensures c * (l + h) + c * (l - h) == (2 * c) * l
    ensures c * (l + h) - c * (l - h) == (2 * c) * h
  {
    assert c * (l + h) == c * l + c * h;
    assert c * (l - h) == c * l - c * h;
  }

  // ---------- One block ----------

  lemma UndoBlock(a: seq<Residue>, b: seq<Residue>, c: int, lo: seq<Residue>, hi: seq<Residue>, z: int, t: int)
    requires |lo| == |hi| && Cong(t * z, -1, Q)
    requires IsScaled(a, Combine(lo, z, hi), c) && IsScaled(b, Combine(lo, -z, hi), c)
    ensures IsScaled(Combine(a, 1, b), lo, 2 * c) && IsScaled(ScaledDifference(a, -t, b), hi, 2 * c)
  {
    forall i | 0 <= i < |lo|
      ensures Cong(Combine(a, 1, b)[i], (2 * c) * lo[i], Q)
      ensures Cong(ScaledDifference(a, -t, b)[i], (2 * c) * hi[i], Q)
    {
      assert Cong(a[i], c * Combine(lo, z, hi)[i], Q) && Cong(b[i], c * Combine(lo, -z, hi)[i], Q);
      UndoButterfly(a[i], b[i], c, lo[i], hi[i], z, t);
    }
  }

  lemma RedoBlock(a: seq<Residue>, b: seq<Residue>, c: int, lo: seq<Residue>, hi: seq<Residue>, z: int, t: int)
    requires |lo| == |hi| && Cong(t * z, -1, Q)
    requires IsScaled(a, Combine(lo, 1, hi), c) && IsScaled(b, ScaledDifference(lo, -t, hi), c)
    ensures IsScaled(Combine(a, z, b), lo, 2 * c) && IsScaled(Combine(a, -z, b), hi, 2 * c)
  {
    forall i | 0 <= i < |lo|
      ensures Cong(Combine(a, z, b)[i], (2 * c) * lo[i], Q)
      ensures Cong(Combine(a, -z, b)[i], (2 * c) * hi[i], Q)
    {
      assert Cong(a[i], c * Combine(lo, 1, hi)[i], Q);
      assert Cong(b[i], c * ScaledDifference(lo, -t, hi)[i], Q);
      RedoButterfly(a[i], b[i], c, lo[i], hi[i], z, t);
    }
  }

  lemma ScaledConcat(r: seq<Residue>, s: seq<Residue>, u: seq<Residue>, v: seq<Residue>, c: int)
    requires IsScaled(r, s, c) && IsScaled(u, v, c)
    ensures IsScaled(r + u, s + v, c)
  {
  }

  lemma ScaledSlices(r: seq<Residue>, x: seq<Residue>, y: seq<Residue>, z: seq<Residue>, c: int)
    requires |x| == |y| && IsScaled(r, x + y + z, c)
    ensures IsScaled(r[..|x|], x, c) && IsScaled(r[|x|..2 * |x|], y, c) && IsScaled(r[2 * |x|..], z, c)
  {
    var s := x + y + z;
    assert s[..|x|] == x && s[|x|..2 * |x|] == y && s[2 * |x|..] == z;
    forall i | 0 <= i < |x| ensures Cong(r[..|x|][i], c * x[i], Q) {
      assert s[i] == x[i];
    }
    forall i | 0 <= i < |y| ensures Cong(r[|x|..2 * |x|][i], c * y[i], Q) {
      assert s[|x| + i] == y[i];
    }
    forall i | 0 <= i < |z| ensures Cong(r[2 * |x|..][i], c * z[i], Q) {
      assert s[2 * |x| + i] == z[i];
    }
  }

  lemma Thirds(s: seq<Residue>, len: nat)
    requires 2 * len <= |s|
    ensures s == s[..len] + s[len..2 * len] + s[2 * len..]
  {
  }

  // ---------- One layer ----------

  /** The twiddle indices k, k+1, ... and t, t-1, ... of layer 2^j mirror each other. */
  ghost predicate Mirrored(j: nat, k: int, t: int, n: nat) {
    j < 8 && Pow(2, j) <= k && k + n == 2 * Pow(2, j) && k + t == 3 * Pow(2, j) - 1
  }

  lemma BlocksNonEmpty(len: nat, n: nat)
    requires n >= 1
    ensures 2 * len <= 2 * len * n && 2 * len * n - 2 * len == 2 * len * (n - 1)
  {
    MulMonotone(2 * len, 1, n);
  }

  lemma UndoLayerStep(r: seq<Residue>, s: seq<Residue>, len: nat, k: int, t: int, c: int)
    requires len > 0 && 2 * len <= |s| && Cong(Zeta(t) * Zeta(k), -1, Q)
    requires IsScaled(r, ForwardLayer(s, len, k), c)
    requires IsScaled(InverseLayer(r[2 * len..], len, t - 1), s[2 * len..], 2 * c)
    ensures IsScaled(InverseLayer(r, len, t), s, 2 * c)
  {
    hide Cong, Zeta, Combine, ScaledDifference;
    var lo, hi := s[..len], s[len..2 * len];
    var a, b := r[..len], r[len..2 * len];
    ScaledSlices(r, Combine(lo, Zeta(k), hi), Combine(lo, -Zeta(k), hi), ForwardLayer(s[2 * len..], len, k + 1), c);
    UndoBlock(a, b, c, lo, hi, Zeta(k), Zeta(t));
    ScaledConcat(Combine(a, 1, b), lo, ScaledDifference(a, -Zeta(t), b), hi, 2 * c);
    ScaledConcat(Combine(a, 1, b) + ScaledDifference(a, -Zeta(t), b), lo + hi,
                 InverseLayer(r[2 * len..], len, t - 1), s[2 * len..], 2 * c);
    Thirds(s, len);
  }

  lemma UndoLayerTail(r: seq<Residue>, s: seq<Residue>, len: nat, k: int, c: int)
    requires len > 0 && 2 * len <= |s| && IsScaled(r, ForwardLayer(s, len, k), c)
    ensures IsScaled(r[2 * len..], ForwardLayer(s[2 * len..], len, k + 1), c)
  {
    var lo, hi := s[..len], s[len..2 * len];
    ScaledSlices(r, Combine(lo, Zeta(k), hi), Combine(lo, -Zeta(k), hi), ForwardLayer(s[2 * len..], len, k + 1), c);
  }

  /** An inverse layer undoes the matching forward layer, up to a factor 2. */
  lemma {:induction false} UndoLayer(r: seq<Residue>, s: seq<Residue>, len: nat, j: nat, k: int, t: int, n: nat, c: int)
    requires len > 0 && |s| == 2 * len * n && Mirrored(j, k, t, n)
    requires IsScaled(r, ForwardLayer(s, len, k), c)
    ensures IsScaled(InverseLayer(r, len, t), s, 2 * c)
    decreases n
  {
    hide ForwardLayer, InverseLayer, Zeta;
    if n == 0 {
      assert s == [];
    } else {
      BlocksNonEmpty(len, n);
      MirrorTwiddles(j, k, t);
      UndoLayerTail(r, s, len, k, c);
      UndoLayer(r[2 * len..], s[2 * len..], len, j, k + 1, t - 1, n - 1, c);
      UndoLayerStep(r, s, len, k, t, c);
    }
  }

  lemma RedoLayerStep(r: seq<Residue>, s: seq<Residue>, len: nat, k: int, t: int, c: int)
    requires len > 0 && 2 * len <= |s| && Cong(Zeta(t) * Zeta(k), -1, Q)
    requires IsScaled(r, InverseLayer(s, len, t), c)
    requires IsScaled(ForwardLayer(r[2 * len..], len, k + 1), s[2 * len..], 2 * c)
    ensures IsScaled(ForwardLayer(r, len, k), s, 2 * c)
  {
    hide Cong, Zeta, Combine, ScaledDifference;
    var lo, hi := s[..len], s[len..2 * len];
    var a, b := r[..len], r[len..2 * len];
    ScaledSlices(r, Combine(lo, 1, hi), ScaledDifference(lo, -Zeta(t), hi), InverseLayer(s[2 * len..], len, t - 1), c);
    RedoBlock(a, b, c, lo, hi, Zeta(k), Zeta(t));
    ScaledConcat(Combine(a, Zeta(k), b), lo, Combine(a, -Zeta(k), b), hi, 2 * c);
    ScaledConcat(Combine(a, Zeta(k), b) + Combine(a, -Zeta(k), b), lo + hi,
                 ForwardLayer(r[2 * len..], len, k + 1), s[2 * len..], 2 * c);
    Thirds(s, len);
  }

  lemma RedoLayerTail(r: seq<Residue>, s: seq<Residue>, len: nat, t: int, c: int)
    requires len > 0 && 2 * len <= |s| && IsScaled(r, InverseLayer(s, len, t), c)
    ensures IsScaled(r[2 * len..], InverseLayer(s[2 * len..], len, t - 1), c)
  {
    var lo, hi := s[..len], s[len..2 * len];
    ScaledSlices(r, Combine(lo, 1, hi), ScaledDifference(lo, -Zeta(t), hi), InverseLayer(s[2 * len..], len, t - 1), c);
  }

  /** A forward layer undoes the matching inverse layer, up to a factor 2. */
  lemma {:induction false} RedoLayer(r: seq<Residue>, s: seq<Residue>, len: nat, j: nat, k: int, t: int, n: nat, c: int)
    requires len > 0 && |s| == 2 * len * n && Mirrored(j, k, t, n)
    requires IsScaled(r, InverseLayer(s, len, t), c)
    ensures IsScaled(ForwardLayer(r, len, k), s, 2 * c)
    decreases n
  {
    hide ForwardLayer, InverseLayer, Zeta;
    if n == 0 {
      assert s == [];
    } else {
      BlocksNonEmpty(len, n);
      MirrorTwiddles(j, k, t);
      RedoLayerTail(r, s, len, t, c);
      RedoLayer(r[2 * len..], s[2 * len..], len, j, k + 1, t - 1, n - 1, c);
      RedoLayerStep(r, s, len, k, t, c);
    }
  }

  // ---------- All layers ----------

  lemma LayerShape(j: nat)
    requires j < 8
    ensures Pow(2, j) > 0 && 2 * Pow(2, j) * Pow(2, 7 - j) == 256
    ensures Mirrored(7 - j, Pow(2, 7 - j), 2 * Pow(2, 7 - j) - 1, Pow(2, 7 - j))
  {
    PowPositive(2, j);
    PowAdd(2, j, 7 - j);
    PowersOfTwo();
    assert 2 * Pow(2, j) * Pow(2, 7 - j) == 2 * (Pow(2, j) * Pow(2, 7 - j));
  }

  lemma ScaledByOne(s: seq<Residue>)
    ensures IsScaled(s, s, 1)
  {
    forall i | 0 <= i < |s| ensures Cong(s[i], 1 * s[i], Q) {
      CongIntro(s[i], s[i], Q, 0);
    }
  }

  lemma UndoOneMore(r: Poly, s: Poly, j: nat, c: int)
    requires 1 <= j <= 8 && Pow(2, j - 1) > 0
    requires IsScaled(r, ForwardLayer(s, Pow(2, j - 1), Pow(2, 8 - j)), c)
    ensures IsScaled(InverseLayer(r, Pow(2, j - 1), 2 * Pow(2, 8 - j) - 1), s, 2 * c)
  {
    hide ForwardLayer, InverseLayer;
    LayerShape(j - 1);
    UndoLayer(r, s, Pow(2, j - 1), 8 - j, Pow(2, 8 - j), 2 * Pow(2, 8 - j) - 1, Pow(2, 8 - j), c);
  }

  lemma {:induction false} InverseAfterForward(f: Poly, p: Poly, j: nat)
    requires j <= 8 && IsScaled(f, ForwardDownTo(p, 0), 1)
    ensures IsScaled(InverseUpTo(f, j), ForwardDownTo(p, j), Pow(2, j))
  {
    hide ForwardLayer, InverseLayer, IsScaled;
    if j > 0 {
      InverseAfterForward(f, p, j - 1);
      PowPositive(2, j - 1);
      UndoOneMore(InverseUpTo(f, j - 1), ForwardDownTo(p, j), j, Pow(2, j - 1));
    }
  }

  lemma CancelScale(x: Residue, y: Residue)
    requires Cong(x, 256 * y, Q)
    ensures (INVERSE_256 * x) % Q == y
  {
    CongIntro(INVERSE_256, INVERSE_256, Q, 0);
    CongMul(INVERSE_256, INVERSE_256, x, 256 * y, Q);
    CongIntro(INVERSE_256 * (256 * y), y, Q, 255 * y);
    CongTransitive(INVERSE_256 * x, INVERSE_256 * (256 * y), y, Q);
    CongIsEqualRemainder(INVERSE_256 * x, y, Q);
  }

  /** The inverse transform undoes the forward transform. */
  lemma InverseOfForward(p: Poly)
    ensures Inverse(Forward(p)) == p
  {
    ScaledByOne(Forward(p));
    InverseAfterForward(Forward(p), p, 8);
    assert Pow(2, 8) == 256 by { PowersOfTwo(); }
    Unscale(InverseUpTo(Forward(p), 8), p);
  }

  lemma Unscale(r: seq<Residue>, p: seq<Residue>)
    requires IsScaled(r, p, 256)
    ensures Scale(r, INVERSE_256) == p
  {
    forall i | 0 <= i < |p| ensures Scale(r, INVERSE_256)[i] == p[i] {
      CancelScale(r[i], p[i]);
    }
  }

  lemma ScaleIsScaled(s: seq<Residue>, c: int)
    ensures IsScaled(Scale(s, c), s, c)
  {
    forall i | 0 <= i < |s| ensures Cong(Scale(s, c)[i], c * s[i], Q) {
      CongMod(c * s[i], Q);
    }
  }

  lemma RedoOneMore(r: Poly, s: Poly, j: nat, c: int)
    requires j < 8 && Pow(2, j) > 0
    requires IsScaled(r, InverseLayer(s, Pow(2, j), 2 * Pow(2, 7 - j) - 1), c)
    ensures IsScaled(ForwardLayer(r, Pow(2, j), Pow(2, 7 - j)), s, 2 * c)
  {
    hide ForwardLayer, InverseLayer;
    LayerShape(j);
    RedoLayer(r, s, Pow(2, j), 7 - j, Pow(2, 7 - j), 2 * Pow(2, 7 - j) - 1, Pow(2, 7 - j), c);
  }

  lemma {:induction false} ForwardAfterInverse(v: Poly, j: nat)
    requires j <= 8
    ensures IsScaled(ForwardDownTo(Inverse(v), j), InverseUpTo(v, j), INVERSE_256 * Pow(2, 8 - j))
    decreases 8 - j
  {
    hide ForwardLayer, InverseLayer, IsScaled, Scale;
    if j == 8 {
      ScaleIsScaled(InverseUpTo(v, 8), INVERSE_256);
    } else {
      ForwardAfterInverse(v, j + 1);
      PowPositive(2, j);
      RedoOneMore(ForwardDownTo(Inverse(v), j + 1), InverseUpTo(v, j), j, INVERSE_256 * Pow(2, 7 - j));
      assert 2 * (INVERSE_256 * Pow(2, 7 - j)) == INVERSE_256 * Pow(2, 8 - j);
    }
  }

  lemma CancelBoth(x: Residue, y: Residue)
    requires Cong(x, (INVERSE_256 * 256) * y, Q)
    ensures x == y
  {
    CongIntro((INVERSE_256 * 256) * y, y, Q, 255 * y);
    CongTransitive(x, (INVERSE_256 * 256) * y, y, Q);
    CongOfResidues(x, y, Q);
  }

  lemma InverseUpToZero(v: Poly)
    ensures InverseUpTo(v, 0) == v
  {
  }

  /** The forward transform undoes the inverse transform. */
  lemma ForwardOfInverse(v: Poly)
    ensures Forward(Inverse(v)) == v
  {
    hide ForwardDownTo, InverseUpTo;
    ForwardAfterInverse(v, 0);
    assert InverseUpTo(v, 0) == v by { InverseUpToZero(v); }
    assert Pow(2, 8) == 256 by { PowersOfTwo(); }
    var r := Forward(Inverse(v));
    forall i | 0 <= i < 256 ensures r[i] == v[i] {
      assert Cong(r[i], (INVERSE_256 * 256) * v[i], Q);
      CancelBoth(r[i], v[i]);
    }
  }
}
