/** Jacobian points (x / z^2, y / z^3) with the source's doubling and addition, proved to
    compute the affine chord-and-tangent sum. */
module Jacobian {
  import opened Arithmetic
  import opened Primes
  import opened CurveField
  import opened AffineCurve

  datatype Jacobian = Jacobian(x: nat, y: nat, z: nat)

  const AtInfinity: Jacobian := Jacobian(0, 1, 0)

  function Double(point: Jacobian, p: nat, a: nat): Jacobian
    requires p > 0
  {
    if point.z == 0 || point.y == 0 then AtInfinity
    else
      var xx := (point.x * point.x) % p;
      var yy := (point.y * point.y) % p;
      var yyyy := (yy * yy) % p;
      var zz := (point.z * point.z) % p;
      var xPlusYy := (point.x + yy) % p;
      var s0 := ModSub((xPlusYy * xPlusYy) % p, xx, p);
      var s1 := ModSub(s0, yyyy, p);
      var s := (s1 * 2) % p;
      var m := (xx * 3 + a * zz * zz) % p;
      var x := ModSub((m * m) % p, (s * 2) % p, p);
      var y0 := (m * ModSub(s, x, p)) % p;
      var y := ModSub(y0, (yyyy * 8) % p, p);
      var z := ((point.y * point.z) * 2) % p;
      Jacobian(x, y, z)
  }

  /** The general case of the addition: different x coordinates. */
  function AddDistinct(left: Jacobian, right: Jacobian, u1: nat, u2: nat, s1: nat, s2: nat, z1z1: nat, z2z2: nat,
                       p: nat): Jacobian
    requires p > 0
  {
    var h := ModSub(u2, u1, p);
    var twoH := (h * 2) % p;
    var i := (twoH * twoH) % p;
    var j := (h * i) % p;
    var r := (ModSub(s2, s1, p) * 2) % p;
    var v := (u1 * i) % p;
    var x0 := ModSub((r * r) % p, j, p);
    var x := ModSub(x0, (v * 2) % p, p);
    var y0 := (r * ModSub(v, x, p)) % p;
    var y := ModSub(y0, ((s1 * j) * 2) % p, p);
    var zSum := (left.z + right.z) % p;
    var zA := ModSub((zSum * zSum) % p, z1z1, p);
    var zB := ModSub(zA, z2z2, p);
    Jacobian(x, y, (zB * h) % p)
  }

  function Add(left: Jacobian, right: Jacobian, p: nat, a: nat): Jacobian
    requires p > 0
  {
    if left.z == 0 then right
    else if right.z == 0 then left
    else
      var z1z1 := (left.z * left.z) % p;
      var z2z2 := (right.z * right.z) % p;
      var u1 := (left.x * z2z2) % p;
      var u2 := (right.x * z1z1) % p;
      var s1 := ((left.y * right.z) * z2z2) % p;
      var s2 := ((right.y * left.z) * z1z1) % p;
      if u1 == u2 then
        if s1 == s2 then Double(left, p, a) else AtInfinity
      else AddDistinct(left, right, u1, u2, s1, s2, z1z1, z2z2, p)
  }

  // ---------- What a point stands for ----------

  predicate Below(q: Jacobian, p: nat) { q.x < p && q.y < p && q.z < p }

  /** The affine point with x = X / Z^2 and y = Y / Z^3. */
  function ToAffine(c: Curve, q: Jacobian): Affine
    requires c.p > 2
  {
    if q.z == 0 then Infinity
    else
      var i := Inverse(q.z, c.p);
      Point((q.x * (i * i)) % c.p, (q.y * (i * (i * i))) % c.p)
  }

  /** Y^2 = X^3 + a*X*Z^4 + b*Z^6, or the point at infinity. */
  ghost predicate OnJacobianCurve(c: Curve, q: Jacobian)
    requires c.p > 0
  {
    q.z == 0 ||
    var zz := q.z * q.z;
    Cong(q.y * q.y, q.x * q.x * q.x + c.a * (q.x * (zz * zz)) + c.b * (zz * (zz * zz)), c.p)
  }

  /** ToAffine without division. */
  ghost predicate Represents(c: Curve, q: Jacobian, t: Affine)
    requires c.p > 0
  {
    Below(q, c.p) &&
    (if q.z == 0 then t.Infinity?
     else t.Point? && t.x < c.p && t.y < c.p && Scaled(q.x, q.y, q.z, t.x, t.y, c.p))
  }

  ghost predicate Scaled(X: int, Y: int, Z: int, x: int, y: int, p: nat)
    requires p > 0
  {
    Cong(X, x * (Z * Z), p) && Cong(Y, y * (Z * (Z * Z)), p)
  }

  // ---------- The common last steps ----------

  lemma SquaredScale(l: int, z: int, t: int)
    ensures (l * z) * (l * z) - t * (z * z) == (l * l - t) * (z * z)
  {
    assert (l * z) * (l * z) == (l * l) * (z * z);
  }

  lemma CubedScale(l: int, z: int, x1: int, x3: int, y1: int)
    ensures (l * z) * (x1 * (z * z) - x3 * (z * z)) - y1 * (z * (z * z)) == (l * (x1 - x3) - y1) * (z * (z * z))
  {
    var q := z * z;
    assert x1 * q - x3 * q == (x1 - x3) * q;
    var d := x1 - x3;
    MulInterchange(l, z, d, q);
    assert (l * d - y1) * (z * q) == (l * d) * (z * q) - y1 * (z * q);
  }

  lemma Multiply(a: int, b: int, k: int, p: nat)
    requires p > 0 && Cong(a, b, p)
    ensures Cong(a * k, b * k, p) && Cong(k * a, k * b, p)
  {
    hide Cong;
    Same(k, p);
    CongMul(a, b, k, k, p);
    CongMul(k, k, a, b, p);
  }

  lemma Finish(c: Curve, l: nat, x1: nat, y1: nat, x2: nat, Z: int, X: int, Y: int)
    requires c.p > 0
    requires Cong(X, (l * Z) * (l * Z) - (x1 + x2) * (Z * Z), c.p)
    requires Cong(Y, (l * Z) * (x1 * (Z * Z) - X) - y1 * (Z * (Z * Z)), c.p)
    ensures var t := Third(c, l, x1, y1, x2); Scaled(X, Y, Z, t.x, t.y, c.p)
  {
    hide Cong;
    var p, t := c.p, Third(c, l, x1, y1, x2);
    var e := l * l - x1 - x2;
    SquaredScale(l, Z, x1 + x2);
    CongMod(e, p);
    Multiply(e, t.x, Z * Z, p);
    CongTransitive(X, e * (Z * Z), t.x * (Z * Z), p);
    var f := l * (x1 - t.x) - y1;
    CubedScale(l, Z, x1, t.x, y1);
    FinishY(l * Z, x1 * (Z * Z), X, t.x * (Z * Z), y1 * (Z * (Z * Z)), Y, p);
    CongMod(f, p);
    Multiply(f, t.y, Z * (Z * Z), p);
    CongTransitive(Y, f * (Z * (Z * Z)), t.y * (Z * (Z * Z)), p);
  }

  lemma FinishY(r: int, v: int, X: int, X3: int, k: int, Y: int, p: nat)
    requires p > 0 && Cong(Y, r * (v - X) - k, p) && Cong(X, X3, p)
    ensures Cong(Y, r * (v - X3) - k, p)
  {
    hide Cong;
    Same(v, p);
    CongSub(v, v, X, X3, p);
    Multiply(v - X, v - X3, r, p);
    Same(k, p);
    CongSub(r * (v - X), r * (v - X3), k, k, p);
    CongTransitive(Y, r * (v - X) - k, r * (v - X3) - k, p);
  }

  /** Replacing the scale by its residue changes nothing. */
  lemma ScaledByResidue(X: int, Y: int, Z: int, z: int, x: int, y: int, p: nat)
    requires p > 0 && Scaled(X, Y, Z, x, y, p) && Cong(z, Z, p)
    ensures Scaled(X, Y, z, x, y, p)
  {
    hide Cong;
    CongSymmetric(z, Z, p);
    CongMul(Z, z, Z, z, p);
    CongMul(Z, z, Z * Z, z * z, p);
    Multiply(Z * Z, z * z, x, p);
    Multiply(Z * (Z * Z), z * (z * z), y, p);
    CongTransitive(X, x * (Z * Z), x * (z * z), p);
    CongTransitive(Y, y * (Z * (Z * Z)), y * (z * (z * z)), p);
  }

  // ---------- Doubling ----------

  lemma CrossTerm(x: int, q: int)
    ensures ((x + q) * (x + q) - x * x - q * q) * 2 == 4 * (x * q)
  {
    assert (x + q) * (x + q) == x * x + 2 * (x * q) + q * q;
  }

  lemma DoubleScale(x: int, y: int, z: int)
    ensures 4 * ((x * (z * z)) * (y * y)) == x * ((2 * (y * z)) * (2 * (y * z)))
  {
    var w := y * z;
    assert w * w == (y * y) * (z * z);
    assert (2 * w) * (2 * w) == 4 * (w * w);
    assert (x * (z * z)) * (y * y) == x * ((z * z) * (y * y));
  }

  /** 4 X Y^2 is x (2YZ)^2. */
  lemma DoubleV(X: int, Y: int, Z: int, x: int, p: nat)
    requires p > 0 && Cong(X, x * (Z * Z), p)
    ensures Cong(4 * (X * (Y * Y)), x * ((2 * (Y * Z)) * (2 * (Y * Z))), p)
  {
    hide Cong;
    Multiply(X, x * (Z * Z), Y * Y, p);
    Multiply(X * (Y * Y), (x * (Z * Z)) * (Y * Y), 4, p);
    DoubleScale(x, Y, Z);
  }

  lemma EighthScale(y: int, Y: int, z: int)
    ensures y * ((2 * (Y * z)) * ((2 * (Y * z)) * (2 * (Y * z)))) == 8 * ((y * (z * (z * z))) * (Y * (Y * Y)))
  {
    var w := Y * z;
    assert w * w == (Y * Y) * (z * z);
    MulInterchange(Y, z, Y * Y, z * z);
    assert w * (w * w) == (Y * (Y * Y)) * (z * (z * z));
    assert (2 * w) * ((2 * w) * (2 * w)) == 8 * (w * (w * w));
    var q, s := Y * (Y * Y), z * (z * z);
    assert y * (8 * (q * s)) == 8 * ((y * s) * q);
  }

  /** 8 Y^4 is y (2YZ)^3. */
  lemma DoubleK(Y: int, Z: int, y: int, p: nat)
    requires p > 0 && Cong(Y, y * (Z * (Z * Z)), p)
    ensures Cong(8 * ((Y * Y) * (Y * Y)), y * ((2 * (Y * Z)) * ((2 * (Y * Z)) * (2 * (Y * Z)))), p)
  {
    hide Cong;
    var q := Y * (Y * Y);
    Multiply(Y, y * (Z * (Z * Z)), q, p);
    Multiply(Y * q, (y * (Z * (Z * Z))) * q, 8, p);
    assert (Y * Y) * (Y * Y) == Y * q;
    EighthScale(y, Y, Z);
  }

  lemma FourthScale(x: int, z: int, a: int)
    ensures 3 * ((x * (z * z)) * (x * (z * z))) + a * ((z * z) * (z * z)) == (3 * (x * x) + a) * ((z * z) * (z * z))
  {
    var q := z * z;
    MulInterchange(x, q, x, q);
    var f := q * q;
    assert (3 * (x * x) + a) * f == 3 * ((x * x) * f) + a * f;
  }

  lemma TangentScale(l: int, y: int, z: int)
    ensures l * (2 * ((y * (z * (z * z))) * z)) == (l * (2 * y)) * ((z * z) * (z * z))
  {
    var q := z * z;
    assert (z * q) * z == q * q;
    assert (y * (z * q)) * z == y * ((z * q) * z);
    assert l * (2 * (y * (q * q))) == (l * (2 * y)) * (q * q);
  }

  /** 3 X^2 + a Z^4 is the tangent slope times 2YZ. */
  lemma DoubleM(X: int, Y: int, Z: int, x: int, y: int, a: int, l: int, p: nat)
    requires p > 0 && Scaled(X, Y, Z, x, y, p) && Cong(l * (2 * y), 3 * (x * x) + a, p)
    ensures Cong(3 * (X * X) + a * ((Z * Z) * (Z * Z)), l * (2 * (Y * Z)), p)
  {
    hide Cong;
    var f := (Z * Z) * (Z * Z);
    CongMul(X, x * (Z * Z), X, x * (Z * Z), p);
    Multiply(X * X, (x * (Z * Z)) * (x * (Z * Z)), 3, p);
    Same(a * f, p);
    CongAdd(3 * (X * X), 3 * ((x * (Z * Z)) * (x * (Z * Z))), a * f, a * f, p);
    FourthScale(x, Z, a);
    Multiply(l * (2 * y), 3 * (x * x) + a, f, p);
    CongSymmetric((l * (2 * y)) * f, (3 * (x * x) + a) * f, p);
    CongTransitive(3 * (X * X) + a * f, (3 * (x * x) + a) * f, (l * (2 * y)) * f, p);
    TangentScale(l, y, Z);
    Multiply(Y, y * (Z * (Z * Z)), Z, p);
    Multiply(Y * Z, (y * (Z * (Z * Z))) * Z, 2, p);
    Multiply(2 * (Y * Z), 2 * ((y * (Z * (Z * Z))) * Z), l, p);
    CongSymmetric(l * (2 * (Y * Z)), l * (2 * ((y * (Z * (Z * Z))) * Z)), p);
    CongTransitive(3 * (X * X) + a * f, (l * (2 * y)) * f, l * (2 * (Y * Z)), p);
  }

  /** s, the doubled cross term, is 4 X Y^2. */
  lemma DoubleS(X: nat, Y: nat, p: nat)
    requires p > 0
    ensures var xx, yy := (X * X) % p, (Y * Y) % p;
            var yyyy, w := (yy * yy) % p, (X + yy) % p;
            var s := (ModSub(ModSub((w * w) % p, xx, p), yyyy, p) * 2) % p;
            Cong(s, 4 * (X * (Y * Y)), p) && s < p && Cong(yyyy, (Y * Y) * (Y * Y), p)
  {
    hide Cong, ModSub;
    var q := Y * Y;
    Same(X, p);
    Same(Y, p);
    ProductIs(X, X, X, X, p);
    ProductIs(Y, Y, Y, Y, p);
    var xx, yy := (X * X) % p, q % p;
    ProductIs(yy, q, yy, q, p);
    SumIs(X, X, yy, q, p);
    var yyyy, w := (yy * yy) % p, (X + yy) % p;
    ProductIs(w, X + q, w, X + q, p);
    DifferenceIs((w * w) % p, (X + q) * (X + q), xx, X * X, p);
    var s0 := ModSub((w * w) % p, xx, p);
    DifferenceIs(s0, (X + q) * (X + q) - X * X, yyyy, q * q, p);
    DoubledIs(ModSub(s0, yyyy, p), (X + q) * (X + q) - X * X - q * q, 2, p);
    CrossTerm(X, q);
  }

  lemma DoubleSlope(X: nat, Z: nat, a: nat, p: nat)
    requires p > 0
    ensures var xx, zz := (X * X) % p, (Z * Z) % p;
            var m := (xx * 3 + a * zz * zz) % p;
            Cong(m, 3 * (X * X) + a * ((Z * Z) * (Z * Z)), p) && m < p
  {
    hide Cong;
    var xx, zz := (X * X) % p, (Z * Z) % p;
    CongMod(X * X, p);
    CongMod(Z * Z, p);
    Multiply(xx, X * X, 3, p);
    CongMul(zz, Z * Z, zz, Z * Z, p);
    Multiply(zz * zz, (Z * Z) * (Z * Z), a, p);
    assert a * zz * zz == a * (zz * zz);
    CongAdd(xx * 3, X * X * 3, a * (zz * zz), a * ((Z * Z) * (Z * Z)), p);
    Reduced(xx * 3 + a * zz * zz, 3 * (X * X) + a * ((Z * Z) * (Z * Z)), p);
  }

  /** x = m^2 - 2s and y = m (s - x) - k, with every value reduced. */
  lemma DoubleEnd(m: nat, M: int, s: nat, S: int, yyyy: nat, K: int, p: nat)
    requires p > 0 && m < p && s < p && Cong(m, M, p) && Cong(s, S, p) && Cong(yyyy, K, p)
    ensures var x := ModSub((m * m) % p, (s * 2) % p, p);
            var y := ModSub((m * ModSub(s, x, p)) % p, (yyyy * 8) % p, p);
            x < p && y < p && Cong(x, M * M - 2 * S, p) && Cong(y, M * (S - x) - 8 * K, p)
  {
    hide Cong, ModSub;
    ProductIs(m, M, m, M, p);
    DoubledIs(s, S, 2, p);
    DifferenceIs((m * m) % p, M * M, (s * 2) % p, 2 * S, p);
    var x := ModSub((m * m) % p, (s * 2) % p, p);
    Same(x, p);
    DifferenceIs(s, S, x, x, p);
    ProductIs(m, M, ModSub(s, x, p), S - x, p);
    DoubledIs(yyyy, K, 8, p);
    DifferenceIs((m * ModSub(s, x, p)) % p, M * (S - x), (yyyy * 8) % p, 8 * K, p);
  }

  lemma ChangeTargets(x: nat, y: int, M: int, N: int, S: int, V: int, T: int, U: int, K: int, L: int, p: nat)
    requires p > 0 && Cong(x, M * M - T, p) && Cong(y, M * (S - x) - K, p)
    requires Cong(M, N, p) && Cong(S, V, p) && Cong(T, U, p) && Cong(K, L, p)
    ensures Cong(x, N * N - U, p) && Cong(y, N * (V - x) - L, p)
  {
    hide Cong;
    CongMul(M, N, M, N, p);
    CongSub(M * M, N * N, T, U, p);
    CongTransitive(x, M * M - T, N * N - U, p);
    Same(x, p);
    CongSub(S, V, x, x, p);
    CongMul(M, N, S - x, V - x, p);
    CongSub(M * (S - x), N * (V - x), K, L, p);
    CongTransitive(y, M * (S - x) - K, N * (V - x) - L, p);
  }

  lemma DoubleZ(Y: nat, Z: nat, p: nat)
    requires IsPrime(p) && p > 2 && 0 < Y < p && 0 < Z < p
    ensures Cong(((Y * Z) * 2) % p, 2 * (Y * Z), p) && 0 < ((Y * Z) * 2) % p < p
  {
    hide Cong;
    NonZeroTwo(p);
    NonZeroResidue(Y, p);
    NonZeroResidue(Z, p);
    NonZeroProduct(Y, Z, p);
    NonZeroProduct(2, Y * Z, p);
    CongMod((Y * Z) * 2, p);
    ZeroResidue((Y * Z) * 2, p);
  }

  lemma ZeroResidue(e: int, p: nat)
    requires p > 0
    ensures e % p == 0 <==> Cong(e, 0, p)
  {
  }

  /** A represented point has y = 0 exactly when its Y is 0. */
  lemma YVanishes(c: Curve, q: Jacobian, t: Affine)
    requires IsCurve(c) && Represents(c, q, t) && t.Point?
    ensures q.y == 0 <==> t.y == 0
  {
    hide Cong;
    var p := c.p;
    NonZeroResidue(q.z, p);
    NonZeroProduct(q.z, q.z, p);
    NonZeroProduct(q.z, q.z * q.z, p);
    var w := q.z * (q.z * q.z);
    if q.y == 0 && t.y != 0 {
      NonZeroResidue(t.y, p);
      NonZeroProduct(t.y, w, p);
      CongSymmetric(0, t.y * w, p);
    }
    if t.y == 0 {
      assert t.y * w == 0;
      if q.y != 0 {
        NonZeroResidue(q.y, p);
      }
    }
  }

  /** Doubling computes the sum of the represented point with itself. */
  lemma DoubleRepresents(c: Curve, q: Jacobian, t: Affine)
    requires IsCurve(c) && Represents(c, q, t)
    ensures Represents(c, Double(q, c.p, c.a), AffineAdd(c, t, t))
  {
    hide Scaled, Third, Tangent;
    if q.z != 0 {
      YVanishes(c, q, t);
      if q.y != 0 {
        DoubleTangent(c, q, t);
      }
    }
  }

  lemma DoubleTangent(c: Curve, q: Jacobian, t: Affine)
    requires IsCurve(c) && Represents(c, q, t) && q.z != 0 && q.y != 0 && t.y != 0
    ensures var d, s := Double(q, c.p, c.a), Third(c, Tangent(c, t.x, t.y), t.x, t.y, t.x);
            Below(d, c.p) && d.z != 0 && Scaled(d.x, d.y, d.z, s.x, s.y, c.p)
  {
    hide Cong, Third, Tangent, Double, Scaled;
    var l, d := Tangent(c, t.x, t.y), Double(q, c.p, c.a);
    TangentSlope(c, t.x, t.y);
    DoubleValues(q, c.p, c.a);
    DoubleTargets(c, q, t, l, d.x, d.y);
    var s := Third(c, l, t.x, t.y, t.x);
    ScaledByResidue(d.x, d.y, 2 * (q.y * q.z), d.z, s.x, s.y, c.p);
  }

  lemma DoubleValues(q: Jacobian, p: nat, a: nat)
    requires IsPrime(p) && p > 2 && Below(q, p) && q.z != 0 && q.y != 0
    ensures var d := Double(q, p, a);
            var M, S := 3 * (q.x * q.x) + a * ((q.z * q.z) * (q.z * q.z)), 4 * (q.x * (q.y * q.y));
            Below(d, p) && d.z != 0 && Cong(d.z, 2 * (q.y * q.z), p) &&
            Cong(d.x, M * M - 2 * S, p) && Cong(d.y, M * (S - d.x) - 8 * ((q.y * q.y) * (q.y * q.y)), p)
  {
    hide Cong, ModSub;
    var X, Y, Z := q.x, q.y, q.z;
    DoubleS(X, Y, p);
    DoubleSlope(X, Z, a, p);
    var xx, yy, zz := (X * X) % p, (Y * Y) % p, (Z * Z) % p;
    var m := (xx * 3 + a * zz * zz) % p;
    var yyyy, w := (yy * yy) % p, (X + yy) % p;
    var s := (ModSub(ModSub((w * w) % p, xx, p), yyyy, p) * 2) % p;
    DoubleEnd(m, 3 * (X * X) + a * ((Z * Z) * (Z * Z)), s, 4 * (X * (Y * Y)), yyyy, (Y * Y) * (Y * Y), p);
    DoubleZ(Y, Z, p);
  }

  lemma Twice(x: int, f: int)
    ensures 2 * (x * f) == (x + x) * f
  {
  }

  lemma DoubleTargets(c: Curve, q: Jacobian, t: Affine, l: nat, x: nat, y: nat)
    requires IsCurve(c) && Represents(c, q, t) && q.z != 0
    requires Cong(l * (2 * t.y), 3 * (t.x * t.x) + c.a, c.p)
    requires var M, S := 3 * (q.x * q.x) + c.a * ((q.z * q.z) * (q.z * q.z)), 4 * (q.x * (q.y * q.y));
             Cong(x, M * M - 2 * S, c.p) && Cong(y, M * (S - x) - 8 * ((q.y * q.y) * (q.y * q.y)), c.p)
    ensures var s := Third(c, l, t.x, t.y, t.x); Scaled(x, y, 2 * (q.y * q.z), s.x, s.y, c.p)
  {
    hide Cong, Third, IsPrime;
    var p, X, Y, Z := c.p, q.x, q.y, q.z;
    DoubleM(X, Y, Z, t.x, t.y, c.a, l, p);
    DoubleV(X, Y, Z, t.x, p);
    DoubleK(Y, Z, t.y, p);
    DoubleFinish(c, l, t.x, t.y, 2 * (Y * Z), 3 * (X * X) + c.a * ((Z * Z) * (Z * Z)), 4 * (X * (Y * Y)),
                 8 * ((Y * Y) * (Y * Y)), x, y);
  }

  lemma DoubleFinish(c: Curve, l: nat, x1: nat, y1: nat, W: int, M: int, S: int, K: int, x: nat, y: nat)
    requires c.p > 0 && Cong(x, M * M - 2 * S, c.p) && Cong(y, M * (S - x) - K, c.p)
    requires Cong(M, l * W, c.p) && Cong(S, x1 * (W * W), c.p) && Cong(K, y1 * (W * (W * W)), c.p)
    ensures var s := Third(c, l, x1, y1, x1); Scaled(x, y, W, s.x, s.y, c.p)
  {
    hide Cong, Third, Scaled;
    var V := x1 * (W * W);
    Multiply(S, V, 2, c.p);
    ChangeTargets(x, y, M, l * W, S, V, 2 * S, 2 * V, K, y1 * (W * (W * W)), c.p);
    Twice(x1, W * W);
    Finish(c, l, x1, y1, x1, W, x, y);
  }

  // ---------- Addition ----------

  lemma CommonSquare(x: int, z1: int, z2: int)
    ensures (x * (z1 * z1)) * (z2 * z2) == x * ((z1 * z2) * (z1 * z2))
  {
    MulInterchange(z1, z2, z1, z2);
  }

  lemma CommonCube(y: int, z1: int, z2: int)
    ensures ((y * (z1 * (z1 * z1))) * z2) * (z2 * z2) == y * ((z1 * z2) * ((z1 * z2) * (z1 * z2)))
  {
    MulInterchange(z1, z2, z1, z2);
    MulInterchange(z1, z2, z1 * z1, z2 * z2);
    var a, b := z1 * (z1 * z1), z2 * (z2 * z2);
    assert ((y * a) * z2) * (z2 * z2) == (y * a) * b == y * (a * b);
  }

  /** Scaled to the common denominator w = z1 z2: u = x w^2 and s = y w^3. */
  lemma CommonScale(X: nat, Y: nat, z1: nat, z2: nat, w: int, x: int, y: int, p: nat)
    requires p > 0 && Scaled(X, Y, z1, x, y, p) && (w == z1 * z2 || w == z2 * z1)
    ensures var zz := (z2 * z2) % p;
            Cong((X * zz) % p, x * (w * w), p) && Cong(((Y * z2) * zz) % p, y * (w * (w * w)), p)
  {
    hide Cong;
    assert w == z1 * z2;
    var zz := (z2 * z2) % p;
    CongMod(z2 * z2, p);
    ProductIs(X, x * (z1 * z1), zz, z2 * z2, p);
    CommonSquare(x, z1, z2);
    Multiply(Y, y * (z1 * (z1 * z1)), z2, p);
    ProductIs(Y * z2, (y * (z1 * (z1 * z1))) * z2, zz, z2 * z2, p);
    CommonCube(y, z1, z2);
  }

  /** Cross-multiplied coordinates agree exactly when the affine ones do. */
  lemma CrossEqual(u: nat, v: nat, x: nat, y: nat, s: int, p: nat)
    requires IsPrime(p) && u < p && v < p && x < p && y < p && !Cong(s, 0, p)
    requires Cong(u, x * s, p) && Cong(v, y * s, p)
    ensures u == v <==> x == y
  {
    hide Cong;
    if x == y {
      CongSymmetric(v, y * s, p);
      CongTransitive(u, x * s, v, p);
      CongOfResidues(u, v, p);
    }
    if u == v {
      CongSymmetric(u, x * s, p);
      CongTransitive(x * s, u, y * s, p);
      assert x * s == s * x && y * s == s * y;
      CancelFactor(p, s, x, y);
      CongOfResidues(x, y, p);
    }
  }

  /** The value of every step of the general addition. */
  lemma AddSteps(left: Jacobian, right: Jacobian, u1: nat, U1: int, u2: nat, U2: int, s1: nat, S1: int, s2: nat,
                 S2: int, p: nat)
    requires p > 0 && u1 < p && u2 < p && s1 < p && s2 < p
    requires Cong(u1, U1, p) && Cong(u2, U2, p) && Cong(s1, S1, p) && Cong(s2, S2, p)
    ensures var z1z1, z2z2 := (left.z * left.z) % p, (right.z * right.z) % p;
            var d := AddDistinct(left, right, u1, u2, s1, s2, z1z1, z2z2, p);
            var H := U2 - U1;
            var I, R := (2 * H) * (2 * H), 2 * (S2 - S1);
            Below(d, p) && Cong(d.z, (2 * (left.z * right.z)) * H, p) &&
            Cong(d.x, R * R - H * I - 2 * (U1 * I), p) && Cong(d.y, R * (U1 * I - d.x) - 2 * (S1 * (H * I)), p)
  {
    hide Cong, ModSub;
    var H := U2 - U1;
    DifferenceIs(u2, U2, u1, U1, p);
    var h := ModSub(u2, u1, p);
    DoubledIs(h, H, 2, p);
    var twoH := (h * 2) % p;
    ProductIs(twoH, 2 * H, twoH, 2 * H, p);
    var i, I := (twoH * twoH) % p, (2 * H) * (2 * H);
    ProductIs(h, H, i, I, p);
    DifferenceIs(s2, S2, s1, S1, p);
    DoubledIs(ModSub(s2, s1, p), S2 - S1, 2, p);
    ProductIs(u1, U1, i, I, p);
    AddEnd((ModSub(s2, s1, p) * 2) % p, 2 * (S2 - S1), (h * i) % p, H * I, (u1 * i) % p, U1 * I, s1, S1, p);
    AddZ(left.z, right.z, h, H, p);
  }

  lemma AddEnd(r: nat, R: int, j: nat, J: int, v: nat, V: int, s1: nat, S1: int, p: nat)
    requires p > 0 && r < p && j < p && v < p && s1 < p
    requires Cong(r, R, p) && Cong(j, J, p) && Cong(v, V, p) && Cong(s1, S1, p)
    ensures var x := ModSub(ModSub((r * r) % p, j, p), (v * 2) % p, p);
            var y := ModSub((r * ModSub(v, x, p)) % p, ((s1 * j) * 2) % p, p);
            x < p && y < p && Cong(x, R * R - J - 2 * V, p) && Cong(y, R * (V - x) - 2 * (S1 * J), p)
  {
    hide Cong, ModSub;
    ProductIs(r, R, r, R, p);
    DifferenceIs((r * r) % p, R * R, j, J, p);
    DoubledIs(v, V, 2, p);
    DifferenceIs(ModSub((r * r) % p, j, p), R * R - J, (v * 2) % p, 2 * V, p);
    var x := ModSub(ModSub((r * r) % p, j, p), (v * 2) % p, p);
    Same(x, p);
    DifferenceIs(v, V, x, x, p);
    ProductIs(r, R, ModSub(v, x, p), V - x, p);
    CongMul(s1, S1, j, J, p);
    DoubledIs(s1 * j, S1 * J, 2, p);
    DifferenceIs((r * ModSub(v, x, p)) % p, R * (V - x), ((s1 * j) * 2) % p, 2 * (S1 * J), p);
  }

  lemma SumSquare(a: int, b: int)
    ensures (a + b) * (a + b) - a * a - b * b == 2 * (a * b)
  {
  }

  lemma AddZ(z1: nat, z2: nat, h: nat, H: int, p: nat)
    requires p > 0 && h < p && Cong(h, H, p)
    ensures var zs := (z1 + z2) % p;
            var z := (ModSub(ModSub((zs * zs) % p, (z1 * z1) % p, p), (z2 * z2) % p, p) * h) % p;
            z < p && Cong(z, (2 * (z1 * z2)) * H, p)
  {
    hide Cong, ModSub;
    var zs := (z1 + z2) % p;
    CongMod(z1 + z2, p);
    CongMod(z1 * z1, p);
    CongMod(z2 * z2, p);
    ProductIs(zs, z1 + z2, zs, z1 + z2, p);
    var q := (z1 + z2) * (z1 + z2);
    DifferenceIs((zs * zs) % p, q, (z1 * z1) % p, z1 * z1, p);
    var a := ModSub((zs * zs) % p, (z1 * z1) % p, p);
    DifferenceIs(a, q - z1 * z1, (z2 * z2) % p, z2 * z2, p);
    SumSquare(z1, z2);
    ProductIs(ModSub(a, (z2 * z2) % p, p), 2 * (z1 * z2), h, H, p);
  }

  /** The integer identities behind the general addition: with H = (x2 - x1) w^2 and W = 2 w H,
      4 x1 w^2 H^2 = x1 W^2, 4 H^3 = (x2 - x1) W^2 and 8 y1 w^3 H^3 = y1 W^3. */
  lemma AddScale(x1: int, x2: int, y1: int, w: int, H: int, W: int)
    requires H == (x2 - x1) * (w * w) && W == (2 * w) * H
    ensures var I := (2 * H) * (2 * H);
            (x1 * (w * w)) * I == x1 * (W * W) && H * I == (x2 - x1) * (W * W) &&
            2 * ((y1 * (w * (w * w))) * (H * I)) == y1 * (W * (W * W))
  {
    var I, q := (2 * H) * (2 * H), w * w;
    assert W * W == q * I by {
      assert W == w * (2 * H);
      MulInterchange(w, 2 * H, w, 2 * H);
    }
    assert (x1 * q) * I == x1 * (q * I);
    assert H * I == (x2 - x1) * (q * I);
    assert 2 * ((w * q) * (H * I)) == W * (W * W) by {
      MulInterchange(w, q, H, I);
      assert 2 * ((w * H) * (q * I)) == W * (q * I) by {
        var e, f := w * H, q * I;
        assert W == 2 * e;
        assert 2 * (e * f) == (2 * e) * f;
      }
    }
    PullOut(y1, w * q, H * I);
  }

  lemma PullOut(y: int, a: int, b: int)
    ensures 2 * ((y * a) * b) == y * (2 * (a * b))
  {
    assert (y * a) * b == y * (a * b);
  }

  lemma ChordScale(l: int, d: int, e: int, w: int, H: int, p: nat)
    requires p > 0 && Cong(l * d, e, p) && H == d * (w * w)
    ensures Cong(2 * (e * (w * (w * w))), l * ((2 * w) * H), p)
  {
    hide Cong;
    var q := w * (w * w);
    Multiply(l * d, e, q, p);
    Multiply((l * d) * q, e * q, 2, p);
    CongSymmetric(2 * ((l * d) * q), 2 * (e * q), p);
    assert 2 * ((l * d) * q) == l * ((2 * w) * H) by {
      assert (2 * w) * H == 2 * (d * q) by {
        assert w * (d * (w * w)) == d * (w * (w * w));
      }
      assert l * (2 * (d * q)) == 2 * ((l * d) * q);
    }
  }

  lemma AddTargets(c: Curve, l: nat, x1: nat, y1: nat, x2: nat, y2: nat, w: int, x: nat, y: nat)
    requires c.p > 0 && Cong(l * (x2 - x1), y2 - y1, c.p)
    requires var q := w * w;
             var H, R := x2 * q - x1 * q, 2 * (y2 * (w * q) - y1 * (w * q));
             var I := (2 * H) * (2 * H);
             Cong(x, R * R - H * I - 2 * ((x1 * q) * I), c.p) &&
             Cong(y, R * ((x1 * q) * I - x) - 2 * ((y1 * (w * q)) * (H * I)), c.p)
    ensures var H := x2 * (w * w) - x1 * (w * w);
            var s := Third(c, l, x1, y1, x2); Scaled(x, y, (2 * w) * H, s.x, s.y, c.p)
  {
    hide Cong, Third, Scaled;
    var p, q := c.p, w * w;
    var H, R := x2 * q - x1 * q, 2 * (y2 * (w * q) - y1 * (w * q));
    assert H == (x2 - x1) * q;
    assert R == 2 * ((y2 - y1) * (w * q));
    var W, I := (2 * w) * H, (2 * H) * (2 * H);
    AddScale(x1, x2, y1, w, H, W);
    ChordScale(l, x2 - x1, y2 - y1, w, H, p);
    var V, T, K := (x1 * q) * I, H * I + 2 * ((x1 * q) * I), 2 * ((y1 * (w * q)) * (H * I));
    assert T == (x1 + x2) * (W * W) by {
      var f := W * W;
      assert (x2 - x1) * f + 2 * (x1 * f) == (x1 + x2) * f;
    }
    Same(V, p);
    Same(T, p);
    Same(K, p);
    ChangeTargets(x, y, R, l * W, V, V, T, T, K, K, p);
    Finish(c, l, x1, y1, x2, W, x, y);
  }

  lemma AddChord(c: Curve, left: Jacobian, t: Affine, right: Jacobian, s: Affine)
    requires IsCurve(c) && Represents(c, left, t) && Represents(c, right, s)
    requires t.Point? && s.Point? && t.x != s.x
    ensures Represents(c, Add(left, right, c.p, c.a), Third(c, Chord(c, t.x, t.y, s.x, s.y), t.x, t.y, s.x))
  {
    hide Cong, ModSub, Third, Chord, Double, AddDistinct;
    var p, z1, z2 := c.p, left.z, right.z;
    var w := z1 * z2;
    var q := w * w;
    var z1z1, z2z2 := (z1 * z1) % p, (z2 * z2) % p;
    CommonScale(left.x, left.y, z1, z2, w, t.x, t.y, p);
    CommonScale(right.x, right.y, z2, z1, w, s.x, s.y, p);
    var u1, u2 := (left.x * z2z2) % p, (right.x * z1z1) % p;
    var s1, s2 := ((left.y * z2) * z2z2) % p, ((right.y * z1) * z1z1) % p;
    ScaleNonZero(z1, z2, p);
    CrossEqual(u1, u2, t.x, s.x, q, p);
    AddSteps(left, right, u1, t.x * q, u2, s.x * q, s1, t.y * (w * q), s2, s.y * (w * q), p);
    var d := AddDistinct(left, right, u1, u2, s1, s2, z1z1, z2z2, p);
    assert d == Add(left, right, p, c.a);
    var l := Chord(c, t.x, t.y, s.x, s.y);
    ChordSlope(c, t.x, t.y, s.x, s.y);
    AddTargets(c, l, t.x, t.y, s.x, s.y, w, d.x, d.y);
    var H := s.x * q - t.x * q;
    AddZNonZero(t.x, s.x, w, q, d.z, p);
    var v := Third(c, l, t.x, t.y, s.x);
    ScaledByResidue(d.x, d.y, (2 * w) * H, d.z, v.x, v.y, p);
  }

  lemma ScaleNonZero(z1: nat, z2: nat, p: nat)
    requires IsPrime(p) && 0 < z1 < p && 0 < z2 < p
    ensures var w := z1 * z2; !Cong(w, 0, p) && !Cong(w * w, 0, p) && !Cong(w * (w * w), 0, p)
  {
    hide Cong;
    var w := z1 * z2;
    NonZeroResidue(z1, p);
    NonZeroResidue(z2, p);
    NonZeroProduct(z1, z2, p);
    NonZeroProduct(w, w, p);
    NonZeroProduct(w, w * w, p);
  }

  lemma AddZNonZero(x1: nat, x2: nat, w: int, q: int, z: nat, p: nat)
    requires IsPrime(p) && p > 2 && x1 < p && x2 < p && x1 != x2
    requires !Cong(w, 0, p) && !Cong(q, 0, p) && Cong(z, (2 * w) * (x2 * q - x1 * q), p)
    ensures z != 0
  {
    hide Cong;
    DistinctResidues(x1, x2, p);
    NonZeroProduct(x2 - x1, q, p);
    assert (x2 - x1) * q == x2 * q - x1 * q;
    NonZeroTwo(p);
    NonZeroProduct(2, w, p);
    NonZeroProduct(2 * w, (x2 - x1) * q, p);
    if z == 0 {
      CongSymmetric(z, (2 * w) * (x2 * q - x1 * q), p);
    }
  }

  lemma AddSameX(c: Curve, left: Jacobian, t: Affine, right: Jacobian, s: Affine)
    requires IsCurve(c) && Represents(c, left, t) && Represents(c, right, s)
    requires t.Point? && s.Point? && t.x == s.x
    ensures Add(left, right, c.p, c.a) == if t.y == s.y then Double(left, c.p, c.a) else AtInfinity
  {
    hide Cong, ModSub, Double, AddDistinct;
    CrossCoordinates(c, left, t, right, s);
  }

  /** The source's two comparisons compare the affine coordinates. */
  lemma CrossCoordinates(c: Curve, left: Jacobian, t: Affine, right: Jacobian, s: Affine)
    requires IsCurve(c) && Represents(c, left, t) && Represents(c, right, s) && t.Point? && s.Point?
    ensures var z1z1, z2z2 := (left.z * left.z) % c.p, (right.z * right.z) % c.p;
            ((left.x * z2z2) % c.p == (right.x * z1z1) % c.p) == (t.x == s.x) &&
            (((left.y * right.z) * z2z2) % c.p == ((right.y * left.z) * z1z1) % c.p) == (t.y == s.y)
  {
    hide Cong, Scaled, IsPrime;
    CrossScaled(left.x, left.y, left.z, t.x, t.y, right.x, right.y, right.z, s.x, s.y, c.p);
  }

  function CrossX(X: nat, z: nat, p: nat): (u: nat)
    requires p > 0
    ensures u < p
  {
    (X * ((z * z) % p)) % p
  }

  function CrossY(Y: nat, z: nat, p: nat): (u: nat)
    requires p > 0
    ensures u < p
  {
    ((Y * z) * ((z * z) % p)) % p
  }

  lemma CrossScaled(X1: nat, Y1: nat, z1: nat, x1: nat, y1: nat, X2: nat, Y2: nat, z2: nat, x2: nat, y2: nat, p: nat)
    requires IsPrime(p) && 0 < z1 < p && 0 < z2 < p && x1 < p && y1 < p && x2 < p && y2 < p
    requires Scaled(X1, Y1, z1, x1, y1, p) && Scaled(X2, Y2, z2, x2, y2, p)
    ensures (CrossX(X1, z2, p) == CrossX(X2, z1, p)) == (x1 == x2)
    ensures (CrossY(Y1, z2, p) == CrossY(Y2, z1, p)) == (y1 == y2)
  {
    hide Cong, Scaled, CrossX, CrossY, IsPrime;
    var w := z1 * z2;
    CrossCong(X1, Y1, z1, z2, w, x1, y1, p);
    CrossCong(X2, Y2, z2, z1, w, x2, y2, p);
    ScaleNonZero(z1, z2, p);
    CrossEqual(CrossX(X1, z2, p), CrossX(X2, z1, p), x1, x2, w * w, p);
    CrossEqual(CrossY(Y1, z2, p), CrossY(Y2, z1, p), y1, y2, w * (w * w), p);
  }

  lemma CrossCong(X: nat, Y: nat, z1: nat, z2: nat, w: int, x: int, y: int, p: nat)
    requires p > 0 && Scaled(X, Y, z1, x, y, p) && (w == z1 * z2 || w == z2 * z1)
    ensures Cong(CrossX(X, z2, p), x * (w * w), p) && Cong(CrossY(Y, z2, p), y * (w * (w * w)), p)
  {
    hide Cong, Scaled;
    CommonScale(X, Y, z1, z2, w, x, y, p);
  }

  /** Addition computes the affine sum in every case: either operand at infinity, equal points,
      opposite points, a point with y = 0, and the chord. */
  lemma AddRepresents(c: Curve, left: Jacobian, t: Affine, right: Jacobian, s: Affine)
    requires IsCurve(c) && Represents(c, left, t) && Represents(c, right, s)
    ensures Represents(c, Add(left, right, c.p, c.a), AffineAdd(c, t, s))
  {
    hide Scaled, Third, Tangent, Chord, Double;
    if left.z != 0 && right.z != 0 {
      hide Add;
      if t.x == s.x {
        AddSameX(c, left, t, right, s);
        if t.y == s.y {
          DoubleRepresents(c, left, t);
        }
      } else {
        AddChord(c, left, t, right, s);
      }
    }
  }

  // ---------- In terms of ToAffine ----------

  lemma InverseSquare(z: nat, i: nat, p: nat)
    requires p > 0 && Cong(z * i, 1, p)
    ensures Cong((i * i) * (z * z), 1, p) && Cong((i * (i * i)) * (z * (z * z)), 1, p)
  {
    hide Cong;
    CongMul(z * i, 1, z * i, 1, p);
    MulInterchange(z, i, z, i);
    assert (i * i) * (z * z) == (z * z) * (i * i);
    CongMul(z * i, 1, (z * z) * (i * i), 1, p);
    MulInterchange(z, i, z * z, i * i);
    assert (i * (i * i)) * (z * (z * z)) == (z * (z * z)) * (i * (i * i));
  }

  /** Dividing by d and multiplying by s gives the number back when d s = 1. */
  lemma DivideMultiply(X: nat, d: int, s: int, p: nat)
    requires p > 0 && Cong(d * s, 1, p)
    ensures Cong(X, ((X * d) % p) * s, p)
  {
    hide Cong;
    CongMod(X * d, p);
    Multiply((X * d) % p, X * d, s, p);
    Multiply(d * s, 1, X, p);
    assert X * (d * s) == (X * d) * s;
    CongTransitive(((X * d) % p) * s, (X * d) * s, X, p);
    CongSymmetric(((X * d) % p) * s, X, p);
  }

  lemma ToAffineRepresented(c: Curve, q: Jacobian)
    requires IsCurve(c) && Below(q, c.p)
    ensures Represents(c, q, ToAffine(c, q))
  {
    hide Cong, Inverse;
    if q.z != 0 {
      var i := Inverse(q.z, c.p);
      NonZeroResidue(q.z, c.p);
      InverseIsInverse(q.z, c.p);
      InverseSquare(q.z, i, c.p);
      DivideMultiply(q.x, i * i, q.z * q.z, c.p);
      DivideMultiply(q.y, i * (i * i), q.z * (q.z * q.z), c.p);
    }
  }

  lemma SameQuotient(X: int, x: nat, y: nat, s: int, p: nat)
    requires IsPrime(p) && x < p && y < p && !Cong(s, 0, p) && Cong(X, x * s, p) && Cong(X, y * s, p)
    ensures x == y
  {
    hide Cong;
    CongSymmetric(X, x * s, p);
    CongTransitive(x * s, X, y * s, p);
    assert x * s == s * x && y * s == s * y;
    CancelFactor(p, s, x, y);
    CongOfResidues(x, y, p);
  }

  /** A Jacobian point represents exactly one affine point. */
  lemma RepresentedIsToAffine(c: Curve, q: Jacobian, t: Affine)
    requires IsCurve(c) && Represents(c, q, t)
    ensures t == ToAffine(c, q)
  {
    hide Cong, ToAffine;
    ToAffineRepresented(c, q);
    if q.z != 0 {
      var p, z, a := c.p, q.z, ToAffine(c, q);
      NonZeroResidue(z, p);
      NonZeroProduct(z, z, p);
      NonZeroProduct(z, z * z, p);
      SameQuotient(q.x, t.x, a.x, z * z, p);
      SameQuotient(q.y, t.y, a.y, z * (z * z), p);
    }
  }

  lemma CubeOfScaled(x: int, s: int)
    ensures (x * s) * (x * s) * (x * s) == (x * x * x) * (s * (s * s))
  {
    assert (x * s) * (x * s) == (x * x) * (s * s);
    MulInterchange(x * x, s * s, x, s);
    assert (s * s) * s == s * (s * s);
  }

  lemma EquationScale(c: Curve, x: int, s: int)
    ensures (x * s) * (x * s) * (x * s) + c.a * ((x * s) * (s * s)) + c.b * (s * (s * s)) == Rhs(c, x) * (s * (s * s))
  {
    var k, u := s * (s * s), x * x * x;
    CubeOfScaled(x, s);
    assert (x * s) * (s * s) == x * k;
    assert c.a * (x * k) == (c.a * x) * k;
    assert (u + c.a * x + c.b) * k == u * k + (c.a * x) * k + c.b * k;
  }

  lemma SixthPower(y: int, z: int)
    ensures (y * (z * (z * z))) * (y * (z * (z * z))) == (y * y) * ((z * z) * ((z * z) * (z * z)))
  {
    var k, q := z * (z * z), z * z;
    MulInterchange(y, k, y, k);
    MulInterchange(z, q, z, q);
  }

  /** The Jacobian equation's right-hand side is Rhs(x) z^6. */
  lemma EquationTarget(c: Curve, X: int, x: int, s: int)
    requires c.p > 0 && Cong(X, x * s, c.p)
    ensures Cong(X * X * X + c.a * (X * (s * s)) + c.b * (s * (s * s)), Rhs(c, x) * (s * (s * s)), c.p)
  {
    hide Cong;
    var p, e := c.p, x * s;
    CongMul(X, e, X, e, p);
    CongMul(X * X, e * e, X, e, p);
    Multiply(X, e, s * s, p);
    Multiply(X * (s * s), e * (s * s), c.a, p);
    CongAdd(X * X * X, e * e * e, c.a * (X * (s * s)), c.a * (e * (s * s)), p);
    Same(c.b * (s * (s * s)), p);
    CongAdd(X * X * X + c.a * (X * (s * s)), e * e * e + c.a * (e * (s * s)), c.b * (s * (s * s)),
            c.b * (s * (s * s)), p);
    EquationScale(c, x, s);
  }

  lemma ScaledEquation(L: int, R: int, l: int, r: int, k: int, p: nat)
    requires IsPrime(p) && !Cong(k, 0, p) && Cong(L, l * k, p) && Cong(R, r * k, p)
    ensures Cong(L, R, p) == Cong(l, r, p)
  {
    hide Cong;
    if Cong(l, r, p) {
      Multiply(l, r, k, p);
      CongTransitive(L, l * k, r * k, p);
      CongSymmetric(R, r * k, p);
      CongTransitive(L, r * k, R, p);
    }
    if Cong(L, R, p) {
      CongSymmetric(L, l * k, p);
      CongTransitive(l * k, L, R, p);
      CongTransitive(l * k, R, r * k, p);
      assert l * k == k * l && r * k == k * r;
      CancelFactor(p, k, l, r);
    }
  }

  /** A reduced Jacobian point satisfies its curve equation exactly when its affine point does. */
  lemma CurveEquation(c: Curve, q: Jacobian)
    requires IsCurve(c) && Below(q, c.p)
    ensures OnJacobianCurve(c, q) == OnCurve(c, ToAffine(c, q))
  {
    hide Cong, ToAffine, Rhs;
    ToAffineRepresented(c, q);
    if q.z != 0 {
      var p, z, t := c.p, q.z, ToAffine(c, q);
      var s := z * z;
      NonZeroResidue(z, p);
      NonZeroProduct(z, z, p);
      NonZeroProduct(s, s, p);
      NonZeroProduct(s, s * s, p);
      var e := t.y * (z * s);
      CongMul(q.y, e, q.y, e, p);
      SixthPower(t.y, z);
      EquationTarget(c, q.x, t.x, s);
      ScaledEquation(q.y * q.y, q.x * q.x * q.x + c.a * (q.x * (s * s)) + c.b * (s * (s * s)),
                     t.y * t.y, Rhs(c, t.x), s * (s * s), p);
    }
  }

  /** Addition of reduced curve points: the result is reduced, satisfies the curve equation, has
      z = 0 exactly when the sum is the point at infinity, and projects to the affine sum. */
  lemma AddIsGroupSum(c: Curve, left: Jacobian, right: Jacobian)
    requires IsCurve(c) && Below(left, c.p) && Below(right, c.p) && OnJacobianCurve(c, left) &&
             OnJacobianCurve(c, right)
    ensures var sum := Add(left, right, c.p, c.a);
            Below(sum, c.p) && OnJacobianCurve(c, sum) &&
            ToAffine(c, sum) == AffineAdd(c, ToAffine(c, left), ToAffine(c, right)) &&
            (sum.z == 0 <==> AffineAdd(c, ToAffine(c, left), ToAffine(c, right)).Infinity?)
  {
    hide Add, AffineAdd, OnCurve, OnJacobianCurve;
    ToAffineRepresented(c, left);
    ToAffineRepresented(c, right);
    AddRepresents(c, left, ToAffine(c, left), right, ToAffine(c, right));
    var sum := Add(left, right, c.p, c.a);
    RepresentedIsToAffine(c, sum, AffineAdd(c, ToAffine(c, left), ToAffine(c, right)));
    CurveEquation(c, left);
    CurveEquation(c, right);
    SumOnCurve(c, ToAffine(c, left), ToAffine(c, right));
    CurveEquation(c, sum);
  }

  /** The same for doubling. */
  lemma DoubleIsGroupSum(c: Curve, q: Jacobian)
    requires IsCurve(c) && Below(q, c.p) && OnJacobianCurve(c, q)
    ensures var sum := Double(q, c.p, c.a);
            Below(sum, c.p) && OnJacobianCurve(c, sum) &&
            ToAffine(c, sum) == AffineAdd(c, ToAffine(c, q), ToAffine(c, q)) &&
            (sum.z == 0 <==> AffineAdd(c, ToAffine(c, q), ToAffine(c, q)).Infinity?)
  {
    hide Double, AffineAdd, OnCurve, OnJacobianCurve;
    ToAffineRepresented(c, q);
    DoubleRepresents(c, q, ToAffine(c, q));
    var sum := Double(q, c.p, c.a);
    RepresentedIsToAffine(c, sum, AffineAdd(c, ToAffine(c, q), ToAffine(c, q)));
    CurveEquation(c, q);
    SumOnCurve(c, ToAffine(c, q), ToAffine(c, q));
    CurveEquation(c, sum);
  }
}
