/** Points of y^2 = x^3 + a*x + b over a prime field with the chord-and-tangent sum. */
module AffineCurve {
  import opened Arithmetic
  import opened Primes
  import opened CurveField

  datatype Curve = Curve(p: nat, a: nat, b: nat)

  datatype Affine = Infinity | Point(x: nat, y: nat)

  ghost predicate IsCurve(c: Curve) { c.p > 3 && IsPrime(c.p) }

  function Rhs(c: Curve, x: int): int { x * x * x + c.a * x + c.b }

  ghost predicate OnCurve(c: Curve, q: Affine)
    requires c.p > 0
  {
    q.Infinity? || (q.x < c.p && q.y < c.p && Cong(q.y * q.y, Rhs(c, q.x), c.p))
  }

  function Chord(c: Curve, x1: nat, y1: nat, x2: nat, y2: nat): (l: nat)
    requires c.p > 2
    ensures l < c.p
  {
    ((y2 - y1) * Inverse(x2 - x1, c.p)) % c.p
  }

  function Tangent(c: Curve, x: nat, y: nat): (l: nat)
    requires c.p > 2
    ensures l < c.p
  {
    ((3 * (x * x) + c.a) * Inverse(2 * y, c.p)) % c.p
  }

  /** The third intersection of the line of slope l through (x1, y1), reflected. */
  function Third(c: Curve, l: nat, x1: nat, y1: nat, x2: nat): (q: Affine)
    requires c.p > 0
    ensures q.Point? && q.x < c.p && q.y < c.p
  {
    var x3 := (l * l - x1 - x2) % c.p;
    Point(x3, (l * (x1 - x3) - y1) % c.p)
  }

  /** The group operation. */
  function AffineAdd(c: Curve, q: Affine, r: Affine): Affine
    requires c.p > 2
  {
    if q.Infinity? then r
    else if r.Infinity? then q
    else if q.x == r.x then
      if q.y == r.y && q.y != 0 then Third(c, Tangent(c, q.x, q.y), q.x, q.y, q.x) else Infinity
    else Third(c, Chord(c, q.x, q.y, r.x, r.y), q.x, q.y, r.x)
  }

  // ---------- Slopes ----------

  lemma ChordSlope(c: Curve, x1: nat, y1: nat, x2: nat, y2: nat)
    requires IsCurve(c) && x1 < c.p && x2 < c.p && x1 != x2
    ensures Cong(Chord(c, x1, y1, x2, y2) * (x2 - x1), y2 - y1, c.p)
  {
    hide Cong;
    DistinctResidues(x1, x2, c.p);
    QuotientTimesDivisor(y2 - y1, x2 - x1, c.p);
  }

  lemma TangentSlope(c: Curve, x: nat, y: nat)
    requires IsCurve(c) && 0 < y < c.p
    ensures Cong(Tangent(c, x, y) * (2 * y), 3 * (x * x) + c.a, c.p)
  {
    hide Cong;
    NonZeroTwo(c.p);
    NonZeroResidue(y, c.p);
    NonZeroProduct(2, y, c.p);
    QuotientTimesDivisor(3 * (x * x) + c.a, 2 * y, c.p);
  }

  // ---------- The sum stays on the curve ----------

  /** The line's cofactor: (x - x1) * LineCofactor(x) = (Rhs(x) - line(x)^2) - (Rhs(x1) - y1^2). */
  ghost function LineCofactor(a: int, l: int, x1: int, y1: int, x: int): int {
    (x * x + x * x1 + x1 * x1) + a - 2 * (l * y1) - (l * l) * (x - x1)
  }

  lemma CubeDifference(x: int, y: int)
    ensures x * x * x - y * y * y == (x - y) * (x * x + x * y + y * y)
  {
    var s := x * x + x * y + y * y;
    assert x * s == x * x * x + x * x * y + x * y * y;
    assert y * s == x * x * y + x * y * y + y * y * y;
  }

  lemma SquareOfLine(y1: int, l: int, d: int)
    ensures (y1 + l * d) * (y1 + l * d) - y1 * y1 == d * (2 * (l * y1)) + d * ((l * l) * d)
  {
    var m := l * d;
    assert (y1 + m) * (y1 + m) == y1 * y1 + 2 * (y1 * m) + m * m;
    assert y1 * m == d * (l * y1);
    assert m * m == d * ((l * l) * d);
  }

  lemma LineIdentity(c: Curve, l: int, x1: int, y1: int, x: int)
    ensures (Rhs(c, x) - (y1 + l * (x - x1)) * (y1 + l * (x - x1))) - (Rhs(c, x1) - y1 * y1)
         == (x - x1) * LineCofactor(c.a, l, x1, y1, x)
  {
    var d := x - x1;
    CubeDifference(x, x1);
    SquareOfLine(y1, l, d);
    var cube, t, u := x * x + x * x1 + x1 * x1, 2 * (l * y1), (l * l) * d;
    assert c.a * x - c.a * x1 == d * c.a;
    assert d * (cube + c.a - t - u) == d * cube + d * c.a - d * t - d * u;
  }

  lemma CofactorDifference(a: int, l: int, x1: int, y1: int, x2: int, x: int)
    ensures LineCofactor(a, l, x1, y1, x) - LineCofactor(a, l, x1, y1, x2) == (x - x2) * (x + x2 + x1 - l * l)
  {
    var k := l * l;
    assert k * (x - x1) - k * (x2 - x1) == k * (x - x2);
    assert (x - x2) * (x + x2) == x * x - x2 * x2;
    assert (x - x2) * x1 == x * x1 - x2 * x1;
    assert (x - x2) * (x + x2 + x1 - k) == (x - x2) * (x + x2) + (x - x2) * x1 - (x - x2) * k;
  }

  /** Whenever the cofactor vanishes at x2, it vanishes at the third point. */
  lemma CofactorAtThird(c: Curve, l: nat, x1: nat, y1: nat, x2: nat)
    requires c.p > 0 && Cong(LineCofactor(c.a, l, x1, y1, x2), 0, c.p)
    ensures Cong(LineCofactor(c.a, l, x1, y1, Third(c, l, x1, y1, x2).x), 0, c.p)
  {
    hide Cong, LineCofactor;
    var p := c.p;
    var x3 := Third(c, l, x1, y1, x2).x;
    var e := l * l - x1 - x2;
    CongMod(e, p);
    Same(x2 + x1 - l * l, p);
    CongAdd(x3, e, x2 + x1 - l * l, x2 + x1 - l * l, p);
    assert x3 + (x2 + x1 - l * l) == x3 + x2 + x1 - l * l;
    Same(x3 - x2, p);
    CongMul(x3 - x2, x3 - x2, x3 + x2 + x1 - l * l, 0, p);
    CofactorDifference(c.a, l, x1, y1, x2, x3);
    var g2, g3 := LineCofactor(c.a, l, x1, y1, x2), LineCofactor(c.a, l, x1, y1, x3);
    CongAdd((x3 - x2) * (x3 + x2 + x1 - l * l), 0, g2, 0, p);
  }

  lemma ThirdOnCurve(c: Curve, l: nat, x1: nat, y1: nat, x2: nat)
    requires c.p > 0 && Cong(y1 * y1, Rhs(c, x1), c.p) && Cong(LineCofactor(c.a, l, x1, y1, x2), 0, c.p)
    ensures OnCurve(c, Third(c, l, x1, y1, x2))
  {
    hide Cong, LineCofactor, Rhs;
    var p := c.p;
    var third := Third(c, l, x1, y1, x2);
    var x3, y3 := third.x, third.y;
    CofactorAtThird(c, l, x1, y1, x2);
    var g := LineCofactor(c.a, l, x1, y1, x3);
    var line := y1 + l * (x3 - x1);
    LineIdentity(c, l, x1, y1, x3);
    Same(x3 - x1, p);
    CongMul(x3 - x1, x3 - x1, g, 0, p);
    CurveFromLine(Rhs(c, x3), line, Rhs(c, x1), y1, (x3 - x1) * g, p);
    var e := l * (x1 - x3) - y1;
    CongMod(e, p);
    assert e == -line by { assert l * (x1 - x3) == -(l * (x3 - x1)); }
    SquareOfNegated(y3, line, p);
    CongTransitive(y3 * y3, line * line, Rhs(c, x3), p);
  }

  lemma CurveFromLine(rhs3: int, line: int, rhs1: int, y1: int, d: int, p: nat)
    requires p > 0 && Cong(y1 * y1, rhs1, p) && Cong(d, 0, p)
    requires (rhs3 - line * line) - (rhs1 - y1 * y1) == d
    ensures Cong(line * line, rhs3, p)
  {
    var k := CongQuotient(y1 * y1, rhs1, p);
    var m := CongQuotient(d, 0, p);
    assert line * line - rhs3 == p * (k - m);
    CongIntro(line * line, rhs3, p, k - m);
  }

  lemma SquareOfNegated(y: int, line: int, p: nat)
    requires p > 0 && Cong(y, -line, p)
    ensures Cong(y * y, line * line, p)
  {
    CongMul(y, -line, y, -line, p);
    assert -line * -line == line * line;
  }

  lemma ChordCofactor(c: Curve, l: nat, x1: nat, y1: nat, x2: nat, y2: nat)
    requires IsCurve(c) && x1 < c.p && x2 < c.p && x1 != x2
    requires Cong(y1 * y1, Rhs(c, x1), c.p) && Cong(y2 * y2, Rhs(c, x2), c.p)
    requires Cong(l * (x2 - x1), y2 - y1, c.p)
    ensures Cong(LineCofactor(c.a, l, x1, y1, x2), 0, c.p)
  {
    hide Cong, LineCofactor, Rhs;
    var p := c.p;
    var g := LineCofactor(c.a, l, x1, y1, x2);
    var line := y1 + l * (x2 - x1);
    LineIdentity(c, l, x1, y1, x2);
    Same(y1, p);
    CongAdd(y1, y1, l * (x2 - x1), y2 - y1, p);
    CongMul(line, y2, line, y2, p);
    CongTransitive(line * line, y2 * y2, Rhs(c, x2), p);
    VanishingDifference(Rhs(c, x2), line * line, Rhs(c, x1), y1 * y1, p);
    DistinctResidues(x1, x2, p);
    ZeroProduct(p, x2 - x1, g);
  }

  lemma VanishingDifference(r2: int, s2: int, r1: int, s1: int, p: nat)
    requires p > 0 && Cong(s2, r2, p) && Cong(s1, r1, p)
    ensures Cong((r2 - s2) - (r1 - s1), 0, p)
  {
    var k := CongQuotient(s2, r2, p);
    var m := CongQuotient(s1, r1, p);
    assert (r2 - s2) - (r1 - s1) == p * (m - k);
    CongIntro((r2 - s2) - (r1 - s1), 0, p, m - k);
  }

  lemma TangentCofactor(c: Curve, l: nat, x: nat, y: nat)
    requires c.p > 0 && Cong(l * (2 * y), 3 * (x * x) + c.a, c.p)
    ensures Cong(LineCofactor(c.a, l, x, y, x), 0, c.p)
  {
    var k := CongQuotient(l * (2 * y), 3 * (x * x) + c.a, c.p);
    assert l * (2 * y) == 2 * (l * y);
    assert (l * l) * (x - x) == 0;
    assert LineCofactor(c.a, l, x, y, x) == c.p * -k;
    CongIntro(LineCofactor(c.a, l, x, y, x), 0, c.p, -k);
  }

  /** The sum of two curve points is a curve point. */
  lemma SumOnCurve(c: Curve, q: Affine, r: Affine)
    requires IsCurve(c) && OnCurve(c, q) && OnCurve(c, r)
    ensures OnCurve(c, AffineAdd(c, q, r))
  {
    hide Cong, Chord, Tangent, Third, Rhs;
    if q.Point? && r.Point? {
      if q.x != r.x {
        var l := Chord(c, q.x, q.y, r.x, r.y);
        ChordSlope(c, q.x, q.y, r.x, r.y);
        ChordCofactor(c, l, q.x, q.y, r.x, r.y);
        ThirdOnCurve(c, l, q.x, q.y, r.x);
      } else if q.y == r.y && q.y != 0 {
        var l := Tangent(c, q.x, q.y);
        TangentSlope(c, q.x, q.y);
        TangentCofactor(c, l, q.x, q.y);
        ThirdOnCurve(c, l, q.x, q.y, q.x);
      }
    }
  }

  // ---------- Commutativity ----------

  lemma ChordSymmetric(c: Curve, x1: nat, y1: nat, x2: nat, y2: nat)
    requires IsCurve(c) && x1 < c.p && x2 < c.p && x1 != x2
    ensures Chord(c, x1, y1, x2, y2) == Chord(c, x2, y2, x1, y1)
  {
    hide Cong, Chord;
    var p, l, m := c.p, Chord(c, x1, y1, x2, y2), Chord(c, x2, y2, x1, y1);
    ChordSlope(c, x1, y1, x2, y2);
    ChordSlope(c, x2, y2, x1, y1);
    DistinctResidues(x1, x2, p);
    SameSlope(l, m, x2 - x1, x1 - x2, y2 - y1, y1 - y2, p);
  }

  lemma SameSlope(l: nat, m: nat, d: int, f: int, e: int, g: int, p: nat)
    requires IsPrime(p) && l < p && m < p && !Cong(d, 0, p) && f == -d && g == -e
    requires Cong(l * d, e, p) && Cong(m * f, g, p)
    ensures l == m
  {
    hide Cong, IsPrime;
    Same(0, p);
    CongSub(0, 0, m * f, g, p);
    assert 0 - m * f == m * d;
    CongSymmetric(m * d, e, p);
    CongTransitive(l * d, e, m * d, p);
    assert l * d == d * l && m * d == d * m;
    CancelFactor(p, d, l, m);
    CongOfResidues(l, m, p);
  }

  lemma ThirdSymmetric(c: Curve, l: nat, x1: nat, y1: nat, x2: nat, y2: nat)
    requires c.p > 0 && Cong(l * (x2 - x1), y2 - y1, c.p)
    ensures Third(c, l, x1, y1, x2) == Third(c, l, x2, y2, x1)
  {
    var p := c.p;
    var x3 := (l * l - x1 - x2) % p;
    var k := CongQuotient(l * (x2 - x1), y2 - y1, p);
    assert (l * (x2 - x3) - y2) - (l * (x1 - x3) - y1) == p * k by {
      assert l * (x2 - x3) - l * (x1 - x3) == l * (x2 - x1);
    }
    CongIntro(l * (x2 - x3) - y2, l * (x1 - x3) - y1, p, k);
    CongIsEqualRemainder(l * (x2 - x3) - y2, l * (x1 - x3) - y1, p);
  }

  /** The chord-and-tangent sum is commutative. */
  lemma SumCommutes(c: Curve, q: Affine, r: Affine)
    requires IsCurve(c) && OnCurve(c, q) && OnCurve(c, r)
    ensures AffineAdd(c, q, r) == AffineAdd(c, r, q)
  {
    hide Cong, Chord, Tangent, Third, Rhs;
    if q.Point? && r.Point? && q.x != r.x {
      ChordSymmetric(c, q.x, q.y, r.x, r.y);
      ChordSlope(c, q.x, q.y, r.x, r.y);
      ThirdSymmetric(c, Chord(c, q.x, q.y, r.x, r.y), q.x, q.y, r.x, r.y);
    }
  }

  // ---------- Multiples, given associativity ----------

  /** The one group law taken as a hypothesis. */
  ghost predicate IsAssociative(c: Curve)
    requires c.p > 2
  {
    forall q, r, s :: OnCurve(c, q) && OnCurve(c, r) && OnCurve(c, s) ==>
      AffineAdd(c, AffineAdd(c, q, r), s) == AffineAdd(c, q, AffineAdd(c, r, s))
  }

  ghost predicate IsGroup(c: Curve) { IsCurve(c) && IsAssociative(c) }

  /** k times q. */
  function Times(c: Curve, k: nat, q: Affine): Affine
    requires c.p > 2
  {
    if k == 0 then Infinity else AffineAdd(c, Times(c, k - 1, q), q)
  }

  lemma {:induction false} TimesOnCurve(c: Curve, k: nat, q: Affine)
    requires IsCurve(c) && OnCurve(c, q)
    ensures OnCurve(c, Times(c, k, q))
  {
    hide OnCurve, AffineAdd;
    if k == 0 {
      InfinityOnCurve(c);
    } else {
      TimesOnCurve(c, k - 1, q);
      SumOnCurve(c, Times(c, k - 1, q), q);
    }
  }

  lemma InfinityOnCurve(c: Curve)
    requires c.p > 0
    ensures OnCurve(c, Infinity)
  {
  }

  lemma Associate(c: Curve, q: Affine, r: Affine, s: Affine)
    requires IsGroup(c) && OnCurve(c, q) && OnCurve(c, r) && OnCurve(c, s)
    ensures AffineAdd(c, AffineAdd(c, q, r), s) == AffineAdd(c, q, AffineAdd(c, r, s))
  {
  }

  /** (q + r) + (s + t) = (q + s) + (r + t). */
  lemma Interchange(c: Curve, q: Affine, r: Affine, s: Affine, t: Affine)
    requires IsGroup(c) && OnCurve(c, q) && OnCurve(c, r) && OnCurve(c, s) && OnCurve(c, t)
    ensures AffineAdd(c, AffineAdd(c, q, r), AffineAdd(c, s, t)) == AffineAdd(c, AffineAdd(c, q, s), AffineAdd(c, r, t))
  {
    hide OnCurve, AffineAdd, IsAssociative;
    SumOnCurve(c, s, t);
    SumOnCurve(c, r, t);
    Associate(c, q, r, AffineAdd(c, s, t));
    Associate(c, q, s, AffineAdd(c, r, t));
    Associate(c, r, s, t);
    SumCommutes(c, r, s);
    Associate(c, s, r, t);
  }

  lemma SumWithInfinity(c: Curve, q: Affine)
    requires c.p > 2
    ensures AffineAdd(c, q, Infinity) == q && AffineAdd(c, Infinity, q) == q
  {
  }

  lemma {:induction false} TimesSum(c: Curve, k: nat, l: nat, q: Affine)
    requires IsGroup(c) && OnCurve(c, q)
    ensures Times(c, k + l, q) == AffineAdd(c, Times(c, k, q), Times(c, l, q))
    decreases l
  {
    hide OnCurve, AffineAdd, IsAssociative;
    if l == 0 {
      SumWithInfinity(c, Times(c, k, q));
    } else {
      TimesSum(c, k, l - 1, q);
      TimesOnCurve(c, k, q);
      TimesOnCurve(c, l - 1, q);
      Associate(c, Times(c, k, q), Times(c, l - 1, q), q);
    }
  }

  lemma {:induction false} TimesTimes(c: Curve, k: nat, l: nat, q: Affine)
    requires IsGroup(c) && OnCurve(c, q)
    ensures k * l >= 0 && Times(c, k, Times(c, l, q)) == Times(c, k * l, q)
    decreases k
  {
    hide OnCurve, AffineAdd, IsAssociative;
    if k == 0 {
      assert k * l == 0;
    } else {
      TimesTimes(c, k - 1, l, q);
      assert k * l == (k - 1) * l + l;
      TimesSum(c, (k - 1) * l, l, q);
    }
  }

  lemma {:induction false} TimesInfinity(c: Curve, k: nat)
    requires c.p > 2
    ensures Times(c, k, Infinity) == Infinity
  {
    if k > 0 {
      TimesInfinity(c, k - 1);
    }
  }

  /** Multiples of a point of order dividing n depend only on the scalar modulo n. */
  lemma TimesModOrder(c: Curve, n: nat, k: nat, q: Affine)
    requires IsGroup(c) && OnCurve(c, q) && n > 0 && Times(c, n, q) == Infinity
    ensures Times(c, k, q) == Times(c, k % n, q)
  {
    hide OnCurve, AffineAdd, IsAssociative, Times;
    var m := k / n;
    assert m * n == n * m >= 0;
    TimesSum(c, m * n, k % n, q);
    TimesTimes(c, m, n, q);
    TimesInfinity(c, m);
    SumWithInfinity(c, Times(c, k % n, q));
  }

  /** u*q + v*r. */
  function Combination(c: Curve, u: nat, q: Affine, v: nat, r: Affine): Affine
    requires c.p > 2
  {
    AffineAdd(c, Times(c, u, q), Times(c, v, r))
  }

  lemma CombinationSum(c: Curve, u: nat, v: nat, s: nat, t: nat, q: Affine, r: Affine)
    requires IsGroup(c) && OnCurve(c, q) && OnCurve(c, r)
    ensures AffineAdd(c, Combination(c, u, q, v, r), Combination(c, s, q, t, r)) == Combination(c, u + s, q, v + t, r)
  {
    hide OnCurve, AffineAdd, IsAssociative;
    TimesOnCurve(c, u, q);
    TimesOnCurve(c, v, r);
    TimesOnCurve(c, s, q);
    TimesOnCurve(c, t, r);
    Interchange(c, Times(c, u, q), Times(c, v, r), Times(c, s, q), Times(c, t, r));
    TimesSum(c, u, s, q);
    TimesSum(c, v, t, r);
  }
}
