/** A domain in which the hypotheses of the signature theorems hold and signatures exist:
    y^2 = x^3 + 4x + 3 over five elements, whose points are infinity, (2, 2) and (2, 3). */
module EcdsaExample {
  import opened Arithmetic
  import opened Primes
  import opened AffineCurve
  import opened Brainpool

  function TinyCurve(): Curve { Curve(5, 4, 3) }

  function G(): Affine { Point(2, 2) }

  function H(): Affine { Point(2, 3) }

  function TinyDomain(): Domain { Domain(TinyCurve(), 3, 2, 2) }

  lemma SmallSquare(y: nat)
    requires y < 5
    ensures y * y == [0, 1, 4, 9, 16][y]
  {
    if y == 1 { assert y * y == 1; } else if y == 2 { assert y * y == 4; } else if y == 3 { assert y * y == 9; }
  }

  lemma SmallCubic(x: nat)
    requires x < 5
    ensures Rhs(TinyCurve(), x) == [3, 8, 19, 42, 83][x]
  {
    SmallSquare(x);
    var s := x * x;
    assert s * x == [0, 1, 8, 27, 64][x];
  }

  lemma ThreePoints(q: Affine)
    ensures OnCurve(TinyCurve(), q) <==> q == Infinity || q == G() || q == H()
  {
    hide Rhs;
    if q.Point? && q.x < 5 && q.y < 5 {
      SmallSquare(q.y);
      SmallCubic(q.x);
    }
  }

  lemma Slopes()
    ensures Tangent(TinyCurve(), 2, 2) == 4 && Tangent(TinyCurve(), 2, 3) == 1
  {
    assert Pow(4, 3) == 4 * (4 * (4 * Pow(4, 0)));
    assert Pow(6, 3) == 6 * (6 * (6 * Pow(6, 0)));
  }

  /** The addition table. */
  lemma Table()
    ensures AffineAdd(TinyCurve(), G(), G()) == H() && AffineAdd(TinyCurve(), H(), H()) == G()
    ensures AffineAdd(TinyCurve(), G(), H()) == Infinity && AffineAdd(TinyCurve(), H(), G()) == Infinity
    ensures forall q :: AffineAdd(TinyCurve(), q, Infinity) == q && AffineAdd(TinyCurve(), Infinity, q) == q
  {
    hide Tangent;
    Slopes();
  }

  lemma Multiples()
    ensures Times(TinyCurve(), 1, G()) == G() && Times(TinyCurve(), 3, G()) == Infinity
    ensures Times(TinyCurve(), 3, H()) == Infinity && Times(TinyCurve(), 3, Infinity) == Infinity
  {
    hide AffineAdd;
    Table();
    var c := TinyCurve();
    assert Times(c, 0, G()) == Infinity && Times(c, 0, H()) == Infinity;
    assert Times(c, 1, G()) == G() && Times(c, 1, H()) == H();
    assert Times(c, 2, G()) == H() && Times(c, 2, H()) == G();
    TimesInfinity(c, 3);
  }

  lemma DomainExists()
    ensures IsDomain(TinyDomain())
    ensures forall q :: OnCurve(TinyCurve(), q) ==> Times(TinyCurve(), 3, q) == Infinity
  {
    hide OnCurve, AffineAdd, Times;
    var c := TinyCurve();
    Table();
    Multiples();
    ThreePoints(G());
    forall q | OnCurve(c, q) ensures Times(c, 3, q) == Infinity {
      ThreePoints(q);
    }
    forall q, r, s | OnCurve(c, q) && OnCurve(c, r) && OnCurve(c, s)
      ensures AffineAdd(c, AffineAdd(c, q, r), s) == AffineAdd(c, q, AffineAdd(c, r, s))
    {
      ThreePoints(q);
      ThreePoints(r);
      ThreePoints(s);
    }
  }

  /** The private key 1 signs the number 2 with nonce 1 as (2, 1): every premise of the completeness
      theorem holds, so the signature and its counterpart (2, 2) do, while no signature has r = 1. */
  lemma SignatureExists()
    ensures var d, t := TinyDomain(), Times(TinyCurve(), 1, G());
            IsDomain(d) && t.Point? && t.x % d.n == 2 && Cong(1 * 1, 2 + (t.x % d.n) * 1, d.n)
    ensures SignatureHolds(TinyDomain(), G(), 2, 2, 1) && SignatureHolds(TinyDomain(), G(), 2, 2, 2)
    ensures forall q, z, s :: OnCurve(TinyCurve(), q) ==> !SignatureHolds(TinyDomain(), q, z, 1, s)
  {
    hide OnCurve, AffineAdd, Times, IsAssociative, IsPrime;
    var d := TinyDomain();
    DomainExists();
    Multiples();
    hide ModInverse;
    HonestSignatureHolds(d, 1, 1, 2, 1);
    ThreePoints(G());
    SecondSignature(d, G(), 2, 2, 1);
    forall q, z, s | OnCurve(TinyCurve(), q) ensures !SignatureHolds(d, q, z, 1, s) {
      NoOtherCoordinate(q, z, s);
    }
  }

  lemma NoOtherCoordinate(q: Affine, z: nat, s: nat)
    requires OnCurve(TinyCurve(), q)
    ensures !SignatureHolds(TinyDomain(), q, z, 1, s)
  {
    hide OnCurve, Times, AffineAdd, ModInverse, MulMod, IsAssociative;
    DomainExists();
    if 0 < s < 3 && ModInverse(s, 3).Some? {
      var w := ModInverse(s, 3).value;
      var u, v := MulMod(z, w, 3), MulMod(1, w, 3);
      ThreePoints(G());
      TimesOnCurve(TinyCurve(), u, G());
      TimesOnCurve(TinyCurve(), v, q);
      SumOnCurve(TinyCurve(), Times(TinyCurve(), u, G()), Times(TinyCurve(), v, q));
      ThreePoints(Combination(TinyCurve(), u, G(), v, q));
    }
  }
}
