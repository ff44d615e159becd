/** ECDSA verification over a short Weierstrass curve of prime order, and brainpoolP512r1. */
module Brainpool {
  import opened Arithmetic
  import opened Primes
  import opened Bytes
  import opened CurveField
  import opened AffineCurve
  import opened Jacobian
  import opened MillerRabin
  import opened ScalarSum

  /** A curve, the order of its generator, and the generator. */
  datatype Domain = Domain(c: Curve, n: nat, gx: nat, gy: nat)

  function Generator(d: Domain): Affine { Point(d.gx, d.gy) }

  // ---------- Modular inverse ----------

  /** Coefficients x, y with a*x + b*y = gcd(a, b). */
  function Bezout(a: nat, b: nat): (r: (int, int))
    decreases b
  {
    if b == 0 then (1, 0)
    else
      var (u, v) := Bezout(b, a % b);
      (v, u - (a / b) * v)
  }

  lemma {:induction false} BezoutIdentity(a: nat, b: nat)
    ensures a * Bezout(a, b).0 + b * Bezout(a, b).1 == Gcd(a, b)
    decreases b
  {
    if b != 0 {
      BezoutIdentity(b, a % b);
      var (u, v) := Bezout(b, a % b);
      BezoutStep(a, b, a / b, a % b, u, v);
    }
  }

  function ModInverse(a: nat, m: nat): (r: Option<nat>)
    requires m > 0
    ensures r.Some? ==> r.value < m
  {
    if Gcd(a, m) != 1 then None else Some(Bezout(a, m).0 % m)
  }

  lemma ModInverseInverts(a: nat, m: nat)
    requires m > 0 && Gcd(a, m) == 1
    ensures Cong(a * ModInverse(a, m).value, 1, m)
  {
    hide Cong;
    BezoutIdentity(a, m);
    var x, y := Bezout(a, m).0, Bezout(a, m).1;
    CongIntro(a * x, 1, m, -y);
    CongMod(x, m);
    Multiply(x % m, x, a, m);
    CongTransitive(a * (x % m), a * x, 1, m);
  }

  lemma PrimeHasInverse(a: nat, n: nat)
    requires IsPrime(n) && 0 < a < n
    ensures Gcd(a, n) == 1 && ModInverse(a, n).Some? && Cong(a * ModInverse(a, n).value, 1, n)
  {
    if Divides(n, a) {
      DividesBound(n, a);
    }
    PrimeCoprime(n, a);
    ModInverseInverts(a, n);
  }

  // ---------- The verification equation ----------

  function MulMod(a: nat, b: nat, n: nat): nat
    requires n > 0
  {
    (a * b) % n
  }

  predicate Satisfies(c: Curve, x: nat, y: nat)
    requires c.p > 0
  {
    (y * y) % c.p == (x * x * x + c.a * x + c.b) % c.p
  }

  function ProjectedX(point: Jacobian, inverse: nat, p: nat): nat
    requires p > 0
  {
    (point.x * inverse * inverse) % p
  }

  /** The x coordinate of [z/s]G + [r/s]Q, reduced modulo n, is r. */
  ghost predicate SignatureHolds(d: Domain, q: Affine, z: nat, r: nat, s: nat)
    requires d.c.p > 2
  {
    0 < r < d.n && 0 < s < d.n && ModInverse(s, d.n).Some? &&
    var w := ModInverse(s, d.n).value;
    var point := Combination(d.c, MulMod(z, w, d.n), Generator(d), MulMod(r, w, d.n), q);
    point.Point? && point.x % d.n == r
  }

  /** The leftmost bits of the digest, as many as n has. */
  function DigestNumber(digest: seq<byte>, n: nat): nat {
    var excess := |digest| * 8 - Bits(n);
    if excess > 0 then
      PowPositive(2, excess);
      FromBigEndian(digest) / Pow(2, excess)
    else FromBigEndian(digest)
  }

  /** z is the number formed by the leftmost bits of the digest, as many as n has, or by all of them
      when there are no more. */
  ghost predicate LeadingBits(digest: seq<byte>, n: nat, z: nat) {
    var excess := 8 * |digest| - Bits(n);
    if excess <= 0 then z == FromBigEndian(digest)
    else z * Pow(2, excess) <= FromBigEndian(digest) < z * Pow(2, excess) + Pow(2, excess)
  }

  lemma DigestNumberIsLeading(digest: seq<byte>, n: nat)
    ensures LeadingBits(digest, n, DigestNumber(digest, n))
  {
    hide Pow, FromBigEndian, Bits;
    var excess := 8 * |digest| - Bits(n);
    if excess > 0 {
      PowPositive(2, excess);
      DivisionBounds(FromBigEndian(digest), Pow(2, excess));
    }
  }

  lemma DivisionBounds(v: nat, u: nat)
    requires u > 0
    ensures (v / u) * u <= v < (v / u) * u + u
  {
  }

  /** Only one number has those bits. */
  lemma LeadingBitsUnique(digest: seq<byte>, n: nat, y: nat, z: nat)
    requires LeadingBits(digest, n, y) && LeadingBits(digest, n, z)
    ensures y == z
  {
    hide Pow, FromBigEndian, Bits;
    var excess := 8 * |digest| - Bits(n);
    if excess > 0 {
      PowPositive(2, excess);
      SameQuotientBounds(FromBigEndian(digest), Pow(2, excess), y, z);
    }
  }

  lemma SameQuotientBounds(v: int, u: int, y: int, z: int)
    requires u > 0 && y * u <= v < y * u + u && z * u <= v < z * u + u
    ensures y == z
  {
    if y < z {
      MulMonotone(u, y + 1, z);
    } else if z < y {
      MulMonotone(u, z + 1, y);
    }
  }

  const COORDINATE_LENGTH: nat := 64

  ghost predicate WellFormed(publicKey: seq<byte>, signature: seq<byte>) {
    |publicKey| == 1 + 2 * COORDINATE_LENGTH && publicKey[0] == 4 && |signature| == 2 * COORDINATE_LENGTH
  }

  /** What the source's caller is told: the encodings are well formed, the key is a curve point and
      the verification equation holds. */
  ghost predicate Verifies(d: Domain, publicKey: seq<byte>, digest: seq<byte>, signature: seq<byte>)
    requires d.c.p > 2
  {
    WellFormed(publicKey, signature) &&
    var q := Point(FromBigEndian(publicKey[1..65]), FromBigEndian(publicKey[65..]));
    OnCurve(d.c, q) &&
    SignatureHolds(d, q, DigestNumber(digest, d.n), FromBigEndian(signature[..64]), FromBigEndian(signature[64..]))
  }

  lemma EquationCheck(c: Curve, x: nat, y: nat)
    requires c.p > 2 && x < c.p && y < c.p
    ensures Satisfies(c, x, y) == OnCurve(c, Point(x, y))
  {
    CongIsEqualRemainder(y * y, Rhs(c, x), c.p);
  }

  lemma AffineRepresents(c: Curve, x: nat, y: nat)
    requires c.p > 2 && x < c.p && y < c.p
    ensures Represents(c, Jacobian(x, y, 1), Point(x, y))
  {
    Same(x, c.p);
    Same(y, c.p);
  }

  /** Dividing X by Z^2 gives the affine x coordinate; the inverse always exists. */
  lemma ProjectX(c: Curve, point: Jacobian, t: Affine)
    requires IsCurve(c) && Represents(c, point, t) && point.z != 0
    ensures ModInverse(point.z, c.p).Some? && t.Point?
    ensures var i := ModInverse(point.z, c.p).value; ProjectedX(point, i, c.p) == t.x
  {
    hide Cong, ModInverse, IsPrime;
    PrimeHasInverse(point.z, c.p);
    QuotientBySquare(point.x, point.z, ModInverse(point.z, c.p).value, t.x, c.p);
  }

  lemma QuotientBySquare(X: nat, z: nat, i: nat, x: nat, p: nat)
    requires IsPrime(p) && 0 < z < p && x < p && Cong(z * i, 1, p) && Cong(X, x * (z * z), p)
    ensures (X * i * i) % p == x
  {
    hide Cong, IsPrime;
    InverseSquare(z, i, p);
    Regroup(X, i);
    DivideMultiply(X, i * i, z * z, p);
    NonZeroResidue(z, p);
    NonZeroProduct(z, z, p);
    SameQuotient(X, (X * (i * i)) % p, x, z * z, p);
  }

  lemma Regroup(x: int, i: int)
    ensures x * i * i == x * (i * i)
  {
  }

  /** Verification with explicit domain parameters; true is Ok, false the single error. */
  method VerifyWith(d: Domain, publicKey: seq<byte>, digest: seq<byte>, signature: seq<byte>) returns (ok: bool)
    requires d.c.p > 2 && d.n > 0
    ensures ok ==> WellFormed(publicKey, signature)
    ensures IsGroup(d.c) && OnCurve(d.c, Generator(d)) ==> (ok <==> Verifies(d, publicKey, digest, signature))
  {
    hide IsGroup, Combination, Represents, ModInverse, DigestNumber, MulMod, Satisfies, ProjectedX, OnCurve,
         FromBigEndian;
    if |publicKey| != 1 + 2 * COORDINATE_LENGTH || publicKey[0] != 0x04 || |signature| != 2 * COORDINATE_LENGTH {
      return false;
    }
    var c, p, n := d.c, d.c.p, d.n;
    var generator := Jacobian(d.gx, d.gy, 1);
    var x, y := FromBigEndian(publicKey[1..65]), FromBigEndian(publicKey[65..]);
    var public := Jacobian(x, y, 1);
    KeyInRange(c, x, y);
    if x >= p || y >= p {
      return false;
    }
    EquationCheck(c, x, y);
    if !Satisfies(c, x, y) {
      return false;
    }
    var r, s := FromBigEndian(signature[..64]), FromBigEndian(signature[64..]);
    if r == 0 || r >= n || s == 0 || s >= n {
      return false;
    }
    var z := DigestNumber(digest, n);
    var inverse := ModInverse(s, n);
    if inverse.None? {
      return false;
    }
    var w := inverse.value;
    ghost var q := Point(x, y);
    var point := MultiplySum(MulMod(z, w, n), generator, MulMod(r, w, n), public, c, Generator(d), q);
    ghost var lawful := IsGroup(c) && OnCurve(c, Generator(d));
    ghost var sum := Combination(c, MulMod(z, w, n), Generator(d), MulMod(r, w, n), q);
    if lawful {
      PublicPointsRepresent(d, x, y);
      SumIsInfinity(c, point, sum);
    }
    if point.z == 0 {
      return false;
    }
    if lawful {
      GroupIsCurve(c);
      ProjectX(c, point, sum);
    }
    var back := ModInverse(point.z, p);
    if back.None? {
      return false;
    }
    return ProjectedX(point, back.value, p) % n == r;
  }

  lemma KeyInRange(c: Curve, x: nat, y: nat)
    requires c.p > 2
    ensures OnCurve(c, Point(x, y)) ==> x < c.p && y < c.p
  {
  }

  lemma GroupIsCurve(c: Curve)
    requires IsGroup(c)
    ensures IsCurve(c)
  {
  }

  lemma PublicPointsRepresent(d: Domain, x: nat, y: nat)
    requires d.c.p > 2 && OnCurve(d.c, Generator(d)) && x < d.c.p && y < d.c.p
    ensures Represents(d.c, Jacobian(d.gx, d.gy, 1), Generator(d)) && Represents(d.c, Jacobian(x, y, 1), Point(x, y))
  {
    AffineRepresents(d.c, d.gx, d.gy);
    AffineRepresents(d.c, x, y);
  }

  lemma SumIsInfinity(c: Curve, point: Jacobian, t: Affine)
    requires c.p > 2 && Represents(c, point, t)
    ensures point.z == 0 <==> t.Infinity?
  {
  }

  // ---------- Completeness and the second signature ----------

  /** The curve points form a group in which the generator has prime order n. */
  ghost predicate IsDomain(d: Domain) {
    IsGroup(d.c) && OnCurve(d.c, Generator(d)) && IsPrime(d.n) && Times(d.c, d.n, Generator(d)) == Infinity
  }

  lemma ScaleBack(z: int, r: int, e: int, s: int, w: int, k: int, n: nat)
    requires n > 0 && Cong(s * w, 1, n) && Cong(s * k, z + r * e, n)
    ensures Cong(z * w + (r * w) * e, k, n)
  {
    hide Cong;
    Multiply(s * k, z + r * e, w, n);
    CongSymmetric(s * k * w, (z + r * e) * w, n);
    Multiply(s * w, 1, k, n);
    assert (s * w) * k == s * k * w;
    assert (z + r * e) * w == z * w + (r * w) * e by {
      assert (r * e) * w == (r * w) * e;
    }
    CongTransitive(z * w + (r * w) * e, s * k * w, k, n);
  }

  lemma SameMultiple(c: Curve, n: nat, k: nat, l: nat, q: Affine)
    requires IsGroup(c) && OnCurve(c, q) && n > 0 && Times(c, n, q) == Infinity && Cong(k, l, n)
    ensures Times(c, k, q) == Times(c, l, q)
  {
    TimesModOrder(c, n, k, q);
    TimesModOrder(c, n, l, q);
    CongIsEqualRemainder(k, l, n);
  }

  /** u*G + v*(e*G) = (u + v*e)*G. */
  lemma CombinationOfMultiples(c: Curve, u: nat, v: nat, e: nat, g: Affine)
    requires IsGroup(c) && OnCurve(c, g)
    ensures v * e >= 0 && Combination(c, u, g, v, Times(c, e, g)) == Times(c, u + v * e, g)
  {
    hide OnCurve, AffineAdd, IsAssociative, Times;
    TimesTimes(c, v, e, g);
    TimesSum(c, u, v * e, g);
  }

  lemma ReducedPair(z: int, r: int, w: int, e: int, k: int, n: nat)
    requires n > 0 && Cong(z * w + (r * w) * e, k, n)
    ensures Cong((z * w) % n + ((r * w) % n) * e, k, n)
  {
    hide Cong;
    CongMod(z * w, n);
    CongMod(r * w, n);
    Multiply((r * w) % n, r * w, e, n);
    CongAdd((z * w) % n, z * w, ((r * w) % n) * e, (r * w) * e, n);
    CongTransitive((z * w) % n + ((r * w) % n) * e, z * w + (r * w) * e, k, n);
  }

  /** For the key e*G and the nonce k that s determines (s*k = z + r*e modulo n), the equation holds
      exactly when r and s are in range and r is the x coordinate of k*G modulo n. */
  lemma SignatureIff(d: Domain, e: nat, k: nat, z: nat, r: nat, s: nat)
    requires IsDomain(d) && Cong(s * k, z + r * e, d.n)
    ensures var t := Times(d.c, k, Generator(d));
            SignatureHolds(d, Times(d.c, e, Generator(d)), z, r, s) <==>
            0 < r < d.n && 0 < s < d.n && t.Point? && t.x % d.n == r
  {
    hide OnCurve, AffineAdd, IsAssociative, Times, Combination, Cong, ModInverse, IsPrime;
    var c, n, g := d.c, d.n, Generator(d);
    if 0 < r < n && 0 < s < n {
      PrimeHasInverse(s, n);
      var w := ModInverse(s, n).value;
      ScaleBack(z, r, e, s, w, k, n);
      ReducedPair(z, r, w, e, k, n);
      var u, v := MulMod(z, w, n), MulMod(r, w, n);
      CombinationOfMultiples(c, u, v, e, g);
      SameMultiple(c, n, u + v * e, k, g);
    }
  }

  /** Every signature has such a nonce, so the condition covers all of them. */
  lemma NonceExists(d: Domain, e: nat, z: nat, r: nat, s: nat) returns (k: nat)
    requires IsDomain(d) && 0 < s < d.n
    ensures Cong(s * k, z + r * e, d.n)
  {
    hide Cong, ModInverse, IsPrime, IsGroup, OnCurve, Times;
    PrimeHasInverse(s, d.n);
    var w := ModInverse(s, d.n).value;
    var v := z + r * e;
    assert v >= 0;
    k := w * v;
    Multiply(s * w, 1, v, d.n);
    assert s * (w * v) == (s * w) * v;
  }

  /** Every signature formed as the standard prescribes is accepted: nonce k, r the x coordinate of
      k*G modulo n, and s with s*k = z + r*e modulo n, for the public key e*G. */
  lemma HonestSignatureHolds(d: Domain, e: nat, k: nat, z: nat, s: nat)
    requires IsDomain(d) && 0 < s < d.n
    requires var t := Times(d.c, k, Generator(d));
             t.Point? && t.x % d.n != 0 && Cong(s * k, z + (t.x % d.n) * e, d.n)
    ensures SignatureHolds(d, Times(d.c, e, Generator(d)), z, Times(d.c, k, Generator(d)).x % d.n, s)
  {
    hide IsAssociative, IsPrime, OnCurve, Times, Cong, SignatureHolds;
    SignatureIff(d, e, k, z, Times(d.c, k, Generator(d)).x % d.n, s);
  }

  lemma NegatedInverse(s: nat, w: nat, v: nat, n: nat)
    requires IsPrime(n) && 0 < s < n && w < n && v < n
    requires Cong(s * w, 1, n) && Cong((n - s) * v, 1, n)
    ensures Cong(w + v, 0, n)
  {
    hide Cong, IsPrime;
    var m: int := 0 - v;
    NegatedStep(s, v, n);
    CongTransitive(s * m, (n - s) * v, 1, n);
    CongSymmetric(s * m, 1, n);
    CongTransitive(s * w, 1, s * m, n);
    NonZeroResidue(s, n);
    CancelFactor(n, s, w, m);
    Same(v, n);
    CongAdd(w, m, v, v, n);
  }

  lemma NegatedStep(s: int, v: int, n: nat)
    requires n > 0
    ensures Cong(s * (0 - v), (n - s) * v, n)
  {
    var m := 0 - v;
    assert s * m - (n - s) * v == n * m by {
      assert (n - s) * v == n * v - s * v;
      assert s * m == -(s * v);
      assert n * m == -(n * v);
    }
    CongIntro(s * m, (n - s) * v, n, m);
  }

  lemma Distribute(z: int, w: int, v: int)
    ensures z * (w + v) == z * w + z * v
  {
  }

  lemma OppositeScalars(z: nat, w: nat, v: nat, n: nat)
    requires n > 0 && Cong(w + v, 0, n)
    ensures Cong(MulMod(z, w, n) + MulMod(z, v, n), 0, n)
  {
    hide Cong, MulMod;
    MulModIs(z, w, n);
    MulModIs(z, v, n);
    var s, t := z * w, z * v;
    CongAdd(MulMod(z, w, n), s, MulMod(z, v, n), t, n);
    Multiply(w + v, 0, z, n);
    Distribute(z, w, v);
    CongTransitive(MulMod(z, w, n) + MulMod(z, v, n), s + t, 0, n);
  }

  lemma MulModIs(a: nat, b: nat, n: nat)
    requires n > 0
    ensures Cong(MulMod(a, b, n), a * b, n)
  {
    CongMod(a * b, n);
  }

  lemma VanishingMultiple(c: Curve, n: nat, k: nat, q: Affine)
    requires IsGroup(c) && OnCurve(c, q) && n > 0 && Times(c, n, q) == Infinity && Cong(k, 0, n)
    ensures Times(c, k, q) == Infinity
  {
    SameMultiple(c, n, k, 0, q);
  }

  /** Opposite points share their x coordinate. */
  lemma OppositePoints(c: Curve, q: Affine, r: Affine)
    requires c.p > 2 && AffineAdd(c, q, r) == Infinity
    ensures q.Infinity? == r.Infinity? && (q.Point? ==> q.x == r.x)
  {
  }

  /** (r, s) and (r, n - s) are accepted together. */
  lemma SecondSignature(d: Domain, q: Affine, z: nat, r: nat, s: nat)
    requires IsDomain(d) && OnCurve(d.c, q) && Times(d.c, d.n, q) == Infinity && s <= d.n
    ensures SignatureHolds(d, q, z, r, s) <==> SignatureHolds(d, q, z, r, d.n - s)
  {
    hide OnCurve, AffineAdd, IsAssociative, Times, Combination, Cong, ModInverse, IsPrime;
    var c, n, g := d.c, d.n, Generator(d);
    if 0 < s < n {
      PrimeHasInverse(s, n);
      PrimeHasInverse(n - s, n);
      var w, v := ModInverse(s, n).value, ModInverse(n - s, n).value;
      NegatedInverse(s, w, v, n);
      OppositeScalars(z, w, v, n);
      OppositeScalars(r, w, v, n);
      OppositeCombination(c, n, MulMod(z, w, n), MulMod(z, v, n), g, MulMod(r, w, n), MulMod(r, v, n), q);
    }
  }

  lemma OppositeCombination(c: Curve, n: nat, u: nat, k: nat, g: Affine, v: nat, l: nat, q: Affine)
    requires IsGroup(c) && n > 0 && OnCurve(c, g) && OnCurve(c, q)
    requires Times(c, n, g) == Infinity && Times(c, n, q) == Infinity && Cong(u + k, 0, n) && Cong(v + l, 0, n)
    ensures var s, t := Combination(c, u, g, v, q), Combination(c, k, g, l, q);
            s.Infinity? == t.Infinity? && (s.Point? ==> s.x == t.x)
  {
    hide OnCurve, AffineAdd, IsAssociative, Times, Cong;
    VanishingMultiple(c, n, u + k, g);
    VanishingMultiple(c, n, v + l, q);
    CombinationSum(c, u, v, k, l, g, q);
    SumWithInfinity(c, Infinity);
    OppositePoints(c, Combination(c, u, g, v, q), Combination(c, k, g, l, q));
  }

  // ---------- On encoded keys and signatures ----------

  /** An uncompressed public key: 4, x, y. */
  function EncodeKey(q: Affine): (s: seq<byte>)
    requires q.Point?
    ensures |s| == 1 + 2 * COORDINATE_LENGTH
  {
    [4] + ToBigEndian(q.x, COORDINATE_LENGTH) + ToBigEndian(q.y, COORDINATE_LENGTH)
  }

  function EncodePair(r: nat, s: nat): (sig: seq<byte>)
    ensures |sig| == 2 * COORDINATE_LENGTH
  {
    ToBigEndian(r, COORDINATE_LENGTH) + ToBigEndian(s, COORDINATE_LENGTH)
  }

  /** Coordinates and scalars fit their 64-byte fields. */
  ghost predicate Fits(d: Domain) { d.c.p <= Pow(256, COORDINATE_LENGTH) && d.n <= Pow(256, COORDINATE_LENGTH) }

  lemma KeyFields(q: Affine)
    requires q.Point? && q.x < Pow(256, COORDINATE_LENGTH) && q.y < Pow(256, COORDINATE_LENGTH)
    ensures var s := EncodeKey(q); s[0] == 4 && FromBigEndian(s[1..65]) == q.x && FromBigEndian(s[65..]) == q.y
  {
    hide ToBigEndian, FromBigEndian, Pow;
    var s, x, y := EncodeKey(q), ToBigEndian(q.x, 64), ToBigEndian(q.y, 64);
    assert s[1..65] == x && s[65..] == y;
    BigEndianRoundTrip(q.x, 64);
    BigEndianRoundTrip(q.y, 64);
  }

  lemma PairFields(r: nat, s: nat)
    requires r < Pow(256, COORDINATE_LENGTH) && s < Pow(256, COORDINATE_LENGTH)
    ensures var sig := EncodePair(r, s); FromBigEndian(sig[..64]) == r && FromBigEndian(sig[64..]) == s
  {
    hide ToBigEndian, FromBigEndian, Pow;
    var sig, a, b := EncodePair(r, s), ToBigEndian(r, 64), ToBigEndian(s, 64);
    assert sig[..64] == a && sig[64..] == b;
    BigEndianRoundTrip(r, 64);
    BigEndianRoundTrip(s, 64);
  }

  lemma PointInRange(c: Curve, q: Affine)
    requires c.p > 2 && OnCurve(c, q) && q.Point?
    ensures q.x < c.p && q.y < c.p
  {
  }

  /** The encoded form of every honestly made key and signature is accepted, for every digest and the
      number z of its leading bits. */
  lemma HonestSignatureVerifies(d: Domain, e: nat, k: nat, digest: seq<byte>, z: nat, s: nat)
    requires IsDomain(d) && Fits(d) && 0 < s < d.n && Times(d.c, e, Generator(d)).Point?
    requires LeadingBits(digest, d.n, z)
    requires var t := Times(d.c, k, Generator(d));
             t.Point? && t.x % d.n != 0 && Cong(s * k, z + (t.x % d.n) * e, d.n)
    ensures var q, r := Times(d.c, e, Generator(d)), Times(d.c, k, Generator(d)).x % d.n;
            Verifies(d, EncodeKey(q), digest, EncodePair(r, s))
  {
    hide OnCurve, IsAssociative, Times, SignatureHolds, DigestNumber, Cong, IsPrime, EncodeKey, EncodePair,
         FromBigEndian, Pow, LeadingBits;
    var q, r := Times(d.c, e, Generator(d)), Times(d.c, k, Generator(d)).x % d.n;
    DigestNumberIsLeading(digest, d.n);
    LeadingBitsUnique(digest, d.n, z, DigestNumber(digest, d.n));
    HonestSignatureHolds(d, e, k, z, s);
    TimesOnCurve(d.c, e, Generator(d));
    PointInRange(d.c, q);
    KeyFields(q);
    PairFields(r, s);
  }

  /** Whatever is accepted has these lengths and ranges, and the equation holds of the leading bits of
      the digest. */
  lemma VerifiedFormat(d: Domain, publicKey: seq<byte>, digest: seq<byte>, signature: seq<byte>, z: nat)
    requires d.c.p > 2 && LeadingBits(digest, d.n, z)
    ensures Verifies(d, publicKey, digest, signature) <==>
            && |publicKey| == 129 && publicKey[0] == 0x04 && |signature| == 128
            && var x, y := FromBigEndian(publicKey[1..65]), FromBigEndian(publicKey[65..129]);
               var r, s := FromBigEndian(signature[..64]), FromBigEndian(signature[64..128]);
            && x < d.c.p && y < d.c.p && Cong(y * y, x * x * x + d.c.a * x + d.c.b, d.c.p)
            && 0 < r < d.n && 0 < s < d.n && SignatureHolds(d, Point(x, y), z, r, s)
  {
    hide FromBigEndian, DigestNumber, Combination, ModInverse, MulMod, LeadingBits, Cong;
    DigestNumberIsLeading(digest, d.n);
    LeadingBitsUnique(digest, d.n, z, DigestNumber(digest, d.n));
    if |publicKey| == 129 && |signature| == 128 {
      assert publicKey[65..129] == publicKey[65..] && signature[64..128] == signature[64..];
    }
  }

  /** For every key and every digest, the bytes r, s are accepted exactly when r, n - s are. */
  lemma SecondSignatureVerifies(d: Domain, publicKey: seq<byte>, digest: seq<byte>, r: nat, s: nat)
    requires IsDomain(d) && Fits(d) && r < Pow(256, COORDINATE_LENGTH) && 0 < s <= d.n &&
             s < Pow(256, COORDINATE_LENGTH)
    requires forall q :: OnCurve(d.c, q) ==> Times(d.c, d.n, q) == Infinity
    ensures Verifies(d, publicKey, digest, EncodePair(r, s)) <==> Verifies(d, publicKey, digest, EncodePair(r, d.n - s))
  {
    hide OnCurve, IsAssociative, Times, SignatureHolds, DigestNumber, IsPrime, EncodePair, FromBigEndian, Pow;
    PairFields(r, s);
    PairFields(r, d.n - s);
    if |publicKey| == 1 + 2 * COORDINATE_LENGTH {
      var q := Point(FromBigEndian(publicKey[1..65]), FromBigEndian(publicKey[65..]));
      if OnCurve(d.c, q) {
        SecondSignature(d, q, DigestNumber(digest, d.n), r, s);
      }
    }
  }

  // ---------- brainpoolP512r1 ----------

  const P512: nat := 0xaadd9db8dbe9c48b3fd4e6ae33c9fc07cb308db3b3c9d20ed6639cca703308717d4d9b009bc66842aecda12ae6a380e62881ff2f2d82c68528aa6056583a48f3
  const A512: nat := 0x7830a3318b603b89e2327145ac234cc594cbdd8d3df91610a83441caea9863bc2ded5d5aa8253aa10a2ef1c98b9ac8b57f1117a72bf2c7b9e7c1ac4d77fc94ca
  const B512: nat := 0x3df91610a83441caea9863bc2ded5d5aa8253aa10a2ef1c98b9ac8b57f1117a72bf2c7b9e7c1ac4d77fc94cadc083e67984050b75ebae5dd2809bd638016f723
  const N512: nat := 0xaadd9db8dbe9c48b3fd4e6ae33c9fc07cb308db3b3c9d20ed6639cca70330870553e5c414ca92619418661197fac10471db1d381085ddaddb58796829ca90069
  const X512: nat := 0x81aee4bdd82ed9645a21322e9c4c6a9385ed9f70b5d916c1b43b62eef4d0098eff3b1f78e2d0d48d50d1687b93b97d5f7c6d5047406a5e688b352209bcb9f822
  const Y512: nat := 0x7dde385d566332ecc0eabfa9cf7822fdf209f70024a57b1aa000c55b881f8111b2dcde494a5f485e5bca4bd88a2763aed1ca2b2fa8f0540678cd1e0f3ad80892

  function BrainpoolP512r1(): Domain { Domain(Curve(P512, A512, B512), N512, X512, Y512) }

  /** The constants' generator satisfies the curve equation. */
  lemma GeneratorOnCurve()
    ensures var d := BrainpoolP512r1(); d.c.p > 2 && d.n > 0 && OnCurve(d.c, Generator(d))
  {
    hide OnCurve;
    EquationCheck(BrainpoolP512r1().c, X512, Y512);
  }

  /** The constants fit their fields, so the two theorems on encoded signatures apply to them. */
  lemma ConstantsFit()
    ensures Fits(BrainpoolP512r1())
  {
    hide Pow;
    TwoToTheEighth();
    PowPow(2, 8, 64);
    TwoToThe512();
  }

  lemma SquarePow(b: int, e: nat, v: int)
    requires Pow(b, e) == v
    ensures Pow(b, 2 * e) == v * v
  {
    PowAdd(b, e, e);
  }

  const W: nat := 0x1_0000_0000_0000_0000
  const W2: nat := W * W
  const W4: nat := W2 * W2

  lemma TwoToThe512()
    ensures Pow(2, 512) == W4 * W4
  {
    TwoToTheEighth();
    hide Pow;
    SquarePow(2, 8, 256);
    SquarePow(2, 16, 65536);
    SquarePow(2, 32, 0x1_0000_0000);
    SquarePow(2, 64, W);
    SquarePow(2, 128, W2);
    SquarePow(2, 256, W4);
  }

  lemma OrderHas512Bits()
    ensures Bits(N512) == 512
  {
    hide Bits;
    assert Pow(2, 512) == 2 * Pow(2, 511);
    hide Pow;
    TwoToThe512();
    BitsBelow(N512, 512);
    BitsBelow(N512, 511);
  }

  /** For this order, the digest's number is its first 64 bytes, or all of a shorter digest. */
  lemma FirstBytesAreLeading(digest: seq<byte>)
    ensures var z := FromBigEndian(if |digest| <= 64 then digest else digest[..64]);
            LeadingBits(digest, BrainpoolP512r1().n, z)
  {
    hide Pow, FromBigEndian, Bits;
    OrderHas512Bits();
    if |digest| > 64 {
      var excess := 8 * |digest| - 512;
      TwoToTheEighth();
      PowPow(2, 8, |digest| - 64);
      DropBytes(digest, 64);
      DivisionBounds(FromBigEndian(digest), Pow(2, excess));
    }
  }

  /** Honest brainpoolP512r1 signatures over any digest are accepted: z is the number of the digest's
      first 64 bytes. */
  lemma HonestSignatureAccepted(e: nat, k: nat, digest: seq<byte>, s: nat)
    requires var d := BrainpoolP512r1(); IsDomain(d) && 0 < s < d.n && Times(d.c, e, Generator(d)).Point?
    requires var d := BrainpoolP512r1();
             var t, z := Times(d.c, k, Generator(d)), FromBigEndian(if |digest| <= 64 then digest else digest[..64]);
             t.Point? && t.x % d.n != 0 && Cong(s * k, z + (t.x % d.n) * e, d.n)
    ensures var d := BrainpoolP512r1();
            var q, r := Times(d.c, e, Generator(d)), Times(d.c, k, Generator(d)).x % d.n;
            Verifies(d, EncodeKey(q), digest, EncodePair(r, s))
  {
    hide BrainpoolP512r1, Times, Verifies, Cong, IsGroup, IsPrime, OnCurve, FromBigEndian, LeadingBits, EncodeKey,
         EncodePair, Generator;
    FirstBytesAreLeading(digest);
    ConstantsFit();
    var z := FromBigEndian(if |digest| <= 64 then digest else digest[..64]);
    HonestSignatureVerifies(BrainpoolP512r1(), e, k, digest, z, s);
  }

  method VerifyPrehash(publicKey: seq<byte>, digest: seq<byte>, signature: seq<byte>) returns (ok: bool)
    ensures var d := BrainpoolP512r1();
            IsGroup(d.c) ==> (ok <==> d.c.p > 2 && Verifies(d, publicKey, digest, signature))
  {
    hide BrainpoolP512r1, IsGroup, OnCurve, Verifies, Generator;
    GeneratorOnCurve();
    ok := VerifyWith(BrainpoolP512r1(), publicKey, digest, signature);
  }
}
