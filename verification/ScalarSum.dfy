/** Interleaved double-and-add on two scalars. */
module ScalarSum {
  import opened Arithmetic
  import opened Primes
  import opened Bytes
  import opened AffineCurve
  import opened Jacobian

  /** The byte at a position of the longer scalar, with zeros before the shorter one. */
  function ByteAt(bytes: seq<byte>, offset: nat, index: nat): (b: byte)
    requires index < offset + |bytes|
  {
    if index < offset then 0 else bytes[index - offset]
  }

  /** The number spelled by the first k padded bytes. */
  ghost function Prefix(bytes: seq<byte>, offset: nat, k: nat): nat
    requires k <= offset + |bytes|
  {
    if k <= offset then 0 else FromBigEndian(bytes[..k - offset])
  }

  lemma PrefixStep(bytes: seq<byte>, offset: nat, k: nat)
    requires k < offset + |bytes|
    ensures Prefix(bytes, offset, k + 1) == 256 * Prefix(bytes, offset, k) + ByteAt(bytes, offset, k)
  {
    if k >= offset {
      var s := bytes[..k + 1 - offset];
      assert s[..|s| - 1] == bytes[..k - offset];
    }
  }

  lemma PrefixEnd(bytes: seq<byte>, offset: nat)
    requires bytes != []
    ensures Prefix(bytes, offset, offset + |bytes|) == FromBigEndian(bytes)
  {
    assert bytes[..|bytes|] == bytes;
  }

  /** Bit number bit of b. */
  function Bit(b: byte, bit: nat): bool {
    PowPositive(2, bit);
    (b / Pow(2, bit)) % 2 == 1
  }

  function AsNumber(b: bool): nat { if b then 1 else 0 }

  /** The number formed by base followed by all but the low k bits of b. */
  ghost function Partial(base: nat, b: byte, k: nat): nat
    requires k <= 8
  {
    PowPositive(2, k);
    PowPositive(2, 8 - k);
    NotNegative(base, Pow(2, 8 - k), b, Pow(2, k));
    base * Pow(2, 8 - k) + b / Pow(2, k)
  }

  lemma NotNegative(a: int, p: int, b: int, q: int)
    requires a >= 0 && p > 0 && b >= 0 && q > 0
    ensures a * p >= 0 && b / q >= 0
  {
  }

  lemma HalfStep(b: nat, p: nat)
    requires p > 0
    ensures b / p == 2 * (b / (2 * p)) + (b / p) % 2
  {
    var q, r := b / p, b % p;
    var h, e := q / 2, q % 2;
    assert b == (2 * p) * h + (p * e + r) by {
      assert p * q == p * (2 * h + e) == (2 * p) * h + p * e;
    }
    assert p * e + r < 2 * p;
    RemainderUnique(b, 2 * p, h, p * e + r);
  }

  lemma PartialStep(base: nat, b: byte, k: nat)
    requires 0 < k <= 8
    ensures Partial(base, b, k - 1) == 2 * Partial(base, b, k) + AsNumber(Bit(b, k - 1))
  {
    var p, q := Pow(2, k - 1), Pow(2, 8 - k);
    PowPositive(2, k - 1);
    HalfStep(b, p);
    assert Pow(2, 9 - k) == 2 * q;
    assert base * (2 * q) == 2 * (base * q);
  }

  lemma PartialEnds(base: nat, b: byte)
    ensures Partial(base, b, 8) == base && Partial(base, b, 0) == 256 * base + b
  {
    TwoToTheEighth();
    assert Pow(2, 0) == 1;
    assert base * 1 == base;
  }

  lemma CombinationStart(c: Curve, l: Affine, r: Affine)
    requires IsCurve(c)
    ensures Combination(c, 0, l, 0, r) == Infinity && Combination(c, 1, l, 0, r) == l
    ensures Combination(c, 0, l, 1, r) == r && Combination(c, 1, l, 1, r) == AffineAdd(c, l, r)
  {
    hide AffineAdd;
    SumWithInfinity(c, l);
    SumWithInfinity(c, r);
    SumWithInfinity(c, Infinity);
    assert Times(c, 0, l) == Infinity && Times(c, 0, r) == Infinity;
    assert Times(c, 1, l) == AffineAdd(c, Times(c, 0, l), l);
    assert Times(c, 1, r) == AffineAdd(c, Times(c, 0, r), r);
  }

  /** One bit of each scalar: double, then add the point the two bits select. */
  function Ladder(result: Jacobian, lb: bool, rb: bool, left: Jacobian, right: Jacobian, combined: Jacobian, p: nat,
                  a: nat): Jacobian
    requires p > 0
  {
    var doubled := Double(result, p, a);
    match (lb, rb)
    case (false, false) => doubled
    case (true, false) => Add(doubled, left, p, a)
    case (false, true) => Add(doubled, right, p, a)
    case (true, true) => Add(doubled, combined, p, a)
  }

  /** result stands for u*l + v*r. */
  ghost predicate Holds(c: Curve, result: Jacobian, u: nat, l: Affine, v: nat, r: Affine)
    requires c.p > 2
  {
    Represents(c, result, Combination(c, u, l, v, r))
  }

  lemma LadderStep(c: Curve, result: Jacobian, u: nat, v: nat, lb: bool, rb: bool,
                   left: Jacobian, l: Affine, right: Jacobian, r: Affine, combined: Jacobian)
    requires IsGroup(c) && OnCurve(c, l) && OnCurve(c, r)
    requires Represents(c, left, l) && Represents(c, right, r) && Represents(c, combined, AffineAdd(c, l, r))
    requires Holds(c, result, u, l, v, r)
    ensures Holds(c, Ladder(result, lb, rb, left, right, combined, c.p, c.a), 2 * u + AsNumber(lb), l,
                  2 * v + AsNumber(rb), r)
  {
    hide Represents, AffineAdd, OnCurve, IsAssociative, Combination, Double, Add;
    var was := Combination(c, u, l, v, r);
    DoubleRepresents(c, result, was);
    CombinationSum(c, u, v, u, v, l, r);
    var doubled := Double(result, c.p, c.a);
    var twice := Combination(c, 2 * u, l, 2 * v, r);
    CombinationStart(c, l, r);
    if lb || rb {
      var chosen := if lb && rb then combined else if lb then left else right;
      AddRepresents(c, doubled, twice, chosen, Combination(c, AsNumber(lb), l, AsNumber(rb), r));
      CombinationSum(c, 2 * u, 2 * v, AsNumber(lb), AsNumber(rb), l, r);
    }
  }

  /** leftScalar * left + rightScalar * right, a bit of both scalars at a time. */
  method MultiplySum(leftScalar: nat, left: Jacobian, rightScalar: nat, right: Jacobian, c: Curve,
                     ghost l: Affine, ghost r: Affine) returns (result: Jacobian)
    requires c.p > 2
    ensures IsGroup(c) && OnCurve(c, l) && OnCurve(c, r) && Represents(c, left, l) && Represents(c, right, r) ==>
      Represents(c, result, Combination(c, leftScalar, l, rightScalar, r))
  {
    hide Represents, OnCurve, IsAssociative, Combination, Double, Add, AffineAdd, Holds, Partial, Prefix, Bit, IsPrime;
    ghost var lawful := IsGroup(c) && OnCurve(c, l) && OnCurve(c, r) && Represents(c, left, l) &&
                        Represents(c, right, r);
    var leftBytes, rightBytes := MinimalBytes(leftScalar), MinimalBytes(rightScalar);
    var length := if |leftBytes| >= |rightBytes| then |leftBytes| else |rightBytes|;
    var combined := Add(left, right, c.p, c.a);
    result := AtInfinity;
    var leftOffset, rightOffset := length - |leftBytes|, length - |rightBytes|;
    if lawful {
      AddRepresents(c, left, l, right, r);
      StartHolds(c, l, r);
      StartPrefix(leftBytes, leftOffset);
      StartPrefix(rightBytes, rightOffset);
    }
    for index := 0 to length
      invariant lawful ==>
                Holds(c, result, Prefix(leftBytes, leftOffset, index), l, Prefix(rightBytes, rightOffset, index), r)
    {
      var leftByte, rightByte := ByteAt(leftBytes, leftOffset, index), ByteAt(rightBytes, rightOffset, index);
      ghost var u, v := Prefix(leftBytes, leftOffset, index), Prefix(rightBytes, rightOffset, index);
      PartialEnds(u, leftByte);
      PartialEnds(v, rightByte);
      for bit := 8 downto 0
        invariant lawful ==> Holds(c, result, Partial(u, leftByte, bit), l, Partial(v, rightByte, bit), r)
      {
        if lawful {
          LadderStep(c, result, Partial(u, leftByte, bit + 1), Partial(v, rightByte, bit + 1),
                     Bit(leftByte, bit), Bit(rightByte, bit), left, l, right, r, combined);
          PartialStep(u, leftByte, bit + 1);
          PartialStep(v, rightByte, bit + 1);
        }
        result := Ladder(result, Bit(leftByte, bit), Bit(rightByte, bit), left, right, combined, c.p, c.a);
      }
      PrefixStep(leftBytes, leftOffset, index);
      PrefixStep(rightBytes, rightOffset, index);
    }
    if lawful {
      PrefixEnd(leftBytes, leftOffset);
      PrefixEnd(rightBytes, rightOffset);
      MinimalBytesValue(leftScalar);
      MinimalBytesValue(rightScalar);
      HoldsMeans(c, result, leftScalar, l, rightScalar, r);
    }
  }

  lemma StartPrefix(bytes: seq<byte>, offset: nat)
    ensures Prefix(bytes, offset, 0) == 0
  {
  }

  lemma StartHolds(c: Curve, l: Affine, r: Affine)
    requires IsCurve(c)
    ensures Holds(c, AtInfinity, 0, l, 0, r)
  {
    CombinationStart(c, l, r);
  }

  lemma HoldsMeans(c: Curve, result: Jacobian, u: nat, l: Affine, v: nat, r: Affine)
    requires c.p > 2 && Holds(c, result, u, l, v, r)
    ensures Represents(c, result, Combination(c, u, l, v, r))
  {
  }
}
