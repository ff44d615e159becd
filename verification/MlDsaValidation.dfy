/** Expanded ML-DSA key validation: the packed-secret range check, the rows of A*s1 + s2 and
    Power2Round. The sampled matrix and the library's packing functions are parameters. */
module MlDsaValidation {
  import opened Arithmetic
  import opened Bytes
  import opened NttTwiddles
  import opened Polynomials
  import opened NttSpec
  import opened NttInverse
  import opened Ntt
  import opened MlDsaRing

  // ---------- The packed-secret range check ----------

  /** floor(log2 n). */
  function Ilog2(n: nat): nat
    requires n > 0
  {
    if n < 2 then 0 else 1 + Ilog2(n / 2)
  }

  lemma {:induction false} Ilog2Bounds(n: nat)
    requires n > 0
    ensures Pow(2, Ilog2(n)) <= n < Pow(2, Ilog2(n) + 1)
  {
    if n >= 2 {
      Ilog2Bounds(n / 2);
    }
  }

  lemma {:induction false} Ilog2Below(n: nat, k: nat)
    requires 0 < n < Pow(2, k)
    ensures Ilog2(n) < k
  {
    if n >= 2 {
      Ilog2Below(n / 2, k - 1);
    }
  }

  function Width(eta: nat): nat
    requires eta >= 1
  {
    Ilog2(2 * eta) + 1
  }

  /** The width is the bit length of 2*eta. */
  lemma WidthIsBitLength(eta: nat)
    requires eta >= 1
    ensures Width(eta) >= 1 && Pow(2, Width(eta) - 1) <= 2 * eta < Pow(2, Width(eta))
  {
    Ilog2Bounds(2 * eta);
  }

  /** Only one width is the bit length. */
  lemma WidthUnique(eta: nat, w: nat)
    requires eta >= 1 && w >= 1 && Pow(2, w - 1) <= 2 * eta < Pow(2, w)
    ensures w == Width(eta)
  {
    hide Pow, Width;
    WidthIsBitLength(eta);
    if w < Width(eta) {
      PowTwoMonotone(w, Width(eta) - 1);
    } else if Width(eta) < w {
      PowTwoMonotone(Width(eta), w - 1);
    }
  }

  /** The number whose w-bit digits, least significant first, are the codes. */
  ghost function PackedCodes(codes: seq<nat>, w: nat): nat {
    if codes == [] then 0
    else
      PowPositive(2, w);
      codes[0] + Pow(2, w) * PackedCodes(codes[1..], w)
  }

  /** Every complete w-bit code of the bits-long little-endian number is at most limit. */
  ghost predicate CodesAtMost(number: nat, bits: nat, w: nat, limit: nat)
    requires w > 0
    decreases bits
  {
    PowPositive(2, w);
    bits < w || (number % Pow(2, w) <= limit && CodesAtMost(number / Pow(2, w), bits - w, w, limit))
  }

  /** The k-th w-bit code, counting from the least significant bit. */
  ghost function Code(number: nat, w: nat, k: nat): nat {
    PowPositive(2, w * k);
    PowPositive(2, w);
    (number / Pow(2, w * k)) % Pow(2, w)
  }

  lemma DivideTwice(x: nat, a: nat, b: nat)
    requires a > 0 && b > 0
    ensures a * b > 0 && (x / a) / b == x / (a * b)
  {
    var q, r := x / a, x % a;
    var s, t := q / b, q % b;
    assert x == a * (b * s + t) + r;
    assert a * (b * s + t) == (a * b) * s + a * t;
    MulMonotone(a, t + 1, b);
    RemainderUnique(x, a * b, s, a * t + r);
  }

  lemma CodeOfQuotient(number: nat, w: nat, k: nat)
    requires k >= 1
    ensures Pow(2, w) > 0 && Code(number, w, k) == Code(number / Pow(2, w), w, k - 1)
  {
    PowPositive(2, w);
    var d := w * (k - 1);
    ProductStep(w, k);
    PowPositive(2, d);
    PowAdd(2, w, d);
    DivideTwice(number, Pow(2, w), Pow(2, d));
  }

  lemma ProductStep(w: nat, k: nat)
    requires k >= 1
    ensures w * k == w + w * (k - 1) && w * (k - 1) >= 0
  {
  }

  /** The recursive reading of the stream is the statement about every code at once. */
  lemma {:induction false} CodesAtMostMeaning(number: nat, bits: nat, w: nat, limit: nat)
    requires w > 0
    ensures CodesAtMost(number, bits, w, limit)
       <==> forall k: nat :: w * k + w <= bits ==> Code(number, w, k) <= limit
    decreases bits
  {
    hide Code;
    PowPositive(2, w);
    if bits < w {
      forall k: nat ensures w * k + w > bits {
      }
    } else {
      var rest := number / Pow(2, w);
      CodesAtMostMeaning(rest, bits - w, w, limit);
      FirstCode(number, w);
      if CodesAtMost(number, bits, w, limit) {
        forall k: nat | w * k + w <= bits ensures Code(number, w, k) <= limit {
          if k > 0 {
            CodeOfQuotient(number, w, k);
            ShiftedCode(w, k, bits);
          }
        }
      }
      if forall k: nat :: w * k + w <= bits ==> Code(number, w, k) <= limit {
        assert w * 0 + w <= bits;
        forall k: nat | w * k + w <= bits - w ensures Code(rest, w, k) <= limit {
          CodeOfQuotient(number, w, k + 1);
          ShiftedCode(w, k + 1, bits);
        }
      }
    }
  }

  lemma FirstCode(number: nat, w: nat)
    ensures Pow(2, w) > 0 && Code(number, w, 0) == number % Pow(2, w)
  {
    PowPositive(2, w);
    assert w * 0 == 0;
  }

  lemma ShiftedCode(w: nat, k: nat, bits: nat)
    requires k >= 1
    ensures w * k + w <= bits <==> w * (k - 1) + w <= bits - w
  {
    assert w * k == w * (k - 1) + w;
  }

  /** Taking a byte into the accumulator leaves the unread number unchanged. */
  lemma TakeByte(accumulator: nat, available: nat, b: byte, rest: nat)
    ensures accumulator + Pow(2, available) * (b + 256 * rest)
         == (accumulator + b * Pow(2, available)) + Pow(2, available + 8) * rest
  {
    PowAdd(2, available, 8);
    TwoToTheEighth();
    var p := Pow(2, available);
    assert p * (b + 256 * rest) == p * b + (p * 256) * rest;
  }

  lemma TakeBound(accumulator: nat, available: nat, b: byte)
    requires accumulator < Pow(2, available)
    ensures accumulator + b * Pow(2, available) < Pow(2, available + 8)
  {
    PowAdd(2, available, 8);
    TwoToTheEighth();
    MulMonotone(Pow(2, available), b + 1, 256);
  }

  /** Removing a code from the accumulator removes it from the unread number. */
  lemma DropCode(accumulator: nat, available: nat, w: nat, rest: nat)
    requires w <= available && accumulator < Pow(2, available)
    ensures Pow(2, w) > 0 && accumulator / Pow(2, w) < Pow(2, available - w)
    ensures (accumulator + Pow(2, available) * rest) % Pow(2, w) == accumulator % Pow(2, w)
    ensures (accumulator + Pow(2, available) * rest) / Pow(2, w)
         == accumulator / Pow(2, w) + Pow(2, available - w) * rest
  {
    PowPositive(2, w);
    PowAdd(2, w, available - w);
    DropMultiple(accumulator, Pow(2, w), Pow(2, available - w), rest);
  }

  lemma DropMultiple(v: int, m: int, h: int, rest: int)
    requires m > 0 && 0 <= v < m * h
    ensures v / m < h && (v + (m * h) * rest) % m == v % m && (v + (m * h) * rest) / m == v / m + h * rest
  {
    var q, r := v / m, v % m;
    assert v == m * q + r;
    if q >= h {
      MulMonotone(m, h, q);
    }
    assert m * (q + h * rest) == m * q + (m * h) * rest;
    RemainderUnique(v + (m * h) * rest, m, q + h * rest, r);
  }

  /** What is still to be checked, with `available` accumulated bits before the unread bytes. */
  ghost predicate Pending(accumulator: nat, available: nat, rest: seq<byte>, w: nat, limit: nat)
    requires w > 0
  {
    PowPositive(2, available);
    CodesAtMost(accumulator + Pow(2, available) * FromLittleEndian(rest), available + 8 * |rest|, w, limit)
  }

  lemma PendingTake(accumulator: nat, available: nat, rest: seq<byte>, w: nat, limit: nat)
    requires w > 0 && rest != [] && accumulator < Pow(2, available)
    ensures rest[0] * Pow(2, available) >= 0
    ensures accumulator + rest[0] * Pow(2, available) < Pow(2, available + 8)
    ensures Pending(accumulator, available, rest, w, limit)
         == Pending(accumulator + rest[0] * Pow(2, available), available + 8, rest[1..], w, limit)
  {
    hide CodesAtMost;
    FirstByte(rest, 0);
    assert rest[0..] == rest;
    TakeByte(accumulator, available, rest[0], FromLittleEndian(rest[1..]));
    TakeBound(accumulator, available, rest[0]);
  }

  lemma PendingDrop(accumulator: nat, available: nat, rest: seq<byte>, w: nat, limit: nat)
    requires 0 < w <= available && accumulator < Pow(2, available)
    ensures Pow(2, w) > 0 && accumulator / Pow(2, w) < Pow(2, available - w)
    ensures Pending(accumulator, available, rest, w, limit)
         == (accumulator % Pow(2, w) <= limit && Pending(accumulator / Pow(2, w), available - w, rest, w, limit))
  {
    hide CodesAtMost, FromLittleEndian;
    var r := FromLittleEndian(rest);
    PowPositive(2, available);
    DropCode(accumulator, available, w, r);
    CodesAtMostStep(accumulator + Pow(2, available) * r, available + 8 * |rest|, w, limit);
  }

  lemma PendingStart(encoded: seq<byte>, w: nat, limit: nat)
    requires w > 0
    ensures Pending(0, 0, encoded, w, limit) == CodesAtMost(FromLittleEndian(encoded), 8 * |encoded|, w, limit)
  {
    hide CodesAtMost;
  }

  lemma PendingEnd(accumulator: nat, available: nat, w: nat, limit: nat)
    requires available < w
    ensures Pending(accumulator, available, [], w, limit)
  {
  }

  /** Takes complete codes out of the accumulator until fewer than `width` bits remain. */
  method DrainCodes(accumulator0: nat, available0: nat, width: nat, limit: nat, ghost rest: seq<byte>)
    returns (accumulator: nat, available: nat, valid: bool)
    requires width > 0 && accumulator0 < Pow(2, available0)
    ensures available < width && accumulator < Pow(2, available)
    ensures Pending(accumulator0, available0, rest, width, limit)
         == (valid && Pending(accumulator, available, rest, width, limit))
  {
    hide Pending;
    accumulator, available, valid := accumulator0, available0, true;
    while available >= width
      invariant accumulator < Pow(2, available)
      invariant Pending(accumulator0, available0, rest, width, limit)
             == (valid && Pending(accumulator, available, rest, width, limit))
    {
      PendingDrop(accumulator, available, rest, width, limit);
      valid := valid && accumulator % Pow(2, width) <= limit;
      accumulator := accumulator / Pow(2, width);
      available := available - width;
    }
  }

  lemma WidthFits(eta: nat)
    requires eta >= 1 && 2 * eta < Pow(2, 24)
    ensures 1 <= Width(eta) <= 24 && Pow(2, 0) == 1
  {
    Ilog2Below(2 * eta, 24);
  }

  /** Reads the packed secret code by code. Bits are merged by addition, which is the source's
      `|=` because the accumulator stays below 2^available; it never exceeds 32 bits. */
  method ValidSmallSecretEncoding(encoded: seq<byte>, eta: nat) returns (valid: bool)
    requires eta >= 1 && 2 * eta < Pow(2, 24)
    ensures valid <==> CodesAtMost(FromLittleEndian(encoded), 8 * |encoded|, Width(eta), 2 * eta)
  {
    hide Pending, Pow, CodesAtMost, FromLittleEndian, Width;
    WidthFits(eta);
    var width := Width(eta);
    var accumulator: nat := 0;
    var available: nat := 0;
    valid := true;
    PendingStart(encoded, width, 2 * eta);
    assert encoded[0..] == encoded;
    var i := 0;
    while i < |encoded|
      invariant 0 <= i <= |encoded|
      invariant available < width <= 24 && accumulator < Pow(2, available)
      invariant Pending(0, 0, encoded, width, 2 * eta)
             == (valid && Pending(accumulator, available, encoded[i..], width, 2 * eta))
    {
      ghost var rest := encoded[i..];
      assert rest[0] == encoded[i] && rest[1..] == encoded[i + 1..];
      PendingTake(accumulator, available, rest, width, 2 * eta);
      accumulator := accumulator + encoded[i] * Pow(2, available);
      available := available + 8;
      assert available < 32;
      var ok;
      accumulator, available, ok := DrainCodes(accumulator, available, width, 2 * eta, encoded[i + 1..]);
      valid := valid && ok;
      i := i + 1;
    }
    PendingEnd(accumulator, available, width, 2 * eta);
  }

  lemma FirstByte(encoded: seq<byte>, i: nat)
    requires i < |encoded|
    ensures FromLittleEndian(encoded[i..]) == encoded[i] + 256 * FromLittleEndian(encoded[i + 1..])
  {
    assert encoded[i..][1..] == encoded[i + 1..];
  }

  lemma CodesAtMostStep(number: nat, bits: nat, w: nat, limit: nat)
    requires 0 < w <= bits
    ensures Pow(2, w) > 0
    ensures CodesAtMost(number, bits, w, limit)
       <==> number % Pow(2, w) <= limit && CodesAtMost(number / Pow(2, w), bits - w, w, limit)
  {
    PowPositive(2, w);
  }

  lemma FirstDigit(c: nat, m: nat, rest: nat)
    requires c < m
    ensures (c + m * rest) % m == c && (c + m * rest) / m == rest
  {
    RemainderUnique(c + m * rest, m, rest, c);
  }

  lemma {:induction false} PackedCheck(codes: seq<nat>, w: nat, limit: nat)
    requires w >= 1 && forall i :: 0 <= i < |codes| ==> codes[i] < Pow(2, w)
    ensures CodesAtMost(PackedCodes(codes, w), w * |codes|, w, limit) <==>
            forall i :: 0 <= i < |codes| ==> codes[i] <= limit
  {
    hide CodesAtMost, Pow;
    if codes == [] {
      assert w * |codes| == 0;
      NothingPacked(w, limit);
    } else {
      var rest := codes[1..];
      PackedCheck(rest, w, limit);
      assert w * |codes| == w * |rest| + w;
      CodesAtMostStep(PackedCodes(codes, w), w * |codes|, w, limit);
      FirstDigit(codes[0], Pow(2, w), PackedCodes(rest, w));
      assert codes == [codes[0]] + rest;
    }
  }

  lemma NothingPacked(w: nat, limit: nat)
    requires w >= 1
    ensures CodesAtMost(0, 0, w, limit)
  {
  }

  /** The range check on the packing of a code sequence, at the bit length w of 2*eta, succeeds exactly
      when every code is at most 2*eta. */
  lemma PackedSecretCheck(encoded: seq<byte>, codes: seq<nat>, eta: nat, w: nat)
    requires eta >= 1 && w >= 1 && Pow(2, w - 1) <= 2 * eta < Pow(2, w)
    requires forall i :: 0 <= i < |codes| ==> codes[i] < Pow(2, w)
    requires 8 * |encoded| == w * |codes| && FromLittleEndian(encoded) == PackedCodes(codes, w)
    ensures CodesAtMost(FromLittleEndian(encoded), 8 * |encoded|, Width(eta), 2 * eta) <==>
            forall i :: 0 <= i < |codes| ==> codes[i] <= 2 * eta
  {
    hide CodesAtMost, Pow, Width, FromLittleEndian, PackedCodes;
    WidthUnique(eta, w);
    PackedCheck(codes, w, 2 * eta);
  }

  /** For eta 2 codes have three bits, for eta 4 four: one byte 0x07 or 0x09 is out of range. */
  lemma OutOfRangeRejected()
    ensures !CodesAtMost(FromLittleEndian([0x07]), 8, Width(2), 4)
    ensures !CodesAtMost(FromLittleEndian([0x09]), 8, Width(4), 8)
  {
    assert Pow(2, 3) == 8 && Pow(2, 4) == 16;
    WidthUnique(2, 3);
    WidthUnique(4, 4);
    assert FromLittleEndian([0x07]) == 7 && FromLittleEndian([0x09]) == 9;
  }

  // ---------- Power2Round ----------

  /** The residue written back: value - (high << 13) with high = (value + 4095) >> 13. */
  function LowPart(value: Residue): Residue {
    var high := (value + 4095) / 8192;
    ElemSub(value, high * 8192)
  }

  /** Algorithm 35 of FIPS 204: the pair is the only one with the low part centred. */
  lemma LowPartIsCentred(value: Residue, high: int, low: int)
    requires value == high * 8192 + low && -4095 <= low <= 4096
    ensures high == (value + 4095) / 8192 && LowPart(value) == low % Q
  {
  }

  /** Such a pair exists for every residue. */
  lemma CentredPairExists(value: Residue) returns (high: int, low: int)
    ensures value == high * 8192 + low && -4095 <= low <= 4096 && 0 <= high <= 1023
  {
    high := (value + 4095) / 8192;
    low := value - high * 8192;
  }

  function LowParts(p: Poly): Poly {
    seq(256, i requires 0 <= i < 256 => LowPart(p[i]))
  }

  // ---------- The rows of A*s1 + s2 ----------

  /** Transforms every secret polynomial. */
  method TransformAll(s: seq<Poly>) returns (hat: seq<Poly>)
    ensures hat == ForwardAll(s)
  {
    hide Forward;
    hat := [];
    for j := 0 to |s|
      invariant |hat| == j && forall i :: 0 <= i < j ==> hat[i] == Forward(s[i])
    {
      var polynomial := new Residue[256](i requires 0 <= i < 256 => s[j][i]);
      assert polynomial[..] == s[j];
      Transform(polynomial, false);
      hat := hat + [polynomial[..]];
    }
  }

  /** product += a * s, pointwise and in place. */
  method AccumulateColumn(product: array<Residue>, a: Poly, s: Poly)
    requires product.Length == 256
    modifies product
    ensures product[..] == RingAdd(old(product[..]), PointwiseMul(a, s))
  {
    var i := 0;
    while i < 256
      invariant 0 <= i <= 256
      invariant forall x :: 0 <= x < i ==> product[x] == ElemAdd(old(product[x]), ElemMul(a[x], s[x]))
      invariant forall x :: i <= x < 256 ==> product[x] == old(product[x])
    {
      product[i] := ElemAdd(product[i], ElemMul(a[i], s[i]));
      i := i + 1;
    }
  }

  /** The inverse-transformed product of one matrix row with the transformed secret. */
  method RowTimesSecret(aHat: seq<Poly>, s1: seq<Poly>, s1Hat: seq<Poly>) returns (product: array<Residue>)
    requires |aHat| == |s1| && s1Hat == ForwardAll(s1)
    ensures fresh(product) && product.Length == 256
    ensures product[..] == RowProduct(InverseAll(aHat), s1, |s1|)
  {
    hide Inverse, Forward, RingAdd, PointwiseMul;
    product := new Residue[256](_ => 0);
    assert product[..] == ZeroPoly();
    var column := 0;
    while column < |s1Hat|
      invariant 0 <= column <= |s1Hat|
      invariant product[..] == RowAccumulator(aHat, s1Hat, column)
    {
      AccumulateColumn(product, aHat[column], s1Hat[column]);
      column := column + 1;
    }
    Transform(product, true);
    RowThroughTransform(aHat, s1);
  }

  /** row := the low parts of row + product, in place. */
  method AddAndRound(row: array<Residue>, product: array<Residue>)
    requires row.Length == 256 && product.Length == 256 && row != product
    modifies row
    ensures row[..] == LowParts(RingAdd(old(row[..]), product[..]))
  {
    hide LowPart;
    var i := 0;
    while i < 256
      invariant 0 <= i <= 256
      invariant forall x :: 0 <= x < i ==> row[x] == LowPart(ElemAdd(old(row[x]), product[x]))
      invariant forall x :: i <= x < 256 ==> row[x] == old(row[x])
    {
      var value := ElemAdd(row[i], product[i]);
      var high: int := (value as int + 4095) / 8192;
      HighFits(value);
      row[i] := ElemSub(value, high * 8192);
      assert row[i] == LowPart(value) by { LowPartDefinition(value); }
      i := i + 1;
    }
  }

  lemma HighFits(value: Residue)
    ensures (value + 4095) / 8192 * 8192 < Q
  {
  }

  lemma LowPartDefinition(value: Residue)
    ensures (value + 4095) / 8192 * 8192 < Q
    ensures LowPart(value) == ElemSub(value, (value + 4095) / 8192 * 8192)
  {
  }

  /** The low bits that key generation would store for these secrets: row by row, Power2Round of
      A*s1 + s2 computed in the ring. */
  function ExpectedLowBits(a: seq<seq<Poly>>, s1: seq<Poly>, s2: seq<Poly>): (t: seq<Poly>)
    requires |a| == |s2| && forall r :: 0 <= r < |a| ==> |a[r]| == |s1|
    ensures |t| == |s2|
  {
    seq(|s2|, r requires 0 <= r < |s2| => LowParts(RingAdd(s2[r], RowProduct(a[r], s1, |s1|))))
  }

  function InverseMatrix(aHat: seq<seq<Poly>>): (a: seq<seq<Poly>>)
    ensures |a| == |aHat| && forall r :: 0 <= r < |a| ==> |a[r]| == |aHat[r]|
  {
    seq(|aHat|, r requires 0 <= r < |aHat| => InverseAll(aHat[r]))
  }

  /** What the stored low bits are: for the matrix a with transform aHat, coefficient i of row r is the
      centred remainder modulo 2^13 of that coefficient of a[r]*s1 + s2[r]. */
  lemma LowBitsMeaning(aHat: seq<seq<Poly>>, a: seq<seq<Poly>>, s1: seq<Poly>, s2: seq<Poly>, r: nat, i: nat)
    returns (high: int, low: int)
    requires |aHat| == |a| == |s2| && r < |s2| && i < 256
    requires forall r :: 0 <= r < |a| ==> |a[r]| == |aHat[r]| == |s1|
    requires forall r, j :: 0 <= r < |a| && 0 <= j < |s1| ==> Forward(a[r][j]) == aHat[r][j]
    ensures -4095 <= low <= 4096 && 0 <= high <= 1023
    ensures (RowProduct(a[r], s1, |s1|)[i] as int + s2[r][i] as int) % Q == high * 8192 + low
    ensures ExpectedLowBits(InverseMatrix(aHat), s1, s2)[r][i] == low % Q
  {
    hide Forward, RowProduct, InverseAll, LowPart, Inverse;
    SameRow(aHat[r], a[r]);
    assert InverseMatrix(aHat)[r] == a[r];
    var value := ElemAdd(s2[r][i], RowProduct(a[r], s1, |s1|)[i]);
    high, low := CentredPairExists(value);
    LowPartIsCentred(value, high, low);
  }

  lemma SameRow(aHat: seq<Poly>, a: seq<Poly>)
    requires |aHat| == |a| && forall j :: 0 <= j < |a| ==> Forward(a[j]) == aHat[j]
    ensures InverseAll(aHat) == a
  {
    hide Forward, Inverse;
    forall j | 0 <= j < |a| ensures InverseAll(aHat)[j] == a[j] {
      InverseOfForward(a[j]);
    }
  }

  method ComputeLowBits(aHat: seq<seq<Poly>>, s1: seq<Poly>, s2: seq<Poly>) returns (t: seq<Poly>)
    requires |aHat| == |s2| && forall r :: 0 <= r < |aHat| ==> |aHat[r]| == |s1|
    ensures t == ExpectedLowBits(InverseMatrix(aHat), s1, s2)
  {
    hide LowParts, RingAdd, RowProduct, InverseAll, ForwardAll;
    var s1Hat := TransformAll(s1);
    t := [];
    for r := 0 to |s2|
      invariant |t| == r
      invariant forall x :: 0 <= x < r ==> t[x] == ExpectedLowBits(InverseMatrix(aHat), s1, s2)[x]
    {
      var product := RowTimesSecret(aHat[r], s1, s1Hat);
      var row := new Residue[256](i requires 0 <= i < 256 => s2[r][i]);
      assert row[..] == s2[r];
      AddAndRound(row, product);
      t := t + [row[..]];
    }
  }

  /** Accepts exactly the keys whose packed secrets are in range and whose stored low bits are
      those of A*s1 + s2, where A is the matrix whose transform was sampled. */
  method Validate(s1: seq<byte>, s2: seq<byte>, t0: seq<byte>, eta: nat, aHat: seq<seq<Poly>>,
                  decodeS1: seq<byte> -> seq<Poly>, decodeS2: seq<byte> -> seq<Poly>,
                  encodeT0: seq<Poly> -> seq<byte>)
    returns (valid: bool)
    requires eta >= 1 && 2 * eta < Pow(2, 24)
    requires |aHat| == |decodeS2(s2)| && forall r :: 0 <= r < |aHat| ==> |aHat[r]| == |decodeS1(s1)|
    ensures valid <==>
            && CodesAtMost(FromLittleEndian(s1), 8 * |s1|, Width(eta), 2 * eta)
            && CodesAtMost(FromLittleEndian(s2), 8 * |s2|, Width(eta), 2 * eta)
            && encodeT0(ExpectedLowBits(InverseMatrix(aHat), decodeS1(s1), decodeS2(s2))) == t0
  {
    hide CodesAtMost, FromLittleEndian, ExpectedLowBits, InverseMatrix;
    valid := ValidSmallSecretEncoding(s1, eta);
    if valid {
      valid := ValidSmallSecretEncoding(s2, eta);
    }
    if valid {
      var t := ComputeLowBits(aHat, decodeS1(s1), decodeS2(s2));
      valid := encodeT0(t) == t0;
    }
  }
}
