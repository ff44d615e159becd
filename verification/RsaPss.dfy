/** PSS encoding and verification (sections 9.1.1 and 9.1.2 of RFC 8017). */
module RsaPss {
  import opened Arithmetic
  import opened Bytes
  import opened RsaEncoding

  datatype Parameters = Parameters(hash: seq<byte> -> seq<byte>, hashLength: nat, mgf: Mgf, saltLength: nat)

  ghost predicate Valid(p: Parameters) {
    IsMgf(p.mgf) && forall x: seq<byte> :: |p.hash(x)| == p.hashLength
  }

  function EmLen(modulusBits: nat): (n: nat)
    requires modulusBits > 0
    ensures modulusBits - 1 <= 8 * n < modulusBits + 7
  {
    (modulusBits + 6) / 8
  }

  /** The first byte of an encoding is below this power of two. */
  function FirstByteBound(modulusBits: nat): (m: nat)
    requires modulusBits > 0
    ensures m in [2, 4, 8, 16, 32, 64, 128, 256]
  {
    match 8 * EmLen(modulusBits) - (modulusBits - 1)
    case 0 => 256 case 1 => 128 case 2 => 64 case 3 => 32 case 4 => 16 case 5 => 8 case 6 => 4 case _ => 2
  }

  // ---------- Masking the first byte ----------

  lemma {:induction false} XorLowBits(n: nat, k: nat, a: nat, b: nat)
    requires k <= n
    ensures Pow(2, k) > 0 && XorBits(n, a, b) % Pow(2, k) == XorBits(k, a, b)
  {
    PowPositive(2, k);
    if k > 0 {
      XorLowBits(n - 1, k - 1, a / 2, b / 2);
      PowPositive(2, k - 1);
      LowBitsStep(XorBits(n - 1, a / 2, b / 2), Pow(2, k - 1), if a % 2 == b % 2 then 0 else 1);
    }
  }

  lemma LowBitsStep(x: nat, p: nat, bit: nat)
    requires p > 0 && bit <= 1
    ensures (2 * x + bit) % (2 * p) == 2 * (x % p) + bit
  {
    var q, r := x / p, x % p;
    assert 2 * (p * q) == (2 * p) * q;
    RemainderUnique(2 * x + bit, 2 * p, q, 2 * r + bit);
  }

  lemma {:induction false} XorIgnoresHigh(k: nat, a: nat, b: nat)
    ensures Pow(2, k) > 0 && XorBits(k, a % Pow(2, k), b) == XorBits(k, a, b)
  {
    PowPositive(2, k);
    if k > 0 {
      PowPositive(2, k - 1);
      var p := Pow(2, k - 1);
      XorIgnoresHigh(k - 1, a / 2, b / 2);
      LowBitsStep(a / 2, p, a % 2);
      assert (a % (2 * p)) / 2 == (a / 2) % p;
    }
  }

  lemma BoundIsPower(m: nat) returns (k: nat)
    requires m in [2, 4, 8, 16, 32, 64, 128, 256]
    ensures k <= 8 && m == Pow(2, k)
  {
    assert Pow(2, 4) == 16;
    TwoToTheEighth();
    k := if m == 2 then 1 else if m == 4 then 2 else if m == 8 then 3 else if m == 16 then 4
         else if m == 32 then 5 else if m == 64 then 6 else if m == 128 then 7 else 8;
  }

  /** Masking and reducing twice gives a small enough first byte back. */
  lemma FirstByteReturns(x: byte, mask: byte, m: nat)
    requires m in [2, 4, 8, 16, 32, 64, 128, 256] && x < m
    ensures Xor(Xor(x, mask) % m, mask) % m == x
  {
    hide XorBits, Pow;
    var k := BoundIsPower(m);
    var y: int := Xor(x, mask);
    XorLowBits(8, k, y % m, mask);
    XorIgnoresHigh(k, y, mask);
    XorLowBits(8, k, y, mask);
    XorCancels(x, mask);
    RemainderUnique(x, m, 0, x);
  }

  /** Exclusive or with the mask, then clear the unused bits of the first byte. */
  function Masked(db: seq<byte>, mask: seq<byte>, m: nat): (r: seq<byte>)
    requires db != [] && |db| == |mask| && 0 < m <= 256
    ensures |r| == |db|
  {
    var x := XorSeq(db, mask);
    x[0 := (x[0] as int) % m]
  }

  lemma MaskedTwice(db: seq<byte>, mask: seq<byte>, m: nat)
    requires db != [] && |db| == |mask| && m in [2, 4, 8, 16, 32, 64, 128, 256] && db[0] < m
    ensures Masked(Masked(db, mask, m), mask, m) == db
  {
    hide Xor;
    var r := Masked(db, mask, m);
    var s := Masked(r, mask, m);
    FirstByteReturns(db[0], mask[0], m);
    forall i | 0 <= i < |db| ensures s[i] == db[i] {
      if i > 0 {
        XorCancels(db[i], mask[i]);
      }
    }
  }

  // ---------- Encoding ----------

  function Padding(n: nat, salt: seq<byte>): (db: seq<byte>)
    ensures |db| == n + 1 + |salt|
  {
    Zeros(n) + [1] + salt
  }

  function HashInput(digest: seq<byte>, salt: seq<byte>): seq<byte> { Zeros(8) + digest + salt }

  function Assemble(db: seq<byte>, h: seq<byte>): (em: seq<byte>)
    ensures |em| == |db| + |h| + 1
  {
    db + h + [0xbc]
  }

  /** The encoding of a digest with an explicit salt. */
  function Encode(modulusBits: nat, p: Parameters, digest: seq<byte>, salt: seq<byte>): (r: Output)
    requires Valid(p) && |salt| == p.saltLength
  {
    if |digest| != p.hashLength then Err(InvalidDigestLength)
    else if modulusBits == 0 then Err(InvalidKey)
    else if EmLen(modulusBits) < p.hashLength + p.saltLength + 2 then Err(InputTooLong)
    else
      var h := p.hash(HashInput(digest, salt));
      var db := Padding(EmLen(modulusBits) - p.saltLength - p.hashLength - 2, salt);
      match p.mgf(h, |db|)
      case None => Err(InputTooLong)
      case Some(mask) => Ok(Assemble(Masked(db, mask, FirstByteBound(modulusBits)), h))
  }

  method EncodedDigest(modulusBits: nat, p: Parameters, digest: seq<byte>, salt: seq<byte>) returns (r: Output)
    requires Valid(p) && |salt| == p.saltLength
    ensures r == Encode(modulusBits, p, digest, salt)
  {
    hide XorSeq;
    if |digest| != p.hashLength {
      return Err(InvalidDigestLength);
    }
    if modulusBits == 0 {
      return Err(InvalidKey);
    }
    var emLen := EmLen(modulusBits);
    if emLen < p.hashLength + p.saltLength + 2 {
      return Err(InputTooLong);
    }
    var h := p.hash(Zeros(8) + digest + salt);
    var db := CopyToArray(Zeros(emLen - p.saltLength - p.hashLength - 2) + [1] + salt);
    var mask := p.mgf(h, db.Length);
    if mask.None? {
      return Err(InputTooLong);
    }
    XorInPlace(db, mask.value);
    var first: int := db[0];
    db[0] := first % FirstByteBound(modulusBits);
    return Ok(db[..] + h + [0xbc]);
  }

  // ---------- Verification ----------

  /** em, of full length, is the encoding of the digest under some salt. */
  ghost predicate IsEncoding(em: seq<byte>, modulusBits: nat, p: Parameters, digest: seq<byte>)
    requires Valid(p)
  {
    exists salt: seq<byte> :: |salt| == p.saltLength && Encode(modulusBits, p, digest, salt) == Ok(em)
  }

  /** The encoded bytes are leading zeros and then an encoding of the digest. */
  ghost predicate Accepts(encoded: seq<byte>, modulusBits: nat, p: Parameters, digest: seq<byte>)
    requires Valid(p)
  {
    modulusBits > 0 && |encoded| >= EmLen(modulusBits) &&
    var prefix := |encoded| - EmLen(modulusBits);
    (forall i :: 0 <= i < prefix ==> encoded[i] == 0) && IsEncoding(encoded[prefix..], modulusBits, p, digest)
  }

  /** db is zeros, then 1, then the salt. */
  ghost predicate IsPadding(db: seq<byte>, saltLength: nat) {
    |db| > saltLength && db == Padding(|db| - saltLength - 1, db[|db| - saltLength..])
  }

  /** The verification equation on a full-length encoding split at the hash. */
  ghost predicate Checks(em: seq<byte>, modulusBits: nat, p: Parameters, digest: seq<byte>)
    requires Valid(p) && modulusBits > 0 && |em| >= p.hashLength + p.saltLength + 2
  {
    var offset := |em| - p.hashLength - 1;
    var h := em[offset..offset + p.hashLength];
    em[|em| - 1] == 0xbc && em[0] < FirstByteBound(modulusBits) && p.mgf(h, offset).Some? &&
    var db := Masked(em[..offset], p.mgf(h, offset).value, FirstByteBound(modulusBits));
    IsPadding(db, p.saltLength) && p.hash(HashInput(digest, db[|db| - p.saltLength..])) == h
  }

  lemma SplitEncoding(db: seq<byte>, h: seq<byte>)
    ensures var em := Assemble(db, h);
            em[..|db|] == db && em[|db|..|db| + |h|] == h && em[|em| - 1] == 0xbc
  {
  }

  lemma JoinEncoding(em: seq<byte>, n: nat)
    requires n + 1 <= |em| && em[|em| - 1] == 0xbc
    ensures em == Assemble(em[..|em| - n - 1], em[|em| - n - 1..|em| - 1])
  {
  }

  lemma PaddingStart(n: nat, salt: seq<byte>)
    ensures Padding(n, salt)[0] <= 1 && Padding(n, salt)[n + 1..] == salt
  {
  }

  /** An encoding passes the checks. */
  lemma EncodingChecks(em: seq<byte>, modulusBits: nat, p: Parameters, digest: seq<byte>, salt: seq<byte>)
    requires Valid(p) && |salt| == p.saltLength && Encode(modulusBits, p, digest, salt) == Ok(em)
    ensures modulusBits > 0 && |em| == EmLen(modulusBits) >= p.hashLength + p.saltLength + 2 &&
            Checks(em, modulusBits, p, digest)
  {
    hide Masked, Padding, Assemble, HashInput, FirstByteBound;
    var h, n := p.hash(HashInput(digest, salt)), EmLen(modulusBits) - p.saltLength - p.hashLength - 2;
    var db, m := Padding(n, salt), FirstByteBound(modulusBits);
    var mask := p.mgf(h, |db|).value;
    MgfLength(p.mgf, h, |db|);
    PaddingStart(n, salt);
    FirstByteSmall(db, mask, m);
    MaskedTwice(db, mask, m);
    SplitEncoding(Masked(db, mask, m), h);
    assert em[0] == em[..|db|][0];
  }

  lemma FirstByteSmall(db: seq<byte>, mask: seq<byte>, m: nat)
    requires db != [] && |db| == |mask| && 0 < m <= 256
    ensures Masked(db, mask, m)[0] < m
  {
  }

  /** What passes the checks is the encoding with the salt found. */
  lemma ChecksEncoding(em: seq<byte>, modulusBits: nat, p: Parameters, digest: seq<byte>)
    requires Valid(p) && |digest| == p.hashLength && modulusBits > 0
    requires |em| == EmLen(modulusBits) >= p.hashLength + p.saltLength + 2 && Checks(em, modulusBits, p, digest)
    ensures IsEncoding(em, modulusBits, p, digest)
  {
    hide Masked, Padding, Assemble, HashInput, FirstByteBound;
    var offset, m := |em| - p.hashLength - 1, FirstByteBound(modulusBits);
    var h := em[offset..offset + p.hashLength];
    var mask := p.mgf(h, offset).value;
    MgfLength(p.mgf, h, offset);
    var masked := em[..offset];
    var db := Masked(masked, mask, m);
    MaskedTwice(masked, mask, m);
    JoinEncoding(em, p.hashLength);
    var salt := db[|db| - p.saltLength..];
    assert Encode(modulusBits, p, digest, salt) == Ok(em);
  }

  /** The scan for the separator. */
  lemma PaddingScan(db: seq<byte>, saltLength: nat)
    requires |db| > saltLength
    ensures IsPadding(db, saltLength) <==>
            db[|db| - saltLength - 1] == 1 && forall i :: 0 <= i < |db| - saltLength - 1 ==> db[i] == 0
  {
    var n := |db| - saltLength - 1;
    var pad := Padding(n, db[n + 1..]);
    if db[n] == 1 && forall i :: 0 <= i < n ==> db[i] == 0 {
      forall i | 0 <= i < |db| ensures db[i] == pad[i] {
      }
      assert db == pad;
    }
    assert pad[n] == 1;
    forall i | 0 <= i < n ensures pad[i] == 0 {
      assert pad[i] == Zeros(n)[i];
    }
  }

  /** The source's verifier accepts exactly the leading zeros followed by an encoding of the digest. */
  method VerifyEncodedDigest(encoded: seq<byte>, modulusBits: nat, p: Parameters, digest: seq<byte>)
    returns (r: Result<(), EncodingError>)
    requires Valid(p)
    ensures r.Ok? <==> Accepts(encoded, modulusBits, p, digest)
    ensures r == Err(InvalidDigestLength) <==> |digest| != p.hashLength
    ensures r == Err(InvalidKey) <==> |digest| == p.hashLength && modulusBits == 0
  {
    hide Encode, Padding, Masked, HashInput, XorSeq, FirstByteBound, IsPadding;
    NotEncoded(modulusBits, p, digest);
    if |digest| != p.hashLength {
      return Err(InvalidDigestLength);
    }
    if modulusBits == 0 {
      return Err(InvalidKey);
    }
    var emLen := EmLen(modulusBits);
    if |encoded| < emLen {
      return Err(InvalidSignature);
    }
    var prefixLength := |encoded| - emLen;
    if exists i :: 0 <= i < prefixLength && encoded[i] != 0 {
      return Err(InvalidSignature);
    }
    var em := encoded[prefixLength..];
    EncodingIffChecks(em, modulusBits, p, digest);
    if |em| < p.hashLength + p.saltLength + 2 || em[|em| - 1] != 0xbc {
      return Err(InvalidSignature);
    }
    r := CheckFullLength(em, modulusBits, p, digest);
  }

  lemma NotEncoded(modulusBits: nat, p: Parameters, digest: seq<byte>)
    requires Valid(p)
    ensures |digest| != p.hashLength || modulusBits == 0 ==> forall em :: !IsEncoding(em, modulusBits, p, digest)
  {
  }

  lemma EncodingIffChecks(em: seq<byte>, modulusBits: nat, p: Parameters, digest: seq<byte>)
    requires Valid(p) && |digest| == p.hashLength && modulusBits > 0 && |em| == EmLen(modulusBits)
    ensures IsEncoding(em, modulusBits, p, digest) <==>
            |em| >= p.hashLength + p.saltLength + 2 && Checks(em, modulusBits, p, digest)
  {
    hide Checks, Encode;
    if IsEncoding(em, modulusBits, p, digest) {
      var salt: seq<byte> :| |salt| == p.saltLength && Encode(modulusBits, p, digest, salt) == Ok(em);
      EncodingChecks(em, modulusBits, p, digest, salt);
    }
    if |em| >= p.hashLength + p.saltLength + 2 && Checks(em, modulusBits, p, digest) {
      ChecksEncoding(em, modulusBits, p, digest);
    }
  }

  method CheckFullLength(em: seq<byte>, modulusBits: nat, p: Parameters, digest: seq<byte>)
    returns (r: Result<(), EncodingError>)
    requires Valid(p) && modulusBits > 0 && |em| >= p.hashLength + p.saltLength + 2 && em[|em| - 1] == 0xbc
    ensures r.Ok? <==> Checks(em, modulusBits, p, digest)
    ensures r.Err? ==> r.error in [InvalidSignature, InputTooLong]
  {
    hide HashInput, XorSeq, FirstByteBound, IsPadding;
    var offset := |em| - p.hashLength - 1;
    var h := em[offset..offset + p.hashLength];
    var bound := FirstByteBound(modulusBits);
    if em[0] >= bound {
      return Err(InvalidSignature);
    }
    var mask := p.mgf(h, offset);
    if mask.None? {
      return Err(InputTooLong);
    }
    var buffer := CopyToArray(em[..offset]);
    XorInPlace(buffer, mask.value);
    var first: int := buffer[0];
    buffer[0] := first % bound;
    var db := buffer[..];
    var separator := |db| - p.saltLength - 1;
    PaddingScan(db, p.saltLength);
    if db[separator] != 1 || exists i :: 0 <= i < separator && db[i] != 0 {
      return Err(InvalidSignature);
    }
    if p.hash(HashInput(digest, db[separator + 1..])) == h {
      return Ok(());
    } else {
      return Err(InvalidSignature);
    }
  }

  // ---------- What an encoding is ----------

  /** The first byte keeps as many bits as the modulus length less one leaves it. */
  lemma BoundMeans(modulusBits: nat)
    requires modulusBits > 0
    ensures var unused := 8 * EmLen(modulusBits) - (modulusBits - 1);
            0 <= unused <= 7 && FirstByteBound(modulusBits) == Pow(2, 8 - unused)
  {
    TwoToTheEighth();
    assert Pow(2, 1) == 2 && Pow(2, 2) == 4 && Pow(2, 3) == 8 && Pow(2, 4) == 16;
    assert Pow(2, 5) == 2 * Pow(2, 4) && Pow(2, 6) == 2 * Pow(2, 5) && Pow(2, 7) == 2 * Pow(2, 6);
  }

  lemma FirstByteBoundsValue(em: seq<byte>, k: nat)
    requires em != [] && k <= 8 && em[0] < Pow(2, k)
    ensures FromBigEndian(em) < Pow(2, 8 * (|em| - 1) + k)
  {
    hide FromBigEndian, Pow;
    var rest := em[1..];
    assert em == [em[0]] + rest;
    FirstByteWeight(em[0], rest);
    BigEndianBound(rest);
    TwoToTheEighth();
    PowPow(2, 8, |rest|);
    PowAdd(2, k, 8 * |rest|);
    var p := Pow(256, |rest|);
    PowPositive(256, |rest|);
    var first: int := em[0];
    MulMonotone(p, first + 1, Pow(2, k));
    assert p * (first + 1) == first * p + p;
  }

  /** An encoding, as a number, has at most modulusBits - 1 bits, so it is below the modulus. */
  lemma EncodingFits(modulusBits: nat, p: Parameters, digest: seq<byte>, salt: seq<byte>, em: seq<byte>)
    requires Valid(p) && |salt| == p.saltLength && Encode(modulusBits, p, digest, salt) == Ok(em)
    ensures modulusBits > 0 && FromBigEndian(em) < Pow(2, modulusBits - 1)
  {
    hide Encode, FromBigEndian, Pow, FirstByteBound;
    EncodingChecks(em, modulusBits, p, digest, salt);
    BoundMeans(modulusBits);
    var unused := 8 * EmLen(modulusBits) - (modulusBits - 1);
    FirstByteBoundsValue(em, 8 - unused);
    assert 8 * (|em| - 1) + (8 - unused) == modulusBits - 1;
  }

  /** The parts of an encoding: the hash of eight zero bytes, the digest and the salt; the block of
      zeros, a one and the salt, masked from that hash, with the unused bits of its first byte cleared;
      and the trailer. */
  lemma EncodingMeans(modulusBits: nat, p: Parameters, digest: seq<byte>, salt: seq<byte>, em: seq<byte>, m: seq<byte>)
    returns (h: seq<byte>, mask: seq<byte>)
    requires Valid(p) && |salt| == p.saltLength && Encode(modulusBits, p, digest, salt) == Ok(em)
    requires |m| == 8 + |digest| + |salt| && m[8..8 + |digest|] == digest && m[8 + |digest|..] == salt
    requires forall i :: 0 <= i < 8 ==> m[i] == 0
    ensures |digest| == p.hashLength && modulusBits > 0 && modulusBits - 1 <= 8 * |em| < modulusBits + 7
    ensures p.hash(m) == h && |h| == p.hashLength && |em| >= |h| + |salt| + 2
    ensures em[|em| - |h| - 1..|em| - 1] == h && em[|em| - 1] == 0xbc
    ensures p.mgf(h, |em| - |h| - 1) == Some(mask) && |mask| == |em| - |h| - 1
    ensures forall i :: 0 <= i < |mask| ==>
              var n := |mask| - |salt| - 1;
              var plain: byte := if i < n then 0 else if i == n then 1 else salt[i - n - 1];
              var masked: int := Xor(plain, mask[i]);
              em[i] == if i == 0 then masked % FirstByteBound(modulusBits) else masked
  {
    hide FirstByteBound, Xor;
    assert m == HashInput(digest, salt);
    h := p.hash(m);
    var n := EmLen(modulusBits) - p.saltLength - p.hashLength - 2;
    var db := Padding(n, salt);
    mask := p.mgf(h, |db|).value;
    MgfLength(p.mgf, h, |db|);
    var masked := Masked(db, mask, FirstByteBound(modulusBits));
    assert em == Assemble(masked, h);
    SplitEncoding(masked, h);
    forall i | 0 <= i < |mask| ensures em[i] == masked[i] {
      assert em[i] == em[..|masked|][i];
    }
  }

  /** Exactly when the encoder refuses. */
  lemma EncodeRefuses(modulusBits: nat, p: Parameters, digest: seq<byte>, salt: seq<byte>)
    requires Valid(p) && |salt| == p.saltLength
    ensures Encode(modulusBits, p, digest, salt) == Err(InvalidDigestLength) <==> |digest| != p.hashLength
    ensures Encode(modulusBits, p, digest, salt) == Err(InvalidKey) <==> |digest| == p.hashLength && modulusBits == 0
    ensures |digest| == p.hashLength && modulusBits > 0 && (forall s, n: nat :: p.mgf(s, n).Some?) ==>
              (Encode(modulusBits, p, digest, salt).Err? <==> modulusBits - 1 <= 8 * (p.hashLength + p.saltLength + 1))
  {
    hide Masked, Padding, FirstByteBound, HashInput;
  }
}
