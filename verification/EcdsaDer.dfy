/** The strict DER reader for ECDSA signatures (sections 8.3.2 and 10.1 of X.690). */
module EcdsaDer {
  import opened Arithmetic
  import opened Bytes
  import opened Keystream

  // ---------- Minimal encodings ----------

  /** Short form, or the one-byte long form where the short form does not reach. */
  function EncodeLength(n: byte): (s: seq<byte>)
    ensures 1 <= |s| <= 2
  {
    if n < 0x80 then [n] else [0x81, n]
  }

  /** A magnitude without a needless leading zero. */
  predicate IsMinimal(v: seq<byte>) { v != [] && (|v| > 1 ==> v[0] != 0) }

  /** The content octets: a zero octet keeps a set top bit from reading as a sign. */
  function Content(v: seq<byte>): (s: seq<byte>)
    requires v != []
  {
    if v[0] >= 0x80 then [0] + v else v
  }

  predicate IsInteger(v: seq<byte>) { IsMinimal(v) && |Content(v)| <= 255 }

  function EncodeInteger(v: seq<byte>): (s: seq<byte>)
    requires IsInteger(v)
    ensures |s| >= 3
  {
    [2] + EncodeLength(|Content(v)|) + Content(v)
  }

  predicate IsPair(r: seq<byte>, s: seq<byte>) {
    IsInteger(r) && IsInteger(s) && |EncodeInteger(r)| + |EncodeInteger(s)| <= 255
  }

  function EncodeSignature(r: seq<byte>, s: seq<byte>): (sig: seq<byte>)
    requires IsPair(r, s)
  {
    var body := EncodeInteger(r) + EncodeInteger(s);
    [0x30] + EncodeLength(|body|) + body
  }

  function LeftPad(v: seq<byte>, n: nat): (s: seq<byte>)
    requires |v| <= n
    ensures |s| == n
  {
    Zeros(n - |v|) + v
  }

  // ---------- Reading ----------

  /** t stands in s at offset. */
  predicate At(s: seq<byte>, offset: nat, t: seq<byte>) {
    offset + |t| <= |s| && s[offset..offset + |t|] == t
  }

  lemma AtParts(s: seq<byte>, offset: nat, t: seq<byte>, u: seq<byte>)
    ensures At(s, offset, t + u) <==> At(s, offset, t) && At(s, offset + |t|, u)
  {
    if At(s, offset, t + u) {
      assert (t + u)[..|t|] == t && (t + u)[|t|..] == u;
      assert s[offset..offset + |t|] == s[offset..offset + |t + u|][..|t|];
      assert s[offset + |t|..offset + |t + u|] == s[offset..offset + |t + u|][|t|..];
    }
    if At(s, offset, t) && At(s, offset + |t|, u) {
      assert s[offset..offset + |t + u|] == s[offset..offset + |t|] + s[offset + |t|..offset + |t| + |u|];
    }
  }

  lemma AtByte(s: seq<byte>, offset: nat, b: byte)
    ensures At(s, offset, [b]) <==> offset < |s| && s[offset] == b
  {
    if offset < |s| {
      assert s[offset..offset + 1] == [s[offset]];
    }
  }

  lemma AtLength(s: seq<byte>, offset: nat, n: byte)
    ensures At(s, offset, EncodeLength(n)) <==>
            offset < |s| &&
            (if n < 0x80 then s[offset] == n else s[offset] == 0x81 && offset + 1 < |s| && s[offset + 1] == n)
  {
    if n < 0x80 {
      AtByte(s, offset, n);
    } else {
      assert EncodeLength(n) == [0x81] + [n];
      AtParts(s, offset, [0x81], [n]);
      AtByte(s, offset, 0x81);
      AtByte(s, offset + 1, n);
    }
  }

  /** A length octet or two; the offset moves past what was read. */
  method DerLength(encoded: seq<byte>, start: nat) returns (r: Option<byte>, offset: nat)
    ensures forall n: byte :: r == Some(n) <==> At(encoded, start, EncodeLength(n))
    ensures r.Some? ==> offset == start + |EncodeLength(r.value)|
  {
    forall n: byte
      ensures At(encoded, start, EncodeLength(n)) <==>
              start < |encoded| &&
              (if n < 0x80 then encoded[start] == n
               else encoded[start] == 0x81 && start + 1 < |encoded| && encoded[start + 1] == n)
    {
      AtLength(encoded, start, n);
    }
    hide At;
    offset := start;
    if offset >= |encoded| {
      return None, offset;
    }
    var first := encoded[offset];
    offset := offset + 1;
    if first <= 0x7f {
      return Some(first), offset;
    }
    if first == 0x81 {
      if offset >= |encoded| {
        return None, offset;
      }
      var length := encoded[offset];
      offset := offset + 1;
      return if length >= 0x80 then Some(length) else None, offset;
    }
    return None, offset;
  }

  /** What the content octets must satisfy, and the magnitude they hold. */
  function Magnitude(value: seq<byte>): (r: Option<seq<byte>>) {
    if value == [] || value[0] >= 0x80 then None
    else if |value| > 1 && value[0] == 0 then
      if value[1] < 0x80 then None else Some(value[1..])
    else Some(value)
  }

  lemma MagnitudeIffContent(value: seq<byte>, v: seq<byte>)
    ensures Magnitude(value) == Some(v) <==> IsMinimal(v) && Content(v) == value
  {
    if IsMinimal(v) && Content(v) == value && v[0] >= 0x80 {
      assert value[1..] == v;
    }
    if Magnitude(value) == Some(v) && |value| > 1 && value[0] == 0 {
      assert [0] + value[1..] == value;
    }
  }

  /** An integer stands at the offset exactly when its tag, length and content do. */
  lemma AtInteger(s: seq<byte>, offset: nat, v: seq<byte>)
    requires IsInteger(v)
    ensures var n := |Content(v)|;
            At(s, offset, EncodeInteger(v)) <==>
            offset < |s| && s[offset] == 2 && At(s, offset + 1, EncodeLength(n)) &&
            At(s, offset + 1 + |EncodeLength(n)|, Content(v))
  {
    hide At, Content, EncodeLength;
    var c := Content(v);
    var l := EncodeLength(|c|);
    AtParts(s, offset, [2] + l, c);
    AtParts(s, offset, [2], l);
    AtByte(s, offset, 2);
  }

  method DerPositiveInteger(encoded: seq<byte>, start: nat) returns (r: Option<seq<byte>>, offset: nat)
    ensures forall v :: r == Some(v) <==> IsInteger(v) && At(encoded, start, EncodeInteger(v))
    ensures r.Some? ==> offset == start + |EncodeInteger(r.value)|
  {
    hide At, EncodeLength, Content, Magnitude, EncodeInteger;
    forall v | IsInteger(v)
      ensures At(encoded, start, EncodeInteger(v)) <==>
              start < |encoded| && encoded[start] == 2 && At(encoded, start + 1, EncodeLength(|Content(v)|)) &&
              At(encoded, start + 1 + |EncodeLength(|Content(v)|)|, Content(v)) {
      AtInteger(encoded, start, v);
    }
    offset := start;
    if offset >= |encoded| || encoded[offset] != 0x02 {
      return None, offset;
    }
    offset := offset + 1;
    var length;
    length, offset := DerLength(encoded, offset);
    if length.None? {
      return None, offset;
    }
    var n := length.value;
    if offset + n > |encoded| {
      NoRoom(encoded, offset);
      return None, offset;
    }
    var value := encoded[offset..offset + n];
    ReadsContent(encoded, offset, n);
    offset := offset + n;
    r := Magnitude(value);
    if r.Some? {
      IntegerLength(r.value, value);
    }
  }

  lemma NoRoom(s: seq<byte>, offset: nat)
    ensures forall t :: At(s, offset, t) ==> offset + |t| <= |s|
  {
  }

  /** The bytes at the offset are the content of v exactly when v is their magnitude. */
  lemma ReadsContent(s: seq<byte>, offset: nat, n: byte)
    requires offset + n <= |s|
    ensures var value := s[offset..offset + n];
            forall v :: Magnitude(value) == Some(v) <==> IsInteger(v) && |Content(v)| == n && At(s, offset, Content(v))
  {
    var value := s[offset..offset + n];
    forall v ensures Magnitude(value) == Some(v) <==> IsInteger(v) && |Content(v)| == n && At(s, offset, Content(v)) {
      MagnitudeIffContent(value, v);
    }
  }

  lemma IntegerLength(v: seq<byte>, value: seq<byte>)
    requires Magnitude(value) == Some(v) && IsInteger(v)
    ensures |EncodeInteger(v)| == 1 + |EncodeLength(|value|)| + |value|
  {
    MagnitudeIffContent(value, v);
  }

  /** Zero is read, as the single content octet 0. */
  lemma ZeroIsRead()
    ensures IsInteger([0]) && EncodeInteger([0]) == [2, 1, 0]
    ensures IsPair([0], [0]) && EncodeSignature([0], [0]) == [0x30, 6, 2, 1, 0, 2, 1, 0]
    ensures Magnitude([0]) == Some([0])
  {
  }

  /** It is the only value that is not positive: the magnitude read from any content octets is
      positive exactly when they are not that single octet. */
  lemma {:induction false} PositiveExceptZero(value: seq<byte>, v: seq<byte>)
    requires Magnitude(value) == Some(v)
    ensures FromBigEndian(v) > 0 <==> value != [0]
  {
    MagnitudeIffContent(value, v);
    MinimalPositive(v);
  }

  lemma {:induction false} MinimalPositive(v: seq<byte>)
    requires IsMinimal(v)
    ensures FromBigEndian(v) == 0 <==> v == [0]
  {
    var init := v[..|v| - 1];
    if |v| == 1 {
      assert init == [];
    } else {
      MinimalPositive(init);
      assert init[0] != 0;
    }
  }

  // ---------- The signature ----------

  /** The signature is the minimal encoding of r and s, which fit the coordinate width. */
  ghost predicate Reads(sig: seq<byte>, width: nat, r: seq<byte>, s: seq<byte>) {
    IsPair(r, s) && |r| <= width && |s| <= width && 2 * width < USIZE && sig == EncodeSignature(r, s)
  }

  /** The whole encoding in terms of what stands where. */
  lemma SignatureParts(sig: seq<byte>, r: seq<byte>, s: seq<byte>)
    requires IsPair(r, s)
    ensures var n := |EncodeInteger(r)| + |EncodeInteger(s)|;
            var o := 1 + |EncodeLength(n)|;
            sig == EncodeSignature(r, s) <==>
            |sig| == o + n && sig[0] == 0x30 && At(sig, 1, EncodeLength(n)) &&
            At(sig, o, EncodeInteger(r)) && At(sig, o + |EncodeInteger(r)|, EncodeInteger(s))
  {
    hide EncodeInteger, EncodeLength;
    var a, b := EncodeInteger(r), EncodeInteger(s);
    var l := EncodeLength(|a| + |b|);
    var e := EncodeSignature(r, s);
    assert e == [0x30] + l + (a + b);
    if |sig| == |e| {
      assert sig[0..|sig|] == sig;
      assert At(sig, 0, e) <==> sig == e;
      hide At;
      AtParts(sig, 0, [0x30] + l, a + b);
      AtParts(sig, 0, [0x30], l);
      AtParts(sig, 1 + |l|, a, b);
      AtByte(sig, 0, 0x30);
    }
  }

  /** Accepts exactly the minimal encodings of pairs that fit, and left-pads the two numbers. */
  method SignatureFromDer(signature: seq<byte>, width: nat) returns (result: Option<seq<byte>>)
    ensures result.None? <==> forall r, s :: !Reads(signature, width, r, s)
    ensures forall r, s :: Reads(signature, width, r, s) ==> result == Some(LeftPad(r, width) + LeftPad(s, width))
  {
    hide At, EncodeLength, EncodeInteger, EncodeSignature, IsInteger, LeftPad;
    forall r, s | IsPair(r, s)
      ensures var n := |EncodeInteger(r)| + |EncodeInteger(s)|;
              var o := 1 + |EncodeLength(n)|;
              signature == EncodeSignature(r, s) <==>
              |signature| == o + n && signature[0] == 0x30 && At(signature, 1, EncodeLength(n)) &&
              At(signature, o, EncodeInteger(r)) && At(signature, o + |EncodeInteger(r)|, EncodeInteger(s)) {
      SignatureParts(signature, r, s);
    }
    MinimalNotEmpty();
    var offset := 0;
    if width == 0 || signature == [] || signature[offset] != 0x30 {
      return None;
    }
    offset := offset + 1;
    var length;
    length, offset := DerLength(signature, offset);
    if length.None? || offset + length.value != |signature| {
      return None;
    }
    var r, s;
    r, offset := DerPositiveInteger(signature, offset);
    if r.None? {
      return None;
    }
    s, offset := DerPositiveInteger(signature, offset);
    if s.None? {
      return None;
    }
    if offset != |signature| || |r.value| > width || |s.value| > width {
      return None;
    }
    if 2 * width >= USIZE {
      return None;
    }
    assert Reads(signature, width, r.value, s.value);
    return Some(LeftPad(r.value, width) + LeftPad(s.value, width));
  }

  lemma MinimalNotEmpty()
    ensures forall v :: IsInteger(v) ==> |v| > 0
  {
  }

  // ---------- Canonical and complete ----------

  lemma LeftPadInjective(v: seq<byte>, w: seq<byte>, n: nat)
    requires IsMinimal(v) && IsMinimal(w) && |v| <= n && |w| <= n && LeftPad(v, n) == LeftPad(w, n)
    ensures v == w
  {
    var a, b := LeftPad(v, n), LeftPad(w, n);
    assert a[n - |v|] == v[0] && b[n - |w|] == w[0];
    assert |v| == |w|;
    assert a[n - |v|..] == v && b[n - |w|..] == w;
  }

  /** Two accepted byte strings with the same output are equal. */
  lemma ReaderIsCanonical(sig: seq<byte>, r: seq<byte>, s: seq<byte>, other: seq<byte>, t: seq<byte>, u: seq<byte>,
                          width: nat)
    requires Reads(sig, width, r, s) && Reads(other, width, t, u)
    requires LeftPad(r, width) + LeftPad(s, width) == LeftPad(t, width) + LeftPad(u, width)
    ensures sig == other
  {
    hide LeftPad, EncodeSignature;
    var a, b, c, d := LeftPad(r, width), LeftPad(s, width), LeftPad(t, width), LeftPad(u, width);
    assert a == (a + b)[..width] && b == (a + b)[width..];
    assert c == (c + d)[..width] && d == (c + d)[width..];
    LeftPadInjective(r, t, width);
    LeftPadInjective(s, u, width);
  }

  lemma {:induction false} MinimalBytesPadded(n: nat, len: nat)
    requires len > 0 && n < Pow(256, len)
    ensures var v := MinimalBytes(n);
            IsMinimal(v) && (n > 0 ==> v[0] != 0) && |v| <= len &&
            LeftPad(v, len) == ToBigEndian(n, len)
  {
    assert Pow(256, 1) == 256 * Pow(256, 0);
    if n < 256 {
      ZeroBytes(len - 1);
      assert n / 256 == 0;
    } else {
      MinimalBytesPadded(n / 256, len - 1);
    }
  }

  lemma {:induction false} ZeroBytes(len: nat)
    ensures ToBigEndian(0, len) == Zeros(len)
  {
    if len > 0 {
      ZeroBytes(len - 1);
    }
  }

  /** Every pair of numbers that fits the width and a 255-byte content has its minimal encoding read
      back as the two fixed-width numbers. */
  lemma ReaderIsComplete(r: nat, s: nat, width: nat)
    requires width > 0 && 2 * width < USIZE && r < Pow(256, width) && s < Pow(256, width)
    requires IsPair(MinimalBytes(r), MinimalBytes(s))
    ensures var v, w := MinimalBytes(r), MinimalBytes(s);
            Reads(EncodeSignature(v, w), width, v, w) &&
            LeftPad(v, width) + LeftPad(w, width) == ToBigEndian(r, width) + ToBigEndian(s, width)
  {
    hide EncodeSignature, LeftPad;
    MinimalBytesPadded(r, width);
    MinimalBytesPadded(s, width);
  }

  // ---------- The encodings in the terms of the standard ----------

  /** The number that content octets denote in two's complement, most significant first. */
  ghost function TwosComplement(s: seq<byte>): int
    requires s != []
  {
    FromBigEndian(s) - (if s[0] >= 0x80 then Pow(256, |s|) else 0)
  }

  /** The content octets denote the number in two's complement, and are minimal: the first nine bits are
      neither all zero nor all one. */
  lemma ContentMeans(v: seq<byte>)
    requires IsMinimal(v)
    ensures Content(v) != [] && TwosComplement(Content(v)) == FromBigEndian(v)
    ensures var c := Content(v);
            |c| > 1 ==> !(c[0] == 0 && c[1] < 0x80) && !(c[0] == 0xff && c[1] >= 0x80)
  {
    if v[0] >= 0x80 {
      FirstByteWeight(0, v);
    }
  }

  /** A length below 128 is its own octet; otherwise one octet says that one follows. */
  lemma LengthMeans(n: byte)
    ensures var s := EncodeLength(n);
            if n < 128 then s == [n] else |s| == 2 && s[0] - 128 == |s| - 1 && FromBigEndian(s[1..]) == n
  {
    if n >= 128 {
      assert EncodeLength(n)[1..] == [n];
      assert [n][..0] == [];
    }
  }

  /** Tag, length and content of the whole signature. */
  lemma SignatureMeans(r: seq<byte>, s: seq<byte>)
    requires IsPair(r, s)
    ensures var sig, a, b := EncodeSignature(r, s), EncodeInteger(r), EncodeInteger(s);
            && sig[0] == 0x30 && a[0] == 2 && b[0] == 2 && sig[|sig| - |b|..] == b
            && sig[|sig| - |b| - |a|..|sig| - |b|] == a
            && sig[1..|sig| - |b| - |a|] == EncodeLength(|a| + |b|)
            && a[1..|a| - |Content(r)|] == EncodeLength(|Content(r)|) && a[|a| - |Content(r)|..] == Content(r)
            && b[1..|b| - |Content(s)|] == EncodeLength(|Content(s)|) && b[|b| - |Content(s)|..] == Content(s)
  {
    hide EncodeLength, Content;
  }
}
