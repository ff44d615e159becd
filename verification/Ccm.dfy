/** CCM over caller-supplied block encryption and CBC-MAC (section 2.2 of RFC 3610,
    Appendix A of SP 800-38C). */
module Ccm {
  import opened Arithmetic
  import opened Bytes
  import opened Keystream

  datatype Operation = EncryptBlocks | CbcMac

  datatype CcmError<+E> =
    | InvalidNonceLength
    | InvalidTagLength
    | InvalidDataLength
    | InputTooLong
    | InvalidBlockOutput
    | AuthenticationFailed
    | BlockOperation(error: E)

  type Crypt<!E> = (Operation, seq<byte>) -> Result<seq<byte>, E>

  type Output<!E> = Result<seq<byte>, CcmError<E>>

  predicate ValidTagLength(t: nat) { t in [4, 6, 8, 10, 12, 14, 16] }

  predicate ValidNonce(nonce: seq<byte>) { 7 <= |nonce| <= 13 }

  function LengthBytes(nonce: seq<byte>): (l: nat)
    requires ValidNonce(nonce)
    ensures 2 <= l <= 8
  {
    15 - |nonce|
  }

  /** A number as the last bytes of its 64-bit big-endian form. */
  function Field(n: nat, len: nat): (s: seq<byte>)
    requires len <= 8
    ensures |s| == len
  {
    ToBigEndian(n, 8)[8 - len..]
  }

  function CounterBlock(nonce: seq<byte>, counter: nat): (b: seq<byte>)
    requires ValidNonce(nonce)
    ensures |b| == 16
  {
    [LengthBytes(nonce) - 1] + nonce + Field(counter, LengthBytes(nonce))
  }

  /** The counter blocks 0 to n. */
  function CounterBlocks(nonce: seq<byte>, n: nat): (s: seq<byte>)
    requires ValidNonce(nonce)
    ensures |s| == 16 * (n + 1)
  {
    (if n == 0 then [] else CounterBlocks(nonce, n - 1)) + CounterBlock(nonce, n)
  }

  function Flags(t: nat, nonce: seq<byte>, aad: seq<byte>): (f: byte)
    requires ValidTagLength(t) && ValidNonce(nonce)
    ensures f >= 8
  {
    (if aad == [] then 0 else 64) + 8 * ((t - 2) / 2) + (LengthBytes(nonce) - 1)
  }

  function FirstBlock(t: nat, nonce: seq<byte>, aad: seq<byte>, dataLength: nat): (b: seq<byte>)
    requires ValidTagLength(t) && ValidNonce(nonce)
    ensures |b| == 16
  {
    [Flags(t, nonce, aad)] + nonce + Field(dataLength, LengthBytes(nonce))
  }

  function AadHeader(n: nat): (h: seq<byte>)
    ensures |h| == if n < 0xff00 then 2 else 6
  {
    if n < 0xff00 then ToBigEndian(n, 2) else [0xff, 0xfe] + ToBigEndian(n, 4)
  }

  function AadPart(aad: seq<byte>): (s: seq<byte>) {
    if aad == [] then [] else AadHeader(|aad|) + aad
  }

  function MacInput(t: nat, nonce: seq<byte>, aad: seq<byte>, dataLength: nat, plaintext: seq<byte>): (s: seq<byte>)
    requires ValidTagLength(t) && ValidNonce(nonce)
  {
    PadToBlock(PadToBlock(FirstBlock(t, nonce, aad, dataLength) + AadPart(aad)) + plaintext)
  }

  /** The parameters the source lets through: the payload's length fits its field and the associated
      data's length fits 32 bits. */
  predicate ValidParameters(t: nat, nonce: seq<byte>, aad: seq<byte>, dataLength: nat) {
    ValidTagLength(t) && ValidNonce(nonce) && dataLength < USIZE && dataLength < Pow(256, LengthBytes(nonce)) &&
    |aad| <= 0xFFFF_FFFF
  }

  // ---------- The MAC input determines its parts ----------

  lemma FieldInjective(m: nat, n: nat, len: nat)
    requires len <= 8 && m < Pow(256, len) && n < Pow(256, len) && Field(m, len) == Field(n, len)
    ensures m == n
  {
    LowBytes(m, 8, len);
    LowBytes(n, 8, len);
    BigEndianInjective(m, n, len);
  }

  lemma FlagsInjective(t: nat, nonce: seq<byte>, aad: seq<byte>, u: nat, other: seq<byte>, bad: seq<byte>)
    requires ValidTagLength(t) && ValidNonce(nonce) && ValidTagLength(u) && ValidNonce(other)
    requires Flags(t, nonce, aad) == Flags(u, other, bad)
    ensures t == u && |nonce| == |other| && (aad == [] <==> bad == [])
  {
    var a, b := (t - 2) / 2, (u - 2) / 2;
    assert 1 <= a <= 7 && 1 <= b <= 7 && t == 2 * a + 2 && u == 2 * b + 2;
  }

  /** Two equal first blocks agree on every parameter they encode. */
  lemma FirstBlockInjective(t: nat, nonce: seq<byte>, aad: seq<byte>, m: nat, u: nat, other: seq<byte>,
                            bad: seq<byte>, n: nat)
    requires ValidParameters(t, nonce, aad, m) && ValidParameters(u, other, bad, n)
    requires FirstBlock(t, nonce, aad, m) == FirstBlock(u, other, bad, n)
    ensures t == u && nonce == other && m == n && (aad == [] <==> bad == [])
  {
    hide Flags, Field, Pow;
    var b, c := FirstBlock(t, nonce, aad, m), FirstBlock(u, other, bad, n);
    assert b[0] == Flags(t, nonce, aad) && c[0] == Flags(u, other, bad);
    FlagsInjective(t, nonce, aad, u, other, bad);
    var k := |nonce|;
    assert b[1..1 + k] == nonce && c[1..1 + k] == other;
    assert b[1 + k..] == Field(m, 15 - k) && c[1 + k..] == Field(n, 15 - k);
    FieldInjective(m, n, 15 - k);
  }

  lemma PowersOf256()
    ensures Pow(256, 2) == 0x1_0000 && Pow(256, 4) == 0x1_0000_0000
  {
    assert Pow(256, 1) == 256;
    PowAdd(256, 1, 1);
    PowAdd(256, 2, 2);
  }

  lemma ShortHeader(n: nat)
    requires n < 0xff00
    ensures AadHeader(n)[0] < 0xff
  {
    assert ToBigEndian(n, 2) == ToBigEndian(n / 256, 1) + [n % 256];
    assert ToBigEndian(n / 256, 1) == ToBigEndian(n / 256 / 256, 0) + [(n / 256) % 256];
    assert n / 256 < 0xff;
  }

  /** The length header is a prefix code. */
  lemma HeaderInjective(m: nat, x: seq<byte>, n: nat, y: seq<byte>)
    requires m <= 0xFFFF_FFFF && n <= 0xFFFF_FFFF && AadHeader(m) + x == AadHeader(n) + y
    ensures m == n
  {
    hide Pow, ToBigEndian;
    var h, k := AadHeader(m), AadHeader(n);
    assert (h + x)[0] == h[0] && (k + y)[0] == k[0];
    if m < 0xff00 { ShortHeader(m); }
    if n < 0xff00 { ShortHeader(n); }
    assert |h| == |k|;
    assert h == (h + x)[..|h|] && x == (h + x)[|h|..];
    assert k == (k + y)[..|k|] && y == (k + y)[|k|..];
    PowersOf256();
    if m < 0xff00 {
      BigEndianInjective(m, n, 2);
    } else {
      assert h[2..] == ToBigEndian(m, 4) && k[2..] == ToBigEndian(n, 4);
      BigEndianInjective(m, n, 4);
    }
  }

  lemma Regroup(a: seq<byte>, b: seq<byte>, c: seq<byte>)
    ensures (a + b) + c == a + (b + c)
  {
  }

  lemma AadPartInjective(aad: seq<byte>, x: seq<byte>, bad: seq<byte>, y: seq<byte>)
    requires |aad| <= 0xFFFF_FFFF && |bad| <= 0xFFFF_FFFF && (aad == [] <==> bad == [])
    requires AadPart(aad) + x == AadPart(bad) + y
    ensures |aad| == |bad|
  {
    hide AadHeader;
    if aad != [] {
      var h, k := AadHeader(|aad|), AadHeader(|bad|);
      Regroup(h, aad, x);
      Regroup(k, bad, y);
      HeaderInjective(|aad|, aad + x, |bad|, bad + y);
    }
  }

  /** The head of the MAC input, padded, read off the front. */
  lemma SplitHead(b: seq<byte>, part: seq<byte>, p: seq<byte>)
    requires |b| == 16
    ensures var s := PadToBlock(PadToBlock(b + part) + p);
            s[..16] == b && exists x :: s[16..] == part + x
  {
    hide PadToBlock;
    var inner := PadToBlock(b + part);
    var s := PadToBlock(inner + p);
    assert inner[..|b + part|] == b + part;
    assert s[..|inner + p|] == inner + p;
    var n := |b + part|;
    assert s[..n] == b + part by {
      assert s[..n] == s[..|inner + p|][..n] == inner[..n];
    }
    assert s[..16] == s[..n][..16];
    assert s[16..] == part + s[n..] by {
      assert s[16..n] == s[..n][16..] == part;
      assert s[16..] == s[16..n] + s[n..];
    }
  }

  /** The MAC input is an injective encoding of tag length, nonce, associated data and payload. */
  lemma MacInputInjective(t: nat, nonce: seq<byte>, aad: seq<byte>, p: seq<byte>, u: nat, other: seq<byte>,
                          bad: seq<byte>, q: seq<byte>)
    requires ValidParameters(t, nonce, aad, |p|) && ValidParameters(u, other, bad, |q|)
    requires MacInput(t, nonce, aad, |p|, p) == MacInput(u, other, bad, |q|, q)
    ensures t == u && nonce == other && aad == bad && p == q
  {
    hide FirstBlock, AadPart, PadToBlock, Pow;
    var b, c := FirstBlock(t, nonce, aad, |p|), FirstBlock(u, other, bad, |q|);
    SplitHead(b, AadPart(aad), p);
    SplitHead(c, AadPart(bad), q);
    FirstBlockInjective(t, nonce, aad, |p|, u, other, bad, |q|);
    var s := MacInput(t, nonce, aad, |p|, p);
    var x :| s[16..] == AadPart(aad) + x;
    var y :| s[16..] == AadPart(bad) + y;
    AadPartInjective(aad, x, bad, y);
    SameParts(b, aad, p, bad, q);
  }

  lemma SameParts(b: seq<byte>, aad: seq<byte>, p: seq<byte>, bad: seq<byte>, q: seq<byte>)
    requires |aad| == |bad| && |p| == |q|
    requires PadToBlock(PadToBlock(b + AadPart(aad)) + p) == PadToBlock(PadToBlock(b + AadPart(bad)) + q)
    ensures aad == bad && p == q
  {
    hide PadToBlock, AadHeader;
    var m, n := b + AadPart(aad), b + AadPart(bad);
    var s, t := PadToBlock(m) + p, PadToBlock(n) + q;
    PadLength(m, n);
    assert PadToBlock(s) + [] == PadToBlock(t) + [];
    PadInjective(s, t, [], []);
    PadInjective(m, n, p, q);
    assert m[|b|..] == AadPart(aad) && n[|b|..] == AadPart(bad);
    if aad != [] {
      var h := AadHeader(|aad|);
      assert (h + aad)[|h|..] == aad && (h + bad)[|h|..] == bad;
    }
  }

  lemma PadLength(m: seq<byte>, n: seq<byte>)
    requires |m| == |n|
    ensures |PadToBlock(m)| == |PadToBlock(n)|
  {
  }

  // ---------- Counter blocks ----------

  /** The counter blocks of one call are pairwise distinct and none is the first MAC block. */
  lemma CountersDistinct(t: nat, nonce: seq<byte>, aad: seq<byte>, dataLength: nat, i: nat, j: nat)
    requires ValidParameters(t, nonce, aad, dataLength) && i <= BlocksFor(dataLength) && j <= BlocksFor(dataLength)
    ensures CounterBlock(nonce, i) == CounterBlock(nonce, j) ==> i == j
    ensures CounterBlock(nonce, i) != FirstBlock(t, nonce, aad, dataLength)
  {
    hide Field, Flags, Pow;
    var l, k := LengthBytes(nonce), |nonce|;
    var b, c := CounterBlock(nonce, i), CounterBlock(nonce, j);
    assert b[0] == l - 1 < 8 && FirstBlock(t, nonce, aad, dataLength)[0] >= 8;
    if b == c {
      assert b[1 + k..] == Field(i, l) && c[1 + k..] == Field(j, l);
      CounterFits(dataLength, l);
      FieldInjective(i, j, l);
    }
  }

  lemma CounterFits(n: nat, l: nat)
    requires 2 <= l && n < Pow(256, l)
    ensures BlocksFor(n) < Pow(256, l)
  {
    PowAdd(256, 2, l - 2);
    PowersOf256();
    PowPositive(256, l - 2);
  }

  lemma {:induction false} CounterBlockAt(nonce: seq<byte>, n: nat, k: nat)
    requires ValidNonce(nonce) && k <= n
    ensures CounterBlocks(nonce, n)[16 * k..16 * k + 16] == CounterBlock(nonce, k)
  {
    hide CounterBlock;
    if k < n {
      CounterBlockAt(nonce, n - 1, k);
      assert CounterBlocks(nonce, n)[16 * k..16 * k + 16] == CounterBlocks(nonce, n - 1)[16 * k..16 * k + 16];
    }
  }

  // ---------- The whole operation ----------

  /** The checks before any block is encrypted. */
  function Rejection<E>(dataLength: nat, nonce: seq<byte>, aad: seq<byte>, t: nat, inputLength: nat,
                        encrypting: bool): (e: Option<CcmError<E>>) {
    if !ValidNonce(nonce) then Some(InvalidNonceLength)
    else if !ValidTagLength(t) then Some(InvalidTagLength)
    else if LengthBytes(nonce) < 8 && dataLength >= Pow(256, LengthBytes(nonce)) then Some(InputTooLong)
    else if |aad| > 0xFFFF_FFFF then Some(InputTooLong)
    else if !encrypting && dataLength + t >= USIZE then Some(InputTooLong)
    else if inputLength != (if encrypting then dataLength else dataLength + t) then Some(InvalidDataLength)
    else if (BlocksFor(dataLength) + 1) * 16 >= USIZE then Some(InputTooLong)
    else None
  }

  /** Whatever passes the checks has valid parameters, so the fields lose nothing. */
  lemma AcceptedIsValid(dataLength: usize, nonce: seq<byte>, aad: seq<byte>, t: nat, inputLength: nat, encrypting: bool)
    requires Rejection<()>(dataLength, nonce, aad, t, inputLength, encrypting).None?
    ensures ValidParameters(t, nonce, aad, dataLength)
  {
    hide Pow;
    PowersOf256();
    PowAdd(256, 4, 4);
  }

  /** The key stream: all counter blocks encrypted in one call. */
  function Stream<E>(crypt: Crypt<E>, nonce: seq<byte>, n: nat): (r: Output<E>)
    requires ValidNonce(nonce)
    ensures r.Ok? ==> |r.value| == 16 * (n + 1)
  {
    match crypt(EncryptBlocks, CounterBlocks(nonce, n))
    case Err(e) => Err(BlockOperation(e))
    case Ok(v) => if |v| != 16 * (n + 1) then Err(InvalidBlockOutput) else Ok(v)
  }

  /** The tag: the truncated CBC-MAC masked with the stream's first block. */
  function Tag<E>(crypt: Crypt<E>, t: nat, macInput: seq<byte>, mask: seq<byte>): (r: Output<E>)
    requires t <= 16 && |mask| == 16
    ensures r.Ok? ==> |r.value| == t
  {
    match crypt(CbcMac, macInput)
    case Err(e) => Err(BlockOperation(e))
    case Ok(v) => if |v| != 16 then Err(InvalidBlockOutput) else Ok(XorSeq(v[..t], mask[..t]))
  }

  function CcmSpec<E>(dataLength: usize, nonce: seq<byte>, aad: seq<byte>, t: nat, input: seq<byte>, encrypting: bool,
                      crypt: Crypt<E>): (r: Output<E>) {
    var rejection := Rejection<E>(dataLength, nonce, aad, t, |input|, encrypting);
    if rejection.Some? then Err(rejection.value)
    else
      var stream := Stream(crypt, nonce, BlocksFor(dataLength));
      if stream.Err? then stream
      else
        var payload := input[..dataLength];
        var transformed := XorSeq(payload, stream.value[16..]);
        var plaintext := if encrypting then payload else transformed;
        var tag := Tag(crypt, t, MacInput(t, nonce, aad, dataLength, plaintext), stream.value[..16]);
        if tag.Err? then tag
        else if encrypting then Ok(transformed + tag.value)
        else if tag.value == input[dataLength..] then Ok(transformed)
        else Err(AuthenticationFailed)
  }

  method CcmWith<E>(dataLength: usize, nonce: seq<byte>, aad: seq<byte>, tagLength: nat, input: seq<byte>,
                    encrypting: bool, crypt: Crypt<E>)
    returns (r: Output<E>)
    ensures r == CcmSpec(dataLength, nonce, aad, tagLength, input, encrypting, crypt)
    ensures r == Err(InvalidNonceLength) <==> |nonce| < 7 || |nonce| > 13
    ensures r == Err(InvalidTagLength) <==>
            7 <= |nonce| <= 13 && !(4 <= tagLength <= 16 && tagLength % 2 == 0)
    ensures r == Err(AuthenticationFailed) ==> !encrypting
  {
    hide CounterBlock, CounterBlocks, MacInput, XorSeq, Pow;
    if !(7 <= |nonce| <= 13) {
      return Err(InvalidNonceLength);
    }
    if !ValidTagLength(tagLength) {
      return Err(InvalidTagLength);
    }
    var lengthBytes := 15 - |nonce|;
    if lengthBytes < 8 && dataLength >= Pow(256, lengthBytes) {
      return Err(InputTooLong);
    }
    if |aad| > 0xFFFF_FFFF {
      return Err(InputTooLong);
    }
    if !encrypting && dataLength + tagLength >= USIZE {
      return Err(InputTooLong);
    }
    var expectedInput := if encrypting then dataLength else dataLength + tagLength;
    if |input| != expectedInput {
      return Err(InvalidDataLength);
    }
    var payload, suppliedTag := input[..dataLength], input[dataLength..];
    var blockCount := BlocksFor(dataLength);
    if (blockCount + 1) * 16 >= USIZE {
      return Err(InputTooLong);
    }
    var counterBlocks := BuildCounters(nonce, blockCount);
    var result := crypt(EncryptBlocks, counterBlocks);
    if result.Err? {
      return Err(BlockOperation(result.error));
    }
    var keyStream := result.value;
    if |keyStream| != |counterBlocks| {
      return Err(InvalidBlockOutput);
    }
    var transformed := XorChunks(payload, keyStream[16..]);
    var plaintext := if encrypting then payload else transformed;
    var macInput := BuildMacInput(tagLength, nonce, aad, dataLength, plaintext);
    var mac := crypt(CbcMac, macInput);
    if mac.Err? {
      return Err(BlockOperation(mac.error));
    }
    if |mac.value| != 16 {
      return Err(InvalidBlockOutput);
    }
    var tag := XorSeq(mac.value[..tagLength], keyStream[..tagLength]);
    assert keyStream[..16][..tagLength] == keyStream[..tagLength];
    if !encrypting {
      if tag != suppliedTag {
        return Err(AuthenticationFailed);
      }
      return Ok(transformed);
    }
    return Ok(transformed + tag);
  }

  method BuildCounters(nonce: seq<byte>, blockCount: nat) returns (s: seq<byte>)
    requires ValidNonce(nonce)
    ensures s == CounterBlocks(nonce, blockCount)
  {
    hide CounterBlock;
    s := CounterBlock(nonce, 0);
    for counter := 1 to blockCount + 1
      invariant s == CounterBlocks(nonce, counter - 1)
    {
      s := s + CounterBlock(nonce, counter);
    }
  }

  method BuildMacInput(tagLength: nat, nonce: seq<byte>, aad: seq<byte>, dataLength: nat, plaintext: seq<byte>)
    returns (s: seq<byte>)
    requires ValidTagLength(tagLength) && ValidNonce(nonce)
    ensures s == MacInput(tagLength, nonce, aad, dataLength, plaintext)
  {
    hide FirstBlock, AadHeader;
    s := FirstBlock(tagLength, nonce, aad, dataLength);
    ghost var b0 := s;
    if aad != [] {
      s := s + AadHeader(|aad|);
      s := s + aad;
      assert s == b0 + (AadHeader(|aad|) + aad);
      s := PadToBlock(s);
    } else {
      assert b0 + AadPart(aad) == b0 == PadToBlock(b0);
    }
    s := s + plaintext;
    s := PadToBlock(s);
  }

  /** Decryption of c returns p exactly when encryption of p returns c, for every callback. */
  lemma DecryptIffEncrypt<E>(n: usize, nonce: seq<byte>, aad: seq<byte>, t: nat, p: seq<byte>, c: seq<byte>,
                             crypt: Crypt<E>)
    ensures CcmSpec(n, nonce, aad, t, c, false, crypt) == Ok(p) <==> CcmSpec(n, nonce, aad, t, p, true, crypt) == Ok(c)
  {
    hide MacInput, XorSeq, CounterBlocks, Pow, Stream, Tag;
    if Rejection<E>(n, nonce, aad, t, |c|, false).None? || Rejection<E>(n, nonce, aad, t, |p|, true).None? {
      var stream := Stream(crypt, nonce, BlocksFor(n));
      if stream.Ok? {
        var mask := stream.value[16..];
        if |c| == n + t {
          XorSeqCancels(c[..n], mask);
          assert c[..n] + c[n..] == c;
        }
        if |p| == n {
          XorSeqCancels(p, mask);
          assert p[..n] == p;
        }
      }
    }
  }

  // ---------- What the blocks and the output are ----------

  /** The flags octet of section 2.2 of RFC 3610: bit 7 clear, bit 6 for associated data, bits 5 to 3
      for (t - 2) / 2, bits 2 to 0 for the length of the length field less one. */
  lemma FlagsFields(t: nat, nonce: seq<byte>, aad: seq<byte>)
    requires ValidTagLength(t) && ValidNonce(nonce)
    ensures var f := Flags(t, nonce, aad);
            f / 128 == 0 && (f / 64) % 2 == (if aad != [] then 1 else 0) && (f / 8) % 8 == (t - 2) / 2 &&
            f % 8 == 14 - |nonce|
  {
    var m, l := (t - 2) / 2, 14 - |nonce|;
    assert 1 <= m <= 7 && 1 <= l <= 7;
  }

  lemma FieldValue(n: nat, len: nat)
    requires len <= 8 && n < Pow(256, len)
    ensures FromBigEndian(Field(n, len)) == n
  {
    LowBytes(n, 8, len);
    BigEndianRoundTrip(n, len);
  }

  /** Counter block j: the length octet, the nonce and j as a big-endian number. */
  lemma CounterLayout(nonce: seq<byte>, j: nat)
    requires ValidNonce(nonce) && j < Pow(256, 15 - |nonce|)
    ensures var b, k := CounterBlock(nonce, j), |nonce|;
            b[0] == 14 - k && b[1..1 + k] == nonce && FromBigEndian(b[1 + k..]) == j
  {
    hide Field, FromBigEndian, Pow;
    var b, k := CounterBlock(nonce, j), |nonce|;
    assert b[1 + k..] == Field(j, 15 - k);
    FieldValue(j, 15 - k);
  }

  lemma FirstBlockLayout(t: nat, nonce: seq<byte>, aad: seq<byte>, n: nat)
    requires ValidParameters(t, nonce, aad, n)
    ensures var b, k := FirstBlock(t, nonce, aad, n), |nonce|;
            b[0] == Flags(t, nonce, aad) && b[1..1 + k] == nonce && FromBigEndian(b[1 + k..]) == n
  {
    hide Field, FromBigEndian, Pow, Flags;
    var b, k := FirstBlock(t, nonce, aad, n), |nonce|;
    assert b[1 + k..] == Field(n, 15 - k);
    FieldValue(n, 15 - k);
  }

  /** The length of the associated data: two octets below 65280, else ff fe and four octets. */
  lemma HeaderLayout(n: nat)
    requires n <= 0xFFFF_FFFF
    ensures var h := AadHeader(n);
            if n < 65280 then |h| == 2 && FromBigEndian(h) == n
            else |h| == 6 && h[0] == 0xff && h[1] == 0xfe && FromBigEndian(h[2..]) == n
  {
    hide FromBigEndian, ToBigEndian, Pow;
    PowersOf256();
    if n < 65280 {
      BigEndianRoundTrip(n, 2);
    } else {
      assert AadHeader(n)[2..] == ToBigEndian(n, 4);
      BigEndianRoundTrip(n, 4);
    }
  }

  /** The MAC input: the first block, then, if there is associated data, its header and itself padded
      with zeros to a block, then the payload padded likewise. */
  lemma MacInputLayout(t: nat, nonce: seq<byte>, aad: seq<byte>, n: nat, p: seq<byte>)
    requires ValidTagLength(t) && ValidNonce(nonce)
    ensures var m, h := MacInput(t, nonce, aad, n, p), if aad == [] then [] else AadHeader(|aad|);
            var body := 16 + |h| + |aad|;
            var start := 16 * BlocksFor(body);
            && |m| == 16 * BlocksFor(start + |p|) && m[..16] == FirstBlock(t, nonce, aad, n)
            && m[16..16 + |h|] == h && m[16 + |h|..body] == aad && m[start..start + |p|] == p
            && (forall i :: body <= i < start ==> m[i] == 0) && (forall i :: start + |p| <= i < |m| ==> m[i] == 0)
  {
    hide FirstBlock, AadHeader, Zeros;
    var b, h := FirstBlock(t, nonce, aad, n), if aad == [] then [] else AadHeader(|aad|);
    assert AadPart(aad) == h + aad;
    var inner := PadToBlock(b + (h + aad));
    var m := PadToBlock(inner + p);
    var body, start := 16 + |h| + |aad|, |inner|;
    assert inner[..body] == b + (h + aad);
    assert m[..start + |p|] == inner + p;
    Prefixes(b, h, aad, inner, p, m);
  }

  lemma Prefixes(b: seq<byte>, h: seq<byte>, aad: seq<byte>, inner: seq<byte>, p: seq<byte>, m: seq<byte>)
    requires |b| == 16 && 16 + |h| + |aad| <= |inner| && inner[..16 + |h| + |aad|] == b + (h + aad)
    requires |inner| + |p| <= |m| && m[..|inner| + |p|] == inner + p
    ensures m[..16] == b && m[16..16 + |h|] == h && m[16 + |h|..16 + |h| + |aad|] == aad
    ensures m[|inner|..|inner| + |p|] == p && forall i :: 0 <= i < |inner| ==> m[i] == inner[i]
  {
    var body, all := 16 + |h| + |aad|, |inner| + |p|;
    SliceOfPrefix(m, all, 0, |inner|);
    SliceOfPrefix(m, all, |inner|, all);
    assert (inner + p)[0..|inner|] == inner && (inner + p)[|inner|..all] == p;
    assert m[..|inner|] == inner;
    SliceOfPrefix(m, |inner|, 0, body);
    assert inner[0..body] == inner[..body] && m[..body] == m[0..body];
    var head := b + (h + aad);
    SliceOfPrefix(m, body, 0, 16);
    SliceOfPrefix(m, body, 16, 16 + |h|);
    SliceOfPrefix(m, body, 16 + |h|, body);
    assert head[0..16] == b && head[16..16 + |h|] == h && head[16 + |h|..body] == aad;
    forall i | 0 <= i < |inner| ensures m[i] == inner[i] {
      assert m[i] == m[..|inner|][i];
    }
  }

  lemma SliceOfPrefix(m: seq<byte>, n: nat, i: nat, j: nat)
    requires i <= j <= n <= |m|
    ensures m[i..j] == m[..n][i..j]
  {
  }

  /** Exactly which parameters pass the checks. */
  lemma RejectionIff(n: usize, nonce: seq<byte>, aad: seq<byte>, t: nat, inputLength: nat, encrypting: bool)
    ensures Rejection<()>(n, nonce, aad, t, inputLength, encrypting).None? <==>
            && 7 <= |nonce| <= 13 && 4 <= t <= 16 && t % 2 == 0 && n < Pow(256, 15 - |nonce|)
            && |aad| < 0x1_0000_0000 && inputLength == (if encrypting then n else n + t)
            && 16 * BlocksFor(n) + 16 < 0x1_0000_0000_0000_0000
  {
    hide Pow;
    PowersOf256();
    PowAdd(256, 4, 4);
  }

  /** An encryption that succeeds masks payload byte i with byte 16 + i of the encrypted counter blocks,
      and tag byte i, the MAC's, with byte i. */
  lemma EncryptionMeans<E>(n: usize, nonce: seq<byte>, aad: seq<byte>, t: nat, p: seq<byte>, c: seq<byte>,
                           crypt: Crypt<E>)
    returns (stream: seq<byte>, mac: seq<byte>)
    requires CcmSpec(n, nonce, aad, t, p, true, crypt) == Ok(c)
    ensures ValidParameters(t, nonce, aad, n) && |p| == n && |c| == n + t
    ensures crypt(EncryptBlocks, CounterBlocks(nonce, BlocksFor(n))) == Ok(stream) &&
            |stream| == 16 * (BlocksFor(n) + 1)
    ensures crypt(CbcMac, MacInput(t, nonce, aad, n, p)) == Ok(mac) && |mac| == 16
    ensures forall i :: 0 <= i < n ==> c[i] == Xor(p[i], stream[16 + i])
    ensures forall i :: 0 <= i < t ==> c[n + i] == Xor(mac[i], stream[i])
  {
    hide MacInput, CounterBlocks, Pow, Xor;
    AcceptedIsValid(n, nonce, aad, t, |p|, true);
    stream := crypt(EncryptBlocks, CounterBlocks(nonce, BlocksFor(n))).value;
    assert p[..n] == p;
    mac := crypt(CbcMac, MacInput(t, nonce, aad, n, p)).value;
    var masked, tag := XorSeq(p, stream[16..]), XorSeq(mac[..t], stream[..16][..t]);
    assert c == masked + tag;
    forall i | 0 <= i < t ensures c[n + i] == Xor(mac[i], stream[i]) {
      assert c[n + i] == tag[i];
    }
  }

  /** With those parameters and callbacks that return what they should, encryption succeeds. */
  lemma EncryptionSucceeds<E(!new)>(n: usize, nonce: seq<byte>, aad: seq<byte>, t: nat, p: seq<byte>, crypt: Crypt<E>)
    requires 7 <= |nonce| <= 13 && 4 <= t <= 16 && t % 2 == 0 && n < Pow(256, 15 - |nonce|)
    requires |aad| < 0x1_0000_0000 && |p| == n && 16 * BlocksFor(n) + 16 < 0x1_0000_0000_0000_0000
    requires forall x :: crypt(EncryptBlocks, x).Ok? && |crypt(EncryptBlocks, x).value| == |x|
    requires forall x :: crypt(CbcMac, x).Ok? && |crypt(CbcMac, x).value| == 16
    ensures CcmSpec(n, nonce, aad, t, p, true, crypt).Ok?
  {
    hide MacInput, CounterBlocks, Pow, XorSeq, Rejection;
    RejectionIff(n, nonce, aad, t, |p|, true);
    SameRejection<E>(n, nonce, aad, t, |p|, true);
  }

  lemma SameRejection<E>(n: usize, nonce: seq<byte>, aad: seq<byte>, t: nat, inputLength: nat, encrypting: bool)
    ensures Rejection<()>(n, nonce, aad, t, inputLength, encrypting).None? <==>
            Rejection<E>(n, nonce, aad, t, inputLength, encrypting).None?
  {
    hide Pow;
  }
}
