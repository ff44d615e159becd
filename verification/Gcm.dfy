/** GCM over a caller-supplied 128-bit block encryptor (sections 6.2, 7.1 and 7.2 of SP 800-38D).
    The GHASH polynomial hash is a parameter. */
module Gcm {
  import opened Arithmetic
  import opened Bytes
  import opened Keystream

  datatype GcmError<+E> =
    | InvalidIvLength
    | InvalidTagLength
    | InputTooLong
    | CiphertextTooShort
    | InvalidBlockOutput
    | AuthenticationFailed
    | BlockOperation(error: E)

  type Block = b: seq<byte> | |b| == 16 witness Zeros(16)

  type Encrypt<!E> = seq<byte> -> Result<seq<byte>, E>

  /** Key, associated data and ciphertext to a block. */
  type Ghash = (Block, seq<byte>, seq<byte>) -> Block

  type Output<!E> = Result<seq<byte>, GcmError<E>>

  const COUNTERS: nat := 0x1_0000_0000

  /** The hash exists when both bit lengths fit 64 bits. */
  function Hashed(ghash: Ghash, key: Block, aad: seq<byte>, ciphertext: seq<byte>): (r: Option<Block>) {
    if 8 * |aad| >= USIZE || 8 * |ciphertext| >= USIZE then None else Some(ghash(key, aad, ciphertext))
  }

  // ---------- Counters ----------

  /** The low 32 bits advance and wrap; the other 96 stay. */
  function Incremented(counter: Block): (r: Block) {
    counter[..12] + ToBigEndian((FromBigEndian(counter[12..]) + 1) % COUNTERS, 4)
  }

  method IncrementInPlace(counter: array<byte>)
    requires counter.Length == 16
    modifies counter
    ensures counter[..] == Incremented(old(counter[..]))
  {
    var value := (FromBigEndian(counter[12..]) + 1) % COUNTERS;
    var bytes := ToBigEndian(value, 4);
    ghost var was := counter[..];
    assert counter[12..] == was[12..];
    for i := 0 to 4
      invariant counter[..12 + i] == was[..12] + bytes[..i]
    {
      counter[12 + i] := bytes[i];
    }
    assert counter[..] == counter[..16] == was[..12] + bytes;
  }

  /** Counter number k after the initial one. */
  function CounterAt(initial: Block, k: nat): (r: Block) {
    if k == 0 then initial else Incremented(CounterAt(initial, k - 1))
  }

  function Counters(initial: Block, n: nat): (s: seq<byte>)
    ensures |s| == 16 * (n + 1)
  {
    (if n == 0 then [] else Counters(initial, n - 1)) + CounterAt(initial, n)
  }

  lemma FourBytes()
    ensures Pow(256, 4) == COUNTERS
  {
    assert Pow(256, 1) == 256;
    PowAdd(256, 1, 1);
    PowAdd(256, 2, 2);
  }

  lemma WrappedSum(low: nat, k: nat)
    ensures ((low + k) % COUNTERS + 1) % COUNTERS == (low + k + 1) % COUNTERS
  {
  }

  lemma {:induction false} CounterFields(initial: Block, k: nat)
    ensures CounterAt(initial, k)[..12] == initial[..12]
    ensures FromBigEndian(CounterAt(initial, k)[12..]) == (FromBigEndian(initial[12..]) + k) % COUNTERS
  {
    hide FromBigEndian, ToBigEndian;
    FourBytes();
    if k == 0 {
      BigEndianBound(initial[12..]);
    } else {
      CounterFields(initial, k - 1);
      var low := FromBigEndian(initial[12..]);
      WrappedSum(low, k - 1);
      BigEndianRoundTrip((low + k) % COUNTERS, 4);
    }
  }

  lemma SameRemainder(low: nat, i: nat, j: nat)
    requires i < COUNTERS && j < COUNTERS && (low + i) % COUNTERS == (low + j) % COUNTERS
    ensures i == j
  {
  }

  /** The initial counter and all that follow it in one call are pairwise distinct, wrapped or not. */
  lemma CountersDistinct(initial: Block, blockCount: nat, i: nat, j: nat)
    requires blockCount <= 0xFFFF_FFFF - 2 && i <= blockCount && j <= blockCount
    ensures CounterAt(initial, i) == CounterAt(initial, j) ==> i == j
  {
    CounterFields(initial, i);
    CounterFields(initial, j);
    if CounterAt(initial, i) == CounterAt(initial, j) {
      SameRemainder(FromBigEndian(initial[12..]), i, j);
    }
  }

  // ---------- The tag ----------

  /** 2^k for the bits dropped from the last byte. */
  function Unit(tagBits: nat): (u: nat)
    ensures u in [1, 2, 4, 8, 16, 32, 64, 128]
  {
    match (8 - tagBits % 8) % 8
    case 0 => 1 case 1 => 2 case 2 => 4 case 3 => 8 case 4 => 16 case 5 => 32 case 6 => 64 case _ => 128
  }

  function TagLength(tagBits: nat): (n: nat)
    ensures tagBits <= 8 * n < tagBits + 8
  {
    (tagBits + 7) / 8
  }

  /** The first bytes of the full tag, with the unused bits of the last one cleared. */
  function GcmTag(full: Block, tagBits: nat): (tag: seq<byte>)
    requires tagBits <= 128
    ensures |tag| == TagLength(tagBits)
  {
    var tag := full[..TagLength(tagBits)];
    if tagBits % 8 == 0 then tag
    else
      var last := tag[|tag| - 1];
      tag[|tag| - 1 := last - last % Unit(tagBits)]
  }

  lemma UnitIsPower(tagBits: nat)
    ensures Unit(tagBits) == Pow(2, 8 * TagLength(tagBits) - tagBits)
  {
    var k := (8 - tagBits % 8) % 8;
    assert 8 * TagLength(tagBits) - tagBits == k;
    assert Pow(2, 3) == 8;
    if k >= 3 {
      PowAdd(2, 3, k - 3);
    }
    if k >= 6 {
      PowAdd(2, 3, k - 6);
    }
  }

  lemma ClearLow(v: nat, u: nat, m: nat)
    requires u > 0 && u * m == 256
    ensures v - (v % 256) % u == (v / u) * u
  {
    var q, r := v / 256, v % 256;
    var a, b := r / u, r % u;
    assert v == u * (m * q + a) + b by {
      assert u * (m * q + a) == (u * m) * q + u * a;
    }
    RemainderUnique(v, u, m * q + a, b);
  }

  lemma UnitDivides(tagBits: nat) returns (m: nat)
    ensures Unit(tagBits) > 0 && Unit(tagBits) * m == 256
  {
    m := 256 / Unit(tagBits);
  }

  lemma LastCleared(s: seq<byte>, u: nat)
    requires s != [] && u > 0
    ensures var last := s[|s| - 1];
            0 <= last % u <= last &&
            FromBigEndian(s[|s| - 1 := last - last % u]) == FromBigEndian(s) - (FromBigEndian(s) % 256) % u
  {
    var last := s[|s| - 1];
    assert last % u <= last by {
      MulMonotone(u, 0, last / u);
    }
    var t := s[|s| - 1 := last - last % u];
    assert t[..|t| - 1] == s[..|s| - 1];
    assert FromBigEndian(s) % 256 == last;
  }

  /** The tag's bits are the leading bits of the full tag followed by zeros: its value is the value
      of the leading bytes, rounded down to a multiple of 2 to the unused bits. */
  lemma TagIsLeadingBits(full: Block, tagBits: nat)
    requires tagBits <= 128
    ensures var n, u := TagLength(tagBits), Pow(2, 8 * TagLength(tagBits) - tagBits);
            Pow(256, 16 - n) > 0 && u > 0 &&
            FromBigEndian(GcmTag(full, tagBits)) == ((FromBigEndian(full) / Pow(256, 16 - n)) / u) * u
  {
    hide Pow, Unit, FromBigEndian;
    var n := TagLength(tagBits);
    UnitIsPower(tagBits);
    DropBytes(full, n);
    var head := full[..n];
    var m := UnitDivides(tagBits);
    ClearLow(FromBigEndian(head), Unit(tagBits), m);
    if tagBits % 8 == 0 {
      WholeBytes(tagBits);
    } else {
      LastCleared(head, Unit(tagBits));
    }
  }

  lemma WholeBytes(tagBits: nat)
    requires tagBits % 8 == 0
    ensures Unit(tagBits) == 1
  {
  }

  // ---------- The whole operation ----------

  function InitialCounter(ghash: Ghash, key: Block, iv: seq<byte>): (r: Option<Block>) {
    if |iv| == 12 then Some(iv + [0, 0, 0, 1]) else Hashed(ghash, key, [], iv)
  }

  function EncryptAll<E>(encrypt: Encrypt<E>, blocks: seq<byte>): (r: Output<E>)
    ensures r.Ok? ==> |r.value| == |blocks|
  {
    match encrypt(blocks)
    case Err(e) => Err(BlockOperation(e))
    case Ok(v) => if |v| != |blocks| then Err(InvalidBlockOutput) else Ok(v)
  }

  /** Masking the payload and computing the tag over the ciphertext. */
  function Authenticated<E>(ghash: Ghash, key: Block, stream: seq<byte>, aad: seq<byte>, tagBits: nat,
                            payload: seq<byte>, encrypting: bool): (r: Result<(seq<byte>, seq<byte>), GcmError<E>>)
    requires tagBits <= 128 && |stream| == 16 * (BlocksFor(|payload|) + 1)
    ensures r.Ok? ==> |r.value.0| == |payload| && |r.value.1| == TagLength(tagBits)
  {
    var transformed := XorSeq(payload, stream[16..]);
    match Hashed(ghash, key, aad, if encrypting then transformed else payload)
    case None => Err(InputTooLong)
    case Some(hash) => Ok((transformed, GcmTag(XorSeq(stream[..16], hash), tagBits)))
  }

  /** The key stream and hash subkey for a payload length. */
  function Prepare<E>(iv: seq<byte>, length: nat, ghash: Ghash, encrypt: Encrypt<E>)
    : (r: Result<(Block, seq<byte>), GcmError<E>>)
    ensures r.Ok? ==> |r.value.1| == 16 * (BlocksFor(length) + 1)
  {
    if BlocksFor(length) > 0xFFFF_FFFF - 2 then Err(InputTooLong)
    else
      var key := EncryptAll(encrypt, Zeros(16));
      if key.Err? then Err(key.error)
      else
        var initial := InitialCounter(ghash, key.value, iv);
        if initial.None? then Err(InputTooLong)
        else
          var stream := EncryptAll(encrypt, Counters(initial.value, BlocksFor(length)));
          if stream.Err? then Err(stream.error) else Ok((key.value, stream.value))
  }

  function GcmSpec<E>(iv: seq<byte>, aad: seq<byte>, tagBits: nat, input: seq<byte>, encrypting: bool, ghash: Ghash,
                      encrypt: Encrypt<E>): (r: Output<E>) {
    if iv == [] then Err(InvalidIvLength)
    else if tagBits > 128 then Err(InvalidTagLength)
    else if !encrypting && |input| < TagLength(tagBits) then Err(CiphertextTooShort)
    else
      var split := if encrypting then |input| else |input| - TagLength(tagBits);
      var prepared := Prepare(iv, split, ghash, encrypt);
      if prepared.Err? then Err(prepared.error)
      else
        var (key, stream) := prepared.value;
        match Authenticated(ghash, key, stream, aad, tagBits, input[..split], encrypting)
        case Err(e) => Err(e)
        case Ok((transformed, tag)) =>
          if encrypting then Ok(transformed + tag)
          else if tag == input[split..] then Ok(transformed)
          else Err(AuthenticationFailed)
  }

  method BuildCounters(initial: Block, blockCount: nat) returns (s: seq<byte>)
    ensures s == Counters(initial, blockCount)
  {
    hide Incremented;
    var counter := new byte[16](i requires 0 <= i < 16 => initial[i]);
    assert counter[..] == initial;
    s := initial;
    for k := 0 to blockCount
      modifies counter
      invariant counter[..] == CounterAt(initial, k) && s == Counters(initial, k)
    {
      IncrementInPlace(counter);
      s := s + counter[..];
    }
  }

  method GcmWith<E>(iv: seq<byte>, aad: seq<byte>, tagBits: nat, input: seq<byte>, encrypting: bool, ghash: Ghash,
                    encrypt: Encrypt<E>)
    returns (r: Output<E>)
    ensures r == GcmSpec(iv, aad, tagBits, input, encrypting, ghash, encrypt)
    ensures r == Err(InvalidIvLength) <==> iv == []
    ensures r == Err(InvalidTagLength) <==> iv != [] && tagBits > 128
    ensures r == Err(CiphertextTooShort) <==> iv != [] && tagBits <= 128 && !encrypting && 8 * |input| < tagBits
    ensures r == Err(AuthenticationFailed) ==> !encrypting
  {
    hide Counters, XorSeq, GcmTag, Hashed, InitialCounter;
    if iv == [] {
      return Err(InvalidIvLength);
    }
    if tagBits > 128 {
      return Err(InvalidTagLength);
    }
    var tagLength := TagLength(tagBits);
    if !encrypting && |input| < tagLength {
      return Err(CiphertextTooShort);
    }
    var split := if encrypting then |input| else |input| - tagLength;
    var payload, suppliedTag := input[..split], input[split..];
    var blockCount := BlocksFor(|payload|);
    if blockCount > 0xFFFF_FFFF - 2 {
      return Err(InputTooLong);
    }
    var key := encrypt(Zeros(16));
    if key.Err? {
      return Err(BlockOperation(key.error));
    }
    if |key.value| != 16 {
      return Err(InvalidBlockOutput);
    }
    var hashSubkey: Block := key.value;
    var initial := InitialCounter(ghash, hashSubkey, iv);
    if initial.None? {
      return Err(InputTooLong);
    }
    var counterBlocks := BuildCounters(initial.value, blockCount);
    var encrypted := encrypt(counterBlocks);
    if encrypted.Err? {
      return Err(BlockOperation(encrypted.error));
    }
    var stream := encrypted.value;
    if |stream| != |counterBlocks| {
      return Err(InvalidBlockOutput);
    }
    var transformed := XorChunks(payload, stream[16..]);
    var hash := Hashed(ghash, hashSubkey, aad, if encrypting then transformed else payload);
    if hash.None? {
      return Err(InputTooLong);
    }
    var fullTag := XorSeq(stream[..16], hash.value);
    var expectedTag := GcmTag(fullTag, tagBits);
    if !encrypting {
      if expectedTag != suppliedTag {
        return Err(AuthenticationFailed);
      }
      return Ok(transformed);
    }
    return Ok(transformed + expectedTag);
  }

  lemma AuthenticatedInverts<E>(ghash: Ghash, key: Block, stream: seq<byte>, aad: seq<byte>, tagBits: nat,
                                x: seq<byte>, encrypting: bool)
    requires tagBits <= 128 && |stream| == 16 * (BlocksFor(|x|) + 1)
    ensures var r := Authenticated<E>(ghash, key, stream, aad, tagBits, x, encrypting);
            r.Ok? ==> Authenticated<E>(ghash, key, stream, aad, tagBits, r.value.0, !encrypting) == Ok((x, r.value.1))
  {
    hide XorSeq, GcmTag, Hashed;
    XorSeqCancels(x, stream[16..]);
  }

  /** Decryption of c returns p exactly when encryption of p returns c, for every tag length in bits,
      every callback and every hash. */
  lemma DecryptIffEncrypt<E>(iv: seq<byte>, aad: seq<byte>, tagBits: nat, p: seq<byte>, c: seq<byte>, ghash: Ghash,
                             encrypt: Encrypt<E>)
    ensures GcmSpec(iv, aad, tagBits, c, false, ghash, encrypt) == Ok(p) <==>
            GcmSpec(iv, aad, tagBits, p, true, ghash, encrypt) == Ok(c)
  {
    hide Authenticated, Prepare;
    if iv != [] && tagBits <= 128 {
      var n := TagLength(tagBits);
      if |c| == |p| + n {
        var prepared := Prepare(iv, |p|, ghash, encrypt);
        if prepared.Ok? {
          var (key, stream) := prepared.value;
          AuthenticatedInverts<E>(ghash, key, stream, aad, tagBits, p, true);
          AuthenticatedInverts<E>(ghash, key, stream, aad, tagBits, c[..|p|], false);
          assert p[..|p|] == p && c == c[..|p|] + c[|p|..];
        }
      }
    }
  }

  // ---------- What the blocks and the output are ----------

  lemma {:induction false} CounterBlockAt(initial: Block, n: nat, k: nat)
    requires k <= n
    ensures Counters(initial, n)[16 * k..16 * k + 16] == CounterAt(initial, k)
  {
    hide CounterAt;
    if k < n {
      CounterBlockAt(initial, n - 1, k);
      assert Counters(initial, n)[16 * k..16 * k + 16] == Counters(initial, n - 1)[16 * k..16 * k + 16];
    }
  }

  /** The blocks encrypted: block k is the initial counter with its low 32 bits advanced by k. */
  lemma CountersLayout(initial: Block, n: nat, k: nat)
    requires k <= n
    ensures var b := Counters(initial, n)[16 * k..16 * k + 16];
            b[..12] == initial[..12] && FromBigEndian(b[12..]) == (FromBigEndian(initial[12..]) + k) % 0x1_0000_0000
  {
    hide Counters, CounterAt, FromBigEndian;
    CounterBlockAt(initial, n, k);
    CounterFields(initial, k);
  }

  /** The pre-counter block: a 12-byte initialisation vector followed by 1 in 32 bits; any other is
      hashed as the ciphertext argument, without associated data. */
  lemma InitialCounterIs(ghash: Ghash, key: Block, iv: seq<byte>)
    ensures |iv| == 12 ==>
            var j := InitialCounter(ghash, key, iv);
            j.Some? && j.value[..12] == iv && FromBigEndian(j.value[12..]) == 1
    ensures |iv| != 12 && 8 * |iv| < USIZE ==> InitialCounter(ghash, key, iv) == Some(ghash(key, [], iv))
  {
    if |iv| == 12 {
      var j := iv + [0, 0, 0, 1];
      assert j[12..] == [0] + ([0] + ([0] + [1]));
      FirstByteWeight(0, [1]);
      FirstByteWeight(0, [0] + [1]);
      FirstByteWeight(0, [0] + ([0] + [1]));
      assert FromBigEndian([1]) == 1;
    }
  }

  /** An encryption that succeeds: the hash key is the encrypted zero block; payload byte i is masked with
      byte 16 + i of the encrypted counters from J0 on; the tag is the leading bits of the hash of
      associated data and ciphertext masked with the first encrypted counter. */
  lemma EncryptionMeans<E>(iv: seq<byte>, aad: seq<byte>, tagBits: nat, p: seq<byte>, c: seq<byte>, ghash: Ghash,
                           encrypt: Encrypt<E>)
    returns (key: Block, j0: Block, stream: seq<byte>, full: Block)
    requires GcmSpec(iv, aad, tagBits, p, true, ghash, encrypt) == Ok(c)
    ensures iv != [] && tagBits <= 128 && |c| == |p| + TagLength(tagBits)
    ensures encrypt(Zeros(16)) == Ok(key) && InitialCounter(ghash, key, iv) == Some(j0)
    ensures encrypt(Counters(j0, BlocksFor(|p|))) == Ok(stream) && |stream| == 16 * (BlocksFor(|p|) + 1)
    ensures forall i :: 0 <= i < |p| ==> c[i] == Xor(p[i], stream[16 + i])
    ensures forall i :: 0 <= i < 16 ==> full[i] == Xor(stream[i], ghash(key, aad, c[..|p|])[i])
    ensures c[|p|..] == GcmTag(full, tagBits)
  {
    hide InitialCounter, Counters, GcmTag, Xor;
    key := encrypt(Zeros(16)).value;
    j0 := InitialCounter(ghash, key, iv).value;
    stream := encrypt(Counters(j0, BlocksFor(|p|))).value;
    assert p[..|p|] == p;
    var masked := XorSeq(p, stream[16..]);
    full := XorSeq(stream[..16], ghash(key, aad, masked));
    assert c == masked + GcmTag(full, tagBits);
    assert c[..|p|] == masked;
  }

  /** With a nonempty initialisation vector, a tag of at most 128 bits and lengths within the limits,
      encryption succeeds over any encryptor that keeps lengths. */
  lemma EncryptionSucceeds<E(!new)>(iv: seq<byte>, aad: seq<byte>, tagBits: nat, p: seq<byte>, ghash: Ghash,
                                    encrypt: Encrypt<E>)
    requires iv != [] && tagBits <= 128 && |p| <= 16 * (0x1_0000_0000 - 3)
    requires 8 * |iv| < 0x1_0000_0000_0000_0000 && 8 * |aad| < 0x1_0000_0000_0000_0000
    requires forall x :: encrypt(x).Ok? && |encrypt(x).value| == |x|
    ensures GcmSpec(iv, aad, tagBits, p, true, ghash, encrypt).Ok?
  {
    hide Counters, GcmTag, XorSeq;
  }
}
