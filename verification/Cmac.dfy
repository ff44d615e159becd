/** CMAC over a caller-supplied block encryptor, block at a time and through one CBC call
    (sections 6.1 and 6.2 of SP 800-38B). */
module Cmac {
  import opened Arithmetic
  import opened Bytes
  import opened Cbc

  type Encrypt<!E> = seq<byte> -> Result<seq<byte>, E>

  // ---------- Doubling in the field ----------

  const REDUCTION_64 := 0x1b
  const REDUCTION_128 := 0x87

  function Reduction(bytes: nat): byte { if bytes == 8 then REDUCTION_64 else REDUCTION_128 }

  /** s shifted left one bit, with the bit carry entering on the right. */
  function ShiftIn(s: seq<byte>, carry: nat): (r: seq<byte>)
    requires carry <= 1
    ensures |r| == |s|
  {
    if s == [] then []
    else
      var last := s[|s| - 1];
      ShiftIn(s[..|s| - 1], last / 128) + [(2 * last) % 256 + carry]
  }

  function Doubled(s: seq<byte>): (r: seq<byte>)
    requires s != []
    ensures |r| == |s|
  {
    var t := ShiftIn(s, 0);
    if s[0] / 128 == 1 then t[|t| - 1 := Xor(t[|t| - 1], Reduction(|t|))] else t
  }

  lemma {:induction false} ShiftInAt(s: seq<byte>, carry: nat, i: nat)
    requires carry <= 1 && i < |s|
    ensures ShiftIn(s, carry)[i] == (2 * s[i]) % 256 + (if i + 1 < |s| then s[i + 1] / 128 else carry)
  {
    if i + 1 < |s| {
      ShiftInAt(s[..|s| - 1], s[|s| - 1] / 128, i);
    }
  }

  lemma ShiftStep(init: int, last: int, carry: int, top: int, size: int, shifted: int)
    requires shifted + size * top == 2 * init + last / 128
    ensures shifted * 256 + ((2 * last) % 256 + carry) + (256 * size) * top == 2 * (init * 256 + last) + carry
  {
    assert (256 * size) * top == 256 * (size * top);
  }

  /** Shifting doubles the value; the top bit leaves. */
  lemma {:induction false} ShiftInValue(s: seq<byte>, carry: nat)
    requires carry <= 1 && s != []
    ensures FromBigEndian(ShiftIn(s, carry)) + Pow(256, |s|) * (s[0] / 128) == 2 * FromBigEndian(s) + carry
  {
    var init, last := s[..|s| - 1], s[|s| - 1];
    var r := ShiftIn(s, carry);
    assert r[..|r| - 1] == ShiftIn(init, last / 128);
    if init == [] {
      assert Pow(256, 1) == 256 * Pow(256, 0);
    } else {
      ShiftInValue(init, last / 128);
      assert init[0] == s[0];
      ShiftStep(FromBigEndian(init), last, carry, s[0] / 128, Pow(256, |init|),
                FromBigEndian(ShiftIn(init, last / 128)));
    }
  }

  /** x^64 + x^4 + x^3 + x + 1 or x^128 + x^7 + x^2 + x + 1, as bits. */
  ghost function FieldPolynomial(bytes: nat): nat {
    PowPositive(2, 8 * bytes);
    Pow(2, 8 * bytes) + Reduction(bytes)
  }

  /** Multiplication by x of the polynomial with bits v, modulo x^n + ... whose bits are f: v is
      shifted, and f is subtracted (exclusive or) when the degree reaches n. */
  ghost function TimesX(v: nat, n: nat, f: nat): nat {
    if 2 * v < Pow(2, n) then 2 * v else XorBits(n + 1, 2 * v, f)
  }

  /** The exclusive or of numbers acts separately on the low byte and the rest. */
  lemma {:induction false} XorBitsSplit(low: nat, high: nat, a: nat, b: nat, c: nat, d: nat)
    requires b < Pow(2, low) && d < Pow(2, low)
    ensures Pow(2, low) * a >= 0 && Pow(2, low) * c >= 0
    ensures XorBits(low + high, Pow(2, low) * a + b, Pow(2, low) * c + d) ==
            Pow(2, low) * XorBits(high, a, c) + XorBits(low, b, d)
  {
    hide XorBits;
    PowPositive(2, low);
    NonNegativeProduct(Pow(2, low), a);
    NonNegativeProduct(Pow(2, low), c);
    if low == 0 {
      assert Pow(2, 0) == 1;
      XorSplitBase(high, a, c);
    } else {
      var h := Pow(2, low - 1);
      XorBitsSplit(low - 1, high, a, b / 2, c, d / 2);
      assert Pow(2, low) == 2 * h;
      hide Pow;
      XorSplitStep(low, high, h, a, b, c, d);
    }
  }

  lemma NonNegativeProduct(p: int, a: int)
    requires p >= 0 && a >= 0
    ensures p * a >= 0
  {
  }

  lemma XorSplitBase(high: nat, a: nat, c: nat)
    ensures XorBits(0 + high, 1 * a + 0, 1 * c + 0) == 1 * XorBits(high, a, c) + XorBits(0, 0, 0)
  {
    assert 1 * a + 0 == a && 1 * c + 0 == c;
  }

  lemma XorUnfold(n: nat, a: nat, b: nat)
    requires n > 0
    ensures XorBits(n, a, b) == 2 * XorBits(n - 1, a / 2, b / 2) + (if a % 2 == b % 2 then 0 else 1)
  {
  }

  lemma XorSplitStep(low: nat, high: nat, h: nat, a: nat, b: nat, c: nat, d: nat)
    requires low > 0 && h * a >= 0 && h * c >= 0 && (2 * h) * a >= 0 && (2 * h) * c >= 0
    requires XorBits(low - 1 + high, h * a + b / 2, h * c + d / 2) ==
             h * XorBits(high, a, c) + XorBits(low - 1, b / 2, d / 2)
    ensures XorBits(low + high, (2 * h) * a + b, (2 * h) * c + d) == (2 * h) * XorBits(high, a, c) + XorBits(low, b, d)
  {
    hide XorBits;
    HalfOfSplit(h, a, b);
    HalfOfSplit(h, c, d);
    var x, y := (2 * h) * a + b, (2 * h) * c + d;
    XorUnfold(low + high, x, y);
    XorUnfold(low, b, d);
    var z := XorBits(high, a, c);
    assert 2 * (h * z) == (2 * h) * z;
  }

  lemma HalfOfSplit(h: nat, a: nat, b: nat)
    ensures ((2 * h) * a + b) / 2 == h * a + b / 2 && ((2 * h) * a + b) % 2 == b % 2
  {
    assert (2 * h) * a == 2 * (h * a);
  }

  lemma {:induction false} TopBitCancels(k: nat, a: nat)
    requires a < Pow(2, k)
    ensures XorBits(k + 1, Pow(2, k) + a, Pow(2, k)) == a
  {
    if k > 0 {
      TopBitCancels(k - 1, a / 2);
      var h := Pow(2, k - 1);
      XorUnfold(k + 1, Pow(2, k) + a, Pow(2, k));
      hide XorBits;
      assert Pow(2, k) == 2 * h;
      assert (2 * h + a) / 2 == h + a / 2 && (2 * h + a) % 2 == a % 2;
      assert (2 * h) / 2 == h && (2 * h) % 2 == 0;
    } else {
      assert XorBits(0, 0, 0) == 0;
    }
  }

  lemma {:induction false} BytesArePowers(len: nat)
    ensures Pow(256, len) == Pow(2, 8 * len)
  {
    TwoToTheEighth();
    PowPow(2, 8, len);
  }

  /** The value of a block whose last byte is masked. */
  lemma MaskedLast(t: seq<byte>, mask: byte)
    requires t != []
    ensures var a := FromBigEndian(t[..|t| - 1]);
            FromBigEndian(t) == 256 * a + t[|t| - 1] &&
            FromBigEndian(t[|t| - 1 := Xor(t[|t| - 1], mask)]) == 256 * a + Xor(t[|t| - 1], mask)
  {
    var u := t[|t| - 1 := Xor(t[|t| - 1], mask)];
    assert u[..|u| - 1] == t[..|t| - 1];
  }

  lemma PowFactors(len: nat)
    requires len > 0
    ensures Pow(2, 8 * len) == 256 * Pow(2, 8 * (len - 1))
  {
    TwoToTheEighth();
    PowAdd(2, 8, 8 * (len - 1));
  }

  /** Subtracting the field polynomial from a value whose top bit is set masks the low byte. */
  lemma ReduceTop(len: nat, a: nat, b: byte, r: byte)
    requires len > 0 && 256 * a + b < Pow(2, 8 * len)
    ensures XorBits(8 * len + 1, Pow(2, 8 * len) + (256 * a + b), Pow(2, 8 * len) + r) == 256 * a + Xor(b, r)
  {
    PowFactors(len);
    TwoToTheEighth();
    var k, h := 8 * (len - 1), Pow(2, 8 * (len - 1));
    XorBitsSplit(8, k + 1, h + a, b, h, r);
    TopBitCancels(k, a);
    assert 8 + (k + 1) == 8 * len + 1;
  }

  /** Doubling a block is multiplication by x in GF(2^64) or GF(2^128), on the big-endian value. */
  lemma DoubledIsTimesX(s: seq<byte>)
    requires |s| == 8 || |s| == 16
    ensures var n := 8 * |s|;
            FromBigEndian(s) < Pow(2, n) &&
            FromBigEndian(Doubled(s)) == TimesX(FromBigEndian(s), n, FieldPolynomial(|s|)) < Pow(2, n)
  {
    hide ShiftIn, Xor, XorBits, FromBigEndian, Pow, TimesX, Doubled;
    BytesArePowers(|s|);
    BigEndianBound(s);
    BigEndianBound(Doubled(s));
    ShiftTop(s);
    if s[0] >= 128 {
      DoubledWraps(s);
    } else {
      TimesXShifts(FromBigEndian(s), 8 * |s|, FieldPolynomial(|s|));
      DoubledShifts(s);
    }
  }

  /** The two cases of the top bit. */
  lemma ShiftTop(s: seq<byte>)
    requires s != []
    ensures var t := ShiftIn(s, 0);
            FromBigEndian(t) < Pow(2, 8 * |s|) &&
            FromBigEndian(t) + (if s[0] >= 128 then Pow(2, 8 * |s|) else 0) == 2 * FromBigEndian(s)
  {
    hide ShiftIn, FromBigEndian, Pow;
    BytesArePowers(|s|);
    BigEndianBound(ShiftIn(s, 0));
    ShiftInValue(s, 0);
    assert s[0] / 128 == if s[0] >= 128 then 1 else 0;
  }

  lemma DoubledShifts(s: seq<byte>)
    requires s != [] && s[0] < 128
    ensures Doubled(s) == ShiftIn(s, 0)
  {
  }

  lemma DoubledWraps(s: seq<byte>)
    requires s != [] && s[0] >= 128
    ensures FromBigEndian(Doubled(s)) == TimesX(FromBigEndian(s), 8 * |s|, FieldPolynomial(|s|))
  {
    hide ShiftIn, Xor, XorBits, FromBigEndian, Pow, TimesX;
    var t := ShiftIn(s, 0);
    var a, b, r := FromBigEndian(t[..|t| - 1]), t[|t| - 1], Reduction(|s|);
    ShiftTop(s);
    MaskedLast(t, r);
    ReduceTop(|s|, a, b, r);
    TimesXWraps(FromBigEndian(s), 8 * |s|, FieldPolynomial(|s|), 256 * a + b);
  }

  lemma TimesXShifts(v: nat, n: nat, f: nat)
    requires 2 * v < Pow(2, n)
    ensures TimesX(v, n, f) == 2 * v
  {
  }

  lemma TimesXWraps(v: nat, n: nat, f: nat, low: nat)
    requires 2 * v == Pow(2, n) + low
    ensures TimesX(v, n, f) == XorBits(n + 1, Pow(2, n) + low, f)
  {
  }

  /** The source's in-place doubling of a block. */
  method DoubleInPlace(block: array<byte>)
    requires block.Length > 0
    modifies block
    ensures block[..] == Doubled(old(block[..]))
  {
    ghost var was := block[..];
    var n := block.Length;
    var carry := block[0] / 128;
    for index := 0 to n - 1
      invariant forall i :: 0 <= i < index ==> block[i] == ShiftIn(was, 0)[i]
      invariant forall i :: index <= i < n ==> block[i] == was[i]
    {
      ShiftInAt(was, 0, index);
      var high: int, low: int := block[index], block[index + 1];
      block[index] := (2 * high) % 256 + low / 128;
    }
    var last := n - 1;
    ShiftInAt(was, 0, last);
    var low: int := block[last];
    block[last] := (2 * low) % 256;
    assert block[..] == ShiftIn(was, 0);
    var mask: byte := if carry == 1 then Reduction(n) else 0;
    XorZero(block[last]);
    block[last] := Xor(block[last], mask);
    assert block[..] == Doubled(was);
  }

  // ---------- Subkeys and the prepared message ----------

  predicate IsComplete(bs: nat, data: seq<byte>)
    requires bs > 0
  {
    data != [] && |data| % bs == 0
  }

  /** K1 for a complete last block, otherwise K2. */
  function LastSubkey<E>(bs: nat, data: seq<byte>, encrypt: Encrypt<E>): (r: Output<E>)
    ensures r.Ok? ==> (bs == 8 || bs == 16) && |r.value| == bs
    ensures r == Err(InvalidBlockSize) <==> bs != 8 && bs != 16
  {
    if bs != 8 && bs != 16 then Err(InvalidBlockSize)
    else
      match encrypt(Zeros(bs))
      case Err(e) => Err(BlockOperation(e))
      case Ok(l) =>
        if |l| != bs then Err(InvalidBlockOutput)
        else if IsComplete(bs, data) then Ok(Doubled(l))
        else Ok(Doubled(Doubled(l)))
  }

  method ComputeLastSubkey<E>(bs: nat, data: seq<byte>, encrypt: Encrypt<E>)
    returns (r: Result<(seq<byte>, bool), ModeError<E>>)
    ensures r.Ok? <==> LastSubkey(bs, data, encrypt).Ok?
    ensures r.Err? ==> LastSubkey(bs, data, encrypt) == Err(r.error)
    ensures r.Ok? ==> LastSubkey(bs, data, encrypt) == Ok(r.value.0) && r.value.1 == IsComplete(bs, data)
  {
    if bs != 8 && bs != 16 {
      return Err(InvalidBlockSize);
    }
    var result := encrypt(Zeros(bs));
    if result.Err? {
      return Err(BlockOperation(result.error));
    }
    if |result.value| != bs {
      return Err(InvalidBlockOutput);
    }
    var subkey := new byte[bs](i requires 0 <= i < bs => result.value[i]);
    assert subkey[..] == result.value;
    DoubleInPlace(subkey);
    var complete := data != [] && |data| % bs == 0;
    if !complete {
      DoubleInPlace(subkey);
    }
    return Ok((subkey[..], complete));
  }

  /** The message with 10...0 padding unless its last block is complete. */
  function Padded(bs: nat, data: seq<byte>): (r: seq<byte>)
    requires bs == 8 || bs == 16
    ensures |r| >= bs && |r| % bs == 0
  {
    if IsComplete(bs, data) then data else data + [0x80] + Zeros(bs - |data| % bs - 1)
  }

  /** The subkey is exclusive-ored into the last block. */
  function Prepared(bs: nat, data: seq<byte>, subkey: seq<byte>): (r: seq<byte>)
    requires (bs == 8 || bs == 16) && |subkey| == bs
    ensures |r| == |Padded(bs, data)|
  {
    var p := Padded(bs, data);
    p[..|p| - bs] + XorSeq(p[|p| - bs..], subkey)
  }

  /** The last chaining value of CBC encryption. */
  function Chain<E>(bs: nat, encrypt: Encrypt<E>, state: seq<byte>, input: seq<byte>): (r: Output<E>)
    requires bs > 0 && |state| == bs
    ensures r.Ok? ==> |r.value| == bs
    ensures r.Err? ==> r.error.BlockOperation? || r.error.InvalidBlockOutput?
    decreases |input|
  {
    if |input| < bs then Ok(state)
    else
      match encrypt(XorSeq(input[..bs], state))
      case Err(e) => Err(BlockOperation(e))
      case Ok(v) => if |v| != bs then Err(InvalidBlockOutput) else Chain(bs, encrypt, v, input[bs..])
  }

  /** The MAC: the chaining value of the prepared message from a zero start. */
  function Mac<E>(bs: nat, data: seq<byte>, encrypt: Encrypt<E>): (r: Output<E>) {
    var subkey := LastSubkey(bs, data, encrypt);
    if subkey.Err? then subkey else Chain(bs, encrypt, Zeros(bs), Prepared(bs, data, subkey.value))
  }

  // ---------- Block at a time ----------

  function BlockCount(bs: nat, data: seq<byte>): (n: nat)
    requires bs > 0
    ensures n > 0
  {
    var n := (|data| + bs - 1) / bs;
    if n > 1 then n else 1
  }

  lemma PaddedLength(bs: nat, data: seq<byte>)
    requires bs == 8 || bs == 16
    ensures |Padded(bs, data)| == bs * BlockCount(bs, data)
    ensures (bs * (BlockCount(bs, data) - 1) + bs == |data|) == IsComplete(bs, data)
    ensures bs * (BlockCount(bs, data) - 1) <= |data| <= bs * BlockCount(bs, data)
  {
    var n := |data|;
    var q, r := n / bs, n % bs;
    var ceil := if r == 0 then q else q + 1;
    assert bs * (q + 1) == bs * q + bs;
    if r == 0 {
      RemainderUnique(n + bs - 1, bs, q, bs - 1);
    } else {
      RemainderUnique(n + bs - 1, bs, q + 1, r - 1);
    }
    assert BlockCount(bs, data) == if ceil > 1 then ceil else 1;
  }

  /** The loop's block before chaining: the data available there, padded and masked when last. */
  function BlockAt(bs: nat, data: seq<byte>, subkey: seq<byte>, index: nat): (r: seq<byte>)
    requires (bs == 8 || bs == 16) && |subkey| == bs && index < BlockCount(bs, data)
    ensures |r| == bs
  {
    PaddedLength(bs, data);
    assert bs * index <= |data|;
    var start := bs * index;
    var available := if |data| - start < bs then |data| - start else bs;
    var block := data[start..start + available] + Zeros(bs - available);
    if index + 1 != BlockCount(bs, data) then block
    else XorSeq(if IsComplete(bs, data) then block else block[available := 0x80], subkey)
  }

  /** The blocks built in the loop are the blocks of the prepared message. */
  lemma BlockAtIsPrepared(bs: nat, data: seq<byte>, subkey: seq<byte>, index: nat)
    requires (bs == 8 || bs == 16) && |subkey| == bs && index < BlockCount(bs, data)
    ensures bs * index + bs <= |Prepared(bs, data, subkey)|
    ensures BlockAt(bs, data, subkey, index) == Prepared(bs, data, subkey)[bs * index..bs * index + bs]
  {
    hide XorSeq, Padded, BlockAt;
    PaddedLength(bs, data);
    if index + 1 == BlockCount(bs, data) {
      LastBlock(bs, data, subkey);
    } else {
      LaterBlocks(bs, index, BlockCount(bs, data));
      EarlierBlock(bs, data, subkey, index);
    }
  }

  lemma LastBlock(bs: nat, data: seq<byte>, subkey: seq<byte>)
    requires (bs == 8 || bs == 16) && |subkey| == bs
    ensures var p := Padded(bs, data);
            BlockAt(bs, data, subkey, BlockCount(bs, data) - 1) == XorSeq(p[|p| - bs..], subkey)
  {
    hide XorSeq, Padded, IsComplete, BlockCount, Zeros, BlockAt;
    PaddedLength(bs, data);
    var start := bs * (BlockCount(bs, data) - 1);
    PaddedEnd(bs, data, start);
    LastBlockAt(bs, data, subkey, start);
    assert start == |Padded(bs, data)| - bs;
  }

  lemma LastBlockAt(bs: nat, data: seq<byte>, subkey: seq<byte>, start: nat)
    requires (bs == 8 || bs == 16) && |subkey| == bs && start == bs * (BlockCount(bs, data) - 1)
    requires start <= |data| <= start + bs
    requires IsComplete(bs, data) == (start + bs == |data|)
    ensures var available := |data| - start;
            var block := data[start..] + Zeros(bs - available);
            BlockAt(bs, data, subkey, BlockCount(bs, data) - 1) ==
            XorSeq(if IsComplete(bs, data) then block else block[available := 0x80], subkey)
  {
    hide XorSeq, Padded, IsComplete, BlockCount, Zeros;
    assert data[start..|data|] == data[start..];
  }

  lemma PaddedEnd(bs: nat, data: seq<byte>, start: nat)
    requires (bs == 8 || bs == 16) && |Padded(bs, data)| == start + bs && start <= |data| <= start + bs
    ensures var available := |data| - start;
            var block := data[start..] + Zeros(bs - available);
            Padded(bs, data)[start..] == if IsComplete(bs, data) then block else block[available := 0x80]
  {
  }

  lemma EarlierBlock(bs: nat, data: seq<byte>, subkey: seq<byte>, index: nat)
    requires (bs == 8 || bs == 16) && |subkey| == bs && index + 1 < BlockCount(bs, data) &&
             bs * index + 2 * bs <= |Padded(bs, data)|
    ensures BlockAt(bs, data, subkey, index) == Padded(bs, data)[bs * index..bs * index + bs]
  {
    hide XorSeq;
    PaddedLength(bs, data);
    hide BlockCount;
    var start := bs * index;
    assert start + bs <= |data|;
    assert data[start..start + bs] + Zeros(0) == Padded(bs, data)[start..start + bs];
  }

  lemma LaterBlocks(bs: nat, index: nat, count: nat)
    requires (bs == 8 || bs == 16) && index + 2 <= count
    ensures bs * index + 2 * bs <= bs * count
  {
  }

  method CmacWith<E>(bs: nat, data: seq<byte>, encrypt: Encrypt<E>) returns (r: Output<E>)
    ensures r == Mac(bs, data, encrypt)
    ensures r == Err(InvalidBlockSize) <==> bs != 8 && bs != 16
  {
    hide XorSeq, Padded, Prepared, LastSubkey, IsComplete;
    var subkey := ComputeLastSubkey(bs, data, encrypt);
    if subkey.Err? {
      return Err(subkey.error);
    }
    SubkeyShape(bs, data, encrypt);
    var lastSubkey, complete := subkey.value.0, subkey.value.1;
    var blockCount := BlockCount(bs, data);
    var state := Zeros(bs);
    ghost var prepared := Prepared(bs, data, lastSubkey);
    PaddedLength(bs, data);
    assert prepared[0..] == prepared;
    for blockIndex := 0 to blockCount
      invariant |state| == bs && bs * blockIndex <= |prepared|
      invariant Chain(bs, encrypt, state, prepared[bs * blockIndex..]) == Mac(bs, data, encrypt)
    {
      PaddedLength(bs, data);
      BlockAtIsPrepared(bs, data, lastSubkey, blockIndex);
      ghost var rest := prepared[bs * blockIndex..];
      assert rest[..bs] == BlockAt(bs, data, lastSubkey, blockIndex);
      assert rest[bs..] == prepared[bs * (blockIndex + 1)..];
      var block := BuildBlock(bs, data, lastSubkey, complete, blockIndex, blockCount);
      block := XorSeq(block, state);
      var encrypted := encrypt(block);
      if encrypted.Err? {
        return Err(BlockOperation(encrypted.error));
      }
      if |encrypted.value| != bs {
        return Err(InvalidBlockOutput);
      }
      state := encrypted.value;
    }
    return Ok(state);
  }

  lemma SubkeyShape<E>(bs: nat, data: seq<byte>, encrypt: Encrypt<E>)
    requires LastSubkey(bs, data, encrypt).Ok?
    ensures (bs == 8 || bs == 16) && |LastSubkey(bs, data, encrypt).value| == bs
  {
  }

  method BuildBlock(bs: nat, data: seq<byte>, lastSubkey: seq<byte>, complete: bool, blockIndex: nat, blockCount: nat)
    returns (block: seq<byte>)
    requires (bs == 8 || bs == 16) && |lastSubkey| == bs && blockCount == BlockCount(bs, data) &&
             blockIndex < blockCount
    requires complete == IsComplete(bs, data)
    ensures block == BlockAt(bs, data, lastSubkey, blockIndex)
  {
    hide XorSeq;
    PaddedLength(bs, data);
    var start := bs * blockIndex;
    assert start <= |data|;
    var available := if |data| - start < bs then |data| - start else bs;
    block := data[start..start + available] + Zeros(bs - available);
    if blockIndex + 1 == blockCount {
      if !complete {
        block := block[available := 0x80];
      }
      block := XorSeq(block, lastSubkey);
    }
  }

  // ---------- Through one CBC call ----------

  /** What the two-call form returns. */
  function MacThroughCbc<E>(bs: nat, data: seq<byte>, encrypt: Encrypt<E>, cbc: Encrypt<E>): (r: Output<E>) {
    var subkey := LastSubkey(bs, data, encrypt);
    if subkey.Err? then subkey
    else
      var input := Prepared(bs, data, subkey.value);
      match cbc(input)
      case Err(e) => Err(BlockOperation(e))
      case Ok(v) => if |v| != |input| then Err(InvalidBlockOutput) else Ok(v[|v| - bs..])
  }

  method CmacWithCbc<E>(bs: nat, data: seq<byte>, encrypt: Encrypt<E>, cbc: Encrypt<E>) returns (r: Output<E>)
    ensures r == MacThroughCbc(bs, data, encrypt, cbc)
    ensures r == Err(InvalidBlockSize) <==> bs != 8 && bs != 16
  {
    hide XorSeq, Zeros, Padded, IsComplete, LastSubkey;
    var subkey := ComputeLastSubkey(bs, data, encrypt);
    if subkey.Err? {
      return Err(subkey.error);
    }
    SubkeyShape(bs, data, encrypt);
    var lastSubkey, complete := subkey.value.0, subkey.value.1;
    var paddedLength := |data| + if complete then 0 else bs - |data| % bs;
    var input := data + seq(paddedLength - |data|, _ => 0);
    if !complete {
      input := input[|data| := 0x80];
    }
    PaddedByHand(bs, data);
    PaddedLength(bs, data);
    assert input == Padded(bs, data);
    input := input[..paddedLength - bs] + XorSeq(input[paddedLength - bs..], lastSubkey);
    var ciphertext := cbc(input);
    if ciphertext.Err? {
      return Err(BlockOperation(ciphertext.error));
    }
    if |ciphertext.value| != paddedLength {
      return Err(InvalidBlockOutput);
    }
    return Ok(ciphertext.value[paddedLength - bs..]);
  }

  lemma PaddedByHand(bs: nat, data: seq<byte>)
    requires bs == 8 || bs == 16
    ensures IsComplete(bs, data) ==> Padded(bs, data) == data + seq(0, _ => 0)
    ensures !IsComplete(bs, data) ==> Padded(bs, data) == (data + seq(bs - |data| % bs, _ => 0))[|data| := 0x80]
  {
  }

  function Ignoring<E>(encrypt: Encrypt<E>): Transform<E> { (b: seq<byte>, encrypting: bool) => encrypt(b) }

  /** The CBC callback that runs the same encryptor from a zero initialisation vector. */
  function ZeroIvCbc<E>(bs: nat, encrypt: Encrypt<E>): Encrypt<E>
    requires bs > 0
  {
    (input: seq<byte>) =>
      match Chained(bs, Zeros(bs), input, true, Ignoring(encrypt))
      case Ok(v) => Ok(v)
      case Err(BlockOperation(e)) => Err(e)
      case Err(_) => Ok([])
  }

  /** The last block of a CBC encryption is the chaining value, and the two fail alike. */
  lemma {:induction false} LastBlockIsChain<E>(bs: nat, encrypt: Encrypt<E>, state: seq<byte>, input: seq<byte>)
    requires bs > 0 && |state| == bs && Whole(bs, input)
    ensures var e := Encrypted(bs, Ignoring(encrypt), state, input);
            var c := Chain(bs, encrypt, state, input);
            (e.Ok? ==> |e.value| == |input| && c == Ok((state + e.value)[|e.value|..])) && (e.Err? ==> c == e)
    decreases |input|
  {
    hide XorSeq, Whole;
    if input == [] {
      assert (state + [])[0..] == state;
    } else {
      WholeTail(bs, input);
      var first := encrypt(XorSeq(input[..bs], state));
      if first.Ok? && |first.value| == bs {
        var v, f := first.value, Ignoring(encrypt);
        LastBlockIsChain(bs, encrypt, v, input[bs..]);
        var e := Encrypted(bs, f, v, input[bs..]);
        assert Encrypted(bs, f, state, input) == Prepend(v, e);
        if e.Ok? {
          assert (state + (v + e.value))[|v + e.value|..] == (v + e.value)[|e.value|..];
        }
      }
    }
  }

  /** The two-call form equals the block-at-a-time form, for every message, both block sizes and
      every encryptor that returns whole blocks or fails. */
  lemma TwoFormsAgree<E(!new)>(bs: nat, data: seq<byte>, encrypt: Encrypt<E>)
    requires forall b: seq<byte> :: encrypt(b).Ok? ==> |encrypt(b).value| == |b|
    ensures bs > 0 ==> MacThroughCbc(bs, data, encrypt, ZeroIvCbc(bs, encrypt)) == Mac(bs, data, encrypt)
  {
    hide XorSeq, Prepared, Encrypted, Chain;
    var subkey := LastSubkey(bs, data, encrypt);
    if subkey.Ok? {
      var input := Prepared(bs, data, subkey.value);
      assert Whole(bs, input) by { PaddedLength(bs, data); }
      LastBlockIsChain(bs, encrypt, Zeros(bs), input);
      NoShortBlocks(bs, Ignoring(encrypt), Zeros(bs), input);
      var e := Encrypted(bs, Ignoring(encrypt), Zeros(bs), input);
      if e.Ok? {
        assert (Zeros(bs) + e.value)[|e.value|..] == e.value[|e.value| - bs..];
      }
    }
  }

  lemma {:induction false} NoShortBlocks<E(!new)>(bs: nat, transform: Transform<E>, state: seq<byte>, input: seq<byte>)
    requires bs > 0 && |state| == bs && Whole(bs, input)
    requires forall b: seq<byte> :: transform(b, true).Ok? ==> |transform(b, true).value| == |b|
    ensures var e := Encrypted(bs, transform, state, input); e.Ok? || e.error.BlockOperation?
    decreases |input|
  {
    hide Whole;
    if input != [] {
      WholeTail(bs, input);
      var first := transform(XorSeq(input[..bs], state), true);
      if first.Ok? {
        NoShortBlocks(bs, transform, first.value, input[bs..]);
      }
    }
  }

  // ---------- What the subkeys, the padding and the MAC are ----------

  /** The two polynomials: x^64 + x^4 + x^3 + x + 1 and x^128 + x^7 + x^2 + x + 1. */
  lemma FieldPolynomials()
    ensures FieldPolynomial(8) == Pow(2, 64) + Pow(2, 4) + Pow(2, 3) + Pow(2, 1) + Pow(2, 0)
    ensures FieldPolynomial(16) == Pow(2, 128) + Pow(2, 7) + Pow(2, 2) + Pow(2, 1) + Pow(2, 0)
  {
    assert Pow(2, 0) == 1 && Pow(2, 1) == 2 && Pow(2, 2) == 4 && Pow(2, 3) == 8 && Pow(2, 4) == 16;
    PowAdd(2, 4, 3);
  }

  /** Multiplication by x: the product is 2v itself, or differs from it by the field polynomial, and has
      fewer than n bits. */
  lemma TimesXMeaning(v: nat, n: nat, f: nat)
    requires v < Pow(2, n) && Pow(2, n) <= f < 2 * Pow(2, n)
    ensures var r := TimesX(v, n, f);
            r < Pow(2, n) && (if 2 * v < Pow(2, n) then r == 2 * v else XorBits(n + 1, r, f) == 2 * v)
  {
    if 2 * v >= Pow(2, n) {
      XorBitsCancel(n + 1, 2 * v, f);
      TopBits(n, 2 * v, f);
    }
  }

  /** The exclusive or of two numbers with the same top bit has it clear. */
  lemma {:induction false} TopBits(n: nat, a: nat, b: nat)
    requires Pow(2, n) <= a < 2 * Pow(2, n) && Pow(2, n) <= b < 2 * Pow(2, n)
    ensures XorBits(n + 1, a, b) < Pow(2, n)
  {
    if n == 0 {
      assert Pow(2, 0) == 1 && a == 1 && b == 1;
      assert XorBits(0, 0, 0) == 0;
    } else {
      TopBits(n - 1, a / 2, b / 2);
      XorUnfold(n + 1, a, b);
    }
  }

  /** The last subkey: with L the encrypted zero block, x*L when the data fills its last block, else
      x*(x*L), in the field of the block size. */
  lemma SubkeyMeans<E>(bs: nat, data: seq<byte>, encrypt: Encrypt<E>)
    requires LastSubkey(bs, data, encrypt).Ok?
    ensures (bs == 8 || bs == 16) && encrypt(Zeros(bs)).Ok?
    ensures var l, k := FromBigEndian(encrypt(Zeros(bs)).value), FromBigEndian(LastSubkey(bs, data, encrypt).value);
            var once := TimesX(l, 8 * bs, FieldPolynomial(bs));
            k == if |data| > 0 && |data| % bs == 0 then once else TimesX(once, 8 * bs, FieldPolynomial(bs))
  {
    hide Doubled, TimesX, FieldPolynomial, FromBigEndian;
    var l := encrypt(Zeros(bs)).value;
    DoubledIsTimesX(l);
    DoubledIsTimesX(Doubled(l));
  }

  /** The prepared message: the data, then 0x80 and zeros unless it fills its last block; the subkey is
      exclusive-ored into the last block only. */
  lemma PreparedMeans(bs: nat, data: seq<byte>, subkey: seq<byte>)
    requires (bs == 8 || bs == 16) && |subkey| == bs
    ensures var m, n := Prepared(bs, data, subkey), |data|;
            && |m| % bs == 0 && |m| >= bs && n <= |m| <= n + bs && (|m| == n <==> n > 0 && n % bs == 0)
            && forall i :: 0 <= i < |m| ==>
                 var plain: byte := if i < n then data[i] else if i == n then 0x80 else 0;
                 m[i] == if i < |m| - bs then plain else Xor(plain, subkey[i - (|m| - bs)])
  {
    hide Xor;
    var p, m, n := Padded(bs, data), Prepared(bs, data, subkey), |data|;
    PaddedLength(bs, data);
    forall i | 0 <= i < |p| ensures p[i] == if i < n then data[i] else if i == n then 0x80 else 0 {
    }
    forall i | 0 <= i < |m|
      ensures m[i] == if i < |m| - bs then p[i] else Xor(p[i], subkey[i - (|m| - bs)])
    {
      if i >= |m| - bs {
        assert m[i] == XorSeq(p[|p| - bs..], subkey)[i - (|m| - bs)];
      }
    }
  }
}
