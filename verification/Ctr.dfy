/** Counter mode over a caller-supplied block encryptor of up to 128 bits. */
module Ctr {
  import opened Arithmetic
  import opened Bytes
  import opened Keystream
  import opened Cbc

  type Encrypt<!E> = seq<byte> -> Result<seq<byte>, E>

  const WORD: nat := 0x1_0000_0000_0000_0000_0000_0000_0000_0000

  /** Counter number offset: the low bits of the initial value advance and wrap, the rest is fixed.
      The sum is taken in a 128-bit word first. */
  function CounterValue(bits: nat, initial: nat, offset: nat): nat {
    PowPositive(2, bits);
    var m := Pow(2, bits);
    FixedPart(initial, m);
    (initial - initial % m) + ((initial % m + offset) % WORD) % m
  }

  lemma FixedPart(v: nat, m: nat)
    requires m > 0
    ensures v - v % m >= 0
  {
    MulMonotone(m, 0, v / m);
  }

  function CounterBlock(bits: nat, block: seq<byte>, offset: nat): (s: seq<byte>)
    ensures |s| == |block|
  {
    ToBigEndian(CounterValue(bits, FromBigEndian(block), offset), |block|)
  }

  /** Counter blocks 0 to n - 1. */
  function CounterBlocks(bits: nat, block: seq<byte>, n: nat): (s: seq<byte>)
    ensures |s| == |block| * n
  {
    if n == 0 then [] else
      assert |block| * n == |block| * (n - 1) + |block|;
      CounterBlocks(bits, block, n - 1) + CounterBlock(bits, block, n - 1)
  }

  function BlockCount(n: nat, bs: nat): (k: nat)
    requires bs > 0
    ensures bs * k >= n
  {
    var k := (n + bs - 1) / bs;
    assert n + bs - 1 == bs * k + (n + bs - 1) % bs;
    k
  }

  function CtrSpec<E>(bits: nat, block: seq<byte>, input: seq<byte>, encrypt: Encrypt<E>): (r: Output<E>) {
    if block == [] || |block| > 16 then Err(InvalidBlockSize)
    else if !(1 <= bits <= |block| * 8) then Err(InvalidCounterBits)
    else
      var n := BlockCount(|input|, |block|);
      if n * |block| >= USIZE then Err(InputTooLong)
      else
        match encrypt(CounterBlocks(bits, block, n))
        case Err(e) => Err(BlockOperation(e))
        case Ok(v) => if |v| != |block| * n then Err(InvalidBlockOutput) else Ok(XorSeq(input, v))
  }

  method CtrWith<E>(counterBits: nat, counterBlock: seq<byte>, input: seq<byte>, encrypt: Encrypt<E>)
    returns (r: Output<E>)
    ensures r == CtrSpec(counterBits, counterBlock, input, encrypt)
    ensures r == Err(InvalidBlockSize) <==> |counterBlock| == 0 || |counterBlock| > 16
    ensures r == Err(InvalidCounterBits) <==>
            1 <= |counterBlock| <= 16 && !(1 <= counterBits <= 8 * |counterBlock|)
  {
    hide XorSeq, CounterBlock;
    if counterBlock == [] || |counterBlock| > 16 {
      return Err(InvalidBlockSize);
    }
    var blockSize := |counterBlock|;
    if !(1 <= counterBits <= blockSize * 8) {
      return Err(InvalidCounterBits);
    }
    var blockCount := BlockCount(|input|, blockSize);
    if blockCount * blockSize >= USIZE {
      return Err(InputTooLong);
    }
    var counterBlocks := [];
    for offset := 0 to blockCount
      invariant counterBlocks == CounterBlocks(counterBits, counterBlock, offset)
    {
      counterBlocks := counterBlocks + CounterBlock(counterBits, counterBlock, offset);
    }
    var keyStream := encrypt(counterBlocks);
    if keyStream.Err? {
      return Err(BlockOperation(keyStream.error));
    }
    if |keyStream.value| != |counterBlocks| {
      return Err(InvalidBlockOutput);
    }
    return Ok(XorSeq(input, keyStream.value));
  }

  /** Counter mode is its own inverse. */
  lemma CtrIsInvolution<E>(bits: nat, block: seq<byte>, x: seq<byte>, y: seq<byte>, encrypt: Encrypt<E>)
    ensures CtrSpec(bits, block, x, encrypt) == Ok(y) <==> CtrSpec(bits, block, y, encrypt) == Ok(x)
  {
    hide XorSeq, CounterBlocks, BlockCount;
    if |x| == |y| && block != [] {
      var v := encrypt(CounterBlocks(bits, block, BlockCount(|x|, |block|)));
      if v.Ok? && |v.value| == |block| * BlockCount(|x|, |block|) {
        CountCovers(|x|, |block|);
        XorSeqCancels(x, v.value);
        XorSeqCancels(y, v.value);
      }
    }
  }

  lemma CountCovers(n: nat, bs: nat)
    requires bs > 0
    ensures bs * BlockCount(n, bs) >= n
  {
  }

  // ---------- When counter blocks repeat ----------

  lemma {:induction false} PowersDivide(bits: nat, k: nat)
    ensures Pow(2, bits) > 0 && Pow(2, bits + k) == Pow(2, bits) * Pow(2, k)
  {
    PowPositive(2, bits);
    PowAdd(2, bits, k);
  }

  lemma WordIsPower()
    ensures WORD == Pow(2, 128)
  {
    assert Pow(2, 8) == 256 by { TwoToTheEighth(); }
    PowAdd(2, 8, 8);
    PowAdd(2, 16, 16);
    PowAdd(2, 32, 32);
    PowAdd(2, 64, 64);
  }

  lemma ModOfMod(x: nat, m: nat, k: nat)
    requires m > 0 && k > 0
    ensures m * k > 0 && (x % (m * k)) % m == x % m
  {
    assert m * k > 0;
    var q, r := x / (m * k), x % (m * k);
    var a, b := r / m, r % m;
    assert x == m * (k * q + a) + b by {
      assert (m * k) * q == m * (k * q);
    }
    RemainderUnique(x, m, k * q + a, b);
  }

  /** The 128-bit sum loses nothing, since the mask is at most 128 bits wide. */
  lemma WordIsWideEnough(bits: nat, x: nat)
    requires bits <= 128
    ensures Pow(2, bits) > 0 && (x % WORD) % Pow(2, bits) == x % Pow(2, bits)
  {
    hide Pow;
    WordIsPower();
    PowersDivide(bits, 128 - bits);
    PowPositive(2, 128 - bits);
    ModOfMod(x, Pow(2, bits), Pow(2, 128 - bits));
  }

  lemma SameWrapped(low: nat, i: nat, j: nat, m: nat)
    requires m > 0
    ensures (low + i) % m == (low + j) % m <==> Cong(i, j, m)
  {
    CongIsEqualRemainder(low + i, low + j, m);
    assert (low + i) - (low + j) == i - j;
  }

  lemma CounterRange(bits: nat, initial: nat, offset: nat, size: nat)
    requires Pow(2, bits) > 0 && initial < Pow(2, bits) * size
    ensures CounterValue(bits, initial, offset) < Pow(2, bits) * size
  {
    var m := Pow(2, bits);
    hide Pow;
    BelowMultiple(initial / m, initial % m, initial, ((initial % m + offset) % WORD) % m, m, size);
  }

  lemma BelowMultiple(q: int, r: int, v: int, low: int, m: int, size: int)
    requires m > 0 && v == m * q + r && 0 <= r && 0 <= low < m && v < m * size
    ensures v - r + low < m * size
  {
    if q >= size {
      MulMonotone(m, size, q);
    }
    MulMonotone(m, q + 1, size);
    assert m * (q + 1) == m * q + m;
  }

  lemma CounterFits(bits: nat, block: seq<byte>, offset: nat)
    requires bits <= 8 * |block|
    ensures CounterValue(bits, FromBigEndian(block), offset) < Pow(256, |block|)
  {
    hide CounterValue;
    BigEndianBound(block);
    TwoToTheEighth();
    PowPow(2, 8, |block|);
    PowersDivide(bits, 8 * |block| - bits);
    CounterRange(bits, FromBigEndian(block), offset, Pow(2, 8 * |block| - bits));
  }

  /** Counter blocks i and j coincide exactly when i and j agree modulo 2 to the counter bits. */
  lemma CountersCoincide(bits: nat, block: seq<byte>, i: nat, j: nat)
    requires |block| <= 16 && bits <= 8 * |block|
    ensures Pow(2, bits) > 0
    ensures CounterBlock(bits, block, i) == CounterBlock(bits, block, j) <==> Cong(i, j, Pow(2, bits))
  {
    hide Pow, FromBigEndian, ToBigEndian, CounterValue, Cong;
    PowPositive(2, bits);
    var v := FromBigEndian(block);
    CounterFits(bits, block, i);
    CounterFits(bits, block, j);
    if CounterBlock(bits, block, i) == CounterBlock(bits, block, j) {
      BigEndianInjective(CounterValue(bits, v, i), CounterValue(bits, v, j), |block|);
    }
    ValuesCoincide(bits, v, i, j);
  }

  lemma ValuesCoincide(bits: nat, v: nat, i: nat, j: nat)
    requires bits <= 128
    ensures Pow(2, bits) > 0
    ensures CounterValue(bits, v, i) == CounterValue(bits, v, j) <==> Cong(i, j, Pow(2, bits))
  {
    hide Pow, Cong;
    PowPositive(2, bits);
    var m := Pow(2, bits);
    WordIsWideEnough(bits, v % m + i);
    WordIsWideEnough(bits, v % m + j);
    SameWrapped(v % m, i, j, m);
  }

  /** The counter blocks of one call are pairwise distinct exactly when there are at most 2 to the
      counter bits of them; the source does not check this. */
  lemma CountersDistinctIff(bits: nat, block: seq<byte>, n: nat)
    requires |block| <= 16 && bits <= 8 * |block|
    ensures n <= Pow(2, bits) <==>
            forall i, j :: 0 <= i < n && 0 <= j < n ==>
              CounterBlock(bits, block, i) == CounterBlock(bits, block, j) ==> i == j
  {
    hide Pow, CounterBlock;
    PowPositive(2, bits);
    var m := Pow(2, bits);
    if n <= m {
      forall i, j | 0 <= i < n && 0 <= j < n && CounterBlock(bits, block, i) == CounterBlock(bits, block, j)
        ensures i == j
      {
        CountersCoincide(bits, block, i, j);
        CongOfResidues(i, j, m);
      }
    } else {
      CountersCoincide(bits, block, 0, m);
      CongIntro(0, m, m, -1);
      assert CounterBlock(bits, block, 0) == CounterBlock(bits, block, m);
    }
  }

  /** Such a call is accepted: with a one-bit counter, three one-byte blocks use the counter block 0
      twice. */
  lemma CountersRepeat<E>(encrypt: Encrypt<E>)
    requires encrypt(CounterBlocks(1, [0], 3)).Ok? && |encrypt(CounterBlocks(1, [0], 3)).value| == 3
    ensures BlockCount(3, 1) == 3 && CtrSpec(1, [0], [0, 0, 0], encrypt).Ok?
    ensures CounterBlock(1, [0], 0) == CounterBlock(1, [0], 2)
  {
    hide CounterBlock, CounterBlocks, XorSeq;
    assert BlockCount(3, 1) == 3;
    CountersCoincide(1, [0], 0, 2);
    assert Pow(2, 1) == 2;
  }

  // ---------- What the counter blocks and the output are ----------

  /** Counter block k keeps the bits above the counter and advances the counter by k, wrapping. */
  lemma CounterFields(bits: nat, block: seq<byte>, k: nat)
    requires |block| <= 16 && bits <= 8 * |block|
    ensures Pow(2, bits) > 0
    ensures var v, m := FromBigEndian(CounterBlock(bits, block, k)), Pow(2, bits);
            v / m == FromBigEndian(block) / m && v % m == (FromBigEndian(block) + k) % m
  {
    hide Pow, FromBigEndian, ToBigEndian, CounterValue;
    PowPositive(2, bits);
    var v, m := FromBigEndian(block), Pow(2, bits);
    CounterFits(bits, block, k);
    BigEndianRoundTrip(CounterValue(bits, v, k), |block|);
    ValueFields(bits, v, k);
  }

  lemma ValueFields(bits: nat, v: nat, k: nat)
    requires bits <= 128
    ensures Pow(2, bits) > 0
    ensures var m := Pow(2, bits); CounterValue(bits, v, k) / m == v / m && CounterValue(bits, v, k) % m == (v + k) % m
  {
    hide Pow;
    PowPositive(2, bits);
    var m := Pow(2, bits);
    var q, low := v / m, v % m;
    WordIsWideEnough(bits, low + k);
    RemainderUnique(CounterValue(bits, v, k), m, q, (low + k) % m);
    SumRemainder(v, k, m);
  }

  lemma SumRemainder(v: nat, k: nat, m: nat)
    requires m > 0
    ensures (v % m + k) % m == (v + k) % m
  {
    CongMod(v, m);
    CongIntro(k, k, m, 0);
    CongAdd(v % m, v, k, k, m);
    CongIsEqualRemainder(v % m + k, v + k, m);
  }

  lemma {:induction false} CounterBlockAt(bits: nat, block: seq<byte>, n: nat, k: nat)
    requires k < n && block != []
    ensures |block| * k + |block| <= |block| * n
    ensures CounterBlocks(bits, block, n)[|block| * k..|block| * k + |block|] == CounterBlock(bits, block, k)
  {
    hide CounterBlock;
    MulMonotone(|block|, k + 1, n);
    assert |block| * (k + 1) == |block| * k + |block|;
    assert |block| * n == |block| * (n - 1) + |block|;
    if k < n - 1 {
      CounterBlockAt(bits, block, n - 1, k);
      var all, init := CounterBlocks(bits, block, n), CounterBlocks(bits, block, n - 1);
      assert all[..|init|] == init;
      assert all[|block| * k..|block| * k + |block|] == all[..|init|][|block| * k..|block| * k + |block|];
    }
  }

  /** Output byte i is input byte i masked with byte i of the encrypted counter blocks, as many blocks as
      the input needs. */
  lemma OutputMeans<E>(bits: nat, block: seq<byte>, input: seq<byte>, out: seq<byte>, encrypt: Encrypt<E>)
    returns (n: nat, stream: seq<byte>)
    requires CtrSpec(bits, block, input, encrypt) == Ok(out)
    ensures 1 <= |block| <= 16 && 1 <= bits <= 8 * |block|
    ensures |input| <= |block| * n < |input| + |block| && encrypt(CounterBlocks(bits, block, n)) == Ok(stream)
    ensures |out| == |input| <= |stream| && forall i :: 0 <= i < |input| ==> out[i] == Xor(input[i], stream[i])
  {
    hide CounterBlocks, Xor;
    n := BlockCount(|input|, |block|);
    CountIsLeast(|input|, |block|);
    stream := encrypt(CounterBlocks(bits, block, n)).value;
  }

  lemma CountIsLeast(n: nat, bs: nat)
    requires bs > 0
    ensures n <= bs * BlockCount(n, bs) < n + bs
  {
    var k := BlockCount(n, bs);
    assert n + bs - 1 == bs * k + (n + bs - 1) % bs;
  }
}
