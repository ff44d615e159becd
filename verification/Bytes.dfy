/** Bytes, exclusive or, and fixed-width big- and little-endian integers. */
module Bytes {
  import opened Arithmetic

  type byte = x: int | 0 <= x < 256

  datatype Option<+T> = None | Some(value: T)

  datatype Result<+T, +E> = Ok(value: T) | Err(error: E)

  // ---------- Exclusive or ----------

  /** Exclusive or of the low n bits. */
  function XorBits(n: nat, a: nat, b: nat): (r: nat)
    ensures r < Pow(2, n)
  {
    if n == 0 then 0 else 2 * XorBits(n - 1, a / 2, b / 2) + (if a % 2 == b % 2 then 0 else 1)
  }

  function Xor(a: byte, b: byte): (r: byte) {
    assert Pow(2, 8) == 256 by { TwoToTheEighth(); }
    XorBits(8, a, b)
  }

  lemma TwoToTheEighth()
    ensures Pow(2, 8) == 256
  {
    assert Pow(2, 4) == 16;
    PowAdd(2, 4, 4);
  }

  lemma {:induction false} XorBitsCancel(n: nat, a: nat, b: nat)
    requires a < Pow(2, n)
    ensures XorBits(n, XorBits(n, a, b), b) == a
  {
    if n > 0 {
      XorBitsCancel(n - 1, a / 2, b / 2);
      assert XorBits(n, a, b) / 2 == XorBits(n - 1, a / 2, b / 2);
    }
  }

  lemma {:induction false} XorBitsZero(n: nat, a: nat)
    requires a < Pow(2, n)
    ensures XorBits(n, a, 0) == a
  {
    if n > 0 {
      XorBitsZero(n - 1, a / 2);
    }
  }

  lemma {:induction false} XorBitsCommute(n: nat, a: nat, b: nat)
    ensures XorBits(n, a, b) == XorBits(n, b, a)
  {
    if n > 0 {
      XorBitsCommute(n - 1, a / 2, b / 2);
    }
  }

  /** Bit j of the exclusive or is the sum of the two bits modulo 2. */
  lemma {:induction false} XorBit(n: nat, a: nat, b: nat, j: nat)
    requires j < n
    ensures Pow(2, j) > 0
    ensures (XorBits(n, a, b) / Pow(2, j)) % 2 == (a / Pow(2, j) + b / Pow(2, j)) % 2
  {
    PowPositive(2, j);
    if j == 0 {
      assert Pow(2, 0) == 1;
    } else {
      XorHalf(n, a, b);
      hide XorBits;
      PowPositive(2, j - 1);
      XorBit(n - 1, a / 2, b / 2, j - 1);
      HalfThenPower(XorBits(n, a, b), Pow(2, j - 1));
      HalfThenPower(a, Pow(2, j - 1));
      HalfThenPower(b, Pow(2, j - 1));
    }
  }

  lemma XorHalf(n: nat, a: nat, b: nat)
    requires n > 0
    ensures XorBits(n, a, b) / 2 == XorBits(n - 1, a / 2, b / 2)
  {
  }

  lemma HalfThenPower(v: nat, p: nat)
    requires p > 0
    ensures (v / 2) / p == v / (2 * p)
  {
    var q, r := v / 2, v % 2;
    var a, b := q / p, q % p;
    assert 2 * (p * a + b) + r == (2 * p) * a + (2 * b + r);
    RemainderUnique(v, 2 * p, a, 2 * b + r);
  }

  lemma XorCancels(a: byte, b: byte)
    ensures Xor(Xor(a, b), b) == a
  {
    TwoToTheEighth();
    XorBitsCancel(8, a, b);
  }

  lemma XorZero(a: byte)
    ensures Xor(a, 0) == a && Xor(0, a) == a
  {
    TwoToTheEighth();
    XorBitsZero(8, a);
    XorBitsCommute(8, a, 0);
  }

  /** Bytewise exclusive or; the mask must be at least as long as the data. */
  function XorSeq(data: seq<byte>, mask: seq<byte>): (r: seq<byte>)
    requires |data| <= |mask|
    ensures |r| == |data|
  {
    seq(|data|, i requires 0 <= i < |data| => Xor(data[i], mask[i]))
  }

  lemma XorSeqCancels(data: seq<byte>, mask: seq<byte>)
    requires |data| <= |mask|
    ensures XorSeq(XorSeq(data, mask), mask) == data
  {
    forall i | 0 <= i < |data| ensures XorSeq(XorSeq(data, mask), mask)[i] == data[i] {
      XorCancels(data[i], mask[i]);
    }
  }

  // ---------- Integers as bytes ----------

  function Zeros(n: nat): (z: seq<byte>)
    ensures |z| == n && forall i :: 0 <= i < n ==> z[i] == 0
  {
    seq(n, _ => 0)
  }

  function FromBigEndian(s: seq<byte>): nat {
    if s == [] then 0 else FromBigEndian(s[..|s| - 1]) * 256 + s[|s| - 1]
  }

  /** The low 8*len bits of n, most significant byte first. */
  function ToBigEndian(n: nat, len: nat): (s: seq<byte>)
    ensures |s| == len
  {
    if len == 0 then [] else ToBigEndian(n / 256, len - 1) + [n % 256]
  }

  lemma {:induction false} BigEndianBound(s: seq<byte>)
    ensures FromBigEndian(s) < Pow(256, |s|)
  {
    if s != [] {
      BigEndianBound(s[..|s| - 1]);
    }
  }

  /** Writing and reading back loses nothing that fits. */
  lemma {:induction false} BigEndianRoundTrip(n: nat, len: nat)
    requires n < Pow(256, len)
    ensures FromBigEndian(ToBigEndian(n, len)) == n
  {
    if len > 0 {
      BigEndianRoundTrip(n / 256, len - 1);
      var s := ToBigEndian(n, len);
      assert s[..len - 1] == ToBigEndian(n / 256, len - 1);
    }
  }

  lemma {:induction false} BytesRoundTrip(s: seq<byte>)
    ensures ToBigEndian(FromBigEndian(s), |s|) == s
  {
    if s != [] {
      var init, last := s[..|s| - 1], s[|s| - 1];
      BytesRoundTrip(init);
      assert FromBigEndian(s) / 256 == FromBigEndian(init) && FromBigEndian(s) % 256 == last;
      assert s == init + [last];
    }
  }

  /** The first byte weighs most. */
  lemma {:induction false} FirstByteWeight(b: byte, s: seq<byte>)
    ensures FromBigEndian([b] + s) == b * Pow(256, |s|) + FromBigEndian(s)
  {
    var t := [b] + s;
    if s == [] {
      assert t[..0] == [];
    } else {
      FirstByteWeight(b, s[..|s| - 1]);
      assert t[..|t| - 1] == [b] + s[..|s| - 1];
      var p := Pow(256, |s| - 1);
      assert (b * p) * 256 == b * (256 * p);
    }
  }

  lemma {:induction false} DropBytes(s: seq<byte>, k: nat)
    requires k <= |s|
    ensures Pow(256, |s| - k) > 0
    ensures FromBigEndian(s[..k]) == FromBigEndian(s) / Pow(256, |s| - k)
    decreases |s| - k
  {
    PowPositive(256, |s| - k);
    if k == |s| {
      assert s[..k] == s;
    } else {
      var t := s[..|s| - 1];
      DropBytes(t, k);
      assert t[..k] == s[..k];
      DivideTwice(FromBigEndian(s), Pow(256, |s| - k - 1));
    }
  }

  lemma DivideTwice(v: nat, p: nat)
    requires p > 0
    ensures (v / 256) / p == v / (256 * p)
  {
    var q, r := v / 256, v % 256;
    var a, b := q / p, q % p;
    assert 256 * (p * a + b) + r == (256 * p) * a + (256 * b + r);
    RemainderUnique(v, 256 * p, a, 256 * b + r);
  }

  /** Distinct numbers below 256^len have distinct encodings. */
  lemma BigEndianInjective(m: nat, n: nat, len: nat)
    requires m < Pow(256, len) && n < Pow(256, len) && ToBigEndian(m, len) == ToBigEndian(n, len)
    ensures m == n
  {
    BigEndianRoundTrip(m, len);
    BigEndianRoundTrip(n, len);
  }

  /** The shortest big-endian form; zero is one zero byte. */
  function MinimalBytes(n: nat): (s: seq<byte>)
    ensures |s| > 0
  {
    if n < 256 then [n] else MinimalBytes(n / 256) + [n % 256]
  }

  lemma {:induction false} MinimalBytesValue(n: nat)
    ensures FromBigEndian(MinimalBytes(n)) == n
  {
    var s := MinimalBytes(n);
    if n < 256 {
      assert s[..0] == [];
    } else {
      MinimalBytesValue(n / 256);
      assert s[..|s| - 1] == MinimalBytes(n / 256);
    }
  }

  function FromLittleEndian(s: seq<byte>): nat {
    if s == [] then 0 else s[0] + 256 * FromLittleEndian(s[1..])
  }
}
