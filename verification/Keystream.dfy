/** Sixteen-byte blocks, zero padding, and masking data with a key stream. */
module Keystream {
  import opened Bytes

  /** Lengths are 64-bit machine words. */
  const USIZE: nat := 0x1_0000_0000_0000_0000

  type usize = x: nat | x < USIZE

  function BlocksFor(n: nat): (k: nat)
    ensures 16 * k < n + 16 && n <= 16 * k
  {
    (n + 15) / 16
  }

  /** Zeros up to the next multiple of sixteen. */
  function PadToBlock(s: seq<byte>): (r: seq<byte>)
    ensures |r| % 16 == 0 && |s| <= |r| < |s| + 16 && r[..|s|] == s
    ensures forall i :: |s| <= i < |r| ==> r[i] == 0
  {
    s + Zeros(16 * BlocksFor(|s|) - |s|)
  }

  /** Padding depends only on the length, so equal-length data can be read back. */
  lemma PadInjective(s: seq<byte>, t: seq<byte>, x: seq<byte>, y: seq<byte>)
    requires |s| == |t| && PadToBlock(s) + x == PadToBlock(t) + y
    ensures s == t && x == y
  {
    var p, q := PadToBlock(s), PadToBlock(t);
    assert |p| == |q|;
    assert p == (p + x)[..|p|] && x == (p + x)[|p|..];
    assert q == (q + y)[..|q|] && y == (q + y)[|q|..];
    assert s == p[..|s|] && t == q[..|t|];
  }

  /** The low bytes of a wider encoding. */
  lemma {:induction false} LowBytes(n: nat, wide: nat, len: nat)
    requires len <= wide
    ensures ToBigEndian(n, wide)[wide - len..] == ToBigEndian(n, len)
  {
    if len > 0 {
      LowBytes(n / 256, wide - 1, len - 1);
    }
  }

  /** The source masks chunk by chunk; chunk boundaries do not matter. */
  method XorChunks(payload: seq<byte>, stream: seq<byte>) returns (out: seq<byte>)
    requires |payload| <= |stream|
    ensures out == XorSeq(payload, stream)
  {
    out := [];
    var start := 0;
    while start < |payload|
      invariant start <= |payload| || start < |payload| + 16
      invariant |out| == if start <= |payload| then start else |payload|
      invariant forall i :: 0 <= i < |out| ==> out[i] == Xor(payload[i], stream[i])
      decreases |payload| - start
    {
      var end := if start + 16 <= |payload| then start + 16 else |payload|;
      ghost var before := out;
      var block := XorSeq(payload[start..end], stream[start..end]);
      out := out + block;
      forall i | 0 <= i < |out| ensures out[i] == Xor(payload[i], stream[i]) {
        if i >= |before| {
          assert out[i] == block[i - start];
        }
      }
      start := start + 16;
    }
  }
}
