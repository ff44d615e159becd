/** What the RSA encodings share: errors, the mask generator and masking in place. */
module RsaEncoding {
  import opened Bytes

  datatype EncodingError =
    | InputTooLong
    | InvalidDigestLength
    | InvalidKey
    | InvalidSignature
    | OperationFailed
    | LengthUnderflow // a length subtraction below zero, where the source would panic

  type Output = Result<seq<byte>, EncodingError>

  /** The mask generator: a seed and a length to that many bytes, or a refusal. */
  type Mgf = (seq<byte>, nat) -> Option<seq<byte>>

  ghost predicate IsMgf(mgf: Mgf) {
    forall seed: seq<byte>, n: nat :: mgf(seed, n).Some? ==> |mgf(seed, n).value| == n
  }

  lemma MgfLength(mgf: Mgf, seed: seq<byte>, n: nat)
    requires IsMgf(mgf) && mgf(seed, n).Some?
    ensures |mgf(seed, n).value| == n
  {
  }

  method XorInPlace(a: array<byte>, mask: seq<byte>)
    requires a.Length == |mask|
    modifies a
    ensures a[..] == XorSeq(old(a[..]), mask)
  {
    ghost var was := a[..];
    for i := 0 to a.Length
      invariant forall k :: 0 <= k < i ==> a[k] == Xor(was[k], mask[k])
      invariant forall k :: i <= k < a.Length ==> a[k] == was[k]
    {
      a[i] := Xor(a[i], mask[i]);
    }
    assert a[..] == XorSeq(was, mask);
  }

  method CopyToArray(s: seq<byte>) returns (a: array<byte>)
    ensures fresh(a) && a[..] == s
  {
    a := new byte[|s|](i requires 0 <= i < |s| => s[i]);
  }
}
