/** PKCS #7 padding and its removal. */
module Pkcs7 {
  import opened Arithmetic
  import opened Bytes

  datatype PaddingError = InvalidBlockLength | InputTooLong | InvalidPadding

  type Output = Result<seq<byte>, PaddingError>

  function Repeated(b: byte, n: nat): (s: seq<byte>)
    ensures |s| == n
  {
    seq(n, _ => b)
  }

  function Apply(input: seq<byte>, blockLength: nat): (r: Output) {
    if !(1 <= blockLength <= 255) then Err(InvalidBlockLength)
    else
      var padding := blockLength - |input| % blockLength;
      Ok(input + Repeated(padding, padding))
  }

  /** padded is input followed by k bytes of value k, for some k the block length allows. */
  predicate IsPadded(padded: seq<byte>, input: seq<byte>, blockLength: nat) {
    |input| < |padded| && |padded| - |input| <= blockLength <= 255 &&
    padded == input + Repeated(|padded| - |input|, |padded| - |input|)
  }

  /** Removal scans the whole last block without early exit. */
  method Remove(plaintext: seq<byte>, blockLength: nat) returns (r: Output)
    ensures !(1 <= blockLength <= 255) || |plaintext| < blockLength <==> r == Err(InvalidBlockLength)
    ensures forall x :: r == Ok(x) <==>
              1 <= blockLength && blockLength <= |plaintext| && IsPadded(plaintext, x, blockLength)
    ensures r.Ok? || r.error != InputTooLong
  {
    if !(1 <= blockLength <= 255) || |plaintext| < blockLength {
      return Err(InvalidBlockLength);
    }
    var n := |plaintext|;
    var padding := plaintext[n - 1];
    var invalid := padding == 0 || padding > blockLength;
    for index := 0 to blockLength
      invariant invalid <==>
                padding == 0 || padding > blockLength ||
                exists i :: n - index <= i < n && n - padding <= i && plaintext[i] != padding
    {
      invalid := invalid || (index < padding && plaintext[n - 1 - index] != padding);
    }
    if invalid {
      forall x ensures !IsPadded(plaintext, x, blockLength) {
        if IsPadded(plaintext, x, blockLength) {
          PaddedEnd(plaintext, x, blockLength);
        }
      }
      return Err(InvalidPadding);
    }
    var kept := plaintext[..n - padding];
    assert plaintext == kept + Repeated(padding, padding);
    forall x | IsPadded(plaintext, x, blockLength) ensures x == kept {
      PaddedEnd(plaintext, x, blockLength);
    }
    return Ok(kept);
  }

  lemma PaddedEnd(padded: seq<byte>, x: seq<byte>, blockLength: nat)
    requires IsPadded(padded, x, blockLength)
    ensures var n := |padded|;
            n > 0 && padded[n - 1] == n - |x| && x == padded[..|x|] &&
            forall i :: |x| <= i < n ==> padded[i] == padded[n - 1]
  {
    var k := |padded| - |x|;
    assert padded[|padded| - 1] == Repeated(k, k)[k - 1];
    forall i | |x| <= i < |padded| ensures padded[i] == k {
      assert padded[i] == Repeated(k, k)[i - |x|];
    }
  }

  /** Padding is the padded form of whole-block length. */
  lemma ApplyIffPadded(x: seq<byte>, y: seq<byte>, blockLength: nat)
    requires 1 <= blockLength <= 255
    ensures Apply(x, blockLength) == Ok(y) <==> IsPadded(y, x, blockLength) && |y| % blockLength == 0
  {
    var q, r := |x| / blockLength, |x| % blockLength;
    if Apply(x, blockLength) == Ok(y) {
      assert |y| == blockLength * (q + 1) by {
        assert blockLength * (q + 1) == blockLength * q + blockLength;
      }
      MultipleHasNoRemainder(blockLength, q + 1);
    }
    if IsPadded(y, x, blockLength) && |y| % blockLength == 0 {
      var k := |y| - |x|;
      var m := |y| / blockLength;
      assert |x| == blockLength * (m - 1) + (blockLength - k) by {
        assert blockLength * m == blockLength * (m - 1) + blockLength;
      }
      if k < blockLength {
        RemainderUnique(|x|, blockLength, m - 1, blockLength - k);
      } else {
        RemainderUnique(|x|, blockLength, m - 1, 0);
      }
    }
  }

  /** Removal also accepts lengths that are not whole blocks, which padding never produces: three
      bytes ending in 1 with block length 2. */
  lemma AcceptedOutsideImage()
    ensures IsPadded([7, 7, 1], [7, 7], 2) && Apply([7, 7], 2) != Ok([7, 7, 1])
  {
    assert [7, 7, 1] == [7, 7] + Repeated(1, 1);
    ApplyIffPadded([7, 7], [7, 7, 1], 2);
  }

  /** Padding refuses exactly the block lengths that do not fit a nonzero byte. */
  lemma ApplyRefuses(x: seq<byte>, blockLength: nat)
    ensures Apply(x, blockLength).Err? <==> blockLength == 0 || blockLength > 255
    ensures Apply(x, blockLength).Err? ==> Apply(x, blockLength).error == InvalidBlockLength
  {
  }
}
