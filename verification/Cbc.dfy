/** Cipher block chaining over a caller-supplied block transformation. */
module Cbc {
  import opened Arithmetic
  import opened Bytes

  datatype ModeError<+E> =
    | InvalidBlockSize
    | InvalidIvLength
    | InvalidDataLength
    | InvalidCounterBits
    | InputTooLong
    | InvalidBlockOutput
    | BlockOperation(error: E)

  /** The callback transforms whole blocks; the flag says whether it encrypts. */
  type Transform<!E> = (seq<byte>, bool) -> Result<seq<byte>, E>

  type Output<!E> = Result<seq<byte>, ModeError<E>>

  predicate Whole(bs: nat, s: seq<byte>)
    requires bs > 0
  {
    |s| % bs == 0
  }

  lemma WholeTail(bs: nat, s: seq<byte>)
    requires bs > 0 && Whole(bs, s) && s != []
    ensures |s| >= bs && Whole(bs, s[bs..])
  {
    if |s| < bs {
      RemainderUnique(|s|, bs, 0, |s|);
    }
    var k := |s| / bs;
    assert |s| - bs == bs * (k - 1) by {
      assert bs * k == bs * (k - 1) + bs;
    }
    RemainderUnique(|s| - bs, bs, k - 1, 0);
  }

  function Prepend<E>(prefix: seq<byte>, r: Output<E>): Output<E> {
    match r
    case Ok(v) => Ok(prefix + v)
    case Err(e) => Err(e)
  }

  lemma PrependTwice<E>(p: seq<byte>, q: seq<byte>, r: Output<E>)
    ensures Prepend(p, Prepend(q, r)) == Prepend(p + q, r)
  {
    if r.Ok? {
      assert p + (q + r.value) == (p + q) + r.value;
    }
  }

  /** Each ciphertext block is the transformed exclusive or of its plaintext block and the ciphertext
      block before it. */
  function Encrypted<E>(bs: nat, transform: Transform<E>, previous: seq<byte>, input: seq<byte>): (r: Output<E>)
    requires bs > 0 && |previous| == bs && Whole(bs, input)
    decreases |input|
  {
    if input == [] then Ok([])
    else
      WholeTail(bs, input);
      match transform(XorSeq(input[..bs], previous), true)
      case Err(e) => Err(BlockOperation(e))
      case Ok(v) => if |v| != bs then Err(InvalidBlockOutput) else Prepend(v, Encrypted(bs, transform, v, input[bs..]))
  }

  /** The transformed blocks, each masked with the ciphertext block before it. */
  function Unchained(bs: nat, previous: seq<byte>, input: seq<byte>, transformed: seq<byte>): (r: seq<byte>)
    requires bs > 0 && |previous| == bs && Whole(bs, input) && |transformed| == |input|
    decreases |input|
  {
    if input == [] then []
    else
      WholeTail(bs, input);
      XorSeq(transformed[..bs], previous) + Unchained(bs, input[..bs], input[bs..], transformed[bs..])
  }

  function Decrypted<E>(bs: nat, transform: Transform<E>, iv: seq<byte>, input: seq<byte>): (r: Output<E>)
    requires bs > 0 && |iv| == bs && Whole(bs, input)
  {
    match transform(input, false)
    case Err(e) => Err(BlockOperation(e))
    case Ok(v) => if |v| != |input| then Err(InvalidBlockOutput) else Ok(Unchained(bs, iv, input, v))
  }

  function Chained<E>(bs: nat, iv: seq<byte>, input: seq<byte>, encrypting: bool,
                      transform: Transform<E>): (r: Output<E>) {
    if bs == 0 then Err(InvalidBlockSize)
    else if |iv| != bs then Err(InvalidIvLength)
    else if !Whole(bs, input) then Err(InvalidDataLength)
    else if encrypting then Encrypted(bs, transform, iv, input) else Decrypted(bs, transform, iv, input)
  }

  method CbcWith<E>(bs: nat, iv: seq<byte>, input: seq<byte>, encrypting: bool, transform: Transform<E>)
    returns (r: Output<E>)
    ensures r == Chained(bs, iv, input, encrypting, transform)
    ensures bs == 0 ==> r == Err(InvalidBlockSize)
    ensures bs > 0 && |iv| != bs ==> r == Err(InvalidIvLength)
    ensures bs > 0 && |iv| == bs && |input| % bs != 0 ==> r == Err(InvalidDataLength)
  {
    if bs == 0 {
      return Err(InvalidBlockSize);
    }
    if |iv| != bs {
      return Err(InvalidIvLength);
    }
    if |input| % bs != 0 {
      return Err(InvalidDataLength);
    }
    if encrypting {
      r := EncryptLoop(bs, iv, input, transform);
    } else {
      r := DecryptLoop(bs, iv, input, transform);
    }
  }

  method EncryptLoop<E>(bs: nat, iv: seq<byte>, input: seq<byte>, transform: Transform<E>) returns (r: Output<E>)
    requires bs > 0 && |iv| == bs && Whole(bs, input)
    ensures r == Encrypted(bs, transform, iv, input)
  {
    hide Whole, XorSeq;
    var previous, output, rest := iv, [], input;
    PrependNothing(Encrypted(bs, transform, iv, input));
    while rest != []
      invariant |previous| == bs && Whole(bs, rest)
      invariant Prepend(output, Encrypted(bs, transform, previous, rest)) == Encrypted(bs, transform, iv, input)
      decreases |rest|
    {
      WholeTail(bs, rest);
      var result := transform(XorSeq(rest[..bs], previous), true);
      if result.Err? {
        return Err(BlockOperation(result.error));
      }
      var encrypted := result.value;
      if |encrypted| != bs {
        return Err(InvalidBlockOutput);
      }
      PrependTwice(output, encrypted, Encrypted(bs, transform, encrypted, rest[bs..]));
      previous, output, rest := encrypted, output + encrypted, rest[bs..];
    }
    assert output + [] == output;
    return Ok(output);
  }

  lemma PrependNothing<E>(r: Output<E>)
    ensures Prepend([], r) == r
  {
    if r.Ok? {
      assert [] + r.value == r.value;
    }
  }

  method DecryptLoop<E>(bs: nat, iv: seq<byte>, input: seq<byte>, transform: Transform<E>) returns (r: Output<E>)
    requires bs > 0 && |iv| == bs && Whole(bs, input)
    ensures r == Decrypted(bs, transform, iv, input)
  {
    hide Whole, XorSeq;
    var result := transform(input, false);
    if result.Err? {
      return Err(BlockOperation(result.error));
    }
    var transformed := result.value;
    if |transformed| != |input| {
      return Err(InvalidBlockOutput);
    }
    var previous, output, rest, decrypted := iv, [], input, transformed;
    while rest != []
      invariant |previous| == bs && Whole(bs, rest) && |decrypted| == |rest|
      invariant output + Unchained(bs, previous, rest, decrypted) == Unchained(bs, iv, input, transformed)
      decreases |rest|
    {
      WholeTail(bs, rest);
      output := output + XorSeq(decrypted[..bs], previous);
      previous, rest, decrypted := rest[..bs], rest[bs..], decrypted[bs..];
    }
    assert output + [] == output;
    return Ok(output);
  }

  // ---------- Round trips ----------

  /** Blocks are permuted one by one, and decryption of several blocks is blockwise. */
  ghost predicate IsBlockwise<E(!new)>(bs: nat, transform: Transform<E>)
    requires bs > 0
  {
    && (forall b: seq<byte> :: |b| == bs ==>
          transform(b, true).Ok? && |transform(b, true).value| == bs &&
          transform(transform(b, true).value, false) == Ok(b))
    && (forall b: seq<byte> :: |b| == bs ==>
          transform(b, false).Ok? && |transform(b, false).value| == bs &&
          transform(transform(b, false).value, true) == Ok(b))
    && transform([], false) == Ok([])
    && (forall b: seq<byte>, s: seq<byte> ::
          |b| == bs && Whole(bs, s) && transform(b, false).Ok? && transform(s, false).Ok? ==>
          transform(b + s, false) == Ok(transform(b, false).value + transform(s, false).value))
  }

  lemma BlockThenRest<E(!new)>(bs: nat, transform: Transform<E>, b: seq<byte>, s: seq<byte>)
    requires bs > 0 && IsBlockwise(bs, transform) && |b| == bs && Whole(bs, s) && transform(s, false).Ok?
    ensures transform(b + s, false) == Ok(transform(b, false).value + transform(s, false).value)
  {
  }

  lemma NothingDecrypts<E(!new)>(bs: nat, transform: Transform<E>)
    requires bs > 0 && IsBlockwise(bs, transform)
    ensures transform([], false) == Ok([])
  {
  }

  lemma {:induction false} DecryptionSucceeds<E(!new)>(bs: nat, transform: Transform<E>, input: seq<byte>)
    requires bs > 0 && IsBlockwise(bs, transform) && Whole(bs, input)
    ensures transform(input, false).Ok? && |transform(input, false).value| == |input|
    decreases |input|
  {
    hide Whole, IsBlockwise;
    if input == [] {
      NothingDecrypts(bs, transform);
    } else {
      WholeTail(bs, input);
      var b, s := input[..bs], input[bs..];
      DecryptionSucceeds(bs, transform, s);
      BlockThenRest(bs, transform, b, s);
      Permutes(bs, transform, b);
      assert b + s == input;
    }
  }

  lemma XorBlock(x: seq<byte>, mask: seq<byte>)
    requires |x| == |mask|
    ensures XorSeq(XorSeq(x, mask), mask) == x
  {
    XorSeqCancels(x, mask);
  }

  /** Encryption succeeds and decryption undoes it. */
  lemma {:induction false} EncryptThenDecrypt<E(!new)>(bs: nat, transform: Transform<E>, iv: seq<byte>, x: seq<byte>)
    requires bs > 0 && IsBlockwise(bs, transform) && |iv| == bs && Whole(bs, x)
    ensures var e := Encrypted(bs, transform, iv, x);
            e.Ok? && |e.value| == |x| && Decrypted(bs, transform, iv, e.value) == Ok(x)
    decreases |x|
  {
    hide XorSeq, Whole, IsBlockwise, Encrypted, Decrypted;
    if x == [] {
      NoBlocks(bs, transform, iv);
    } else {
      WholeTail(bs, x);
      var b, s := x[..bs], x[bs..];
      assert b + s == x;
      var m := XorSeq(b, iv);
      Permutes(bs, transform, m);
      var v := transform(m, true).value;
      EncryptThenDecrypt(bs, transform, v, s);
      EncryptedStep(bs, transform, iv, b, s, v);
      var rest := Encrypted(bs, transform, v, s).value;
      SameLength(bs, s, rest);
      FirstBlock(bs, transform, iv, v, rest);
      XorBlock(b, iv);
    }
  }

  lemma NoBlocks<E(!new)>(bs: nat, transform: Transform<E>, iv: seq<byte>)
    requires bs > 0 && IsBlockwise(bs, transform) && |iv| == bs
    ensures Whole(bs, []) && Encrypted(bs, transform, iv, []) == Ok([]) && Decrypted(bs, transform, iv, []) == Ok([])
  {
  }

  lemma Permutes<E(!new)>(bs: nat, transform: Transform<E>, b: seq<byte>)
    requires bs > 0 && IsBlockwise(bs, transform) && |b| == bs
    ensures transform(b, true).Ok? && |transform(b, true).value| == bs &&
            transform(transform(b, true).value, false) == Ok(b)
    ensures transform(b, false).Ok? && |transform(b, false).value| == bs &&
            transform(transform(b, false).value, true) == Ok(b)
  {
  }

  lemma EncryptedStep<E>(bs: nat, transform: Transform<E>, iv: seq<byte>, b: seq<byte>, s: seq<byte>, v: seq<byte>)
    requires bs > 0 && |iv| == bs && |b| == bs && Whole(bs, s) && |v| == bs && transform(XorSeq(b, iv), true) == Ok(v)
    ensures Whole(bs, b + s) && Encrypted(bs, transform, iv, b + s) == Prepend(v, Encrypted(bs, transform, v, s))
  {
    hide XorSeq, Whole;
    WholeSum(bs, b, s);
    assert (b + s)[..bs] == b && (b + s)[bs..] == s;
  }

  lemma SameLength(bs: nat, s: seq<byte>, t: seq<byte>)
    requires bs > 0 && Whole(bs, s) && |s| == |t|
    ensures Whole(bs, t)
  {
  }

  lemma WholeSum(bs: nat, b: seq<byte>, s: seq<byte>)
    requires bs > 0 && |b| == bs && Whole(bs, s)
    ensures Whole(bs, b + s)
  {
    assert |b + s| == bs * (|s| / bs + 1) + 0;
    RemainderUnique(|b + s|, bs, |s| / bs + 1, 0);
  }

  /** Decryption of b + s peels off the first block. */
  lemma FirstBlock<E(!new)>(bs: nat, transform: Transform<E>, iv: seq<byte>, b: seq<byte>, s: seq<byte>)
    requires bs > 0 && IsBlockwise(bs, transform) && |iv| == bs && |b| == bs && Whole(bs, s)
    ensures Whole(bs, b + s) && transform(b, false).Ok? && |transform(b, false).value| == bs
    ensures Decrypted(bs, transform, iv, b + s) ==
            Prepend(XorSeq(transform(b, false).value, iv), Decrypted(bs, transform, b, s))
  {
    hide XorSeq, Whole;
    WholeSum(bs, b, s);
    DecryptionSucceeds(bs, transform, s);
    BlockThenRest(bs, transform, b, s);
    var d, t := transform(b, false).value, transform(s, false).value;
    assert (b + s)[..bs] == b && (b + s)[bs..] == s;
    assert (d + t)[..bs] == d && (d + t)[bs..] == t;
  }

  /** Decryption succeeds and encryption undoes it. */
  lemma {:induction false} DecryptThenEncrypt<E(!new)>(bs: nat, transform: Transform<E>, iv: seq<byte>, y: seq<byte>)
    requires bs > 0 && IsBlockwise(bs, transform) && |iv| == bs && Whole(bs, y)
    ensures var d := Decrypted(bs, transform, iv, y);
            d.Ok? && |d.value| == |y| && Whole(bs, d.value) && Encrypted(bs, transform, iv, d.value) == Ok(y)
    decreases |y|
  {
    hide XorSeq, Whole, IsBlockwise, Encrypted, Decrypted;
    if y == [] {
      NoBlocks(bs, transform, iv);
    } else {
      WholeTail(bs, y);
      var b, s := y[..bs], y[bs..];
      assert b + s == y;
      DecryptThenEncrypt(bs, transform, b, s);
      FirstBlock(bs, transform, iv, b, s);
      Permutes(bs, transform, b);
      var t, rest := transform(b, false).value, Decrypted(bs, transform, b, s).value;
      var d := XorSeq(t, iv);
      XorBlock(t, iv);
      EncryptedStep(bs, transform, iv, d, rest, b);
    }
  }

  /** CBC decryption of c gives p exactly when encryption of p gives c, errors included. */
  lemma DecryptIffEncrypt<E(!new)>(bs: nat, iv: seq<byte>, transform: Transform<E>, p: seq<byte>, c: seq<byte>)
    requires bs > 0 ==> IsBlockwise(bs, transform)
    ensures Chained(bs, iv, c, false, transform) == Ok(p) <==> Chained(bs, iv, p, true, transform) == Ok(c)
  {
    hide Encrypted, Decrypted, IsBlockwise;
    if bs > 0 && |iv| == bs {
      if Whole(bs, c) {
        DecryptThenEncrypt(bs, transform, iv, c);
      }
      if Whole(bs, p) {
        EncryptThenDecrypt(bs, transform, iv, p);
      }
    }
  }

  // ---------- Block by block ----------

  /** Output block k is the transformed exclusive or of input block k and the output block before it, or
      the initialisation vector for the first. */
  lemma {:induction false} EncryptedBlock<E>(bs: nat, transform: Transform<E>, iv: seq<byte>, input: seq<byte>,
                                             out: seq<byte>, k: nat)
    requires bs > 0 && |iv| == bs && Whole(bs, input) && Encrypted(bs, transform, iv, input) == Ok(out)
    requires bs * k + bs <= |input|
    ensures |out| == |input| && bs * k >= 0 && (k > 0 ==> bs * (k - 1) + bs == bs * k)
    ensures var previous := if k == 0 then iv else out[bs * (k - 1)..bs * k];
            transform(XorSeq(input[bs * k..bs * k + bs], previous), true) == Ok(out[bs * k..bs * k + bs])
    decreases |input|
  {
    hide XorSeq, Whole;
    WholeTail(bs, input);
    EncryptedLength(bs, transform, iv, input, out);
    var v := transform(XorSeq(input[..bs], iv), true).value;
    var s := input[bs..];
    var rest := Encrypted(bs, transform, v, s).value;
    assert out == v + rest;
    if k == 0 {
      assert bs * k == 0;
      assert out[0..bs] == v && input[0..bs] == input[..bs];
    } else {
      assert bs * k == bs * (k - 1) + bs;
      EncryptedBlock(bs, transform, v, s, rest, k - 1);
      Shifted(input, bs, k);
      Shifted(out, bs, k);
      if k == 1 {
        assert bs * (k - 1) == 0;
        assert out[0..bs] == v;
      } else {
        assert bs * (k - 1) == bs * (k - 2) + bs;
        Shifted(out, bs, k - 1);
      }
    }
  }

  lemma Shifted(s: seq<byte>, bs: nat, k: nat)
    requires k > 0 && bs * (k - 1) >= 0 && bs * k == bs * (k - 1) + bs && bs * k + bs <= |s|
    ensures s[bs..][bs * (k - 1)..bs * (k - 1) + bs] == s[bs * k..bs * k + bs]
  {
  }

  lemma {:induction false} EncryptedLength<E>(bs: nat, transform: Transform<E>, iv: seq<byte>, input: seq<byte>,
                                              out: seq<byte>)
    requires bs > 0 && |iv| == bs && Whole(bs, input) && Encrypted(bs, transform, iv, input) == Ok(out)
    ensures |out| == |input|
    decreases |input|
  {
    hide XorSeq, Whole;
    if input != [] {
      WholeTail(bs, input);
      var v := transform(XorSeq(input[..bs], iv), true).value;
      EncryptedLength(bs, transform, v, input[bs..], Encrypted(bs, transform, v, input[bs..]).value);
    }
  }
}
