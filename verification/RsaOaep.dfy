/** OAEP padding and its removal (sections 7.1 and 7.2 of RFC 8017), with the seed an argument. */
module RsaOaep {
  import opened Bytes
  import opened RsaEncoding

  // ---------- The data block ----------

  /** rest is zeros, a one, and the message. */
  ghost predicate Separates(rest: seq<byte>, message: seq<byte>) {
    |message| < |rest| && rest == Zeros(|rest| - |message| - 1) + [1] + message
  }

  lemma SeparatesAt(rest: seq<byte>, message: seq<byte>)
    requires Separates(rest, message)
    ensures var i := |rest| - |message| - 1;
            rest[i] == 1 && (forall j :: 0 <= j < i ==> rest[j] == 0) && message == rest[i + 1..]
  {
    var i := |rest| - |message| - 1;
    forall j | 0 <= j < i ensures rest[j] == 0 {
      assert rest[j] == Zeros(i)[j];
    }
  }

  lemma SeparatedAt(rest: seq<byte>, i: nat)
    requires i < |rest| && rest[i] == 1 && forall j :: 0 <= j < i ==> rest[j] == 0
    ensures Separates(rest, rest[i + 1..])
  {
    assert rest == Zeros(i) + [1] + rest[i + 1..];
  }

  /** The first byte that is not zero determines the message. */
  lemma SeparatesOnce(rest: seq<byte>, m: seq<byte>, i: nat)
    requires Separates(rest, m) && i < |rest| && rest[i] != 0 && forall j :: 0 <= j < i ==> rest[j] == 0
    ensures rest[i] == 1 && m == rest[i + 1..]
  {
    SeparatesAt(rest, m);
    var k := |rest| - |m| - 1;
    assert rest[k] == 1;
  }

  /** The branch-free scan finds the separator exactly when the first byte that is not zero is one. */
  method Scan(rest: seq<byte>) returns (ok: bool, separator: nat)
    ensures ok ==> separator < |rest| && Separates(rest, rest[separator + 1..])
    ensures forall m :: Separates(rest, m) ==> ok && m == rest[separator + 1..]
  {
    var valid, looking := true, true;
    separator := 0;
    for index := 0 to |rest|
      invariant looking ==> forall j :: 0 <= j < index ==> rest[j] != 1
      invariant looking && valid ==> forall j :: 0 <= j < index ==> rest[j] == 0
      invariant !looking ==> separator < index && rest[separator] == 1
      invariant !looking ==> forall j :: 0 <= j < separator ==> rest[j] != 1
      invariant !looking && valid ==> forall j :: 0 <= j < separator ==> rest[j] == 0
      invariant !valid ==>
                exists j :: 0 <= j < index && rest[j] != 0 && rest[j] != 1 && forall k :: 0 <= k < j ==> rest[k] != 1
    {
      var isZero, isOne := rest[index] == 0, rest[index] == 1;
      if looking && isOne {
        separator := index;
      }
      valid := valid && !(looking && !isZero && !isOne);
      looking := looking && !isOne;
    }
    ok := valid && !looking;
    if ok {
      SeparatedAt(rest, separator);
    }
    forall m | Separates(rest, m) ensures ok && m == rest[separator + 1..] {
      SeparatesAt(rest, m);
      var i := |rest| - |m| - 1;
      assert rest[i] == 1;
      assert valid;
      assert !looking;
      SeparatesOnce(rest, m, separator);
    }
  }

  // ---------- Padding ----------

  /** The data block before masking: the label digest resized with zeros or cut, a one, the message. */
  function DataBlock(lHash: seq<byte>, n: nat, input: seq<byte>): (db: seq<byte>)
    ensures |db| == n + 1 + |input|
  {
    (if n <= |lHash| then lHash[..n] else lHash + Zeros(n - |lHash|)) + [1] + input
  }

  /** The encoding of a message with an explicit seed. */
  function Pad(input: seq<byte>, modulusSize: nat, lHash: seq<byte>, mgf: Mgf, seed: seq<byte>): (r: Output)
    requires IsMgf(mgf) && |seed| == |lHash|
    ensures r.Ok? ==> |r.value| == modulusSize
  {
    var h := |lHash|;
    var room := if modulusSize >= 2 * h + 2 then modulusSize - (2 * h + 2) else 0;
    if h == 0 || |input| > room then Err(InputTooLong)
    else if modulusSize < h + |input| + 2 then Err(LengthUnderflow)
    else
      var db := DataBlock(lHash, modulusSize - h - |input| - 2, input);
      match mgf(seed, |db|)
      case None => Err(InputTooLong)
      case Some(dbMask) =>
        var maskedDb := XorSeq(db, dbMask);
        match mgf(maskedDb, h)
        case None => Err(InputTooLong)
        case Some(seedMask) => Ok([0] + XorSeq(seed, seedMask) + maskedDb)
  }

  /** The subtraction in the padder goes below zero, where the source panics, exactly for an empty
      message and fewer than hLen + 2 bytes. */
  lemma PadUnderflows(input: seq<byte>, modulusSize: nat, lHash: seq<byte>, mgf: Mgf, seed: seq<byte>)
    requires IsMgf(mgf) && |seed| == |lHash|
    ensures Pad(input, modulusSize, lHash, mgf, seed) == Err(LengthUnderflow) <==>
            lHash != [] && input == [] && modulusSize < |lHash| + 2
  {
    hide XorSeq, DataBlock;
  }

  method PadDigest(input: seq<byte>, modulusSize: nat, lHash: seq<byte>, mgf: Mgf, seed: seq<byte>) returns (r: Output)
    requires IsMgf(mgf) && |seed| == |lHash|
    ensures r == Pad(input, modulusSize, lHash, mgf, seed)
  {
    hide XorSeq;
    var h := |lHash|;
    var room := if modulusSize >= 2 * h + 2 then modulusSize - (2 * h + 2) else 0;
    if h == 0 || |input| > room {
      return Err(InputTooLong);
    }
    if modulusSize < h + |input| + 2 {
      return Err(LengthUnderflow);
    }
    var db := CopyToArray(DataBlock(lHash, modulusSize - h - |input| - 2, input));
    var seedBuffer := CopyToArray(seed);
    var dbMask := mgf(seed, db.Length);
    if dbMask.None? {
      return Err(InputTooLong);
    }
    XorInPlace(db, dbMask.value);
    var seedMask := mgf(db[..], |seed|);
    if seedMask.None? {
      return Err(InputTooLong);
    }
    XorInPlace(seedBuffer, seedMask.value);
    return Ok([0] + seedBuffer[..] + db[..]);
  }

  // ---------- Removal ----------

  /** The unmasked seed and data block of an encoding. */
  function Unmask(em: seq<byte>, h: nat, mgf: Mgf): (r: Option<(seq<byte>, seq<byte>)>)
    requires IsMgf(mgf) && |em| >= 2 * h + 2
    ensures r.Some? ==> |r.value.0| == h && |r.value.1| == |em| - h - 1
  {
    var maskedSeed, maskedDb := em[1..h + 1], em[h + 1..];
    match mgf(maskedDb, h)
    case None => None
    case Some(seedMask) =>
      var seed := XorSeq(maskedSeed, seedMask);
      match mgf(seed, |maskedDb|)
      case None => None
      case Some(dbMask) => Some((seed, XorSeq(maskedDb, dbMask)))
  }

  /** The encoding unmasks to the label digest and a separated message. */
  ghost predicate Unpads(em: seq<byte>, lHash: seq<byte>, mgf: Mgf, message: seq<byte>)
    requires IsMgf(mgf)
  {
    lHash != [] && |em| >= 2 * |lHash| + 2 && em[0] == 0 && Unmask(em, |lHash|, mgf).Some? &&
    var db := Unmask(em, |lHash|, mgf).value.1;
    db[..|lHash|] == lHash && Separates(db[|lHash|..], message)
  }

  method UnpadDigest(encoded: seq<byte>, lHash: seq<byte>, mgf: Mgf) returns (r: Output)
    requires IsMgf(mgf)
    ensures forall m :: r == Ok(m) <==> Unpads(encoded, lHash, mgf, m)
    ensures r.Err? ==> r.error in [OperationFailed, InputTooLong]
  {
    hide XorSeq, Separates, IsMgf;
    var h := |lHash|;
    if |encoded| < 2 * h + 2 || h == 0 {
      return Err(OperationFailed);
    }
    var unmasked := Unmask(encoded, h, mgf);
    if unmasked.None? {
      return Err(InputTooLong);
    }
    var db := unmasked.value.1;
    var rest := db[h..];
    var found, separator := Scan(rest);
    if !(encoded[0] == 0 && db[..h] == lHash && found) {
      return Err(OperationFailed);
    }
    return Ok(rest[separator + 1..]);
  }

  lemma FullBlock(lHash: seq<byte>, n: nat, input: seq<byte>)
    requires |lHash| <= n
    ensures var db := DataBlock(lHash, n, input); db[..|lHash|] == lHash && Separates(db[|lHash|..], input)
  {
    var db, h := DataBlock(lHash, n, input), |lHash|;
    assert db[h..] == Zeros(n - h) + [1] + input;
  }

  lemma BlockFromParts(db: seq<byte>, lHash: seq<byte>, input: seq<byte>)
    requires |lHash| <= |db| && db[..|lHash|] == lHash && Separates(db[|lHash|..], input)
    ensures |db| - |input| - 1 >= |lHash| && db == DataBlock(lHash, |db| - |input| - 1, input)
  {
    assert db == lHash + db[|lHash|..];
  }

  /** Unmasking undoes the masking of a seed and a data block. */
  lemma UnmaskPadded(h: nat, mgf: Mgf, seed: seq<byte>, db: seq<byte>)
    requires IsMgf(mgf) && |seed| == h && |db| >= h + 1
    requires mgf(seed, |db|).Some?
    requires mgf(XorSeq(db, mgf(seed, |db|).value), h).Some?
    ensures var maskedDb := XorSeq(db, mgf(seed, |db|).value);
            Unmask([0] + XorSeq(seed, mgf(maskedDb, h).value) + maskedDb, h, mgf) == Some((seed, db))
  {
    MgfLength(mgf, seed, |db|);
    var dbMask := mgf(seed, |db|).value;
    var maskedDb := XorSeq(db, dbMask);
    MgfLength(mgf, maskedDb, h);
    var seedMask := mgf(maskedDb, h).value;
    XorSeqCancels(db, dbMask);
    XorSeqCancels(seed, seedMask);
    hide XorSeq, IsMgf;
    var em := [0] + XorSeq(seed, seedMask) + maskedDb;
    assert em[1..h + 1] == XorSeq(seed, seedMask) && em[h + 1..] == maskedDb;
  }

  /** Masking the unmasked parts gives the encoding back. */
  lemma PadUnmasked(em: seq<byte>, h: nat, mgf: Mgf)
    requires IsMgf(mgf) && |em| >= 2 * h + 2 && em[0] == 0 && Unmask(em, h, mgf).Some?
    ensures var (seed, db) := Unmask(em, h, mgf).value;
            mgf(seed, |db|).Some? && |mgf(seed, |db|).value| == |db| &&
            var maskedDb := XorSeq(db, mgf(seed, |db|).value);
            mgf(maskedDb, h).Some? && |mgf(maskedDb, h).value| == h &&
            [0] + XorSeq(seed, mgf(maskedDb, h).value) + maskedDb == em
  {
    var maskedSeed, maskedDb := em[1..h + 1], em[h + 1..];
    MgfLength(mgf, maskedDb, h);
    var seedMask := mgf(maskedDb, h).value;
    var seed := XorSeq(maskedSeed, seedMask);
    MgfLength(mgf, seed, |maskedDb|);
    XorSeqCancels(maskedSeed, seedMask);
    XorSeqCancels(maskedDb, mgf(seed, |maskedDb|).value);
    hide XorSeq, IsMgf;
    assert [0] + maskedSeed + maskedDb == em;
  }

  /** Removal returns m exactly on the encodings of m under some seed, given room for two digests and
      two bytes; below that size removal accepts nothing. */
  lemma UnpadIffPad(em: seq<byte>, lHash: seq<byte>, mgf: Mgf, m: seq<byte>)
    requires IsMgf(mgf)
    ensures Unpads(em, lHash, mgf, m) <==>
            |em| >= 2 * |lHash| + 2 &&
            exists seed: seq<byte> :: |seed| == |lHash| && Pad(m, |em|, lHash, mgf, seed) == Ok(em)
  {
    hide Pad, Unpads;
    if Unpads(em, lHash, mgf, m) {
      UnpaddedIsPad(em, lHash, mgf, m);
    }
    if |em| >= 2 * |lHash| + 2 {
      forall seed: seq<byte> | |seed| == |lHash| && Pad(m, |em|, lHash, mgf, seed) == Ok(em)
        ensures Unpads(em, lHash, mgf, m)
      {
        PaddedUnpads(em, lHash, mgf, m, seed);
      }
    }
  }

  lemma UnpaddedIsPad(em: seq<byte>, lHash: seq<byte>, mgf: Mgf, m: seq<byte>)
    requires IsMgf(mgf) && Unpads(em, lHash, mgf, m)
    ensures |em| >= 2 * |lHash| + 2
    ensures exists seed: seq<byte> :: |seed| == |lHash| && Pad(m, |em|, lHash, mgf, seed) == Ok(em)
  {
    hide XorSeq, DataBlock, IsMgf;
    var h := |lHash|;
    var (seed, db) := Unmask(em, h, mgf).value;
    BlockFromParts(db, lHash, m);
    PadUnmasked(em, h, mgf);
    hide Unmask, Separates;
    assert Pad(m, |em|, lHash, mgf, seed) == Ok(em);
  }

  lemma PaddedUnpads(em: seq<byte>, lHash: seq<byte>, mgf: Mgf, m: seq<byte>, seed: seq<byte>)
    requires IsMgf(mgf) && |em| >= 2 * |lHash| + 2 && |seed| == |lHash| && Pad(m, |em|, lHash, mgf, seed) == Ok(em)
    ensures Unpads(em, lHash, mgf, m)
  {
    hide XorSeq, DataBlock, Unmask, Separates;
    var h := |lHash|;
    var n := |em| - h - |m| - 2;
    FullBlock(lHash, n, m);
    UnmaskPadded(h, mgf, seed, DataBlock(lHash, n, m));
  }

  /** Below that size the saturating guard still lets the empty message through: the encoding is
      produced with a truncated label digest, and removal rejects it. */
  lemma TooSmallModulus(modulusSize: nat, lHash: seq<byte>, mgf: Mgf, seed: seq<byte>)
    requires IsMgf(mgf) && |seed| == |lHash| > 0 && |lHash| + 2 <= modulusSize < 2 * |lHash| + 2
    requires forall s: seq<byte>, n: nat :: mgf(s, n).Some?
    ensures var r := Pad([], modulusSize, lHash, mgf, seed);
            r.Ok? && forall m :: !Unpads(r.value, lHash, mgf, m)
  {
    hide XorSeq, DataBlock;
  }

  /** The parts of an encoding of sufficient size: a zero byte, the seed masked from the masked block, and
      the block of label digest, zeros, a one and the message, masked from the seed. */
  lemma PadMeans(input: seq<byte>, lHash: seq<byte>, mgf: Mgf, seed: seq<byte>, em: seq<byte>)
    returns (seedMask: seq<byte>, dbMask: seq<byte>)
    requires IsMgf(mgf) && |seed| == |lHash| && |em| >= 2 * |lHash| + 2
    requires Pad(input, |em|, lHash, mgf, seed) == Ok(em)
    ensures var h := |lHash|;
            && h > 0 && |input| <= |em| - 2 * h - 2 && em[0] == 0
            && mgf(em[h + 1..], h) == Some(seedMask) && |seedMask| == h
            && mgf(seed, |em| - h - 1) == Some(dbMask) && |dbMask| == |em| - h - 1
            && (forall i :: 0 <= i < h ==> em[1 + i] == Xor(seed[i], seedMask[i]))
            && forall i :: 0 <= i < |dbMask| ==>
                 var one := |dbMask| - |input| - 1;
                 var plain: byte :=
                   if i < h then lHash[i] else if i < one then 0 else if i == one then 1 else input[i - one - 1];
                 em[h + 1 + i] == Xor(plain, dbMask[i])
  {
    hide Xor;
    var h := |lHash|;
    var n := |em| - h - |input| - 2;
    var db := DataBlock(lHash, n, input);
    dbMask := mgf(seed, |db|).value;
    MgfLength(mgf, seed, |db|);
    var maskedDb := XorSeq(db, dbMask);
    seedMask := mgf(maskedDb, h).value;
    MgfLength(mgf, maskedDb, h);
    hide IsMgf;
    var maskedSeed := XorSeq(seed, seedMask);
    assert em == [0] + maskedSeed + maskedDb;
    assert em[h + 1..] == maskedDb;
    forall i | 0 <= i < h ensures em[1 + i] == Xor(seed[i], seedMask[i]) {
      assert em[1 + i] == maskedSeed[i];
    }
    forall i | 0 <= i < |dbMask| ensures em[h + 1 + i] == Xor(db[i], dbMask[i]) {
      assert em[h + 1 + i] == maskedDb[i];
    }
  }
}
