/** RSAES-PKCS1-v1_5 type 2 padding and its removal, with the random padding an argument. */
module RsaPkcs1 {
  import opened Bytes
  import opened RsaEncoding

  predicate NonZero(s: seq<byte>) { forall i :: 0 <= i < |s| ==> s[i] != 0 }

  /** 0, 2, at least eight nonzero bytes, 0, and the message. */
  ghost predicate IsType2(em: seq<byte>, message: seq<byte>) {
    exists padding: seq<byte> :: |padding| >= 8 && NonZero(padding) && em == Assemble(padding, message)
  }

  function Assemble(padding: seq<byte>, message: seq<byte>): (em: seq<byte>)
    ensures |em| == |padding| + |message| + 3
  {
    [0, 2] + padding + [0] + message
  }

  /** The padder; padding is what the nonzero random draws produced. */
  function Pad(plaintext: seq<byte>, modulusSize: nat, padding: seq<byte>): (r: Output) {
    var room := if modulusSize >= 11 then modulusSize - 11 else 0;
    if |plaintext| > room then Err(InputTooLong)
    else if modulusSize < |plaintext| + 3 then Err(LengthUnderflow)
    else Ok(Assemble(padding, plaintext))
  }

  /** The subtraction in the padder goes below zero, where the source panics, exactly for an empty
      message and fewer than three bytes. */
  lemma PadUnderflows(plaintext: seq<byte>, modulusSize: nat, padding: seq<byte>)
    ensures Pad(plaintext, modulusSize, padding) == Err(LengthUnderflow) <==> plaintext == [] && modulusSize < 3
  {
  }

  lemma AssembledAt(padding: seq<byte>, message: seq<byte>)
    requires NonZero(padding)
    ensures var em, s := Assemble(padding, message), |padding| + 2;
            em[0] == 0 && em[1] == 2 && em[s] == 0 && (forall i :: 2 <= i < s ==> em[i] != 0) && em[s + 1..] == message
  {
    var em, s := Assemble(padding, message), |padding| + 2;
    forall i | 2 <= i < s ensures em[i] != 0 {
      assert em[i] == padding[i - 2];
    }
  }

  lemma AssembleFrom(em: seq<byte>, s: nat)
    requires 10 <= s < |em| && em[0] == 0 && em[1] == 2 && em[s] == 0 && forall i :: 2 <= i < s ==> em[i] != 0
    ensures IsType2(em, em[s + 1..])
  {
    var padding := em[2..s];
    assert em == Assemble(padding, em[s + 1..]);
  }

  /** The branch-free removal accepts exactly the type 2 encodings and returns the message. */
  method Unpad(encoded: seq<byte>) returns (r: Output)
    ensures forall m :: r == Ok(m) <==> IsType2(encoded, m)
    ensures r.Err? ==> r.error == OperationFailed
  {
    hide Assemble;
    if |encoded| < 11 {
      forall m ensures !IsType2(encoded, m) {
      }
      return Err(OperationFailed);
    }
    var valid := encoded[0] == 0 && encoded[1] == 2;
    var found, separator := false, 0;
    for index := 2 to |encoded|
      invariant !found ==> separator == 0 && forall i :: 2 <= i < index ==> encoded[i] != 0
      invariant found ==> 2 <= separator < index && encoded[separator] == 0
      invariant found ==> forall i :: 2 <= i < separator ==> encoded[i] != 0
    {
      var isSeparator := encoded[index] == 0;
      if !found && isSeparator {
        separator := index;
      }
      found := found || isSeparator;
    }
    valid := valid && found && separator > 9;
    forall m | IsType2(encoded, m) ensures valid && m == encoded[separator + 1..] {
      var padding: seq<byte> :| |padding| >= 8 && NonZero(padding) && encoded == Assemble(padding, m);
      AssembledAt(padding, m);
      var s := |padding| + 2;
      assert encoded[s] == 0;
      assert separator == s;
    }
    if !valid {
      return Err(OperationFailed);
    }
    AssembleFrom(encoded, separator);
    return Ok(encoded[separator + 1..]);
  }

  /** The accepted encodings are what the padder makes from some nonzero padding of the length it
      draws, provided the modulus has at least eleven bytes. */
  lemma Type2IffPad(em: seq<byte>, m: seq<byte>)
    ensures IsType2(em, m) <==>
            |em| >= 11 &&
            exists padding: seq<byte> ::
              |padding| == |em| - |m| - 3 && NonZero(padding) && Pad(m, |em|, padding) == Ok(em)
  {
    if IsType2(em, m) {
      var padding: seq<byte> :| |padding| >= 8 && NonZero(padding) && em == Assemble(padding, m);
      assert Pad(m, |em|, padding) == Ok(em);
    }
  }

  /** Below eleven bytes the saturating guard lets the empty message through with fewer than eight
      padding bytes, and removal rejects the result. */
  lemma TooSmallModulus(modulusSize: nat, padding: seq<byte>)
    requires 3 <= modulusSize < 11 && |padding| == modulusSize - 3 && NonZero(padding)
    ensures var r := Pad([], modulusSize, padding); r.Ok? && forall m :: !IsType2(r.value, m)
  {
    var r := Pad([], modulusSize, padding);
    forall m ensures !IsType2(r.value, m) {
      Type2IffPad(r.value, m);
    }
  }
}
