/** The shift-register form of key wrap in section 2.2.1 of RFC 3394, and the proof that the
    in-place rounds compute it. */
module KeyWrapStandard {
  import opened Arithmetic
  import opened Bytes
  import opened KeyWrap

  /** Step t: encrypt A and the first register, exclusive-or t into the new A, shift the registers
      left and put the other half in the last one. */
  function ShiftStep<E>(crypt: Crypt<E>, p: Registers, t: nat): (q: Result<Registers, Error<E>>)
    requires |p.a| == 8 && |p.r| >= 8
    ensures q.Ok? ==> |q.value.a| == 8 && |q.value.r| == |p.r|
  {
    match crypt(p.a + p.r[..8], true)
    case Err(e) => Err(BlockOperation(e))
    case Ok(b) =>
      if |b| != 16 then Err(InvalidBlockOutput)
      else Ok(Registers(XorSeq(b[..8], ToBigEndian(t, 8)), p.r[8..] + b[8..]))
  }

  /** Steps 1 to t. */
  function ShiftSteps<E>(crypt: Crypt<E>, p: Registers, t: nat): (q: Result<Registers, Error<E>>)
    requires |p.a| == 8 && |p.r| >= 8
    ensures q.Ok? ==> |q.value.a| == 8 && |q.value.r| == |p.r|
  {
    if t == 0 then Ok(p)
    else match ShiftSteps(crypt, p, t - 1)
      case Err(e) => Err(e)
      case Ok(q) => ShiftStep(crypt, q, t)
  }

  /** The registers seen from position k on, cyclically. */
  function Rotated(p: Registers, k: nat): (q: Registers)
    requires 8 * k <= |p.r|
    ensures |q.r| == |p.r|
  {
    Registers(p.a, p.r[8 * k..] + p.r[..8 * k])
  }

  function RotatedResult<E>(q: Result<Registers, Error<E>>, n: nat, k: nat): Result<Registers, Error<E>>
    requires q.Ok? ==> Shape(q.value, n)
    requires k <= n
  {
    match q
    case Err(e) => Err(e)
    case Ok(v) => Ok(Rotated(v, k))
  }

  lemma FullTurn(p: Registers, n: nat)
    requires Shape(p, n)
    ensures Rotated(p, 0) == p && Rotated(p, n) == p
  {
    assert p.r[..0] == [] && p.r[8 * n..] == [];
  }

  /** One in-place step is one shift step on the rotated registers. */
  lemma StepIsShift<E>(crypt: Crypt<E>, p: Registers, n: nat, round: nat, k: nat)
    requires Shape(p, n) && k < n
    ensures ShiftStep(crypt, Rotated(p, k), n * round + k + 1) ==
            RotatedResult(WrapStep(crypt, p, n, round, k), n, k + 1)
  {
    hide XorSeq, ToBigEndian;
    var rotated, s := Rotated(p, k), Semiblock(p.r, k);
    assert rotated.r[..8] == s;
    match crypt(p.a + s, true)
    case Err(e) =>
    case Ok(b) =>
      if |b| == 16 {
        ShiftedRegisters(p.r, n, k, b[8..]);
      }
  }

  lemma ShiftedRegisters(r: seq<byte>, n: nat, k: nat, s: seq<byte>)
    requires |r| == 8 * n && k < n && |s| == 8
    ensures var u := Put(r, k, s); (r[8 * k..] + r[..8 * k])[8..] + s == u[8 * (k + 1)..] + u[..8 * (k + 1)]
  {
    var u := Put(r, k, s);
    assert (r[8 * k..] + r[..8 * k])[8..] == r[8 * k + 8..] + r[..8 * k];
    assert u[8 * (k + 1)..] == r[8 * k + 8..];
    assert u[..8 * (k + 1)] == r[..8 * k] + s;
  }

  lemma StepCount(n: nat, round: nat)
    ensures n * (round + 1) == n * round + n && n * round >= 0
  {
  }

  lemma {:induction false} RowIsShift<E>(crypt: Crypt<E>, p: Registers, q: Registers, n: nat, round: nat, k: nat)
    requires Shape(p, n) && Shape(q, n) && n >= 1 && k <= n && n * round >= 0
    requires ShiftSteps(crypt, p, n * round) == Ok(q)
    ensures ShiftSteps(crypt, p, n * round + k) == RotatedResult(WrapRow(crypt, q, n, round, k), n, k)
  {
    hide WrapStep, ShiftStep;
    if k == 0 {
      FullTurn(q, n);
    } else {
      RowIsShift(crypt, p, q, n, round, k - 1);
      var before := WrapRow(crypt, q, n, round, k - 1);
      if before.Ok? {
        StepIsShift(crypt, before.value, n, round, k - 1);
      }
    }
  }

  lemma {:induction false} FailureStays<E>(crypt: Crypt<E>, p: Registers, t: nat, u: nat)
    requires |p.a| == 8 && |p.r| >= 8 && t <= u && ShiftSteps(crypt, p, t).Err?
    ensures ShiftSteps(crypt, p, u) == ShiftSteps(crypt, p, t)
  {
    hide ShiftStep;
    if t < u {
      FailureStays(crypt, p, t, u - 1);
    }
  }

  lemma {:induction false} RoundsAreShifts<E>(crypt: Crypt<E>, p: Registers, n: nat, rounds: nat)
    requires Shape(p, n) && n >= 1
    ensures n * rounds >= 0 && WrapRounds(crypt, p, n, rounds) == ShiftSteps(crypt, p, n * rounds)
  {
    hide WrapRow, ShiftStep;
    if rounds == 0 {
      assert n * rounds == 0;
    } else {
      RoundsAreShifts(crypt, p, n, rounds - 1);
      StepCount(n, rounds - 1);
      var before := WrapRounds(crypt, p, n, rounds - 1);
      if before.Ok? {
        RowIsShift(crypt, p, before.value, n, rounds - 1, n);
        var after := WrapRow(crypt, before.value, n, rounds - 1, n);
        if after.Ok? {
          FullTurn(after.value, n);
        }
      } else {
        FailureStays(crypt, p, n * (rounds - 1), n * rounds);
      }
    }
  }

  /** The wrapped output is the result of the standard's 6n steps from the initial value and the
      plaintext, callback failures included. */
  lemma WrapIsStandard<E>(crypt: Crypt<E>, iv: seq<byte>, input: seq<byte>)
    requires |iv| == 8 && |input| >= 16 && |input| % 8 == 0
    ensures Wrap(crypt, iv, input) ==
            match ShiftSteps(crypt, Registers(iv, input), 6 * (|input| / 8))
            case Err(e) => Err(e)
            case Ok(q) => Ok(q.a + q.r)
  {
    hide WrapRounds, ShiftSteps;
    RoundsAreShifts(crypt, Registers(iv, input), |input| / 8, 6);
  }

  /** The padded form: the alternative initial value and the length make A, zeros complete the last
      semiblock; one semiblock is encrypted directly, more go through the standard's steps. */
  lemma PaddedWrapIsStandard<E>(crypt: Crypt<E>, aiv: seq<byte>, input: seq<byte>, length: seq<byte>, padded: seq<byte>)
    requires |aiv| == 4 && 1 <= |input| <= 0xFFFF_FFFF
    requires |length| == 4 && FromBigEndian(length) == |input|
    requires |input| <= |padded| < |input| + 8 && |padded| % 8 == 0 && padded[..|input|] == input
    requires forall i :: |input| <= i < |padded| ==> padded[i] == 0
    ensures |padded| == 8 ==>
            WrapPadded(crypt, aiv, input) ==
            match crypt(aiv + length + padded, true)
            case Err(e) => Err(BlockOperation(e))
            case Ok(b) => if |b| == 16 then Ok(b) else Err(InvalidBlockOutput)
    ensures |padded| > 8 ==>
            WrapPadded(crypt, aiv, input) ==
            match ShiftSteps(crypt, Registers(aiv + length, padded), 6 * (|padded| / 8))
            case Err(e) => Err(e)
            case Ok(q) => Ok(q.a + q.r)
  {
    hide WrapRounds, ShiftSteps, FromBigEndian, PaddedStart;
    var n := Semiblocks(|input|);
    StartIs(aiv, input, length, padded);
    RoundsAreShifts(crypt, Registers(aiv + length, padded), n, 6);
  }

  lemma StartIs(aiv: seq<byte>, input: seq<byte>, length: seq<byte>, padded: seq<byte>)
    requires |aiv| == 4 && |length| == 4 && FromBigEndian(length) == |input|
    requires |input| <= |padded| < |input| + 8 && |padded| % 8 == 0 && padded[..|input|] == input
    requires forall i :: |input| <= i < |padded| ==> padded[i] == 0
    ensures |padded| == 8 * Semiblocks(|input|) && PaddedStart(aiv, input) == Registers(aiv + length, padded)
  {
    hide FromBigEndian, ToBigEndian;
    BytesRoundTrip(length);
    assert padded == input + Zeros(|padded| - |input|);
  }
}
