/** AES key wrap over a caller-supplied block operation: RFC 3394 (sections 2.2.1 and 2.2.2) and the
    padded form of RFC 5649 (sections 4.1 and 4.2). */
module KeyWrap {
  import opened Arithmetic
  import opened Bytes

  datatype Error<+E> =
    | InvalidInitialValue
    | InvalidDataLength
    | InputTooLong
    | InvalidBlockOutput
    | AuthenticationFailed
    | BlockOperation(error: E)

  /** The block callback: the flag says whether it encrypts. */
  type Crypt<!E> = (seq<byte>, bool) -> Result<seq<byte>, E>

  const MAX_PADDED_LENGTH := 0xFFFF_FFFF

  /** The integrity register and the n semiblocks. */
  datatype Registers = Registers(a: seq<byte>, r: seq<byte>)

  ghost predicate Shape(p: Registers, n: nat) { |p.a| == 8 && |p.r| == 8 * n }

  /** The callback is a permutation of 16-byte blocks and its inverse. */
  ghost predicate IsBlockPermutation<E(!new)>(crypt: Crypt<E>) {
    && (forall b: seq<byte> :: |b| == 16 ==>
          crypt(b, true).Ok? && |crypt(b, true).value| == 16 && crypt(crypt(b, true).value, false) == Ok(b))
    && (forall b: seq<byte> :: |b| == 16 ==>
          crypt(b, false).Ok? && |crypt(b, false).value| == 16 && crypt(crypt(b, false).value, true) == Ok(b))
  }

  /** The errors that come from the callback. */
  predicate BlockError<E>(e: Error<E>) { e.BlockOperation? || e.InvalidBlockOutput? }

  function CryptBlock<E>(crypt: Crypt<E>, block: seq<byte>, encrypting: bool): (r: Result<seq<byte>, Error<E>>)
    ensures r.Ok? ==> |r.value| == 16
    ensures r.Err? ==> BlockError(r.error)
  {
    match crypt(block, encrypting)
    case Err(e) => Err(BlockOperation(e))
    case Ok(v) => if |v| == 16 then Ok(v) else Err(InvalidBlockOutput)
  }

  function Semiblock(r: seq<byte>, index: nat): (s: seq<byte>)
    requires 8 * index + 8 <= |r|
    ensures |s| == 8
  {
    r[8 * index..8 * index + 8]
  }

  function Put(r: seq<byte>, index: nat, s: seq<byte>): (t: seq<byte>)
    requires 8 * index + 8 <= |r| && |s| == 8
    ensures |t| == |r|
  {
    r[..8 * index] + s + r[8 * index + 8..]
  }

  lemma PutSemiblock(r: seq<byte>, index: nat, s: seq<byte>)
    requires 8 * index + 8 <= |r| && |s| == 8
    ensures Semiblock(Put(r, index, s), index) == s
    ensures Put(Put(r, index, s), index, Semiblock(r, index)) == r
  {
  }

  /** The step counter as eight big-endian bytes. */
  function Counter(n: nat, round: nat, index: nat): (s: seq<byte>)
    ensures |s| == 8
  {
    ToBigEndian(n * round + index + 1, 8)
  }

  // ---------- One step ----------

  function WrapStep<E>(crypt: Crypt<E>, p: Registers, n: nat, round: nat, index: nat): (q: Result<Registers, Error<E>>)
    requires Shape(p, n) && index < n
    ensures q.Ok? ==> Shape(q.value, n)
    ensures q.Err? ==> BlockError(q.error)
  {
    match CryptBlock(crypt, p.a + Semiblock(p.r, index), true)
    case Err(e) => Err(e)
    case Ok(t) => Ok(Registers(XorSeq(t[..8], Counter(n, round, index)), Put(p.r, index, t[8..])))
  }

  function UnwrapStep<E>(crypt: Crypt<E>, p: Registers, n: nat, round: nat, index: nat)
    : (q: Result<Registers, Error<E>>)
    requires Shape(p, n) && index < n
    ensures q.Ok? ==> Shape(q.value, n)
    ensures q.Err? ==> BlockError(q.error)
  {
    match CryptBlock(crypt, XorSeq(p.a, Counter(n, round, index)) + Semiblock(p.r, index), false)
    case Err(e) => Err(e)
    case Ok(t) => Ok(Registers(t[..8], Put(p.r, index, t[8..])))
  }

  lemma StepsInvert<E(!new)>(crypt: Crypt<E>, p: Registers, n: nat, round: nat, index: nat)
    requires IsBlockPermutation(crypt) && Shape(p, n) && index < n
    ensures var q := WrapStep(crypt, p, n, round, index);
            q.Ok? && UnwrapStep(crypt, q.value, n, round, index) == Ok(p)
    ensures var q := UnwrapStep(crypt, p, n, round, index);
            q.Ok? && WrapStep(crypt, q.value, n, round, index) == Ok(p)
  {
    WrapThenUnwrap(crypt, p, n, round, index);
    UnwrapThenWrap(crypt, p, n, round, index);
  }

  lemma Halves(block: seq<byte>)
    requires |block| == 16
    ensures block[..8] + block[8..] == block
  {
  }

  lemma WrapThenUnwrap<E(!new)>(crypt: Crypt<E>, p: Registers, n: nat, round: nat, index: nat)
    requires IsBlockPermutation(crypt) && Shape(p, n) && index < n
    ensures var q := WrapStep(crypt, p, n, round, index);
            q.Ok? && UnwrapStep(crypt, q.value, n, round, index) == Ok(p)
  {
    hide Counter, Put, Semiblock, XorSeq;
    var s, c := Semiblock(p.r, index), Counter(n, round, index);
    var block := p.a + s;
    var t := crypt(block, true).value;
    XorSeqCancels(t[..8], c);
    Halves(t);
    PutSemiblock(p.r, index, t[8..]);
    assert block[..8] == p.a && block[8..] == s;
  }

  lemma UnwrapThenWrap<E(!new)>(crypt: Crypt<E>, p: Registers, n: nat, round: nat, index: nat)
    requires IsBlockPermutation(crypt) && Shape(p, n) && index < n
    ensures var q := UnwrapStep(crypt, p, n, round, index);
            q.Ok? && WrapStep(crypt, q.value, n, round, index) == Ok(p)
  {
    hide Counter, Put, Semiblock, XorSeq;
    var s, c := Semiblock(p.r, index), Counter(n, round, index);
    var masked := XorSeq(p.a, c);
    var block := masked + s;
    var t := crypt(block, false).value;
    XorSeqCancels(p.a, c);
    Halves(t);
    PutSemiblock(p.r, index, t[8..]);
    assert block[..8] == masked && block[8..] == s;
  }

  // ---------- Rounds ----------

  /** Steps 0 to k - 1 of one round. */
  function WrapRow<E>(crypt: Crypt<E>, p: Registers, n: nat, round: nat, k: nat): (q: Result<Registers, Error<E>>)
    requires Shape(p, n) && k <= n
    ensures q.Ok? ==> Shape(q.value, n)
    ensures q.Err? ==> BlockError(q.error)
  {
    if k == 0 then Ok(p)
    else match WrapRow(crypt, p, n, round, k - 1)
      case Err(e) => Err(e)
      case Ok(q) => WrapStep(crypt, q, n, round, k - 1)
  }

  /** Steps n - 1 down to k of one round. */
  function UnwrapRow<E>(crypt: Crypt<E>, p: Registers, n: nat, round: nat, k: nat): (q: Result<Registers, Error<E>>)
    requires Shape(p, n) && k <= n
    ensures q.Ok? ==> Shape(q.value, n)
    ensures q.Err? ==> BlockError(q.error)
    decreases n - k
  {
    if k == n then Ok(p)
    else match UnwrapRow(crypt, p, n, round, k + 1)
      case Err(e) => Err(e)
      case Ok(q) => UnwrapStep(crypt, q, n, round, k)
  }

  function WrapRounds<E>(crypt: Crypt<E>, p: Registers, n: nat, rounds: nat): (q: Result<Registers, Error<E>>)
    requires Shape(p, n)
    ensures q.Ok? ==> Shape(q.value, n)
    ensures q.Err? ==> BlockError(q.error)
  {
    if rounds == 0 then Ok(p)
    else match WrapRounds(crypt, p, n, rounds - 1)
      case Err(e) => Err(e)
      case Ok(q) => WrapRow(crypt, q, n, rounds - 1, n)
  }

  /** Rounds 5 down to the given one. */
  function UnwrapRounds<E>(crypt: Crypt<E>, p: Registers, n: nat, round: nat): (q: Result<Registers, Error<E>>)
    requires Shape(p, n) && round <= 6
    ensures q.Ok? ==> Shape(q.value, n)
    ensures q.Err? ==> BlockError(q.error)
    decreases 6 - round
  {
    if round == 6 then Ok(p)
    else match UnwrapRounds(crypt, p, n, round + 1)
      case Err(e) => Err(e)
      case Ok(q) => UnwrapRow(crypt, q, n, round, 0)
  }

  lemma {:induction false} WrapRowSucceeds<E(!new)>(crypt: Crypt<E>, p: Registers, n: nat, round: nat, k: nat)
    requires IsBlockPermutation(crypt) && Shape(p, n) && k <= n
    ensures WrapRow(crypt, p, n, round, k).Ok?
  {
    hide WrapStep, UnwrapStep;
    if k > 0 {
      WrapRowSucceeds(crypt, p, n, round, k - 1);
      StepsInvert(crypt, WrapRow(crypt, p, n, round, k - 1).value, n, round, k - 1);
    }
  }

  lemma {:induction false} UnwrapRowSucceeds<E(!new)>(crypt: Crypt<E>, p: Registers, n: nat, round: nat, k: nat)
    requires IsBlockPermutation(crypt) && Shape(p, n) && k <= n
    ensures UnwrapRow(crypt, p, n, round, k).Ok?
    decreases n - k
  {
    hide WrapStep, UnwrapStep;
    if k < n {
      UnwrapRowSucceeds(crypt, p, n, round, k + 1);
      StepsInvert(crypt, UnwrapRow(crypt, p, n, round, k + 1).value, n, round, k);
    }
  }

  /** Undoing a wrapped round from the top passes back through its own intermediate states. */
  lemma {:induction false} UnwrapRowUndoes<E(!new)>(crypt: Crypt<E>, p: Registers, q: Registers, n: nat, round: nat,
                                                    k: nat)
    requires IsBlockPermutation(crypt) && Shape(p, n) && Shape(q, n) && k <= n
    requires WrapRow(crypt, p, n, round, n) == Ok(q)
    ensures UnwrapRow(crypt, q, n, round, k) == WrapRow(crypt, p, n, round, k)
    decreases n - k
  {
    hide WrapStep, UnwrapStep;
    if k < n {
      UnwrapRowUndoes(crypt, p, q, n, round, k + 1);
      WrapRowSucceeds(crypt, p, n, round, k);
      StepsInvert(crypt, WrapRow(crypt, p, n, round, k).value, n, round, k);
    }
  }

  lemma {:induction false} WrapRowUndoes<E(!new)>(crypt: Crypt<E>, p: Registers, q: Registers, n: nat, round: nat,
                                                  k: nat)
    requires IsBlockPermutation(crypt) && Shape(p, n) && Shape(q, n) && k <= n
    requires UnwrapRow(crypt, q, n, round, 0) == Ok(p)
    ensures WrapRow(crypt, p, n, round, k) == UnwrapRow(crypt, q, n, round, k)
  {
    hide WrapStep, UnwrapStep;
    if k > 0 {
      WrapRowUndoes(crypt, p, q, n, round, k - 1);
      UnwrapRowSucceeds(crypt, q, n, round, k);
      StepsInvert(crypt, UnwrapRow(crypt, q, n, round, k).value, n, round, k - 1);
    }
  }

  lemma RowsInvert<E(!new)>(crypt: Crypt<E>, p: Registers, q: Registers, n: nat, round: nat)
    requires IsBlockPermutation(crypt) && Shape(p, n) && Shape(q, n)
    ensures WrapRow(crypt, p, n, round, n) == Ok(q) <==> UnwrapRow(crypt, q, n, round, 0) == Ok(p)
  {
    if WrapRow(crypt, p, n, round, n) == Ok(q) {
      UnwrapRowUndoes(crypt, p, q, n, round, 0);
    }
    if UnwrapRow(crypt, q, n, round, 0) == Ok(p) {
      WrapRowUndoes(crypt, p, q, n, round, n);
    }
  }

  lemma {:induction false} WrapRoundsSucceed<E(!new)>(crypt: Crypt<E>, p: Registers, n: nat, rounds: nat)
    requires IsBlockPermutation(crypt) && Shape(p, n)
    ensures WrapRounds(crypt, p, n, rounds).Ok?
  {
    hide WrapRow;
    if rounds > 0 {
      WrapRoundsSucceed(crypt, p, n, rounds - 1);
      WrapRowSucceeds(crypt, WrapRounds(crypt, p, n, rounds - 1).value, n, rounds - 1, n);
    }
  }

  lemma {:induction false} UnwrapRoundsSucceed<E(!new)>(crypt: Crypt<E>, p: Registers, n: nat, round: nat)
    requires IsBlockPermutation(crypt) && Shape(p, n) && round <= 6
    ensures UnwrapRounds(crypt, p, n, round).Ok?
    decreases 6 - round
  {
    if round < 6 {
      UnwrapRoundsSucceed(crypt, p, n, round + 1);
      UnwrapRowSucceeds(crypt, UnwrapRounds(crypt, p, n, round + 1).value, n, round, 0);
    }
  }

  lemma {:induction false} UnwrapRoundsUndo<E(!new)>(crypt: Crypt<E>, p: Registers, q: Registers, n: nat, round: nat)
    requires IsBlockPermutation(crypt) && Shape(p, n) && Shape(q, n) && round <= 6
    requires WrapRounds(crypt, p, n, 6) == Ok(q)
    ensures UnwrapRounds(crypt, q, n, round) == WrapRounds(crypt, p, n, round)
    decreases 6 - round
  {
    hide WrapRow, UnwrapRow;
    if round < 6 {
      UnwrapRoundsUndo(crypt, p, q, n, round + 1);
      WrapRoundsSucceed(crypt, p, n, round);
      WrapRoundsSucceed(crypt, p, n, round + 1);
      RowsInvert(crypt, WrapRounds(crypt, p, n, round).value, WrapRounds(crypt, p, n, round + 1).value, n, round);
    }
  }

  lemma {:induction false} WrapRoundsUndo<E(!new)>(crypt: Crypt<E>, p: Registers, q: Registers, n: nat, round: nat)
    requires IsBlockPermutation(crypt) && Shape(p, n) && Shape(q, n) && round <= 6
    requires UnwrapRounds(crypt, q, n, 0) == Ok(p)
    ensures WrapRounds(crypt, p, n, round) == UnwrapRounds(crypt, q, n, round)
  {
    hide WrapRow, UnwrapRow;
    if round > 0 {
      WrapRoundsUndo(crypt, p, q, n, round - 1);
      UnwrapRoundsSucceed(crypt, q, n, round);
      UnwrapRoundsSucceed(crypt, q, n, round - 1);
      RowsInvert(crypt, UnwrapRounds(crypt, q, n, round - 1).value, UnwrapRounds(crypt, q, n, round).value, n,
                 round - 1);
    }
  }

  /** The 6n reverse steps invert the 6n forward steps, for every number of semiblocks. */
  lemma RoundsInvert<E(!new)>(crypt: Crypt<E>, p: Registers, q: Registers, n: nat)
    requires IsBlockPermutation(crypt) && Shape(p, n) && Shape(q, n)
    ensures WrapRounds(crypt, p, n, 6) == Ok(q) <==> UnwrapRounds(crypt, q, n, 0) == Ok(p)
  {
    hide WrapRow, UnwrapRow;
    if WrapRounds(crypt, p, n, 6) == Ok(q) {
      UnwrapRoundsUndo(crypt, p, q, n, 0);
    }
    if UnwrapRounds(crypt, q, n, 0) == Ok(p) {
      WrapRoundsUndo(crypt, p, q, n, 6);
    }
  }

  // ---------- The loops ----------

  method WrapLoop<E>(a0: seq<byte>, r0: seq<byte>, crypt: Crypt<E>, ghost n: nat)
    returns (result: Result<Registers, Error<E>>)
    requires Shape(Registers(a0, r0), n)
    ensures result == WrapRounds(crypt, Registers(a0, r0), n, 6)
  {
    hide WrapStep, Put, Counter, XorSeq;
    var a, r := a0, r0;
    var semiblocks := |r| / 8;
    for round := 0 to 6
      invariant Shape(Registers(a, r), n)
      invariant WrapRounds(crypt, Registers(a0, r0), n, round) == Ok(Registers(a, r))
    {
      ghost var start := Registers(a, r);
      for index := 0 to semiblocks
        invariant Shape(Registers(a, r), n)
        invariant WrapRow(crypt, start, n, round, index) == Ok(Registers(a, r))
      {
        var transformed := CryptBlock(crypt, a + Semiblock(r, index), true);
        WrapStepDefinition(crypt, Registers(a, r), n, round, index);
        if transformed.Err? {
          WrapRowFails(crypt, start, n, round, index + 1);
          WrapRoundsFail(crypt, Registers(a0, r0), n, round + 1);
          return Err(transformed.error);
        }
        a := XorSeq(transformed.value[..8], Counter(semiblocks, round, index));
        r := Put(r, index, transformed.value[8..]);
      }
    }
    return Ok(Registers(a, r));
  }

  lemma WrapStepDefinition<E>(crypt: Crypt<E>, p: Registers, n: nat, round: nat, index: nat)
    requires Shape(p, n) && index < n
    ensures WrapStep(crypt, p, n, round, index) ==
            match CryptBlock(crypt, p.a + Semiblock(p.r, index), true)
            case Err(e) => Err(e)
            case Ok(t) => Ok(Registers(XorSeq(t[..8], Counter(n, round, index)), Put(p.r, index, t[8..])))
  {
  }

  lemma {:induction false} WrapRowFails<E>(crypt: Crypt<E>, p: Registers, n: nat, round: nat, k: nat)
    requires Shape(p, n) && k <= n && WrapRow(crypt, p, n, round, k).Err?
    ensures WrapRow(crypt, p, n, round, n) == WrapRow(crypt, p, n, round, k)
    decreases n - k
  {
    hide WrapStep;
    if k < n {
      WrapRowFails(crypt, p, n, round, k + 1);
    }
  }

  lemma {:induction false} WrapRoundsFail<E>(crypt: Crypt<E>, p: Registers, n: nat, rounds: nat)
    requires Shape(p, n) && rounds <= 6 && WrapRounds(crypt, p, n, rounds).Err?
    ensures WrapRounds(crypt, p, n, 6) == WrapRounds(crypt, p, n, rounds)
    decreases 6 - rounds
  {
    hide WrapRow;
    if rounds < 6 {
      WrapRoundsFail(crypt, p, n, rounds + 1);
    }
  }

  method UnwrapLoop<E>(a0: seq<byte>, r0: seq<byte>, crypt: Crypt<E>, ghost n: nat)
    returns (result: Result<Registers, Error<E>>)
    requires Shape(Registers(a0, r0), n)
    ensures result == UnwrapRounds(crypt, Registers(a0, r0), n, 0)
  {
    hide UnwrapStep, Put, Counter, XorSeq;
    var a, r := a0, r0;
    var semiblocks := |r| / 8;
    for round := 6 downto 0
      invariant Shape(Registers(a, r), n)
      invariant UnwrapRounds(crypt, Registers(a0, r0), n, round) == Ok(Registers(a, r))
    {
      ghost var start := Registers(a, r);
      for index := semiblocks downto 0
        invariant Shape(Registers(a, r), n)
        invariant UnwrapRow(crypt, start, n, round, index) == Ok(Registers(a, r))
      {
        var masked := XorSeq(a, Counter(semiblocks, round, index));
        var transformed := CryptBlock(crypt, masked + Semiblock(r, index), false);
        UnwrapStepDefinition(crypt, Registers(a, r), n, round, index);
        if transformed.Err? {
          UnwrapRowFails(crypt, start, n, round, index);
          UnwrapRoundsFail(crypt, Registers(a0, r0), n, round);
          return Err(transformed.error);
        }
        a := transformed.value[..8];
        r := Put(r, index, transformed.value[8..]);
      }
    }
    return Ok(Registers(a, r));
  }

  lemma UnwrapStepDefinition<E>(crypt: Crypt<E>, p: Registers, n: nat, round: nat, index: nat)
    requires Shape(p, n) && index < n
    ensures UnwrapStep(crypt, p, n, round, index) ==
            match CryptBlock(crypt, XorSeq(p.a, Counter(n, round, index)) + Semiblock(p.r, index), false)
            case Err(e) => Err(e)
            case Ok(t) => Ok(Registers(t[..8], Put(p.r, index, t[8..])))
  {
  }

  lemma {:induction false} UnwrapRowFails<E>(crypt: Crypt<E>, p: Registers, n: nat, round: nat, k: nat)
    requires Shape(p, n) && k <= n && UnwrapRow(crypt, p, n, round, k).Err?
    ensures UnwrapRow(crypt, p, n, round, 0) == UnwrapRow(crypt, p, n, round, k)
  {
    hide UnwrapStep;
    if k > 0 {
      UnwrapRowFails(crypt, p, n, round, k - 1);
    }
  }

  lemma {:induction false} UnwrapRoundsFail<E>(crypt: Crypt<E>, p: Registers, n: nat, round: nat)
    requires Shape(p, n) && round <= 6 && UnwrapRounds(crypt, p, n, round).Err?
    ensures UnwrapRounds(crypt, p, n, 0) == UnwrapRounds(crypt, p, n, round)
  {
    hide UnwrapRow;
    if round > 0 {
      UnwrapRoundsFail(crypt, p, n, round - 1);
    }
  }

  /** All 6n steps in one direction; stops at the first callback failure. */
  method KeyWrapRounds<E>(a: seq<byte>, r: seq<byte>, encrypting: bool, crypt: Crypt<E>, ghost n: nat)
    returns (result: Result<Registers, Error<E>>)
    requires Shape(Registers(a, r), n)
    ensures result == if encrypting then WrapRounds(crypt, Registers(a, r), n, 6)
                      else UnwrapRounds(crypt, Registers(a, r), n, 0)
  {
    if encrypting {
      result := WrapLoop(a, r, crypt, n);
    } else {
      result := UnwrapLoop(a, r, crypt, n);
    }
  }

  // ---------- RFC 3394 ----------

  function Wrap<E>(crypt: Crypt<E>, iv: seq<byte>, input: seq<byte>): Result<seq<byte>, Error<E>> {
    if |iv| != 8 then Err(InvalidInitialValue)
    else if |input| < 16 || |input| % 8 != 0 then Err(InvalidDataLength)
    else match WrapRounds(crypt, Registers(iv, input), |input| / 8, 6)
      case Err(e) => Err(e)
      case Ok(q) => Ok(q.a + q.r)
  }

  function Unwrap<E>(crypt: Crypt<E>, iv: seq<byte>, input: seq<byte>): Result<seq<byte>, Error<E>> {
    if |iv| != 8 then Err(InvalidInitialValue)
    else if |input| < 24 || |input| % 8 != 0 then Err(InvalidDataLength)
    else match UnwrapRounds(crypt, Registers(input[..8], input[8..]), |input| / 8 - 1, 0)
      case Err(e) => Err(e)
      case Ok(q) => if q.a == iv then Ok(q.r) else Err(AuthenticationFailed)
  }

  method KeyWrapWith<E>(input: seq<byte>, encrypting: bool, iv: seq<byte>, crypt: Crypt<E>)
    returns (result: Result<seq<byte>, Error<E>>)
    ensures result == if encrypting then Wrap(crypt, iv, input) else Unwrap(crypt, iv, input)
    ensures result == Err(InvalidInitialValue) <==> |iv| != 8
    ensures result == Err(InvalidDataLength) <==>
            |iv| == 8 && (|input| % 8 != 0 || |input| < (if encrypting then 16 else 24))
    ensures encrypting ==> result != Err(AuthenticationFailed)
  {
    hide WrapRounds, UnwrapRounds;
    if |iv| != 8 {
      return Err(InvalidInitialValue);
    }
    if encrypting {
      if |input| < 16 || |input| % 8 != 0 {
        return Err(InvalidDataLength);
      }
      var wrapped := KeyWrapRounds(iv, input, true, crypt, |input| / 8);
      if wrapped.Err? {
        return Err(wrapped.error);
      }
      return Ok(wrapped.value.a + wrapped.value.r);
    }
    if |input| < 24 || |input| % 8 != 0 {
      return Err(InvalidDataLength);
    }
    var unwrapped := KeyWrapRounds(input[..8], input[8..], false, crypt, |input| / 8 - 1);
    if unwrapped.Err? {
      return Err(unwrapped.error);
    }
    if unwrapped.value.a != iv {
      return Err(AuthenticationFailed);
    }
    return Ok(unwrapped.value.r);
  }

  /** Unwrap accepts exactly the images of wrap, and returns what was wrapped. */
  lemma UnwrapIffWrap<E(!new)>(crypt: Crypt<E>, iv: seq<byte>, m: seq<byte>, c: seq<byte>)
    requires IsBlockPermutation(crypt)
    ensures Unwrap(crypt, iv, c) == Ok(m) <==> Wrap(crypt, iv, m) == Ok(c)
  {
    hide WrapRounds, UnwrapRounds, IsBlockPermutation;
    if |iv| == 8 && |m| >= 16 && |m| % 8 == 0 && |c| == |m| + 8 {
      var n := |m| / 8;
      assert c == c[..8] + c[8..];
      RoundsInvert(crypt, Registers(iv, m), Registers(c[..8], c[8..]), n);
      var w := WrapRounds(crypt, Registers(iv, m), n, 6);
      if w.Ok? && w.value.a + w.value.r == c {
        assert w.value == Registers(c[..8], c[8..]);
      }
    }
  }

  // ---------- RFC 5649 ----------

  function Semiblocks(length: nat): nat { (length + 7) / 8 }

  /** The registers that the padded form starts from. */
  function PaddedStart(aiv: seq<byte>, input: seq<byte>): (p: Registers)
    requires |aiv| == 4
    ensures Shape(p, Semiblocks(|input|))
  {
    Registers(aiv + ToBigEndian(|input|, 4), input + Zeros(8 * Semiblocks(|input|) - |input|))
  }

  function WrapPadded<E>(crypt: Crypt<E>, aiv: seq<byte>, input: seq<byte>): Result<seq<byte>, Error<E>> {
    if |aiv| != 4 then Err(InvalidInitialValue)
    else if input == [] || |input| > MAX_PADDED_LENGTH then Err(InputTooLong)
    else
      var n := Semiblocks(|input|);
      var p := PaddedStart(aiv, input);
      if n == 1 then CryptBlock(crypt, p.a + p.r, true)
      else match WrapRounds(crypt, p, n, 6)
        case Err(e) => Err(e)
        case Ok(q) => Ok(q.a + q.r)
  }

  /** The registers recovered from n semiblocks and the integrity register. */
  function PaddedRecovered<E>(crypt: Crypt<E>, input: seq<byte>, n: nat): (q: Result<Registers, Error<E>>)
    requires |input| == 8 * n + 8 && n >= 1
    ensures q.Ok? ==> Shape(q.value, n)
    ensures q.Err? ==> BlockError(q.error)
  {
    if n == 1 then
      match CryptBlock(crypt, input, false)
      case Err(e) => Err(e)
      case Ok(t) => Ok(Registers(t[..8], t[8..]))
    else UnwrapRounds(crypt, Registers(input[..8], input[8..]), n, 0)
  }

  /** The integrity check of section 4.2: value, length bounds and zero tail. */
  ghost predicate PaddingValid(q: Registers, aiv: seq<byte>, n: nat)
    requires Shape(q, n) && n >= 1
  {
    var length := FromBigEndian(q.a[4..]);
    && q.a[..4] == aiv
    && 8 * (n - 1) < length <= 8 * n
    && forall i :: length <= i < 8 * n ==> q.r[i] == 0
  }

  ghost function UnwrapPadded<E>(crypt: Crypt<E>, aiv: seq<byte>, input: seq<byte>): Result<seq<byte>, Error<E>> {
    if |aiv| != 4 then Err(InvalidInitialValue)
    else if |input| < 16 || |input| % 8 != 0 then Err(InvalidDataLength)
    else
      var n := |input| / 8 - 1;
      match PaddedRecovered(crypt, input, n)
      case Err(e) => Err(e)
      case Ok(q) =>
        if PaddingValid(q, aiv, n) then Ok(q.r[..FromBigEndian(q.a[4..])]) else Err(AuthenticationFailed)
  }

  /** The branch-free check: every byte is looked at, whatever the length says. */
  method CheckPadding(q: Registers, aiv: seq<byte>, n: nat) returns (valid: bool)
    requires Shape(q, n) && n >= 1
    ensures valid <==> PaddingValid(q, aiv, n)
  {
    var length := FromBigEndian(q.a[4..]);
    var invalid := q.a[..4] != aiv;
    invalid := invalid || !(length > 8 * (n - 1));
    invalid := invalid || length > 8 * n;
    ghost var early := invalid;
    for index := 0 to |q.r|
      invariant invalid <==> early || exists i :: length <= i < index && q.r[i] != 0
    {
      invalid := invalid || (!(index < length) && q.r[index] != 0);
    }
    valid := !invalid;
  }

  method KeyWrapWithPaddingWith<E>(input: seq<byte>, encrypting: bool, aiv: seq<byte>, crypt: Crypt<E>)
    returns (result: Result<seq<byte>, Error<E>>)
    ensures result == if encrypting then WrapPadded(crypt, aiv, input) else UnwrapPadded(crypt, aiv, input)
    ensures result == Err(InvalidInitialValue) <==> |aiv| != 4
    ensures result == Err(InputTooLong) <==> |aiv| == 4 && encrypting && (input == [] || |input| > 0xFFFF_FFFF)
    ensures result == Err(InvalidDataLength) <==> |aiv| == 4 && !encrypting && (|input| % 8 != 0 || |input| < 16)
    ensures encrypting ==> result != Err(AuthenticationFailed)
  {
    hide WrapRounds, UnwrapRounds, ToBigEndian, FromBigEndian;
    if |aiv| != 4 {
      return Err(InvalidInitialValue);
    }
    if encrypting {
      if input == [] || |input| > MAX_PADDED_LENGTH {
        return Err(InputTooLong);
      }
      var semiblocks := (|input| + 7) / 8;
      var a := aiv + ToBigEndian(|input|, 4);
      var r := input + Zeros(8 * semiblocks - |input|);
      if semiblocks == 1 {
        var output := CryptBlock(crypt, a + r, true);
        return output;
      }
      var wrapped := KeyWrapRounds(a, r, true, crypt, semiblocks);
      if wrapped.Err? {
        return Err(wrapped.error);
      }
      return Ok(wrapped.value.a + wrapped.value.r);
    }
    if |input| < 16 || |input| % 8 != 0 {
      return Err(InvalidDataLength);
    }
    var semiblocks := |input| / 8 - 1;
    var recovered: Registers;
    if semiblocks == 1 {
      var transformed := CryptBlock(crypt, input, false);
      if transformed.Err? {
        return Err(transformed.error);
      }
      recovered := Registers(transformed.value[..8], transformed.value[8..]);
    } else {
      var unwrapped := KeyWrapRounds(input[..8], input[8..], false, crypt, semiblocks);
      if unwrapped.Err? {
        return Err(unwrapped.error);
      }
      recovered := unwrapped.value;
    }
    var valid := CheckPadding(recovered, aiv, semiblocks);
    if !valid {
      return Err(AuthenticationFailed);
    }
    return Ok(recovered.r[..FromBigEndian(recovered.a[4..])]);
  }

  lemma FourBytes()
    ensures Pow(256, 4) == MAX_PADDED_LENGTH + 1
  {
    assert Pow(256, 2) == 65536;
    PowAdd(256, 2, 2);
  }

  /** The starting registers of a message pass the check and give the message back. */
  lemma StartIsValid(aiv: seq<byte>, m: seq<byte>)
    requires |aiv| == 4 && 1 <= |m| <= MAX_PADDED_LENGTH
    ensures var p, n := PaddedStart(aiv, m), Semiblocks(|m|);
            n >= 1 && PaddingValid(p, aiv, n) && p.r[..FromBigEndian(p.a[4..])] == m
  {
    FourBytes();
    BigEndianRoundTrip(|m|, 4);
    var p := PaddedStart(aiv, m);
    assert p.a[4..] == ToBigEndian(|m|, 4);
    assert p.a[..4] == aiv;
  }

  /** Registers that pass the check are the starting registers of what they return. */
  lemma ValidIsStart(q: Registers, aiv: seq<byte>, n: nat)
    requires |aiv| == 4 && Shape(q, n) && n >= 1 && PaddingValid(q, aiv, n)
    ensures var m := q.r[..FromBigEndian(q.a[4..])];
            1 <= |m| <= MAX_PADDED_LENGTH && Semiblocks(|m|) == n && PaddedStart(aiv, m) == q
  {
    var tail := q.a[4..];
    FourBytes();
    BigEndianBound(tail);
    BytesRoundTrip(tail);
    var length := FromBigEndian(tail);
    var m := q.r[..length];
    assert q.a == aiv + tail by { assert q.a == q.a[..4] + q.a[4..]; }
    assert q.r == m + Zeros(8 * n - length);
  }

  lemma RecoveredIffWrapped<E(!new)>(crypt: Crypt<E>, p: Registers, c: seq<byte>, n: nat)
    requires IsBlockPermutation(crypt) && Shape(p, n) && n >= 1 && |c| == 8 * n + 8
    ensures PaddedRecovered(crypt, c, n) == Ok(p)
       <==> (if n == 1 then CryptBlock(crypt, p.a + p.r, true) == Ok(c)
             else WrapRounds(crypt, p, n, 6) == Ok(Registers(c[..8], c[8..])))
  {
    hide WrapRounds, UnwrapRounds;
    if n == 1 {
      var b := p.a + p.r;
      assert b[..8] == p.a && b[8..] == p.r;
      if CryptBlock(crypt, c, false).Ok? {
        Halves(CryptBlock(crypt, c, false).value);
      }
    } else {
      RoundsInvert(crypt, p, Registers(c[..8], c[8..]), n);
    }
  }

  /** The padded unwrap accepts exactly the images of the padded wrap, single block included. */
  lemma UnwrapPaddedIffWrapPadded<E(!new)>(crypt: Crypt<E>, aiv: seq<byte>, m: seq<byte>, c: seq<byte>)
    requires IsBlockPermutation(crypt)
    ensures UnwrapPadded(crypt, aiv, c) == Ok(m) <==> WrapPadded(crypt, aiv, m) == Ok(c)
  {
    if WrapPadded(crypt, aiv, m) == Ok(c) {
      PaddedForward(crypt, aiv, m, c);
    }
    if UnwrapPadded(crypt, aiv, c) == Ok(m) {
      PaddedBackward(crypt, aiv, m, c);
    }
  }

  lemma PaddedForward<E(!new)>(crypt: Crypt<E>, aiv: seq<byte>, m: seq<byte>, c: seq<byte>)
    requires IsBlockPermutation(crypt) && WrapPadded(crypt, aiv, m) == Ok(c)
    ensures UnwrapPadded(crypt, aiv, c) == Ok(m)
  {
    hide WrapRounds, UnwrapRounds, PaddingValid, PaddedRecovered, PaddedStart;
    var p, n := PaddedStart(aiv, m), Semiblocks(|m|);
    StartIsValid(aiv, m);
    if n != 1 {
      var q := WrapRounds(crypt, p, n, 6).value;
      assert q == Registers(c[..8], c[8..]);
    }
    RecoveredIffWrapped(crypt, p, c, n);
  }

  lemma PaddedBackward<E(!new)>(crypt: Crypt<E>, aiv: seq<byte>, m: seq<byte>, c: seq<byte>)
    requires IsBlockPermutation(crypt) && UnwrapPadded(crypt, aiv, c) == Ok(m)
    ensures WrapPadded(crypt, aiv, m) == Ok(c)
  {
    hide WrapRounds, UnwrapRounds, PaddingValid, PaddedRecovered, PaddedStart;
    var n := |c| / 8 - 1;
    var q := PaddedRecovered(crypt, c, n).value;
    ValidIsStart(q, aiv, n);
    RecoveredIffWrapped(crypt, q, c, n);
    assert c[..8] + c[8..] == c;
  }
}
