/** What a run of the random source gives the Miller-Rabin tests, stated without the sampling code. */
module BaseDraws {
  import opened Arithmetic
  import opened Bytes
  import opened MillerRabin

  /** The low Bits(n) bits of the big-endian number in a filled buffer of that many bits, rounded up to
      bytes. */
  ghost function MaskedDraw(n: nat, fill: nat -> byte): nat {
    PowPositive(2, Bits(n));
    Remainder(FromBigEndian(seq((Bits(n) + 7) / 8, i requires 0 <= i => fill(i))), Pow(2, Bits(n)))
  }

  function Remainder(v: nat, m: nat): nat
    requires m > 0
  {
    v % m
  }

  lemma MaskTop(b: nat, r: nat, m: nat, p: nat)
    requires m > 0 && p > 0 && r < p
    ensures m * p > 0 && (b * p + r) % (m * p) == (b % m) * p + r
  {
    var q, s := b / m, b % m;
    assert b * p + r == (m * p) * q + (s * p + r) by {
      assert b * p == (m * q + s) * p == (m * p) * q + s * p;
    }
    MulMonotone(p, s + 1, m);
    RemainderUnique(b * p + r, m * p, q, s * p + r);
  }

  /** Clearing the surplus bits of the first byte keeps exactly the low bits of the number. */
  lemma CandidateIsMasked(n: nat, fill: nat -> byte)
    requires n > 0
    ensures Candidate(n, fill) == MaskedDraw(n, fill)
  {
    hide FromBigEndian, Pow, Bits;
    BitsPositive(n);
    var length, keep := (Bits(n) + 7) / 8, 8 - (8 - Bits(n) % 8) % 8;
    var bytes := seq(length, i requires 0 <= i < length => fill(i));
    assert bytes == seq(length, i requires 0 <= i => fill(i));
    assert keep + 8 * (length - 1) == Bits(n);
    MaskedValue(bytes[0], bytes[1..], keep);
    assert bytes == [bytes[0]] + bytes[1..];
  }

  lemma MaskedValue(b: byte, rest: seq<byte>, keep: nat)
    ensures Pow(2, keep) > 0 && 0 <= b % Pow(2, keep) < 256 && Pow(2, keep + 8 * |rest|) > 0
    ensures FromBigEndian([b % Pow(2, keep)] + rest) == FromBigEndian([b] + rest) % Pow(2, keep + 8 * |rest|)
  {
    hide FromBigEndian, Pow;
    KeptByte(b, keep);
    FirstByteWeight(b, rest);
    FirstByteWeight(b % Pow(2, keep), rest);
    BigEndianBound(rest);
    TwoToTheEighth();
    PowPow(2, 8, |rest|);
    PowAdd(2, keep, 8 * |rest|);
    PowPositive(256, |rest|);
    MaskTop(b, FromBigEndian(rest), Pow(2, keep), Pow(256, |rest|));
  }

  lemma BitsPositive(n: nat)
    requires n > 0
    ensures Bits(n) >= 1
  {
  }

  lemma KeptByte(b: byte, keep: nat)
    ensures Pow(2, keep) > 0 && 0 <= b % Pow(2, keep) < 256
  {
    hide Pow;
    PowPositive(2, keep);
    RemainderIsSmall(b, Pow(2, keep));
  }

  lemma RemainderIsSmall(v: int, m: int)
    requires v >= 0 && m > 0
    ensures 0 <= v % m <= v
  {
    MulMonotone(m, 0, v / m);
  }

  /** From pos on, draws 0 to k - 1 succeed and are not strictly between 1 and n - 1, draw k is and
      gives b; k is below 128. */
  ghost predicate FirstAcceptable(n: nat, rng: Rng, pos: nat, k: nat, b: nat) {
    && k < 128 && rng(pos + k).Some? && b == MaskedDraw(n, rng(pos + k).value) && 1 < b < n - 1
    && forall j :: pos <= j < pos + k ==> rng(j).Some? && !(1 < MaskedDraw(n, rng(j).value) < n - 1)
  }

  lemma {:induction false} SampleFinds(n: nat, rng: Rng, pos: nat, attempts: nat, k: nat, b: nat)
    requires n > 0 && FirstAcceptable(n, rng, pos, k, b) && k < attempts
    ensures SampleBase(n, rng, pos, attempts) == (Some(b), pos + k + 1)
    decreases k
  {
    hide Candidate, MaskedDraw;
    CandidateIsMasked(n, rng(pos).value);
    if k > 0 {
      assert rng(pos).Some?;
      assert FirstAcceptable(n, rng, pos + 1, k - 1, b);
      SampleFinds(n, rng, pos + 1, attempts - 1, k - 1, b);
    }
  }

  lemma {:induction false} SampleFound(n: nat, rng: Rng, pos: nat, attempts: nat) returns (k: nat)
    requires n > 0 && attempts <= 128 && SampleBase(n, rng, pos, attempts).0.Some?
    ensures k < attempts && FirstAcceptable(n, rng, pos, k, SampleBase(n, rng, pos, attempts).0.value)
    ensures SampleBase(n, rng, pos, attempts).1 == pos + k + 1
    decreases attempts
  {
    hide Candidate, MaskedDraw;
    CandidateIsMasked(n, rng(pos).value);
    if 1 < Candidate(n, rng(pos).value) < n - 1 {
      k := 0;
    } else {
      var l := SampleFound(n, rng, pos + 1, attempts - 1);
      k := l + 1;
    }
  }

  /** The bases are those that successive samplings from pos give, and end is where they stop. */
  ghost predicate Drawn(n: nat, rng: Rng, pos: nat, bases: seq<nat>, end: nat)
    decreases |bases|
  {
    if bases == [] then end == pos
    else exists k :: FirstAcceptable(n, rng, pos, k, bases[0]) && Drawn(n, rng, pos + k + 1, bases[1..], end)
  }

  lemma DrawnNext(n: nat, rng: Rng, pos: nat, bases: seq<nat>, end: nat)
    requires n > 0 && Drawn(n, rng, pos, bases, end) && bases != []
    ensures SampleBase(n, rng, pos, 128).0 == Some(bases[0])
    ensures Drawn(n, rng, SampleBase(n, rng, pos, 128).1, bases[1..], end)
  {
    hide FirstAcceptable, SampleBase;
    var k :| FirstAcceptable(n, rng, pos, k, bases[0]) && Drawn(n, rng, pos + k + 1, bases[1..], end);
    assert k < 128 by { Within(n, rng, pos, k, bases[0]); }
    SampleFinds(n, rng, pos, 128, k, bases[0]);
  }

  lemma Within(n: nat, rng: Rng, pos: nat, k: nat, b: nat)
    requires FirstAcceptable(n, rng, pos, k, b)
    ensures k < 128
  {
  }

  lemma DrawnMore(n: nat, rng: Rng, pos: nat, rest: seq<nat>, end: nat)
    requires n > 0 && SampleBase(n, rng, pos, 128).0.Some?
    requires Drawn(n, rng, SampleBase(n, rng, pos, 128).1, rest, end)
    ensures Drawn(n, rng, pos, [SampleBase(n, rng, pos, 128).0.value] + rest, end)
  {
    hide FirstAcceptable, SampleBase;
    var b := SampleBase(n, rng, pos, 128).0.value;
    var k := SampleFound(n, rng, pos, 128);
    var bases := [b] + rest;
    assert bases[0] == b && bases[1..] == rest;
  }

  /** None of the next 128 draws is acceptable before one fails. */
  ghost predicate NoneAcceptable(n: nat, rng: Rng, pos: nat) { forall k, b :: !FirstAcceptable(n, rng, pos, k, b) }

  lemma SampleFailsIff(n: nat, rng: Rng, pos: nat)
    requires n > 0
    ensures SampleBase(n, rng, pos, 128).0.None? <==> NoneAcceptable(n, rng, pos)
  {
    hide FirstAcceptable, SampleBase;
    if SampleBase(n, rng, pos, 128).0.Some? {
      var k := SampleFound(n, rng, pos, 128);
    }
    forall k, b | FirstAcceptable(n, rng, pos, k, b) ensures SampleBase(n, rng, pos, 128).0.Some? {
      Within(n, rng, pos, k, b);
      SampleFinds(n, rng, pos, 128, k, b);
    }
  }
}
