/** The in-place transform: the twiddle table and the three nested loops of `ntt`, proved equal to
    the layered specification. */
module Ntt {
  import opened Arithmetic
  import opened NttTwiddles
  import opened NttSpec

  /** The table the source builds at compile time. */
  const ZETAS: seq<Residue> := seq(256, k requires 0 <= k < 256 => Zeta(k))

  lemma {:induction false} BitRevBound(n: nat, x: nat)
    ensures BitRev(n, x) < Pow(2, n)
  {
    if n > 0 {
      BitRevBound(n - 1, x / 2);
      PowPositive(2, n - 1);
      assert Pow(2, n) == 2 * Pow(2, n - 1);
    }
  }

  lemma BitRev8Bound(x: nat)
    ensures BitRev8(x) < 256
  {
    BitRevBound(8, x);
    PowersOfTwo();
  }

  function ZetaPower(e: nat): Residue { Pow(ZETA, e) % Q }

  lemma NextPower(e: nat)
    ensures (ZetaPower(e) * ZETA) % Q == ZetaPower(e + 1)
  {
    var p := Pow(ZETA, e);
    CongMod(p, Q);
    CongIntro(ZETA, ZETA, Q, 0);
    CongMul(p % Q, p, ZETA, ZETA, Q);
    CongIsEqualRemainder((p % Q) * ZETA, ZETA * p, Q);
  }

  /** Running powers of zeta. */
  method BuildPowers() returns (powers: array<Residue>)
    ensures fresh(powers) && powers.Length == 256
    ensures forall e :: 0 <= e < 256 ==> powers[e] == ZetaPower(e)
  {
    powers := new Residue[256](_ => 0);
    var power: Residue := 1;
    var i := 0;
    while i < 256
      invariant 0 <= i <= 256
      invariant power == ZetaPower(i)
      invariant forall e :: 0 <= e < i ==> powers[e] == ZetaPower(e)
    {
      powers[i] := power;
      NextPower(i);
      power := power * ZETA % Q;
      i := i + 1;
    }
  }

  lemma ZetaEntry(k: nat)
    requires 1 <= k < 256
    ensures BitRev8(k) < 256 && ZETAS[k] == ZetaPower(BitRev8(k))
  {
    BitRev8Bound(k);
  }

  /** Builds the twiddle table: the powers of zeta in bit-reversed order, entry zero unused. */
  method BuildZetas() returns (zetas: array<Residue>)
    ensures fresh(zetas) && zetas[..] == ZETAS
  {
    var powers := BuildPowers();
    zetas := new Residue[256](_ => 0);
    assert ZETAS[0] == 0;
    var i := 1;
    while i < 256
      invariant 1 <= i <= 256
      invariant forall k :: 0 <= k < i ==> zetas[k] == ZETAS[k]
      modifies zetas
    {
      ZetaEntry(i);
      zetas[i] := powers[BitRev8(i)];
      i := i + 1;
    }
  }

  // ---------- One block ----------

  /** What one butterfly writes in the lower half, in field operations. */
  function Lower(left: Residue, right: Residue, table: Residue, inverse: bool): Residue {
    if inverse then ElemAdd(left, right) else ElemAdd(left, ElemMul(table, right))
  }

  /** What one butterfly writes in the upper half. */
  function Upper(left: Residue, right: Residue, table: Residue, inverse: bool): Residue {
    if inverse then ElemMul(ElemNeg(table), ElemSub(left, right)) else ElemSub(left, ElemMul(table, right))
  }

  lemma ForwardElements(l: int, w: int)
    ensures (l + w % Q) % Q == (l + w) % Q && (l - w % Q) % Q == (l - w) % Q
  {
    CongMod(w, Q);
    CongIntro(l, l, Q, 0);
    CongAdd(l, l, w % Q, w, Q);
    CongIsEqualRemainder(l + w % Q, l + w, Q);
    CongSub(l, l, w % Q, w, Q);
    CongIsEqualRemainder(l - w % Q, l - w, Q);
  }

  lemma InverseElements(z: int, d: int)
    ensures (((Q - z) % Q) * (d % Q)) % Q == (-z * d) % Q
  {
    var n := Q - z;
    CongMod(d, Q);
    CongMod(n, Q);
    CongIntro(n, -z, Q, 1);
    CongTransitive(n % Q, n, -z, Q);
    CongMul(n % Q, -z, d % Q, d, Q);
    CongIsEqualRemainder((n % Q) * (d % Q), -z * d, Q);
  }

  lemma ButterflyValues(l: Residue, h: Residue, table: Residue)
    ensures Lower(l, h, table, false) == (l + table * h) % Q
    ensures Upper(l, h, table, false) == (l + -(table as int) * h) % Q
    ensures Lower(l, h, table, true) == (l as int + 1 * h) % Q
    ensures Upper(l, h, table, true) == (-(table as int) * (l as int - h as int)) % Q
  {
    var z, x, y: int := table, l, h;
    ForwardElements(x, z * y);
    NegatedFactor(z, y);
    InverseElements(z, x - y);
  }

  lemma NegatedFactor(z: int, h: int)
    ensures -z * h == -(z * h)
  {
  }

  function TransformedBlock(s: seq<Residue>, len: nat, table: Residue, inverse: bool): (r: seq<Residue>)
    requires |s| == 2 * len
    ensures |r| == 2 * len
  {
    if inverse then
      Combine(s[..len], 1, s[len..]) + ScaledDifference(s[..len], -(table as int), s[len..])
    else
      Combine(s[..len], table, s[len..]) + Combine(s[..len], -(table as int), s[len..])
  }

  lemma LowerValues(s: seq<Residue>, len: nat, table: Residue, inverse: bool, x: nat)
    requires |s| == 2 * len && x < len
    ensures TransformedBlock(s, len, table, inverse)[x] == Lower(s[x], s[x + len], table, inverse)
  {
    ButterflyValues(s[x], s[x + len], table);
  }

  lemma UpperValues(s: seq<Residue>, len: nat, table: Residue, inverse: bool, x: nat)
    requires |s| == 2 * len && x < len
    ensures TransformedBlock(s, len, table, inverse)[x + len] == Upper(s[x], s[x + len], table, inverse)
  {
    ButterflyValues(s[x], s[x + len], table);
  }

  lemma BlockValues(s: seq<Residue>, r: seq<Residue>, len: nat, table: Residue, inverse: bool)
    requires |s| == |r| == 2 * len
    requires forall x :: 0 <= x < len ==> r[x] == Lower(s[x], s[x + len], table, inverse)
    requires forall x :: len <= x < 2 * len ==> r[x] == Upper(s[x - len], s[x], table, inverse)
    ensures r == TransformedBlock(s, len, table, inverse)
  {
    var t := TransformedBlock(s, len, table, inverse);
    forall x | 0 <= x < 2 * len ensures r[x] == t[x] {
      if x < len {
        LowerValues(s, len, table, inverse, x);
      } else {
        UpperValues(s, len, table, inverse, x - len);
      }
    }
  }

  method TransformBlock(values: array<Residue>, start: nat, length: nat, table: Residue, inverse: bool)
    requires start + 2 * length <= values.Length
    modifies values
    ensures forall x :: 0 <= x < start || start + 2 * length <= x < values.Length ==> values[x] == old(values[x])
    ensures forall x :: start <= x < start + length
                    ==> values[x] == Lower(old(values[x]), old(values[x + length]), table, inverse)
    ensures forall x :: start + length <= x < start + 2 * length
                    ==> values[x] == Upper(old(values[x - length]), old(values[x]), table, inverse)
  {
    var zeta := if inverse then ElemNeg(table) else table;
    var i := start;
    while i < start + length
      invariant start <= i <= start + length
      invariant forall x :: 0 <= x < start || start + 2 * length <= x < values.Length ==> values[x] == old(values[x])
      invariant forall x :: i <= x < start + length || i + length <= x < start + 2 * length
                        ==> values[x] == old(values[x])
      invariant forall x :: start <= x < i
                        ==> values[x] == Lower(old(values[x]), old(values[x + length]), table, inverse)
      invariant forall x :: start + length <= x < i + length
                        ==> values[x] == Upper(old(values[x - length]), old(values[x]), table, inverse)
    {
      var left := values[i];
      if inverse {
        values[i] := ElemAdd(left, values[i + length]);
        values[i + length] := ElemMul(zeta, ElemSub(left, values[i + length]));
      } else {
        var right := ElemMul(zeta, values[i + length]);
        values[i] := ElemAdd(left, right);
        values[i + length] := ElemSub(left, right);
      }
      i := i + 1;
    }
  }

  // ---------- One layer ----------

  /** The layer whose next twiddle index is k. */
  function Layer(s: seq<Residue>, len: nat, k: int, inverse: bool): (r: seq<Residue>)
    requires len > 0
    ensures |r| == |s|
  {
    if inverse then InverseLayer(s, len, k) else ForwardLayer(s, len, k)
  }

  function NextTwiddle(k: int, inverse: bool): int { if inverse then k - 1 else k + 1 }

  lemma LayerFirstBlock(s: seq<Residue>, len: nat, k: int, inverse: bool)
    requires len > 0 && 2 * len <= |s| && 0 <= k < 256
    ensures Layer(s, len, k, inverse)
         == TransformedBlock(s[..2 * len], len, ZETAS[k], inverse)
            + Layer(s[2 * len..], len, NextTwiddle(k, inverse), inverse)
  {
    hide Combine, ScaledDifference, Zeta;
    assert s[..2 * len][..len] == s[..len];
    assert s[..2 * len][len..] == s[len..2 * len];
  }

  lemma LayerAt(s: seq<Residue>, start: nat, len: nat, k: int, inverse: bool)
    requires len > 0 && start + 2 * len <= |s| && 0 <= k < 256
    ensures Layer(s[start..], len, k, inverse)
         == TransformedBlock(s[start..start + 2 * len], len, ZETAS[k], inverse)
            + Layer(s[start + 2 * len..], len, NextTwiddle(k, inverse), inverse)
  {
    LayerFirstBlock(s[start..], len, k, inverse);
    assert s[start..][..2 * len] == s[start..start + 2 * len];
    assert s[start..][2 * len..] == s[start + 2 * len..];
  }

  /** One step of the layer loop, on values: the finished prefix grows by a block. */
  lemma LayerProgress(whole: seq<Residue>, before: seq<Residue>, after: seq<Residue>,
                      start: nat, len: nat, k: int, inverse: bool)
    requires len > 0 && |before| == |after| && start + 2 * len <= |before| && 0 <= k < 256
    requires whole == before[..start] + Layer(before[start..], len, k, inverse)
    requires after[..start] == before[..start]
    requires after[start..start + 2 * len]
          == TransformedBlock(before[start..start + 2 * len], len, ZETAS[k], inverse)
    requires after[start + 2 * len..] == before[start + 2 * len..]
    ensures whole == after[..start + 2 * len] + Layer(after[start + 2 * len..], len, NextTwiddle(k, inverse), inverse)
  {
    hide Layer, TransformedBlock;
    LayerAt(before, start, len, k, inverse);
    Splice(whole, before, after, start, 2 * len,
           Layer(after[start + 2 * len..], len, NextTwiddle(k, inverse), inverse));
  }

  lemma Splice(whole: seq<Residue>, before: seq<Residue>, after: seq<Residue>, start: nat, n: nat, tail: seq<Residue>)
    requires start + n <= |before| == |after| && after[..start] == before[..start]
    requires whole == before[..start] + (after[start..start + n] + tail)
    ensures whole == after[..start + n] + tail
  {
    assert after[..start + n] == after[..start] + after[start..start + n];
  }

  method TransformOneBlock(values: array<Residue>, start: nat, length: nat, k: nat, inverse: bool,
                           ghost whole: seq<Residue>)
    requires length > 0 && start + 2 * length <= values.Length && k < 256
    requires whole == values[..start] + Layer(values[start..], length, k, inverse)
    modifies values
    ensures whole == values[..start + 2 * length]
                     + Layer(values[start + 2 * length..], length, NextTwiddle(k, inverse), inverse)
  {
    hide Layer, TransformedBlock, Lower, Upper;
    ghost var before := values[..];
    TransformBlock(values, start, length, ZETAS[k], inverse);
    ghost var after := values[..];
    assert after[..start] == before[..start];
    assert after[start + 2 * length..] == before[start + 2 * length..];
    BlockValues(before[start..start + 2 * length], after[start..start + 2 * length], length, ZETAS[k], inverse);
    assert before[..start] == old(values[..start]) && before[start..] == old(values[start..]);
    LayerProgress(whole, before, after, start, length, k, inverse);
    assert after[..start + 2 * length] == values[..start + 2 * length];
    assert after[start + 2 * length..] == values[start + 2 * length..];
  }

  lemma NextBlockFits(length: nat, b: nat, blocks: nat)
    requires b < blocks
    ensures 2 * length * b + 2 * length == 2 * length * (b + 1) <= 2 * length * blocks
  {
    MulMonotone(2 * length, b + 1, blocks);
  }

  /** The middle loop: all blocks of one layer, the twiddle counter moving before each. */
  method TransformLayer(values: array<Residue>, length: nat, twiddle0: nat, inverse: bool, ghost blocks: nat)
    returns (twiddle: nat)
    requires length > 0 && values.Length == 256 == 2 * length * blocks && blocks > 0
    requires if inverse then blocks <= twiddle0 <= 256 else twiddle0 + blocks < 256
    modifies values
    ensures values[..] == Layer(old(values[..]), length, NextTwiddle(twiddle0, inverse), inverse)
    ensures twiddle == if inverse then twiddle0 - blocks else twiddle0 + blocks
  {
    hide Layer;
    ghost var whole := Layer(values[..], length, NextTwiddle(twiddle0, inverse), inverse);
    twiddle := twiddle0;
    var start := 0;
    ghost var b := 0;
    assert values[0..] == values[..];
    while start < 256
      invariant 0 <= b <= blocks && start == 2 * length * b <= 256
      invariant twiddle == if inverse then twiddle0 - b else twiddle0 + b
      invariant whole == values[..start] + Layer(values[start..], length, NextTwiddle(twiddle, inverse), inverse)
    {
      NextBlockFits(length, b, blocks);
      twiddle := if inverse then twiddle - 1 else twiddle + 1;
      TransformOneBlock(values, start, length, twiddle, inverse, whole);
      start := start + 2 * length;
      b := b + 1;
    }
    assert b == blocks by {
      if b < blocks {
        NextBlockFits(length, b, blocks);
      }
    }
    assert values[..256] == values[..] && values[256..] == [];
    assert Layer(values[256..], length, NextTwiddle(twiddle, inverse), inverse) == [];
  }

  // ---------- All layers ----------

  /** The transform, in place, in either direction. */
  method Transform(values: array<Residue>, inverse: bool)
    requires values.Length == 256
    modifies values
    ensures values[..] == if inverse then Inverse(old(values[..])) else Forward(old(values[..]))
  {
    hide ForwardLayer, InverseLayer;
    ghost var p := values[..];
    var twiddle := if inverse then 256 else 0;
    var layer := 0;
    while layer < 8
      invariant 0 <= layer <= 8
      invariant twiddle == if inverse then Pow(2, 8 - layer) else Pow(2, layer) - 1
      invariant values[..] == if inverse then InverseUpTo(p, layer) else ForwardDownTo(p, 8 - layer)
    {
      var exponent := if inverse then layer else 7 - layer;
      var length := Pow(2, exponent);
      LayerCounts(exponent);
      twiddle := TransformLayer(values, length, twiddle, inverse, Pow(2, 7 - exponent));
      layer := layer + 1;
    }
    if inverse {
      ScaleInPlace(values);
    }
  }

  lemma LayerCounts(j: nat)
    requires j <= 7
    ensures Pow(2, j) > 0 && Pow(2, 7 - j) > 0 && 2 * Pow(2, j) * Pow(2, 7 - j) == 256
    ensures Pow(2, 8 - j) == 2 * Pow(2, 7 - j) <= 256
  {
    PowPositive(2, j);
    PowPositive(2, 7 - j);
    PowAdd(2, j, 7 - j);
    PowersOfTwo();
    assert 2 * Pow(2, j) * Pow(2, 7 - j) == 2 * (Pow(2, j) * Pow(2, 7 - j));
  }

  /** Multiplies every value by 256^(-1). */
  method ScaleInPlace(values: array<Residue>)
    modifies values
    ensures values[..] == Scale(old(values[..]), INVERSE_256)
  {
    var i := 0;
    while i < values.Length
      invariant 0 <= i <= values.Length
      invariant forall x :: 0 <= x < i ==> values[x] == ElemMul(INVERSE_256, old(values[x]))
      invariant forall x :: i <= x < values.Length ==> values[x] == old(values[x])
    {
      values[i] := ElemMul(INVERSE_256, values[i]);
      i := i + 1;
    }
  }
}
