/** When the error budget of the protocol is met: the bounds a fresh encryption,
    the server's scaling and the answer noise contribute, under the parameters
    the program insists on (src/include/utils.h, src/utils.cpp). */
module Budgets {
  import opened ModArith
  import opened Ring
  import opened Encoding
  import opened Prf
  import opened Hints
  import opened Answering

  /** A fresh encryption with coefficient error at most e carries its plaintext. */
  lemma FreshEncryptionCarries(w: World, c: Cipher, r: nat, m: int, error: int, e: nat)
    requires w.pp.Valid() && |w.sk| == w.pp.n && c.Valid(w.pp.n, w.pp.q) && r < w.pp.n
    requires -(e as int) <= error <= e && Phase(c, w.sk, w.pp.q)[r] == (Delta(m, w.pp.p, w.pp.q) + error) % w.pp.q
    ensures w.Carries(c, r, m, w.pp.p * e + w.pp.p)
  {
    DeltaEncodes(m, error, e, w.pp.p, w.pp.q);
  }

  /** A scaled value within d of b * q / p carries b. */
  lemma ScaledCarries(x: int, b: int, d: nat, p: int, q: int)
    requires 0 < p && 0 < q && q * b - p * d <= p * x <= q * b + p * d
    ensures EncodesWithin(x % q, b, p * d, p, q)
  {
    EncodesIntro(x, b, p * x - q * b, p, q, 0);
    EncodesReduced(x, b, p * x - q * b, p, q);
  }

  /** With a 54-bit modulus q, a 20-bit p, at most 2^15 partitions, encryption
      errors up to 2^17, scaling off by up to 2^20 and answer noise up to 2^26
      (sixteen standard deviations), every answer decodes. */
  lemma ProtocolBudget(w: World, e: nat)
    requires w.Valid() && 0x20_0000_0000_0000 <= w.pp.q && w.pp.p < 0x10_0000
    requires e <= 0x2_0000 && w.encBound <= w.pp.p * e + w.pp.p
    requires w.scaleBound <= w.pp.p * 0x10_0000 && w.noiseBound <= w.pp.p * 0x400_0000
    ensures Budget(w)
  {
    var half, p := Half(w.pp), w.pp.p;
    MulLe(e, 0x2_0000, p);
    MulLe(p, 0x10_0000, 0x2_0001);
    assert w.encBound <= 0x10_0000 * 0x2_0001;
    TimesIsProduct(half + 2, w.encBound);
    MulLe(half + 2, 0x4002, w.encBound);
  }

  lemma NoiseBounded(w: World, noise: int)
    requires w.Valid() && w.noiseBound == w.pp.p * 0x400_0000
    ensures w.NoiseOk(noise) <==> -0x400_0000 <= noise <= 0x400_0000
  {
    var p := w.pp.p;
    TimesIsProduct(p, noise);
    if -0x400_0000 <= noise <= 0x400_0000 {
      MulLe(noise, 0x400_0000, p);
      MulLe(-0x400_0000, noise, p);
    } else if noise < 0 {
      MulLt(noise, -0x400_0000, p);
    } else {
      MulLt(0x400_0000, noise, p);
    }
  }

  // The assumptions on a world can be met, whatever the database and the PRF.

  lemma ZeroSummand(s: Poly, i: nat, q: int)
    requires 0 < q && i < |s|
    ensures Summand(Zero(|s|), s, i, q) == Zero(|s|)
  {
    ShiftZero(|s|, i, q);
    SmallMod(0, q);
    var z, x := Zero(|s|), s[i];
    assert 0 * x == 0;
    assert Scale(z, x, q) == z;
  }

  lemma {:induction false} ZeroProduct(s: Poly, k: nat, q: int)
    requires 0 < q && k <= |s|
    ensures PartialProduct(Zero(|s|), s, k, q) == Zero(|s|)
  {
    hide Add, Summand;
    if k == 0 {
    } else {
      ZeroProduct(s, k - 1, q);
      ZeroSummand(s, k - 1, q);
      AddZeros(|s|, q);
    }
  }

  /** The noiseless encryption of a partition: no randomness, no error. */
  function Noiseless(pp: Params, row: seq<nat>): (c: Cipher)
    requires 0 < pp.p && 0 < pp.q && |row| <= pp.n
  {
    Cipher(seq(pp.n, i requires 0 <= i < pp.n => if i < |row| then Delta(row[i], pp.p, pp.q) % pp.q else 0), Zero(pp.n))
  }

  /** The world in which encryption and scaling are as exact as rounding allows. */
  function NoiselessWorld(pp: Params, f: PrfFn, rows: seq<seq<nat>>): (w: World)
    requires 0 < pp.p && 0 < pp.q
    requires forall k :: 0 <= k < |rows| ==> |rows[k]| <= pp.n
  {
    World(pp, f, rows, Zero(pp.n),
          seq(|rows|, k requires 0 <= k < |rows| => Noiseless(pp, rows[k])),
          b => if 0 < pp.p && 0 < pp.q then Delta(b, pp.p, pp.q) % pp.q else 0, pp.p, pp.p, 0)
  }

  lemma NoiselessPhase(pp: Params, row: seq<nat>, r: nat)
    requires pp.Valid() && |row| <= pp.n && r < |row|
    ensures Noiseless(pp, row).Valid(pp.n, pp.q)
    ensures Phase(Noiseless(pp, row), Zero(pp.n), pp.q)[r] == Delta(row[r], pp.p, pp.q) % pp.q
  {
    ZeroProduct(Zero(pp.n), pp.n, pp.q);
  }

  /** Every database and every pseudorandom function has a valid world. */
  lemma NoiselessWorldValid(pp: Params, f: PrfFn, rows: seq<seq<nat>>)
    requires pp.Valid() && |rows| == pp.partNum
    requires forall k :: 0 <= k < |rows| ==> |rows[k]| == pp.partSize
    requires forall k, r :: 0 <= k < |rows| && 0 <= r < pp.partSize ==> rows[k][r] < pp.p
    ensures NoiselessWorld(pp, f, rows).Valid()
  {
    var w := NoiselessWorld(pp, f, rows);
    forall k | 0 <= k < pp.partNum
      ensures w.PartitionOk(k)
    {
      forall r | 0 <= r < pp.partSize
        ensures rows[k][r] < pp.p && w.encDB[k].Valid(pp.n, pp.q) && w.Carries(w.encDB[k], r, rows[k][r], w.encBound)
      {
        NoiselessPhase(pp, rows[k], r);
        DeltaEncodes(rows[k][r], 0, 0, pp.p, pp.q);
      }
    }
    forall b: nat | 0 <= b < pp.p
      ensures w.ScaleOk(b)
    {
      DeltaEncodes(b, 0, 0, pp.p, pp.q);
    }
  }
}
