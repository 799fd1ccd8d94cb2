/** The masked parity the client sends, the two candidate answers the server
    computes from it, and what the client decodes (src/client_main.cpp,
    src/server.cpp). */
module Answering {
  import opened ModArith
  import Words
  import Sampling
  import opened Ring
  import opened Encoding
  import opened Prf
  import opened Hints
  import opened Query

  /** The parity, randomised by an encryption of zero, with the mask added to
      the coefficient the answer is read from. */
  function Masked(pp: Params, parity: Cipher, zero: Cipher, mask: nat): Cipher
    requires 0 < pp.q && |parity.c0| == |zero.c0| && |parity.c1| == |zero.c1|
    requires 0 < pp.partSize <= |parity.c0|
  {
    AddToCoefficient(AddCipher(parity, zero, pp.q), pp.partSize - 1, mask, pp.q)
  }

  /** The coefficient answers are read from, after decryption without scaling. */
  ghost function Last(w: World, c: Cipher): (x: int)
    requires w.Valid() && c.Valid(w.pp.n, w.pp.q)
    ensures InRange(x, w.pp.q)
  {
    Phase(c, w.sk, w.pp.q)[w.pp.partSize - 1]
  }

  /** A candidate answer: the query's phase less the scaled sum of one group,
      plus noise. */
  ghost function Reply(w: World, c: Cipher, sum: int, noise: int): (a: int)
    requires w.Valid() && c.Valid(w.pp.n, w.pp.q)
    ensures 0 <= a < w.pp.q
  {
    (Last(w, c) - w.scale(sum % w.pp.p) + noise) % w.pp.q
  }

  ghost function Answer(w: World, bits: seq<bool>, offs: seq<nat>, c: Cipher, group: bool, noise: int): (a: int)
    requires w.Valid() && c.Valid(w.pp.n, w.pp.q)
    requires |bits| == |offs| == w.pp.partNum && forall k :: 0 <= k < |offs| ==> offs[k] < w.pp.partSize
    ensures 0 <= a < w.pp.q
  {
    Reply(w, c, GroupSum(w, bits, offs, group), noise)
  }

  /** A candidate answer from the query's coefficients and the key's. */
  lemma AnswerCoefficients(w: World, bits: seq<bool>, offs: seq<nat>, c: Cipher, group: bool, noise: int)
    requires w.Valid() && c.Valid(w.pp.n, w.pp.q)
    requires |bits| == |offs| == w.pp.partNum && forall k :: 0 <= k < |offs| ==> offs[k] < w.pp.partSize
    ensures var last := w.pp.partSize - 1;
      Answer(w, bits, offs, c, group, noise)
      == (c.c0[last] + Convolution(c.c1, w.sk, last, w.pp.n)
          - w.scale(GroupSum(w, bits, offs, group) % w.pp.p) + noise) % w.pp.q
  {
    hide GroupSum, Phase, Convolution;
    var last := w.pp.partSize - 1;
    PhaseCoefficient(c, w.sk, last, w.pp.q);
    var x := c.c0[last] + Convolution(c.c1, w.sk, last, w.pp.n);
    CongAddMod(x, noise - w.scale(GroupSum(w, bits, offs, group) % w.pp.p), w.pp.q);
  }

  /** Unmask, then scale and round. */
  function Decode(pp: Params, answer: int, mask: nat): (m: nat)
    requires 0 < pp.p && 0 < pp.q
    ensures m < pp.p
  {
    ScaleAndRound((answer - mask) % pp.q, pp.p, pp.q)
  }

  /** All the error one answer can carry stays below half the modulus. */
  ghost predicate Budget(w: World)
    requires w.Valid()
  {
    2 * (HintBound(w) + w.encBound + w.scaleBound + w.noiseBound) < w.pp.q
  }

  /** The mask cancels, whatever it is. */
  lemma MaskCancels(x: int, mask: int, s: int, e: int, q: int)
    requires 0 < q
    ensures (((x + mask) % q - s + e) % q - mask) % q == ((x - s) % q + e) % q
  {
    CongMod(x + mask, q);
    CongAdd((x + mask) % q, x + mask, e - s, e - s, q);
    CongMod((x + mask) % q - s + e, q);
    CongAdd(((x + mask) % q - s + e) % q, x + mask - s + e, -mask, -mask, q);
    CongAddMod(x - s, e, q);
  }

  /** Whatever the coefficient x, exactly one mask turns it into y. */
  lemma MaskUnique(x: int, y: int, mask: int, q: int)
    requires 0 <= y < q && 0 <= mask < q
    ensures (x + mask) % q == y <==> mask == (y - x) % q
  {
    SmallMod(y, q);
    SmallMod(mask, q);
    assert Cong(x + mask, y, q) ==> Cong(mask, y - x, q) by {
      if Cong(x + mask, y, q) {
        CongSub(x + mask, y, x, x, q);
      }
    }
    CongAddMod(x, y - x, q);
  }

  /** So a mask drawn by rejection sampling makes every masked coefficient equally
      likely: the same number of accepted random words leads to each y. */
  lemma MaskedUniform(x: int, y: int, q: Words.U64, accepted: set<int>)
    requires 0 <= y < q
    requires forall v :: v in accepted <==>
      Sampling.Threshold(q) <= v < Words.B64 && (x + v % q) % q == y
    ensures |accepted| == (Words.B64 - Sampling.Threshold(q)) / q
  {
    var r := (y - x) % q;
    forall v | Sampling.Threshold(q) <= v < Words.B64
      ensures (x + v % q) % q == y <==> v % q == r
    {
      MaskUnique(x, y, v % q, q);
    }
    Sampling.SamplingUniform(q, r, accepted);
  }

  /** The masked query's phase where the answer is read. */
  lemma MaskedPhase(w: World, parity: Cipher, zero: Cipher, mask: nat) returns (x: int)
    requires w.Valid() && parity.Valid(w.pp.n, w.pp.q) && zero.Valid(w.pp.n, w.pp.q)
    ensures Masked(w.pp, parity, zero, mask).Valid(w.pp.n, w.pp.q)
    ensures x == (Last(w, parity) + Last(w, zero)) % w.pp.q
    ensures Last(w, Masked(w.pp, parity, zero, mask)) == (x + mask) % w.pp.q
  {
    var sum := AddCipher(parity, zero, w.pp.q);
    PhaseAddAt(parity, zero, w.pp.partSize - 1, w.sk, w.pp.q);
    x := Last(w, sum);
    PhaseAddToCoefficient(sum, w.pp.partSize - 1, mask, w.sk, w.pp.q);
  }

  lemma MaskedValid(w: World, parity: Cipher, zero: Cipher, mask: nat)
    requires w.Valid() && parity.Valid(w.pp.n, w.pp.q) && zero.Valid(w.pp.n, w.pp.q)
    ensures Masked(w.pp, parity, zero, mask).Valid(w.pp.n, w.pp.q)
  {
    var x := MaskedPhase(w, parity, zero, mask);
  }

  /** The noise term carries plaintext zero. */
  lemma NoiseEncodesZero(noise: int, bound: int, p: int, q: int)
    requires 0 < p && 0 < q && -bound <= Times(p, noise) <= bound
    ensures EncodesWithin(noise, 0, bound, p, q)
  {
    TimesIsProduct(p, noise);
    EncodesIntro(noise, 0, p * noise, p, q, 0);
  }

  /** Adding an encryption of zero, subtracting an encoded sum and adding noise
      subtracts the sum from the plaintext and adds up the bounds. */
  lemma CombinedEncodes(x: int, m: int, b: int, z: int, zb: int, s: int, sum: int, sb: int, e: int, eb: int,
                        p: int, q: int)
    requires 0 < p && 0 < q
    requires EncodesWithin(x, m, b, p, q) && EncodesWithin(z, 0, zb, p, q)
    requires EncodesWithin(s, sum, sb, p, q) && EncodesWithin(e, 0, eb, p, q)
    ensures EncodesWithin((((x + z) % q - s) % q + e) % q, m - sum, b + zb + sb + eb, p, q)
  {
    WithinSum(x, m, b, z, 0, zb, p, q);
    WithinDifference((x + z) % q, m, b + zb, s, sum, sb, p, q);
    WithinSum(((x + z) % q - s) % q, m - sum, b + zb + sb, e, 0, eb, p, q);
  }

  /** The client's decoding of a coefficient x that was masked, answered and
      unmasked. */
  lemma CombinedDecodes(v: int, m: int, b: int, z: int, zb: int, x: int, mask: int, masked: int,
                        s: int, sum: int, sb: int, e: int, eb: int, answer: int, p: int, q: int)
    requires 0 < p && 0 < q && 2 * (b + zb + sb + eb) < q
    requires EncodesWithin(v, m, b, p, q) && EncodesWithin(z, 0, zb, p, q)
    requires EncodesWithin(s, sum % p, sb, p, q) && EncodesWithin(e, 0, eb, p, q)
    requires x == (v + z) % q && masked == (x + mask) % q && answer == (masked - s + e) % q
    ensures ScaleAndRound((answer - mask) % q, p, q) == (m - sum) % p
  {
    MaskCancels(x, mask, s, e, q);
    CombinedEncodes(v, m, b, z, zb, s, sum % p, sb, e, eb, p, q);
    DecodeWithin(((x - s) % q + e) % q, m - sum % p, b + zb + sb + eb, p, q);
    CongMod(sum, p);
    CongSub(m, m, sum % p, sum, p);
  }

  /** Decoding an answer: the parity's plaintext less the group's sum. */
  lemma ReplyDecodes(w: World, parity: Cipher, m: int, zero: Cipher, mask: nat, sum: int, noise: int, query: Cipher)
    requires w.Valid() && Budget(w) && w.NoiseOk(noise)
    requires w.Holds(parity, m, HintBound(w)) && w.Holds(zero, 0, w.encBound)
    requires query == Masked(w.pp, parity, zero, mask)
    ensures query.Valid(w.pp.n, w.pp.q)
    ensures Decode(w.pp, Reply(w, query, sum, noise), mask) == (m - sum) % w.pp.p
  {
    var x := MaskedPhase(w, parity, zero, mask);
    assert w.ScaleOk(sum % w.pp.p);
    NoiseEncodesZero(noise, w.noiseBound, w.pp.p, w.pp.q);
    CombinedDecodes(Last(w, parity), m, HintBound(w), Last(w, zero), w.encBound, x, mask, Last(w, query),
                    w.scale(sum % w.pp.p), sum, w.scaleBound, noise, w.noiseBound,
                    Reply(w, query, sum, noise), w.pp.p, w.pp.q);
  }

  /** When the group's sum is the plaintext without one entry, that entry is left. */
  lemma EntryLeft(w: World, parity: Cipher, m: int, zero: Cipher, mask: nat, sum: int, noise: int, query: Cipher,
                  entry: nat)
    requires w.Valid() && Budget(w) && w.NoiseOk(noise)
    requires w.Holds(parity, m, HintBound(w)) && w.Holds(zero, 0, w.encBound)
    requires query == Masked(w.pp, parity, zero, mask)
    requires sum == m - entry && entry < w.pp.p
    ensures query.Valid(w.pp.n, w.pp.q)
    ensures Decode(w.pp, Reply(w, query, sum, noise), mask) == entry
  {
    ReplyDecodes(w, parity, m, zero, mask, sum, noise, query);
    assert m - sum == entry;
    SmallMod(entry, w.pp.p);
  }

  lemma SlotHolds(w: World, t: Table, h: nat)
    requires w.Valid() && t.Shape(w.pp) && h < w.pp.M() && SlotOk(w, t, h) && t.cutoff[h] != 0
    ensures ActiveShape(w, t, h) && w.Holds(t.parity[h], SlotSum(w, t, h), HintBound(w))
  {
  }

  /** End to end: from a valid slot covering the query, for either flip, either
      indicator, and the query being the extra entry or a regular one, the client
      decodes the database entry. */
  lemma DecodesQueriedEntry(w: World, t: Table, h: nat, part: nat, offset: nat, c: nat, flip: bool,
                            zero: Cipher, mask: nat, noise: int)
    requires w.Valid() && Budget(w) && t.Shape(w.pp)
    requires h < w.pp.M() && part < w.pp.partNum && offset < w.pp.partSize
    requires SlotOk(w, t, h) && Covers(w.pp, w.f, t, part, offset, h)
    requires w.Holds(zero, 0, w.encBound) && w.NoiseOk(noise)
    ensures t.parity[h].Valid(w.pp.n, w.pp.q) && Masked(w.pp, t.parity[h], zero, mask).Valid(w.pp.n, w.pp.q)
    ensures forall k :: 0 <= k < w.pp.partNum ==> QueryOffsets(w.pp, w.f, t, h, part, c)[k] < w.pp.partSize
    ensures Decode(w.pp, Answer(w, QueryBits(w.pp, w.f, t, h, part, flip), QueryOffsets(w.pp, w.f, t, h, part, c),
                                Masked(w.pp, t.parity[h], zero, mask), t.Ind(h) != flip, noise), mask)
         == Entry(w, part, offset)
  {
    SlotHolds(w, t, h);
    RealGroupSum(w, t, h, part, offset, c, flip);
    EntryLeft(w, t.parity[h], SlotSum(w, t, h), zero, mask,
              GroupSum(w, QueryBits(w.pp, w.f, t, h, part, flip), QueryOffsets(w.pp, w.f, t, h, part, c),
                       t.Ind(h) != flip),
              noise, Masked(w.pp, t.parity[h], zero, mask), Entry(w, part, offset));
  }
}
