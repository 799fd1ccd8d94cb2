/** Plaintext residues inside a noisy ciphertext coefficient.  A coefficient x
    modulo q carries the plaintext m modulo p with error eps when
    p * x = q * m + eps modulo p * q; the error is counted in units of 1/p. */
module Encoding {
  import opened ModArith

  /** y / d rounded to the nearest integer, halves upwards. */
  function RoundDiv(y: int, d: int): int
    requires 0 < d
  {
    (2 * y + d) / (2 * d)
  }

  /** The coefficient add_plain contributes for plaintext m: q * m / p, rounded. */
  function Delta(m: int, p: int, q: int): int
    requires 0 < p
  {
    RoundDiv(q * m, p)
  }

  /** decrypt_scale_and_round on one coefficient: p * x / q, rounded, modulo p. */
  function ScaleAndRound(x: int, p: int, q: int): int
    requires 0 < p && 0 < q
  {
    RoundDiv(p * x, q) % p
  }

  ghost predicate Encodes(x: int, m: int, eps: int, p: int, q: int)
    requires 0 < p && 0 < q
  {
    exists k :: Times(p, x) == Times(q, m) + eps + Times(p, Times(q, k))
  }

  ghost predicate EncodesWithin(x: int, m: int, bound: int, p: int, q: int)
    requires 0 < p && 0 < q
  {
    exists eps :: -bound <= eps <= bound && Encodes(x, m, eps, p, q)
  }

  lemma ProductOfThree(p: nat, q: nat, k: int)
    ensures Times(p, Times(q, k)) == k * (p * q)
  {
    TimesIsProduct(q, k);
    TimesIsProduct(p, q * k);
    MulAssoc(p, q, k);
  }

  lemma EncodesIntro(x: int, m: int, eps: int, p: int, q: int, k: int)
    requires 0 < p && 0 < q && p * x == q * m + eps + k * (p * q)
    ensures Encodes(x, m, eps, p, q)
  {
    TimesIsProduct(p, x);
    TimesIsProduct(q, m);
    ProductOfThree(p, q, k);
  }

  lemma EncodesElim(x: int, m: int, eps: int, p: int, q: int) returns (k: int)
    requires 0 < p && 0 < q && Encodes(x, m, eps, p, q)
    ensures p * x == q * m + eps + k * (p * q)
  {
    k :| Times(p, x) == Times(q, m) + eps + Times(p, Times(q, k));
    TimesIsProduct(p, x);
    TimesIsProduct(q, m);
    ProductOfThree(p, q, k);
  }

  /** Reducing the coefficient changes p * x by a multiple of p * q. */
  lemma EncodesReduced(x: int, m: int, eps: int, p: int, q: int)
    requires 0 < p && 0 < q && Encodes(x, m, eps, p, q)
    ensures Encodes(x % q, m, eps, p, q)
  {
    var k := EncodesElim(x, m, eps, p, q);
    var d := x / q;
    assert x == d * q + x % q;
    MulDist(d * q, x % q, p);
    MulSwap(d, q, p);
    MulAssoc(d, p, q);
    MulDist(k, -d, p * q);
    EncodesIntro(x % q, m, eps, p, q, k - d);
  }

  /** Only the plaintext's residue matters. */
  lemma EncodesCongruent(x: int, m: int, m': int, eps: int, p: int, q: int)
    requires 0 < p && 0 < q && Encodes(x, m, eps, p, q) && Cong(m, m', p)
    ensures Encodes(x, m', eps, p, q)
  {
    var k := EncodesElim(x, m, eps, p, q);
    var l := CongElim(m, m', p);
    MulDist(m', l * p, q);
    MulAssoc(l, p, q);
    MulDist(k, l, p * q);
    EncodesIntro(x, m', eps, p, q, k + l);
  }

  lemma EncodesSum(x: int, m: int, e: int, x': int, m': int, e': int, p: int, q: int)
    requires 0 < p && 0 < q && Encodes(x, m, e, p, q) && Encodes(x', m', e', p, q)
    ensures Encodes((x + x') % q, m + m', e + e', p, q)
  {
    var k := EncodesElim(x, m, e, p, q);
    var l := EncodesElim(x', m', e', p, q);
    MulDist(x, x', p);
    MulDist(m, m', q);
    MulDist(k, l, p * q);
    EncodesIntro(x + x', m + m', e + e', p, q, k + l);
    EncodesReduced(x + x', m + m', e + e', p, q);
  }

  lemma EncodesDifference(x: int, m: int, e: int, x': int, m': int, e': int, p: int, q: int)
    requires 0 < p && 0 < q && Encodes(x, m, e, p, q) && Encodes(x', m', e', p, q)
    ensures Encodes((x - x') % q, m - m', e - e', p, q)
  {
    var k := EncodesElim(x, m, e, p, q);
    var l := EncodesElim(x', m', e', p, q);
    MulSub(p, x, x');
    MulSub(q, m, m');
    MulDist(k, -l, p * q);
    EncodesIntro(x - x', m - m', e - e', p, q, k - l);
    EncodesReduced(x - x', m - m', e - e', p, q);
  }

  lemma WithinSum(x: int, m: int, b: int, x': int, m': int, b': int, p: int, q: int)
    requires 0 < p && 0 < q && EncodesWithin(x, m, b, p, q) && EncodesWithin(x', m', b', p, q)
    ensures EncodesWithin((x + x') % q, m + m', b + b', p, q)
  {
    var e :| -b <= e <= b && Encodes(x, m, e, p, q);
    var e' :| -b' <= e' <= b' && Encodes(x', m', e', p, q);
    EncodesSum(x, m, e, x', m', e', p, q);
  }

  lemma WithinDifference(x: int, m: int, b: int, x': int, m': int, b': int, p: int, q: int)
    requires 0 < p && 0 < q && EncodesWithin(x, m, b, p, q) && EncodesWithin(x', m', b', p, q)
    ensures EncodesWithin((x - x') % q, m - m', b + b', p, q)
  {
    var e :| -b <= e <= b && Encodes(x, m, e, p, q);
    var e' :| -b' <= e' <= b' && Encodes(x', m', e', p, q);
    EncodesDifference(x, m, e, x', m', e', p, q);
  }

  lemma WithinWeaker(x: int, m: int, b: int, b': int, p: int, q: int)
    requires 0 < p && 0 < q && EncodesWithin(x, m, b, p, q) && b <= b'
    ensures EncodesWithin(x, m, b', p, q)
  {
    var e :| -b <= e <= b && Encodes(x, m, e, p, q);
    assert -b' <= e <= b';
  }

  lemma RoundDivBounds(y: int, d: int)
    requires 0 < d
    ensures -d <= 2 * (y - d * RoundDiv(y, d)) < d
  {
    var r := RoundDiv(y, d);
    assert 2 * y + d == r * (2 * d) + (2 * y + d) % (2 * d);
    assert r * (2 * d) == 2 * (d * r) by { MulSwap(r, 2, d); MulAssoc(r, 2, d); }
  }

  /** add_plain's coefficient is the integer nearest to q * m / p. */
  lemma DeltaNearest(m: int, p: int, q: int)
    requires 0 < p
    ensures -p <= 2 * (q * m - p * Delta(m, p, q)) < p
  {
    RoundDivBounds(q * m, p);
  }

  lemma RoundDivUnique(y: int, d: int, r: int)
    requires 0 < d && -d <= 2 * (y - d * r) < d
    ensures RoundDiv(y, d) == r
  {
    assert r * (2 * d) == 2 * (d * r) by { MulSwap(r, 2, d); MulAssoc(r, 2, d); }
    DivModUnique(2 * y + d, 2 * d, r, 2 * y + d - r * (2 * d));
  }

  /** Decoding is right exactly when the centred error is below q / 2. */
  lemma DecodeIff(x: int, m: int, p: int, q: int)
    requires 0 < p && 0 < q
    ensures ScaleAndRound(x, p, q) == m % p
       <==> exists eps :: -q <= 2 * eps < q && Encodes(x, m, eps, p, q)
  {
    if ScaleAndRound(x, p, q) == m % p {
      var r := RoundDiv(p * x, q);
      RoundDivBounds(p * x, q);
      var eps := p * x - q * r;
      EncodesIntro(x, r, eps, p, q, 0);
      EncodesCongruent(x, r, m, eps, p, q);
    }
    if eps :| -q <= 2 * eps < q && Encodes(x, m, eps, p, q) {
      DecodeCorrect(x, m, eps, p, q);
    }
  }

  lemma DecodeCorrect(x: int, m: int, eps: int, p: int, q: int)
    requires 0 < p && 0 < q && Encodes(x, m, eps, p, q) && -q <= 2 * eps < q
    ensures ScaleAndRound(x, p, q) == m % p
  {
    var k := EncodesElim(x, m, eps, p, q);
    MulAssoc(k, p, q);
    MulDist(m, k * p, q);
    RoundDivUnique(p * x, q, m + k * p);
    CongIntro(m + k * p, m, p, k);
  }

  lemma DecodeWithin(x: int, m: int, bound: int, p: int, q: int)
    requires 0 < p && 0 < q && EncodesWithin(x, m, bound, p, q) && 2 * bound < q
    ensures ScaleAndRound(x, p, q) == m % p
  {
    var eps :| -bound <= eps <= bound && Encodes(x, m, eps, p, q);
    DecodeCorrect(x, m, eps, p, q);
  }

  /** A rounded multiple of q / p plus an error e carries its plaintext. */
  lemma DeltaEncodes(m: int, e: int, bound: int, p: int, q: int)
    requires 0 < p && 0 < q && -bound <= e <= bound
    ensures EncodesWithin((Delta(m, p, q) + e) % q, m, p * bound + p, p, q)
  {
    var r := Delta(m, p, q);
    RoundDivBounds(q * m, p);
    var eps := p * r - q * m + p * e;
    MulDist(r, e, p);
    EncodesIntro(r + e, m, eps, p, q, 0);
    EncodesReduced(r + e, m, eps, p, q);
    MulLe(e, bound, p);
    MulLe(-bound, e, p);
    MulNeg(bound, p);
  }
}
