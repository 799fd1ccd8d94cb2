/** What is assumed of the libraries around the protocol: encryption, scaling and
    serialisation, as functions with stated guarantees. */
module Setup {
  import opened ModArith
  import opened Ring
  import opened Encoding
  import opened Prf
  import opened Hints
  import Codec

  /** The i-th ciphertext of a batch, of a vector of plaintext coefficients. */
  type Encryption = (nat, seq<nat>) -> Cipher

  /** A ciphertext that carries every entry of a vector, up to a bound. */
  ghost predicate CarriesAll(pp: Params, sk: Poly, c: Cipher, row: seq<nat>, bound: nat)
    requires pp.Valid() && |sk| == pp.n && |row| <= pp.n
  {
    && c.Valid(pp.n, pp.q)
    && forall r :: 0 <= r < |row| ==> EncodesWithin(Phase(c, sk, pp.q)[r], row[r], bound, pp.p, pp.q)
  }

  ghost predicate IsPlaintext(pp: Params, row: seq<nat>) {
    |row| == pp.partSize && forall r :: 0 <= r < |row| ==> row[r] < pp.p
  }

  /** Fresh encryptions carry their plaintext with an error of at most bound. */
  ghost predicate Encrypts(pp: Params, sk: Poly, encrypt: Encryption, bound: nat)
    requires pp.Valid() && |sk| == pp.n
  {
    forall i: nat, row: seq<nat> :: IsPlaintext(pp, row) ==> CarriesAll(pp, sk, encrypt(i, row), row, bound)
  }

  /** The server's scaling of a sum is q / p times it, up to a bound. */
  ghost predicate Scales(pp: Params, scale: nat -> int, bound: nat)
    requires pp.Valid()
  {
    forall b: nat :: b < pp.p ==> 0 <= scale(b) < pp.q && EncodesWithin(scale(b), b, bound, pp.p, pp.q)
  }

  /** Ciphertext.save and load. */
  datatype Serialiser = Serialiser(save: Cipher -> Codec.Bytes, load: Codec.Bytes -> Cipher) {
    ghost predicate Valid(n: nat, q: int) {
      forall c: Cipher :: c.Valid(n, q) ==> |save(c)| <= 0x1_0000_0000_0000 && load(save(c)) == c
    }
  }

  /** The all-zero plaintext. */
  function Zeros(pp: Params): (row: seq<nat>)
    ensures |row| == pp.partSize && forall r :: 0 <= r < |row| ==> row[r] == 0
  {
    seq(pp.partSize, r => 0)
  }

  /** An encryption of the all-zero plaintext is one of zero where answers are read. */
  lemma EncryptedZero(w: World, encrypt: Encryption, i: nat)
    requires w.Valid() && Encrypts(w.pp, w.sk, encrypt, w.encBound)
    ensures w.Holds(encrypt(i, Zeros(w.pp)), 0, w.encBound)
  {
    hide EncodesWithin, Phase;
    assert IsPlaintext(w.pp, Zeros(w.pp));
    assert CarriesAll(w.pp, w.sk, encrypt(i, Zeros(w.pp)), Zeros(w.pp), w.encBound);
  }
}
