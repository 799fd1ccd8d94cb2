/** The server: the layout of its database, and the two candidate answers to a
    query (src/server.cpp). */
module Server {
  import opened ModArith
  import opened Words
  import opened NumberTheory
  import opened Sampling
  import opened Ring
  import opened Encoding
  import opened Prf
  import opened Hints
  import opened Query
  import opened Answering
  import opened Options
  import opened Setup
  import opened Protocol
  import Codec

  /** The flat array holds partition after partition. */
  ghost predicate Layout(db: seq<U64>, pp: Params, rows: seq<seq<nat>>) {
    && |db| == Times(pp.partNum, pp.partSize) && |rows| == pp.partNum
    && forall k :: 0 <= k < pp.partNum ==> PartitionAt(db, pp, k, rows[k])
  }

  ghost predicate PartitionAt(db: seq<U64>, pp: Params, k: nat, row: seq<nat>) {
    && |row| == pp.partSize && Times(k, pp.partSize) + pp.partSize <= |db|
    && forall r :: 0 <= r < pp.partSize ==> db[Times(k, pp.partSize) + r] == row[r]
  }

  /** A flat index stays inside its partition. */
  lemma FlatIndex(db: seq<U64>, pp: Params, rows: seq<seq<nat>>, k: nat, r: nat)
    requires Layout(db, pp, rows) && k < pp.partNum && r < pp.partSize
    ensures 0 <= k * pp.partSize + r < |db| && db[k * pp.partSize + r] == rows[k][r]
  {
    assert PartitionAt(db, pp, k, rows[k]);
    TimesIsProduct(k, pp.partSize);
  }

  /** The slice of the flat array that is partition k. */
  ghost function Partition(db: seq<U64>, size: nat, k: nat): seq<U64> {
    if Times(k, size) + size <= |db| then db[Times(k, size)..Times(k, size) + size] else []
  }

  lemma PartitionSlice(db: seq<U64>, size: nat, num: nat, k: nat)
    requires |db| == Times(num, size) && k < num
    ensures 0 <= k * size <= (k + 1) * size <= |db|
    ensures db[k * size..(k + 1) * size] == Partition(db, size, k)
  {
    TimesIsProduct(num, size);
    TimesIsProduct(k, size);
    MulLe(0, k, size);
    MulDist(k, 1, size);
    MulLe(k + 1, num, size);
  }

  lemma ScaledDifference(x: int, s: int, noise: int, q: int)
    requires 0 < q
    ensures ((x + q - s) % q + noise) % q == (x - s + noise) % q
  {
    CongIntro(x + q - s, x - s, q, 1);
    CongMod(x + q - s, q);
    CongAdd((x + q - s) % q, x - s, noise, noise, q);
  }

  lemma {:induction false} SumStepMod(s: seq<int>, k: nat, p: int)
    requires k < |s| && 0 < p
    ensures Sum(s[..k + 1]) % p == (Sum(s[..k]) % p + s[k]) % p
    ensures Sum(s[..0]) == 0
  {
    assert s[..k + 1][..k] == s[..k];
    CongAddMod(Sum(s[..k]), s[k], p);
  }

  /** A batch of one query is received as it was sent. */
  lemma SentSingle(q: Codec.BatchQuery, partNum: nat)
    requires |q.bvec| == |q.svec| == partNum <= 0x8000 && |q.ct| <= 0x1_0000_0000_0000
    ensures |Codec.EncodeBatch([q])| <= Codec.MAX_VECTOR
    ensures Codec.DecodeBatch(Codec.EncodeBatch([q]), partNum) == Some([q])
  {
    Codec.BatchRoundTrip([q], partNum);
    Codec.EncodeQueriesFront([q]);
  }

  /** initDatabase: every entry is a plaintext residue. */
  method InitDatabase(db: array<U64>, p: U64)
    requires 0 < p && db.Length <= 0x1_0000_0000
    modifies db
    ensures forall i :: 0 <= i < db.Length ==> db[i] == (999999999999 + i) % p < p
  {
    for i := 0 to db.Length
      invariant forall j :: 0 <= j < i ==> db[j] == (999999999999 + j) % p
    {
      db[i] := (999999999999 + i) % p;
    }
  }

  /** The world a server makes: its database cut into partitions, and their
      encryptions. */
  ghost function WorldOf(pp: Params, f: PrfFn, db: seq<U64>, sk: Poly, encDB: seq<Cipher>, scale: nat -> int,
                         encBound: nat, scaleBound: nat, noiseBound: nat): World
  {
    World(pp, f, seq(pp.partNum, k requires 0 <= k => Partition(db, pp.partSize, k)), sk, encDB, scale,
          encBound, scaleBound, noiseBound)
  }

  lemma PartitionsLaidOut(db: seq<U64>, pp: Params, rows: seq<seq<nat>>)
    requires |db| == Times(pp.partNum, pp.partSize) && |rows| == pp.partNum
    requires forall k :: 0 <= k < pp.partNum ==> rows[k] == Partition(db, pp.partSize, k)
    ensures Layout(db, pp, rows)
  {
    forall k | 0 <= k < pp.partNum
      ensures PartitionAt(db, pp, k, rows[k])
    {
      TimesIsProduct(pp.partNum, pp.partSize);
      TimesIsProduct(k, pp.partSize);
      MulLe(k + 1, pp.partNum, pp.partSize);
      MulDist(k, 1, pp.partSize);
    }
  }

  /** What PreprocessDatabase leaves is the encrypted database of a valid world. */
  lemma PreprocessedWorld(w: World, db: seq<U64>, encrypt: Encryption)
    requires w.pp.Valid() && IsPoly(w.sk, w.pp.n, w.pp.q) && w.pp.p <= w.encBound
    requires |db| == Times(w.pp.partNum, w.pp.partSize) && forall i :: 0 <= i < |db| ==> db[i] < w.pp.p
    requires |w.rows| == |w.encDB| == w.pp.partNum
    requires forall k :: 0 <= k < w.pp.partNum ==> w.rows[k] == Partition(db, w.pp.partSize, k)
    requires forall k :: 0 <= k < w.pp.partNum ==> w.encDB[k] == encrypt(k, Partition(db, w.pp.partSize, k))
    requires Encrypts(w.pp, w.sk, encrypt, w.encBound) && Scales(w.pp, w.scale, w.scaleBound)
    ensures Layout(db, w.pp, w.rows) && w.Valid()
  {
    hide EncodesWithin, Phase;
    PartitionsLaidOut(db, w.pp, w.rows);
    forall k | 0 <= k < w.pp.partNum
      ensures w.PartitionOk(k)
    {
      assert PartitionAt(db, w.pp, k, w.rows[k]);
      assert IsPlaintext(w.pp, w.rows[k]);
      assert CarriesAll(w.pp, w.sk, encrypt(k, w.rows[k]), w.rows[k], w.encBound);
    }
  }

  /** The entry wanted is the database's own at that index. */
  lemma WantedIsEntry(w: World, db: seq<U64>, query: nat)
    requires w.Valid() && Layout(db, w.pp, w.rows) && query < |db|
    ensures PartOf(w.pp, query) < w.pp.partNum && Wanted(w, query) == db[query]
  {
    var k, r := query / w.pp.partSize, query % w.pp.partSize;
    assert query == k * w.pp.partSize + r;
    TimesIsProduct(w.pp.partNum, w.pp.partSize);
    MulLtConverse(k, w.pp.partNum, w.pp.partSize);
    FlatIndex(db, w.pp, w.rows, k, r);
  }

  class OneSVServer {
    const pp: Params
    const db: array<U64>
    const sk: Poly
    /** multiplication by q / p, done in floating point by the program */
    const scale: nat -> int
    const wire: Serialiser
    var encryptedDb: seq<Cipher>

    constructor (pp: Params, db: array<U64>, sk: Poly, scale: nat -> int, wire: Serialiser)
      ensures this.pp == pp && this.db == db && this.sk == sk && this.scale == scale && this.wire == wire
      ensures encryptedDb == []
    {
      this.pp, this.db, this.sk, this.scale, this.wire := pp, db, sk, scale, wire;
      encryptedDb := [];
    }

    /** This server serves world w: its key, scaling and database are w's. */
    ghost predicate Serves(w: World)
      reads this, db
    {
      && w.Valid() && pp == w.pp && sk == w.sk && scale == w.scale
      && pp.q <= 0x4000_0000_0000_0000
      && wire.Valid(pp.n, pp.q) && Layout(db[..], pp, w.rows)
    }

    /** preprocessDatabase: encrypt each partition, or fail when a partition has
        more entries than the encoder has slots. */
    method PreprocessDatabase(slotCount: nat, encrypt: Encryption) returns (ok: bool)
      requires db.Length == Times(pp.partNum, pp.partSize)
      modifies this
      ensures ok <==> pp.partSize <= slotCount
      ensures ok ==>
        |encryptedDb| == pp.partNum
        && forall k :: 0 <= k < pp.partNum ==> encryptedDb[k] == encrypt(k, Partition(db[..], pp.partSize, k))
      ensures !ok ==> encryptedDb == old(encryptedDb)
    {
      if pp.partSize > slotCount {
        return false;
      }
      var encrypted := [];
      for i := 0 to pp.partNum
        invariant |encrypted| == i
        invariant forall k :: 0 <= k < i ==> encrypted[k] == encrypt(k, Partition(db[..], pp.partSize, k))
      {
        PartitionSlice(db[..], pp.partSize, pp.partNum, i);
        encrypted := encrypted + [encrypt(i, db[..][i * pp.partSize..(i + 1) * pp.partSize])];
      }
      encryptedDb := encrypted;
      return true;
    }

    /** The loop of onlineQuery: each partition's entry goes to one group's sum. */
    method GroupSums(bvec: seq<bool>, svec: seq<nat>, ghost w: World) returns (b0: U64, b1: U64)
      requires Serves(w)
      requires |bvec| == |svec| == pp.partNum && forall k :: 0 <= k < |svec| ==> svec[k] < pp.partSize
      ensures b0 == GroupSum(w, bvec, svec, false) % pp.p && b1 == GroupSum(w, bvec, svec, true) % pp.p
    {
      hide Sum, GroupTerms, Layout, EncodesWithin;
      b0, b1 := 0, 0;
      ghost var zeros, ones := GroupTerms(w, bvec, svec, false), GroupTerms(w, bvec, svec, true);
      SmallMod(0, pp.p);
      SumStepMod(zeros, 0, pp.p);
      SumStepMod(ones, 0, pp.p);
      for k := 0 to pp.partNum
        invariant b0 == Sum(zeros[..k]) % pp.p && b1 == Sum(ones[..k]) % pp.p
      {
        FlatIndex(db[..], pp, w.rows, k, svec[k]);
        var entry := db[k * pp.partSize + svec[k]];
        assert entry == Entry(w, k, svec[k]);
        SumStepMod(zeros, k, pp.p);
        SumStepMod(ones, k, pp.p);
        SmallMod(b0, pp.p);
        SmallMod(b1, pp.p);
        if bvec[k] {
          b1 := (b1 + entry) % pp.p;
        } else {
          b0 := (b0 + entry) % pp.p;
        }
      }
      assert zeros[..pp.partNum] == zeros && ones[..pp.partNum] == ones;
    }

    /** onlineQuery: both candidate answers, with one noise sample. */
    method OnlineQuery(bvec: seq<bool>, svec: seq<nat>, c: Cipher, noise: I64, ghost w: World)
      returns (b0: U64, b1: U64)
      requires Serves(w) && c.Valid(pp.n, pp.q)
      requires |bvec| == |svec| == pp.partNum && forall k :: 0 <= k < |svec| ==> svec[k] < pp.partSize
      ensures b0 == Answer(w, bvec, svec, c, false, noise) && b1 == Answer(w, bvec, svec, c, true, noise)
      ensures var x := c.c0[pp.partSize - 1] + Convolution(c.c1, sk, pp.partSize - 1, pp.n);
        && b0 == (x - scale(GroupSum(w, bvec, svec, false) % pp.p) + noise) % pp.q
        && b1 == (x - scale(GroupSum(w, bvec, svec, true) % pp.p) + noise) % pp.q
    {
      hide GroupSum, EncodesWithin, Phase, Layout, Convolution;
      AnswerCoefficients(w, bvec, svec, c, false, noise);
      AnswerCoefficients(w, bvec, svec, c, true, noise);
      // decryption without scaling down, read at the last coefficient in use
      var vec := Phase(c, sk, pp.q);
      var value: U64 := vec[pp.partSize - 1];
      assert value == Last(w, c);
      b0, b1 := GroupSums(bvec, svec, w);
      assert w.ScaleOk(b0) && w.ScaleOk(b1);
      var scaled0: U64, scaled1: U64 := scale(b0), scale(b1);
      b0 := Subtracted(value, scaled0, noise, pp.q);
      b1 := Subtracted(value, scaled1, noise, pp.q);
    }

    /** The server's side of one batch of a single query: receive, load the
        ciphertext, answer. */
    method AnswerPayload(payload: Codec.Bytes, noise: I64, ghost w: World, ghost q: Codec.BatchQuery, ghost c: Cipher)
      returns (b0: U64, b1: U64)
      requires Serves(w) && c.Valid(pp.n, pp.q) && q.ct == wire.save(c)
      requires |q.bvec| == |q.svec| == pp.partNum && forall k :: 0 <= k < |q.svec| ==> q.svec[k] < pp.partSize
      requires payload == Codec.EncodeBatch([q])
      ensures b0 == Answer(w, q.bvec, q.svec, c, false, noise) && b1 == Answer(w, q.bvec, q.svec, c, true, noise)
    {
      hide Answer, Layout;
      SentSingle(q, pp.partNum);
      var received := Codec.ReceiveBatchQueries(payload, pp.partNum);
      var query := received.queries[0];
      b0, b1 := OnlineQuery(query.bvec, query.svec, wire.load(query.ct), noise, w);
    }

    /** One branch's answer from the decrypted coefficient and the scaled sum. */
    method Subtracted(value: U64, scaled: U64, noise: I64, q: U64) returns (r: U64)
      requires value < q && scaled < q <= 0x4000_0000_0000_0000
      ensures r == (value - scaled + noise) % q
    {
      var difference: U64 := (value + q - scaled) % q;
      var sum := AddSignedMod(difference, noise, q);
      ScaledDifference(value, scaled, noise, q);
      r := sum.value;
    }
  }
}
