/** The packed wire format of a batch of queries (src/network.cpp).  The
    serialised ciphertext is an opaque run of bytes. */
module Codec {
  import opened ModArith
  import opened Words
  import opened Options
  import opened Cutoff
  import opened Bits

  type Bytes = seq<bv8>

  datatype BatchQuery = BatchQuery(bvec: seq<bool>, svec: seq<Word32>, ct: Bytes)

  // Bytes and their bits.

  /** The first k bits of packed byte j. */
  function PackedByte(bvec: seq<bool>, j: nat, k: nat): bv8
    requires k <= 8
  {
    if k == 0 then 0
    else if 8 * j + k - 1 < |bvec| && bvec[8 * j + k - 1] then PackedByte(bvec, j, k - 1) | One(k - 1)
    else PackedByte(bvec, j, k - 1)
  }

  lemma {:induction false} PackedBit(bvec: seq<bool>, j: nat, k: nat, m: nat)
    requires k <= 8 && m < 8
    ensures Bit(PackedByte(bvec, j, k), m) <==> m < k && 8 * j + m < |bvec| && bvec[8 * j + m]
  {
    if k == 0 {
      BitIsMasked(0, m);
    } else {
      PackedBit(bvec, j, k - 1, m);
      BitIsMasked(PackedByte(bvec, j, k - 1), m);
      BitIsMasked(PackedByte(bvec, j, k - 1) | One(k - 1), m);
      OnesDiffer(k - 1, m);
      OrMasked(PackedByte(bvec, j, k - 1), One(k - 1), One(m));
    }
  }

  lemma OrMasked(b: bv8, x: bv8, y: bv8)
    ensures (b | x) & y == (b & y) | (x & y)
    ensures x & y == 0 ==> (b | x) & y == b & y
    ensures x & y == y && y != 0 ==> (b | x) & y != 0
  {
  }

  /** The n low bits of a number, least significant first. */
  function LowBits(x: nat, n: nat): (c: seq<bool>)
    ensures |c| == n
  {
    if n == 0 then [] else [x % 2 == 1] + LowBits(x / 2, n - 1)
  }

  function BitsValue(c: seq<bool>): nat {
    if c == [] then 0 else (if c[0] then 1 else 0) + 2 * BitsValue(c[1..])
  }

  lemma {:induction false} LowBitsValue(x: nat, n: nat)
    ensures 0 < Pow(2, n) && BitsValue(LowBits(x, n)) == x % Pow(2, n)
  {
    if n == 0 {
    } else {
      LowBitsValue(x / 2, n - 1);
      Halve(x, Pow(2, n - 1));
      assert LowBits(x, n)[1..] == LowBits(x / 2, n - 1);
    }
  }

  lemma {:induction false} BitsValueInRange(c: seq<bool>)
    ensures BitsValue(c) < Pow(2, |c|)
  {
    if c != [] {
      BitsValueInRange(c[1..]);
    }
  }

  lemma EightBits()
    ensures Pow(2, 8) == 256
  {
    assert Pow(2, 4) == 2 * Pow(2, 3) == 4 * Pow(2, 2) == 16;
    assert Pow(2, 8) == 2 * Pow(2, 7) == 4 * Pow(2, 6) == 8 * Pow(2, 5);
  }

  function LowByte(x: nat): bv8 { PackedByte(LowBits(x, 8), 0, 8) }

  function BitsOf(b: bv8): (c: seq<bool>)
    ensures |c| == 8
  {
    seq(8, m requires 0 <= m < 8 => Bit(b, m))
  }

  function ByteValue(b: bv8): (v: nat)
    ensures v < 256
  {
    EightBits();
    BitsValueInRange(BitsOf(b));
    BitsValue(BitsOf(b))
  }

  lemma ByteOfValue(x: nat)
    ensures ByteValue(LowByte(x)) == x % 256
  {
    hide Bit, PackedByte;
    forall m | 0 <= m < 8
      ensures BitsOf(LowByte(x))[m] == LowBits(x, 8)[m]
    {
      PackedBit(LowBits(x, 8), 0, 8, m);
    }
    assert BitsOf(LowByte(x)) == LowBits(x, 8);
    LowBitsValue(x, 8);
    EightBits();
  }

  // Little-endian integers.

  function Encode(x: nat, n: nat): (s: Bytes)
    ensures |s| == n
  {
    if n == 0 then [] else [LowByte(x)] + Encode(x / 256, n - 1)
  }

  function Decode(s: Bytes): nat {
    if s == [] then 0 else ByteValue(s[0]) + 256 * Decode(s[1..])
  }

  /** A number that fits n bytes is read back. */
  lemma {:induction false} DecodeEncode(x: nat, n: nat)
    requires x < Pow(256, n)
    ensures Decode(Encode(x, n)) == x
  {
    if n == 0 {
    } else {
      DecodeEncode(x / 256, n - 1);
      ByteOfValue(x);
      assert Encode(x, n)[1..] == Encode(x / 256, n - 1);
    }
  }

  lemma {:induction false} DecodeInRange(s: Bytes)
    ensures Decode(s) < Pow(256, |s|)
  {
    if s == [] {
    } else {
      DecodeInRange(s[1..]);
    }
  }

  lemma FieldSizes()
    ensures Pow(256, 4) == 0x1_0000_0000 && Pow(256, 8) == B64
  {
    assert Pow(256, 4) == 256 * Pow(256, 3) == 0x1_0000 * Pow(256, 2);
    PowAdd(256, 4, 4);
  }

  // Selector bits.

  function PackedSize(partNum: nat): nat { (partNum + 7) / 8 }

  function Packed(bvec: seq<bool>): (s: Bytes)
    ensures |s| == PackedSize(|bvec|)
  {
    seq(PackedSize(|bvec|), j requires 0 <= j => PackedByte(bvec, j, 8))
  }

  function Unpacked(s: Bytes, partNum: nat): (bvec: seq<bool>)
    requires |s| == PackedSize(partNum)
    ensures |bvec| == partNum
  {
    seq(partNum, i requires 0 <= i < partNum => Bit(s[i / 8], i % 8))
  }

  /** Packing loses nothing, whatever the number of partitions. */
  lemma UnpackPacked(bvec: seq<bool>)
    ensures Unpacked(Packed(bvec), |bvec|) == bvec
  {
    forall i | 0 <= i < |bvec|
      ensures Unpacked(Packed(bvec), |bvec|)[i] == bvec[i]
    {
      PackedBit(bvec, i / 8, 8, i % 8);
      assert 8 * (i / 8) + i % 8 == i;
    }
  }

  /** The packing loop: a cleared buffer, then one bit at a time. */
  method PackBits(bvec: seq<bool>, packed: array<bv8>)
    requires packed.Length == PackedSize(|bvec|)
    modifies packed
    ensures packed[..] == Packed(bvec)
  {
    for j := 0 to packed.Length
      invariant forall l :: 0 <= l < j ==> packed[l] == 0
    {
      packed[j] := 0;
    }
    for i := 0 to |bvec|
      invariant forall l :: 0 <= l < packed.Length ==> packed[l] == PackedByte(bvec, l, BitsSeen(i, l))
    {
      assert 8 * (i / 8) + i % 8 == i;
      if bvec[i] {
        packed[i / 8] := packed[i / 8] | One(i % 8);
      }
      SeenNext(i);
    }
    forall l | 0 <= l < packed.Length
      ensures packed[l] == PackedByte(bvec, l, 8)
    {
      if |bvec| < 8 * l + 8 {
        PaddingClear(bvec, l, BitsSeen(|bvec|, l), 8);
      }
    }
  }

  /** How many bits of byte l come before bit i of the batch. */
  function BitsSeen(i: nat, l: nat): (k: nat)
    ensures k <= 8
  {
    if i <= 8 * l then 0 else if i < 8 * l + 8 then i - 8 * l else 8
  }

  lemma SeenNext(i: nat)
    ensures forall l: nat :: BitsSeen(i + 1, l) == if l == i / 8 then BitsSeen(i, l) + 1 else BitsSeen(i, l)
    ensures BitsSeen(i, i / 8) == i % 8
  {
  }

  /** Bits past the end of the vector are never set. */
  lemma {:induction false} PaddingClear(bvec: seq<bool>, j: nat, k: nat, m: nat)
    requires k <= m <= 8 && |bvec| <= 8 * j + k
    ensures PackedByte(bvec, j, m) == PackedByte(bvec, j, k)
    decreases m
  {
    if k < m {
      PaddingClear(bvec, j, k, m - 1);
    }
  }

  /** The unpacking loop. */
  method UnpackBits(s: Bytes, partNum: nat) returns (bvec: seq<bool>)
    requires |s| == PackedSize(partNum)
    ensures bvec == Unpacked(s, partNum)
  {
    bvec := [];
    for i := 0 to partNum
      invariant |bvec| == i && forall j :: 0 <= j < i ==> bvec[j] == Bit(s[j / 8], j % 8)
    {
      bvec := bvec + [Bit(s[i / 8], i % 8)];
    }
  }

  // Words and whole queries.

  function EncodeWords(ws: seq<Word32>): (s: Bytes)
    ensures |s| == 4 * |ws|
  {
    if ws == [] then [] else Encode(ws[0], 4) + EncodeWords(ws[1..])
  }

  lemma FourBytesValue(s: Bytes)
    requires |s| == 4
    ensures Decode(s) < 0x1_0000_0000
  {
    DecodeInRange(s);
    FieldSizes();
  }

  function DecodeWords(s: Bytes, n: nat): (ws: seq<Word32>)
    requires |s| == 4 * n
    ensures |ws| == n
  {
    if n == 0 then []
    else
      FourBytesValue(s[..4]);
      [Decode(s[..4])] + DecodeWords(s[4..], n - 1)
  }

  lemma {:induction false} DecodeEncodeWords(ws: seq<Word32>)
    ensures DecodeWords(EncodeWords(ws), |ws|) == ws
  {
    if ws == [] {
    } else {
      DecodeEncodeWords(ws[1..]);
      FieldSizes();
      DecodeEncode(ws[0], 4);
      assert EncodeWords(ws)[..4] == Encode(ws[0], 4) && EncodeWords(ws)[4..] == EncodeWords(ws[1..]);
    }
  }

  /** A query the program can hold: vectors of one length, a 64-bit byte count. */
  ghost predicate QueryFits(q: BatchQuery, partNum: nat) {
    |q.bvec| == |q.svec| == partNum && |q.ct| < 0x1_0000_0000_0000_0000
  }

  function EncodeQuery(q: BatchQuery): Bytes {
    Packed(q.bvec) + EncodeWords(q.svec) + Encode(|q.ct|, 8) + q.ct
  }

  function EncodeQueries(qs: seq<BatchQuery>): Bytes {
    if qs == [] then [] else EncodeQueries(qs[..|qs| - 1]) + EncodeQuery(qs[|qs| - 1])
  }

  /** The payload: the count, then every query. */
  function EncodeBatch(qs: seq<BatchQuery>): Bytes {
    Encode(|qs|, 4) + EncodeQueries(qs)
  }

  lemma AppendedParts(p: Bytes, a: Bytes, b: Bytes, c: Bytes, d: Bytes)
    ensures (((p + a) + b) + c) + d == p + (a + b + c + d)
  {
  }

  lemma QueriesStart(qs: seq<BatchQuery>)
    ensures EncodeQueries(qs[..0]) == []
    ensures EncodeQueries(qs[..|qs|]) == EncodeQueries(qs)
  {
    assert qs[..|qs|] == qs;
  }

  lemma QueriesNext(qs: seq<BatchQuery>, i: nat)
    requires i < |qs|
    ensures EncodeQueries(qs[..i + 1]) == EncodeQueries(qs[..i]) + EncodeQuery(qs[i])
  {
    assert qs[..i + 1][..i] == qs[..i];
  }

  /** sendBatchQueries: the payload, with one packing buffer for all queries. */
  method SendBatchQueries(qs: seq<BatchQuery>, partNum: nat) returns (payload: Bytes)
    requires forall i :: 0 <= i < |qs| ==> QueryFits(qs[i], partNum)
    ensures payload == EncodeBatch(qs)
  {
    hide Packed, EncodeWords, Encode, EncodeQueries;
    payload := Encode(|qs|, 4);
    QueriesStart(qs);
    var packed := new bv8[PackedSize(partNum)];
    for i := 0 to |qs|
      invariant payload == Encode(|qs|, 4) + EncodeQueries(qs[..i])
    {
      var q := qs[i];
      assert QueryFits(q, partNum);
      PackBits(q.bvec, packed);
      ghost var before := payload;
      payload := payload + packed[..];
      payload := payload + EncodeWords(q.svec);
      payload := payload + Encode(|q.ct|, 8);
      payload := payload + q.ct;
      AppendedParts(before, Packed(q.bvec), EncodeWords(q.svec), Encode(|q.ct|, 8), q.ct);
      QueriesNext(qs, i);
      assert payload == before + EncodeQuery(q);
      assert Encode(|qs|, 4) + EncodeQueries(qs[..i]) + EncodeQuery(q)
          == Encode(|qs|, 4) + (EncodeQueries(qs[..i]) + EncodeQuery(q));
    }
  }

  /** How many bytes a query takes, if the bytes hold one: the two fixed parts, the
      length field, and as many bytes as it says. */
  function QueryLength(s: Bytes, partNum: nat): Option<nat> {
    var ctStart := PackedSize(partNum) + 4 * partNum + 8;
    if |s| < ctStart then None
    else
      var end := ctStart + Decode(s[ctStart - 8..ctStart]);
      if |s| < end then None else Some(end)
  }

  function DecodeQuery(s: Bytes, partNum: nat): BatchQuery
    requires QueryLength(s, partNum).Some?
  {
    var svecStart := PackedSize(partNum);
    var sizeStart := svecStart + 4 * partNum;
    BatchQuery(Unpacked(s[..svecStart], partNum), DecodeWords(s[svecStart..sizeStart], partNum),
               s[sizeStart + 8..QueryLength(s, partNum).value])
  }

  /** Exactly count queries and nothing after them. */
  function DecodeQueries(s: Bytes, partNum: nat, count: nat): Option<seq<BatchQuery>> {
    if count == 0 then if s == [] then Some([]) else None
    else if QueryLength(s, partNum).None? then None
    else
      var rest := DecodeQueries(s[QueryLength(s, partNum).value..], partNum, count - 1);
      if rest.None? then None else Some([DecodeQuery(s, partNum)] + rest.value)
  }

  function DecodeBatch(payload: Bytes, partNum: nat): Option<seq<BatchQuery>> {
    if |payload| < 4 then None else DecodeQueries(payload[4..], partNum, Decode(payload[..4]))
  }

  // Bounds, as the program tests them.

  /** No vector is longer; every fixed-size field of a query is shorter still. */
  const MAX_VECTOR: nat := 0x7FFF_FFFF_FFFF_FFFF

  /** The test for size more bytes after offset, on 64-bit words. */
  predicate InBounds(length: nat, offset: nat, size: nat) {
    (offset + size) % B64 <= length
  }

  /** The test means what it says exactly when the sum does not wrap: a wrapped sum
      always passes it. */
  lemma InBoundsIff(length: nat, offset: nat, size: nat)
    requires offset <= length < B64 && size < B64
    ensures (InBounds(length, offset, size) <==> offset + size <= length) <==> offset + size < B64
    ensures offset + size >= B64 ==> (offset + size) % B64 < offset
  {
    if offset + size < B64 {
      SmallMod(offset + size, B64);
    } else {
      DivModUnique(offset + size, B64, 1, offset + size - B64);
    }
  }

  /** readBytes: the next size bytes, or failure when there are not that many. */
  method ReadBytes(payload: Bytes, offset: nat, size: nat) returns (ok: bool, out: Bytes, next: nat)
    requires offset <= |payload| <= MAX_VECTOR && size <= MAX_VECTOR
    ensures ok <==> offset + size <= |payload|
    ensures ok ==> out == payload[offset..offset + size] && next == offset + size
    ensures !ok ==> next == offset
  {
    InBoundsIff(|payload|, offset, size);
    if !InBounds(|payload|, offset, size) {
      return false, [], offset;
    }
    return true, payload[offset..offset + size], offset + size;
  }

  /** How reading one query ends.  Overrun: the length field passed the wrapped test.
      The program then loads the ciphertext from a stream whose contents are not
      defined, and its offset moves back. */
  datatype Received = Query(query: BatchQuery, next: nat) | Short | Overrun(back: nat)

  /** How reading a batch ends. */
  datatype Batch = Accepted(queries: seq<BatchQuery>) | Rejected | Overran

  /** The length field of the query at the head of s, the rest of a payload, makes
      the bound test wrap. */
  predicate LengthWraps(length: nat, s: Bytes, partNum: nat)
    requires |s| <= length
  {
    var ctStart := PackedSize(partNum) + 4 * partNum + 8;
    ctStart <= |s| && length - |s| + ctStart + Decode(s[ctStart - 8..ctStart]) >= B64
  }

  /** Some length field wraps before the batch is read. */
  predicate QueriesWrap(length: nat, s: Bytes, partNum: nat, count: nat)
    requires |s| <= length
  {
    count != 0
    && (LengthWraps(length, s, partNum)
        || (QueryLength(s, partNum).Some?
            && QueriesWrap(length, s[QueryLength(s, partNum).value..], partNum, count - 1)))
  }

  predicate BatchWraps(payload: Bytes, partNum: nat) {
    4 <= |payload| && QueriesWrap(|payload|, payload[4..], partNum, Decode(payload[..4]))
  }

  lemma SuffixSlice(payload: Bytes, offset: nat, at: nat, size: nat)
    requires offset + at + size <= |payload|
    ensures payload[offset..][at..at + size] == payload[offset + at..offset + at + size]
  {
  }

  /** The fields before a query's ciphertext, one after the other. */
  method ReadFields(payload: Bytes, offset: nat, partNum: nat)
    returns (ok: bool, packed: Bytes, words: Bytes, size: Bytes, next: nat)
    requires offset <= |payload| <= MAX_VECTOR && partNum < 0x1_0000_0000
    ensures var s, bits := payload[offset..], PackedSize(partNum);
      && (ok <==> bits + 4 * partNum + 8 <= |s|)
      && (ok ==> next == offset + bits + 4 * partNum + 8
                 && packed == s[..bits] && words == s[bits..bits + 4 * partNum]
                 && size == s[bits + 4 * partNum..bits + 4 * partNum + 8])
  {
    var bits := PackedSize(partNum);
    words, size := [], [];
    ok, packed, next := ReadBytes(payload, offset, bits);
    if ok {
      ok, words, next := ReadBytes(payload, next, 4 * partNum);
      if ok {
        ok, size, next := ReadBytes(payload, next, 8);
      }
    }
    if ok {
      SuffixSlice(payload, offset, 0, bits);
      SuffixSlice(payload, offset, bits, 4 * partNum);
      SuffixSlice(payload, offset, bits + 4 * partNum, 8);
    }
  }

  /** One turn of the receiving loop. */
  method ReceiveQuery(payload: Bytes, offset: nat, partNum: nat) returns (r: Received)
    requires offset <= |payload| <= MAX_VECTOR && partNum < 0x1_0000_0000
    ensures r.Overrun? <==> LengthWraps(|payload|, payload[offset..], partNum)
    ensures r.Overrun? ==> r.back < offset + PackedSize(partNum) + 4 * partNum + 8
    ensures r.Query? <==> QueryLength(payload[offset..], partNum).Some?
    ensures r.Query? ==> r.query == DecodeQuery(payload[offset..], partNum)
    ensures r.Query? ==> r.next == offset + QueryLength(payload[offset..], partNum).value <= |payload|
  {
    hide Decode, Unpacked, DecodeWords, InBounds;
    var ok, packed, words, size, off := ReadFields(payload, offset, partNum);
    if !ok {
      return Short;
    }
    var bvec := UnpackBits(packed, partNum);
    var ctSize := Decode(size);
    EightBytesValue(size);
    InBoundsIff(|payload|, off, ctSize);
    if !InBounds(|payload|, off, ctSize) {
      return Short;
    }
    if off + ctSize >= B64 {
      return Overrun((off + ctSize) % B64);
    }
    SuffixSlice(payload, offset, off - offset, ctSize);
    return Query(BatchQuery(bvec, DecodeWords(words, partNum), payload[off..off + ctSize]), off + ctSize);
  }

  /** recvBatchQueries on a received payload: the specified decoding, unless a
      length field wraps the bound test. */
  method ReceiveBatchQueries(payload: Bytes, partNum: nat) returns (r: Batch)
    requires |payload| <= MAX_VECTOR && partNum < 0x1_0000_0000
    ensures r.Overran? <==> BatchWraps(payload, partNum)
    ensures r.Accepted? <==> DecodeBatch(payload, partNum).Some?
    ensures r.Accepted? ==> r.queries == DecodeBatch(payload, partNum).value
  {
    hide Decode, DecodeQuery, QueryLength, LengthWraps;
    var ok, count, off: nat := ReadBytes(payload, 0, 4);
    if !ok {
      return Rejected;
    }
    assert count == payload[..4];
    var batchSize := Decode(count);
    var queries := [];
    PrependNone(DecodeQueries(payload[4..], partNum, batchSize));
    for qi := 0 to batchSize
      invariant off <= |payload|
      invariant DecodeBatch(payload, partNum)
             == Prepend(queries, DecodeQueries(payload[off..], partNum, batchSize - qi))
      invariant BatchWraps(payload, partNum) <==> QueriesWrap(|payload|, payload[off..], partNum, batchSize - qi)
    {
      var received := ReceiveQuery(payload, off, partNum);
      WrapIsNoLength(|payload|, payload[off..], partNum);
      if received.Overrun? {
        return Overran;
      }
      if received.Short? {
        return Rejected;
      }
      assert payload[off..][received.next - off..] == payload[received.next..];
      PrependOne(queries, received.query, DecodeQueries(payload[received.next..], partNum, batchSize - qi - 1));
      queries, off := queries + [received.query], received.next;
    }
    assert off == |payload| ==> payload[off..] == [] && queries + [] == queries;
    if off == |payload| {
      return Accepted(queries);
    }
    return Rejected;
  }

  lemma EightBytesValue(s: Bytes)
    requires |s| == 8
    ensures Decode(s) < B64
  {
    DecodeInRange(s);
    FieldSizes();
  }

  lemma WrapIsNoLength(length: nat, s: Bytes, partNum: nat)
    requires |s| <= length <= MAX_VECTOR
    ensures LengthWraps(length, s, partNum) ==> QueryLength(s, partNum).None?
  {
  }

  /** The specified decoding rejects every batch with a length that wraps ... */
  lemma {:induction false} WrappedIsRejected(length: nat, s: Bytes, partNum: nat, count: nat)
    requires |s| <= length <= MAX_VECTOR && QueriesWrap(length, s, partNum, count)
    ensures DecodeQueries(s, partNum, count).None?
    decreases count
  {
    hide DecodeQuery, Decode;
    if LengthWraps(length, s, partNum) {
      WrapIsNoLength(length, s, partNum);
    } else {
      WrappedIsRejected(length, s[QueryLength(s, partNum).value..], partNum, count - 1);
    }
  }

  /** ... so a payload the sender made is never one. */
  lemma SentNeverWraps(qs: seq<BatchQuery>, partNum: nat)
    requires |qs| < 0x1_0000_0000 && forall i :: 0 <= i < |qs| ==> QueryFits(qs[i], partNum)
    requires |EncodeBatch(qs)| <= MAX_VECTOR
    ensures !BatchWraps(EncodeBatch(qs), partNum)
  {
    hide DecodeQueries, QueriesWrap, EncodeBatch, Decode;
    BatchRoundTrip(qs, partNum);
    var payload := EncodeBatch(qs);
    if BatchWraps(payload, partNum) {
      WrappedIsRejected(|payload|, payload[4..], partNum, Decode(payload[..4]));
    }
  }

  /** One partition, one query, and a length field of 2^64 - 17 seventeen bytes in:
      not a batch, but past the program's test. */
  lemma WrappedPayload(payload: Bytes, size: nat)
    requires size == B64 - 17 && payload == Encode(1, 4) + [0] + Encode(0, 4) + Encode(size, 8)
    ensures |payload| == 17 && InBounds(|payload|, 17, size)
    ensures BatchWraps(payload, 1) && DecodeBatch(payload, 1).None?
  {
    hide Encode, Decode, DecodeQuery;
    FieldSizes();
    DecodeEncode(1, 4);
    DecodeEncode(size, 8);
    assert payload[..4] == Encode(1, 4);
    var s := payload[4..];
    assert payload[9..17] == Encode(size, 8) && s[5..13] == payload[9..17];
    assert LengthWraps(17, s, 1);
    WrapIsNoLength(17, s, 1);
  }

  ghost function Prepend(qs: seq<BatchQuery>, r: Option<seq<BatchQuery>>): Option<seq<BatchQuery>> {
    if r.None? then None else Some(qs + r.value)
  }

  lemma PrependNone(r: Option<seq<BatchQuery>>)
    ensures Prepend([], r) == r
  {
    if r.Some? {
      assert [] + r.value == r.value;
    }
  }

  lemma PrependOne(qs: seq<BatchQuery>, q: BatchQuery, rest: Option<seq<BatchQuery>>)
    ensures Prepend(qs, Prepend([q], rest)) == Prepend(qs + [q], rest)
  {
    if rest.Some? {
      assert qs + ([q] + rest.value) == (qs + [q]) + rest.value;
    }
  }

  // The receiver undoes the sender.

  lemma QueryRoundTrip(q: BatchQuery, partNum: nat, tail: Bytes)
    requires QueryFits(q, partNum)
    ensures QueryLength(EncodeQuery(q) + tail, partNum) == Some(|EncodeQuery(q)|)
    ensures DecodeQuery(EncodeQuery(q) + tail, partNum) == q
  {
    hide Packed, EncodeWords, Encode, Unpacked, DecodeWords, Decode;
    var s := EncodeQuery(q) + tail;
    var svecStart := PackedSize(partNum);
    var sizeStart := svecStart + 4 * partNum;
    FieldSizes();
    DecodeEncode(|q.ct|, 8);
    UnpackPacked(q.bvec);
    DecodeEncodeWords(q.svec);
    assert s[..svecStart] == Packed(q.bvec);
    assert s[svecStart..sizeStart] == EncodeWords(q.svec);
    assert s[sizeStart..sizeStart + 8] == Encode(|q.ct|, 8);
    assert s[sizeStart + 8..sizeStart + 8 + |q.ct|] == q.ct;
  }

  lemma {:induction false} EncodeQueriesFront(qs: seq<BatchQuery>)
    requires qs != []
    ensures EncodeQueries(qs) == EncodeQuery(qs[0]) + EncodeQueries(qs[1..])
  {
    hide EncodeQuery;
    var n := |qs| - 1;
    if n == 0 {
      assert qs[..0] == [] && qs[1..] == [];
    } else {
      EncodeQueriesFront(qs[..n]);
      assert qs[..n][1..] == qs[1..][..n - 1] && qs[1..][n - 1] == qs[n];
      assert EncodeQuery(qs[0]) + EncodeQueries(qs[1..][..n - 1]) + EncodeQuery(qs[n])
          == EncodeQuery(qs[0]) + (EncodeQueries(qs[1..][..n - 1]) + EncodeQuery(qs[n]));
    }
  }

  lemma {:induction false} QueriesRoundTrip(qs: seq<BatchQuery>, partNum: nat)
    requires forall i :: 0 <= i < |qs| ==> QueryFits(qs[i], partNum)
    ensures DecodeQueries(EncodeQueries(qs), partNum, |qs|) == Some(qs)
  {
    hide EncodeQuery, DecodeQuery, QueryLength;
    if qs == [] {
    } else {
      EncodeQueriesFront(qs);
      var head, rest := EncodeQuery(qs[0]), EncodeQueries(qs[1..]);
      QueryRoundTrip(qs[0], partNum, rest);
      QueriesRoundTrip(qs[1..], partNum);
      assert (head + rest)[|head|..] == rest;
      assert [qs[0]] + qs[1..] == qs;
    }
  }

  /** Parsing what was packed returns every bit, offset and ciphertext byte, and
      ends exactly at the payload's end, for any number of partitions. */
  lemma BatchRoundTrip(qs: seq<BatchQuery>, partNum: nat)
    requires |qs| < 0x1_0000_0000 && forall i :: 0 <= i < |qs| ==> QueryFits(qs[i], partNum)
    ensures DecodeBatch(EncodeBatch(qs), partNum) == Some(qs)
  {
    hide EncodeQueries, DecodeQueries, Encode, Decode;
    FieldSizes();
    DecodeEncode(|qs|, 4);
    QueriesRoundTrip(qs, partNum);
    assert EncodeBatch(qs)[..4] == Encode(|qs|, 4) && EncodeBatch(qs)[4..] == EncodeQueries(qs);
  }

  // When the sender undoes the receiver.

  lemma SameBits(x: bv8, y: bv8)
    requires forall m: nat :: m < 8 ==> (Bit(x, m) <==> Bit(y, m))
    ensures x == y
  {
    assert Bit(x, 0) == Bit(y, 0) && Bit(x, 1) == Bit(y, 1) && Bit(x, 2) == Bit(y, 2) && Bit(x, 3) == Bit(y, 3);
    assert Bit(x, 4) == Bit(y, 4) && Bit(x, 5) == Bit(y, 5) && Bit(x, 6) == Bit(y, 6) && Bit(x, 7) == Bit(y, 7);
    BitPattern(x, y);
  }

  lemma BitPattern(x: bv8, y: bv8)
    requires x & 1 == y & 1 && (x >> 1) & 1 == (y >> 1) & 1
    requires (x >> 2) & 1 == (y >> 2) & 1 && (x >> 3) & 1 == (y >> 3) & 1
    requires (x >> 4) & 1 == (y >> 4) & 1 && (x >> 5) & 1 == (y >> 5) & 1
    requires (x >> 6) & 1 == (y >> 6) & 1 && (x >> 7) & 1 == (y >> 7) & 1
    ensures x == y
  {
  }

  /** The padding bits of the last byte are zero. */
  ghost predicate PaddingZero(s: Bytes, partNum: nat) {
    forall i: nat :: partNum <= i < 8 * |s| ==> !Bit(s[i / 8], i % 8)
  }

  /** Unpacking forgets the padding bits and nothing else. */
  lemma PackUnpackedIff(s: Bytes, partNum: nat)
    requires |s| == PackedSize(partNum)
    ensures Packed(Unpacked(s, partNum)) == s <==> PaddingZero(s, partNum)
  {
    var bvec := Unpacked(s, partNum);
    forall j: nat, m: nat | j < |s| && m < 8
      ensures Bit(Packed(bvec)[j], m) <==> 8 * j + m < partNum && Bit(s[j], m)
    {
      PackedBit(bvec, j, 8, m);
      assert (8 * j + m) / 8 == j && (8 * j + m) % 8 == m;
    }
    if PaddingZero(s, partNum) {
      forall j | 0 <= j < |s|
        ensures Packed(bvec)[j] == s[j]
      {
        forall m: nat | m < 8
          ensures Bit(Packed(bvec)[j], m) <==> Bit(s[j], m)
        {
          assert (8 * j + m) / 8 == j && (8 * j + m) % 8 == m;
        }
        SameBits(Packed(bvec)[j], s[j]);
      }
    }
  }
}
