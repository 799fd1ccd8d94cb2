/** The packed format of a batch, byte by byte: which bytes a receiver accepts, and
    as what (src/network.cpp). */
module Wire {
  import opened ModArith
  import opened Words
  import opened Options
  import opened Cutoff
  import opened Bits
  import opened Codec

  /** The number a byte stands for. */
  ghost function Weight(b: bv8): nat {
    (if b & 1 != 0 then 1 else 0) + (if b & 2 != 0 then 2 else 0)
    + (if b & 4 != 0 then 4 else 0) + (if b & 8 != 0 then 8 else 0)
    + (if b & 16 != 0 then 16 else 0) + (if b & 32 != 0 then 32 else 0)
    + (if b & 64 != 0 then 64 else 0) + (if b & 128 != 0 then 128 else 0)
  }

  /** The n bytes from position at on are x, least significant byte first. */
  ghost predicate NumberAt(s: Bytes, at: nat, n: nat, x: nat) {
    && at + n <= |s| && x < Pow(256, n)
    && forall i :: 0 <= i < n ==> Weight(s[at + i]) == Digit(x, i)
  }

  /** Byte i of x. */
  ghost function Digit(x: nat, i: nat): nat {
    PowPos(256, i);
    x / Pow(256, i) % 256
  }

  /** Bit i of the bytes from position at on. */
  ghost predicate BitAt(s: Bytes, at: nat, i: nat)
    requires at + i / 8 < |s|
  {
    Bit(s[at + i / 8], i % 8)
  }

  /** Bytes a query takes. */
  ghost function QuerySize(q: BatchQuery, partNum: nat): nat {
    (partNum + 7) / 8 + 4 * partNum + 8 + |q.ct|
  }

  /** The bytes from position at on are query q: its selector bits, its offsets, the
      length of its ciphertext, and the ciphertext.  Padding bits do not matter. */
  ghost predicate QueryAt(s: Bytes, at: nat, q: BatchQuery, partNum: nat) {
    var words := at + (partNum + 7) / 8;
    var size := words + 4 * partNum;
    && |q.bvec| == |q.svec| == partNum && size + 8 + |q.ct| <= |s|
    && (forall i :: 0 <= i < partNum ==> (q.bvec[i] <==> BitAt(s, at, i)))
    && (forall k :: 0 <= k < partNum ==> NumberAt(s, words + 4 * k, 4, q.svec[k]))
    && NumberAt(s, size, 8, |q.ct|)
    && s[size + 8..size + 8 + |q.ct|] == q.ct
  }

  /** The bytes from position at on are these queries, and nothing after them. */
  ghost predicate QueriesAt(s: Bytes, at: nat, qs: seq<BatchQuery>, partNum: nat)
    decreases qs
  {
    if qs == [] then at == |s|
    else QueryAt(s, at, qs[0], partNum) && QueriesAt(s, at + QuerySize(qs[0], partNum), qs[1..], partNum)
  }

  // Numbers.

  lemma BitsStep(c: seq<bool>, m: nat)
    ensures m < |c| ==> BitsValue(c[m..]) == (if c[m] then 1 else 0) + 2 * BitsValue(c[m + 1..])
    ensures m == |c| ==> BitsValue(c[m..]) == 0
  {
    if m < |c| {
      assert c[m..][1..] == c[m + 1..];
    }
  }

  lemma ByteWeight(b: bv8)
    ensures ByteValue(b) == Weight(b)
  {
    hide Bit, BitsValue;
    BitMasks(b);
    var c := BitsOf(b);
    BitsStep(c, 0);
    BitsStep(c, 1);
    BitsStep(c, 2);
    BitsStep(c, 3);
    BitsStep(c, 4);
    BitsStep(c, 5);
    BitsStep(c, 6);
    BitsStep(c, 7);
    BitsStep(c, 8);
    assert c[0..] == c;
  }

  lemma DivDiv(x: nat, a: nat, b: nat)
    requires 0 < a && 0 < b
    ensures 0 < a * b && x / (a * b) == x / a / b
  {
    var y, r := x / a, x % a;
    var z, t := y / b, y % b;
    MulLt(0, a, b);
    MulDist(z * b, t, a);
    MulSwap(z, b, a);
    MulAssoc(z, a, b);
    MulLe(t, b - 1, a);
    MulLe(0, t, a);
    DivModUnique(x, a * b, z, t * a + r);
  }

  lemma DigitNext(x: nat, i: nat)
    ensures Digit(x, 0) == x % 256 && Digit(x, i + 1) == Digit(x / 256, i)
  {
    PowPos(256, i);
    assert Pow(256, i + 1) == 256 * Pow(256, i);
    DivDiv(x, 256, Pow(256, i));
  }

  lemma HeadAndRest(x: nat, b: nat, rest: nat)
    requires b < 256
    ensures x == b + 256 * rest <==> x % 256 == b && x / 256 == rest
  {
  }

  lemma RestFits(x: nat, p: nat)
    ensures x < 256 * p <==> x / 256 < p
  {
  }

  /** Reading bytes as a number and writing its digits are the same thing. */
  lemma {:induction false} NumberDecodes(s: Bytes, x: nat)
    ensures Decode(s) == x <==> NumberAt(s, 0, |s|, x)
  {
    if s == [] {
    } else {
      hide Weight, Digit, ByteValue;
      var t := s[1..];
      NumberDecodes(t, x / 256);
      ByteWeight(s[0]);
      HeadAndRest(x, ByteValue(s[0]), Decode(t));
      PowPos(256, |t|);
      RestFits(x, Pow(256, |t|));
      DigitNext(x, 0);
      forall i | 0 <= i < |t|
        ensures Digit(x, i + 1) == Digit(x / 256, i) && s[i + 1] == t[i]
      {
        DigitNext(x, i);
      }
      if NumberAt(s, 0, |s|, x) {
        forall i | 0 <= i < |t|
          ensures Weight(t[0 + i]) == Digit(x / 256, i)
        {
          assert Weight(s[0 + (i + 1)]) == Digit(x, i + 1);
        }
      }
      if NumberAt(t, 0, |t|, x / 256) && Weight(s[0]) == x % 256 {
        forall i | 0 <= i < |s|
          ensures Weight(s[0 + i]) == Digit(x, i)
        {
          if i > 0 {
            assert s[i] == t[0 + (i - 1)];
          }
        }
      }
    }
  }

  lemma NumberInSlice(s: Bytes, at: nat, n: nat, x: nat)
    requires at + n <= |s|
    ensures NumberAt(s, at, n, x) <==> Decode(s[at..at + n]) == x
  {
    hide Weight, Digit, Decode;
    var u := s[at..at + n];
    NumberDecodes(u, x);
    assert forall i :: 0 <= i < n ==> u[i] == s[at + i];
  }

  // Queries.

  /** Word k of a run of 32-bit words. */
  lemma {:induction false} WordDecoded(s: Bytes, n: nat, k: nat)
    requires |s| == 4 * n && k < n
    ensures DecodeWords(s, n)[k] == Decode(s[4 * k..4 * k + 4])
  {
    hide Decode;
    if k > 0 {
      WordDecoded(s[4..], n - 1, k - 1);
      assert s[4..][4 * (k - 1)..4 * (k - 1) + 4] == s[4 * k..4 * k + 4];
    }
  }

  lemma SliceOfSlice(s: Bytes, a: nat, b: nat, c: nat, d: nat)
    requires a <= b <= |s| && c <= d <= b - a
    ensures s[a..b][c..d] == s[a + c..a + d]
  {
    var l, r := s[a..b][c..d], s[a + c..a + d];
    assert |l| == |r| && forall i :: 0 <= i < |l| ==> l[i] == r[i];
  }

  lemma WordsInSlice(s: Bytes, at: nat, n: nat, ws: seq<Word32>)
    requires at + 4 * n <= |s|
    ensures DecodeWords(s[at..at + 4 * n], n) == ws <==>
      |ws| == n && forall k :: 0 <= k < n ==> NumberAt(s, at + 4 * k, 4, ws[k])
  {
    hide Decode, NumberAt;
    var u := s[at..at + 4 * n];
    forall k | 0 <= k < n && |ws| == n
      ensures DecodeWords(u, n)[k] == ws[k] <==> NumberAt(s, at + 4 * k, 4, ws[k])
    {
      WordDecoded(u, n, k);
      SliceOfSlice(s, at, at + 4 * n, 4 * k, 4 * k + 4);
      NumberInSlice(s, at + 4 * k, 4, ws[k]);
    }
  }

  lemma BitsInSlice(s: Bytes, at: nat, n: nat, bits: seq<bool>)
    requires at + (n + 7) / 8 <= |s|
    ensures Unpacked(s[at..at + (n + 7) / 8], n) == bits <==>
      |bits| == n && forall i :: 0 <= i < n ==> (bits[i] <==> BitAt(s, at, i))
  {
    hide Bit;
    var u := s[at..at + (n + 7) / 8];
    assert forall i :: 0 <= i < n ==> Unpacked(u, n)[i] == BitAt(s, at, i);
  }

  /** A query is read from position at on exactly when its bytes are there. */
  lemma QueryDecodes(s: Bytes, at: nat, q: BatchQuery, partNum: nat)
    requires at <= |s|
    ensures QueryAt(s, at, q, partNum) <==>
      QueryLength(s[at..], partNum) == Some(QuerySize(q, partNum)) && DecodeQuery(s[at..], partNum) == q
  {
    hide Decode, Unpacked, DecodeWords, NumberAt, BitAt;
    var u, bits := s[at..], (partNum + 7) / 8;
    var size := bits + 4 * partNum;
    if size + 8 <= |u| {
      assert u[..bits] == s[at..at + bits];
      assert u[bits..size] == s[at + bits..at + bits + 4 * partNum];
      assert u[size..size + 8] == s[at + size..at + size + 8];
      BitsInSlice(s, at, partNum, q.bvec);
      WordsInSlice(s, at + bits, partNum, q.svec);
      NumberInSlice(s, at + size, 8, |q.ct|);
      if size + 8 + |q.ct| <= |u| {
        assert u[size + 8..size + 8 + |q.ct|] == s[at + size + 8..at + size + 8 + |q.ct|];
      }
    }
  }

  /** A run of queries is read from position at on exactly when its bytes are there. */
  lemma {:induction false} QueriesDecode(s: Bytes, at: nat, qs: seq<BatchQuery>, partNum: nat)
    requires at <= |s|
    ensures QueriesAt(s, at, qs, partNum) <==> DecodeQueries(s[at..], partNum, |qs|) == Some(qs)
    decreases qs
  {
    hide QueryAt, QueryLength, DecodeQuery;
    if qs == [] {
      assert s[at..] == [] <==> at == |s|;
    } else {
      QueryDecodes(s, at, qs[0], partNum);
      var end := at + QuerySize(qs[0], partNum);
      if QueryLength(s[at..], partNum) == Some(QuerySize(qs[0], partNum)) {
        LengthFits(s[at..], partNum);
        QueriesDecode(s, end, qs[1..], partNum);
        assert s[at..][QuerySize(qs[0], partNum)..] == s[end..];
        assert qs == [qs[0]] + qs[1..];
      } else if QueryLength(s[at..], partNum).Some? {
        LengthIsSize(s[at..], partNum);
      }
    }
  }

  lemma LengthFits(s: Bytes, partNum: nat)
    requires QueryLength(s, partNum).Some?
    ensures QueryLength(s, partNum).value <= |s|
  {
  }

  lemma LengthIsSize(s: Bytes, partNum: nat)
    requires QueryLength(s, partNum).Some?
    ensures QueryLength(s, partNum).value == QuerySize(DecodeQuery(s, partNum), partNum)
  {
  }

  /** A payload is accepted as a batch exactly when its bytes are the count and then
      the queries, laid out one after the other and ending with the payload. */
  lemma AcceptedIff(payload: Bytes, partNum: nat, qs: seq<BatchQuery>)
    ensures DecodeBatch(payload, partNum) == Some(qs) <==>
      NumberAt(payload, 0, 4, |qs|) && QueriesAt(payload, 4, qs, partNum)
  {
    hide Decode, NumberAt, QueriesAt;
    if 4 <= |payload| {
      NumberInSlice(payload, 0, 4, |qs|);
      QueriesDecode(payload, 4, qs, partNum);
      if DecodeBatch(payload, partNum) == Some(qs) {
        QueriesCounted(payload[4..], partNum, Decode(payload[..4]));
      }
    } else {
      NumberNeedsBytes(payload, 4, |qs|);
    }
  }

  lemma NumberNeedsBytes(s: Bytes, n: nat, x: nat)
    requires |s| < n
    ensures !NumberAt(s, 0, n, x)
  {
  }

  lemma {:induction false} QueriesCounted(s: Bytes, partNum: nat, count: nat)
    ensures DecodeQueries(s, partNum, count).Some? ==> |DecodeQueries(s, partNum, count).value| == count
    decreases count
  {
    hide QueryLength, DecodeQuery;
    if count != 0 && QueryLength(s, partNum).Some? {
      LengthFits(s, partNum);
      QueriesCounted(s[QueryLength(s, partNum).value..], partNum, count - 1);
    }
  }

  /** What the sender makes is laid out like this. */
  lemma SentLayout(qs: seq<BatchQuery>, partNum: nat)
    requires |qs| < 0x1_0000_0000 && forall i :: 0 <= i < |qs| ==> QueryFits(qs[i], partNum)
    ensures NumberAt(EncodeBatch(qs), 0, 4, |qs|) && QueriesAt(EncodeBatch(qs), 4, qs, partNum)
  {
    hide EncodeBatch, DecodeBatch;
    BatchRoundTrip(qs, partNum);
    AcceptedIff(EncodeBatch(qs), partNum, qs);
  }

  /** Byte i of an encoded number. */
  lemma {:induction false} EncodedDigits(x: nat, n: nat, i: nat)
    requires i < n
    ensures 0 < Pow(256, i) && Weight(Encode(x, n)[i]) == x / Pow(256, i) % 256
  {
    hide Weight, LowByte, ByteValue;
    PowPos(256, i);
    ByteOfValue(x);
    ByteWeight(LowByte(x));
    DigitNext(x, 0);
    if i > 0 {
      EncodedDigits(x / 256, n - 1, i - 1);
      DigitNext(x, i - 1);
    }
  }
}
