/** The protocol's parameters and its pseudorandom function, an arbitrary
    function of three words to 16-byte blocks (src/include/utils.h). */
module Prf {
  import opened Cutoff
  import opened Sampling

  type Byte = x: nat | x < 256
  type Word16 = x: nat | x < 65536
  type Block = b: seq<Byte> | |b| == 16 witness seq(16, i => 0)
  type PrfFn = (nat, nat, nat) -> Block

  /** Database geometry and moduli.  With LAMBDA = 30, there are M = 30 * partSize
      hints and M / 2 backup pairs. */
  datatype Params = Params(partNum: nat, partSize: nat, n: nat, q: nat, p: nat) {
    ghost predicate Valid() {
      && 1 <= partNum <= 0x8000 && (partNum == 1 || partNum % 2 == 0)
      && 1 <= partSize <= n && partSize <= 0x8000
      && 1 < p < q
    }

    function M(): nat { 30 * partSize }

    /** M / 2: the distance between the two sides of a backup pair. */
    function Pairs(): nat { 15 * partSize }

    function BackupsEnd(): nat { M() + Pairs() }

    function Slots(): nat { 2 * M() }
  }

  /** Little-endian 32-bit lane i of a block. */
  function Lane32(b: Block, i: nat): Word32
    requires i < 4
  {
    (b[4 * i] as int) + 0x100 * (b[4 * i + 1] as int)
    + 0x1_0000 * (b[4 * i + 2] as int) + 0x100_0000 * (b[4 * i + 3] as int)
  }

  /** Little-endian 16-bit lane i of a block. */
  function Lane16(b: Block, i: nat): Word16
    requires i < 8
  {
    (b[2 * i] as int) + 0x100 * (b[2 * i + 1] as int)
  }

  /** The little-endian value of a block from byte k on. */
  ghost function BytesFrom(b: Block, k: nat): nat
    requires k <= 16
    decreases 16 - k
  {
    if k == 16 then 0 else b[k] + 256 * BytesFrom(b, k + 1)
  }

  lemma NextLane(b: Block, i: nat)
    ensures i < 4 ==> BytesFrom(b, 4 * i) == Lane32(b, i) + 0x1_0000_0000 * BytesFrom(b, 4 * i + 4)
    ensures i < 8 ==> BytesFrom(b, 2 * i) == Lane16(b, i) + 0x1_0000 * BytesFrom(b, 2 * i + 2)
  {
    if i < 4 {
      assert BytesFrom(b, 4 * i) == b[4 * i] + 256 * BytesFrom(b, 4 * i + 1);
      assert BytesFrom(b, 4 * i + 1) == b[4 * i + 1] + 256 * BytesFrom(b, 4 * i + 2);
      assert BytesFrom(b, 4 * i + 2) == b[4 * i + 2] + 256 * BytesFrom(b, 4 * i + 3);
    }
    if i < 8 {
      assert BytesFrom(b, 2 * i) == b[2 * i] + 256 * BytesFrom(b, 2 * i + 1);
    }
  }

  /** The 32-bit value compared with a hint's cutoff. */
  function SelectValue(f: PrfFn, id: nat, part: nat): Word32 {
    Lane32(f(id / 4, part, 1), id % 4)
  }

  /** PRFHintID::PRF4Select: one block serves four consecutive hints. */
  predicate Prf4Select(f: PrfFn, id: nat, part: nat, cutoff: nat) {
    SelectValue(f, id, part) < cutoff
  }

  /** PRFHintID::PRF4Idx: one block serves eight consecutive hints. */
  function Prf4Idx(f: PrfFn, id: nat, part: nat): Word16 {
    Lane16(f(id / 8, part, 2), id % 8)
  }

  /** The c-th dummy index; the block number is passed as a 32-bit word. */
  function DummyIdx(f: PrfFn, c: nat): Word16 {
    Lane16(f(0, c / 8 % 0x1_0000_0000, 0), c % 8)
  }

  lemma EndOfBlock(b: Block)
    ensures BytesFrom(b, 16) == 0
  {
  }

  /** The number with these digits in base 2^32, lowest first. */
  ghost function Digits32(s: seq<Word32>): nat {
    if s == [] then 0 else s[0] + 0x1_0000_0000 * Digits32(s[1..])
  }

  /** The number with these digits in base 2^16, lowest first. */
  ghost function Digits16(s: seq<Word16>): nat {
    if s == [] then 0 else s[0] + 0x1_0000 * Digits16(s[1..])
  }

  lemma {:induction false} LaneDigits32(b: Block, s: seq<Word32>, i: nat)
    requires i + |s| == 4 && forall l :: 0 <= l < |s| ==> s[l] == Lane32(b, i + l)
    ensures Digits32(s) == BytesFrom(b, 4 * i)
    decreases |s|
  {
    hide Lane32;
    if s == [] {
      EndOfBlock(b);
    } else {
      LaneDigits32(b, s[1..], i + 1);
      NextLane(b, i);
    }
  }

  lemma {:induction false} LaneDigits16(b: Block, s: seq<Word16>, i: nat)
    requires i + |s| == 8 && forall l :: 0 <= l < |s| ==> s[l] == Lane16(b, i + l)
    ensures Digits16(s) == BytesFrom(b, 2 * i)
    decreases |s|
  {
    hide Lane16;
    if s == [] {
      EndOfBlock(b);
    } else {
      LaneDigits16(b, s[1..], i + 1);
      NextLane(b, i);
    }
  }

  /** The select values of four hints in a row are the digits of one block's value. */
  lemma SelectBlock(f: PrfFn, block: nat, part: nat, s: seq<Word32>)
    requires |s| == 4 && forall l :: 0 <= l < 4 ==> s[l] == SelectValue(f, 4 * block + l, part)
    ensures Digits32(s) == BytesFrom(f(block, part, 1), 0)
  {
    hide Lane32, BytesFrom;
    LaneDigits32(f(block, part, 1), s, 0);
  }

  /** The indices of eight hints in a row are the digits of one block's value. */
  lemma IndexBlock(f: PrfFn, block: nat, part: nat, s: seq<Word16>)
    requires |s| == 8 && forall l :: 0 <= l < 8 ==> s[l] == Prf4Idx(f, 8 * block + l, part)
    ensures Digits16(s) == BytesFrom(f(block, part, 2), 0)
  {
    hide Lane16, BytesFrom;
    LaneDigits16(f(block, part, 2), s, 0);
  }

  /** So are eight dummy indices; the block number wraps at 2^32. */
  lemma DummyBlock(f: PrfFn, block: nat, s: seq<Word16>)
    requires |s| == 8 && forall l :: 0 <= l < 8 ==> s[l] == DummyIdx(f, 8 * block + l)
    ensures Digits16(s) == BytesFrom(f(0, block % 0x1_0000_0000, 0), 0)
  {
    hide Lane16, BytesFrom;
    forall l | 0 <= l < 8
      ensures s[l] == Lane16(f(0, block % 0x1_0000_0000, 0), l)
    {
      assert (8 * block + l) / 8 == block;
    }
    LaneDigits16(f(0, block % 0x1_0000_0000, 0), s, 0);
  }

  /** The values whose median is hint id's cutoff. */
  function SelectValues(f: PrfFn, id: nat, partNum: nat): (s: seq<Word32>)
    ensures |s| == partNum
  {
    seq(partNum, k requires 0 <= k => SelectValue(f, id, k))
  }

  /** The cutoff Offline gives hint id. */
  ghost function HintCutoff(pp: Params, f: PrfFn, id: nat): int {
    CutoffOf(SelectValues(f, id, pp.partNum))
  }
}
