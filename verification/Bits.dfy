/** The packed indicator bits: eight hints share a byte. */
module Bits {

  /** Bit k of a byte, as the program extracts it. */
  predicate Bit(b: bv8, k: nat)
    requires k < 8
  {
    (b >> k) & 1 == 1
  }

  function One(k: nat): bv8
    requires k < 8
  {
    1 << k
  }

  /** Replace bit k: clear it with a mask, then or the new value in. */
  function SetBit(b: bv8, k: nat, v: bool): bv8
    requires k < 8
  {
    (b & !One(k)) | (if v then One(k) else 0)
  }

  lemma BitIsMasked(b: bv8, k: nat)
    requires k < 8
    ensures Bit(b, k) <==> b & One(k) != 0
  {
  }

  /** Bit k has weight 2^k. */
  lemma BitMasks(b: bv8)
    ensures Bit(b, 0) <==> b & 1 != 0
    ensures Bit(b, 1) <==> b & 2 != 0
    ensures Bit(b, 2) <==> b & 4 != 0
    ensures Bit(b, 3) <==> b & 8 != 0
    ensures Bit(b, 4) <==> b & 16 != 0
    ensures Bit(b, 5) <==> b & 32 != 0
    ensures Bit(b, 6) <==> b & 64 != 0
    ensures Bit(b, 7) <==> b & 128 != 0
  {
  }

  lemma OnesDiffer(k: nat, j: nat)
    requires k < 8 && j < 8
    ensures One(k) & One(j) == if j == k then One(k) else 0
    ensures One(k) != 0
  {
  }

  lemma ClearedAndSet(b: bv8, x: bv8, y: bv8)
    ensures ((b & !x) | x) & x == x && ((b & !x) | 0) & x == 0
    ensures x & y == 0 ==> ((b & !x) | x) & y == ((b & !x) | 0) & y == b & y
  {
  }

  /** Writing one indicator bit reads back and changes no other bit. */
  lemma SetBitExact(b: bv8, k: nat, v: bool, j: nat)
    requires k < 8 && j < 8
    ensures Bit(SetBit(b, k, v), j) == if j == k then v else Bit(b, j)
  {
    BitIsMasked(b, j);
    BitIsMasked(SetBit(b, k, v), j);
    OnesDiffer(k, j);
    ClearedAndSet(b, One(k), One(j));
  }

  /** A byte of ones has every bit set. */
  lemma AllOnes(k: nat)
    requires k < 8
    ensures Bit(255, k)
  {
    BitIsMasked(255, k);
    OnesDiffer(k, k);
  }
}
