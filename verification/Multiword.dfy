/** Numbers of several 64-bit words, least significant word first
    (encryption/utils/basics.h). */
module Multiword {
  import opened ModArith
  import opened Words

  /** The weight of word k. */
  ghost function W(k: nat): (w: int)
    ensures 0 < w
  {
    PowPos(B64, k);
    Pow(B64, k)
  }

  /** Word k of a number that is zero beyond its last word. */
  function Word(ws: seq<U64>, k: nat): U64 {
    if k < |ws| then ws[k] else 0
  }

  /** The value of the n lowest words. */
  ghost function Low(ws: seq<U64>, n: nat): (v: int)
  {
    if n == 0 then 0 else Low(ws, n - 1) + Word(ws, n - 1) * W(n - 1)
  }

  lemma WeightStep(k: nat)
    ensures W(k + 1) == W(k) * B64
  {
  }

  lemma WeightAdd(i: nat, j: nat)
    ensures W(i + j) == W(i) * W(j)
  {
    PowAdd(B64, i, j);
  }

  lemma {:induction false} LowBounds(ws: seq<U64>, n: nat)
    ensures 0 <= Low(ws, n) < W(n)
  {
    if n != 0 {
      LowBounds(ws, n - 1);
      WeightStep(n - 1);
      MulLe(0, Word(ws, n - 1), W(n - 1));
      MulLe(Word(ws, n - 1), B64 - 1, W(n - 1));
    }
  }

  /** Low depends on nothing but the words it names. */
  lemma {:induction false} LowSame(a: seq<U64>, b: seq<U64>, n: nat)
    requires forall k :: 0 <= k < n ==> Word(a, k) == Word(b, k)
    ensures Low(a, n) == Low(b, n)
  {
    if n != 0 {
      LowSame(a, b, n - 1);
    }
  }

  lemma {:induction false} LowZero(ws: seq<U64>, i: nat, n: nat)
    requires i <= n && forall k :: i <= k < n ==> Word(ws, k) == 0
    ensures Low(ws, n) == Low(ws, i)
    decreases n - i
  {
    if i < n {
      LowZero(ws, i, n - 1);
    }
  }

  /** Dropping the bottom word divides the weights by 2^64. */
  lemma {:induction false} LowTail(ws: seq<U64>, n: nat)
    requires 1 <= |ws|
    ensures Low(ws, n + 1) == ws[0] + B64 * Low(ws[1..], n)
  {
    if n == 0 {
      assert W(0) == 1;
      assert Low(ws, 1) == Low(ws, 0) + Word(ws, 0) * W(0);
    } else {
      LowTail(ws, n - 1);
      WeightStep(n - 1);
      assert Word(ws, n) == Word(ws[1..], n - 1);
      MulDist(Low(ws[1..], n - 1), Word(ws[1..], n - 1) * W(n - 1), B64);
      MulAssoc(Word(ws, n), W(n - 1), B64);
    }
  }

  /** Both ways of reading a word sequence agree. */
  lemma {:induction false} LowIsVal(ws: seq<U64>)
    ensures Low(ws, |ws|) == Val(ws)
  {
    if ws != [] {
      LowIsVal(ws[1..]);
      LowTail(ws, |ws| - 1);
    }
  }

  /** The words from n up are a multiple of the weight of word n. */
  lemma {:induction false} LowCongruent(ws: seq<U64>, n: nat, top: nat)
    requires n <= top
    ensures Cong(Low(ws, n), Low(ws, top), W(n))
    decreases top - n
  {
    if n < top {
      LowCongruent(ws, n, top - 1);
      WeightAdd(n, top - 1 - n);
      var c := Word(ws, top - 1) * W(top - 1 - n);
      assert Word(ws, top - 1) * W(top - 1) == c * W(n) by {
        MulSwap(Word(ws, top - 1), W(top - 1 - n), W(n));
        MulAssoc(Word(ws, top - 1), W(n), W(top - 1 - n));
      }
      CongIntro(Low(ws, top), Low(ws, top - 1), W(n), c);
    }
  }

  /** Writing one word moves the value by the difference at that weight. */
  lemma {:induction false} LowUpdate(ws: seq<U64>, k: nat, v: U64, n: nat)
    requires k < n <= |ws|
    ensures Low(ws[k := v], n) == Low(ws, n) + (v - ws[k]) * W(k)
  {
    if k == n - 1 {
      LowSame(ws, ws[k := v], n - 1);
      var old': int := ws[k];
      MulDist(v, -old', W(k));
    } else {
      LowUpdate(ws, k, v, n - 1);
    }
  }

  /** add_uint_carry.  Operands shorter than the result read as zero above
      their last word, and either may be the result itself. */
  method AddUintCarry(a: array<U64>, b: array<U64>, carryIn: U64, result: array<U64>) returns (carry: U64)
    requires carryIn <= 1
    modifies result
    ensures carry <= 1
    ensures Low(result[..], result.Length) + carry * W(result.Length)
         == Low(old(a[..]), result.Length) + Low(old(b[..]), result.Length) + carryIn
  {
    ghost var a0, b0 := a[..], b[..];
    carry := carryIn;
    var i := 0;
    assert W(0) == 1;
    while i < result.Length
      invariant 0 <= i <= result.Length && carry <= 1
      invariant forall k :: i <= k < a.Length ==> a[k] == a0[k]
      invariant forall k :: i <= k < b.Length ==> b[k] == b0[k]
      invariant Low(result[..], i) + carry * W(i) == Low(a0, i) + Low(b0, i) + carryIn
    {
      var x := if i < a.Length then a[i] else 0;
      var y := if i < b.Length then b[i] else 0;
      var word, c := AddUint64Carry(x, y, carry);
      ghost var before := result[..];
      result[i] := word;
      LowSame(before, result[..], i);
      CarryWord(x, y, carry, word, c, W(i));
      WeightStep(i);
      carry := c;
      i := i + 1;
    }
  }

  lemma CarryWord(x: int, y: int, carry: int, word: int, c: int, w: int)
    requires word + c * B64 == x + y + carry
    ensures word * w + c * (w * B64) == x * w + y * w + carry * w
  {
    MulDist(word, c * B64, w);
    MulSwap(c, B64, w);
    MulAssoc(c, w, B64);
    MulDist(x + y, carry, w);
    MulDist(x, y, w);
  }

  lemma BorrowWord(x: int, y: int, borrow: int, word: int, c: int, w: int)
    requires word - c * B64 == x - y - borrow
    ensures word * w - c * (w * B64) == x * w - y * w - borrow * w
  {
    CarryWord(x, -y, -borrow, word, -c, w);
    MulDist(0, -y, w);
    MulDist(0, -borrow, w);
  }

  /** sub_uint_borrow. */
  method SubUintBorrow(a: array<U64>, b: array<U64>, borrowIn: U64, result: array<U64>) returns (borrow: U64)
    requires borrowIn <= 1
    modifies result
    ensures borrow <= 1
    ensures Low(result[..], result.Length) - borrow * W(result.Length)
         == Low(old(a[..]), result.Length) - Low(old(b[..]), result.Length) - borrowIn
  {
    ghost var a0, b0 := a[..], b[..];
    borrow := borrowIn;
    var i := 0;
    assert W(0) == 1;
    while i < result.Length
      invariant 0 <= i <= result.Length && borrow <= 1
      invariant forall k :: i <= k < a.Length ==> a[k] == a0[k]
      invariant forall k :: i <= k < b.Length ==> b[k] == b0[k]
      invariant Low(result[..], i) - borrow * W(i) == Low(a0, i) - Low(b0, i) - borrowIn
    {
      var x := if i < a.Length then a[i] else 0;
      var y := if i < b.Length then b[i] else 0;
      var word, c := SubUint64Borrow(x, y, borrow);
      ghost var before := result[..];
      result[i] := word;
      LowSame(before, result[..], i);
      BorrowWord(x, y, borrow, word, c, W(i));
      WeightStep(i);
      borrow := c;
      i := i + 1;
    }
  }

  /** The highest differing word decides. */
  lemma TopDecides(a: seq<U64>, b: seq<U64>, i: nat)
    requires Word(a, i) < Word(b, i)
    ensures Low(a, i + 1) < Low(b, i + 1)
  {
    LowBounds(a, i);
    LowBounds(b, i);
    MulLe(Word(a, i) + 1, Word(b, i), W(i));
    MulDist(Word(a, i), 1, W(i));
  }

  lemma PaddedValue(ws: seq<U64>, n: nat)
    requires |ws| <= n
    ensures Low(ws, n) == Val(ws)
  {
    LowIsVal(ws);
    LowZero(ws, |ws|, n);
  }

  /** compare_uint: the sign of the difference of the two numbers. */
  method CompareUint(a: array<U64>, b: array<U64>) returns (r: int)
    ensures r in {-1, 0, 1}
    ensures r > 0 <==> Val(a[..]) > Val(b[..])
    ensures r < 0 <==> Val(a[..]) < Val(b[..])
  {
    var n := if a.Length > b.Length then a.Length else b.Length;
    PaddedValue(a[..], n);
    PaddedValue(b[..], n);
    var i := n - 1;
    while i >= 0
      invariant -1 <= i < n
      invariant Val(a[..]) - Val(b[..]) == Low(a[..], i + 1) - Low(b[..], i + 1)
    {
      var x := if i < a.Length then a[i] else 0;
      var y := if i < b.Length then b[i] else 0;
      assert x == Word(a[..], i) && y == Word(b[..], i);
      if x > y {
        TopDecides(b[..], a[..], i);
        return 1;
      }
      if x < y {
        TopDecides(a[..], b[..], i);
        return -1;
      }
      i := i - 1;
    }
    return 0;
  }

  lemma FullValues(ws: seq<U64>)
    ensures Low(ws, |ws|) == Val(ws) && 0 <= Val(ws) < W(|ws|)
  {
    LowIsVal(ws);
    LowBounds(ws, |ws|);
  }

  /** A number that fits n words is the value of its n lowest. */
  lemma FittingValue(ws: seq<U64>, n: nat)
    requires Val(ws) < W(n)
    ensures Low(ws, n) == Val(ws)
  {
    if |ws| <= n {
      PaddedValue(ws, n);
    } else {
      LowIsVal(ws);
      LowBounds(ws, n);
      LowBounds(ws, |ws|);
      LowCongruent(ws, n, |ws|);
      CongUnique(Low(ws, n), Val(ws), W(n));
    }
  }

  /** add_uint_mod: the carry word and one subtraction reduce the sum of two
      residues, whatever the word counts, when the modulus fits the result.  Over the
      modulus itself the sum is compared with, and taken from, itself. */
  method AddUintMod(a: array<U64>, b: array<U64>, modulus: array<U64>, result: array<U64>)
    requires Val(modulus[..]) < W(result.Length)
    requires Val(a[..]) < Val(modulus[..]) && Val(b[..]) < Val(modulus[..])
    modifies result
    ensures Val(result[..])
         == if result == modulus then 0 else (Val(old(a[..])) + Val(old(b[..]))) % Val(old(modulus[..]))
  {
    ghost var n, x: int, y: int, m: int := result.Length, Val(a[..]), Val(b[..]), Val(modulus[..]);
    FittingValue(a[..], n);
    FittingValue(b[..], n);
    FittingValue(modulus[..], n);
    hide Val, Low, W;
    var carry := AddUintCarry(a, b, 0, result);
    FullValues(result[..]);
    ghost var sum := Val(result[..]);
    var order := CompareUint(result, modulus);
    if carry != 0 || order >= 0 {
      var borrow := SubUintBorrow(result, modulus, 0, result);
      FullValues(result[..]);
      if result == modulus {
        ZeroDifference(W(n), borrow, Val(result[..]));
      } else {
        WrappedDifference(x, y, m, W(n), carry, sum, borrow, Val(result[..]));
      }
    } else {
      SmallMod(x + y, m);
    }
  }

  lemma WrappedDifference(x: int, y: int, m: int, w: int, carry: int, sum: int, borrow: int, v: int)
    requires 0 <= x < m < w && 0 <= y < m && 0 <= sum < w && 0 <= v < w
    requires 0 <= carry <= 1 && 0 <= borrow <= 1 && sum + carry * w == x + y && v - borrow * w == sum - m
    requires carry != 0 || sum >= m
    ensures v == (x + y) % m
  {
    assert carry == borrow;
    DivModUnique(x + y, m, 1, x + y - m);
  }

  lemma ZeroDifference(w: int, borrow: int, v: int)
    requires 0 <= v < w && 0 <= borrow <= 1 && v - borrow * w == 0
    ensures v == 0
  {
  }

  lemma WrappedSum(z: int, m: int, w: int, carry: int, v: int)
    requires 0 < m < w && -m < z < 0 && 0 <= v < w && 0 <= carry <= 1
    requires v + carry * w == z + w + m
    ensures v == z % m
  {
    DivModUnique(z, m, -1, z + m);
  }

  lemma DoubledResidue(d: int, w: int, carry: int, v: int)
    requires 0 <= v < w && 0 <= carry <= 1 && v + carry * w == (d + w) + (d + w)
    ensures v == 2 * d % w
  {
    if carry == 0 {
      DivModUnique(2 * d, w, -2, v);
    } else {
      DivModUnique(2 * d, w, -1, v);
    }
  }

  /** sub_uint_mod.  Over the modulus itself a borrow adds the difference to itself. */
  method SubUintMod(a: array<U64>, b: array<U64>, modulus: array<U64>, result: array<U64>)
    requires Val(modulus[..]) < W(result.Length)
    requires Val(a[..]) < Val(modulus[..]) && Val(b[..]) < Val(modulus[..])
    modifies result
    ensures var x, y := Val(old(a[..])), Val(old(b[..]));
      Val(result[..]) == if result == modulus && x < y then SubtractedOver(x, y, result.Length)
                         else (x - y) % Val(old(modulus[..]))
  {
    ghost var n, x: int, y: int, m: int := result.Length, Val(a[..]), Val(b[..]), Val(modulus[..]);
    FittingValue(a[..], n);
    FittingValue(b[..], n);
    FittingValue(modulus[..], n);
    hide Val, Low, W;
    var borrow := SubUintBorrow(a, b, 0, result);
    FullValues(result[..]);
    if borrow != 0 {
      var carry := AddUintCarry(result, modulus, 0, result);
      FullValues(result[..]);
      if result == modulus {
        DoubledResidue(x - y, W(n), carry, Val(result[..]));
      } else {
        WrappedSum(x - y, m, W(n), carry, Val(result[..]));
      }
    } else {
      DivModUnique(x - y, m, 0, x - y);
    }
  }

  /** Twice a negative difference, wrapped around n words. */
  ghost function SubtractedOver(x: int, y: int, n: nat): int {
    2 * (x - y) % W(n)
  }

  /** Over the modulus m, sub_uint_mod is right after a borrow exactly when the
      operands differ by what m leaves of the result's range. */
  lemma SubtractedOverIff(x: int, y: int, m: int, n: nat)
    requires 0 <= x < y < m < W(n)
    ensures SubtractedOver(x, y, n) == (x - y) % m <==> y - x == W(n) - m
  {
    DivModUnique(x - y, m, -1, x - y + m);
    if 0 <= 2 * (x - y) + W(n) {
      DivModUnique(2 * (x - y), W(n), -1, 2 * (x - y) + W(n));
    } else {
      DivModUnique(2 * (x - y), W(n), -2, 2 * (x - y) + 2 * W(n));
    }
  }

  /** Over the modulus m, add_uint_mod is right exactly when the operands are both
      zero or add up to m. */
  lemma AddedOverIff(x: int, y: int, m: int)
    requires 0 <= x < m && 0 <= y < m
    ensures 0 == (x + y) % m <==> (x == 0 && y == 0) || x + y == m
  {
    if x + y < m {
      SmallMod(x + y, m);
    } else {
      DivModUnique(x + y, m, 1, x + y - m);
    }
  }

  lemma NegatedWord(low: int, lowA: int, a: int, word: int, c: int, carry: int, first: int, w: int)
    requires word + c * B64 == B64 - 1 - a + carry
    requires low + carry * w == w - lowA - first
    ensures (low + word * w) + c * (w * B64) == w * B64 - (lowA + a * w) - first
  {
    MulDist(word, c * B64, w);
    MulSwap(c, B64, w);
    MulAssoc(c, w, B64);
    MulDist(B64 - 1 - a, carry, w);
    MulDist(B64 - 1, 0 - a, w);
    MulNeg(a, w);
    MulDist(B64, -1, w);
  }

  /** The low word the second pass of negate_uint reads: the operand's own, or the
      one the first step has just written over it. */
  function SecondReading(a0: U64, inPlace: bool): U64 {
    if inPlace && a0 != 0 then B64 - a0 else a0
  }

  /** What negate_uint leaves.  Its loop starts again at word 0 with the carry that
      word has already produced, so a nonzero low word loses the added one. */
  ghost function Negated(a: seq<U64>, inPlace: bool): (r: int)
    requires |a| >= 1
    ensures 0 <= r < W(|a|)
  {
    (0 - Val(a[0 := SecondReading(a[0], inPlace)]) - (if a[0] == 0 then 0 else 1)) % W(|a|)
  }

  lemma NoLowWords(r: seq<U64>, a: seq<U64>)
    ensures Low(r, 0) == Low(a, 0) == 0 && W(0) == 1
  {
  }

  lemma LowNext(ws: seq<U64>, i: nat)
    requires i < |ws|
    ensures Low(ws, i + 1) == Low(ws, i) + ws[i] * W(i)
  {
  }

  /** negate_uint, in place or not. */
  method NegateUint(operand: array<U64>, result: array<U64>)
    requires operand.Length == result.Length >= 1
    modifies result
    ensures Val(result[..]) == Negated(old(operand[..]), result == operand)
  {
    hide Val, Low;
    ghost var a := operand[..];
    var word: U64, carry: U64 := AddUint64(B64 - 1 - operand[0], 1);
    result[0] := word;
    ghost var first := if a[0] == 0 then 0 else 1;
    ghost var n, seen: seq<U64> := result.Length, a[0 := SecondReading(a[0], result == operand)];
    NoLowWords(result[..], seen);
    for i := 0 to result.Length
      invariant carry <= 1
      invariant forall k :: i <= k < n ==> operand[k] == seen[k]
      invariant Low(result[..], i) + carry * W(i) == W(i) - Low(seen, i) - first
    {
      var inverted: U64 := B64 - 1 - operand[i];
      var next: U64, c: U64 := AddUint64Carry(inverted, 0, carry);
      WeightStep(i);
      NegatedWord(Low(result[..], i), Low(seen, i), seen[i], next, c, carry, first, W(i));
      ghost var before := result[..];
      result[i] := next;
      LowSame(before, result[..], i);
      LowNext(result[..], i);
      LowNext(seen, i);
      carry := c;
    }
    FullValues(result[..]);
    FullValues(seen);
    DivModUnique(0 - Val(seen) - first, W(n), carry - 1, Val(result[..]));
  }

  /** negate_uint, in place or not, negates exactly the numbers whose low word is
      zero: otherwise the result misses the negation by an odd number. */
  lemma NegateUintIff(a: seq<U64>, inPlace: bool)
    requires |a| >= 1
    ensures Negated(a, inPlace) == (0 - Val(a)) % W(|a|) <==> a[0] == 0
  {
    hide Negated, Val, W;
    NegatedIs(a, inPlace);
    if a[0] != 0 {
      NegationMissed(a, inPlace);
    } else {
      assert a[0 := SecondReading(a[0], inPlace)] == a;
    }
  }

  lemma NegationMissed(a: seq<U64>, inPlace: bool)
    requires |a| >= 1 && a[0] != 0
    ensures 0 < W(|a|)
    ensures (0 - Val(a[0 := SecondReading(a[0], inPlace)]) - 1) % W(|a|) != (0 - Val(a)) % W(|a|)
  {
    var read: U64, a0: U64 := SecondReading(a[0], inPlace), a[0];
    LowWordChange(a, read);
    hide Val, W;
    var d := 0 + read - a0 + 1;
    OddMiss(|a|, d);
    DifferentResidues(0 - Val(a[0 := read]) - 1, 0 - Val(a), d, W(|a|));
  }

  lemma NegatedIs(a: seq<U64>, inPlace: bool)
    requires |a| >= 1
    ensures 0 < W(|a|)
    ensures Negated(a, inPlace)
         == (0 - Val(a[0 := SecondReading(a[0], inPlace)]) - (if a[0] == 0 then 0 else 1)) % W(|a|)
  {
  }

  lemma DifferentResidues(x: int, y: int, d: int, m: int)
    requires 0 < m && y - x == d && d % m != 0
    ensures x % m != y % m
  {
    if Cong(y, x, m) {
      CongZeroDifference(y, x, m);
    }
  }

  lemma LowWordChange(a: seq<U64>, v: U64)
    requires |a| >= 1
    ensures Val(a[0 := v]) == Val(a) + v - a[0]
  {
    assert a[0 := v][1..] == a[1..];
  }

  /** A weight above the first divides no odd number. */
  lemma OddMiss(n: nat, d: int)
    requires 1 <= n && d % 2 == 1
    ensures d % W(n) != 0
  {
    WeightStep(n - 1);
    var m, h := W(n), W(n - 1) * 0x8000_0000_0000_0000;
    assert m == 2 * h;
    assert d == d / m * m + d % m;
    assert d / m * (2 * h) == 2 * (d / m * h);
  }

  /** The single word 1 is turned into 2^64 - 2, not 2^64 - 1; in place, into 0. */
  lemma NegateOneWrong(a: seq<U64>)
    requires a == [1]
    ensures Negated(a, false) == B64 - 2 && Negated(a, true) == 0 && (0 - Val(a)) % W(1) == B64 - 1
  {
    assert Val(a[1..]) == 0 && W(0) == 1 && W(1) == B64;
    LowWordChange(a, B64 - 1);
    LowWordChange(a, 1);
  }
}
