/** Products of multiword numbers (encryption/utils/basics.h). */
module MultiwordProduct {
  import opened ModArith
  import opened Words
  import opened Multiword
  import opened TwoAdic

  /** One product word with two carries: no word overflows on the way. */
  method MultiplyAccumulate(x: U64, y: U64, word: U64, carryIn: U64) returns (result: U64, carry: U64)
    ensures result + carry * B64 == word + x * y + carryIn
  {
    var lo, hi := MultiplyWide(x, y);
    var sum, c1 := AddUint64Carry(lo, carryIn, 0);
    var out, c2 := AddUint64Carry(word, sum, 0);
    ProductRoom(x, y, hi, lo);
    result := out;
    carry := hi + c1 + c2;
  }

  lemma ProductRoom(x: U64, y: U64, hi: int, lo: int)
    requires lo + hi * B64 == x * y
    ensures lo + hi * B64 <= (B64 - 1) * (B64 - 1)
  {
    WideBound(x, y);
  }

  /** A finished row position, at its weight. */
  lemma ScaleStep(word: int, carry: int, old': int, x: int, y: int, carryIn: int, w: int)
    requires word + carry * B64 == old' + x * y + carryIn
    ensures (word - old') * w + carry * (w * B64) == x * (y * w) + carryIn * w
  {
    MulDist(word, -old', w);
    MulDist(word - old', carry * B64, w);
    MulSwap(carry, B64, w);
    MulAssoc(carry, w, B64);
    MulDist(x * y, carryIn, w);
    MulAssoc(x, y, w);
  }

  method SetZero(result: array<U64>)
    modifies result
    ensures forall k :: 0 <= k < result.Length ==> result[k] == 0
  {
    var i := 0;
    while i < result.Length
      invariant 0 <= i <= result.Length
      invariant forall k :: 0 <= k < i ==> result[k] == 0
    {
      result[i] := 0;
      i := i + 1;
    }
  }

  lemma ZeroValue(ws: seq<U64>)
    requires forall k :: 0 <= k < |ws| ==> ws[k] == 0
    ensures Val(ws) == 0
  {
    LowZero(ws, 0, |ws|);
    LowIsVal(ws);
  }

  /** A full result congruent to a number is that number's residue. */
  lemma ResultIs(ws: seq<U64>, product: int)
    requires Cong(Low(ws, |ws|), product, W(|ws|))
    ensures Val(ws) == product % W(|ws|)
  {
    FullValues(ws);
    SmallMod(Val(ws), W(|ws|));
  }

  lemma ValCongruent(ws: seq<U64>, n: nat)
    ensures Cong(Low(ws, n), Val(ws), W(n))
  {
    LowIsVal(ws);
    if n <= |ws| {
      LowCongruent(ws, n, |ws|);
    } else {
      LowZero(ws, |ws|, n);
    }
  }

  /** The state of a row of the schoolbook product: x times the first j words
      of b has been added at word i, and a carry is still to be placed. */
  ghost predicate Row(r: seq<U64>, n: nat, start: int, x: int, b: seq<U64>, i: nat, j: nat, carry: int) {
    Low(r, n) + carry * W(i + j) == start + x * (Low(b, j) * W(i))
  }

  lemma RowStep(r: seq<U64>, n: nat, start: int, x: U64, b: seq<U64>, i: nat, j: nat, carry: U64, word: U64, c: U64)
    requires i + j < n == |r| && j < |b| && Row(r, n, start, x, b, i, j, carry)
    requires word + c * B64 == r[i + j] + x * b[j] + carry
    ensures Row(r[i + j := word], n, start, x, b, i, j + 1, c)
  {
    LowUpdate(r, i + j, word, n);
    ScaleStep(word, c, r[i + j], x, b[j], carry, W(i + j));
    WeightStep(i + j);
    assert i + (j + 1) == i + j + 1;
    WeightAdd(i, j);
    MulAssoc(b[j], W(j), W(i));
    MulDist(Low(b, j), b[j] * W(j), W(i));
    MulSub(x, Low(b, j + 1) * W(i), Low(b, j) * W(i));
  }

  /** What a whole row adds, up to the weight just above the result. */
  lemma RowAdds(i: nat, j: nat, n: nat, x: int, b: seq<U64>)
    requires i <= n && (j == |b| || i + j == n)
    ensures Cong(x * (Low(b, j) * W(i)), x * W(i) * Val(b), W(n))
  {
    MulSwap(x, W(i), Val(b));
    MulAssoc(x, Val(b), W(i));
    if j == |b| {
      LowIsVal(b);
    } else {
      ValCongruent(b, j);
      var k := CongElim(Low(b, j), Val(b), W(j));
      WeightAdd(i, j);
      MulDist(Val(b), k * W(j), W(i));
      MulAssoc(k, W(j), W(i));
      MulDist(Val(b) * W(i), k * W(n), x);
      MulSwap(k, W(n), x);
      CongIntro(x * (Low(b, j) * W(i)), x * (Val(b) * W(i)), W(n), k * x);
    }
  }

  lemma PlaceCarry(r: seq<U64>, k: nat, carry: U64, n: nat)
    requires k < n == |r| && r[k] == 0
    ensures Low(r[k := carry], n) == Low(r, n) + carry * W(k)
  {
    LowUpdate(r, k, carry, n);
  }

  /** A finished row, its last carry placed or dropped off the top. */
  lemma RowPlaced(r: seq<U64>, n: nat, start: int, x: int, b: seq<U64>, i: nat, j: nat, carry: U64,
                  r': seq<U64>, added: int)
    requires |r| == n && i + j <= n && added == x * (Low(b, j) * W(i))
    requires Row(r, n, start, x, b, i, j, carry)
    requires if i + j < n then r[i + j] == 0 && r' == r[i + j := carry] else r' == r
    ensures Cong(Low(r', n), start + added, W(n))
  {
    hide Low, W;
    if i + j < n {
      PlaceCarry(r, i + j, carry, n);
    } else {
      CongIntro(Low(r', n), start + added, W(n), 0 - carry as int);
    }
  }

  lemma RowDone(r: seq<U64>, n: nat, start: int, x: int, b: seq<U64>, i: nat, j: nat, carry: U64, r': seq<U64>)
    requires |r| == n && i + j <= n && (j == |b| || i + j == n)
    requires Row(r, n, start, x, b, i, j, carry)
    requires if i + j < n then r[i + j] == 0 && r' == r[i + j := carry] else r' == r
    ensures Cong(Low(r', n), start + x * W(i) * Val(b), W(n))
  {
    hide Low, Val, W, Row;
    var added, whole := x * (Low(b, j) * W(i)), x * W(i) * Val(b);
    RowPlaced(r, n, start, x, b, i, j, carry, r', added);
    RowAdds(i, j, n, x, b);
    CongAdd(start, start, added, whole, W(n));
  }

  lemma RowStart(r: seq<U64>, n: nat, start: int, x: int, b: seq<U64>, i: nat)
    requires Low(r, n) == start
    ensures Row(r, n, start, x, b, i, 0, 0)
  {
    assert Low(b, 0) * W(i) == 0;
  }

  lemma BottomRowResult(ws: seq<U64>, x: int, b: seq<U64>)
    requires Cong(Low(ws, |ws|), 0 + x * W(0) * Val(b), W(|ws|))
    ensures Val(ws) == Val(b) * x % W(|ws|)
  {
    assert W(0) == 1;
    hide W, Low, Val, Cong;
    Reordered(x, W(0), Val(b));
    ResultIs(ws, Val(b) * x);
  }

  lemma Reordered(x: int, one: int, v: int)
    requires one == 1
    ensures 0 + x * one * v == v * x
  {
  }

  /** multiply_uint_uint64: the product modulo 2^(64 * result words).  In place on
      two words or more it clears the operand before reading it. */
  method MultiplyUintUint64(a: array<U64>, b: U64, result: array<U64>)
    modifies result
    ensures Val(result[..])
         == if result == a && a.Length >= 2 then 0 else Val(old(a[..])) * b % W(result.Length)
  {
    ghost var n := result.Length;
    if a.Length == 0 || b == 0 {
      SetZero(result);
      ZeroValue(result[..]);
      SmallMod(0, W(n));
      return;
    }
    if result.Length == 1 {
      ghost var given := a[..];
      result[0] := a[0] * b % B64;
      SingleWord(given, b, result[..]);
      ResultIs(result[..], Val(given) * b);
      return;
    }
    SetZero(result);
    ghost var seen := a[..];
    var carry: U64 := 0;
    var maxIndex := if a.Length < result.Length then a.Length else result.Length;
    LowZero(result[..], 0, n);
    RowStart(result[..], n, 0, b, seen, 0);
    var i := 0;
    while i < maxIndex
      invariant 0 <= i <= maxIndex
      invariant forall k :: i <= k < n ==> result[k] == 0
      invariant forall k :: i <= k < a.Length ==> a[k] == seen[k]
      invariant Row(result[..], n, 0, b, seen, 0, i, carry)
    {
      var word, c := MultiplyAccumulate(a[i], b, 0, carry);
      RowStep(result[..], n, 0, b, seen, 0, i, carry, word, c);
      ghost var before := result[..];
      result[i] := word;
      assert result[..] == before[i := word];
      carry := c;
      i := i + 1;
    }
    ghost var summed := result[..];
    if maxIndex < result.Length {
      result[maxIndex] := carry;
    }
    RowDone(summed, n, 0, b, seen, 0, i, carry, result[..]);
    BottomRowResult(result[..], b, seen);
    if result == a {
      ZeroValue(seen);
      SmallMod(0, W(n));
    }
  }

  /** In place it is right exactly for one word at most, for a zero factor, or when
      the factors have as many trailing zeros as the result has bits. */
  lemma InPlaceProductIff(a: seq<U64>, b: U64, r: int)
    requires r == if |a| >= 2 then 0 else Val(a) * b % W(|a|)
    ensures r == Val(a) * b % W(|a|)
       <==> |a| <= 1 || Val(a) == 0 || b == 0 || 64 * |a| <= Twos(Val(a)) + Twos(b)
  {
    WeightIsPower(|a|);
    ProductVanishesIff(Val(a), b, 64 * |a|);
  }

  lemma {:induction false} WeightIsPower(n: nat)
    ensures W(n) == Pow(2, 64 * n)
  {
    if n == 0 {
    } else {
      WeightIsPower(n - 1);
      WeightStep(n - 1);
      WordPower();
      PowAdd(2, 64 * (n - 1), 64);
    }
  }

  lemma WordPower()
    ensures Pow(2, 64) == B64
  {
    assert Pow(2, 8) == 256;
    PowAdd(2, 8, 8);
    PowAdd(2, 16, 16);
    PowAdd(2, 32, 32);
  }

  lemma SingleWord(a: seq<U64>, b: U64, r: seq<U64>)
    requires |a| >= 1 && |r| == 1 && r[0] == a[0] * b % B64
    ensures Cong(Low(r, 1), Val(a) * b, W(1))
  {
    assert W(0) == 1;
    WeightStep(0);
    assert Low(r, 1) == Low(r, 0) + Word(r, 0) * W(0);
    assert Low(a, 1) == Low(a, 0) + Word(a, 0) * W(0);
    CongMod(a[0] * b, B64);
    ValCongruent(a, 1);
    CongScale(Low(a, 1), Val(a), b, W(1));
  }

  /** The number of words up to the highest nonzero one. */
  ghost function Significant(ws: seq<U64>): (c: nat)
    ensures c <= |ws| && forall k :: c <= k < |ws| ==> ws[k] == 0
  {
    if ws == [] || ws[|ws| - 1] != 0 then |ws| else Significant(ws[..|ws| - 1])
  }

  lemma {:induction false} SignificantUnique(ws: seq<U64>, c: nat)
    requires c <= |ws| && (forall k :: c <= k < |ws| ==> ws[k] == 0) && (c > 0 ==> ws[c - 1] != 0)
    ensures c == Significant(ws)
  {
    if c < |ws| {
      SignificantUnique(ws[..|ws| - 1], c);
    }
  }

  /** get_significant_uint64_count_uint. */
  method SignificantCount(a: array<U64>) returns (c: nat)
    ensures c == Significant(a[..]) <= a.Length
    ensures forall k :: c <= k < a.Length ==> a[k] == 0
    ensures c > 0 ==> a[c - 1] != 0
  {
    c := a.Length;
    while c > 0 && a[c - 1] == 0
      invariant 0 <= c <= a.Length
      invariant forall k :: c <= k < a.Length ==> a[k] == 0
    {
      c := c - 1;
    }
    SignificantUnique(a[..], c);
  }

  lemma OneSignificantWord(ws: seq<U64>)
    requires 1 <= |ws| && forall k :: 1 <= k < |ws| ==> ws[k] == 0
    ensures Val(ws) == ws[0]
  {
    LowIsVal(ws);
    LowZero(ws, 1, |ws|);
    assert W(0) == 1;
    assert Low(ws, 1) == Low(ws, 0) + Word(ws, 0) * W(0);
  }

  /** What multiply_uint leaves.  A single result word gets the square of the first
      operand's low word.  Otherwise it is the product modulo 2^(64 * result words),
      unless the result is an operand that the program clears and then reads. */
  ghost function Multiplied(a: seq<U64>, b: seq<U64>, n: nat, overA: bool, overB: bool): (r: int)
  {
    if a == [] || b == [] then 0
    else if n == 1 then a[0] * a[0] % B64
    else if (if Significant(a) == 1 then overB else overA || (overB && Significant(b) != 1)) then 0
    else Val(a) * Val(b) % W(n)
  }

  ghost predicate AllZero(ws: seq<U64>) {
    forall k :: 0 <= k < |ws| ==> ws[k] == 0
  }

  /** multiply_uint, into an operand or not. */
  method MultiplyUint(a: array<U64>, b: array<U64>, result: array<U64>)
    modifies result
    ensures Val(result[..]) == Multiplied(old(a[..]), old(b[..]), result.Length, result == a, result == b)
  {
    ghost var n, a0, b0 := result.Length, a[..], b[..];
    if a.Length == 0 || b.Length == 0 {
      SetZero(result);
      ZeroValue(result[..]);
      return;
    }
    if result.Length == 1 {
      result[0] := a[0] * a[0] % B64;
      LowWordValue(result[..]);
      assert result[..][1..] == [];
      return;
    }
    var aCount := SignificantCount(a);
    var bCount := SignificantCount(b);
    if aCount == 1 {
      OneSignificantWord(a0);
      Commuted(Val(a0), Val(b0));
      MultiplyUintUint64(b, a[0], result);
      return;
    }
    if bCount == 1 {
      OneSignificantWord(b0);
      MultiplyUintUint64(a, b[0], result);
      return;
    }
    MultiplyRows(a, b, result);
  }

  lemma Commuted(x: int, y: int)
    ensures x * y == y * x
  {
  }

  /** The outer loop of multiply_uint, after clearing the result. */
  method MultiplyRows(a: array<U64>, b: array<U64>, result: array<U64>)
    requires a.Length >= 1 && b.Length >= 1
    modifies result
    ensures Val(result[..])
         == if result == a || result == b then 0 else Val(old(a[..])) * Val(old(b[..])) % W(result.Length)
  {
    hide Low, Val, W, Cong;
    ghost var n, over := result.Length, result == a || result == b;
    SetZero(result);
    RowsStart(result[..], a[..], b[..]);
    var aMax := if a.Length < result.Length then a.Length else result.Length;
    var i := 0;
    while i < aMax
      invariant 0 <= i <= aMax
      invariant over ==> AllZero(result[..])
      invariant forall k :: i + b.Length <= k < n ==> result[k] == 0
      invariant !over ==> Cong(Low(result[..], n), Low(a[..], i) * Val(b[..]), W(n))
    {
      if over {
        RowsStart(result[..], a[..], b[..]);
      } else {
        RowsNext(a[..], i, Val(b[..]));
      }
      MultiplyRow(a[i], b, i, result, if over then 0 else Low(a[..], i) * Val(b[..]));
      i := i + 1;
    }
    if over {
      ZeroValue(result[..]);
    } else {
      RowsDone(result[..], a[..], b[..], i);
    }
  }

  lemma RowsStart(r: seq<U64>, a: seq<U64>, b: seq<U64>)
    requires AllZero(r)
    ensures Low(a, 0) == 0 && 0 * Val(b) == 0 && Cong(Low(r, |r|), 0, W(|r|))
  {
    LowZero(r, 0, |r|);
  }

  lemma RowsNext(a: seq<U64>, i: nat, v: int)
    requires i < |a|
    ensures Low(a, i + 1) * v == Low(a, i) * v + a[i] * W(i) * v
  {
    MulDist(Low(a, i), a[i] * W(i), v);
  }

  lemma RowsDone(r: seq<U64>, a: seq<U64>, b: seq<U64>, i: nat)
    requires i == |a| || (i == |r| && i <= |a|)
    requires Cong(Low(r, |r|), Low(a, i) * Val(b), W(|r|))
    ensures Val(r) == Val(a) * Val(b) % W(|r|)
  {
    ValCongruent(a, |r|);
    if i == |a| {
      LowIsVal(a);
    } else {
      CongScale(Low(a, |r|), Val(a), Val(b), W(|r|));
    }
    ResultIs(r, Val(a) * Val(b));
  }

  /** When the single-word result is the product all the same: exactly when the low
      words are equal, or the first is zero, or it and their difference have 64
      trailing zeros between them. */
  lemma OneWordProductIff(a: seq<U64>, b: seq<U64>, r: U64)
    requires |a| >= 1 && |b| >= 1 && r == a[0] * a[0] % B64
    ensures var x: int, y: int := a[0], b[0];
      r == Val(a) * Val(b) % B64 <==> x == 0 || x == y || 64 <= Twos(x) + Twos(Distance(x, y))
  {
    LowWordCong(a);
    LowWordCong(b);
    hide Val, Twos;
    ResidueOfSquare(Val(a), a[0], Val(b), b[0], B64);
    WordPower();
    ProductVanishesIff(a[0], Distance(a[0], b[0]), 64);
  }

  function Distance(x: int, y: int): nat { if x < y then y - x else x - y }

  lemma LowWordCong(ws: seq<U64>)
    requires |ws| >= 1
    ensures Cong(Val(ws), ws[0], B64)
  {
    hide Val;
    LowWordValue(ws);
    CongIntro(Val(ws), ws[0], B64, Val(ws[1..]));
  }

  lemma LowWordValue(ws: seq<U64>)
    requires |ws| >= 1
    ensures Val(ws) == ws[0] + Val(ws[1..]) * B64
  {
  }

  lemma ResidueOfSquare(u: int, x: int, v: int, y: int, m: int)
    requires 0 < m && Cong(u, x, m) && Cong(v, y, m)
    ensures x * x % m == u * v % m <==> x * Distance(x, y) % m == 0
  {
    CongMul(u, x, v, y, m);
    MulSub(x, x, y);
    MulSub(x, y, x);
    SameResidueIff(x * x, x * y, m);
    SameResidueIff(x * y, x * x, m);
  }

  lemma SameResidueIff(x: int, y: int, m: int)
    requires 0 < m
    ensures x % m == y % m <==> (x - y) % m == 0
  {
    if Cong(x, y, m) {
      CongZeroDifference(x, y, m);
    }
    if (x - y) % m == 0 {
      CongIntro(x, y, m, (x - y) / m);
    }
  }

  /** Two times three, into one word, gives four. */
  lemma OneWordProductWrong(a: seq<U64>, b: seq<U64>, r: U64)
    requires a == [2] && b == [3] && r == a[0] * a[0] % B64
    ensures r == 4 && Val(a) * Val(b) % B64 == 6
  {
    assert Val(a[1..]) == 0 && Val(b[1..]) == 0;
  }

  /** The inner loop of multiply_uint: one row of the schoolbook product.  On a
      cleared result, a zero factor or the result itself as operand adds nothing. */
  method MultiplyRow(x: U64, b: array<U64>, i: nat, result: array<U64>, ghost sofar: int)
    requires i < result.Length
    requires forall k :: i + b.Length <= k < result.Length ==> result[k] == 0
    requires result == b ==> AllZero(result[..])
    requires result != b ==> Cong(Low(result[..], result.Length), sofar, W(result.Length))
    modifies result
    ensures (result == b || x == 0) && old(AllZero(result[..])) ==> AllZero(result[..])
    ensures result != b ==>
      Cong(Low(result[..], result.Length), sofar + x * W(i) * Val(b[..]), W(result.Length))
    ensures forall k :: i + 1 + b.Length <= k < result.Length ==> result[k] == 0
  {
    ghost var n, start := result.Length, Low(result[..], result.Length);
    ghost var quiet := (result == b || x == 0) && AllZero(result[..]);
    var bMax := if b.Length < result.Length - i then b.Length else result.Length - i;
    var carry: U64 := 0;
    var j := 0;
    RowStart(result[..], n, start, x, b[..], i);
    while j < bMax
      invariant 0 <= j <= bMax
      invariant forall k :: i + b.Length <= k < n ==> result[k] == 0
      invariant quiet ==> carry == 0 && AllZero(result[..])
      invariant result != b ==> Row(result[..], n, start, x, b[..], i, j, carry)
    {
      var word, c := MultiplyAccumulate(x, b[j], result[i + j], carry);
      ghost var before := result[..];
      if quiet {
        NothingAdded(x, b[j], word, c);
      }
      if result != b {
        RowStep(result[..], n, start, x, b[..], i, j, carry, word, c);
      }
      result[i + j] := word;
      assert result[..] == before[i + j := word];
      carry := c;
      j := j + 1;
    }
    ghost var summed := result[..];
    if i + bMax < result.Length {
      result[i + bMax] := carry;
    }
    if result != b {
      RowDone(summed, n, start, x, b[..], i, j, carry, result[..]);
      CongAdd(start, sofar, x * W(i) * Val(b[..]), x * W(i) * Val(b[..]), W(n));
    }
  }

  lemma NothingAdded(x: U64, y: U64, word: U64, c: U64)
    requires (x == 0 || y == 0) && word + c * B64 == 0 + x * y + 0
    ensures word == 0 && c == 0
  {
  }

  /** Into a result of two words or more, multiply_uint is right exactly when no
      operand it clears is read again, or the product is zero modulo the result's
      size: for 64 * n trailing zeros between the factors. */
  lemma MultipliedIff(a: seq<U64>, b: seq<U64>, n: nat, overA: bool, overB: bool)
    requires a != [] && b != [] && n != 1
    ensures Multiplied(a, b, n, overA, overB) == Val(a) * Val(b) % W(n)
       <==> || (if Significant(a) == 1 then !overB else !overA && (!overB || Significant(b) == 1))
            || Val(a) == 0 || Val(b) == 0 || 64 * n <= Twos(Val(a)) + Twos(Val(b))
  {
    WeightIsPower(n);
    ProductVanishesIff(Val(a), Val(b), 64 * n);
  }

  // The product of many words.

  ghost function ProductOf(ws: seq<U64>): (v: nat) {
    if ws == [] then 1
    else
      MulLe(0, ProductOf(ws[..|ws| - 1]), ws[|ws| - 1]);
      ProductOf(ws[..|ws| - 1]) * ws[|ws| - 1]
  }

  lemma ProductNext(ws: seq<U64>, i: nat)
    requires i < |ws|
    ensures ProductOf(ws[..i + 1]) == ProductOf(ws[..i]) * ws[i]
  {
    assert ws[..i + 1][..i] == ws[..i];
  }

  /** One more word factor needs at most one more word. */
  lemma ProductFits(p: nat, x: U64, i: nat)
    requires p < W(i)
    ensures 0 <= p * x < W(i + 1)
  {
    WeightStep(i);
    MulLe(0, p, x);
    MulLe(x, B64 - 1, p);
    MulLt(p, W(i), B64);
    MulDist(B64, -1, p);
  }

  lemma {:induction false} WeightGrows(i: nat, n: nat)
    requires i <= n
    ensures W(i) <= W(n)
    decreases n
  {
    if i < n {
      WeightGrows(i, n - 1);
      WeightStep(n - 1);
      MulLe(1, B64, W(n - 1));
    }
  }

  /** set_uint: the first len words. */
  method SetUint(value: array<U64>, len: nat, result: array<U64>)
    requires len <= value.Length && len <= result.Length && result != value
    modifies result
    ensures forall k :: 0 <= k < len ==> result[k] == value[k]
    ensures forall k :: len <= k < result.Length ==> result[k] == old(result[k])
  {
    for i := 0 to len
      invariant forall k :: 0 <= k < i ==> result[k] == value[k]
      invariant forall k :: i <= k < result.Length ==> result[k] == old(result[k])
    {
      result[i] := value[i];
    }
  }

  /** A number copied into a cleared result that has room for it. */
  lemma CopiedValue(r: seq<U64>, t: seq<U64>, n: nat)
    requires n <= |r| && n <= |t| && Val(t) < W(n)
    requires (forall k :: 0 <= k < n ==> r[k] == t[k]) && (forall k :: n <= k < |r| ==> r[k] == 0)
    ensures Val(r) == Val(t)
  {
    FittingValue(t, n);
    LowSame(r, t, n);
    LowIsVal(r);
    LowZero(r, n, |r|);
  }

  lemma FirstWord(r: seq<U64>, x: U64, ops: seq<U64>)
    requires |r| >= 1 && |ops| >= 1 && r[0] == x == ops[0] && forall k :: 1 <= k < |r| ==> r[k] == 0
    ensures Val(r) == ProductOf(ops[..1]) < W(1)
  {
    OneSignificantWord(r);
    ProductNext(ops, 0);
    assert ops[..0] == [] && W(0) == 1;
    WeightStep(0);
  }

  /** multiply_many_uint64: the exact product of all operands, for a result with a
      word for each of them.  Over its own operands it leaves zero. */
  method MultiplyMany(operands: array<U64>, result: array<U64>)
    requires operands.Length <= result.Length
    modifies result
    ensures operands.Length == 0 ==> result[..] == old(result[..])
    ensures operands.Length != 0 ==>
      Val(result[..]) == if result == operands then 0 else ProductOf(operands[..])
  {
    if operands.Length == 0 {
      return;
    }
    hide Val, W, ProductOf;
    SetZero(result);
    result[0] := operands[0];
    ghost var ops, over := operands[..], result == operands;
    if !over {
      FirstWord(result[..], operands[0], ops);
    }
    var temp := new U64[operands.Length];
    for i := 1 to operands.Length
      invariant operands[..] == ops || over
      invariant over ==> AllZero(result[..])
      invariant forall k :: i <= k < result.Length ==> result[k] == 0
      invariant !over ==> Val(result[..]) == ProductOf(ops[..i]) < W(i)
    {
      ghost var before := Val(result[..]);
      if over {
        ZeroValue(result[..]);
      } else {
        ProductNext(ops, i);
      }
      MultiplyUintUint64(result, operands[i], temp);
      ManyStep(if over then 0 else before, operands[i], i, operands.Length, Val(temp[..]));
      SetUint(temp, i + 1, result);
      CopiedValue(result[..], temp[..], i + 1);
      if over {
        ZeroWords(result[..]);
      }
    }
    if over {
      ZeroValue(result[..]);
    }
    assert ops[..operands.Length] == ops;
  }

  lemma ManyStep(p: nat, x: U64, i: nat, n: nat, v: int)
    requires i < n && p < W(i) && v == p * x % W(n)
    ensures v == p * x < W(i + 1)
  {
    ProductFits(p, x, i);
    WeightGrows(i + 1, n);
    SmallMod(p * x, W(n));
  }

  lemma {:induction false} ZeroWords(ws: seq<U64>)
    requires Val(ws) == 0
    ensures AllZero(ws)
  {
    if ws != [] {
      ZeroWords(ws[1..]);
      assert forall k :: 1 <= k < |ws| ==> ws[k] == ws[1..][k - 1];
    }
  }
}
