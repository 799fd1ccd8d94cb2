/** Arithmetic modulo a word-sized modulus (encryption/utils/uint_small_mod.h). */
module UintSmallMod {
  import opened ModArith
  import opened Words
  import opened Barrett

  method AddMod(m: Modulus, a: U64, b: U64) returns (r: U64)
    requires m.Valid() && a < m.value && b < m.value
    ensures r == (a + b) % m.value
  {
    SmallMod(a + b, B64);
    FinalSubtraction(a + b, 0, a + b, m.value);
    r := (a + b) % B64;
    if r >= m.value {
      r := r - m.value;
    }
  }

  method NegateMod(m: Modulus, a: U64) returns (r: U64)
    requires m.Valid() && a < m.value
    ensures r == (0 - a) % m.value
  {
    if a == 0 {
      r := 0;
    } else {
      r := m.value - a;
      SmallMod(m.value - a, m.value);
      CongIntro(0 - a, m.value - a, m.value, -1);
    }
  }

  /** sub_uint64_mod adds the modulus back to the wrapped difference. */
  method SubMod(m: Modulus, a: U64, b: U64) returns (r: U64)
    requires m.Valid() && a < m.value && b < m.value
    ensures r == (a - b) % m.value
  {
    var borrow;
    r, borrow := SubUint64(a, b);
    if borrow > 0 {
      DivModUnique(a - b, m.value, -1, a - b + m.value);
      r := (r + m.value) % B64;
    } else {
      SmallMod(a - b, m.value);
    }
  }

  /** multiply_add_uint64_mod: the 128-bit accumulator cannot overflow. */
  method MultiplyAddMod(m: Modulus, a: U64, b: U64, c: U64) returns (r: U64)
    requires m.Valid()
    ensures r == (a * b + c) % m.value
  {
    var lo, hi := MultiplyWide(a, b);
    var sum, carry := AddUint64(lo, c);
    r := Reduce128(m, sum, hi + carry);
  }

  /** An operand with its Shoup quotient floor(operand * 2^64 / modulus). */
  datatype ShoupOperand = ShoupOperand(operand: U64, quotient: U64) {
    ghost predicate Valid(m: Modulus) {
      m.Valid() && operand < m.value && quotient == operand * B64 / m.value
    }
  }

  lemma ShoupQuotientFits(operand: int, m: int, quotient: int)
    requires 0 <= operand < m && quotient == operand * B64 / m
    ensures 0 <= quotient < B64
  {
    FloorBounds(operand * B64, m, quotient);
    MulLt(operand, m, B64);
    MulLtConverse(quotient, B64, m);
    if quotient < 0 {
      MulLe(quotient, -1, m);
    }
  }

  /** MultiplyUint64Operand: only the low word of the wide quotient is kept. */
  method MakeShoupOperand(m: Modulus, operand: U64) returns (y: ShoupOperand)
    requires m.Valid() && operand < m.value
    ensures y.operand == operand && y.Valid(m)
  {
    ShoupQuotientFits(operand, m.value, operand * B64 / m.value);
    y := ShoupOperand(operand, operand * B64 / m.value % B64);
  }

  lemma ShoupCorrect(m: Modulus, x: U64, y: ShoupOperand, t: U64)
    requires y.Valid(m) && t == x * y.quotient / B64
    ensures var r := (y.operand * x - t * m.value) % B64;
      r < 2 * m.value && r == y.operand * x - t * m.value && Cong(r, y.operand * x, m.value)
  {
    QuotientBound(x, y.operand, m.value, B64, y.quotient, t);
    SmallMod(y.operand * x - t * m.value, B64);
    CongIntro(y.operand * x - t * m.value, y.operand * x, m.value, 0 - t);
  }

  /** multiply_uint64operand_mod_lazy: congruent, and short of one subtraction,
      for every 64-bit x. */
  method ShoupLazy(m: Modulus, x: U64, y: ShoupOperand) returns (r: U64)
    requires y.Valid(m)
    ensures r < 2 * m.value
    ensures Cong(r, y.operand * x, m.value)
  {
    var _, t := MultiplyWide(x, y.quotient);
    ShoupCorrect(m, x, y, t);
    r := (y.operand * x - t * m.value) % B64;
  }

  /** multiply_uint64operand_mod. */
  method ShoupMultiply(m: Modulus, x: U64, y: ShoupOperand) returns (r: U64)
    requires y.Valid(m)
    ensures r == y.operand * x % m.value
  {
    r := ShoupLazy(m, x, y);
    FinalSubtraction(r, 0, r, m.value);
    if r >= m.value {
      r := r - m.value;
    }
  }

  /** multiply_uint64operand_add_uint64_mod. */
  method ShoupMultiplyAdd(m: Modulus, x: U64, y: ShoupOperand, z: U64) returns (r: U64)
    requires y.Valid(m)
    ensures r == (y.operand * x + z) % m.value
  {
    var product := ShoupMultiply(m, x, y);
    var addend := Reduce(m, z);
    CongAddMod(y.operand * x, z, m.value);
    r := AddMod(m, product, addend);
  }

  /** The invariant of square-and-multiply. */
  ghost predicate Powering(i: int, power: int, e: nat, goal: int, m: int)
    requires 0 < m
  {
    Cong(i * Pow(power, e), goal, m)
  }

  lemma PoweringEven(i: int, power: int, e: nat, goal: int, m: int)
    requires 0 < m && e % 2 == 0 && Powering(i, power, e, goal, m)
    ensures Powering(i, power * power % m, e / 2, goal, m)
  {
    PowHalf(power, e);
    CongMod(power * power, m);
    PowCong(power * power % m, power * power, e / 2, m);
    CongMul(i, i, Pow(power * power % m, e / 2), Pow(power * power, e / 2), m);
  }

  lemma PoweringOdd(i: int, power: int, e: nat, goal: int, m: int)
    requires 0 < m && e % 2 == 1 && Powering(i, power, e, goal, m)
    ensures Powering(power * i % m, power, e - 1, goal, m)
  {
    MulAssoc(i, power, Pow(power, e - 1));
    CongMod(power * i, m);
    CongScale(power * i % m, power * i, Pow(power, e - 1), m);
  }

  lemma PoweringDone(i: int, power: int, goal: int, m: int)
    requires 0 <= i < m && Powering(i, power, 0, goal, m)
    ensures i == goal % m
  {
    SmallMod(i, m);
  }

  /** exponentiate_uint64_mod.  A power of one returns its operand untouched,
      reduced or not; every other exponent gives the reduced power. */
  method Exponentiate(m: Modulus, operand: U64, exponent: U64) returns (r: U64)
    requires m.Valid()
    ensures r == if exponent == 1 then operand else Pow(operand, exponent) % m.value
  {
    if exponent == 0 { SmallMod(1, m.value); return 1; }
    if exponent == 1 { return operand; }
    ghost var goal := Pow(operand, exponent);
    assert Powering(1, operand, exponent, goal, m.value);
    var power: U64, intermediate: U64, e: U64 := operand, 1, exponent;
    while true
      invariant 0 < e <= exponent && intermediate < m.value
      invariant Powering(intermediate, power, e, goal, m.value)
      decreases e
    {
      if e % 2 > 0 {
        PoweringOdd(intermediate, power, e, goal, m.value);
        intermediate := MultiplyMod(m, power, intermediate);
      }
      PoweringEven(intermediate, power, 2 * (e / 2), goal, m.value);
      e := e / 2;
      if e == 0 { break; }
      power := MultiplyMod(m, power, power);
    }
    PoweringDone(intermediate, power * power % m.value, goal, m.value);
    return intermediate;
  }

  /** Exactly when the result is the reduced power. */
  lemma ExponentiateReducedIff(m: Modulus, operand: U64, exponent: U64, r: U64)
    requires m.Valid()
    requires r == if exponent == 1 then operand else Pow(operand, exponent) % m.value
    ensures r == Pow(operand, exponent) % m.value <==> (exponent != 1 || operand < m.value)
  {
    assert Pow(operand, 1) == operand * Pow(operand, 0);
    if operand < m.value {
      SmallMod(operand, m.value);
    }
  }

  /** Five to the power one, modulo three, is returned as five. */
  lemma ExponentiateUnreduced(operand: U64, exponent: U64, modulus: U64, r: U64)
    requires 0 < modulus && r == if exponent == 1 then operand else Pow(operand, exponent) % modulus
    requires operand == 5 && exponent == 1 && modulus == 3
    ensures r == 5 && Pow(operand, exponent) % modulus == 2
  {
    assert Pow(5, 1) == 5 * Pow(5, 0) == 5;
  }

  lemma {:induction false} ValTop(ws: seq<U64>, i: nat)
    requires i < |ws|
    ensures Val(ws[i..]) == ws[i] + B64 * Val(ws[i + 1..])
  {
    assert ws[i..][1..] == ws[i + 1..];
  }

  /** Prepending a word to a reduced tail gives the same residue. */
  lemma HornerStep(ws: seq<U64>, i: nat, t: U64, m: int)
    requires 0 < m && i < |ws| && Cong(t, Val(ws[i + 1..]), m)
    ensures (ws[i] + t * B64) % m == Val(ws[i..]) % m
    ensures Cong((ws[i] + t * B64) % m, Val(ws[i..]), m)
  {
    ValTop(ws, i);
    CongScale(t, Val(ws[i + 1..]), B64, m);
    CongAdd(ws[i], ws[i], t * B64, Val(ws[i + 1..]) * B64, m);
    CongMod(Val(ws[i..]), m);
  }

  /** modulo_uint: the remainder of a number of any word count. */
  method ModuloUint(value: seq<U64>, m: Modulus) returns (r: U64)
    requires m.Valid() && |value| >= 1
    ensures r == Val(value) % m.value
  {
    assert value[|value|..] == [];
    ValTop(value, |value| - 1);
    assert value[0..] == value;
    if |value| == 1 {
      if value[0] < m.value {
        SmallMod(value[0], m.value);
        return value[0];
      } else {
        r := Reduce(m, value[0]);
        return;
      }
    }
    r := value[|value| - 1];
    var i := |value| - 2;
    while i >= 0
      invariant -1 <= i <= |value| - 2
      invariant Cong(r, Val(value[i + 1..]), m.value)
      invariant i < |value| - 2 ==> r == Val(value[i + 1..]) % m.value
    {
      HornerStep(value, i, r, m.value);
      r := Reduce128(m, value[i], r);
      i := i - 1;
    }
  }

  /** modulo_uint_inplace: remainder in the low word, zeros above it. */
  method ModuloUintInPlace(value: array<U64>, m: Modulus)
    requires m.Valid() && value.Length >= 1
    modifies value
    ensures value[0] == Val(old(value[..])) % m.value
    ensures forall j :: 1 <= j < value.Length ==> value[j] == 0
  {
    ghost var ws := value[..];
    assert ws[|ws|..] == [];
    ValTop(ws, |ws| - 1);
    assert ws[0..] == ws;
    if value.Length == 1 {
      if value[0] < m.value {
        SmallMod(value[0], m.value);
        return;
      } else {
        var reduced := Reduce(m, value[0]);
        CongMod(ws[0], m.value);
        value[0] := reduced;
      }
    }
    var i := value.Length - 2;
    while i >= 0
      invariant -1 <= i <= value.Length - 2
      invariant forall j :: 0 <= j <= i ==> value[j] == ws[j]
      invariant forall j :: i + 1 < j < value.Length ==> value[j] == 0
      invariant Cong(value[i + 1], Val(ws[i + 1..]), m.value)
      invariant i < value.Length - 2 || value.Length == 1 ==> value[i + 1] == Val(ws[i + 1..]) % m.value
    {
      var reduced := Reduce128(m, value[i], value[i + 1]);
      HornerStep(ws, i, value[i + 1], m.value);
      assert reduced == Val(ws[i..]) % m.value && Cong(reduced, Val(ws[i..]), m.value);
      value[i] := reduced;
      value[i + 1] := 0;
      i := i - 1;
    }
  }

  ghost function Product(a: int, b: int): int { a * b }

  ghost function Dot(a: seq<U64>, b: seq<U64>): (d: int)
    requires |a| == |b|
  {
    if a == [] then 0 else
      var k := |a| - 1;
      Dot(a[..k], b[..k]) + Product(a[k], b[k])
  }

  /** Adding a product to a 128-bit accumulator with two carries. */
  lemma Accumulate(acc: int, p: int, lo: U64, hi: U64, w: (U64, U64), s0: (U64, U64), s1: (U64, U64))
    requires lo + hi * B64 == acc % B128 && w.0 + w.1 * B64 == p
    requires s0.0 + s0.1 * B64 == lo + w.0 && s1.0 + s1.1 * B64 == hi + w.1 + s0.1
    ensures s0.0 + s1.0 * B64 == (acc + p) % B128
  {
    CongAddMod(acc, p, B128);
    DivModUnique(acc % B128 + p, B128, s1.1, s0.0 + s1.0 * B64);
  }

  /** dot_product_mod.  The accumulator keeps the sum modulo 2^128. */
  method DotProductMod(a: seq<U64>, b: seq<U64>, m: Modulus) returns (r: U64)
    requires m.Valid() && |a| == |b|
    ensures r == Dot(a, b) % B128 % m.value
  {
    var lo: U64, hi: U64 := 0, 0;
    var i := 0;
    while i < |a|
      invariant 0 <= i <= |a|
      invariant lo + hi * B64 == Dot(a[..i], b[..i]) % B128
    {
      assert a[..i + 1][..i] == a[..i] && b[..i + 1][..i] == b[..i];
      var w0, w1 := MultiplyWide(a[i], b[i]);
      var s0, c0 := AddUint64(lo, w0);
      var s1, c1 := AddUint64Carry(hi, w1, c0);
      Accumulate(Dot(a[..i], b[..i]), Product(a[i], b[i]), lo, hi, (w0, w1), (s0, c0), (s1, c1));
      lo, hi := s0, s1;
      i := i + 1;
    }
    assert a[..i] == a && b[..i] == b;
    r := Reduce128(m, lo, hi);
  }

  lemma {:induction false} DotBound(a: seq<U64>, b: seq<U64>)
    requires |a| == |b|
    requires forall i :: 0 <= i < |a| ==> a[i] < MODULUS_BOUND && b[i] < MODULUS_BOUND
    ensures 0 <= Dot(a, b) <= |a| * ((MODULUS_BOUND - 1) * (MODULUS_BOUND - 1))
  {
    if a == [] {
    } else {
      var k := |a| - 1;
      DotBound(a[..k], b[..k]);
      MulLe(0, a[k], b[k]);
      MulLe(a[k], MODULUS_BOUND - 1, b[k]);
      MulLe(b[k], MODULUS_BOUND - 1, MODULUS_BOUND - 1);
    }
  }

  /** Sixty-four terms below 2^61 fit the accumulator, so the result is exact. */
  lemma DotProductExact(a: seq<U64>, b: seq<U64>, m: Modulus, r: U64)
    requires m.Valid() && |a| == |b| <= 64
    requires forall i :: 0 <= i < |a| ==> a[i] < MODULUS_BOUND && b[i] < MODULUS_BOUND
    requires r == Dot(a, b) % B128 % m.value
    ensures r == Dot(a, b) % m.value
  {
    DotBound(a, b);
    MulLe(|a|, 64, (MODULUS_BOUND - 1) * (MODULUS_BOUND - 1));
    SmallMod(Dot(a, b), B128);
  }
}
