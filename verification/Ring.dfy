/** The ring Z_q[X]/(X^n + 1), ciphertexts over it, and their phase.  These are
    the mathematical meanings of the homomorphic operations the client uses;
    the library's own algorithms for them are not part of this model. */
module Ring {
  import opened ModArith

  // Residues.

  function AddRes(x: int, y: int, q: int): int {
    if x + y >= q then x + y - q else x + y
  }

  function NegRes(x: int, q: int): int {
    if x == 0 then 0 else q - x
  }

  function MulRes(x: int, y: int, q: int): int
    requires 0 < q
  {
    x * y % q
  }

  ghost predicate InRange(x: int, q: int) {
    0 <= x < q
  }

  lemma AddResIsSum(x: int, y: int, q: int)
    requires InRange(x, q) && InRange(y, q)
    ensures AddRes(x, y, q) == (x + y) % q
  {
    if x + y >= q {
      DivModUnique(x + y, q, 1, x + y - q);
    } else {
      SmallMod(x + y, q);
    }
  }

  lemma NegResIsNegation(x: int, q: int)
    requires InRange(x, q)
    ensures NegRes(x, q) == (0 - x) % q
  {
    if x == 0 {
      SmallMod(0, q);
    } else {
      DivModUnique(0 - x, q, -1, q - x);
    }
  }

  lemma MulResNeg(x: int, y: int, q: int)
    requires InRange(x, q)
    ensures MulRes(NegRes(x, q), y, q) == NegRes(MulRes(x, y, q), q)
  {
    NegResIsNegation(x, q);
    NegResIsNegation(MulRes(x, y, q), q);
    MulNeg(x, y);
    CongMulMod(0 - x, y, q);
    CongMod(x * y, q);
    CongSub(0, 0, x * y % q, x * y, q);
  }

  lemma MulResAdd(x: int, y: int, z: int, q: int)
    requires InRange(x, q) && InRange(y, q)
    ensures MulRes(AddRes(x, y, q), z, q) == AddRes(MulRes(x, z, q), MulRes(y, z, q), q)
  {
    AddResIsSum(x, y, q);
    AddResIsSum(MulRes(x, z, q), MulRes(y, z, q), q);
    CongMulMod(x + y, z, q);
    MulDist(x, y, z);
    CongAddMod(x * z, y * z, q);
  }

  // Polynomials.

  /** Coefficients, constant term first. */
  type Poly = seq<int>

  ghost predicate IsPoly(a: Poly, n: nat, q: int) {
    |a| == n && forall i :: 0 <= i < n ==> InRange(a[i], q)
  }

  function Add(a: Poly, b: Poly, q: int): (c: Poly)
    requires |a| == |b|
    ensures |c| == |a|
    ensures IsPoly(a, |a|, q) && IsPoly(b, |a|, q) ==> IsPoly(c, |a|, q)
  {
    seq(|a|, i requires 0 <= i < |a| => AddRes(a[i], b[i], q))
  }

  function Scale(a: Poly, x: int, q: int): (c: Poly)
    requires 0 < q
    ensures IsPoly(c, |a|, q)
  {
    seq(|a|, i requires 0 <= i < |a| => MulRes(a[i], x, q))
  }

  function ShiftedCoefficient(a: Poly, k: nat, q: int, i: nat): (x: int)
    requires k <= |a| && i < |a|
    ensures IsPoly(a, |a|, q) ==> InRange(x, q)
  {
    if k <= i then a[i - k] else NegRes(a[i - k + |a|], q)
  }

  /** Multiplication by X^k: coefficients that pass X^n come back negated. */
  function Shift(a: Poly, k: nat, q: int): (c: Poly)
    requires k <= |a|
    ensures |c| == |a|
    ensures IsPoly(a, |a|, q) ==> IsPoly(c, |a|, q)
  {
    seq(|a|, i requires 0 <= i < |a| => ShiftedCoefficient(a, k, q, i))
  }

  function Zero(n: nat): (c: Poly)
    ensures |c| == n && forall i :: 0 <= i < n ==> c[i] == 0
  {
    seq(n, i => 0)
  }

  function Summand(a: Poly, s: Poly, i: nat, q: int): (c: Poly)
    requires 0 < q && |a| == |s| && i < |s|
    ensures |c| == |s| && (IsPoly(a, |s|, q) ==> IsPoly(c, |s|, q))
  {
    Scale(Shift(a, i, q), s[i], q)
  }

  /** The sum of s[i] * X^i * a over i < k. */
  function PartialProduct(a: Poly, s: Poly, k: nat, q: int): (c: Poly)
    requires 0 < q && IsPoly(a, |s|, q) && k <= |s|
    ensures IsPoly(c, |s|, q)
  {
    if k == 0 then Zero(|a|)
    else Add(PartialProduct(a, s, k - 1, q), Summand(a, s, k - 1, q), q)
  }

  /** The negacyclic product. */
  function Mul(a: Poly, s: Poly, q: int): (c: Poly)
    requires 0 < q && IsPoly(a, |s|, q)
    ensures IsPoly(c, |s|, q)
  {
    PartialProduct(a, s, |s|, q)
  }

  datatype Cipher = Cipher(c0: Poly, c1: Poly) {
    ghost predicate Valid(n: nat, q: int) {
      IsPoly(c0, n, q) && IsPoly(c1, n, q)
    }
  }

  /** evaluator.add_inplace. */
  function AddCipher(a: Cipher, b: Cipher, q: int): Cipher
    requires |a.c0| == |b.c0| && |a.c1| == |b.c1|
  {
    Cipher(Add(a.c0, b.c0, q), Add(a.c1, b.c1, q))
  }

  /** evaluator.negacyclic_shift_inplace. */
  function ShiftCipher(a: Cipher, k: nat, q: int): Cipher
    requires k <= |a.c0| && k <= |a.c1|
  {
    Cipher(Shift(a.c0, k, q), Shift(a.c1, k, q))
  }

  /** Add a value, modulo q, to one coefficient of the first component. */
  function AddToCoefficient(a: Cipher, t: nat, v: int, q: int): Cipher
    requires 0 < q && t < |a.c0|
  {
    a.(c0 := a.c0[t := (a.c0[t] + v) % q])
  }

  /** What decryption without scaling yields: c0 + c1 * s. */
  function Phase(c: Cipher, s: Poly, q: int): (x: Poly)
    requires 0 < q && c.Valid(|s|, q)
    ensures IsPoly(x, |s|, q)
  {
    Add(c.c0, Mul(c.c1, s, q), q)
  }

  // The product, coefficient by coefficient.

  /** What a[.] * s[i] * X^(.+i) adds to coefficient t: X^n is -1. */
  ghost function ProductTerm(a: Poly, s: Poly, t: nat, i: nat): int
    requires |a| == |s| && t < |s| && i < |s|
  {
    if i <= t then a[t - i] * s[i] else 0 - a[|a| + t - i] * s[i]
  }

  /** The first k of these terms added up. */
  ghost function Convolution(a: Poly, s: Poly, t: nat, k: nat): int
    requires |a| == |s| && t < |s| && k <= |s|
  {
    if k == 0 then 0 else Convolution(a, s, t, k - 1) + ProductTerm(a, s, t, k - 1)
  }

  lemma SummandCoefficient(a: Poly, s: Poly, i: nat, t: nat, q: int)
    requires 0 < q && IsPoly(a, |s|, q) && i < |s| && t < |s|
    ensures Summand(a, s, i, q)[t] == ProductTerm(a, s, t, i) % q
  {
    if t < i {
      var x := a[|a| + t - i];
      NegResIsNegation(x, q);
      CongMulMod(0 - x, s[i], q);
      MulNeg(x, s[i]);
    }
  }

  lemma {:induction false} PartialProductCoefficient(a: Poly, s: Poly, k: nat, t: nat, q: int)
    requires 0 < q && IsPoly(a, |s|, q) && k <= |s| && t < |s|
    ensures PartialProduct(a, s, k, q)[t] == Convolution(a, s, t, k) % q
  {
    if k == 0 {
      SmallMod(0, q);
    } else {
      PartialProductCoefficient(a, s, k - 1, t, q);
      SummandCoefficient(a, s, k - 1, t, q);
      var before, last := PartialProduct(a, s, k - 1, q), Summand(a, s, k - 1, q);
      assert InRange(before[t], q) && InRange(last[t], q);
      AddResIsSum(before[t], last[t], q);
      CongAddMod(Convolution(a, s, t, k - 1), ProductTerm(a, s, t, k - 1), q);
    }
  }

  /** Coefficient t of the product: the a[t - i] * s[i], less the a[n + t - i] * s[i]
      that pass X^n. */
  lemma MulCoefficient(a: Poly, s: Poly, t: nat, q: int)
    requires 0 < q && IsPoly(a, |s|, q) && t < |s|
    ensures Mul(a, s, q)[t] == Convolution(a, s, t, |s|) % q
  {
    PartialProductCoefficient(a, s, |s|, t, q);
  }

  /** Coefficient t of what decryption yields. */
  lemma PhaseCoefficient(c: Cipher, s: Poly, t: nat, q: int)
    requires 0 < q && c.Valid(|s|, q) && t < |s|
    ensures Phase(c, s, q)[t] == (c.c0[t] + Convolution(c.c1, s, t, |s|)) % q
  {
    var m := Mul(c.c1, s, q);
    MulCoefficient(c.c1, s, t, q);
    AddResIsSum(c.c0[t], m[t], q);
    CongAddMod(c.c0[t], Convolution(c.c1, s, t, |s|), q);
  }

  lemma ShiftAdd(a: Poly, b: Poly, k: nat, q: int)
    requires k <= |a| && IsPoly(a, |a|, q) && IsPoly(b, |a|, q)
    ensures Shift(Add(a, b, q), k, q) == Add(Shift(a, k, q), Shift(b, k, q), q)
  {
    var sum, l, r := Add(a, b, q), Shift(Add(a, b, q), k, q), Add(Shift(a, k, q), Shift(b, k, q), q);
    forall i | 0 <= i < |a|
      ensures l[i] == r[i]
    {
      var j := if k <= i then i - k else i - k + |a|;
      assert sum[j] == AddRes(a[j], b[j], q);
    }
  }

  lemma ShiftScale(a: Poly, x: int, k: nat, q: int)
    requires 0 < q && k <= |a| && IsPoly(a, |a|, q)
    ensures Shift(Scale(a, x, q), k, q) == Scale(Shift(a, k, q), x, q)
  {
    var l, r := Shift(Scale(a, x, q), k, q), Scale(Shift(a, k, q), x, q);
    forall i | 0 <= i < |a|
      ensures l[i] == r[i]
    {
      if i < k {
        MulResNeg(a[i - k + |a|], x, q);
      }
    }
  }

  lemma ShiftsCommute(a: Poly, j: nat, k: nat, q: int)
    requires IsPoly(a, |a|, q) && j <= |a| && k <= |a|
    ensures Shift(Shift(a, j, q), k, q) == Shift(Shift(a, k, q), j, q)
  {
  }

  lemma ShiftIsPoly(a: Poly, k: nat, q: int)
    requires k <= |a| && IsPoly(a, |a|, q)
    ensures IsPoly(Shift(a, k, q), |a|, q)
  {
  }

  /** A shifted summand of the product is the summand of the shifted factor. */
  lemma ShiftSummand(a: Poly, s: Poly, i: nat, j: nat, q: int)
    requires 0 < q && IsPoly(a, |s|, q) && i < |s| && j <= |s|
    ensures Shift(Summand(a, s, i, q), j, q) == Summand(Shift(a, j, q), s, i, q)
  {
    ShiftsCommute(a, i, j, q);
    ShiftScale(Shift(a, i, q), s[i], j, q);
  }

  /** Shifting one factor shifts the product. */
  lemma {:induction false} PartialProductShift(a: Poly, a': Poly, s: Poly, k: nat, j: nat, q: int)
    requires 0 < q && IsPoly(a, |s|, q) && IsPoly(a', |s|, q) && k <= |s| && j <= |s|
    requires a' == Shift(a, j, q)
    ensures PartialProduct(a', s, k, q) == Shift(PartialProduct(a, s, k, q), j, q)
  {
    if k == 0 {
      ShiftZero(|a|, j, q);
    } else {
      PartialProductShift(a, a', s, k - 1, j, q);
      ShiftSummand(a, s, k - 1, j, q);
      ShiftAdd(PartialProduct(a, s, k - 1, q), Summand(a, s, k - 1, q), j, q);
    }
  }

  lemma ShiftZero(n: nat, j: nat, q: int)
    requires j <= n
    ensures Shift(Zero(n), j, q) == Zero(n)
  {
    var z := Zero(n);
    assert forall i :: 0 <= i < n ==> Shift(z, j, q)[i] == ShiftedCoefficient(z, j, q, i) == 0;
  }

  /** (a + b) + (c + d) and (a + c) + (b + d) agree. */
  lemma AddInterchange(a: Poly, b: Poly, c: Poly, d: Poly, q: int)
    requires IsPoly(a, |a|, q) && IsPoly(b, |a|, q) && IsPoly(c, |a|, q) && IsPoly(d, |a|, q)
    ensures Add(Add(a, b, q), Add(c, d, q), q) == Add(Add(a, c, q), Add(b, d, q), q)
  {
  }

  lemma ScaleAdd(a: Poly, b: Poly, x: int, q: int)
    requires 0 < q && IsPoly(a, |a|, q) && IsPoly(b, |a|, q)
    ensures Scale(Add(a, b, q), x, q) == Add(Scale(a, x, q), Scale(b, x, q), q)
  {
    var l, r := Scale(Add(a, b, q), x, q), Add(Scale(a, x, q), Scale(b, x, q), q);
    forall i | 0 <= i < |a|
      ensures l[i] == r[i]
    {
      MulResAdd(a[i], b[i], x, q);
    }
  }

  lemma SumSummand(a: Poly, b: Poly, s: Poly, i: nat, q: int)
    requires 0 < q && IsPoly(a, |s|, q) && IsPoly(b, |s|, q) && i < |s|
    ensures Summand(Add(a, b, q), s, i, q) == Add(Summand(a, s, i, q), Summand(b, s, i, q), q)
  {
    ShiftAdd(a, b, i, q);
    ScaleAdd(Shift(a, i, q), Shift(b, i, q), s[i], q);
  }

  lemma {:induction false} PartialProductAdd(a: Poly, b: Poly, s: Poly, k: nat, q: int)
    requires 0 < q && IsPoly(a, |s|, q) && IsPoly(b, |s|, q) && k <= |s|
    ensures IsPoly(Add(a, b, q), |s|, q)
    ensures PartialProduct(Add(a, b, q), s, k, q)
         == Add(PartialProduct(a, s, k, q), PartialProduct(b, s, k, q), q)
  {
    if k == 0 {
      AddZeros(|a|, q);
    } else {
      PartialProductAdd(a, b, s, k - 1, q);
      SumSummand(a, b, s, k - 1, q);
      AddInterchange(PartialProduct(a, s, k - 1, q), PartialProduct(b, s, k - 1, q),
                     Summand(a, s, k - 1, q), Summand(b, s, k - 1, q), q);
    }
  }

  lemma AddZeros(n: nat, q: int)
    requires 0 < q
    ensures Add(Zero(n), Zero(n), q) == Zero(n)
  {
  }

  /** The phase of a sum is the sum of the phases. */
  lemma PhaseAdd(a: Cipher, b: Cipher, s: Poly, q: int)
    requires 0 < q && a.Valid(|s|, q) && b.Valid(|s|, q)
    ensures AddCipher(a, b, q).Valid(|s|, q)
    ensures Phase(AddCipher(a, b, q), s, q) == Add(Phase(a, s, q), Phase(b, s, q), q)
  {
    PartialProductAdd(a.c1, b.c1, s, |s|, q);
    AddInterchange(a.c0, b.c0, Mul(a.c1, s, q), Mul(b.c1, s, q), q);
  }

  lemma PhaseAddAt(a: Cipher, b: Cipher, t: nat, s: Poly, q: int)
    requires 0 < q && a.Valid(|s|, q) && b.Valid(|s|, q) && t < |s|
    ensures AddCipher(a, b, q).Valid(|s|, q)
    ensures Phase(AddCipher(a, b, q), s, q)[t] == (Phase(a, s, q)[t] + Phase(b, s, q)[t]) % q
  {
    var x, y := Phase(a, s, q), Phase(b, s, q);
    PhaseAdd(a, b, s, q);
    assert InRange(x[t], q) && InRange(y[t], q);
    AddResIsSum(x[t], y[t], q);
  }

  /** The phase of a shifted ciphertext is the shifted phase. */
  lemma PhaseShift(a: Cipher, k: nat, s: Poly, q: int)
    requires 0 < q && a.Valid(|s|, q) && k <= |s|
    ensures ShiftCipher(a, k, q).Valid(|s|, q)
    ensures Phase(ShiftCipher(a, k, q), s, q) == Shift(Phase(a, s, q), k, q)
  {
    ShiftIsPoly(a.c0, k, q);
    ShiftIsPoly(a.c1, k, q);
    PartialProductShift(a.c1, Shift(a.c1, k, q), s, |s|, k, q);
    ShiftAdd(a.c0, Mul(a.c1, s, q), k, q);
  }

  /** Shifting entry r of a partition to the last place keeps its sign. */
  lemma PhaseOfShiftedEntry(a: Cipher, s: Poly, q: int, size: nat, r: nat)
    requires 0 < q && a.Valid(|s|, q) && r < size <= |s|
    ensures ShiftCipher(a, size - r - 1, q).Valid(|s|, q)
    ensures Phase(ShiftCipher(a, size - r - 1, q), s, q)[size - 1] == Phase(a, s, q)[r]
  {
    PhaseShift(a, size - r - 1, s, q);
  }

  /** Adding a ciphertext shifted so that entry r arrives at the last place. */
  lemma PhaseAddShifted(c: Cipher, a: Cipher, s: Poly, q: int, size: nat, r: nat)
    requires 0 < q && c.Valid(|s|, q) && a.Valid(|s|, q) && r < size <= |s|
    ensures ShiftCipher(a, size - r - 1, q).Valid(|s|, q)
    ensures AddCipher(c, ShiftCipher(a, size - r - 1, q), q).Valid(|s|, q)
    ensures Phase(AddCipher(c, ShiftCipher(a, size - r - 1, q), q), s, q)[size - 1]
         == (Phase(c, s, q)[size - 1] + Phase(a, s, q)[r]) % q
  {
    PhaseOfShiftedEntry(a, s, q, size, r);
    hide ShiftCipher, Phase;
    PhaseAddAt(c, ShiftCipher(a, size - r - 1, q), size - 1, s, q);
  }

  /** Adding to a coefficient of c0 adds to that coefficient of the phase. */
  lemma PhaseAddToCoefficient(a: Cipher, t: nat, v: int, s: Poly, q: int)
    requires 0 < q && a.Valid(|s|, q) && t < |s|
    ensures AddToCoefficient(a, t, v, q).Valid(|s|, q)
    ensures Phase(AddToCoefficient(a, t, v, q), s, q)[t] == (Phase(a, s, q)[t] + v) % q
  {
    var m := Mul(a.c1, s, q);
    AddResIsSum(a.c0[t], m[t], q);
    AddResIsSum((a.c0[t] + v) % q, m[t], q);
    CongAddMod(a.c0[t] + v, m[t], q);
    CongAddMod(a.c0[t] + m[t], v, q);
  }
}
