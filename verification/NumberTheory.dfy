/** Euclid's algorithm, its extended form and modular inverses
    (encryption/utils/number_theory.h). */
module NumberTheory {
  import opened ModArith
  import opened Words

  const I63: int := 0x8000_0000_0000_0000

  type I64 = x: int | -0x8000_0000_0000_0000 <= x < 0x8000_0000_0000_0000

  /** Conversion to a signed word. */
  function Signed(w: U64): I64 { if w < I63 then w else w - B64 }

  ghost predicate Divides(d: int, a: int) {
    0 < d && a % d == 0
  }

  ghost function Gcd(a: nat, b: nat): nat
    decreases b
  {
    if b == 0 then a else Gcd(b, a % b)
  }

  lemma DividesLinear(d: int, a: int, b: int, x: int, y: int)
    requires Divides(d, a) && Divides(d, b)
    ensures Divides(d, x * a + y * b)
  {
    CongScale(a, 0, x, d);
    CongScale(b, 0, y, d);
    CongAdd(a * x, 0, b * y, 0, d);
  }

  lemma DivisorsOfSum(d: int, a: int, b: int, q: int, r: int)
    requires Divides(d, b) && a == q * b + r
    ensures Divides(d, a) <==> Divides(d, r)
  {
    hide Divides;
    if Divides(d, r) {
      DividesLinear(d, b, r, q, 1);
    }
    if Divides(d, a) {
      DividesLinear(d, b, a, 0 - q, 1);
      MulNeg(q, b);
    }
  }

  /** One division step keeps the common divisors. */
  lemma DivisorsKept(d: int, a: nat, b: nat)
    requires 0 < b && Divides(d, b)
    ensures Divides(d, a) <==> Divides(d, a % b)
  {
    hide Divides;
    DivisorsOfSum(d, a, b, a / b, a % b);
  }

  /** Gcd is a common divisor and every common divisor divides it. */
  lemma {:induction false} GcdIsGreatest(a: nat, b: nat)
    requires 0 < a || 0 < b
    ensures Divides(Gcd(a, b), a) && Divides(Gcd(a, b), b)
    ensures forall d :: Divides(d, a) && Divides(d, b) ==> Divides(d, Gcd(a, b))
    decreases b
  {
    if b == 0 {
      DivModUnique(a, a, 1, 0);
      DivModUnique(0, a, 0, 0);
    } else {
      GcdIsGreatest(b, a % b);
      DivisorsKept(Gcd(b, a % b), a, b);
      forall d | Divides(d, a) && Divides(d, b)
        ensures Divides(d, Gcd(b, a % b))
      {
        DivisorsKept(d, a, b);
      }
    }
  }

  lemma {:induction false} Bezout(a: nat, b: nat) returns (x: int, y: int)
    ensures x * a + y * b == Gcd(a, b)
    decreases b
  {
    if b == 0 {
      x, y := 1, 0;
    } else {
      var u, v := Bezout(b, a % b);
      x, y := v, u - v * (a / b);
      assert a == (a / b) * b + a % b;
      MulDist((a / b) * b, a % b, v);
      MulSwap(a / b, b, v);
      MulDist(u, -(v * (a / b)), b);
    }
  }

  /** utils::gcd. */
  method ComputeGcd(x: U64, y: U64) returns (g: U64)
    ensures g == Gcd(x, y)
  {
    var a: U64, b: U64 := x, y;
    while b != 0
      invariant Gcd(a, b) == Gcd(x, y)
    {
      a, b := b, a % b;
    }
    g := a;
  }

  /** Magnitudes of the four coefficients of extended Euclid; their signs
      alternate, and which sign is current is the flag. */
  datatype Magnitudes = Magnitudes(u0: nat, u1: nat, v0: nat, v1: nat, positive: bool) {
    ghost function X0(): int { if positive then u0 else 0 - u0 }
    ghost function X1(): int { if positive then 0 - u1 else u1 }
    ghost function Y0(): int { if positive then 0 - v0 else v0 }
    ghost function Y1(): int { if positive then v1 else 0 - v1 }

    ghost function Next(q: nat): Magnitudes {
      MulLe(0, q, u1);
      MulLe(0, q, v1);
      Magnitudes(u1, u0 + q * u1, v1, v0 + q * v1, !positive)
    }

    /** What the current remainders a and b owe to the inputs a0 and b0. */
    ghost predicate Sums(a0: int, b0: int, a: int, b: int) {
      a * u1 + b * u0 == b0 && a * v1 + b * v0 == a0
    }

    ghost predicate Identities(a0: int, b0: int, a: int, b: int) {
      X0() * a0 + Y0() * b0 == a && X1() * a0 + Y1() * b0 == b
    }
  }

  lemma Combine(a: int, b: int, q: int, r: int, u0: int, u1: int)
    requires a == q * b + r
    ensures b * (u0 + q * u1) + r * u1 == a * u1 + b * u0
  {
    MulDist(q * b, r, u1);
    MulSwap(q, b, u1);
    MulDist(u0, q * u1, b);
  }

  lemma SumsStep(mg: Magnitudes, a0: int, b0: int, a: nat, b: nat)
    requires 0 < b && mg.Sums(a0, b0, a, b)
    ensures mg.Next(a / b).Sums(a0, b0, b, a % b)
  {
    Combine(a, b, a / b, a % b, mg.u0, mg.u1);
    Combine(a, b, a / b, a % b, mg.v0, mg.v1);
  }

  lemma NextSigns(mg: Magnitudes, q: nat)
    ensures mg.Next(q).X0() == mg.X1() && mg.Next(q).Y0() == mg.Y1()
    ensures mg.Next(q).X1() == mg.X0() - q * mg.X1()
    ensures mg.Next(q).Y1() == mg.Y0() - q * mg.Y1()
  {
    assert q * (0 - mg.u1) == 0 - q * mg.u1 && q * (0 - mg.v1) == 0 - q * mg.v1;
  }

  lemma CombineIdentity(a0: int, b0: int, q: int, x0: int, y0: int, x1: int, y1: int)
    ensures (x0 - q * x1) * a0 + (y0 - q * y1) * b0 == x0 * a0 + y0 * b0 - q * (x1 * a0 + y1 * b0)
  {
    MulDist(x0, -(q * x1), a0);
    MulDist(y0, -(q * y1), b0);
    MulAssoc(q, x1, a0);
    MulAssoc(q, y1, b0);
    MulDist(x1 * a0, y1 * b0, q);
  }

  lemma IdentitiesStep(mg: Magnitudes, a0: int, b0: int, a: nat, b: nat)
    requires 0 < b && mg.Identities(a0, b0, a, b)
    ensures mg.Next(a / b).Identities(a0, b0, b, a % b)
  {
    NextSigns(mg, a / b);
    CombineIdentity(a0, b0, a / b, mg.X0(), mg.Y0(), mg.X1(), mg.Y1());
  }

  /** Both pairs of magnitudes, and the products that form them, are bounded. */
  lemma SumsBound(mg: Magnitudes, a0: int, b0: int, a: int, b: int)
    requires 0 < a && 0 <= b && mg.Sums(a0, b0, a, b)
    ensures mg.u1 <= b0 && mg.v1 <= a0
  {
    MulLe(1, a, mg.u1);
    MulLe(1, a, mg.v1);
    MulLe(0, b, mg.u0);
    MulLe(0, b, mg.v0);
  }

  lemma ProductFits(c: int, u: nat, q: nat, bound: int)
    requires c == u || c == 0 - u
    requires q * u <= bound
    ensures -bound <= q * c <= bound
  {
    MulLe(0, q, u);
  }

  /** The division steps Euclid's algorithm takes. */
  ghost function Divisions(a: nat, b: nat): nat
    decreases b
  {
    if b == 0 then 0 else 1 + Divisions(b, a % b)
  }

  predicate Fits(x: int) { -I63 <= x < I63 }

  /** When a coefficient leaves the signed words: the last one computed, which nobody
      reads, has the magnitude a / gcd.  It is negative after an odd number of steps,
      where -2^63 still fits.  For b == 1 the quotient itself is converted. */
  ghost predicate CoefficientOverflows(a: nat, b: nat) {
    if b == 1 then a == I63
    else 0 < b && Gcd(a, b) == 1 && (a > I63 || (a == I63 && Divisions(a, b) % 2 == 0))
  }

  /** The largest word modulo two, and 2^63 after two steps but not after three. */
  lemma LargeInputsOverflow()
    ensures CoefficientOverflows(B64 - 1, 2)
    ensures CoefficientOverflows(I63, 7) && !CoefficientOverflows(I63, 3)
  {
    assert Gcd(B64 - 1, 2) == Gcd(2, 1) == Gcd(1, 0) == 1;
    assert I63 % 7 == 1 && I63 % 3 == 2;
    assert Gcd(I63, 7) == Gcd(7, 1) == Gcd(1, 0) == 1;
    assert Divisions(I63, 7) == 1 + Divisions(7, 1) == 2 + Divisions(1, 0);
    assert Divisions(I63, 3) == 1 + Divisions(3, 2) == 2 + Divisions(2, 1) == 3 + Divisions(1, 0);
  }

  /** In an overflow the program's behaviour is not defined. */
  datatype Xgcd = CoefficientOverflow | Coefficients(gcd: U64, x: I64, y: I64)

  /** Where a run of the loop on a first input from 2^63 on can be. */
  ghost predicate Descends(mg: Magnitudes, a0: nat, b0: nat, a: nat, b: nat) {
    && b < a && 1 <= mg.v1 && Gcd(a, b) == Gcd(a0, b0)
    && ((a == a0 && b == b0 && mg == Magnitudes(1, 0, 0, 1, true))
        || (a < I63 && 1 <= mg.v0 && (b0 == 1 ==> b == 0)))
    && (mg.positive <==> (Divisions(a0, b0) - Divisions(a, b)) % 2 == 0)
  }

  lemma HalfBound(c: int, v: nat, a0: int)
    requires 2 <= c && c * v <= a0
    ensures 2 * v <= a0
  {
    MulLe(2, c, v);
  }

  /** What one division with quotient q and remainder r makes of the coefficients. */
  ghost predicate Stepped(mg: Magnitudes, next: Magnitudes, a0: nat, b0: nat, a: nat, b: nat, q: nat, r: nat) {
    && next.Sums(a0, b0, b, r) && next.Identities(a0, b0, b, r)
    && next.X0() == mg.X1() && next.X1() == mg.X0() - q * mg.X1()
    && next.Y0() == mg.Y1() && next.Y1() == mg.Y0() - q * mg.Y1()
    && next.positive == !mg.positive && next.u0 == mg.u1 && next.v0 == mg.v1
    && mg.u0 <= next.u1 <= b0 && mg.v0 <= next.v1 <= a0
    && (b <= a && 1 <= mg.v1 ==> 1 <= next.v1)
    && r < b && Gcd(a, b) == Gcd(b, r) && Divisions(a, b) == 1 + Divisions(b, r)
  }

  lemma StepGrows(mg: Magnitudes, a0: nat, b0: nat, a: nat, b: nat)
    requires 0 < b && mg.Next(a / b).Sums(a0, b0, b, a % b)
    ensures var next := mg.Next(a / b);
      && mg.u0 <= next.u1 <= b0 && mg.v0 <= next.v1 <= a0
      && (b <= a && 1 <= mg.v1 ==> 1 <= next.v1)
  {
    hide Magnitudes.Sums;
    QuotientRange(a, b);
    if b <= a {
      MulLe(1, a / b, mg.v1);
    }
    SumsBound(mg.Next(a / b), a0, b0, b, a % b);
    MulLe(0, a / b, mg.u1);
    MulLe(0, a / b, mg.v1);
  }

  lemma StepTaken(mg: Magnitudes, a0: nat, b0: nat, a: nat, b: nat)
    requires 0 < b && mg.Sums(a0, b0, a, b) && mg.Identities(a0, b0, a, b)
    ensures Stepped(mg, mg.Next(a / b), a0, b0, a, b, a / b, a % b)
  {
    hide Magnitudes.Sums, Magnitudes.Identities;
    SumsStep(mg, a0, b0, a, b);
    IdentitiesStep(mg, a0, b0, a, b);
    NextSigns(mg, a / b);
    StepGrows(mg, a0, b0, a, b);
  }

  lemma DescendsStep(mg: Magnitudes, next: Magnitudes, a0: nat, b0: nat, a: nat, b: nat, q: nat, r: nat)
    requires b < I63 && Descends(mg, a0, b0, a, b) && Stepped(mg, next, a0, b0, a, b, q, r)
    ensures Descends(next, a0, b0, b, r)
  {
    hide Magnitudes.Sums, Magnitudes.Identities, Gcd, Divisions;
  }

  /** What the loop keeps. */
  ghost predicate Running(mg: Magnitudes, a0: nat, b0: nat, a: nat, b: nat) {
    && b < I63 && (b0 == 0 ==> b == 0) && Gcd(a, b) == Gcd(a0, b0)
    && mg.Sums(a0, b0, a, b) && mg.Identities(a0, b0, a, b)
    && mg.u1 <= b0 && (mg.u0 <= b0 || b0 == 0)
    && (a0 < I63 ==> a < I63 && (mg.v1 <= a0 || mg.v1 == 1))
    && (a0 >= I63 ==> Descends(mg, a0, b0, a, b))
  }

  lemma RunningStep(mg: Magnitudes, next: Magnitudes, a0: nat, b0: nat, a: nat, b: nat, q: nat, r: nat)
    requires Running(mg, a0, b0, a, b) && Stepped(mg, next, a0, b0, a, b, q, r)
    ensures Running(next, a0, b0, b, r)
  {
    hide Magnitudes.Sums, Magnitudes.Identities, Gcd, Divisions;
    if a0 >= I63 {
      DescendsStep(mg, next, a0, b0, a, b, q, r);
    }
  }

  /** How large the coefficient of the first input is. */
  lemma SumsMagnitude(mg: Magnitudes, a0: nat, b0: nat, b: nat, r: nat)
    requires r < b && mg.Sums(a0, b0, b, r) && Gcd(b, r) == Gcd(a0, b0)
    ensures r == 0 && Gcd(a0, b0) == 1 ==> b == 1 && mg.v1 == a0
    ensures !(r == 0 && Gcd(a0, b0) == 1) ==> 2 * mg.v1 <= a0
  {
    MulLe(0, r, mg.v0);
    assert r == 0 ==> Gcd(b, r) == b;
    if r != 0 || b != 1 {
      HalfBound(b, mg.v1, a0);
    }
  }

  /** For a first input from 2^63 on, a step overflows exactly when it is the last
      and the inputs are as CoefficientOverflows says. */
  lemma LargeStepFits(mg: Magnitudes, next: Magnitudes, a0: U64, b0: nat, a: nat, b: nat, q: nat, r: nat)
    requires a0 >= I63 && b0 >= 2 && Descends(mg, a0, b0, a, b) && Stepped(mg, next, a0, b0, a, b, q, r)
    requires Descends(next, a0, b0, b, r)
    ensures Fits(q * mg.Y1()) && Fits(next.Y1()) <==> !(r == 0 && CoefficientOverflows(a0, b0))
  {
    SumsMagnitude(next, a0, b0, b, r);
    hide Magnitudes.Sums, Magnitudes.Identities, Gcd;
    assert q * mg.Y1() == mg.Y0() - next.Y1();
  }

  lemma QuotientFits(a: int, b: int)
    requires 0 <= a < B64 && 0 < b && (2 <= b || a < I63)
    ensures 0 <= a / b < I63
  {
    QuotientRange(a, b);
    if 2 <= b {
      MulLe(2, b, a / b);
    }
  }

  /** A step's products and differences fit unless it is the last and the inputs are
      as CoefficientOverflows says. */
  lemma StepFits(mg: Magnitudes, next: Magnitudes, a0: U64, b0: nat, a: nat, b: nat, q: nat, r: nat)
    requires b0 < I63 && (b0 != 1 || a0 < I63)
    requires Running(mg, a0, b0, a, b) && Stepped(mg, next, a0, b0, a, b, q, r) && Running(next, a0, b0, b, r)
    ensures Fits(q * mg.X1()) && Fits(next.X1())
    ensures Fits(q * mg.Y1()) && Fits(next.Y1()) <==> !(r == 0 && CoefficientOverflows(a0, b0))
  {
    hide Magnitudes.Sums, Magnitudes.Identities, Gcd, Divisions, Descends;
    assert q * mg.X1() == mg.X0() - next.X1() && q * mg.Y1() == mg.Y0() - next.Y1();
    if a0 >= I63 {
      LargeStepFits(mg, next, a0, b0, a, b, q, r);
    }
  }

  lemma RunningStarts(a0: U64, b0: U64)
    requires b0 < I63
    ensures Running(Magnitudes(1, 0, 0, 1, true), a0, b0, a0, b0)
    ensures b0 == 0 ==> !CoefficientOverflows(a0, b0)
  {
  }

  lemma RunningParts(mg: Magnitudes, a0: nat, b0: nat, a: nat, b: nat)
    requires Running(mg, a0, b0, a, b)
    ensures b < I63 && mg.Sums(a0, b0, a, b) && mg.Identities(a0, b0, a, b)
    ensures (b0 == 0 ==> b == 0) && (a0 < I63 ==> a < I63) && (b == 1 && b0 != 1 ==> a < I63)
  {
  }

  lemma RunningEnds(mg: Magnitudes, a0: U64, b0: U64, a: nat)
    requires Running(mg, a0, b0, a, 0)
    ensures a == Gcd(a0, b0) && mg.X0() * a0 + mg.Y0() * b0 == a
    ensures 0 < b0 ==> -(b0 as int) <= mg.X0() <= b0
  {
  }

  /** A second input of one is one step, whose quotient is the first input. */
  lemma UnitStep(mg: Magnitudes, a0: nat, b0: nat, a: nat, b: nat)
    requires Running(mg, a0, b0, a, b) && 0 < b && b0 == 1 && a0 >= I63
    ensures mg == Magnitudes(1, 0, 0, 1, true)
    ensures a / b == a0 && a % b == 0 && (CoefficientOverflows(a0, b0) <==> a0 == I63)
  {
  }

  lemma DivisionStep(mg: Magnitudes, next: Magnitudes, a0: U64, b0: nat, a: U64, b: nat, q: nat, r: nat)
    requires 0 < b && Running(mg, a0, b0, a, b)
    requires q == a / b && r == a % b && next == mg.Next(q)
    ensures Stepped(mg, next, a0, b0, a, b, q, r) && Running(next, a0, b0, b, r)
  {
    hide Magnitudes.Sums, Magnitudes.Identities, Magnitudes.Next, Gcd, Divisions, Running, Stepped;
    RunningParts(mg, a0, b0, a, b);
    StepTaken(mg, a0, b0, a, b);
    RunningStep(mg, next, a0, b0, a, b, q, r);
  }

  /** One turn of the loop. */
  lemma LoopStep(mg: Magnitudes, next: Magnitudes, a0: U64, b0: nat, a: U64, b: nat, q: nat, r: nat)
    requires b0 < I63 && 0 < b && Running(mg, a0, b0, a, b)
    requires q == a / b && r == a % b && next == mg.Next(q)
    ensures r < b && Running(next, a0, b0, b, r)
    ensures next.X0() == mg.X1() && next.X1() == mg.X0() - q * mg.X1()
    ensures next.Y0() == mg.Y1() && next.Y1() == mg.Y0() - q * mg.Y1()
    ensures b0 != 1 || a0 < I63 ==>
      && q < I63 && Fits(q * mg.X1()) && Fits(next.X1())
      && (Fits(q * mg.Y1()) && Fits(next.Y1()) <==> !(r == 0 && CoefficientOverflows(a0, b0)))
    ensures b0 == 1 && a0 >= I63 ==>
      && q == a0 && r == 0 && mg == Magnitudes(1, 0, 0, 1, true)
      && (CoefficientOverflows(a0, b0) <==> a0 == I63)
  {
    hide Magnitudes.Sums, Magnitudes.Identities, Magnitudes.Next, Gcd, Divisions, Running, CoefficientOverflows, Fits;
    DivisionStep(mg, next, a0, b0, a, b, q, r);
    if b0 == 1 && a0 >= I63 {
      UnitStep(mg, a0, b0, a, b);
    } else {
      RunningParts(mg, a0, b0, a, b);
      QuotientFits(a, b);
      StepFits(mg, next, a0, b0, a, b, q, r);
    }
  }

  /** xgcd, for any first input.  Declaring every coefficient, quotient and product as
      a 64-bit signed integer makes the verifier show that none of them overflows
      unless the result says so. */
  method ExtendedGcd(a0: U64, b0: U64) returns (r: Xgcd)
    requires b0 < I63
    ensures r.CoefficientOverflow? <==> CoefficientOverflows(a0, b0)
    ensures r.Coefficients? ==> r.gcd == Gcd(a0, b0) && r.x * a0 + r.y * b0 == r.gcd
    ensures r.Coefficients? && 0 < b0 ==> -(b0 as int) <= r.x <= b0
  {
    hide Magnitudes.Sums, Magnitudes.Identities, Magnitudes.Next, Gcd, Divisions, Running, CoefficientOverflows;
    var a: U64, b: U64 := a0, b0;
    var x0: I64, y0: I64, x1: I64, y1: I64 := 1, 0, 0, 1;
    ghost var mg := Magnitudes(1, 0, 0, 1, true);
    RunningStarts(a0, b0);
    while b != 0
      invariant Running(mg, a0, b0, a, b)
      invariant x0 == mg.X0() && y0 == mg.Y0() && (b != 0 ==> x1 == mg.X1() && y1 == mg.Y1())
      invariant b == 0 ==> !CoefficientOverflows(a0, b0)
      decreases b
    {
      QuotientRange(a, b);
      ghost var next := mg.Next(a / b);
      LoopStep(mg, next, a0, b0, a, b, a / b, a % b);
      var q: I64 := Signed(a / b);
      var rem: I64 := Signed(a % b);
      var qx, qy := q * x1, q * y1;
      if !(Fits(qx) && Fits(qy) && Fits(x0 - qx) && Fits(y0 - qy)) {
        return CoefficientOverflow;
      }
      a, b := b, rem;
      var x2: I64 := x0 - qx;
      var y2: I64 := y0 - qy;
      x0, y0, x1, y1 := x1, y1, x2, y2;
      mg := next;
    }
    RunningEnds(mg, a0, b0, a);
    r := Coefficients(a, x0, y0);
  }

  ghost predicate IsInverse(value: int, modulus: int, result: int) {
    0 <= result < modulus && value * result % modulus == 1
  }

  /** A coefficient as large as the modulus would make 1 a multiple of it. */
  lemma CoefficientBelowModulus(value: int, modulus: int, c: int, y: int)
    requires 2 <= modulus
    ensures (c * modulus) * value + y * modulus != 1
  {
    MulSwap(c, modulus, value);
    MulDist(c * value, y, modulus);
    if (c * modulus) * value + y * modulus == 1 {
      DivModUnique(1, modulus, c * value + y, 0);
      SmallMod(1, modulus);
    }
  }

  lemma InverseInRange(value: int, modulus: int, x: int, y: int)
    requires 2 <= modulus && x * value + y * modulus == 1 && -modulus <= x <= modulus
    ensures IsInverse(value, modulus, if x < 0 then modulus + x else x)
  {
    CoefficientBelowModulus(value, modulus, 1, y);
    CoefficientBelowModulus(value, modulus, -1, y);
    SmallMod(1, modulus);
    CongIntro(value * x, 1, modulus, -y);
    if x < 0 {
      MulDist(modulus, x, value);
      CongIntro(value * (modulus + x), value * x, modulus, value);
    }
  }

  datatype Inversion = NoInverse | InversionOverflow | Inverse(value: U64)

  /** try_invert_uint64_mod_uint64. */
  method TryInvert(value: U64, modulus: U64) returns (r: Inversion)
    requires 2 <= modulus < I63
    ensures r.NoInverse? <==> Gcd(value, modulus) != 1
    ensures r.InversionOverflow? <==> CoefficientOverflows(value, modulus)
    ensures r.Inverse? ==> IsInverse(value, modulus, r.value)
  {
    if value == 0 {
      assert Gcd(0, modulus) == Gcd(modulus, 0 % modulus) == modulus;
      return NoInverse;
    }
    var cs := ExtendedGcd(value, modulus);
    if cs == CoefficientOverflow {
      return InversionOverflow;
    }
    if cs.gcd != 1 {
      return NoInverse;
    }
    InverseInRange(value, modulus, cs.x, cs.y);
    if cs.x < 0 {
      return Inverse(modulus + cs.x);
    } else {
      return Inverse(cs.x);
    }
  }
}
