/** The Miller-Rabin test (is_prime in encryption/utils/uint_small_mod.h). */
module MillerRabin {
  import opened ModArith
  import opened Words
  import opened Barrett
  import opened UintSmallMod
  import opened NumberTheory
  import opened Fermat

  const TEST_COUNT: nat := 40

  ghost predicate NoSmallFactor(v: int) {
    && (v == 2 || v % 2 != 0) && (v == 3 || v % 3 != 0) && (v == 5 || v % 5 != 0)
    && (v == 7 || v % 7 != 0) && (v == 11 || v % 11 != 0) && (v == 13 || v % 13 != 0)
  }

  lemma DividesTransitive(q: int, f: int, v: int)
    requires 0 < q && 0 < f && f % q == 0 && v % f == 0
    ensures v % q == 0
  {
    MulAssoc(v / f, f / q, q);
    DivModUnique(v, q, (v / f) * (f / q), 0);
  }

  lemma SmallDivisorRefuted(v: int, f: int)
    requires 2 <= f <= 16 && f < v && v % f == 0
    ensures !NoSmallFactor(v)
  {
    var q := if f % 2 == 0 then 2 else if f % 3 == 0 then 3 else if f % 5 == 0 then 5 else f;
    assert q == 2 || q == 3 || q == 5 || q == 7 || q == 11 || q == 13;
    assert f % q == 0;
    DividesTransitive(q, f, v);
  }

  /** Below 17^2 trial division by the six small primes is complete. */
  lemma TrialDivisionComplete(v: int)
    requires 2 <= v < 289 && NoSmallFactor(v)
    ensures IsPrime(v)
  {
    forall d | 2 <= d < v && Divides(d, v)
      ensures false
    {
      var e := v / d;
      assert v == e * d;
      if d <= 16 {
        SmallDivisorRefuted(v, d);
      } else {
        if e <= 1 {
          MulLe(e, 1, d);
        }
        if 17 <= e {
          MulLe(17, e, d);
        }
        DivModUnique(v, e, d, 0);
        MulLt(1, d, e);
        SmallDivisorRefuted(v, e);
      }
    }
  }

  lemma PrimeHasNoSmallFactor(v: int)
    requires IsPrime(v)
    ensures NoSmallFactor(v)
  {
    assert forall d :: 2 <= d < v ==> !Divides(d, v);
    assert Divides(2, v) <==> v % 2 == 0;
    assert Divides(3, v) <==> v % 3 == 0;
    assert Divides(5, v) <==> v % 5 == 0;
    assert Divides(7, v) <==> v % 7 == 0;
    assert Divides(11, v) <==> v % 11 == 0;
    assert Divides(13, v) <==> v % 13 == 0;
  }

  /** d doubled count times. */
  ghost function Doubled(d: nat, count: nat): nat {
    if count == 0 then d else 2 * Doubled(d, count - 1)
  }

  lemma {:induction false} DoubledTwice(d: nat, count: nat)
    ensures Doubled(d, count + 1) == Doubled(2 * d, count)
  {
    if count == 0 {
      assert Doubled(d, 1) == 2 * Doubled(d, 0);
    } else {
      DoubledTwice(d, count - 1);
    }
  }

  /** x is the base raised to d * 2^count, and no square root of one. */
  ghost predicate OnTrack(p: nat, a: nat, d: nat, count: nat, x: nat) {
    && 0 < p && x < p && x != 1 && x != p - 1
    && x == Pow(a, Doubled(d, count)) % p
  }

  lemma SquareOnTrack(p: nat, a: nat, d: nat, count: nat, x: nat)
    requires 0 < p && x == Pow(a, Doubled(d, count)) % p
    ensures x * x % p == Pow(a, Doubled(d, count + 1)) % p
  {
    var e := Doubled(d, count);
    PowAdd(a, e, e);
    CongMulMod(Pow(a, e), Pow(a, e), p);
  }

  /** A prime's track ends before the last squaring. */
  lemma TrackEndsEarly(p: nat, a: nat, d: nat, r: nat, count: nat, x: nat)
    requires IsPrime(p) && 0 < a < p && OnTrack(p, a, d, count, x)
    requires p - 1 == Doubled(d, r)
    ensures count + 1 != r
  {
    if count + 1 == r {
      SquareOnTrack(p, a, d, count, x);
      LittleTheorem(p, a);
      SquareRootsOfOne(p, x);
    }
  }

  /** What one witness accepts: its power d is one, or one of the powers the loop
      reaches is -1.  The loop always squares at least once. */
  ghost predicate Accepts(v: nat, a: nat, d: nat, r: nat)
    requires 0 < v
  {
    || Pow(a, d) % v == 1
    || exists i: nat :: i <= LastSquare(r) && MinusOneAt(v, a, d, i)
  }

  ghost predicate MinusOneAt(v: nat, a: nat, d: nat, i: nat)
    requires 0 < v
  {
    Pow(a, Doubled(d, i)) % v == v - 1
  }

  function LastSquare(r: nat): nat { if r <= 2 then 1 else r - 1 }

  /** A power of a prime's base that is one was reached from one or from -1. */
  lemma {:induction false} RootBefore(p: nat, a: nat, d: nat, i: nat)
    requires IsPrime(p) && 0 < i && Pow(a, Doubled(d, i)) % p == 1
    ensures Pow(a, d) % p == 1 || exists j: nat :: j < i && MinusOneAt(p, a, d, j)
  {
    var x: nat := Pow(a, Doubled(d, i - 1)) % p;
    SquareOnTrack(p, a, d, i - 1, x);
    SquareRootsOfOne(p, x);
    if x != 1 {
      assert MinusOneAt(p, a, d, i - 1);
    } else if i != 1 {
      RootBefore(p, a, d, i - 1);
    }
  }

  /** No base convicts a prime. */
  lemma PrimeAccepted(p: nat, a: nat, d: nat, r: nat)
    requires IsPrime(p) && 0 < a < p && 1 <= r && p - 1 == Doubled(d, r)
    ensures Accepts(p, a, d, r)
  {
    LittleTheorem(p, a);
    RootBefore(p, a, d, r);
    if j: nat :| j < r && MinusOneAt(p, a, d, j) {
      assert j <= LastSquare(r);
    }
  }

  /** One witness: it passes exactly the values it accepts. */
  method Witness(m: Modulus, a: U64, d: U64, r: U64) returns (passed: bool)
    requires m.Valid() && 0 < a < m.value && 1 <= r
    ensures passed <==> Accepts(m.value, a, d, r)
  {
    ghost var p := m.value;
    var x := Exponentiate(m, a, d);
    assert Pow(a, 1) == a * Pow(a, 0);
    SmallMod(a, p);
    assert x == m.value - 1 <==> MinusOneAt(p, a, d, 0);
    if x == 1 || x == m.value - 1 {
      return true;
    }
    var count: U64 := 0;
    while true
      invariant count == 0 || count + 1 < r
      invariant x < p && x == Pow(a, Doubled(d, count)) % p
      invariant forall i: nat :: i <= count ==> !MinusOneAt(p, a, d, i)
      decreases r + 1 - count
    {
      SquareOnTrack(p, a, d, count, x);
      x := MultiplyMod(m, x, x);
      count := count + 1;
      assert x == m.value - 1 <==> MinusOneAt(p, a, d, count);
      if x == m.value - 1 || count >= r - 1 {
        break;
      }
    }
    return x == m.value - 1;
  }

  /** The simplest cases of is_prime: small primes and their multiples. */
  method TrialDivision(value: U64) returns (decided: bool, verdict: bool)
    ensures decided <==> value <= 13 || !NoSmallFactor(value)
    ensures decided ==> (verdict <==> IsPrime(value))
    ensures !decided ==> 3 < value && (value - 1) % 2 == 0
    ensures !decided && value < 289 ==> IsPrime(value)
  {
    if value < 2 { return true, false; }
    if IsPrime(value) { PrimeHasNoSmallFactor(value); }
    if value < 289 && NoSmallFactor(value) { TrialDivisionComplete(value); }
    if value == 2 { return true, true; }
    if value % 2 == 0 { return true, false; }
    assert (value - 1) % 2 == 0;
    if value == 3 { return true, true; }
    if value % 3 == 0 { return true, false; }
    if value == 5 { return true, true; }
    if value % 5 == 0 { return true, false; }
    if value == 7 { return true, true; }
    if value % 7 == 0 { return true, false; }
    if value == 11 { return true, true; }
    if value % 11 == 0 { return true, false; }
    if value == 13 { return true, true; }
    if value % 13 == 0 { return true, false; }
    return false, false;
  }

  /** value - 1 has one odd part and one power of two. */
  lemma {:induction false} OddPartUnique(d: nat, r: nat, e: nat, s: nat)
    requires d % 2 == 1 && e % 2 == 1 && Doubled(d, r) == Doubled(e, s)
    ensures d == e && r == s
  {
    if r != 0 && s != 0 {
      OddPartUnique(d, r - 1, e, s - 1);
    }
  }

  lemma {:induction false} OddPartExists(v: nat) returns (d: nat, r: nat)
    requires 0 < v
    ensures d % 2 == 1 && v == Doubled(d, r)
  {
    if v % 2 == 1 {
      d, r := v, 0;
    } else {
      d, r := OddPartExists(v / 2);
      r := r + 1;
    }
  }

  /** The base of round i accepts: two first, then a draw from [3, value - 1]. */
  ghost predicate RoundAccepts(value: U64, draws: seq<nat>, d: nat, r: nat, i: nat)
    requires 3 < value && i < |draws|
  {
    Accepts(value, if i == 0 then 2 else draws[i] % (value - 3) + 3, d, r)
  }

  ghost predicate AllAccept(value: U64, draws: seq<nat>, d: nat, r: nat)
    requires 3 < value && |draws| == 40
  {
    forall i :: 0 <= i < 40 ==> RoundAccepts(value, draws, d, r, i)
  }

  /** The verdict past trial division, for value - 1 == d * 2^r with d odd. */
  ghost predicate Judged(value: U64, draws: seq<nat>, verdict: bool)
    requires 3 < value && |draws| == 40
  {
    forall d: nat, r: nat :: d % 2 == 1 && value - 1 == Doubled(d, r) ==>
      (verdict <==> AllAccept(value, draws, d, r))
  }

  lemma JudgedOnce(value: U64, draws: seq<nat>, verdict: bool, d: nat, r: nat)
    requires 3 < value && |draws| == 40 && d % 2 == 1 && value - 1 == Doubled(d, r)
    requires verdict <==> AllAccept(value, draws, d, r)
    ensures Judged(value, draws, verdict)
  {
    hide AllAccept;
    forall e: nat, s: nat | e % 2 == 1 && value - 1 == Doubled(e, s)
      ensures verdict <==> AllAccept(value, draws, e, s)
    {
      OddPartUnique(d, r, e, s);
    }
  }

  /** is_prime.  The draws stand for the values rand() returns.  Small values and
      multiples of small primes are decided exactly; any other value is called prime
      exactly when all forty bases accept it. */
  method IsPrimeTest(m: Modulus, draws: seq<nat>) returns (verdict: bool)
    requires m.value < 2 || m.Valid()
    requires |draws| == TEST_COUNT
    ensures m.value <= 13 || !NoSmallFactor(m.value) ==> (verdict <==> IsPrime(m.value))
    ensures m.value > 13 && NoSmallFactor(m.value) ==> Judged(m.value, draws, verdict)
    ensures IsPrime(m.value) ==> verdict
    ensures m.value < 289 && verdict ==> IsPrime(m.value)
  {
    hide Accepts, IsPrime, NoSmallFactor, Judged;
    var value := m.value;
    var decided;
    decided, verdict := TrialDivision(value);
    if decided { return verdict; }
    // value - 1 = 2^r * d with d odd
    var d: U64, r: U64 := value - 1, 0;
    while d % 2 == 0
      invariant 1 <= d && r + d <= value
      invariant value - 1 == Doubled(d, r)
      invariant r == 0 ==> d % 2 == 0
      decreases d
    {
      DoubledTwice(d / 2, r);
      d, r := d / 2, r + 1;
    }
    if r == 0 { return false; }
    for i := 0 to TEST_COUNT
      invariant forall j :: 0 <= j < i ==> RoundAccepts(value, draws, d, r, j)
    {
      var a: U64 := if i == 0 then 2 else draws[i] % (value - 3) + 3;
      var passed := Witness(m, a, d, r);
      assert passed <==> RoundAccepts(value, draws, d, r, i);
      if !passed {
        if IsPrime(value) { PrimeAccepted(value, a, d, r); }
        JudgedOnce(value, draws, false, d, r);
        return false;
      }
    }
    JudgedOnce(value, draws, true, d, r);
    return true;
  }

  /** 323 = 17 * 19 passes trial division and is convicted by the first base. */
  lemma CompositeConvicted()
    ensures NoSmallFactor(323) && 322 == Doubled(161, 1) && !Accepts(323, 2, 161, 1)
  {
    var x := Pow(2, 161);
    Powers323();
    assert Doubled(161, 1) == 2 * Doubled(161, 0);
    forall i: nat | i <= 1
      ensures !MinusOneAt(323, 2, 161, i)
    {
      SquareOnTrack(323, 2, 161, 0, 257);
    }
  }

  lemma Powers323()
    ensures Pow(2, 161) % 323 == 257
  {
    FifthPower();
    hide Pow;
    SquareMod(5, 32, 55);
    SquareMod(10, 55, 118);
    SquareMod(20, 118, 35);
    SquareMod(40, 35, 256);
    SquareMod(80, 256, 290);
    NextPower(160, 290, 257);
  }

  lemma FifthPower()
    ensures Pow(2, 5) == 32
  {
    assert Pow(2, 5) == 2 * Pow(2, 4) == 4 * Pow(2, 3) == 8 * Pow(2, 2) == 16 * Pow(2, 1) == 32;
  }

  /** Squaring and doubling a power of two modulo 323. */
  lemma SquareMod(e: nat, x: nat, y: nat)
    requires Pow(2, e) % 323 == x && y == x * x % 323
    ensures Pow(2, 2 * e) % 323 == y
  {
    PowAdd(2, e, e);
    CongMulMod(Pow(2, e), Pow(2, e), 323);
  }

  lemma NextPower(e: nat, x: nat, y: nat)
    requires Pow(2, e) % 323 == x && y == 2 * x % 323
    ensures Pow(2, e + 1) % 323 == y
  {
    assert Pow(2, e + 1) == 2 * Pow(2, e);
    CongMulMod(2, Pow(2, e), 323);
  }
}
