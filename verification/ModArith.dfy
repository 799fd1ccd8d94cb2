/** Integer division, congruence and powers: the facts every other module's
    arithmetic rests on.  Nothing here models the program itself. */
module ModArith {

  lemma MulDist(a: int, b: int, c: int)
    ensures (a + b) * c == a * c + b * c
  {
  }

  lemma MulSub(a: int, b: int, c: int)
    ensures a * (b - c) == a * b - a * c
  {
  }

  lemma MulNeg(a: int, b: int)
    ensures (0 - a) * b == 0 - a * b
  {
  }

  lemma MulAssoc(a: int, b: int, c: int)
    ensures (a * b) * c == a * (b * c)
  {
  }

  /** Exchange the last two of three factors. */
  lemma MulSwap(a: int, b: int, c: int)
    ensures (a * b) * c == (a * c) * b
  {
  }

  lemma MulLe(a: int, b: int, c: int)
    requires a <= b && 0 <= c
    ensures a * c <= b * c
  {
  }

  lemma MulLt(a: int, b: int, c: int)
    requires a < b && 0 < c
    ensures a * c < b * c
  {
  }

  /** From a product inequality back to its factors. */
  lemma MulLtConverse(a: int, b: int, c: int)
    requires 0 <= c && a * c < b * c
    ensures a < b
  {
    if b <= a {
      MulLe(b, a, c);
    }
  }

  lemma MulLeConverse(a: int, b: int, c: int)
    requires 0 < c && a * c <= b * c
    ensures a <= b
  {
    if b < a {
      MulLt(b, a, c);
    }
  }

  /** n copies of x added up: n * x, in a form that stays linear where the
      product itself is not needed. */
  ghost function Times(n: nat, x: int): (y: int)
    ensures 0 <= x ==> 0 <= y
  {
    if n == 0 then 0 else Times(n - 1, x) + x
  }

  lemma {:induction false} TimesIsProduct(n: nat, x: int)
    ensures Times(n, x) == n * x
  {
    if n == 0 {
    } else {
      TimesIsProduct(n - 1, x);
      MulDist(n - 1, 1, x);
    }
  }

  /** Quotient and remainder are unique. */
  lemma DivModUnique(x: int, m: int, q: int, r: int)
    requires 0 < m && 0 <= r < m && x == q * m + r
    ensures x / m == q && x % m == r
  {
    var d := x / m - q;
    assert x == (x / m) * m + x % m;
    assert d * m == r - x % m;
    if 1 <= d {
      MulLe(1, d, m);
    } else if d <= -1 {
      MulLe(d, -1, m);
    }
  }

  lemma SmallMod(x: int, m: int)
    requires 0 <= x < m
    ensures x % m == x && x / m == 0
  {
    DivModUnique(x, m, 0, x);
  }

  lemma QuotientRange(a: nat, b: nat)
    requires 0 < b
    ensures 0 <= a / b <= a
  {
    assert a == (a / b) * b + a % b;
    if a / b < 0 {
      MulLe(a / b, -1, b);
    } else {
      MulLe(1, b, a / b);
    }
  }

  /** a and b leave the same remainder. */
  ghost predicate Cong(a: int, b: int, m: int)
    requires 0 < m
  {
    a % m == b % m
  }

  lemma CongIntro(a: int, b: int, m: int, k: int)
    requires 0 < m && a == b + k * m
    ensures Cong(a, b, m)
  {
    assert b == (b / m) * m + b % m;
    assert a == (b / m + k) * m + b % m;
    DivModUnique(a, m, b / m + k, b % m);
  }

  lemma CongElim(a: int, b: int, m: int) returns (k: int)
    requires 0 < m && Cong(a, b, m)
    ensures a == b + k * m
  {
    k := a / m - b / m;
    assert a == (a / m) * m + a % m;
    assert b == (b / m) * m + b % m;
    assert k * m == (a / m) * m - (b / m) * m;
  }

  lemma CongMod(a: int, m: int)
    requires 0 < m
    ensures Cong(a % m, a, m)
  {
    CongIntro(a % m, a, m, -(a / m));
  }

  lemma CongAdd(a: int, b: int, c: int, d: int, m: int)
    requires 0 < m && Cong(a, b, m) && Cong(c, d, m)
    ensures Cong(a + c, b + d, m)
  {
    var k := CongElim(a, b, m);
    var l := CongElim(c, d, m);
    assert (k + l) * m == k * m + l * m;
    CongIntro(a + c, b + d, m, k + l);
  }

  lemma CongSub(a: int, b: int, c: int, d: int, m: int)
    requires 0 < m && Cong(a, b, m) && Cong(c, d, m)
    ensures Cong(a - c, b - d, m)
  {
    var k := CongElim(a, b, m);
    var l := CongElim(c, d, m);
    assert (k - l) * m == k * m - l * m;
    CongIntro(a - c, b - d, m, k - l);
  }

  lemma CongScale(a: int, b: int, c: int, m: int)
    requires 0 < m && Cong(a, b, m)
    ensures Cong(a * c, b * c, m)
  {
    var k := CongElim(a, b, m);
    MulDist(b, k * m, c);
    MulSwap(k, m, c);
    CongIntro(a * c, b * c, m, k * c);
  }

  lemma CongMul(a: int, b: int, c: int, d: int, m: int)
    requires 0 < m && Cong(a, b, m) && Cong(c, d, m)
    ensures Cong(a * c, b * d, m)
  {
    CongScale(a, b, c, m);
    CongScale(c, d, b, m);
  }

  lemma CongZeroDifference(a: int, b: int, m: int)
    requires 0 < m && Cong(a, b, m)
    ensures (a - b) % m == 0
  {
    CongSub(a, b, b, b, m);
    SmallMod(0, m);
  }

  /** Two congruent residues are equal. */
  lemma CongUnique(a: int, b: int, m: int)
    requires 0 <= a < m && 0 <= b < m && Cong(a, b, m)
    ensures a == b
  {
    SmallMod(a, m);
    SmallMod(b, m);
  }

  lemma CongMulMod(a: int, b: int, m: int)
    requires 0 < m
    ensures (a % m) * (b % m) % m == a * b % m
    ensures a * (b % m) % m == a * b % m
    ensures (a % m) * b % m == a * b % m
  {
    CongMod(a, m);
    CongMod(b, m);
    CongMul(a % m, a, b % m, b, m);
    CongMul(a, a, b % m, b, m);
    CongMul(a % m, a, b, b, m);
  }

  lemma CongAddMod(a: int, b: int, m: int)
    requires 0 < m
    ensures (a % m + b % m) % m == (a + b) % m
    ensures (a + b % m) % m == (a + b) % m
    ensures (a % m + b) % m == (a + b) % m
  {
    CongMod(a, m);
    CongMod(b, m);
    CongAdd(a % m, a, b % m, b, m);
    CongAdd(a, a, b % m, b, m);
    CongAdd(a % m, a, b, b, m);
  }

  function Pow(b: int, e: nat): int
  {
    if e == 0 then 1 else b * Pow(b, e - 1)
  }

  lemma {:induction false} PowAdd(b: int, d: nat, e: nat)
    ensures Pow(b, d + e) == Pow(b, d) * Pow(b, e)
    decreases d
  {
    if d == 0 {
    } else {
      PowAdd(b, d - 1, e);
      assert d + e - 1 == d - 1 + e;
      assert b * (Pow(b, d - 1) * Pow(b, e)) == (b * Pow(b, d - 1)) * Pow(b, e);
    }
  }

  lemma {:induction false} PowMul(b: int, d: nat, e: nat)
    ensures 0 <= d * e
    ensures Pow(Pow(b, d), e) == Pow(b, d * e)
    decreases e
  {
    if e == 0 {
      assert d * e == 0;
    } else {
      PowMul(b, d, e - 1);
      assert d * e == d + d * (e - 1);
      PowAdd(b, d, d * (e - 1));
    }
  }

  lemma {:induction false} PowPos(b: int, e: nat)
    requires 0 < b
    ensures 0 < Pow(b, e)
  {
    if e == 0 {
    } else {
      PowPos(b, e - 1);
      MulLt(0, b, Pow(b, e - 1));
    }
  }

  lemma {:induction false} PowCong(a: int, b: int, e: nat, m: int)
    requires 0 < m && Cong(a, b, m)
    ensures Cong(Pow(a, e), Pow(b, e), m)
  {
    if e == 0 {
    } else {
      PowCong(a, b, e - 1, m);
      CongMul(a, b, Pow(a, e - 1), Pow(b, e - 1), m);
    }
  }

  /** Squaring halves the exponent; the step of square-and-multiply. */
  lemma PowHalf(b: int, e: nat)
    ensures Pow(b, e) == Pow(b * b, e / 2) * (if e % 2 == 1 then b else 1)
  {
    PowMul(b, 2, e / 2);
    assert Pow(b, 2) == b * Pow(b, 1) == b * b;
    PowAdd(b, 2 * (e / 2), e % 2);
    assert e == 2 * (e / 2) + e % 2;
    assert Pow(b, 1) == b;
  }

  /** The lowest bit and the rest. */
  lemma Halve(x: nat, m: nat)
    requires 0 < m
    ensures x % (2 * m) == x % 2 + 2 * (x / 2 % m)
  {
    var h, q := x / 2, x / 2 / m;
    assert x == 2 * h + x % 2 && h == q * m + h % m;
    assert q * (2 * m) == 2 * (q * m);
    DivModUnique(x, 2 * m, q, 2 * (h % m) + x % 2);
  }
}
