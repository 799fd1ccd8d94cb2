/** How often two divides a number, and when a product is zero modulo a power of
    two. */
module TwoAdic {
  import opened ModArith

  /** The number of trailing zero bits. */
  function Twos(x: nat): nat
    requires 0 < x
  {
    if x % 2 == 1 then 0 else 1 + Twos(x / 2)
  }

  lemma {:induction false} TwosExact(x: nat, n: nat)
    requires 0 < x
    ensures 0 < Pow(2, n) && (x % Pow(2, n) == 0 <==> n <= Twos(x))
    decreases n
  {
    PowPos(2, n);
    if n == 0 {
    } else if x % 2 == 1 {
      PowPos(2, n - 1);
      Halve(x, Pow(2, n - 1));
    } else {
      TwosExact(x / 2, n - 1);
      Halve(x, Pow(2, n - 1));
    }
  }

  lemma OddProduct(a: nat, b: nat)
    ensures (2 * a + 1) * (2 * b + 1) == 2 * (2 * (a * b) + a + b) + 1
  {
  }

  lemma HalvedProduct(x: nat, y: nat)
    requires x % 2 == 0
    ensures x * y == 2 * (x / 2 * y) && x * y % 2 == 0 && x * y / 2 == x / 2 * y
  {
    var h := x / 2;
    MulAssoc(2, h, y);
    assert x == 2 * h;
  }

  lemma {:induction false} TwosProduct(x: nat, y: nat)
    requires 0 < x && 0 < y
    ensures 0 < x * y && Twos(x * y) == Twos(x) + Twos(y)
    decreases x + y
  {
    MulLt(0, x, y);
    if x % 2 == 0 {
      HalvedProduct(x, y);
      TwosProduct(x / 2, y);
    } else if y % 2 == 0 {
      HalvedProduct(y, x);
      TwosProduct(x, y / 2);
      assert x * y == y * x && x * (y / 2) == y / 2 * x;
    } else {
      OddProduct(x / 2, y / 2);
      assert x == 2 * (x / 2) + 1 && y == 2 * (y / 2) + 1;
    }
  }

  /** A product vanishes modulo 2^n exactly when a factor is zero or the factors
      have n trailing zeros between them. */
  lemma ProductVanishesIff(x: nat, y: nat, n: nat)
    ensures 0 < Pow(2, n)
    ensures x * y % Pow(2, n) == 0 <==> x == 0 || y == 0 || n <= Twos(x) + Twos(y)
  {
    PowPos(2, n);
    if x == 0 || y == 0 {
      assert x * y == 0;
      SmallMod(0, Pow(2, n));
    } else {
      TwosProduct(x, y);
      TwosExact(x * y, n);
    }
  }
}
