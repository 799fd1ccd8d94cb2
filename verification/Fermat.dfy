/** Fermat's little theorem and the square roots of one modulo a prime: the
    mathematics behind is_prime in encryption/utils/uint_small_mod.h. */
module Fermat {
  import opened ModArith
  import opened NumberTheory

  ghost predicate IsPrime(p: int) {
    2 <= p && forall d :: 2 <= d < p ==> !Divides(d, p)
  }

  lemma CoprimeToPrime(a: nat, p: nat)
    requires IsPrime(p) && 0 < a < p
    ensures Gcd(a, p) == 1
  {
    GcdIsGreatest(a, p);
    var g := Gcd(a, p);
    if p <= g {
      SmallMod(a, g);
    }
  }

  /** A prime dividing a product divides one of the factors. */
  lemma EuclidLemma(p: nat, x: int, y: int)
    requires IsPrime(p) && x * y % p == 0
    ensures x % p == 0 || y % p == 0
  {
    var a := x % p;
    if a != 0 {
      CoprimeToPrime(a, p);
      var s, t := Bezout(a, p);
      CongMulMod(x, y, p);
      assert Cong(a * y, 0, p);
      CongScale(a * y, 0, s, p);
      assert (a * y) * s + (t * y) * p == y by {
        MulSwap(a, y, s);
        MulDist(s * a, t * p, y);
        MulSwap(t, p, y);
      }
      CongIntro(y, (a * y) * s, p, t * y);
    }
  }

  lemma ResidueNonzero(p: nat, x: int)
    requires 0 < p && 0 - p < x < p && x % p == 0
    ensures x == 0
  {
    var k := CongElim(x, 0, p);
    if 1 <= k {
      MulLe(1, k, p);
    } else if k <= -1 {
      MulLe(k, -1, p);
    }
  }

  /** One has no square roots but itself and minus one. */
  lemma SquareRootsOfOne(p: nat, x: nat)
    requires IsPrime(p) && x < p && x * x % p == 1
    ensures x == 1 || x == p - 1
  {
    SmallMod(1, p);
    CongZeroDifference(x * x, 1, p);
    MulDist(x, 1, x - 1);
    MulSub(x, x, 1);
    EuclidLemma(p, x + 1, x - 1);
    if (x + 1) % p == 0 {
      CongIntro(x + 1 - p, x + 1, p, -1);
      ResidueNonzero(p, x + 1 - p);
    } else {
      ResidueNonzero(p, x - 1);
    }
  }

  ghost function Pick(s: set<int>): (x: int)
    requires s != {}
    ensures x in s
  {
    assert (forall y :: y !in s) ==> s == {};
    var x :| x in s;
    x
  }

  ghost function Prod(s: set<int>): int
  {
    if s == {} then 1 else Pick(s) * Prod(s - {Pick(s)})
  }

  lemma {:induction false} ProdRemove(s: set<int>, y: int)
    requires y in s
    ensures Prod(s) == y * Prod(s - {y})
    decreases |s|
  {
    var x := Pick(s);
    if x != y {
      ProdRemove(s - {x}, y);
      ProdRemove(s - {y}, x);
      assert s - {x} - {y} == s - {y} - {x};
      MulAssoc(x, y, Prod(s - {x} - {y}));
      MulAssoc(y, x, Prod(s - {x} - {y}));
    }
  }

  ghost function Residues(n: nat): (s: set<int>)
    ensures forall x :: x in s <==> 1 <= x < n
    ensures 1 <= n ==> |s| == n - 1
  {
    if n <= 1 then {} else Residues(n - 1) + {n - 1}
  }

  ghost function Image(s: set<int>, a: int, p: nat): set<int>
    requires 0 < p
  {
    set x | x in s :: a * x % p
  }

  /** Multiplication by a nonzero residue gives a nonzero residue. */
  lemma ScalingStays(p: nat, a: nat, x: int)
    requires IsPrime(p) && 0 < a < p && x in Residues(p)
    ensures a * x % p in Residues(p)
  {
    if a * x % p == 0 {
      EuclidLemma(p, a, x);
      if a % p == 0 {
        ResidueNonzero(p, a);
      } else {
        ResidueNonzero(p, x);
      }
    }
  }

  /** Multiplication by a nonzero residue is injective. */
  lemma ScalingInjective(p: nat, a: nat, x: int, y: int)
    requires IsPrime(p) && 0 < a < p && x in Residues(p) && y in Residues(p)
    requires a * x % p == a * y % p
    ensures x == y
  {
    CongZeroDifference(a * x, a * y, p);
    MulSub(a, x, y);
    EuclidLemma(p, a, x - y);
    if a % p == 0 {
      ResidueNonzero(p, a);
    }
    ResidueNonzero(p, x - y);
  }

  lemma ImageSplit(s: set<int>, x: int, a: int, p: nat)
    requires 0 < p && x in s && a * x % p !in Image(s - {x}, a, p)
    ensures Image(s, a, p) - {a * x % p} == Image(s - {x}, a, p)
    ensures a * x % p in Image(s, a, p)
  {
    var rest := s - {x};
    assert s == rest + {x};
    forall z | z in rest
      ensures a * z % p in Image(rest, a, p)
    {
    }
  }

  lemma Regroup(a: int, x: int, e: int, r: int)
    ensures (a * x) * (e * r) == (a * e) * (x * r)
  {
    MulAssoc(a * x, e, r);
    MulSwap(a, x, e);
    MulAssoc(a * e, x, r);
  }

  /** One more factor on each side of the congruence. */
  lemma ScaleOne(a: int, x: int, image: int, e: int, r: int, p: nat)
    requires 0 < p && Cong(image, e * r, p)
    ensures Cong((a * x % p) * image, (a * e) * (x * r), p)
  {
    CongMod(a * x, p);
    CongMul(a * x % p, a * x, image, e * r, p);
    Regroup(a, x, e, r);
  }

  /** Scaling every member of s scales the product by a power of a. */
  lemma {:induction false} ScaledProduct(s: set<int>, n: nat, p: nat, a: nat)
    requires IsPrime(p) && 0 < a < p && s <= Residues(p) && |s| == n
    ensures |Image(s, a, p)| == n
    ensures Image(s, a, p) <= Residues(p)
    ensures Cong(Prod(Image(s, a, p)), Pow(a, n) * Prod(s), p)
    decreases n
  {
    if s == {} {
      assert Image(s, a, p) == {};
    } else {
      var x := Pick(s);
      var rest := s - {x};
      var y := a * x % p;
      ScaledProduct(rest, n - 1, p, a);
      ScalingStays(p, a, x);
      forall z | z in rest && a * z % p == y
        ensures false
      {
        ScalingInjective(p, a, x, z);
      }
      ImageSplit(s, x, a, p);
      ProdRemove(Image(s, a, p), y);
      ProdRemove(s, x);
      ScaleOne(a, x, Prod(Image(rest, a, p)), Pow(a, n - 1), Prod(rest), p);
    }
  }

  lemma SubsetOfSameSize(a: set<int>, b: set<int>)
    requires a <= b && |a| == |b|
    ensures a == b
  {
    assert |b - a| == |b| - |a|;
  }

  lemma {:induction false} ProdNotDivisible(s: set<int>, p: nat)
    requires IsPrime(p) && s <= Residues(p)
    ensures Prod(s) % p != 0
    decreases |s|
  {
    if s == {} {
      SmallMod(1, p);
    } else {
      var x := Pick(s);
      ProdNotDivisible(s - {x}, p);
      SmallMod(x, p);
      if Prod(s) % p == 0 {
        EuclidLemma(p, x, Prod(s - {x}));
      }
    }
  }

  lemma CancelFactor(p: nat, e: int, r: int, scaled: int)
    requires IsPrime(p) && Cong(scaled, e * r, p) && scaled == r && r % p != 0
    ensures e % p == 1
  {
    CongZeroDifference(e * r, r, p);
    MulDist(e, -1, r);
    EuclidLemma(p, e - 1, r);
    CongAdd(e - 1, 0, 1, 1, p);
    SmallMod(1, p);
  }

  /** Scaling permutes the residues, so it leaves their product alone. */
  lemma ScalingPermutes(p: nat, a: nat)
    requires IsPrime(p) && 0 < a < p
    ensures Prod(Image(Residues(p), a, p)) == Prod(Residues(p))
  {
    var all := Residues(p);
    ScaledProduct(all, p - 1, p, a);
    SubsetOfSameSize(Image(all, a, p), all);
  }

  /** Fermat's little theorem. */
  lemma LittleTheorem(p: nat, a: nat)
    requires IsPrime(p) && 0 < a < p
    ensures Pow(a, p - 1) % p == 1
  {
    var all := Residues(p);
    assert all <= Residues(p) && |all| == p - 1;
    ScalingPermutes(p, a);
    ScaledProduct(all, p - 1, p, a);
    ProdNotDivisible(all, p);
    CancelFactor(p, Pow(a, p - 1), Prod(all), Prod(Image(all, a, p)));
  }
}
