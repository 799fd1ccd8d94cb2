/** Balancing two BGV correction factors (encryption/evaluator_utils.h). */
module CorrectionFactors {
  import opened ModArith
  import opened Words
  import opened Barrett
  import opened UintSmallMod
  import opened NumberTheory

  /** Overflow: the inversion's last coefficient or the first sum of magnitudes
      exceeds a signed word, and the program's behaviour is not defined. */
  datatype Balance = NotInvertible | Overflow | Balanced(prod: U64, e1: U64, e2: U64)

  /** The centred representative of a residue.  An unreduced word so large that the
      difference has no signed word comes out negative. */
  function Centred(x: int, t: int): int {
    if x <= t / 2 then x
    else if x - t < I63 then x - t
    else x - t - B64
  }

  function SumAbs(x: int, y: int, t: int): int {
    var cx, cy := Centred(x, t), Centred(y, t);
    (if cx < 0 then -cx else cx) + (if cy < 0 then -cy else cy)
  }

  /** Euclid on (t, ratio): both remainders are known multiples of ratio, and
      the magnitudes of the two multipliers stay below t. */
  ghost predicate Tracks(t: int, ratio: int, prevA: int, a: int, prevB: int, b: int) {
    && 0 < t && 0 <= a < prevA <= t
    && Cong(prevA, prevB * ratio, t)
    && Cong(a, b * ratio, t)
  }

  ghost predicate Alternates(t: int, prevA: int, a: int, prevB: int, b: int, p: nat, q: nat, positive: bool) {
    && b == (if positive then q else 0 - q)
    && prevB == (if positive then 0 - p else p)
    && prevA * q + a * p == t
  }

  lemma MultiplierStep(c: int, q: int, b: int, ratio: int)
    ensures (c - q * b) * ratio == c * ratio - b * ratio * q
  {
    MulDist(c, -(q * b), ratio);
    MulSwap(b, ratio, q);
  }

  lemma TracksStep(t: int, ratio: int, prevA: int, a: int, prevB: int, b: int)
    requires Tracks(t, ratio, prevA, a, prevB, b) && 0 < a
    ensures Tracks(t, ratio, a, prevA % a, b, prevB - prevA / a * b)
  {
    var q := prevA / a;
    CongScale(a, b * ratio, q, t);
    CongSub(prevA, prevB * ratio, a * q, b * ratio * q, t);
    assert prevA % a == prevA - a * q;
    MultiplierStep(prevB, q, b, ratio);
  }

  lemma AlternatesStep(t: int, prevA: nat, a: nat, prevB: int, b: int, p: nat, q: nat, positive: bool) returns (q': nat)
    requires 0 < a && Alternates(t, prevA, a, prevB, b, p, q, positive)
    ensures Alternates(t, a, prevA % a, b, prevB - prevA / a * b, q, q', !positive)
    ensures -t <= prevA / a * b <= t && q' <= t
  {
    QuotientRange(prevA, a);
    var k := prevA / a;
    MulLe(0, k, q);
    q' := p + k * q;
    Combine(prevA, a, k, prevA % a, p, q);
    assert k * (0 - q) == 0 - k * q;
    MulLe(1, a, q');
    MulLe(0, prevA % a, q);
  }

  lemma Multiplied(t: int, ratio: int, inverse: int, factor1: int, factor2: int)
    requires 2 <= t && IsInverse(factor1, t, inverse) && ratio == inverse * factor2 % t
    ensures Cong(ratio * factor1, factor2, t)
  {
    CongMod(inverse * factor2, t);
    CongScale(ratio, inverse * factor2, factor1, t);
    SmallMod(1, t);
    CongScale(factor1 * inverse, 1, factor2, t);
    MulSwap(factor1, inverse, factor2);
    MulSwap(factor2, inverse, factor1);
  }

  /** Any pair the loop reaches balances the factors. */
  lemma PairBalances(t: int, ratio: int, factor1: int, factor2: int, a: int, b: int, e1: int, e2: int)
    requires 2 <= t && Cong(ratio * factor1, factor2, t)
    requires Cong(a, b * ratio, t) && Cong(e1, a, t) && Cong(e2, b, t)
    ensures e1 * factor1 % t == e2 * factor2 % t
  {
    CongScale(e1, b * ratio, factor1, t);
    MulAssoc(b, ratio, factor1);
    CongMul(b, e2, ratio * factor1, factor2, t);
  }

  lemma SignedResidue(t: int, x: int, magnitude: int, r: int)
    requires 0 < t && magnitude == (if x < 0 then -x else x)
    requires r == if x < 0 then (0 - magnitude % t) % t else magnitude % t
    ensures Cong(r, x, t)
  {
    CongMod(magnitude, t);
    if x < 0 {
      CongMod(0 - magnitude % t, t);
      CongSub(0, 0, magnitude % t, magnitude, t);
    }
  }

  /** The residue of a signed word: reduce the magnitude, then negate. */
  method ReduceSigned(m: Modulus, x: I64) returns (r: U64)
    requires m.Valid() && -(m.value as int) <= x <= m.value
    ensures r < m.value && Cong(r, x, m.value)
  {
    var magnitude := if x < 0 then -x else x;
    r := Reduce(m, magnitude);
    if x < 0 {
      r := NegateMod(m, r);
    }
    SignedResidue(m.value, x, magnitude, r);
  }

  /** The centred representative through the wrapped difference and its conversion. */
  method CentredWord(x: U64, t: U64) returns (c: I64)
    requires 0 < t < I63
    ensures c == Centred(x, t)
  {
    if x <= t / 2 {
      c := Signed(x);
    } else {
      var difference: U64 := (x - t) % B64;
      assert difference == if x < t then x - t + B64 else x - t;
      c := Signed(difference);
    }
  }

  /** The program's sum_abs on signed words; the caller knows that the sum fits. */
  method SignedSumAbs(x: U64, y: U64, t: U64) returns (sum: I64)
    requires 0 < t < I63 && SumAbs(x, y, t) < I63
    ensures sum == SumAbs(x, y, t)
  {
    var xBal := CentredWord(x, t);
    var yBal := CentredWord(y, t);
    var xAbs: I64 := if xBal < 0 then 0 - xBal else xBal;
    var yAbs: I64 := if yBal < 0 then 0 - yBal else yBal;
    sum := xAbs + yAbs;
  }

  /** Reduced factors never overflow. */
  lemma ReducedSumFits(x: int, y: int, t: int)
    requires 0 <= x < t && 0 <= y < t < I63
    ensures 0 <= SumAbs(x, y, t) <= t
  {
  }

  /** Below 2^63 the sum of magnitudes leaves the signed words exactly for two factors
      this large, both of them unreduced. */
  lemma SumOverflowsIff(x: int, y: int, t: int)
    requires 0 < t < I63 && 0 <= x < I63 && 0 <= y < I63
    ensures SumAbs(x, y, t) >= I63 <==> x + y >= I63 + 2 * t
    ensures x + y >= I63 + 2 * t ==> t <= x && t <= y
  {
  }

  /** Two factors of 2^63 - 1 modulo three: invertible, and the sum overflows. */
  lemma LargeFactorsOverflow(x: U64, t: U64)
    requires x == I63 - 1 && t == 3
    ensures Gcd(x, t) == 1 && !CoefficientOverflows(x, t) && SumAbs(x, x, t) >= I63
  {
    assert x % 3 == 1;
    assert Gcd(x, 3) == Gcd(3, 1) == Gcd(1, 0) == 1;
  }

  // Which pair is chosen.

  /** The pairs of residues Euclid's algorithm goes through from here on. */
  ghost function EuclidPairs(t: int, prevA: nat, a: nat, prevB: int, b: int): seq<(int, int)>
    requires 0 < t
    decreases a
  {
    if a == 0 then []
    else
      var r, c := prevA % a, prevB - prevA / a * b;
      [(r % t, c % t)] + EuclidPairs(t, a, r, b, c)
  }

  /** A pair the program considers. */
  ghost predicate Candidate(t: int, c: (int, int)) {
    0 < c.0 && 0 < t && Gcd(c.0, t) == 1
  }

  ghost function Magnitude(t: int, c: (int, int)): int { SumAbs(c.0, c.1, t) }

  /** Among these pairs and the first one, whose sum counts as start, the chosen pair
      has the least sum, and of those with the least sum it is the earliest. */
  ghost predicate Chosen(t: int, start: int, first: (int, int), ps: seq<(int, int)>, best: (int, int), sum: int) {
    && (forall j :: 0 <= j < |ps| && Candidate(t, ps[j]) ==> sum <= Magnitude(t, ps[j]))
    && ((best == first && sum == start)
        || (sum < start && exists k :: 0 <= k < |ps| && EarliestBest(t, ps, best, sum, k)))
  }

  ghost predicate EarliestBest(t: int, ps: seq<(int, int)>, best: (int, int), sum: int, k: nat) {
    && k < |ps| && ps[k] == best && Candidate(t, best) && sum == Magnitude(t, best)
    && forall j :: 0 <= j < k && Candidate(t, ps[j]) ==> sum < Magnitude(t, ps[j])
  }

  /** One more pair: it is taken if it is a candidate with a smaller sum. */
  lemma ChosenNext(t: int, start: int, first: (int, int), ps: seq<(int, int)>, best: (int, int), sum: int,
                   c: (int, int))
    requires Chosen(t, start, first, ps, best, sum) && sum <= start
    ensures Candidate(t, c) && Magnitude(t, c) < sum ==> Chosen(t, start, first, ps + [c], c, Magnitude(t, c))
    ensures !(Candidate(t, c) && Magnitude(t, c) < sum) ==> Chosen(t, start, first, ps + [c], best, sum)
  {
    hide Candidate, Magnitude;
    var longer := ps + [c];
    assert forall j :: 0 <= j < |ps| ==> longer[j] == ps[j];
    if Candidate(t, c) && Magnitude(t, c) < sum {
      assert EarliestBest(t, longer, c, Magnitude(t, c), |ps|);
    } else if sum < start && !(best == first && sum == start) {
      var k :| 0 <= k < |ps| && EarliestBest(t, ps, best, sum, k);
      assert EarliestBest(t, longer, best, sum, k);
    }
  }

  /** The inversion overflows, or it succeeds and the first sum of magnitudes does. */
  ghost predicate BalanceOverflows(factor1: U64, factor2: U64, t: U64) {
    || CoefficientOverflows(factor1, t)
    || (Gcd(factor1, t) == 1 && SumAbs(factor1, factor2, t) >= I63)
  }

  lemma ReducedResidue(r: int, x: int, t: int)
    requires 0 <= r < t && Cong(r, x, t)
    ensures r == x % t
  {
    SmallMod(r, t);
  }

  /** balance_correction_factors, for any two words: factor2 is ratio times factor1,
      and sum is what the pair returned counts for. */
  method BalanceFactors(factor1: U64, factor2: U64, m: Modulus)
    returns (r: Balance, ghost ratio: nat, ghost sum: int)
    requires m.Valid()
    ensures r.NotInvertible? <==> Gcd(factor1, m.value) != 1
    ensures r.Overflow? <==> BalanceOverflows(factor1, factor2, m.value)
    ensures r.Balanced? ==>
      && r.e1 < m.value && r.e2 < m.value
      && r.prod == r.e1 * factor1 % m.value
      && r.prod == r.e2 * factor2 % m.value
    ensures r.Balanced? && r.e2 != 1 ==>
      && Gcd(r.e1, m.value) == 1
      && SumAbs(r.e1, r.e2, m.value) < SumAbs(factor1, factor2, m.value)
    ensures r.Balanced? ==>
      && ratio < m.value && Cong(ratio * factor1, factor2, m.value)
      && Chosen(m.value, SumAbs(factor1, factor2, m.value), (ratio, 1), EuclidPairs(m.value, m.value, ratio, 0, 1),
                (r.e1, r.e2), sum)
  {
    ratio, sum := 0, 0;
    var t := m.value;
    var inversion := TryInvert(factor1, t);
    if inversion == NoInverse {
      r := NotInvertible;
      return;
    }
    if inversion == InversionOverflow {
      r := Overflow;
      return;
    }
    var inverse := inversion.value;
    var first := MultiplyMod(m, inverse, factor2);
    ratio := first;
    Multiplied(t, ratio, inverse, factor1, factor2);
    var e1: U64, e2: U64 := first, 1;
    if SumAbs(factor1, factor2, t) >= I63 {
      r := Overflow;
      return;
    }
    var least := SignedSumAbs(factor1, factor2, t);
    var prevA: I64, prevB: I64, a: I64, b: I64 := t, 0, first, 1;
    ghost var p: nat, q: nat, positive := 0, 1, true;
    ghost var start, seen: seq<(int, int)> := least, [];
    ghost var all := EuclidPairs(t, t, ratio, 0, 1);
    assert seen + all == all;
    DivModUnique(t, t, 1, 0);
    SmallMod(0, t);
    SmallMod(1, t);
    PairBalances(t, ratio, factor1, factor2, ratio, 1, e1, e2);
    while a != 0
      invariant Tracks(t, ratio, prevA, a, prevB, b)
      invariant Alternates(t, prevA, a, prevB, b, p, q, positive)
      invariant e1 < t && e2 < t && e1 * factor1 % t == e2 * factor2 % t
      invariant e2 != 1 ==> Gcd(e1, t) == 1
      invariant e2 != 1 ==> least == SumAbs(e1, e2, t)
      invariant least <= start
      invariant e2 != 1 ==> least < start
      invariant all == seen + EuclidPairs(t, prevA, a, prevB, b)
      invariant Chosen(t, start, (ratio, 1), seen, (e1, e2), least)
      decreases a
    {
      TracksStep(t, ratio, prevA, a, prevB, b);
      ghost var q' := AlternatesStep(t, prevA, a, prevB, b, p, q, positive);
      QuotientRange(prevA, a);
      ghost var pair := (prevA % a % t, (prevB - prevA / a * b) % t);
      ghost var rest := EuclidPairs(t, a, prevA % a, b, prevB - prevA / a * b);
      assert seen + ([pair] + rest) == (seen + [pair]) + rest;
      ChosenNext(t, start, (ratio, 1), seen, (e1, e2), least, pair);
      seen := seen + [pair];
      var quotient: I64 := prevA / a;
      var temp: I64 := prevA % a;
      prevA := a;
      a := temp;
      var product: I64 := quotient * b;
      temp := prevB - product;
      prevB := b;
      b := temp;
      p, q, positive := q, q', !positive;
      var aMod := ReduceSigned(m, a);
      var bMod := ReduceSigned(m, b);
      ReducedResidue(aMod, a, t);
      ReducedResidue(bMod, b, t);
      if aMod != 0 {
        var g := ComputeGcd(aMod, t);
        if g == 1 {
          ReducedSumFits(aMod, bMod, t);
          var newSum := SignedSumAbs(aMod, bMod, t);
          if newSum < least {
            PairBalances(t, ratio, factor1, factor2, a, b, aMod, bMod);
            e1, e2, least := aMod, bMod, newSum;
          }
        }
      }
    }
    assert seen + [] == seen;
    sum := least;
    var prod := MultiplyMod(m, e1, factor1);
    r := Balanced(prod, e1, e2);
  }
}
