/** Barrett reduction (encryption/modulus.h) and the quotient bound it shares
    with Shoup's multiplication. */
module Barrett {
  import opened ModArith
  import opened Words

  const B128: int := B64 * B64
  const MODULUS_BOUND: int := 0x2000_0000_0000_0000  // 2^61

  /** A modulus with floor(2^128 / value) split into two words. */
  datatype Modulus = Modulus(value: U64, ratio0: U64, ratio1: U64) {
    ghost predicate Valid() {
      && 2 <= value < MODULUS_BOUND
      && ratio0 + ratio1 * B64 == B128 / value
    }
  }

  /** floor(y / d), as a pair of bounds. */
  lemma FloorBounds(y: int, d: int, f: int)
    requires 0 < d && f == y / d
    ensures f * d <= y < f * d + d
  {
    assert y == f * d + y % d;
  }

  lemma QuotientLower(x: int, w: int, m: int, r: int, ratio: int, quot: int)
    requires 0 < m && 0 < r && 0 <= x
    requires ratio * m <= w * r && quot * r <= x * ratio
    ensures quot * m <= w * x
  {
    MulLe(quot * r, x * ratio, m);
    MulLe(ratio * m, w * r, x);
    MulSwap(quot, r, m);
    MulAssoc(x, ratio, m);
    MulSwap(w, r, x);
    MulLeConverse(quot * m, w * x, r);
  }

  lemma QuotientUpper(x: int, w: int, m: int, r: int, ratio: int, quot: int)
    requires 0 < m && 0 < r && 0 <= x <= r
    requires w * r < ratio * m + m && x * ratio < quot * r + r
    ensures w * x < quot * m + 2 * m
  {
    MulLe(w * r, ratio * m + m, x);
    MulDist(ratio * m, m, x);
    MulSwap(ratio, m, x);
    MulLt(x * ratio, quot * r + r, m);
    MulDist(quot * r, r, m);
    MulSwap(quot, r, m);
    MulLe(x, r, m);
    MulSwap(w, r, x);
    MulDist(quot * m, 2 * m, r);
    MulAssoc(2, m, r);
    MulLtConverse(w * x, quot * m + 2 * m, r);
  }

  /** With ratio = floor(w * r / m) and quot = floor(x * ratio / r), the
      remainder w * x - quot * m is off by at most one multiple of m. */
  lemma QuotientBound(x: int, w: int, m: int, r: int, ratio: int, quot: int)
    requires 0 < m && 0 < r && 0 <= x <= r && 0 <= w
    requires ratio == w * r / m
    requires quot == x * ratio / r
    ensures 0 <= w * x - quot * m < 2 * m
  {
    FloorBounds(w * r, m, ratio);
    FloorBounds(x * ratio, r, quot);
    QuotientLower(x, w, m, r, ratio, quot);
    QuotientUpper(x, w, m, r, ratio, quot);
  }

  /** One conditional subtraction finishes a value below 2m. */
  lemma FinalSubtraction(y: int, k: int, t: int, m: int)
    requires 0 < m && 0 <= t < 2 * m && t == y - k * m
    ensures (if t >= m then t - m else t) == y % m
  {
    if t >= m {
      MulDist(k, 1, m);
      DivModUnique(y, m, k + 1, t - m);
    } else {
      DivModUnique(y, m, k, t);
    }
  }

  lemma WideQuotient(a: int, s: int, c: int, d: int, m: int)
    requires B64 == a * m + s && s * B64 == c * m + d
    ensures B128 == (a * B64 + c) * m + d
  {
    MulDist(a * m, s, B64);
    MulSwap(a, m, B64);
    MulDist(a * B64, c, m);
  }

  /** The high word of floor(2^128 / m) is floor(2^64 / m). */
  lemma HighRatio(m: Modulus)
    requires m.Valid()
    ensures m.ratio1 == B64 / m.value
  {
    var a, s := B64 / m.value, B64 % m.value;
    var c, d := (s * B64) / m.value, (s * B64) % m.value;
    WideQuotient(a, s, c, d, m.value);
    DivModUnique(B128, m.value, a * B64 + c, d);
    FloorBounds(s * B64, m.value, c);
    MulLe(0, s, B64);
    if c < 0 {
      MulLe(c, -1, m.value);
    }
    MulLt(s, m.value, B64);
    MulLtConverse(c, B64, m.value);
    DivModUnique(m.ratio0 + m.ratio1 * B64, B64, m.ratio1, m.ratio0);
    DivModUnique(a * B64 + c, B64, a, c);
  }

  /** The wrapped 64-bit difference is the true one, since that is small. */
  lemma ReduceCorrect(m: Modulus, input: U64, quot: U64)
    requires m.Valid() && quot == input * m.ratio1 / B64
    ensures var t := (input - quot * m.value) % B64;
      t < 2 * m.value && (if t >= m.value then t - m.value else t) == input % m.value
  {
    HighRatio(m);
    QuotientBound(input, 1, m.value, B64, m.ratio1, quot);
    SmallMod(input - quot * m.value, B64);
    FinalSubtraction(input, quot, input - quot * m.value, m.value);
  }

  /** Modulus::reduce is exact for every 64-bit input. */
  method Reduce(m: Modulus, input: U64) returns (r: U64)
    requires m.Valid()
    ensures r == input % m.value
  {
    var _, quot := MultiplyWide(input, m.ratio1);
    ReduceCorrect(m, input, quot);
    r := (input - quot * m.value) % B64;
    if r >= m.value {
      r := r - m.value;
    }
  }

  lemma ProductOfSums(x0: int, x1: int, r0: int, r1: int)
    ensures (x0 + x1 * B64) * (r0 + r1 * B64)
         == x0 * r0 + (x0 * r1 + x1 * r0) * B64 + (x1 * r1) * B128
  {
    MulDist(x0, x1 * B64, r0 + r1 * B64);
    MulDist(r0, r1 * B64, x0);
    MulDist(r0, r1 * B64, x1 * B64);
    MulSwap(r1, B64, x0);
    MulSwap(x1, B64, r0);
    calc {
      (r1 * B64) * (x1 * B64);
      { MulAssoc(r1 * B64, x1, B64); }
      ((r1 * B64) * x1) * B64;
      { MulSwap(r1, B64, x1); }
      ((r1 * x1) * B64) * B64;
      (x1 * r1) * B128;
    }
  }

  /** floor(input * ratio / 2^128), over unbounded integers. */
  ghost function WideEstimate(m: Modulus, x0: U64, x1: U64): int {
    (x0 + x1 * B64) * (m.ratio0 + m.ratio1 * B64) / B128
  }

  /** Three partial products and two carries add up to the estimate. */
  lemma CarryChain(m: Modulus, x0: U64, x1: U64, p00: (U64, U64), p01: (U64, U64), p10: (U64, U64),
                   sum1: (U64, U64), sum2: (U64, U64))
    requires p00.0 + p00.1 * B64 == x0 * m.ratio0
    requires p01.0 + p01.1 * B64 == x0 * m.ratio1
    requires p10.0 + p10.1 * B64 == x1 * m.ratio0
    requires sum1.0 + sum1.1 * B64 == p01.0 + p00.1
    requires sum2.0 + sum2.1 * B64 == sum1.0 + p10.0
    ensures WideEstimate(m, x0, x1) == x1 * m.ratio1 + p01.1 + sum1.1 + p10.1 + sum2.1
  {
    ProductOfSums(x0, x1, m.ratio0, m.ratio1);
    DivModUnique((x0 + x1 * B64) * (m.ratio0 + m.ratio1 * B64), B128,
                 x1 * m.ratio1 + p01.1 + sum1.1 + p10.1 + sum2.1,
                 p00.0 + sum2.0 * B64);
  }

  /** Dropping the quotient's high part only changes the difference by a
      multiple of 2^64. */
  lemma TruncatedDifference(x0: int, x1: int, quot: int, m: int)
    ensures (x0 - quot % B64 * m) % B64 == (x0 + x1 * B64 - quot * m) % B64
  {
    CongMod(quot, B64);
    CongScale(quot % B64, quot, m, B64);
    CongIntro(x0, x0 + x1 * B64, B64, -x1);
    CongSub(x0, x0 + x1 * B64, quot % B64 * m, quot * m, B64);
  }

  lemma Reduce128Correct(m: Modulus, x0: U64, x1: U64, word: U64)
    requires m.Valid() && word == WideEstimate(m, x0, x1) % B64
    ensures var t := (x0 - word * m.value) % B64;
      t < 2 * m.value && (if t >= m.value then t - m.value else t) == (x0 + x1 * B64) % m.value
  {
    var x, ratio := x0 + x1 * B64, m.ratio0 + m.ratio1 * B64;
    var quot := x * ratio / B128;
    QuotientBound(x, 1, m.value, B128, ratio, quot);
    TruncatedDifference(x0, x1, quot, m.value);
    SmallMod(x - quot * m.value, B64);
    FinalSubtraction(x, quot, x - quot * m.value, m.value);
  }

  /** Modulus::reduce_uint128_limbs is exact for every 128-bit input. */
  method Reduce128(m: Modulus, x0: U64, x1: U64) returns (r: U64)
    requires m.Valid()
    ensures r == (x0 + x1 * B64) % m.value
  {
    // round 1
    var lo00, carry := MultiplyWide(x0, m.ratio0);
    var lo01, hi01 := MultiplyWide(x0, m.ratio1);
    var tmp1, c1 := AddUint64(lo01, carry);
    var tmp3 := hi01 + c1;
    // round 2
    var lo10, hi10 := MultiplyWide(x1, m.ratio0);
    var low, c2 := AddUint64(tmp1, lo10);
    CarryChain(m, x0, x1, (lo00, carry), (lo01, hi01), (lo10, hi10), (tmp1, c1), (low, c2));
    carry := hi10 + c2;
    tmp1 := (x1 * m.ratio1 + tmp3 + carry) % B64;
    // Barrett subtraction
    Reduce128Correct(m, x0, x1, tmp1);
    r := (x0 - tmp1 * m.value) % B64;
    if r >= m.value {
      r := r - m.value;
    }
  }

  /** Modulus::reduce_mul_uint64 and multiply_uint64_mod. */
  method MultiplyMod(m: Modulus, a: U64, b: U64) returns (r: U64)
    requires m.Valid()
    ensures r == a * b % m.value
  {
    var lo, hi := MultiplyWide(a, b);
    r := Reduce128(m, lo, hi);
  }
}
