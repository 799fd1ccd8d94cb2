/** Random residues, signed modular addition and the parameter checks
    (src/utils.cpp). */
module Sampling {
  import opened ModArith
  import opened Words
  import opened NumberTheory

  const COEFF_MODULUS_BITS: nat := 54
  const PLAIN_MODULUS_BITS: nat := 20
  const ANSWER_NOISE_SIGMA: nat := 0x40_0000
  const MIN_POLY_MODULUS_DEGREE: nat := 2048
  const MAX_POLY_MODULUS_DEGREE: nat := 32768

  /** A result, or the exception std::invalid_argument. */
  datatype Checked<+T> = Valid(value: T) | InvalidArgument

  /** What a finite supply of random words leads to; running out stands for a
      loop that is still rejecting. */
  datatype Sample = Accepted(value: U64, used: nat) | StillRejecting

  /** 2^64 mod upperBound, as the program computes it on 64-bit words. */
  function Threshold(upperBound: U64): (t: U64)
    requires 0 < upperBound
    ensures t == B64 % upperBound && t < upperBound
  {
    CongIntro(B64 - upperBound, B64, upperBound, -1);
    (B64 - upperBound) % upperBound
  }

  /** SecureRandomUint64Below, fed with the words of the system generator. */
  method SampleBelow(upperBound: U64, words: seq<U64>) returns (r: Checked<Sample>)
    ensures upperBound == 0 <==> r.InvalidArgument?
    ensures r.Valid? && r.value.StillRejecting? ==>
      forall i :: 0 <= i < |words| ==> words[i] < Threshold(upperBound)
    ensures r.Valid? && r.value.Accepted? ==>
      && var n := r.value.used;
      && 1 <= n <= |words| && Threshold(upperBound) <= words[n - 1]
      && r.value.value == words[n - 1] % upperBound < upperBound
      && forall i :: 0 <= i < n - 1 ==> words[i] < Threshold(upperBound)
  {
    if upperBound == 0 {
      return InvalidArgument;
    }
    var threshold := Threshold(upperBound);
    var i := 0;
    while i < |words|
      invariant 0 <= i <= |words|
      invariant forall j :: 0 <= j < i ==> words[j] < threshold
    {
      var value := words[i];
      i := i + 1;
      if value >= threshold {
        return Valid(Accepted(value % upperBound, i));
      }
    }
    return Valid(StillRejecting);
  }

  /** The member of [base, base + m) congruent to r. */
  function Representative(m: int, r: int, base: int): (v: int)
    requires 0 <= r < m
    ensures base <= v < base + m && v % m == r
  {
    CongAddMod(base, r - base, m);
    SmallMod(r, m);
    base + (r - base) % m
  }

  lemma RepresentativeUnique(m: int, r: int, base: int, v: int)
    requires 0 <= r < m && base <= v < base + m && v % m == r
    ensures v == Representative(m, r, base)
  {
    var w := Representative(m, r, base);
    var k := CongElim(v, w, m);
    if 1 <= k {
      MulLe(1, k, m);
    } else if k <= -1 {
      MulLe(k, -1, m);
    }
  }

  /** The words of [lo, hi) that reduce to r. */
  ghost predicate IsPreimage(m: int, r: int, lo: int, hi: int, v: int)
    requires 0 < m
  {
    lo <= v < hi && v % m == r
  }

  /** An interval of k * m words has exactly k of them for each residue. */
  lemma {:induction false} IntervalPreimages(m: int, r: int, lo: int, k: nat) returns (s: set<int>)
    requires 0 <= r < m
    ensures forall v :: v in s <==> IsPreimage(m, r, lo, lo + k * m, v)
    ensures |s| == k
  {
    if k == 0 {
      s := {};
    } else {
      var rest := IntervalPreimages(m, r, lo, k - 1);
      var base := lo + (k - 1) * m;
      assert k * m == (k - 1) * m + m by { MulDist(k - 1, 1, m); }
      var v := Representative(m, r, base);
      s := rest + {v};
      forall u | IsPreimage(m, r, lo, lo + k * m, u)
        ensures u in s
      {
        if base <= u {
          RepresentativeUnique(m, r, base, u);
        }
      }
      MulLe(0, k - 1, m);
      assert v !in rest;
    }
  }

  /** Rejection sampling is exactly uniform: among the words it accepts, every
      residue below the bound has the same number of preimages. */
  lemma SamplingUniform(upperBound: U64, r: int, accepted: set<int>)
    requires 0 < upperBound && 0 <= r < upperBound
    requires forall v :: v in accepted <==>
      IsPreimage(upperBound, r, Threshold(upperBound), B64, v)
    ensures |accepted| == (B64 - Threshold(upperBound)) / upperBound
    ensures |accepted| * upperBound == B64 - Threshold(upperBound)
  {
    var k := B64 / upperBound;
    QuotientRange(B64, upperBound);
    assert B64 == k * upperBound + Threshold(upperBound);
    DivModUnique(B64 - Threshold(upperBound), upperBound, k, 0);
    var s := IntervalPreimages(upperBound, r, Threshold(upperBound), k);
    assert accepted == s;
  }

  /** AddSignedMod: exact for every signed 64-bit delta, the least included. */
  method AddSignedMod(value: U64, delta: I64, modulus: U64) returns (r: Checked<U64>)
    ensures modulus == 0 <==> r.InvalidArgument?
    ensures r.Valid? ==> r.value == (value + delta) % modulus && r.value < modulus
  {
    if modulus == 0 {
      return InvalidArgument;
    }
    var v: U64 := value % modulus;
    if delta >= 0 {
      var addend: U64 := delta % modulus;
      CongAddMod(value, delta, modulus);
      if addend >= modulus - v {
        DivModUnique(v + addend, modulus, 1, addend - (modulus - v));
        return Valid(addend - (modulus - v));
      } else {
        SmallMod(v + addend, modulus);
        return Valid(v + addend);
      }
    }
    var negated: I64 := -(delta + 1);
    var magnitude: U64 := negated + 1;
    var subtrahend: U64 := magnitude % modulus;
    SubtractResidues(value, magnitude, modulus);
    if v >= subtrahend {
      SmallMod(v - subtrahend, modulus);
      return Valid(v - subtrahend);
    } else {
      DivModUnique(v - subtrahend, modulus, -1, modulus - (subtrahend - v));
      return Valid(modulus - (subtrahend - v));
    }
  }

  lemma SubtractResidues(value: int, magnitude: int, modulus: int)
    requires 0 < modulus
    ensures (value - magnitude) % modulus == (value % modulus - magnitude % modulus) % modulus
  {
    CongMod(value, modulus);
    CongMod(magnitude, modulus);
    CongSub(value % modulus, value, magnitude % modulus, magnitude, modulus);
  }

  /** The number of bits up to the highest set one. */
  method BitLength(value: U64) returns (bits: nat)
    ensures value == 0 <==> bits == 0
    ensures value != 0 ==> Pow(2, bits - 1) <= value < Pow(2, bits)
  {
    bits := 0;
    var v := value;
    while v != 0
      invariant 0 <= v
      invariant v * Pow(2, bits) <= value < (v + 1) * Pow(2, bits)
      invariant 0 < Pow(2, bits)
      invariant value != 0 && v == 0 ==> 0 < bits && Pow(2, bits - 1) <= value
      invariant value == 0 ==> bits == 0
      decreases v
    {
      var half := v / 2;
      assert v == 2 * half || v == 2 * half + 1;
      HalveInterval(v, half, Pow(2, bits), value);
      assert Pow(2, bits + 1) == 2 * Pow(2, bits);
      v, bits := half, bits + 1;
    }
  }

  lemma HalveInterval(v: int, half: int, scale: int, value: int)
    requires 0 < v && 0 < scale && (v == 2 * half || v == 2 * half + 1)
    requires v * scale <= value < (v + 1) * scale
    ensures half * (2 * scale) <= value < (half + 1) * (2 * scale)
    ensures scale <= value
  {
    MulLe(1, v, scale);
    assert half * (2 * scale) == (2 * half) * scale by { MulSwap(half, 2, scale); MulAssoc(half, 2, scale); }
    assert (half + 1) * (2 * scale) == (2 * half + 2) * scale by { MulAssoc(half + 1, 2, scale); }
    MulLe(2 * half, v, scale);
    MulLe(v + 1, 2 * half + 2, scale);
  }

  /** ValidateProtocolParameters: accepted exactly for a 54-bit ciphertext
      modulus and a 20-bit plaintext modulus announced as such. */
  method ValidateProtocolParameters(coeffBits: nat, plainBits: nat, q: U64, p: U64) returns (ok: bool)
    ensures ok <==>
      && coeffBits == COEFF_MODULUS_BITS && plainBits == PLAIN_MODULUS_BITS
      && 0x20_0000_0000_0000 <= q < 0x40_0000_0000_0000
      && 0x8_0000 <= p < 0x10_0000
  {
    if coeffBits != COEFF_MODULUS_BITS || plainBits != PLAIN_MODULUS_BITS {
      return false;
    }
    var qBits := BitLength(q);
    var pBits := BitLength(p);
    BitLengthUnique(q, qBits, COEFF_MODULUS_BITS);
    BitLengthUnique(p, pBits, PLAIN_MODULUS_BITS);
    PowersUsed();
    if qBits != COEFF_MODULUS_BITS || pBits != PLAIN_MODULUS_BITS {
      return false;
    }
    if p >= q {
      return false;
    }
    if ANSWER_NOISE_SIGMA >= q {
      return false;
    }
    return true;
  }

  lemma PowersUsed()
    ensures Pow(2, 53) == 0x20_0000_0000_0000 && Pow(2, 54) == 0x40_0000_0000_0000
    ensures Pow(2, 19) == 0x8_0000 && Pow(2, 20) == 0x10_0000
  {
    assert Pow(2, 10) == 1024;
    PowAdd(2, 10, 9);
    PowAdd(2, 10, 10);
    PowAdd(2, 20, 20);
    PowAdd(2, 40, 13);
    PowAdd(2, 10, 3);
    assert Pow(2, 3) == 8 && Pow(2, 9) == 512;
    assert Pow(2, 54) == 2 * Pow(2, 53);
  }

  lemma {:induction false} PowMonotone(d: nat, e: nat)
    requires d <= e
    ensures 0 < Pow(2, d) <= Pow(2, e)
    decreases e - d
  {
    PowPos(2, d);
    if d < e {
      PowMonotone(d, e - 1);
    }
  }

  lemma BitLengthUnique(v: U64, bits: nat, n: nat)
    requires 0 < n && (v == 0 <==> bits == 0)
    requires v != 0 ==> Pow(2, bits - 1) <= v < Pow(2, bits)
    ensures bits == n <==> Pow(2, n - 1) <= v < Pow(2, n)
  {
    PowPos(2, n - 1);
    if v != 0 && bits < n {
      PowMonotone(bits, n - 1);
    } else if v != 0 && n < bits {
      PowMonotone(n, bits - 1);
    }
  }

  /** The number of entries in one partition of a 2^logSize-entry database. */
  function PartitionSize(logSize: nat): (s: nat)
    ensures 0 < s
  {
    PowPos(2, logSize / 2 + logSize % 2);
    Pow(2, logSize / 2 + logSize % 2)
  }

  /** A partition is 2^(logSize / 2), or twice that, and there are 2^(logSize / 2) of
      them. */
  lemma PartitionsFill(logSize: nat)
    ensures PartitionSize(logSize) * Pow(2, logSize / 2) == Pow(2, logSize)
    ensures PartitionSize(logSize) == if logSize % 2 == 0 then Pow(2, logSize / 2) else 2 * Pow(2, logSize / 2)
  {
    PowAdd(2, logSize / 2 + logSize % 2, logSize / 2);
    assert logSize % 2 == 1 ==> Pow(2, logSize / 2 + 1) == 2 * Pow(2, logSize / 2);
  }

  /** Partitions of more than 2^15 entries begin at 2^31 database entries. */
  lemma PartitionLimit(logSize: nat)
    ensures PartitionSize(logSize) <= 32768 <==> logSize <= 30
  {
    PowAdd(2, 10, 5);
    assert Pow(2, 5) == 32 && Pow(2, 10) == 1024;
    assert Pow(2, 16) == 2 * Pow(2, 15);
    if logSize <= 30 {
      PowMonotone(logSize / 2 + logSize % 2, 15);
    } else {
      PowMonotone(16, logSize / 2 + logSize % 2);
    }
  }

  /** degree holds a partition exactly when 2^(logSize / 2) rows of it hold the
      whole database. */
  lemma HoldsPartition(logSize: nat, degree: nat)
    ensures PartitionSize(logSize) <= degree <==> Pow(2, logSize) <= degree * Pow(2, logSize / 2)
  {
    PartitionsFill(logSize);
    PowPos(2, logSize / 2);
    if PartitionSize(logSize) <= degree {
      MulLe(PartitionSize(logSize), degree, Pow(2, logSize / 2));
    } else {
      MulLt(degree, PartitionSize(logSize), Pow(2, logSize / 2));
    }
  }

  /** SelectPolyModulusDegree: the least allowed ring degree of which 2^(logSize / 2)
      rows hold the database; an error when there is none. */
  method SelectPolyModulusDegree(logSize: nat) returns (r: Checked<nat>)
    ensures r.InvalidArgument? <==> logSize > 30
    ensures r.Valid? ==> r.value in {2048, 4096, 8192, 16384, 32768}
    ensures r.Valid? ==> r.value * Pow(2, logSize / 2) >= Pow(2, logSize)
    ensures r.Valid? && r.value != 2048 ==> r.value / 2 * Pow(2, logSize / 2) < Pow(2, logSize)
  {
    PartitionLimit(logSize);
    if logSize >= 32 {
      return InvalidArgument;
    }
    var partSize := PartitionSize(logSize);
    var degree := MIN_POLY_MODULUS_DEGREE;
    while degree < partSize && degree < MAX_POLY_MODULUS_DEGREE
      invariant degree in {2048, 4096, 8192, 16384, 32768}
      invariant degree == 2048 || degree / 2 < partSize
      decreases MAX_POLY_MODULUS_DEGREE - degree
    {
      degree := 2 * degree;
    }
    if degree < partSize {
      return InvalidArgument;
    }
    HoldsPartition(logSize, degree);
    HoldsPartition(logSize, degree / 2);
    return Valid(degree);
  }
}
