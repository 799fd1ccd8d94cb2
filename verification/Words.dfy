/** 64-bit words: carry, borrow and wide products (encryption/utils/basics.h). */
module Words {
  import opened ModArith

  const B64: int := 0x1_0000_0000_0000_0000

  type U64 = x: int | 0 <= x < 0x1_0000_0000_0000_0000

  /** add_uint64: sum word and carry-out. */
  method AddUint64(a: U64, b: U64) returns (result: U64, carry: U64)
    ensures carry <= 1 && result + carry * B64 == a + b
  {
    result := (a + b) % B64;
    carry := if result < a then 1 else 0;
  }

  /** add_uint64_carry: the carry is recognised from the wrapped partial sum. */
  method AddUint64Carry(a: U64, b: U64, carryIn: U64) returns (result: U64, carry: U64)
    requires carryIn <= 1
    ensures carry <= 1 && result + carry * B64 == a + b + carryIn
  {
    var temp := (a + b) % B64;
    result := (temp + carryIn) % B64;
    carry := if temp < b || B64 - 1 - temp < carryIn then 1 else 0;
  }

  /** sub_uint64. */
  method SubUint64(a: U64, b: U64) returns (result: U64, borrow: U64)
    ensures borrow <= 1 && result - borrow * B64 == a - b
  {
    result := (a - b) % B64;
    borrow := if result > a then 1 else 0;
  }

  /** sub_uint64_borrow. */
  method SubUint64Borrow(a: U64, b: U64, borrowIn: U64) returns (result: U64, borrow: U64)
    requires borrowIn <= 1
    ensures borrow <= 1 && result - borrow * B64 == a - b - borrowIn
  {
    var temp := (a - b) % B64;
    result := (temp - (if borrowIn != 0 then 1 else 0)) % B64;
    borrow := if temp > a || temp < borrowIn then 1 else 0;
  }

  lemma WideBound(a: U64, b: U64)
    ensures 0 <= a * b <= (B64 - 1) * (B64 - 1)
  {
    MulLe(0, a, b);
    MulLe(a, B64 - 1, b);
  }

  /** multiply_uint64_uint64: low and high word of the 128-bit product. */
  method MultiplyWide(a: U64, b: U64) returns (lo: U64, hi: U64)
    ensures lo + hi * B64 == a * b
    ensures hi <= B64 - 2
    ensures hi == a * b / B64
  {
    WideBound(a, b);
    lo, hi := a * b % B64, a * b / B64;
  }

  /** The number a little-endian word sequence stands for. */
  ghost function Val(ws: seq<U64>): (v: nat)
  {
    if ws == [] then 0 else ws[0] + B64 * Val(ws[1..])
  }
}
