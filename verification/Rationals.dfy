/** Machine integers as C computes with them: wrap-around, two's complement, arithmetic shifts. */
module MachineInts {

  const TWO32: int := 0x1_0000_0000
  const TWO63: int := 0x8000_0000_0000_0000
  const TWO64: int := 0x1_0000_0000_0000_0000
  const TWO96: int := 0x1_0000_0000_0000_0000_0000_0000
  const TWO127: int := 0x8000_0000_0000_0000_0000_0000_0000_0000
  const TWO128: int := 0x1_0000_0000_0000_0000_0000_0000_0000_0000
  const INT64_MAX: int := TWO63 - 1
  const INT64_MIN: int := -TWO63
  const UINT64_MAX: int := TWO64 - 1

  type int64 = x: int | INT64_MIN <= x <= INT64_MAX
  type uint64 = x: int | 0 <= x <= UINT64_MAX

  /** The value of a struct sr_rational. */
  datatype Rat = Rat(p: int64, q: uint64)

  /** Conversion to uint64_t. */
  function U64(x: int): uint64 {
    x % 0x1_0000_0000_0000_0000
  }

  /** Conversion to int64_t. */
  function I64(x: int): int64 {
    if U64(x) < TWO63 then U64(x) else U64(x) - TWO64
  }

  const INT32_MAX: int := 0x7FFF_FFFF
  const INT32_MIN: int := -0x8000_0000

  type int32 = x: int | INT32_MIN <= x <= INT32_MAX

  /** Conversion to int32_t. */
  function I32(x: int): int32 {
    if x % 0x1_0000_0000 < 0x8000_0000 then x % 0x1_0000_0000 else x % 0x1_0000_0000 - 0x1_0000_0000
  }

  function U128(x: int): int {
    x % 0x1_0000_0000_0000_0000_0000_0000_0000_0000
  }

  function I128(x: int): int {
    if U128(x) < TWO127 then U128(x) else U128(x) - TWO128
  }

  /** The low 32 bits: UINT32_MAX & x. */
  function Low32(x: int): (r: int)
    ensures 0 <= r < TWO32
  {
    x % 0x1_0000_0000
  }

  /** x >> 32, arithmetic for negative x. */
  function Shr32(x: int): (r: int)
    ensures x == r * TWO32 + Low32(x)
  {
    x / 0x1_0000_0000
  }

  /** Wrapping drops multiples of 2^64, and nothing else. */
  lemma Wraps(x: int, y: int, k: int)
    requires x == y + k * TWO64 && 0 <= y < TWO64
    ensures U64(x) == y
  {
  }
}

/** The two-limb multiplications that stand in for 128-bit integers. */
module Limbs {
  import opened Bytes
  import opened MachineInts

  /** A 128-bit number in two limbs; `high` is signed in sr_int128_t and unsigned in sr_uint128_t. */
  datatype Wide = Wide(high: int, low: uint64) {
    function Value(): int {
      high * TWO64 + low
    }
  }

  /** What both multiplications do with the four partial products. */
  function LowLimb(t1: uint64, t2: uint64, t3: uint64): uint64 {
    U64(t1 + U64(t2 * TWO32) + U64(t3 * TWO32))
  }

  function Carry(t1: uint64, t2: uint64, t3: uint64): int {
    Shr32(Shr32(t1) + Low32(t2) + Low32(t3))
  }

  function HighLimb(t1: uint64, t2: uint64, t3: uint64, t4: uint64): int {
    Carry(t1, t2, t3) + Shr32(I64(t2)) + Shr32(I64(t3)) + t4
  }

  /** mult_int64 */
  function MultInt64(a: int64, b: int64): Wide {
    var t1 := U64(Low32(a) * Low32(b));
    var t2 := U64(Low32(a) * Shr32(b));
    var t3 := U64(Shr32(a) * Low32(b));
    var t4 := U64(Shr32(a) * Shr32(b));
    Wide(I64(HighLimb(t1, t2, t3, t4)), LowLimb(t1, t2, t3))
  }

  /** mult_uint64 */
  function MultUint64(a: uint64, b: uint64): Wide {
    var t1 := U64(Low32(a) * Low32(b));
    var t2 := U64(Low32(a) * Shr32(b));
    var t3 := U64(Shr32(a) * Low32(b));
    var t4 := U64(Shr32(a) * Shr32(b));
    Wide(U64(HighLimb(t1, t2, t3, t4)), LowLimb(t1, t2, t3))
  }

  /** The product, less 2^96 for every misread cross product, wrapped around once if that is too much. */
  function Lossy(product: int, c: nat): int {
    var v := product - c * TWO96;
    if v >= 0 then v else v + TWO128
  }

  /** 1 for a cross product that the signed shift misreads. */
  function Excess(s: int): nat {
    if s < TWO63 then 0 else 1
  }

  /** Both cross products stay below 2^63, so that the signed shift reads them as they are. */
  predicate CrossFits(a: uint64, b: uint64) {
    Low32(a) * Shr32(b) < TWO63 && Shr32(a) * Low32(b) < TWO63
  }

  /** A product of two 64-bit numbers in terms of their halves. */
  lemma ProductOfHalves(a: int, b: int)
    ensures a * b == Low32(a) * Low32(b) + (Low32(a) * Shr32(b) + Shr32(a) * Low32(b)) * TWO32
                  + Shr32(a) * Shr32(b) * TWO64
  {
    var al, ah, bl, bh := Low32(a), Shr32(a), Low32(b), Shr32(b);
    assert a * b == (ah * TWO32 + al) * (bh * TWO32 + bl);
  }

  lemma LowOfWrapped(s: int)
    ensures Low32(U64(s)) == Low32(s)
  {
  }

  /** Shifting the wrapped form of s left by 32 keeps its low 32 bits. */
  lemma ShiftedLow(s: int)
    ensures U64(U64(s) * TWO32) == Low32(s) * TWO32
  {
    LowOfWrapped(s);
    Wraps(U64(s) * TWO32, Low32(U64(s)) * TWO32, Shr32(U64(s)));
  }

  lemma LowLimbIs(s1: uint64, s2: int, s3: int)
    ensures var sum := Shr32(s1) + Low32(s2) + Low32(s3);
      && LowLimb(s1, U64(s2), U64(s3)) == Low32(sum) * TWO32 + Low32(s1)
      && Carry(s1, U64(s2), U64(s3)) == Shr32(sum)
  {
    var sum := Shr32(s1) + Low32(s2) + Low32(s3);
    ShiftedLow(s2);
    ShiftedLow(s3);
    LowOfWrapped(s2);
    LowOfWrapped(s3);
    Wraps(s1 + Low32(s2) * TWO32 + Low32(s3) * TWO32, Low32(sum) * TWO32 + Low32(s1), Shr32(sum));
  }

  /** Put together, the two limbs are the weighted sum of the signed partial products. */
  lemma LimbsAddUp(s1: uint64, s2: int, s3: int, s4: int)
    ensures (Carry(s1, U64(s2), U64(s3)) + Shr32(s2) + Shr32(s3) + s4) * TWO64 + LowLimb(s1, U64(s2), U64(s3))
         == s1 + (s2 + s3) * TWO32 + s4 * TWO64
  {
    LowLimbIs(s1, s2, s3);
    var sum := Shr32(s1) + Low32(s2) + Low32(s3);
    assert Shr32(sum) * TWO64 + Low32(sum) * TWO32 == sum * TWO32;
  }

  lemma WrapOnce(x: int, y: int)
    ensures U64(x + U64(y)) == U64(x + y)
  {
    Wraps(x + U64(y), U64(x + y), (x + U64(y) - U64(x + y)) / TWO64);
  }

  lemma MulLe(x: int, y: int, mx: int, my: int)
    requires -mx <= x <= mx && -my <= y <= my
    ensures x * y <= mx * my
  {
    if y >= 0 {
      assert x * y <= mx * y <= mx * my;
    } else {
      assert x * y <= -mx * y <= mx * my;
    }
  }

  lemma MulBound(x: int, y: int, mx: int, my: int)
    requires -mx <= x <= mx && -my <= y <= my
    ensures -mx * my <= x * y <= mx * my
  {
    MulLe(x, y, mx, my);
    MulLe(-x, y, mx, my);
  }

  lemma SignedIs(s: int64)
    ensures I64(U64(s)) == s && I64(s) == s
  {
    Wraps(s, if s < 0 then s + TWO64 else s, if s < 0 then -1 else 0);
  }

  lemma HighInRange(x: int, low: uint64, v: int)
    requires v == x * TWO64 + low && -TWO127 <= v < TWO127
    ensures INT64_MIN <= x <= INT64_MAX
  {
  }

  lemma SignedLimbs(s1: uint64, s2: int64, s3: int64, s4: int, v: int)
    requires v == s1 + (s2 + s3) * TWO32 + s4 * TWO64 && -TWO127 <= v < TWO127
    ensures var w := Wide(I64(HighLimb(s1, U64(s2), U64(s3), U64(s4))), LowLimb(s1, U64(s2), U64(s3)));
      w.Value() == v
  {
    SignedIs(s2);
    SignedIs(s3);
    LimbsAddUp(s1, s2, s3, s4);
    var h := Carry(s1, U64(s2), U64(s3)) + Shr32(s2) + Shr32(s3);
    HighInRange(h + s4, LowLimb(s1, U64(s2), U64(s3)), v);
    WrapOnce(h, s4);
    SignedIs(h + s4);
  }

  lemma UnsignedProduct(x: int, y: int, bound: int)
    requires 0 <= x < bound && 0 <= y < bound
    ensures 0 <= x * y < bound * bound
    ensures bound == TWO32 ==> U64(x * y) == x * y
  {
    MulBound(x, y, bound - 1, bound - 1);
    if bound == TWO32 {
      Wraps(x * y, x * y, 0);
    }
  }

  /** mult_int64 is exact for all 64-bit arguments. */
  lemma MultInt64Exact(a: int64, b: int64)
    ensures MultInt64(a, b).Value() == a * b
  {
    ProductOfHalves(a, b);
    UnsignedProduct(Low32(a), Low32(b), TWO32);
    MulBound(Low32(a), Shr32(b), TWO32 - 1, 0x8000_0000);
    MulBound(Shr32(a), Low32(b), 0x8000_0000, TWO32 - 1);
    MulBound(a, b, TWO63, TWO63);
    SignedLimbs(Low32(a) * Low32(b), Low32(a) * Shr32(b), Shr32(a) * Low32(b), Shr32(a) * Shr32(b), a * b);
  }

  /** The signed reading of a cross product is 2^64 too small when it does not fit, and exact when it does. */
  lemma CrossReading(s: uint64)
    ensures Shr32(I64(s)) == Shr32(s) - Excess(s) * TWO32
  {
    assert U64(s) == s;
    if s >= TWO63 {
      assert s - TWO64 == (Shr32(s) - TWO32) * TWO32 + Low32(s);
    }
  }

  lemma UnsignedLimbs(s1: uint64, s2: uint64, s3: uint64, s4: uint64)
    requires s1 + (s2 + s3) * TWO32 + s4 * TWO64 < TWO128
    ensures Wide(U64(HighLimb(s1, s2, s3, s4)), LowLimb(s1, s2, s3)).Value()
         == Lossy(s1 + (s2 + s3) * TWO32 + s4 * TWO64, Excess(s2) + Excess(s3))
  {
    assert U64(s2) == s2 && U64(s3) == s3;
    LimbsAddUp(s1, s2, s3, s4);
    CrossReading(s2);
    CrossReading(s3);
    var exact := Carry(s1, s2, s3) + Shr32(s2) + Shr32(s3) + s4;
    var off := (Excess(s2) + Excess(s3)) * TWO32;
    assert HighLimb(s1, s2, s3, s4) == exact - off;
    Wraps(exact - off, if exact >= off then exact - off else exact - off + TWO64, if exact >= off then 0 else -1);
  }

  /** How many cross products reach 2^63. */
  function CrossExcess(a: uint64, b: uint64): nat {
    Excess(Low32(a) * Shr32(b)) + Excess(Shr32(a) * Low32(b))
  }

  lemma ExcessIffFits(a: uint64, b: uint64)
    ensures CrossExcess(a, b) <= 2
    ensures CrossExcess(a, b) == 0 <==> CrossFits(a, b)
  {
  }

  /** mult_uint64 loses 2^96 for every cross product that reaches 2^63. */
  lemma MultUint64Value(a: uint64, b: uint64)
    ensures 0 <= MultUint64(a, b).high < TWO64
    ensures 0 <= a * b < TWO128
    ensures MultUint64(a, b).Value() == Lossy(a * b, CrossExcess(a, b))
  {
    var s1, s2, s3, s4 := Low32(a) * Low32(b), Low32(a) * Shr32(b), Shr32(a) * Low32(b), Shr32(a) * Shr32(b);
    ProductOfHalves(a, b);
    UnsignedProduct(Low32(a), Low32(b), TWO32);
    UnsignedProduct(Low32(a), Shr32(b), TWO32);
    UnsignedProduct(Shr32(a), Low32(b), TWO32);
    UnsignedProduct(Shr32(a), Shr32(b), TWO32);
    UnsignedProduct(a, b, TWO64);
    UnsignedLimbs(s1, s2, s3, s4);
  }

  lemma LossyIff(product: int, c: nat)
    requires 0 <= product < TWO128 && c <= 2
    ensures Lossy(product, c) == product <==> c == 0
    ensures 0 <= Lossy(product, c)
    ensures Lossy(product, c) == 0 <==> product == TWO96 * c
  {
  }

  /** mult_uint64 is exact if and only if both cross products are below 2^63. */
  lemma MultUint64ExactIff(a: uint64, b: uint64)
    ensures MultUint64(a, b).Value() == a * b <==> CrossFits(a, b)
    ensures 0 <= MultUint64(a, b).high < TWO64
  {
    MultUint64Value(a, b);
    ExcessIffFits(a, b);
    LossyIff(a * b, CrossExcess(a, b));
  }

  lemma TwiceTimes(f: int, x: int)
    ensures 2 * (f * x) == (2 * f) * x
  {
  }

  lemma HalfProduct(x: int, y: int, f: int, z: int)
    requires (2 * x) * y == (2 * f) * z
    ensures x * y == f * z && y * x == f * z
  {
    TwiceTimes(x, y);
    TwiceTimes(f, z);
  }

  lemma OddTimes(m: int, y: int)
    ensures (2 * m + 1) * y == 2 * (m * y) + y
  {
  }

  lemma EvenFactor(x: int, y: int, h: int, f: int, z: int)
    requires x % 2 == 1 && x * y == (2 * f) * z && h == f * z
    ensures y % 2 == 0
  {
    TwiceTimes(f, z);
    OddTimes(x / 2, y);
    assert y == 2 * (h - (x / 2) * y);
  }

  /** A power of two that divides a product is shared between the factors. */
  lemma {:induction false} PowerShared(x: int, y: int, n: nat, z: int) returns (i: nat, x': int, y': int)
    requires x * y == Pow2(n) * z
    ensures i <= n && x == Pow2(i) * x' && y == Pow2(n - i) * y'
    decreases n
  {
    if n == 0 {
      i, x', y' := 0, x, y;
    } else if x % 2 == 0 {
      HalfProduct(x / 2, y, Pow2(n - 1), z);
      i, x', y' := PowerShared(x / 2, y, n - 1, z);
      i := i + 1;
      TwiceTimes(Pow2(i - 1), x');
    } else {
      EvenFactor(x, y, Pow2(n - 1) * z, Pow2(n - 1), z);
      HalfProduct(y / 2, x, Pow2(n - 1), z);
      i, x', y' := PowerShared(x, y / 2, n - 1, z);
      TwiceTimes(Pow2(n - 1 - i), y');
    }
  }

  lemma {:induction false} PowerSplits(i: nat, j: nat)
    ensures Pow2(i + j) == Pow2(i) * Pow2(j)
  {
    if i > 0 {
      PowerSplits(i - 1, j);
      TwiceTimes(Pow2(i - 1), Pow2(j));
    }
  }

  lemma PowerOf8()
    ensures Pow2(8) == 256
  {
  }

  lemma PowerOf32()
    ensures Pow2(32) == TWO32 && Pow2(64) == TWO64 && Pow2(96) == TWO96
  {
    PowerOf8();
    PowerSplits(8, 8);
    PowerSplits(16, 16);
    PowerSplits(32, 32);
    PowerSplits(32, 64);
  }

  lemma HighPower(i: nat)
    requires 32 <= i
    ensures Pow2(i) == TWO32 * Pow2(i - 32)
  {
    PowerSplits(32, i - 32);
    PowerOf32();
  }

  lemma LowOfMultiple(y: int)
    ensures Low32(y * TWO32) == 0
  {
  }

  lemma NoLowPart(x: int, f: int, y: int)
    requires x == (TWO32 * f) * y
    ensures Low32(x) == 0
  {
    LowOfMultiple(f * y);
    assert x == (f * y) * TWO32;
  }

  lemma MultipleOf32(x: int, i: nat, x': int)
    requires i >= 32 && x == Pow2(i) * x'
    ensures Low32(x) == 0
  {
    HighPower(i);
    NoLowPart(x, Pow2(i - 32), x');
  }

  lemma TooLarge(x: int, f: int, y: int)
    requires x == (TWO64 * f) * y && x > 0
    ensures x >= TWO64
  {
    assert x == TWO64 * (f * y);
  }

  lemma ExponentBelow64(x: int, i: nat, x': int)
    requires 0 < x < TWO64 && x == Pow2(i) * x'
    ensures i < 64
  {
    if i >= 64 {
      PowerSplits(64, i - 64);
      PowerOf32();
      TooLarge(x, Pow2(i - 64), x');
    }
  }

  lemma NoCross(a: uint64, b: uint64)
    requires Low32(a) == 0 && Low32(b) == 0
    ensures CrossExcess(a, b) == 0
  {
  }

  /** A product that 2^96 divides has no cross products at all. */
  lemma HighMultipleFits(a: uint64, b: uint64, z: int)
    requires a > 0 && b > 0 && a * b == TWO96 * z
    ensures CrossExcess(a, b) == 0
  {
    PowerOf32();
    var i, x, y := PowerShared(a, b, 96, z);
    ExponentBelow64(a, i, x);
    ExponentBelow64(b, 96 - i, y);
    MultipleOf32(a, i, x);
    MultipleOf32(b, 96 - i, y);
    NoCross(a, b);
  }

  lemma PositiveProduct(x: int, y: int)
    requires x > 0 && y > 0
    ensures x * y > 0
  {
  }

  /** However wrong it is, the product of positive denominators is never read as 0. */
  lemma ProductStaysPositive(a: uint64, b: uint64)
    requires a > 0 && b > 0
    ensures MultUint64(a, b).Value() > 0
  {
    var c := CrossExcess(a, b);
    MultUint64Value(a, b);
    ExcessIffFits(a, b);
    LossyIff(a * b, c);
    PositiveProduct(a, b);
    if a * b == TWO96 * c {
      HighMultipleFits(a, b, c);
    }
  }

  /** Denominators up to INT64_MAX are multiplied exactly. */
  lemma SmallDenominatorsFit(a: uint64, b: uint64)
    requires a <= INT64_MAX && b <= INT64_MAX
    ensures CrossFits(a, b)
  {
    MulBound(Low32(a), Shr32(b), TWO32 - 1, 0x7FFF_FFFF);
    MulBound(Shr32(a), Low32(b), 0x7FFF_FFFF, TWO32 - 1);
  }
}
