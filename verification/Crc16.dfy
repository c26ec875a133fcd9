/** Exclusive or of natural numbers, bit by bit. */
module Xors {
  import opened Bytes

  function Xor(a: nat, b: nat): nat
    decreases a + b
  {
    if a == 0 then b
    else if b == 0 then a
    else (a % 2 + b % 2) % 2 + 2 * Xor(a / 2, b / 2)
  }

  lemma BitAndRest(x: nat, bit: nat, rest: nat)
    requires x == bit + 2 * rest && bit < 2
    ensures x % 2 == bit && x / 2 == rest
  {
  }

  lemma {:induction false} XorBits(a: nat, b: nat)
    ensures Xor(a, b) % 2 == (a % 2 + b % 2) % 2 && Xor(a, b) / 2 == Xor(a / 2, b / 2)
  {
    if a > 0 && b > 0 {
      BitAndRest(Xor(a, b), (a % 2 + b % 2) % 2, Xor(a / 2, b / 2));
    }
  }

  lemma {:induction false} XorCommutes(a: nat, b: nat)
    ensures Xor(a, b) == Xor(b, a)
    decreases a + b
  {
    if a > 0 && b > 0 {
      XorCommutes(a / 2, b / 2);
    }
  }

  lemma SameHalves(x: nat, y: nat)
    requires x % 2 == y % 2 && x / 2 == y / 2
    ensures x == y
  {
  }

  /** Parities as truth values, with exclusive or as inequality. */
  lemma XorParity(a: nat, b: nat)
    ensures Xor(a, b) % 2 == 1 <==> (a % 2 == 1) != (b % 2 == 1)
  {
    XorBits(a, b);
  }

  lemma XorAssociatesParity(a: nat, b: nat, c: nat)
    ensures Xor(Xor(a, b), c) % 2 == Xor(a, Xor(b, c)) % 2
  {
    XorParity(a, b);
    XorParity(b, c);
    XorParity(Xor(a, b), c);
    XorParity(a, Xor(b, c));
  }

  lemma {:induction false} XorAssociates(a: nat, b: nat, c: nat)
    ensures Xor(Xor(a, b), c) == Xor(a, Xor(b, c))
    decreases a + b + c
  {
    if a > 0 && b > 0 && c > 0 {
      XorAssociates(a / 2, b / 2, c / 2);
      XorAssociatesParity(a, b, c);
      XorBits(a, b);
      XorBits(b, c);
      XorBits(Xor(a, b), c);
      XorBits(a, Xor(b, c));
      SameHalves(Xor(Xor(a, b), c), Xor(a, Xor(b, c)));
    }
  }

  lemma {:induction false} XorSelf(a: nat)
    ensures Xor(a, a) == 0
  {
    if a > 0 {
      XorSelf(a / 2);
    }
  }

  lemma XorCancels(a: nat, k: nat)
    ensures Xor(Xor(a, k), k) == a
  {
    XorAssociates(a, k, k);
    XorSelf(k);
  }

  /** k moves out of either operand, and two of them cancel. */
  lemma XorMoves(a: nat, b: nat, k: nat)
    ensures Xor(Xor(a, k), b) == Xor(Xor(a, b), k) == Xor(a, Xor(b, k))
    ensures Xor(Xor(a, k), Xor(b, k)) == Xor(a, b)
  {
    XorAssociates(a, k, b);
    XorAssociates(a, b, k);
    XorCommutes(k, b);
    XorAssociates(Xor(a, k), b, k);
    XorCancels(Xor(a, b), k);
  }

  lemma {:induction false} XorBound(a: nat, b: nat, n: nat)
    requires a < Pow2(n) && b < Pow2(n)
    ensures Xor(a, b) < Pow2(n)
  {
    if n > 0 {
      XorBound(a / 2, b / 2, n - 1);
      XorBits(a, b);
    }
  }

  /** The top bit of one operand is the top bit of the result. */
  lemma {:induction false} XorTop(a: nat, b: nat, n: nat)
    requires a < Pow2(n) <= b < Pow2(n + 1)
    ensures Pow2(n) <= Xor(a, b) < Pow2(n + 1)
  {
    if n > 0 {
      XorTop(a / 2, b / 2, n - 1);
      XorBits(a, b);
    }
  }
}

/**
 The MODBUS CRC of sr_crc16 (CRC Generation, section 6.2.2 of the MODBUS over Serial Line
 Specification and Implementation Guide V1.02) and the burst errors it detects.
 Registers and bytes are natural numbers below 2^16 and 2^8.
 */
module Crc16 {
  import opened Bytes
  import opened Xors

  type u16 = x: nat | x < 65536

  const POLYNOMIAL: u16 := 0xA001  // the generator polynomial without its top bit, reflected

  lemma Widths()
    ensures Pow2(8) == 256 && Pow2(15) == 32768 && Pow2(16) == 65536
  {
    assert Pow2(4) == 16;
    assert Pow2(8) == 256;
    assert Pow2(12) == 4096;
  }

  lemma XorWidth(x: u16)
    ensures Xor(x, 0xA001) < 65536
    ensures x < 32768 ==> Xor(x, 0xA001) >= 32768
  {
    Widths();
    XorBound(x, 0xA001, 16);
    if x < 32768 {
      XorTop(x, 0xA001, 15);
    }
  }

  /** One turn of the inner loop: shift right, and apply the polynomial when a 1 was shifted out. */
  function Step(crc: u16): u16 {
    XorWidth(crc / 2);
    if crc % 2 != 0 then Xor(crc / 2, 0xA001) else crc / 2
  }

  function Steps(crc: u16, n: nat): u16
    decreases n
  {
    if n == 0 then crc else Steps(Step(crc), n - 1)
  }

  function Xor16(x: u16, y: u16): u16 {
    Widths();
    XorBound(x, y, 16);
    Xor(x, y)
  }

  function ByteStep(crc: u16, b: byte): u16 {
    Steps(Xor16(crc, b), 8)
  }

  function Crc(crc: u16, data: seq<byte>): u16
    decreases |data|
  {
    if data == [] then crc else Crc(ByteStep(crc, data[0]), data[1..])
  }

  /** sr_crc16. `buffer` may be NULL and `len` negative; otherwise the buffer covers `len` bytes. */
  method SrCrc16(crc0: u16, buffer: array?<byte>, len0: int) returns (crc: u16)
    requires buffer != null ==> len0 <= buffer.Length
    ensures crc == if buffer == null || len0 < 0 then crc0 else Crc(crc0, buffer[..len0])
  {
    crc := crc0;
    if buffer == null || len0 < 0 {
      return;
    }
    var len, at := len0, 0;
    while len > 0
      invariant 0 <= at <= len0 && at + len == len0
      invariant Crc(crc, buffer[at..len0]) == Crc(crc0, buffer[..len0])
      decreases len
    {
      assert buffer[at..len0][1..] == buffer[at + 1..len0];
      len := len - 1;
      crc := Xor16(crc, buffer[at]);
      ghost var start := crc;
      at := at + 1;
      var i := 0;
      while i < 8
        invariant 0 <= i <= 8
        invariant Steps(crc, 8 - i) == Steps(start, 8)
      {
        var carry := crc % 2;
        crc := crc / 2;
        if carry != 0 {
          crc := Xor16(crc, POLYNOMIAL);
        }
        i := i + 1;
      }
    }
  }

  // ----- The register is linear, and no step loses information -----

  lemma StepLinear(x: u16, y: u16)
    ensures Step(Xor16(x, y)) == Xor16(Step(x), Step(y))
  {
    XorParity(x, y);
    XorBits(x, y);
    XorMoves(x / 2, y / 2, 0xA001);
    var x', y' := x / 2, y / 2;
    if x % 2 == 1 && y % 2 == 1 {
      assert Step(Xor16(x, y)) == Xor(x', y') == Xor(Xor(x', 0xA001), Xor(y', 0xA001));
    } else if x % 2 == 1 || y % 2 == 1 {
      assert Step(Xor16(x, y)) == Xor(Xor(x', y'), 0xA001);
    }
  }

  lemma StepInjective(x: u16, y: u16)
    requires Step(x) == Step(y)
    ensures x == y
  {
    XorWidth(x / 2);
    XorWidth(y / 2);
    XorCancels(x / 2, POLYNOMIAL);
    XorCancels(y / 2, POLYNOMIAL);
  }

  lemma {:induction false} StepsLinear(x: u16, y: u16, n: nat)
    ensures Steps(Xor16(x, y), n) == Xor16(Steps(x, n), Steps(y, n))
    decreases n
  {
    if n > 0 {
      StepLinear(x, y);
      StepsLinear(Step(x), Step(y), n - 1);
    }
  }

  function XorBytes(a: seq<byte>, b: seq<byte>): (r: seq<byte>)
    requires |a| == |b|
    ensures |r| == |a|
  {
    if a == [] then []
    else
      Widths();
      XorBound(a[0], b[0], 8);
      [Xor(a[0], b[0])] + XorBytes(a[1..], b[1..])
  }

  lemma XorMoves4(x: nat, y: nat, a: nat, b: nat)
    ensures Xor(Xor(x, y), Xor(a, b)) == Xor(Xor(x, a), Xor(y, b))
  {
    XorAssociates(Xor(x, y), a, b);
    XorMoves(x, y, a);
    XorAssociates(Xor(x, a), y, b);
  }

  /** The CRC of a bitwise sum is the bitwise sum of the CRCs. */
  lemma {:induction false} CrcLinear(x: u16, y: u16, a: seq<byte>, b: seq<byte>)
    requires |a| == |b|
    ensures Crc(Xor16(x, y), XorBytes(a, b)) == Xor16(Crc(x, a), Crc(y, b))
    decreases |a|
  {
    if a != [] {
      var sum := XorBytes(a, b);
      XorMoves4(x, y, a[0], b[0]);
      StepsLinear(Xor16(x, a[0]), Xor16(y, b[0]), 8);
      CrcLinear(ByteStep(x, a[0]), ByteStep(y, b[0]), a[1..], b[1..]);
      assert sum[0] == Xor(a[0], b[0]) && sum[1..] == XorBytes(a[1..], b[1..]);
    }
  }

  /** A message may be fed in pieces, the CRC of one piece being the start value of the next. */
  lemma {:induction false} CrcAppend(crc: u16, a: seq<byte>, b: seq<byte>)
    ensures Crc(Crc(crc, a), b) == Crc(crc, a + b)
    decreases |a|
  {
    if a == [] {
      assert a + b == b;
    } else {
      assert (a + b)[1..] == a[1..] + b;
      CrcAppend(ByteStep(crc, a[0]), a[1..], b);
    }
  }

  // ----- The CRC, fed bit by bit in the order of transmission (least significant bit first) -----

  type bit = x: nat | x < 2

  function BitStep(crc: u16, b: bit): u16 {
    Step(Xor16(crc, b))
  }

  function CrcBits(crc: u16, bits: seq<bit>): u16
    decreases |bits|
  {
    if bits == [] then crc else CrcBits(BitStep(crc, bits[0]), bits[1..])
  }

  /** The low n bits of x, the least significant one first. */
  function BitsOf(x: nat, n: nat): (r: seq<bit>)
    ensures |r| == n
    decreases n
  {
    if n == 0 then [] else [x % 2] + BitsOf(x / 2, n - 1)
  }

  function MessageBits(data: seq<byte>): (r: seq<bit>)
    ensures |r| == 8 * |data|
  {
    if data == [] then [] else BitsOf(data[0], 8) + MessageBits(data[1..])
  }

  /** Adding x before a step is adding its lowest bit before, and the rest after the step. */
  lemma StepSplitsInput(crc: u16, x: u16)
    ensures Step(Xor16(crc, x)) == Xor16(BitStep(crc, x % 2), x / 2)
  {
    XorBits(crc, x);
    XorBits(crc, x % 2);
    XorMoves(crc / 2, x / 2, 0xA001);
    assert Xor(crc / 2, 0) == crc / 2;
  }

  lemma {:induction false} StepsAreBits(crc: u16, x: u16, n: nat)
    requires x < Pow2(n)
    ensures Steps(Xor16(crc, x), n) == CrcBits(crc, BitsOf(x, n))
    decreases n
  {
    if n == 0 {
      assert Xor(crc, 0) == crc;
    } else {
      StepSplitsInput(crc, x);
      StepsAreBits(BitStep(crc, x % 2), x / 2, n - 1);
      assert BitsOf(x, n)[1..] == BitsOf(x / 2, n - 1);
    }
  }

  lemma {:induction false} CrcBitsAppend(crc: u16, u: seq<bit>, v: seq<bit>)
    ensures CrcBits(crc, u + v) == CrcBits(CrcBits(crc, u), v)
    decreases |u|
  {
    if u == [] {
      assert u + v == v;
    } else {
      assert (u + v)[1..] == u[1..] + v;
      CrcBitsAppend(BitStep(crc, u[0]), u[1..], v);
    }
  }

  /** Byte by byte and bit by bit the CRC is the same. */
  lemma {:induction false} CrcIsBitwise(crc: u16, data: seq<byte>)
    ensures Crc(crc, data) == CrcBits(crc, MessageBits(data))
    decreases |data|
  {
    if data != [] {
      Widths();
      StepsAreBits(crc, data[0], 8);
      CrcIsBitwise(ByteStep(crc, data[0]), data[1..]);
      CrcBitsAppend(crc, BitsOf(data[0], 8), MessageBits(data[1..]));
    }
  }

  // ----- Burst errors -----

  lemma BitStepInjective(x: u16, y: u16, b: bit)
    requires BitStep(x, b) == BitStep(y, b)
    ensures x == y
  {
    StepInjective(Xor16(x, b), Xor16(y, b));
    XorCancels(x, b);
    XorCancels(y, b);
  }

  /** Registers that differ stay different under equal input. */
  lemma {:induction false} CrcBitsInjective(x: u16, y: u16, bits: seq<bit>)
    requires CrcBits(x, bits) == CrcBits(y, bits)
    ensures x == y
    decreases |bits|
  {
    if bits != [] {
      CrcBitsInjective(BitStep(x, bits[0]), BitStep(y, bits[0]), bits[1..]);
      BitStepInjective(x, y, bits[0]);
    }
  }

  /** The number whose bits these are. */
  function Word(bits: seq<bit>): (r: nat)
    ensures r < Pow2(|bits|)
  {
    if bits == [] then 0 else bits[0] + 2 * Word(bits[1..])
  }

  lemma PowMonotone(m: nat, n: nat)
    requires m <= n
    ensures Pow2(m) <= Pow2(n)
    decreases n - m
  {
    if m < n {
      PowMonotone(m + 1, n);
    }
  }

  lemma AppendLowBit(x: nat, b: bit)
    ensures Xor(2 * x, b) == 2 * x + b
  {
    XorBits(2 * x, b);
    assert Xor(x, 0) == x;
  }

  /** Only one register content is cleared by a given input of up to 16 bits: the input itself. */
  lemma {:induction false} ClearedOnlyByItself(crc: u16, bits: seq<bit>)
    requires |bits| <= 16 && CrcBits(crc, bits) == 0
    ensures crc == Word(bits)
    decreases |bits|
  {
    if bits != [] {
      var b, rest := bits[0], bits[1..];
      ClearedOnlyByItself(BitStep(crc, b), rest);
      var x := Xor16(crc, b);
      Widths();
      PowMonotone(|rest|, 15);
      XorWidth(x / 2);
      assert x == 2 * Word(rest);
      XorCancels(crc, b);
      AppendLowBit(Word(rest), b);
    }
  }

  lemma {:induction false} WordInjective(u: seq<bit>, v: seq<bit>)
    requires |u| == |v| && Word(u) == Word(v)
    ensures u == v
  {
    if u != [] {
      WordInjective(u[1..], v[1..]);
      assert u == [u[0]] + u[1..] && v == [v[0]] + v[1..];
    }
  }

  function BitXor(a: bit, b: bit): bit {
    if a == b then 0 else 1
  }

  function XorOf(u: seq<bit>, v: seq<bit>): (r: seq<bit>)
    requires |u| == |v|
    ensures |r| == |u|
  {
    if u == [] then [] else [BitXor(u[0], v[0])] + XorOf(u[1..], v[1..])
  }

  lemma XorOfBits(a: bit, b: bit)
    ensures Xor(a, b) == BitXor(a, b)
  {
    XorBits(a, b);
  }

  lemma {:induction false} CrcBitsLinear(x: u16, y: u16, u: seq<bit>, v: seq<bit>)
    requires |u| == |v|
    ensures CrcBits(Xor16(x, y), XorOf(u, v)) == Xor16(CrcBits(x, u), CrcBits(y, v))
    decreases |u|
  {
    if u != [] {
      XorOfBits(u[0], v[0]);
      XorMoves4(x, y, u[0], v[0]);
      StepLinear(Xor16(x, u[0]), Xor16(y, v[0]));
      CrcBitsLinear(BitStep(x, u[0]), BitStep(y, v[0]), u[1..], v[1..]);
      assert XorOf(u, v)[1..] == XorOf(u[1..], v[1..]);
    }
  }

  lemma {:induction false} NoDifference(u: seq<bit>, v: seq<bit>)
    requires |u| == |v| && Word(XorOf(u, v)) == 0
    ensures u == v
  {
    if u != [] {
      assert XorOf(u, v)[1..] == XorOf(u[1..], v[1..]);
      NoDifference(u[1..], v[1..]);
      assert u == [u[0]] + u[1..] && v == [v[0]] + v[1..];
    }
  }

  /** From the same register, two different inputs of the same length up to 16 bits never meet. */
  lemma WindowDetected(crc: u16, u: seq<bit>, v: seq<bit>)
    requires |u| == |v| <= 16 && u != v
    ensures CrcBits(crc, u) != CrcBits(crc, v)
  {
    if CrcBits(crc, u) == CrcBits(crc, v) {
      CrcBitsLinear(crc, crc, u, v);
      XorSelf(crc);
      XorSelf(CrcBits(crc, u));
      ClearedOnlyByItself(0, XorOf(u, v));
      NoDifference(u, v);
    }
  }

  lemma BurstDetectedBitwise(crc: u16, u: seq<bit>, v: seq<bit>, start: nat)
    requires |u| == |v| && u != v
    requires forall j :: 0 <= j < |u| && u[j] != v[j] ==> start <= j < start + 16
    ensures CrcBits(crc, u) != CrcBits(crc, v)
  {
    var i := if start <= |u| then start else |u|;
    var k := if start + 16 <= |u| then start + 16 else |u|;
    assert u[..i] == v[..i] && u[k..] == v[k..];
    assert u == u[..i] + u[i..k] + u[k..] && v == v[..i] + v[i..k] + v[k..];
    var c := CrcBits(crc, u[..i]);
    CrcBitsAppend(crc, u[..i], u[i..k]);
    CrcBitsAppend(crc, v[..i], v[i..k]);
    CrcBitsAppend(crc, u[..i] + u[i..k], u[k..]);
    CrcBitsAppend(crc, v[..i] + v[i..k], v[k..]);
    WindowDetected(c, u[i..k], v[i..k]);
    if CrcBits(crc, u) == CrcBits(crc, v) {
      CrcBitsInjective(CrcBits(c, u[i..k]), CrcBits(c, v[i..k]), u[k..]);
    }
  }

  lemma {:induction false} BitsOfInjective(x: nat, y: nat, n: nat)
    requires x < Pow2(n) && y < Pow2(n) && BitsOf(x, n) == BitsOf(y, n)
    ensures x == y
    decreases n
  {
    if n > 0 {
      assert BitsOf(x, n)[0] == BitsOf(y, n)[0];
      assert BitsOf(x, n)[1..] == BitsOf(x / 2, n - 1) && BitsOf(y, n)[1..] == BitsOf(y / 2, n - 1);
      BitsOfInjective(x / 2, y / 2, n - 1);
    }
  }

  lemma SplitsAlike(p: seq<bit>, q: seq<bit>, r: seq<bit>, s: seq<bit>)
    requires |p| == |q| && p + r == q + s
    ensures p == q && r == s
  {
    assert p == (p + r)[..|p|] && q == (q + s)[..|q|];
    assert r == (p + r)[|p|..] && s == (q + s)[|q|..];
  }

  lemma {:induction false} MessageBitsInjective(a: seq<byte>, b: seq<byte>)
    requires |a| == |b| && MessageBits(a) == MessageBits(b)
    ensures a == b
  {
    if a != [] {
      SplitsAlike(BitsOf(a[0], 8), BitsOf(b[0], 8), MessageBits(a[1..]), MessageBits(b[1..]));
      Widths();
      BitsOfInjective(a[0], b[0], 8);
      MessageBitsInjective(a[1..], b[1..]);
      assert a == [a[0]] + a[1..] && b == [b[0]] + b[1..];
    }
  }

  /**
   Two messages of the same length that differ only within 16 consecutive bits have different
   CRCs, whatever the initial value.
   */
  lemma BurstDetected(crc: u16, a: seq<byte>, b: seq<byte>, start: nat)
    requires |a| == |b| && a != b
    requires forall j :: 0 <= j < 8 * |a| && MessageBits(a)[j] != MessageBits(b)[j] ==> start <= j < start + 16
    ensures Crc(crc, a) != Crc(crc, b)
  {
    if MessageBits(a) == MessageBits(b) {
      MessageBitsInjective(a, b);
    }
    CrcIsBitwise(crc, a);
    CrcIsBitwise(crc, b);
    BurstDetectedBitwise(crc, MessageBits(a), MessageBits(b), start);
  }

  // ----- The transmitted CRC clears the register; 16 bits is the best possible -----

  /** The bytes of a CRC as MODBUS transmits them: low byte first. */
  function Trailer(crc: u16): seq<byte> {
    [crc % 256, crc / 256]
  }

  /** y << n */
  function ShiftLeft(y: nat, n: nat): nat {
    if n == 0 then y else 2 * ShiftLeft(y, n - 1)
  }

  lemma ShiftLeft8(y: nat)
    ensures ShiftLeft(y, 7) == 128 * y && ShiftLeft(y, 8) == 256 * y
  {
    assert ShiftLeft(y, 1) == 2 * y;
    assert ShiftLeft(y, 2) == 4 * y;
    assert ShiftLeft(y, 4) == 16 * y;
    assert ShiftLeft(y, 6) == 64 * y;
  }

  /** While zeros are shifted out, a step is a plain shift. */
  lemma {:induction false} ZerosShiftOut(y: nat, n: nat)
    requires ShiftLeft(y, n) < 65536
    ensures y < 65536 && Steps(ShiftLeft(y, n), n) == y
    decreases n
  {
    if n > 0 {
      ZerosShiftOut(y, n - 1);
    }
  }

  lemma {:induction false} XorLowPart(low: nat, high: nat, m: nat)
    requires low < Pow2(m)
    ensures Xor(low + ShiftLeft(high, m), low) == ShiftLeft(high, m)
    decreases m
  {
    var x := low + ShiftLeft(high, m);
    if m == 0 {
      assert Xor(x, 0) == x;
    } else {
      var rest := low / 2 + ShiftLeft(high, m - 1);
      BitAndRest(x, low % 2, rest);
      XorBits(x, low);
      XorLowPart(low / 2, high, m - 1);
      BitAndRest(ShiftLeft(high, m), 0, ShiftLeft(high, m - 1));
      SameHalves(Xor(x, low), ShiftLeft(high, m));
    }
  }

  lemma CrcCons(crc: u16, b: byte, rest: seq<byte>)
    ensures Crc(crc, [b] + rest) == Crc(ByteStep(crc, b), rest)
  {
    assert ([b] + rest)[1..] == rest;
  }

  lemma TrailerClears(crc: u16)
    ensures Crc(crc, Trailer(crc)) == 0
  {
    var low, high := crc % 256, crc / 256;
    Widths();
    ShiftLeft8(high);
    XorLowPart(low, high, 8);
    ZerosShiftOut(high, 8);
    assert ByteStep(crc, low) == high;
    XorSelf(high);
    ShiftLeft8(0);
    ZerosShiftOut(0, 8);
    assert ByteStep(high, high) == 0;
    CrcCons(crc, low, [high]);
    CrcCons(high, high, []);
    assert [high] + [] == [high] && [low] + [high] == Trailer(crc);
  }

  /** A message followed by its own CRC, low byte first, has CRC 0. */
  lemma ResidueIsZero(crc: u16, data: seq<byte>)
    ensures Crc(crc, data + Trailer(Crc(crc, data))) == 0
  {
    CrcAppend(crc, data, Trailer(Crc(crc, data)));
    TrailerClears(Crc(crc, data));
  }

  const GENERATOR: seq<byte> := [0x03, 0x40, 0x01]

  lemma GeneratorSteps()
    ensures ByteStep(0, 0x03) == 0x140 && ByteStep(0x140, 0x40) == 0x01 && ByteStep(0x01, 0x01) == 0
  {
    Widths();
    assert Xor(0, 0x03) == 0x03;
    XorBits(1, 0xA001);
    assert Xor(0, 0x5000) == 0x5000;
    assert Step(0x03) == 0xA000;
    ShiftLeft8(0x140);
    ShiftLeft8(1);
    ShiftLeft8(0);
    ZerosShiftOut(0x140, 7);
    XorLowPart(0x40, 1, 8);
    assert Xor(0x140, 0x40) == 0x100;
    ZerosShiftOut(1, 8);
    XorSelf(1);
    ZerosShiftOut(0, 8);
  }

  lemma {:induction false} ZeroBits(n: nat, j: nat)
    requires j < n
    ensures BitsOf(0, n)[j] == 0
  {
    if j > 0 {
      ZeroBits(n - 1, j - 1);
    }
  }

  lemma LaterBits(b: byte, rest: seq<byte>, j: nat)
    requires j < 8 * |rest|
    ensures MessageBits([b] + rest)[8 + j] == MessageBits(rest)[j]
  {
    assert ([b] + rest)[1..] == rest;
  }

  lemma FirstBits(b: byte, j: nat)
    requires 0 < j < 8
    ensures MessageBits([b])[j] == BitsOf(b / 2, 7)[j - 1]
  {
  }

  lemma LastBits(b0: byte, b1: byte, b2: byte, j: nat)
    requires j < 8
    ensures MessageBits([b0, b1, b2])[16 + j] == MessageBits([b2])[j]
  {
    LaterBits(b0, [b1, b2], 8 + j);
    LaterBits(b1, [b2], j);
    assert [b0] + [b1, b2] == [b0, b1, b2] && [b1] + [b2] == [b1, b2];
  }

  /** Three bytes that end in 0x01, as the generator does, have their last 1 at bit 16. */
  lemma SpansUpToBit16(b0: byte, b1: byte, b2: byte, j: nat)
    requires b2 == 1 && 17 <= j < 24
    ensures MessageBits([b0, b1, b2])[j] == 0
  {
    LastBits(b0, b1, b2, j - 16);
    FirstBits(b2, j - 16);
    ZeroBits(7, j - 17);
  }

  lemma LowestBit(b: byte, rest: seq<byte>)
    ensures MessageBits([b] + rest)[0] == b % 2
  {
  }

  lemma GeneratorStarts()
    ensures MessageBits(GENERATOR)[0] == 1
  {
    LowestBit(0x03, [0x40, 0x01]);
    assert [0x03 as byte] + [0x40, 0x01] == GENERATOR;
  }

  lemma GeneratorEnds(j: nat)
    requires 16 <= j < 24
    ensures MessageBits(GENERATOR)[j] == if j == 16 then 1 else 0
  {
    if j == 16 {
      LastBits(0x03, 0x40, 0x01, 0);
      LowestBit(0x01, []);
      assert [0x01 as byte] + [] == [0x01];
    } else {
      SpansUpToBit16(0x03, 0x40, 0x01, j);
    }
  }

  lemma {:induction false} XorOfAt(u: seq<bit>, v: seq<bit>, j: nat)
    requires |u| == |v| && j < |u|
    ensures XorOf(u, v)[j] == BitXor(u[j], v[j])
  {
    if j > 0 {
      XorOfAt(u[1..], v[1..], j - 1);
    }
  }

  lemma {:induction false} XorOfAppend(u: seq<bit>, v: seq<bit>, x: seq<bit>, y: seq<bit>)
    requires |u| == |v| && |x| == |y|
    ensures XorOf(u + x, v + y) == XorOf(u, v) + XorOf(x, y)
  {
    if u == [] {
      assert u + x == x && v + y == y;
    } else {
      assert (u + x)[1..] == u[1..] + x && (v + y)[1..] == v[1..] + y;
      XorOfAppend(u[1..], v[1..], x, y);
    }
  }

  lemma {:induction false} BitsOfXor(x: nat, y: nat, n: nat)
    ensures BitsOf(Xor(x, y), n) == XorOf(BitsOf(x, n), BitsOf(y, n))
    decreases n
  {
    if n > 0 {
      XorBits(x, y);
      BitsOfXor(x / 2, y / 2, n - 1);
    }
  }

  /** The bits of a bytewise sum are the sums of the bits. */
  lemma {:induction false} MessageBitsXor(a: seq<byte>, b: seq<byte>)
    requires |a| == |b|
    ensures MessageBits(XorBytes(a, b)) == XorOf(MessageBits(a), MessageBits(b))
  {
    if a != [] {
      BitsOfXor(a[0], b[0], 8);
      MessageBitsXor(a[1..], b[1..]);
      XorOfAppend(BitsOf(a[0], 8), BitsOf(b[0], 8), MessageBits(a[1..]), MessageBits(b[1..]));
    }
  }

  lemma XorZero(x: nat)
    ensures Xor(x, 0) == x
  {
  }

  lemma GeneratorUnnoticed(crc: u16, a: seq<byte>)
    requires |a| == 3
    ensures Crc(crc, XorBytes(a, GENERATOR)) == Crc(crc, a)
  {
    CrcLinear(crc, 0, a, GENERATOR);
    XorZero(crc);
    XorZero(Crc(crc, a));
    GeneratorSteps();
    CrcCons(0, 0x03, [0x40, 0x01]);
    CrcCons(0x140, 0x40, [0x01]);
    CrcCons(0x01, 0x01, []);
    assert [0x03 as byte] + [0x40, 0x01] == GENERATOR && [0x40 as byte] + [0x01] == [0x40, 0x01];
    assert [0x01 as byte] + [] == [0x01];
  }

  /**
   The bound is sharp: in every three bytes of a message a change of the 17 bits of the generator
   polynomial, from bit 0 to bit 16, goes unnoticed.
   */
  lemma SeventeenBitsUndetected(crc: u16, before: seq<byte>, a: seq<byte>, after: seq<byte>)
    requires |a| == 3
    ensures var b := XorBytes(a, GENERATOR);
      && Crc(crc, before + b + after) == Crc(crc, before + a + after)
      && MessageBits(b)[0] != MessageBits(a)[0] && MessageBits(b)[16] != MessageBits(a)[16]
      && forall j :: 0 <= j < 24 && MessageBits(b)[j] != MessageBits(a)[j] ==> j <= 16
  {
    var b := XorBytes(a, GENERATOR);
    GeneratorUnnoticed(Crc(crc, before), a);
    CrcAppend(crc, before, a);
    CrcAppend(crc, before, b);
    CrcAppend(crc, before + a, after);
    CrcAppend(crc, before + b, after);
    MessageBitsXor(a, GENERATOR);
    forall j | 0 <= j < 24
      ensures MessageBits(b)[j] == BitXor(MessageBits(a)[j], MessageBits(GENERATOR)[j])
      ensures j > 16 ==> MessageBits(GENERATOR)[j] == 0
    {
      XorOfAt(MessageBits(a), MessageBits(GENERATOR), j);
      if j > 16 {
        GeneratorEnds(j);
      }
    }
    GeneratorStarts();
    GeneratorEnds(16);
  }
}
