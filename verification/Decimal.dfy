/** Decimal digits as text, and powers of ten. */
module Digits {

  predicate IsDigit(c: char) {
    '0' <= c <= '9'
  }

  predicate AllDigits(s: string) {
    forall c <- s :: IsDigit(c)
  }

  function DigitValue(c: char): nat
    requires IsDigit(c)
  {
    c as int - '0' as int
  }

  function DigitChar(d: nat): (c: char)
    requires d < 10
    ensures IsDigit(c) && DigitValue(c) == d
  {
    ('0' as int + d) as char
  }

  function Pow10(n: nat): (r: nat)
    ensures r > 0
  {
    if n == 0 then 1 else 10 * Pow10(n - 1)
  }

  lemma {:induction false} Pow10Sum(a: nat, b: nat)
    ensures Pow10(a + b) == Pow10(a) * Pow10(b)
  {
    if a > 0 {
      Pow10Sum(a - 1, b);
      assert Pow10(a) * Pow10(b) == 10 * (Pow10(a - 1) * Pow10(b));
    }
  }

  /** The number that a string of digits denotes. */
  function Value(s: string): nat
    requires AllDigits(s)
  {
    if s == [] then 0 else 10 * Value(s[..|s| - 1]) + DigitValue(s[|s| - 1])
  }

  lemma {:induction false} ValueConcat(a: string, b: string)
    requires AllDigits(a) && AllDigits(b)
    ensures AllDigits(a + b) && Value(a + b) == Value(a) * Pow10(|b|) + Value(b)
  {
    if b == [] {
      assert a + b == a;
    } else {
      var b' := b[..|b| - 1];
      ValueConcat(a, b');
      assert (a + b)[..|a + b| - 1] == a + b';
      assert Value(a) * Pow10(|b|) == 10 * (Value(a) * Pow10(|b'|));
    }
  }

  /** %u: the shortest text of a number. */
  function Dec(n: nat): (s: string)
    ensures s != [] && AllDigits(s) && Value(s) == n
    decreases n
  {
    if n < 10 then [DigitChar(n)] else Dec(n / 10) + [DigitChar(n % 10)]
  }

  /** No zero in front, except for zero itself. */
  lemma {:induction false} DecIsShortest(n: nat)
    ensures if n == 0 then Dec(n) == "0" else Dec(n)[0] != '0'
    decreases n
  {
    if n >= 10 {
      DecIsShortest(n / 10);
      assert Dec(n)[0] == Dec(n / 10)[0];
    }
  }

  /** %0wu for a number of at most w digits: padded with zeros to w digits. */
  function Pad(n: nat, w: nat): (s: string)
    requires n < Pow10(w)
    ensures |s| == w && AllDigits(s) && Value(s) == n
    decreases w
  {
    if w == 0 then [] else Pad(n / 10, w - 1) + [DigitChar(n % 10)]
  }

  /** How many of the last w digits of n are trailing zeros. */
  function Zeros(n: nat, w: nat): (z: nat)
    ensures z <= w
    decreases w
  {
    if w == 0 || n % 10 != 0 then 0 else 1 + Zeros(n / 10, w - 1)
  }

  /** n without its last z digits. */
  function Drop(n: nat, z: nat): nat
    decreases z
  {
    if z == 0 then n else Drop(n / 10, z - 1)
  }

  lemma {:induction false} DropZeros(n: nat, w: nat)
    ensures Drop(n, Zeros(n, w)) * Pow10(Zeros(n, w)) == n
    decreases w
  {
    var z := Zeros(n, w);
    if z > 0 {
      DropZeros(n / 10, w - 1);
      assert Drop(n, z) * Pow10(z) == 10 * (Drop(n / 10, z - 1) * Pow10(z - 1));
    }
  }

  lemma {:induction false} DropBound(n: nat, w: nat, z: nat)
    requires n < Pow10(w) && z <= w
    ensures Drop(n, z) < Pow10(w - z)
    decreases z
  {
    if z > 0 {
      DropBound(n / 10, w - 1, z - 1);
    }
  }
}

/** sr_parse_rational and sr_count_digits as functions of the text, and what they mean. */
module DecimalText {
  import opened Digits
  import opened MachineInts
  import opened Wrappers

  // ----- The grammar the two functions share -----

  /** isspace in the C locale */
  predicate IsSpace(c: char) {
    c == ' ' || '\t' <= c <= '\r'
  }

  /** Space, horizontal and vertical tab, line feed, form feed, carriage return. */
  lemma SpaceCharacters(c: char)
    ensures IsSpace(c) <==> c in " \t\n\U{0B}\U{0C}\r"
  {
  }

  function AfterSpaces(s: string): string {
    if s != [] && IsSpace(s[0]) then AfterSpaces(s[1..]) else s
  }

  /** The number of digits that s begins with. */
  function DigitRun(s: string): (n: nat)
    ensures n <= |s| && AllDigits(s[..n]) && (n < |s| ==> !IsDigit(s[n]))
  {
    if s == [] || !IsDigit(s[0]) then 0
    else
      var n := 1 + DigitRun(s[1..]);
      assert s[..n] == [s[0]] + s[1..][..n - 1];
      n
  }

  function AfterSign(s: string): (bool, string) {
    if s != [] && (s[0] == '-' || s[0] == '+') then (s[0] == '-', s[1..]) else (false, s)
  }

  /** Optional spaces and sign, digits, optional point and digits; `rest` is what follows. */
  datatype Mantissa = Mantissa(negative: bool, whole: string, fraction: string, rest: string)

  /** Digits, an optional point and more digits, and what follows them. */
  function LexNumber(negative: bool, t: string): (m: Mantissa)
    ensures AllDigits(m.whole) && AllDigits(m.fraction)
  {
    var n := DigitRun(t);
    var u := t[n..];
    if u != [] && u[0] == '.' then
      var v := u[1..];
      var k := DigitRun(v);
      Mantissa(negative, t[..n], v[..k], v[k..])
    else Mantissa(negative, t[..n], [], u)
  }

  function LexMantissa(s: string): (m: Mantissa)
    ensures AllDigits(m.whole) && AllDigits(m.fraction)
  {
    var (negative, t) := AfterSign(AfterSpaces(s));
    LexNumber(negative, t)
  }

  predicate StartsExponent(s: string) {
    s != [] && (s[0] == 'E' || s[0] == 'e')
  }

  // ----- sr_parse_rational -----

  /** The exponent part of sr_parse_rational, which has to be the end of the text. */
  function LexExponent(s: string): Option<int> {
    if s == [] then Some(0)
    else if !StartsExponent(s) then None
    else
      var (negative, t) := AfterSign(s[1..]);
      var n := DigitRun(t);
      if n == 0 || Value(t[..n]) > INT64_MAX || n < |t| then None
      else Some(if negative then -(Value(t[..n]) as int) else Value(t[..n]))
  }

  /** x multiplied by ten k times, wrapping around each time. */
  function Times10(x: int64, k: nat): int64
    decreases k
  {
    if k == 0 then x else Times10(I64(x * 10), k - 1)
  }

  /** The exponent in the int32_t variable: negated after the conversion. */
  function Exponent32(e: int): int32 {
    if e < 0 then I32(-(I32(-e) as int)) else I32(e)
  }

  function Signed(negative: bool, x: int): int {
    if negative then -x else x
  }

  function Positive(x: int): nat {
    if x > 0 then x else 0
  }

  /** The arithmetic of sr_parse_rational, wrap-around included: whole part, fraction, its length n, exponent. */
  function Scale(negative: bool, whole: int64, fraction: int64, n: nat, e: int): Rat
    requires whole >= 0
  {
    var shifted := Times10(Signed(negative, whole), n % 0x1_0000_0000);
    var exponent := I32(Exponent32(e) - n % 0x1_0000_0000);
    var digits := I64(shifted + Signed(negative, fraction));
    Rat(Times10(digits, Positive(exponent)), U64(Times10(1, Positive(-(exponent as int)))))
  }

  function ParseRational(s: string): Option<Rat> {
    var m := LexMantissa(s);
    if Value(m.whole) > INT64_MAX || Value(m.fraction) > INT64_MAX then None
    else if m.whole == [] && m.fraction == [] then None
    else match LexExponent(m.rest)
      case None => None
      case Some(e) => Some(Scale(m.negative, Value(m.whole), Value(m.fraction), |m.fraction|, e))
  }

  // ----- sr_count_digits -----

  /** strtol, base 10, for a 32-bit long: value, remaining text, and whether the value was in range. */
  function Strtol(s: string): (int, string, bool) {
    var (negative, t) := AfterSign(AfterSpaces(s));
    var n := DigitRun(t);
    if n == 0 then (0, s, true)
    else
      var v: int := if negative then -(Value(t[..n]) as int) else Value(t[..n]);
      (v, t[n..], INT32_MIN <= v <= INT32_MAX)
  }

  function ReadExponent(s: string): (int, string, bool) {
    if StartsExponent(s) then Strtol(s[1..]) else (0, s, true)
  }

  function CountOf(m: Mantissa): Option<int> {
    var (e, rest, inRange) := ReadExponent(m.rest);
    if !inRange || rest != [] || (m.whole == [] && m.fraction == []) then None
    else Some(|m.fraction| - e)
  }

  function CountDigits(s: string): Option<int> {
    CountOf(LexMantissa(s))
  }

  // ----- Wrapped arithmetic is exact modulo 2^64 -----

  lemma SameWrap(x: int, y: int, k: int)
    requires x == y + k * TWO64
    ensures U64(x) == U64(y) && I64(x) == I64(y)
  {
  }

  /** Wrapping first does not matter for a multiple. */
  lemma WrapMultiple(x: int, f: int)
    ensures I64(I64(x) * f) == I64(x * f)
  {
    var k := (I64(x) - x) / TWO64;
    assert I64(x) == x + k * TWO64;
    assert I64(x) * f == x * f + (k * f) * TWO64;
    SameWrap(I64(x) * f, x * f, k * f);
  }

  lemma WrapSum(x: int, y: int)
    ensures I64(I64(x) + y) == I64(x + y)
  {
    var k := (I64(x) - x) / TWO64;
    SameWrap(I64(x) + y, x + y, k);
  }

  lemma MulAssociates(x: int, y: int, z: int)
    ensures (x * y) * z == x * (y * z)
  {
  }

  lemma {:induction false} Times10IsPower(x: int, k: nat)
    ensures Times10(I64(x), k) == I64(x * Pow10(k))
    decreases k
  {
    if k > 0 {
      WrapMultiple(x, 10);
      Times10IsPower(x * 10, k - 1);
      MulAssociates(x, 10, Pow10(k - 1));
    }
  }

  lemma InRangeIff(x: int)
    ensures I64(x) == x <==> INT64_MIN <= x <= INT64_MAX
    ensures U64(x) == x <==> 0 <= x <= UINT64_MAX
  {
  }

  lemma SignedTimes(negative: bool, x: int, y: int)
    ensures Signed(negative, x) * y == Signed(negative, x * y)
  {
  }

  lemma DenominatorIs(k: nat)
    ensures U64(Times10(1, k)) == U64(Pow10(k))
  {
    InRangeIff(1);
    Times10IsPower(1, k);
    SameWrap(I64(Pow10(k)), Pow10(k), (I64(Pow10(k)) - Pow10(k)) / TWO64);
  }

  lemma Wrap32(x: int, y: int, k: int)
    requires x == y + k * TWO32
    ensures I32(x) == I32(y)
  {
  }

  lemma Range32Iff(x: int)
    ensures I32(x) == x <==> INT32_MIN <= x <= INT32_MAX
  {
  }

  lemma Wrapped32(x: int) returns (k: int)
    ensures I32(x) == x + k * TWO32
  {
    k := (I32(x) - x) / TWO32;
  }

  /** The exponent variable holds the exponent less the fraction length, modulo 2^32. */
  lemma ExponentIs(e: int, n: nat)
    ensures I32(Exponent32(e) - n % 0x1_0000_0000) == I32(e - n)
  {
    var r := n % 0x1_0000_0000;
    var k := Wrapped32(-e);
    var l := Wrapped32(-(I32(-e) as int));
    var m := Wrapped32(e);
    Wrap32(Exponent32(e) - r, e - n, (if e < 0 then l - k else m) + n / 0x1_0000_0000);
  }

  lemma ScaledIs(v: int, exponent: int32)
    ensures Times10(I64(v), Positive(exponent)) == I64(v * Pow10(Positive(exponent)))
    ensures U64(Times10(1, Positive(-(exponent as int)))) == U64(Pow10(Positive(-(exponent as int))))
  {
    Times10IsPower(v, Positive(exponent));
    DenominatorIs(Positive(-(exponent as int)));
  }

  lemma ShiftedIs(negative: bool, whole: int64, fraction: int64, n: nat, v: int)
    requires whole >= 0
    requires v == Signed(negative, whole * Pow10(n) + fraction)
    ensures I64(Times10(Signed(negative, whole), n) + Signed(negative, fraction)) == I64(v)
  {
    InRangeIff(Signed(negative, whole));
    Times10IsPower(Signed(negative, whole), n);
    SignedTimes(negative, whole, Pow10(n));
    WrapSum(Signed(negative, whole * Pow10(n)), Signed(negative, fraction));
  }

  /** The arithmetic in terms of all significant digits, v, of the number; n is the fraction length in its variable. */
  lemma ScaleMeaning(negative: bool, whole: int64, fraction: int64, n: nat, e: int, v: int)
    requires whole >= 0
    requires v == Signed(negative, whole * Pow10(n % 0x1_0000_0000) + fraction)
    ensures Scale(negative, whole, fraction, n, e)
         == Rat(I64(v * Pow10(Positive(I32(e - n)))), U64(Pow10(Positive(-(I32(e - n) as int)))))
  {
    ExponentIs(e, n);
    ShiftedIs(negative, whole, fraction, n % 0x1_0000_0000, v);
    ScaledIs(v, I32(e - n));
  }
}
