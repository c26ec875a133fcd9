/** The same as loops over read pointers and accumulators, and the SI printer. */
module DecimalConversion {
  import opened Digits
  import opened MachineInts
  import opened Wrappers
  import opened DecimalText
  import opened DecimalNumbers

  // ----- sr_parse_rational -----

  lemma SuffixOfSuffix(s: string, a: nat, b: nat)
    requires a + b <= |s|
    ensures s[a..][b..] == s[a + b..]
  {
  }

  method SkipSpaces(str: string) returns (readptr: nat)
    ensures readptr <= |str| && str[readptr..] == AfterSpaces(str)
  {
    readptr := 0;
    while readptr < |str| && IsSpace(str[readptr])
      invariant readptr <= |str| && AfterSpaces(str[readptr..]) == AfterSpaces(str)
    {
      SuffixOfSuffix(str, readptr, 1);
      readptr := readptr + 1;
    }
  }

  method ReadSign(str: string, at: nat) returns (negative: bool, readptr: nat)
    requires at <= |str|
    ensures readptr <= |str| && (negative, str[readptr..]) == AfterSign(str[at..])
  {
    readptr := at;
    negative := false;
    if readptr < |str| && str[readptr] == '-' {
      negative := true;
      readptr := readptr + 1;
    } else if readptr < |str| && str[readptr] == '+' {
      readptr := readptr + 1;
    }
  }

  method ReadDigits(str: string, at: nat) returns (digits: string, readptr: nat)
    requires at <= |str|
    ensures readptr <= |str|
    ensures var n := DigitRun(str[at..]);
      digits == str[at..][..n] && str[readptr..] == str[at..][n..]
  {
    var n := DigitRun(str[at..]);
    digits := str[at..][..n];
    readptr := at + n;
    SuffixOfSuffix(str, at, n);
  }

  /** The part of sr_parse_rational that advances the read pointer up to the exponent. */
  method ReadMantissa(str: string) returns (m: Mantissa, readptr: nat)
    ensures m == LexMantissa(str) && readptr <= |str| && str[readptr..] == m.rest
  {
    var negative, whole, fraction;
    readptr := SkipSpaces(str);
    negative, readptr := ReadSign(str, readptr);
    whole, readptr := ReadDigits(str, readptr);
    fraction := [];
    if readptr < |str| && str[readptr] == '.' {
      SuffixOfSuffix(str, readptr, 1);
      fraction, readptr := ReadDigits(str, readptr + 1);
    }
    m := Mantissa(negative, whole, fraction, str[readptr..]);
  }

  lemma CountDown(x: int)
    ensures I32(I32(x) - 1) == I32(x - 1)
  {
  }

  /** The first scaling loop: one digit of the fraction at a time. */
  method ShiftLoop(start: int64, e: int32, len: nat) returns (integral: int64, exponent: int32)
    ensures integral == Times10(start, len) && exponent == I32(e - len)
  {
    integral, exponent := start, e;
    Range32Iff(e);
    var fractionalLen := len;
    while fractionalLen > 0
      invariant 0 <= fractionalLen <= len
      invariant Times10(integral, fractionalLen) == Times10(start, len)
      invariant exponent == I32(e - (len - fractionalLen))
    {
      CountDown(e - (len - fractionalLen));
      integral := I64(integral * 10);
      exponent := I32(exponent - 1);
      fractionalLen := fractionalLen - 1;
    }
  }

  /** The second scaling loop: what is left of a positive exponent. */
  method PowerLoop(start: int64, k: int32) returns (x: int64)
    ensures x == Times10(start, Positive(k))
  {
    x := start;
    var left := k;
    while left > 0
      invariant left == k || left >= 0
      invariant Times10(x, Positive(left)) == Times10(start, Positive(k))
      decreases left
    {
      x := I64(x * 10);
      left := left - 1;
    }
  }

  /** The arithmetic part of sr_parse_rational. */
  method ScaleLoops(negative: bool, whole: int64, fraction: int64, n: nat, e: int) returns (r: Rat)
    requires whole >= 0
    ensures r == Scale(negative, whole, fraction, n, e)
  {
    var integral, exponent := ShiftLoop(Signed(negative, whole), Exponent32(e), n % 0x1_0000_0000);
    integral := I64(integral + Signed(negative, fraction));
    integral := PowerLoop(integral, exponent);
    var denominator: int64 := 1;
    while exponent < 0
      invariant Times10(denominator, Positive(-(exponent as int)))
             == Times10(1, Positive(-(I32(Exponent32(e) - n % 0x1_0000_0000) as int)))
      decreases -(exponent as int)
    {
      denominator := I64(denominator * 10);
      exponent := exponent + 1;
    }
    r := Rat(integral, U64(denominator));
  }

  /** The exponent of sr_parse_rational, from the read pointer to the end of the text: the mark, a sign, digits. */
  method ReadExponentDigits(str: string, at: nat) returns (exponent: Option<int>)
    requires at <= |str|
    ensures exponent == LexExponent(str[at..])
  {
    if at == |str| {
      return Some(0);
    }
    if str[at] != 'E' && str[at] != 'e' {
      return None;
    }
    SuffixOfSuffix(str, at, 1);
    var negative, readptr := ReadSign(str, at + 1);
    if readptr == |str| || !IsDigit(str[readptr]) {
      return None;
    }
    var digits, endptr := ReadDigits(str, readptr);
    if Value(digits) > INT64_MAX {
      return None;
    }
    if endptr != |str| {
      return None;
    }
    return Some(if negative then -(Value(digits) as int) else Value(digits));
  }

  /** sr_parse_rational; no result stands for SR_ERR. */
  method SrParseRational(str: string) returns (r: Option<Rat>)
    ensures r == ParseRational(str)
  {
    var m, readptr := ReadMantissa(str);
    if Value(m.whole) > INT64_MAX || Value(m.fraction) > INT64_MAX {
      return None;
    }
    if m.whole == [] && m.fraction == [] {
      return None;
    }
    var e := ReadExponentDigits(str, readptr);
    if e == None {
      return None;
    }
    var rat := ScaleLoops(m.negative, Value(m.whole), Value(m.fraction), |m.fraction|, e.value);
    return Some(rat);
  }

  // ----- sr_count_digits -----

  /** A digit loop of sr_count_digits; the read pointer is the text that it points to. */
  method SkipDigits(start: string) returns (count: nat, p: string)
    ensures count == DigitRun(start) && p == start[count..]
  {
    count, p := 0, start;
    while p != [] && IsDigit(p[0])
      invariant count <= |start| && p == start[count..] && count + DigitRun(p) == DigitRun(start)
      decreases |p|
    {
      SuffixOfSuffix(start, count, 1);
      count, p := count + 1, p[1..];
    }
  }

  /** The numbers of digits before and after the point, and the rest of the text. */
  method CountMantissa(str: string) returns (integral: nat, decimal: nat, p: string)
    ensures var m := LexMantissa(str);
      integral == |m.whole| && decimal == |m.fraction| && p == m.rest
  {
    var readptr, negative;
    readptr := SkipSpaces(str);
    negative, readptr := ReadSign(str, readptr);
    integral, p := SkipDigits(str[readptr..]);
    decimal := 0;
    if p != [] && p[0] == '.' {
      decimal, p := SkipDigits(p[1..]);
    }
  }

  /** The part of sr_count_digits from the exponent on. */
  method CountExponent(integral: nat, decimal: nat, p: string, ghost m: Mantissa) returns (digits: Option<int>)
    requires integral == |m.whole| && decimal == |m.fraction| && p == m.rest
    ensures digits == CountOf(m)
  {
    var exponent, rest, inRange := 0, p, true;
    if p != [] && (p[0] == 'E' || p[0] == 'e') {
      var read := Strtol(p[1..]);
      exponent, rest, inRange := read.0, read.1, read.2;
    }
    if !inRange {
      return None;
    }
    if rest != [] || (decimal == 0 && integral == 0) {
      return None;
    }
    return Some(decimal - exponent);
  }

  /** sr_count_digits; no result stands for SR_ERR. */
  method SrCountDigits(str: string) returns (digits: Option<int>)
    ensures digits == CountDigits(str)
  {
    var integral, decimal, p := CountMantissa(str);
    digits := CountExponent(integral, decimal, p, LexMantissa(str));
  }

  // ----- sr_si_string_u64 -----

  const DIVISORS: seq<nat> := [
    1, 1_000, 1_000_000, 1_000_000_000, 1_000_000_000_000, 1_000_000_000_000_000, 1_000_000_000_000_000_000]

  const PREFIXES: seq<string> := ["", "k", "M", "G", "T", "P", "E"]

  lemma DivisorIsPower(i: nat)
    requires i < 7
    ensures DIVISORS[i] == Pow10(3 * i)
  {
    assert Pow10(3) == 1_000;
    assert Pow10(6) == 1_000_000;
    assert Pow10(9) == 1_000_000_000;
    assert Pow10(12) == 1_000_000_000_000;
    assert Pow10(15) == 1_000_000_000_000_000;
    assert Pow10(18) == 1_000_000_000_000_000_000;
  }

  function Quotient(x: nat, d: nat): nat
    requires d > 0
  {
    x / d
  }

  /** i is the first index at which the quotient has at most three digits. */
  predicate IsPrefixIndex(x: uint64, i: nat) {
    i < 7 && Quotient(x, Pow10(3 * i)) < 1000 && forall j :: 0 <= j < i ==> Quotient(x, Pow10(3 * j)) >= 1000
  }

  /** Dropping zeros and points at the end. */
  function TrimTail(s: string): string {
    if s != [] && (s[|s| - 1] == '0' || s[|s| - 1] == '.') then TrimTail(s[..|s| - 1]) else s
  }

  function Remainder(x: nat, d: nat): (r: nat)
    requires d > 0
    ensures r < d && x == Quotient(x, d) * d + r
  {
    x % d
  }

  /** The fraction behind the point: w digits without their trailing zeros, and no point without digits. */
  function FractionText(r: nat, w: nat): string
    requires r < Pow10(w)
  {
    TrimTail("." + Pad(r, w))
  }

  /** A quotient and a remainder of w digits as text. */
  function QuotientText(q: nat, r: nat, w: nat): string
    requires r < Pow10(w)
  {
    Dec(q) + if w == 0 then [] else FractionText(r, w)
  }

  /** The numeric part of the text, with prefix index i. */
  function Numeric(x: uint64, i: nat): string {
    QuotientText(Quotient(x, Pow10(3 * i)), Remainder(x, Pow10(3 * i)), 3 * i)
  }

  ghost predicate IsSiText(x: uint64, unit: Option<string>, text: string) {
    exists i: nat :: IsPrefixIndex(x, i) &&
      text == Numeric(x, i) + " " + PREFIXES[i] + (if unit.Some? then unit.value else "")
  }

  /** With the largest divisor every 64-bit number has a quotient below 1000, so the search stays in the table. */
  lemma LastIndexFits(x: uint64)
    ensures x / DIVISORS[6] < 1000
  {
    assert x / 1_000_000_000_000_000_000 < 1000;
  }

  method FindPrefixIndex(x: uint64) returns (i: nat)
    ensures IsPrefixIndex(x, i)
  {
    i := 0;
    DivisorIsPower(0);
    LastIndexFits(x);
    while x / DIVISORS[i] >= 1000
      invariant i < 7 && DIVISORS[i] == Pow10(3 * i)
      invariant forall j :: 0 <= j < i ==> Quotient(x, Pow10(3 * j)) >= 1000
      decreases 7 - i
    {
      i := i + 1;
      DivisorIsPower(i);
    }
  }

  /** The loop that drops the tail of the fraction in place: what is left is the text up to the first NUL. */
  method TrimInPlace(fract: array<char>, len: nat) returns (left: nat)
    requires len <= fract.Length
    modifies fract
    ensures left <= len && fract[..left] == TrimTail(old(fract[..len]))
    ensures forall k :: left <= k < len ==> fract[k] == '\0'
  {
    var f := len as int - 1;
    while f >= 0 && (fract[f] == '0' || fract[f] == '.')
      invariant -1 <= f < len
      invariant fract[..f + 1] == old(fract[..f + 1])
      invariant TrimTail(old(fract[..len])) == TrimTail(fract[..f + 1])
      invariant forall k :: f < k < len ==> fract[k] == '\0'
    {
      assert fract[..f + 1][..f] == fract[..f];
      fract[f] := '\0';
      f := f - 1;
    }
    left := f + 1;
  }

  /** sr_si_string_u64; `unit` may be NULL. */
  method SiString(x: uint64, unit: Option<string>) returns (text: string)
    ensures IsSiText(x, unit, text)
  {
    var unitText := if unit.Some? then unit.value else "";
    var i := FindPrefixIndex(x);
    DivisorIsPower(i);
    var quot, rest := Quotient(x, DIVISORS[i]), Remainder(x, DIVISORS[i]);
    var fract := new char[20](_ => '\0');
    var left := 0;
    if i != 0 {
      var digits := "." + Pad(rest, 3 * i);
      forall k | 0 <= k < |digits| {
        fract[k] := digits[k];
      }
      assert fract[..|digits|] == digits;
      left := TrimInPlace(fract, |digits|);
    }
    text := Dec(quot) + fract[..left] + " " + PREFIXES[i] + unitText;
  }

  // ----- Printing and parsing undo each other -----

  lemma TrimStep(s: string, c: char)
    ensures TrimTail(s + [c]) == if c == '0' || c == '.' then TrimTail(s) else s + [c]
  {
    assert (s + [c])[..|s|] == s;
  }

  lemma ZeroDigit(d: nat)
    requires d < 10
    ensures DigitChar(d) == '0' <==> d == 0
    ensures DigitChar(d) != '.'
  {
  }

  lemma FractionStep(r: nat, w: nat)
    requires w > 0 && r < Pow10(w)
    ensures FractionText(r, w) == if r % 10 == 0 then FractionText(r / 10, w - 1) else "." + Pad(r, w)
  {
    var shorter, c := "." + Pad(r / 10, w - 1), DigitChar(r % 10);
    assert "." + Pad(r, w) == shorter + [c];
    TrimStep(shorter, c);
    ZeroDigit(r % 10);
  }

  lemma NoDigitsNoPoint()
    ensures FractionText(0, 0) == []
  {
    TrimStep([], '.');
    assert [] + ['.'] == "." + Pad(0, 0);
  }

  /** A point and k digits of s, or nothing when there are no digits. */
  function PointText(s: nat, k: nat): string
    requires s < Pow10(k)
  {
    if k == 0 then [] else "." + Pad(s, k)
  }

  /** The number of digits behind the point that are printed. */
  function FractionDigits(r: nat, w: nat): nat {
    w - Zeros(r, w)
  }

  lemma PrintedFits(r: nat, w: nat)
    requires r < Pow10(w)
    ensures Drop(r, Zeros(r, w)) < Pow10(FractionDigits(r, w))
  {
    DropBound(r, w, Zeros(r, w));
  }

  function TrimmedText(r: nat, w: nat): string
    requires r < Pow10(w)
  {
    PrintedFits(r, w);
    PointText(Drop(r, Zeros(r, w)), FractionDigits(r, w))
  }

  lemma ZerosStep(r: nat, w: nat)
    requires w > 0
    ensures r % 10 == 0 ==>
      Zeros(r, w) == 1 + Zeros(r / 10, w - 1) && Drop(r, Zeros(r, w)) == Drop(r / 10, Zeros(r / 10, w - 1))
    ensures r % 10 != 0 ==> Zeros(r, w) == 0 && Drop(r, Zeros(r, w)) == r
  {
  }

  lemma TrimmedStep(r: nat, w: nat)
    requires w > 0 && r < Pow10(w)
    ensures TrimmedText(r, w) == if r % 10 == 0 then TrimmedText(r / 10, w - 1) else PointText(r, w)
  {
    ZerosStep(r, w);
  }

  lemma NothingTrimmed()
    ensures FractionText(0, 0) == TrimmedText(0, 0)
  {
    NoDigitsNoPoint();
  }

  lemma TrimPadStep(r: nat, w: nat)
    requires w > 0 && r < Pow10(w)
    requires r % 10 == 0 ==> FractionText(r / 10, w - 1) == TrimmedText(r / 10, w - 1)
    ensures FractionText(r, w) == TrimmedText(r, w)
  {
    FractionStep(r, w);
    TrimmedStep(r, w);
  }

  /** What trimming leaves of a padded number: nothing, or the point and the digits before the trailing zeros. */
  lemma {:induction false} TrimPad(r: nat, w: nat)
    requires r < Pow10(w)
    ensures FractionText(r, w) == TrimmedText(r, w)
    decreases w
  {
    if w == 0 {
      NothingTrimmed();
    } else {
      if r % 10 == 0 {
        TrimPad(r / 10, w - 1);
      }
      TrimPadStep(r, w);
    }
  }

  /** Digits with an optional point and more digits, as the printer writes them. */
  function Plain(quot: nat, s: nat, k: nat): string
    requires s < Pow10(k)
  {
    Dec(quot) + PointText(s, k)
  }

  /** The same as a number that is written. */
  function PlainParts(quot: nat, s: nat, k: nat): (w: Written)
    requires s < Pow10(k)
    ensures WellFormed(w)
  {
    Written([], NoSign, Dec(quot), k > 0, Pad(s, k), None)
  }

  lemma PlainIsText(quot: nat, s: nat, k: nat)
    requires s < Pow10(k)
    ensures Text(PlainParts(quot, s, k)) == Plain(quot, s, k)
  {
    var w := PlainParts(quot, s, k);
    assert FractionPart(w.point, w.fraction) == PointText(s, k);
    assert Text(w) == w.whole + FractionPart(w.point, w.fraction);
  }

  /** The digits quot and then k digits of s, as one number. */
  function Joined(quot: nat, s: nat, k: nat): nat {
    quot * Pow10(k) + s
  }

  lemma PowerFits(k: nat)
    requires k <= 18
    ensures Pow10(k) <= INT64_MAX && Pow10(k) <= UINT64_MAX
  {
    DivisorIsPower(6);
    Pow10Monotone(k, 18);
  }

  lemma PlainValue(quot: nat, s: nat, k: nat)
    requires s < Pow10(k) && k <= 18
    ensures var w := PlainParts(quot, s, k);
      ShiftedDigits(w) == Joined(quot, s, k) && Shift(w) == -(k as int)
  {
    assert k % 0x1_0000_0000 == k;
  }

  lemma PlainResult(v: nat, k: nat)
    requires k <= 18
    ensures Pow10(k) <= UINT64_MAX && ScaledResult(v, I32(-(k as int))) == Rat(I64(v), Pow10(k))
  {
    PowerFits(k);
    Range32Iff(-(k as int));
    InRangeIff(Pow10(k));
  }

  lemma PlainBounded(quot: nat, s: nat, k: nat)
    requires quot < 1000 && k <= 18 && s < Pow10(k)
    ensures Bounded(PlainParts(quot, s, k))
  {
    PowerFits(k);
  }

  lemma PlainShape(quot: nat, s: nat, k: nat) returns (w: Written)
    requires quot < 1000 && k <= 18 && s < Pow10(k)
    ensures WellFormed(w) && Bounded(w) && Text(w) == Plain(quot, s, k)
    ensures ShiftedDigits(w) == Joined(quot, s, k) && Shift(w) == -(k as int)
  {
    w := PlainParts(quot, s, k);
    PlainBounded(quot, s, k);
    PlainIsText(quot, s, k);
    PlainValue(quot, s, k);
  }

  lemma ParsesAs(w: Written, text: string, v: int, e: int)
    requires WellFormed(w) && Bounded(w) && Text(w) == text && ShiftedDigits(w) == v && Shift(w) == e
    ensures ParseRational(text) == Some(ScaledResult(v, I32(e)))
  {
    ParseMeaning(w);
  }

  /** What sr_parse_rational makes of such text. */
  lemma PlainParses(quot: nat, s: nat, k: nat)
    requires quot < 1000 && k <= 18 && s < Pow10(k)
    ensures Pow10(k) <= UINT64_MAX
    ensures ParseRational(Plain(quot, s, k)) == Some(Rat(I64(Joined(quot, s, k)), Pow10(k)))
  {
    var w := PlainShape(quot, s, k);
    PlainResult(Joined(quot, s, k), k);
    ParsesAs(w, Plain(quot, s, k), Joined(quot, s, k), -(k as int));
  }

  /** All printed digits as one number. */
  function Significant(q: nat, r: nat, w: nat): nat {
    Joined(q, Drop(r, Zeros(r, w)), FractionDigits(r, w))
  }

  lemma SplitSum(q: int, a: int, s: int, b: int)
    ensures (q * a + s) * b == q * (a * b) + s * b
  {
  }

  lemma MulRearranges(p: int, a: int, b: int)
    ensures p * (a * b) == (p * b) * a
  {
  }

  /** The dropped zeros are all that is missing. */
  lemma SignificantTimesPower(q: nat, r: nat, w: nat, x: nat)
    requires x == q * Pow10(w) + r
    ensures Significant(q, r, w) * Pow10(w) == x * Pow10(FractionDigits(r, w))
  {
    var k, z := FractionDigits(r, w), Zeros(r, w);
    DropZeros(r, w);
    Pow10Sum(k, z);
    SplitSum(q, Pow10(k), Drop(r, z), Pow10(z));
    assert Significant(q, r, w) * Pow10(z) == x;
    MulRearranges(Significant(q, r, w), Pow10(k), Pow10(z));
  }

  lemma TrimmedIs(r: nat, w: nat, s: nat, k: nat)
    requires r < Pow10(w) && s == Drop(r, Zeros(r, w)) && k == FractionDigits(r, w)
    ensures s < Pow10(k) && TrimmedText(r, w) == PointText(s, k)
  {
    PrintedFits(r, w);
  }

  lemma FractionIsPointText(r: nat, w: nat, s: nat, k: nat)
    requires r < Pow10(w) && s == Drop(r, Zeros(r, w)) && k == FractionDigits(r, w)
    ensures s < Pow10(k) && FractionText(r, w) == PointText(s, k)
  {
    TrimPad(r, w);
    TrimmedIs(r, w, s, k);
  }

  lemma QuotientTextIs(q: nat, r: nat, w: nat)
    requires r < Pow10(w)
    ensures QuotientText(q, r, w) == Dec(q) + FractionText(r, w)
  {
    if w == 0 {
      NoDigitsNoPoint();
    }
  }

  lemma PrintedIsPlain(q: nat, r: nat, w: nat, s: nat, k: nat)
    requires r < Pow10(w) && s == Drop(r, Zeros(r, w)) && k == FractionDigits(r, w)
    ensures s < Pow10(k) && QuotientText(q, r, w) == Plain(q, s, k)
  {
    FractionIsPointText(r, w, s, k);
    QuotientTextIs(q, r, w);
  }

  /** sr_parse_rational on a printed quotient q and remainder r of w digits. */
  lemma PrintedParses(q: nat, r: nat, w: nat)
    requires q < 1000 && w <= 18 && r < Pow10(w)
    ensures Pow10(FractionDigits(r, w)) <= UINT64_MAX
    ensures ParseRational(QuotientText(q, r, w)) == Some(Rat(I64(Significant(q, r, w)), Pow10(FractionDigits(r, w))))
  {
    var s, k := Drop(r, Zeros(r, w)), FractionDigits(r, w);
    PrintedIsPlain(q, r, w, s, k);
    PlainParses(q, s, k);
  }

  lemma SameProductIff(a: int, b: int, f: int)
    requires f > 0
    ensures a * f == b * f <==> a == b
  {
    if a * f == b * f {
      assert (a - b) * f == 0;
    }
  }

  lemma MulMonotone(x: int, y: int, z: int)
    requires x >= 0 && y <= z
    ensures x * y <= x * z
  {
  }

  lemma SmallerFactor(a: int, f: int, b: int, g: int)
    requires 0 < g <= f && b >= 0 && a * f == b * g
    ensures a <= b
  {
    MulMonotone(b, g, f);
    if a > b {
      MulMonotone(f, b + 1, a);
      assert false;
    }
  }

  /** The parsed value, scaled by ten to the w, is the number if and only if the printed digits fit int64_t. */
  lemma ScaledBackIff(q: nat, r: nat, w: nat, x: nat, v: Rat)
    requires x == q * Pow10(w) + r
    requires v.p == I64(Significant(q, r, w)) && v.q == Pow10(FractionDigits(r, w))
    ensures v.p * Pow10(w) == x * v.q <==> Significant(q, r, w) <= INT64_MAX
    ensures x <= INT64_MAX ==> Significant(q, r, w) <= INT64_MAX
  {
    SignificantTimesPower(q, r, w, x);
    InRangeIff(Significant(q, r, w));
    SameProductIff(v.p, Significant(q, r, w), Pow10(w));
    Pow10Monotone(FractionDigits(r, w), w);
    SmallerFactor(Significant(q, r, w), Pow10(w), x, Pow10(FractionDigits(r, w)));
  }

  /** All printed digits of x as one number. */
  function PrintedDigits(x: uint64, i: nat): nat {
    Significant(Quotient(x, Pow10(3 * i)), Remainder(x, Pow10(3 * i)), 3 * i)
  }

  /**
   Parsing the printed text of a 64-bit number gives back the number, scaled by its prefix, if and
   only if the printed digits fit int64_t, and so for every number up to INT64_MAX.
   */
  lemma PrintParseRoundTrip(x: uint64, i: nat)
    requires IsPrefixIndex(x, i)
    ensures ParseRational(Numeric(x, i)).Some?
    ensures var v := ParseRational(Numeric(x, i)).value;
      v.q > 0 && (v.p * Pow10(3 * i) == x * v.q <==> PrintedDigits(x, i) <= INT64_MAX)
    ensures x <= INT64_MAX ==> PrintedDigits(x, i) <= INT64_MAX
  {
    var d := Pow10(3 * i);
    PrintedParses(Quotient(x, d), Remainder(x, d), 3 * i);
    ScaledBackIff(Quotient(x, d), Remainder(x, d), 3 * i, x, ParseRational(Numeric(x, i)).value);
  }

  // ----- The printed text, spelled out -----

  lemma QuotientBelow(x: nat, d: nat)
    requires d > 0
    ensures Quotient(x, d) < 1000 <==> x < 1000 * d
  {
    var q, r := Quotient(x, d), Remainder(x, d);
    if q < 1000 {
      MulMonotone(d, q + 1, 1000);
      assert x < (q + 1) * d;
    } else {
      MulMonotone(d, 1000, q);
    }
  }

  lemma ThousandTimes(n: nat)
    ensures 1000 * Pow10(n) == Pow10(n + 3)
  {
    assert Pow10(n + 3) == 10 * Pow10(n + 2) && Pow10(n + 2) == 10 * Pow10(n + 1) && Pow10(n + 1) == 10 * Pow10(n);
  }

  /** The prefix is the one with the greatest power of a thousand that is not above the number. */
  lemma PrefixIndexIff(x: uint64, i: nat)
    ensures IsPrefixIndex(x, i) <==> i < 7 && x < Pow10(3 * i + 3) && (i == 0 || Pow10(3 * i) <= x)
  {
    QuotientBelow(x, Pow10(3 * i));
    ThousandTimes(3 * i);
    if i > 0 {
      QuotientBelow(x, Pow10(3 * (i - 1)));
      ThousandTimes(3 * (i - 1));
      if Pow10(3 * i) <= x {
        forall j | 0 <= j < i ensures Quotient(x, Pow10(3 * j)) >= 1000 {
          QuotientBelow(x, Pow10(3 * j));
          ThousandTimes(3 * j);
          Pow10Monotone(3 * j + 3, 3 * i);
        }
      }
    }
  }

  lemma PrefixUnique(x: uint64, i: nat, j: nat)
    requires IsPrefixIndex(x, i) && IsPrefixIndex(x, j)
    ensures i == j
  {
  }

  /** Exactly one text is printed. */
  lemma SiTextUnique(x: uint64, unit: Option<string>, a: string, b: string)
    requires IsSiText(x, unit, a) && IsSiText(x, unit, b)
    ensures a == b
  {
    var i: nat :| IsPrefixIndex(x, i) && a == Numeric(x, i) + " " + PREFIXES[i] + (if unit.Some? then unit.value else "");
    var j: nat :| IsPrefixIndex(x, j) && b == Numeric(x, j) + " " + PREFIXES[j] + (if unit.Some? then unit.value else "");
    PrefixUnique(x, i, j);
  }

  /** The prefixes: kilo, mega, giga, tera, peta, exa. */
  function PrefixOf(i: nat): string {
    if i == 1 then "k" else if i == 2 then "M" else if i == 3 then "G"
    else if i == 4 then "T" else if i == 5 then "P" else if i == 6 then "E" else ""
  }

  lemma {:induction false} NothingBehind(w: nat)
    ensures Zeros(0, w) == w && TrimmedText(0, w) == []
  {
    if w > 0 {
      NothingBehind(w - 1);
    }
  }

  lemma WholeNumeric(q: nat, w: nat)
    ensures QuotientText(q, 0, w) == Dec(q)
  {
    NothingBehind(w);
    QuotientTextIs(q, 0, w);
    TrimPad(0, w);
    assert Dec(q) + [] == Dec(q);
  }

  lemma ExactQuotient(n: nat, d: nat)
    requires d > 0
    ensures Quotient(n * d, d) == n && Remainder(n * d, d) == 0
  {
    var q, r := Quotient(n * d, d), Remainder(n * d, d);
    assert n * d == q * d + r;
    if q < n {
      MulMonotone(d, q + 1, n);
    } else if q > n {
      MulMonotone(d, n + 1, q);
    }
  }

  lemma MultipleBounds(n: nat, d: nat)
    requires 1 <= n < 1000 && d > 0
    ensures d <= n * d < 1000 * d
  {
    MulMonotone(d, 1, n);
    MulMonotone(d, n + 1, 1000);
  }

  lemma WholeMultiple(n: nat, i: nat, x: uint64)
    requires i < 7 && 1 <= n < 1000 && x == n * Pow10(3 * i)
    ensures IsPrefixIndex(x, i)
  {
    MultipleBounds(n, Pow10(3 * i));
    ThousandTimes(3 * i);
    PrefixIndexIff(x, i);
  }

  lemma WholeMultipleText(n: nat, i: nat, x: uint64)
    requires x == n * Pow10(3 * i)
    ensures Numeric(x, i) == Dec(n)
  {
    ExactQuotient(n, Pow10(3 * i));
    WholeNumeric(n, 3 * i);
  }

  lemma PrefixIsListed(i: nat)
    requires i < 7
    ensures PREFIXES[i] == PrefixOf(i)
  {
  }

  /** A number of thousands, millions and so on is printed with its prefix, and the unit behind it. */
  lemma PrefixPrinted(n: nat, i: nat, x: uint64, unit: string)
    requires i < 7 && 1 <= n < 1000 && x == n * Pow10(3 * i)
    ensures IsSiText(x, Some(unit), Dec(n) + " " + PrefixOf(i) + unit)
    ensures IsSiText(x, None, Dec(n) + " " + PrefixOf(i))
  {
    WholeMultiple(n, i, x);
    WholeMultipleText(n, i, x);
    PrefixIsListed(i);
    assert Dec(n) + " " + PrefixOf(i) + "" == Dec(n) + " " + PrefixOf(i);
  }

  lemma FiveHundredths()
    ensures Zeros(500, 3) == 2 && Drop(500, 2) == 5
  {
    assert Zeros(5, 1) == 0 && Zeros(50, 2) == 1;
    assert Drop(50, 1) == 5;
  }

  lemma HalfText()
    ensures FractionText(500, 3) == "." + Pad(5, 1)
  {
    FiveHundredths();
    FractionIsPointText(500, 3, 5, 1);
  }

  lemma OneDigit()
    ensures Pad(5, 1) == Dec(5)
  {
  }

  lemma KiloText()
    ensures Numeric(31500, 1) == Dec(31) + "." + Dec(5)
  {
    ThousandTimes(0);
    assert Quotient(31500, 1000) == 31 && Remainder(31500, 1000) == 500;
    HalfText();
    OneDigit();
    assert Dec(31) + ("." + Dec(5)) == Dec(31) + "." + Dec(5);
  }

  /** The documented example: 31500 with the unit W is 31.5 kW. */
  lemma DocumentedExample()
    ensures IsSiText(31500, Some("W"), Dec(31) + "." + Dec(5) + " kW")
  {
    ThousandTimes(0);
    ThousandTimes(3);
    PrefixIndexIff(31500, 1);
    KiloText();
    var numeric := Dec(31) + "." + Dec(5);
    assert numeric + " " + "k" + "W" == numeric + " kW";
  }
}
