/** Decimal numbers as they are written, and what sr_parse_rational and sr_count_digits make of them. */
module DecimalNumbers {
  import opened Digits
  import opened MachineInts
  import opened Wrappers
  import opened DecimalText

  // ----- Decimal numbers as they are written -----

  datatype Sign = NoSign | Plus | Minus

  datatype Exponent = Exponent(mark: char, sign: Sign, digits: string)

  /** A decimal number as a writer puts it together. */
  datatype Written = Written(
    spaces: string, sign: Sign, whole: string, point: bool, fraction: string, exponent: Option<Exponent>)

  predicate AllSpaces(s: string) {
    forall c <- s :: IsSpace(c)
  }

  predicate WellFormedExponent(x: Exponent) {
    (x.mark == 'e' || x.mark == 'E') && x.digits != [] && AllDigits(x.digits)
  }

  predicate WellFormed(w: Written) {
    && AllSpaces(w.spaces) && AllDigits(w.whole) && AllDigits(w.fraction)
    && (!w.point ==> w.fraction == [])
    && (w.whole != [] || w.fraction != [])
    && (w.exponent.Some? ==> WellFormedExponent(w.exponent.value))
  }

  function SignText(sign: Sign): string {
    match sign
    case NoSign => ""
    case Plus => "+"
    case Minus => "-"
  }

  function ExponentText(exponent: Option<Exponent>): string {
    match exponent
    case None => ""
    case Some(x) => [x.mark] + (SignText(x.sign) + x.digits)
  }

  function FractionPart(point: bool, fraction: string): string {
    if point then "." + fraction else ""
  }

  function Text(w: Written): string {
    w.spaces + (SignText(w.sign) + (w.whole + (FractionPart(w.point, w.fraction) + ExponentText(w.exponent))))
  }

  /** The number that is written: signed digits times ten to the power of exponent less fraction length. */
  function ExponentValue(w: Written): int
    requires WellFormed(w)
  {
    match w.exponent
    case None => 0
    case Some(x) => Signed(x.sign.Minus?, Value(x.digits))
  }

  function SignedDigits(w: Written): int
    requires WellFormed(w)
  {
    ValueConcat(w.whole, w.fraction);
    Signed(w.sign.Minus?, Value(w.whole + w.fraction))
  }

  /** The power of ten that the digits are multiplied with. */
  function Shift(w: Written): int
    requires WellFormed(w)
  {
    ExponentValue(w) - |w.fraction|
  }

  /** v times ten to the power of k, as a fraction without wrap-around. */
  function Over(v: int, k: int): int {
    v * Pow10(Positive(k))
  }

  function Under(k: int): nat {
    Pow10(Positive(-k))
  }

  function Numerator(w: Written): int
    requires WellFormed(w)
  {
    Over(SignedDigits(w), Shift(w))
  }

  function Denominator(w: Written): nat
    requires WellFormed(w)
  {
    Under(Shift(w))
  }

  /** The three numbers that are converted fit int64_t. */
  predicate Bounded(w: Written)
    requires WellFormed(w)
  {
    && Value(w.whole) <= INT64_MAX && Value(w.fraction) <= INT64_MAX
    && (w.exponent.Some? ==> Value(w.exponent.value.digits) <= INT64_MAX)
  }

  // ----- Reading what is written -----

  lemma {:induction false} DigitRunOf(a: string, tail: string)
    requires AllDigits(a) && (tail == [] || !IsDigit(tail[0]))
    ensures DigitRun(a + tail) == |a| && (a + tail)[..|a|] == a && (a + tail)[|a|..] == tail
  {
    if a == [] {
      assert a + tail == tail;
    } else {
      assert (a + tail)[1..] == a[1..] + tail;
      DigitRunOf(a[1..], tail);
    }
  }

  lemma {:induction false} SpacesSkipped(spaces: string, tail: string)
    requires AllSpaces(spaces) && (tail == [] || !IsSpace(tail[0]))
    ensures AfterSpaces(spaces + tail) == tail
  {
    if spaces == [] {
      assert spaces + tail == tail;
    } else {
      assert (spaces + tail)[1..] == spaces[1..] + tail;
      SpacesSkipped(spaces[1..], tail);
    }
  }

  lemma SignRead(sign: Sign, tail: string)
    requires tail == [] || (tail[0] != '-' && tail[0] != '+')
    ensures AfterSign(SignText(sign) + tail) == (sign.Minus?, tail)
  {
    if sign.NoSign? {
      assert "" + tail == tail;
    } else {
      assert (SignText(sign) + tail)[1..] == tail;
    }
  }

  lemma FractionRead(negative: bool, whole: string, fraction: string, rest: string)
    requires AllDigits(whole) && AllDigits(fraction) && (rest == [] || !IsDigit(rest[0]))
    ensures LexNumber(negative, whole + ("." + fraction + rest)) == Mantissa(negative, whole, fraction, rest)
  {
    var tail := "." + fraction + rest;
    assert tail[1..] == fraction + rest;
    DigitRunOf(fraction, rest);
    DigitRunOf(whole, tail);
  }

  lemma WholeRead(negative: bool, whole: string, rest: string)
    requires AllDigits(whole) && (rest == [] || (!IsDigit(rest[0]) && rest[0] != '.'))
    ensures LexNumber(negative, whole + rest) == Mantissa(negative, whole, [], rest)
  {
    DigitRunOf(whole, rest);
  }

  lemma NumberRead(negative: bool, whole: string, point: bool, fraction: string, rest: string)
    requires AllDigits(whole) && AllDigits(fraction) && (!point ==> fraction == [])
    requires rest == [] || (!IsDigit(rest[0]) && rest[0] != '.')
    ensures LexNumber(negative, whole + (FractionPart(point, fraction) + rest)) == Mantissa(negative, whole, fraction, rest)
  {
    if point {
      FractionRead(negative, whole, fraction, rest);
    } else {
      WholeRead(negative, whole, rest);
      assert "" + rest == rest;
    }
  }

  lemma ExponentStart(exponent: Option<Exponent>)
    requires exponent.Some? ==> WellFormedExponent(exponent.value)
    ensures var rest := ExponentText(exponent);
      rest == [] || (!IsDigit(rest[0]) && rest[0] != '.')
  {
  }

  /** The first character of a number is a digit or the point. */
  lemma NumberStart(w: Written)
    requires WellFormed(w)
    ensures var tail := w.whole + (FractionPart(w.point, w.fraction) + ExponentText(w.exponent));
      tail != [] && (IsDigit(tail[0]) || tail[0] == '.')
  {
    if w.whole != [] {
      assert w.whole[0] in w.whole;
    }
  }

  lemma SignedStart(sign: Sign, tail: string)
    requires tail != [] && (IsDigit(tail[0]) || tail[0] == '.')
    ensures var t := SignText(sign) + tail; t != [] && !IsSpace(t[0])
  {
  }

  /** The lexer returns the parts that were written. */
  lemma MantissaRead(w: Written)
    requires WellFormed(w)
    ensures LexMantissa(Text(w)) == Mantissa(w.sign.Minus?, w.whole, w.fraction, ExponentText(w.exponent))
  {
    var tail := w.whole + (FractionPart(w.point, w.fraction) + ExponentText(w.exponent));
    NumberStart(w);
    SignedStart(w.sign, tail);
    SpacesSkipped(w.spaces, SignText(w.sign) + tail);
    SignRead(w.sign, tail);
    ExponentStart(w.exponent);
    NumberRead(w.sign.Minus?, w.whole, w.point, w.fraction, ExponentText(w.exponent));
  }

  lemma ExponentParts(x: Exponent)
    requires WellFormedExponent(x)
    ensures var rest := ExponentText(Some(x));
      && StartsExponent(rest) && AfterSign(rest[1..]) == (x.sign.Minus?, x.digits)
      && AfterSpaces(rest[1..]) == rest[1..]
      && DigitRun(x.digits) == |x.digits| && x.digits[..|x.digits|] == x.digits && x.digits[|x.digits|..] == []
  {
    var rest := ExponentText(Some(x));
    assert rest[1..] == SignText(x.sign) + x.digits;
    assert x.digits[0] in x.digits;
    SignRead(x.sign, x.digits);
    DigitRunOf(x.digits, []);
    assert x.digits + [] == x.digits;
    SignedStart(x.sign, x.digits);
  }

  /** The exponent as sr_parse_rational reads it. */
  lemma ExponentRead(w: Written)
    requires WellFormed(w)
    ensures LexExponent(ExponentText(w.exponent)) ==
      if w.exponent.Some? && Value(w.exponent.value.digits) > INT64_MAX then None else Some(ExponentValue(w))
  {
    if w.exponent.Some? {
      ExponentParts(w.exponent.value);
    }
  }

  /** The exponent as sr_count_digits reads it. */
  lemma ExponentCounted(w: Written)
    requires WellFormed(w)
    ensures ReadExponent(ExponentText(w.exponent)) ==
      (ExponentValue(w), [], INT32_MIN <= ExponentValue(w) <= INT32_MAX)
  {
    if w.exponent.Some? {
      ExponentParts(w.exponent.value);
    }
  }

  // ----- Writing what is read -----

  lemma {:induction false} SpacesBefore(s: string) returns (spaces: string)
    ensures AllSpaces(spaces) && s == spaces + AfterSpaces(s)
  {
    if s != [] && IsSpace(s[0]) {
      var rest := SpacesBefore(s[1..]);
      spaces := [s[0]] + rest;
    } else {
      spaces := [];
    }
  }

  lemma SignBefore(t: string) returns (sign: Sign)
    ensures t == SignText(sign) + AfterSign(t).1
  {
    if t != [] && t[0] == '-' {
      sign := Minus;
    } else if t != [] && t[0] == '+' {
      sign := Plus;
    } else {
      sign := NoSign;
    }
  }

  lemma NumberWritten(negative: bool, t: string) returns (point: bool)
    ensures var m := LexNumber(negative, t);
      t == m.whole + (FractionPart(point, m.fraction) + m.rest) && (!point ==> m.fraction == [])
  {
    var n := DigitRun(t);
    var u := t[n..];
    point := u != [] && u[0] == '.';
    if point {
      var v := u[1..];
      var k := DigitRun(v);
      assert u == "." + v[..k] + v[k..];
    }
  }

  /** An exponent that either function accepts was written as one, unless it is a mark with a space or nothing behind it. */
  lemma ExponentWritten(rest: string) returns (exponent: Option<Exponent>)
    requires rest != [] ==>
      && StartsExponent(rest)
      && var t := AfterSign(rest[1..]).1; t != [] && DigitRun(t) == |t|
    ensures rest == ExponentText(exponent) && (exponent.Some? ==> WellFormedExponent(exponent.value))
  {
    if rest == [] {
      exponent := None;
    } else {
      var sign := SignBefore(rest[1..]);
      var t := AfterSign(rest[1..]).1;
      assert t[..|t|] == t;
      exponent := Some(Exponent(rest[0], sign, t));
    }
  }

  lemma TextWritten(s: string, exponent: Option<Exponent>) returns (w: Written)
    requires var m := LexMantissa(s);
      && m.rest == ExponentText(exponent) && (exponent.Some? ==> WellFormedExponent(exponent.value))
      && (m.whole != [] || m.fraction != [])
    ensures WellFormed(w) && Text(w) == s
  {
    var m := LexMantissa(s);
    var spaces := SpacesBefore(s);
    var sign := SignBefore(AfterSpaces(s));
    var (negative, t) := AfterSign(AfterSpaces(s));
    var point := NumberWritten(negative, t);
    w := Written(spaces, sign, m.whole, point, m.fraction, exponent);
  }

  lemma ExponentIsWritten(rest: string)
    requires LexExponent(rest).Some?
    ensures rest != [] ==>
      && StartsExponent(rest)
      && var t := AfterSign(rest[1..]).1; t != [] && DigitRun(t) == |t|
  {
  }

  // ----- What is accepted, and what it is taken for -----

  /** Of the numbers that are written, exactly those are accepted whose three parts fit int64_t. */
  lemma WrittenAcceptedIff(w: Written)
    requires WellFormed(w)
    ensures ParseRational(Text(w)).Some? <==> Bounded(w)
  {
    MantissaRead(w);
    ExponentRead(w);
  }

  ghost predicate IsBoundedNumber(s: string) {
    exists w :: WellFormed(w) && Bounded(w) && Text(w) == s
  }

  lemma AcceptedIsWritten(s: string) returns (w: Written)
    requires ParseRational(s).Some?
    ensures WellFormed(w) && Text(w) == s && Bounded(w)
  {
    var rest := LexMantissa(s).rest;
    ExponentIsWritten(rest);
    var exponent := ExponentWritten(rest);
    w := TextWritten(s, exponent);
    WrittenAcceptedIff(w);
  }

  /** sr_parse_rational accepts a text if and only if it is a written decimal number whose three parts fit int64_t. */
  lemma AcceptedIff(s: string)
    ensures ParseRational(s).Some? <==> IsBoundedNumber(s)
  {
    if ParseRational(s).Some? {
      var w := AcceptedIsWritten(s);
    }
    if IsBoundedNumber(s) {
      var w :| WellFormed(w) && Bounded(w) && Text(w) == s;
      WrittenAcceptedIff(w);
    }
  }

  /** The digits as the parser adds them up: the fraction length is kept in 32 bits. */
  function ShiftedDigits(w: Written): int
    requires WellFormed(w)
  {
    Signed(w.sign.Minus?, Value(w.whole) * Pow10(|w.fraction| % 0x1_0000_0000) + Value(w.fraction))
  }

  /** Digits and a power of ten as a fraction, modulo 2^64. */
  function ScaledResult(v: int, e: int32): Rat {
    Rat(I64(Over(v, e)), U64(Under(e)))
  }

  lemma ParsedFrom(s: string, m: Mantissa, e: int)
    requires LexMantissa(s) == m && LexExponent(m.rest) == Some(e) && AllDigits(m.whole) && AllDigits(m.fraction)
    requires Value(m.whole) <= INT64_MAX && Value(m.fraction) <= INT64_MAX && (m.whole != [] || m.fraction != [])
    ensures ParseRational(s) == Some(Scale(m.negative, Value(m.whole), Value(m.fraction), |m.fraction|, e))
  {
  }

  /** What the scaling loops make of the parts. */
  function ScaleOf(w: Written): Rat
    requires WellFormed(w) && Bounded(w)
  {
    Scale(w.sign.Minus?, Value(w.whole), Value(w.fraction), |w.fraction|, ExponentValue(w))
  }

  lemma ParsesToScale(w: Written)
    requires WellFormed(w) && Bounded(w)
    ensures ParseRational(Text(w)) == Some(ScaleOf(w))
  {
    MantissaRead(w);
    ExponentRead(w);
    ParsedFrom(Text(w), Mantissa(w.sign.Minus?, w.whole, w.fraction, ExponentText(w.exponent)), ExponentValue(w));
  }

  lemma ScaleOfIs(w: Written)
    requires WellFormed(w) && Bounded(w)
    ensures ScaleOf(w) == ScaledResult(ShiftedDigits(w), I32(Shift(w)))
  {
    ScaleMeaning(w.sign.Minus?, Value(w.whole), Value(w.fraction), |w.fraction|, ExponentValue(w), ShiftedDigits(w));
  }

  /** What is accepted is the written number, with its power of ten modulo 2^32, modulo 2^64. */
  lemma ParseMeaning(w: Written)
    requires WellFormed(w) && Bounded(w)
    ensures ParseRational(Text(w)) == Some(ScaledResult(ShiftedDigits(w), I32(Shift(w))))
  {
    ParsesToScale(w);
    ScaleOfIs(w);
  }

  lemma {:induction false} Pow10Monotone(a: nat, b: nat)
    requires a <= b
    ensures Pow10(a) <= Pow10(b)
    decreases b - a
  {
    if a < b {
      Pow10Monotone(a + 1, b);
    }
  }

  lemma LargePower(k: nat)
    requires k >= 20
    ensures Pow10(k) > UINT64_MAX
  {
    Pow10Sum(10, 10);
    assert Pow10(5) == 100_000;
    Pow10Sum(5, 5);
    Pow10Monotone(20, k);
  }

  lemma NegatedProduct(v: int, f: int)
    ensures (-v) * f == -(v * f) && f * (-v) == -(v * f) && v * f == f * v
  {
  }

  lemma MulAtLeastOnce(v: int, f: int)
    requires v > 0 && f > 0
    ensures v * f >= f
  {
  }

  lemma LargeMultiple(v: int, k: nat)
    requires k >= 20 && INT64_MIN <= v * Pow10(k) <= INT64_MAX
    ensures v == 0
  {
    LargePower(k);
    NegatedProduct(v, Pow10(k));
    if v > 0 {
      MulAtLeastOnce(v, Pow10(k));
    } else if v < 0 {
      MulAtLeastOnce(-v, Pow10(k));
    }
  }

  lemma SmallDigits(v: int, k: nat)
    requires INT64_MIN <= v * Pow10(k) <= INT64_MAX
    ensures INT64_MIN <= v <= INT64_MAX
  {
    NegatedProduct(v, Pow10(k));
    if v > 0 {
      MulAtLeastOnce(Pow10(k), v);
    } else if v < 0 {
      MulAtLeastOnce(Pow10(k), -v);
    }
  }

  /** A digit in front of a long fraction makes the number too large. */
  lemma LongFraction(v: int, whole: nat, fraction: nat, n: nat)
    requires v == whole * Pow10(n) + fraction && n >= 20 && whole > 0
    ensures v > UINT64_MAX
  {
    LargePower(n);
    MulAtLeastOnce(whole, Pow10(n));
  }

  /** A numerator in range has its digits added up correctly, even from a fraction whose length does not fit 32 bits. */
  lemma DigitsAddUp(w: Written)
    requires WellFormed(w) && INT64_MIN <= Numerator(w) <= INT64_MAX
    ensures ShiftedDigits(w) == SignedDigits(w)
  {
    ValueConcat(w.whole, w.fraction);
    if |w.fraction| >= 0x1_0000_0000 {
      if Value(w.whole) > 0 {
        LongFraction(Value(w.whole + w.fraction), Value(w.whole), Value(w.fraction), |w.fraction|);
        SmallDigits(SignedDigits(w), Positive(Shift(w)));
        assert false;
      }
    }
  }

  lemma EvenWraps(h: int)
    ensures U64(2 * h) != 1
  {
  }

  lemma PowerIsNotOne(k: nat)
    requires k > 0
    ensures U64(Pow10(k)) != 1
  {
    EvenWraps(5 * Pow10(k - 1));
  }

  /** The two numbers of the result are those of the written number, however large these are. */
  predicate IsExact(w: Written)
    requires WellFormed(w)
  {
    match ParseRational(Text(w))
    case None => false
    case Some(r) => r.p == Numerator(w) && r.q == Denominator(w)
  }

  /**
   Numerator and denominator fit the struct, and the power of ten is not too large for its variable, or
   harmless if so.
   */
  predicate FitsStruct(v: int, k: int) {
    && INT64_MIN <= Over(v, k) <= INT64_MAX && Under(k) <= UINT64_MAX
    && (k <= INT32_MAX || I32(k) >= 0)
  }

  lemma ScaledIsExact(v: int, k: int)
    requires FitsStruct(v, k)
    ensures ScaledResult(v, I32(k)) == Rat(Over(v, k), Under(k))
  {
    if k <= INT32_MAX {
      if k < -19 {
        LargePower(-k);
      }
      Range32Iff(k);
      InRangeIff(Over(v, k));
      InRangeIff(Under(k));
    } else {
      LargeMultiple(v, k);
      InRangeIff(0);
      InRangeIff(1);
    }
  }

  lemma WrappedIsWrong(v: int, k: int)
    requires k > INT32_MAX && I32(k) < 0
    ensures ScaledResult(v, I32(k)).q != Under(k)
  {
    PowerIsNotOne(-(I32(k) as int));
  }

  lemma ScaledIsExactIff(shifted: int, v: int, k: int)
    requires INT64_MIN <= Over(v, k) <= INT64_MAX ==> shifted == v
    ensures var r := ScaledResult(shifted, I32(k));
      r.p == Over(v, k) && r.q == Under(k) <==> FitsStruct(v, k)
  {
    if FitsStruct(v, k) {
      ScaledIsExact(v, k);
    } else if k > INT32_MAX && I32(k) < 0 {
      WrappedIsWrong(shifted, k);
    }
  }

  /**
   The result is the written number, numerator and denominator, if and only if both fit the struct and
   the power of ten is read as it is written, or is too large but belongs to 0 and wraps around to no
   denominator.
   */
  lemma ParseExactIff(w: Written)
    requires WellFormed(w) && Bounded(w)
    ensures IsExact(w) <==> FitsStruct(SignedDigits(w), Shift(w))
  {
    ParseMeaning(w);
    if INT64_MIN <= Numerator(w) <= INT64_MAX {
      DigitsAddUp(w);
    }
    ScaledIsExactIff(ShiftedDigits(w), SignedDigits(w), Shift(w));
  }

  /** 1E4294967296: the exponent wraps around to 0, and the number is read as 1. */
  const LARGE: Written := Written([], NoSign, "1", false, [], Some(Exponent('E', NoSign, Dec(0x1_0000_0000))))

  lemma LargeParts()
    ensures WellFormed(LARGE) && Bounded(LARGE)
    ensures ShiftedDigits(LARGE) == 1 && SignedDigits(LARGE) == 1 && Shift(LARGE) == 0x1_0000_0000
  {
    assert Value("1") == 1 && LARGE.whole + LARGE.fraction == "1";
  }

  lemma LargeExponentWraps()
    ensures WellFormed(LARGE) && ParseRational(Text(LARGE)) == Some(Rat(1, 1)) && !IsExact(LARGE)
  {
    LargeParts();
    Wrap32(0x1_0000_0000, 0, 1);
    ParseMeaning(LARGE);
    ParseExactIff(LARGE);
    if FitsStruct(1, 0x1_0000_0000) {
      LargeMultiple(1, 0x1_0000_0000);
      assert false;
    }
    InRangeIff(1);
  }

  // ----- The digit counter -----

  /**
   sr_count_digits accepts a written number if and only if its exponent fits a long, and reports fraction
   length less exponent.
   */
  lemma WrittenCountedIff(w: Written)
    requires WellFormed(w)
    ensures CountDigits(Text(w)) ==
      if INT32_MIN <= ExponentValue(w) <= INT32_MAX then Some(-Shift(w)) else None
  {
    MantissaRead(w);
    ExponentCounted(w);
  }

  predicate CountFitsInt(count: Option<int>) {
    count.Some? && INT32_MIN <= count.value <= INT32_MAX
  }

  lemma SameDenominator(v: int, shift: int)
    requires INT32_MIN <= shift <= INT32_MAX
    ensures ScaledResult(v, I32(shift)).q == U64(Pow10(Positive(-shift)))
  {
    Range32Iff(shift);
  }

  lemma CountInRange(w: Written)
    requires WellFormed(w) && CountFitsInt(CountDigits(Text(w)))
    ensures INT32_MIN <= Shift(w) <= INT32_MAX && CountDigits(Text(w)).value == -Shift(w)
  {
    WrittenCountedIff(w);
  }

  /** The denominator is ten to the power of what sr_count_digits reports, when that fits its int, or 1. */
  lemma DenominatorMatchesCount(w: Written)
    requires WellFormed(w) && Bounded(w) && CountFitsInt(CountDigits(Text(w)))
    ensures ParseRational(Text(w)).Some?
    ensures ParseRational(Text(w)).value.q == U64(Pow10(Positive(CountDigits(Text(w)).value)))
  {
    CountInRange(w);
    ParseMeaning(w);
    SameDenominator(ShiftedDigits(w), Shift(w));
  }

  /** An exponent mark at the very end, or with a space behind it. */
  predicate LooseExponent(rest: string) {
    StartsExponent(rest) && (|rest| == 1 || IsSpace(rest[1]))
  }

  lemma CountedExponent(rest: string)
    requires var (e, left, inRange) := ReadExponent(rest); left == [] && inRange
    ensures LexExponent(rest).None? <==> LooseExponent(rest)
  {
    if rest != [] {
      var t := rest[1..];
      if !LooseExponent(rest) {
        assert AfterSpaces(t) == t;
      } else if t != [] {
        assert !IsDigit(t[0]) && t[0] != '-' && t[0] != '+';
      }
    }
  }

  /**
   Of the texts that sr_count_digits accepts, sr_parse_rational refuses exactly those that have a digit
   string too long for int64_t, or an exponent mark with nothing or a space behind it.
   */
  lemma CountedRefusedIff(s: string)
    requires CountDigits(s).Some?
    ensures var m := LexMantissa(s);
      ParseRational(s).None? <==>
        Value(m.whole) > INT64_MAX || Value(m.fraction) > INT64_MAX || LooseExponent(m.rest)
  {
    CountedExponent(LexMantissa(s).rest);
  }

  /** Without anything behind the mark the counter takes the exponent for 0. */
  lemma MarkWithoutDigits()
    ensures CountDigits("1E") == Some(0) && ParseRational("1E") == None
  {
    assert "1E"[1..] == "E" && "E"[1..] == "";
    assert DigitRun("1E") == 1;
  }

  lemma OneBefore(rest: string)
    requires rest != [] && !IsDigit(rest[0]) && rest[0] != '.'
    ensures LexMantissa("1" + rest) == Mantissa(false, "1", [], rest)
  {
    WholeRead(false, "1", rest);
  }

  lemma SpaceFive()
    ensures AfterSpaces(" 5") == "5" && DigitRun("5") == 1 && Strtol(" 5") == (5, "", true)
  {
    SpacesSkipped(" ", "5");
    assert " " + "5" == " 5" && "5"[1..] == "" && "5"[..1] == "5";
    assert Value("5") == 5;
  }

  /** With a space behind the mark the counter reads on. */
  lemma MarkBeforeSpace()
    ensures CountDigits("1E 5") == Some(-5) && ParseRational("1E 5") == None
  {
    OneBefore("E 5");
    assert "1" + "E 5" == "1E 5";
    SpaceFive();
    assert "E 5"[1..] == " 5";
    CountedExponent("E 5");
  }
}
