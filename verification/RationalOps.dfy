/**
 sr_rational_eq, sr_rational_mult and sr_rational_div, with 128-bit integers and with the
 two-limb numbers that replace them, and how far the two agree.
 */
module RationalOps {
  import opened Bytes
  import opened MachineInts
  import opened Limbs
  import opened ReturnCodes

  datatype Result = Ok(value: Rat) | ErrArg

  predicate SameValue(a: Rat, b: Rat) {
    a.p * b.q == b.p * a.q
  }

  // ----- Taking out common factors of two -----

  /** The strip loop: halve both numbers while both are even. */
  function Strip(p: int, q: int): (r: (int, int))
    requires q > 0
    ensures 0 < r.1 <= q
    ensures r.0 % 2 != 0 || r.1 % 2 != 0
    ensures p >= 0 ==> 0 <= r.0 <= p
    ensures p <= 0 ==> p <= r.0 <= 0
    decreases q
  {
    if p % 2 == 0 && q % 2 == 0 then Strip(p / 2, q / 2) else (p, q)
  }

  lemma PowStep(k: nat, x: int)
    ensures Pow2(k + 1) * x == 2 * (Pow2(k) * x)
  {
    assert (2 * Pow2(k)) * x == 2 * (Pow2(k) * x);
  }

  lemma StripTwice(p: int, q: int)
    requires q > 0
    ensures Strip(2 * p, 2 * q) == Strip(p, q)
  {
  }

  lemma {:induction false} StripFactor(p: int, q: int) returns (k: nat)
    requires q > 0
    ensures p == Pow2(k) * Strip(p, q).0 && q == Pow2(k) * Strip(p, q).1
    decreases q
  {
    if p % 2 == 0 && q % 2 == 0 {
      var j := StripFactor(p / 2, q / 2);
      PowStep(j, Strip(p, q).0);
      PowStep(j, Strip(p, q).1);
      k := j + 1;
    } else {
      k := 0;
    }
  }

  /** Whatever common power of two is taken out first, stripping ends in the same pair. */
  lemma {:induction false} StripConfluent(k: nat, x: int, y: int)
    requires y > 0
    ensures Pow2(k) * y > 0 && Strip(Pow2(k) * x, Pow2(k) * y) == Strip(x, y)
  {
    if k > 0 {
      StripConfluent(k - 1, x, y);
      PowStep(k - 1, x);
      PowStep(k - 1, y);
      StripTwice(Pow2(k - 1) * x, Pow2(k - 1) * y);
    }
  }

  // ----- The branch with 128-bit integers -----

  predicate Fits(p: int, q: int) {
    INT64_MIN <= p <= INT64_MAX && 0 <= q <= UINT64_MAX
  }

  /** What becomes of the full products: strip only when they do not fit, then test the range. */
  function Reduce(p: int, q: int): Result
    requires q > 0
  {
    var (p', q') := if Fits(p, q) then (p, q) else Strip(p, q);
    if Fits(p', q') then Ok(Rat(p', q')) else ErrArg
  }

  function Mult128(a: Rat, b: Rat): Result
    requires a.q > 0 && b.q > 0
  {
    assert a.q * b.q > 0;
    Reduce(a.p * b.p, a.q * b.q)
  }

  /** Some power of two divides both products, and the quotients fit the result. */
  ghost predicate Representable(p: int, q: int) {
    exists k: nat, x: int, y: int :: p == Pow2(k) * x && q == Pow2(k) * y && Fits(x, y)
  }

  lemma RepresentableIffStripped(p: int, q: int)
    requires q > 0
    ensures Representable(p, q) <==> Fits(Strip(p, q).0, Strip(p, q).1)
    ensures Fits(p, q) ==> Representable(p, q)
  {
    if Representable(p, q) {
      var k: nat, x: int, y: int :| p == Pow2(k) * x && q == Pow2(k) * y && Fits(x, y);
      if y == 0 { assert false; }
      StripConfluent(k, x, y);
    }
    var k := StripFactor(p, q);
    assert Pow2(0) * p == p && Pow2(0) * q == q;
  }

  /** Equal fractions, once one is the other with a power of two taken out. */
  lemma ScaledSameValue(k: nat, p: int, q: int, x: int, y: int)
    requires p == Pow2(k) * x && q == Pow2(k) * y
    ensures x * q == y * p
  {
    var f := Pow2(k);
    assert x * (f * y) == y * (f * x);
  }

  /** The value v of p/q, up to common factors. */
  predicate IsValue(v: Rat, p: int, q: int) {
    v.p * q == v.q * p
  }

  lemma ReduceExact(p: int, q: int)
    requires q > 0
    ensures Reduce(p, q).Ok? <==> Representable(p, q)
    ensures Reduce(p, q).Ok? ==> Reduce(p, q).value.q > 0 && IsValue(Reduce(p, q).value, p, q)
  {
    RepresentableIffStripped(p, q);
    var k := StripFactor(p, q);
    ScaledSameValue(k, p, q, Strip(p, q).0, Strip(p, q).1);
  }

  /**
   The product is computed if and only if some power of two brings numerator and denominator
   into range, and then it is the exact product with a positive denominator.
   */
  lemma Mult128Exact(a: Rat, b: Rat)
    requires a.q > 0 && b.q > 0
    ensures Mult128(a, b).Ok? <==> Representable(a.p * b.p, a.q * b.q)
    ensures Mult128(a, b).Ok? ==>
      var r := Mult128(a, b).value;
      r.q > 0 && r.p * (a.q * b.q) == r.q * (a.p * b.p)
    ensures -TWO127 <= a.p * b.p < TWO127 && 0 < a.q * b.q < TWO128  // no product wraps around
  {
    MulBound(a.p, b.p, TWO63, TWO63);
    MulBound(a.q, b.q, UINT64_MAX, UINT64_MAX);
    PositiveProduct(a.q, b.q);
    ReduceExact(a.p * b.p, a.q * b.q);
  }

  predicate IsReducedBy(k: nat, x: int, y: int, P: int, Q: int) {
    P == Pow2(k) * x && Q == Pow2(k) * y
  }

  /** x/y is P/Q with a power of two taken out, and none is left. */
  ghost predicate IsStripped(x: int, y: int, P: int, Q: int) {
    (x % 2 != 0 || y % 2 != 0) && exists k :: IsReducedBy(k, x, y, P, Q)
  }

  lemma StripIsStripped(P: int, Q: int)
    requires Q > 0
    ensures IsStripped(Strip(P, Q).0, Strip(P, Q).1, P, Q)
  {
    var k := StripFactor(P, Q);
    assert IsReducedBy(k, Strip(P, Q).0, Strip(P, Q).1, P, Q);
  }

  /** A product that fits is returned as it is, any other with all common factors of two taken out. */
  lemma Mult128Form(a: Rat, b: Rat)
    requires a.q > 0 && b.q > 0 && Mult128(a, b).Ok?
    ensures var (r, P, Q) := (Mult128(a, b).value, a.p * b.p, a.q * b.q);
      if Fits(P, Q) then r.p == P && r.q == Q else IsStripped(r.p, r.q, P, Q)
  {
    PositiveProduct(a.q, b.q);
    StripIsStripped(a.p * b.p, a.q * b.q);
  }

  // ----- The branch with two-limb numbers -----

  /** One turn of the strip loop on a two-limb number: shift right by one across the limbs. */
  function Half(w: Wide): (r: Wide)
    ensures w.low % 2 == 0 ==> 2 * r.Value() == w.Value()
  {
    Wide(w.high / 2, w.low / 2 + if w.high % 2 == 1 then TWO63 else 0)
  }

  lemma EvenPlus(x: int, y: int)
    ensures (2 * x + y) % 2 == y % 2
  {
  }

  lemma Parity(w: Wide)
    ensures w.Value() % 2 == w.low % 2
  {
    EvenPlus(w.high * TWO63, w.low);
  }

  function StripLimbs(p: Wide, q: Wide): (r: (Wide, Wide))
    requires q.Value() > 0
    ensures (r.0.Value(), r.1.Value()) == Strip(p.Value(), q.Value())
    decreases q.Value()
  {
    Parity(p);
    Parity(q);
    if p.low % 2 == 0 && q.low % 2 == 0 then StripLimbs(Half(p), Half(q)) else (p, q)
  }

  /** The range test at the end of the limb branch. */
  function LimbResult(p: Wide, q: Wide): Result {
    if q.high != 0 then ErrArg
    else if p.high >= 0 && p.low > INT64_MAX then ErrArg
    else if p.high < -1 then ErrArg
    else Ok(Rat(I64(p.low), q.low))
  }

  function MultLimbs(a: Rat, b: Rat): Result
    requires a.q > 0 && b.q > 0
  {
    ProductStaysPositive(a.q, b.q);
    var (p, q) := StripLimbs(MultInt64(a.p, b.p), MultUint64(a.q, b.q));
    LimbResult(p, q)
  }

  lemma CancelFactor(x: int, y: int, f: int)
    requires f != 0 && x * f == y * f
    ensures x == y
  {
    assert (x - y) * f == 0;
  }

  /** Two fractions with the value P/Q have the same value. */
  lemma SameRatio(p1: int, q1: int, p2: int, q2: int, P: int, Q: int)
    requires Q != 0 && p1 * Q == q1 * P && p2 * Q == q2 * P
    ensures p1 * q2 == p2 * q1
  {
    assert (p1 * q2) * Q == (p1 * Q) * q2 == (q1 * P) * q2 == (q2 * P) * q1 == (p2 * Q) * q1 == (p2 * q1) * Q;
    CancelFactor(p1 * q2, p2 * q1, Q);
  }

  predicate InRange(p: int) {
    INT64_MIN <= p <= INT64_MAX
  }

  /** A numerator out of range whose low limb the range test takes for a number in range. */
  predicate Slips(p: int) {
    !InRange(p) && -TWO64 <= p && U64(p) <= INT64_MAX
  }

  lemma LowLimbOf(w: Wide, v: int)
    requires w.Value() == v
    ensures U64(v) == w.low && I64(w.low) == I64(v)
  {
    Wraps(v, w.low, w.high);
    Wraps(w.low, w.low, 0);
  }

  /** What the limb branch makes of the full products: strip always, then test the limbs. */
  function ReduceLimbs(P: int, Q: int): Result
    requires Q > 0
  {
    var (p, q) := Strip(P, Q);
    if q <= UINT64_MAX && (InRange(p) || Slips(p)) then Ok(Rat(I64(p), q)) else ErrArg
  }

  lemma RangeTest(pw: Wide, qw: Wide, p: int, q: int)
    requires pw.Value() == p && qw.Value() == q > 0
    ensures LimbResult(pw, qw) ==
      if q <= UINT64_MAX && (InRange(p) || Slips(p)) then Ok(Rat(I64(p), q)) else ErrArg
  {
    LowLimbOf(pw, p);
    LowLimbOf(qw, q);
    assert qw.high == 0 <==> q <= UINT64_MAX;
    assert pw.high >= 0 <==> p >= 0;
    assert pw.high < -1 <==> p < -TWO64;
  }

  /** The denominator that the limb branch works with: the product, unless a cross product is misread. */
  function LimbDenominator(a: Rat, b: Rat): (r: int)
    requires a.q > 0 && b.q > 0
    ensures r > 0
    ensures r == a.q * b.q <==> CrossFits(a.q, b.q)
  {
    ProductStaysPositive(a.q, b.q);
    MultUint64ExactIff(a.q, b.q);
    MultUint64(a.q, b.q).Value()
  }

  /** The limb branch in terms of the exact numerator and of its own denominator. */
  lemma LimbBranchMeaning(a: Rat, b: Rat)
    requires a.q > 0 && b.q > 0
    ensures MultLimbs(a, b) == ReduceLimbs(a.p * b.p, LimbDenominator(a, b))
  {
    MultInt64Exact(a.p, b.p);
    ProductStaysPositive(a.q, b.q);
    var Q := LimbDenominator(a, b);
    var (pw, qw) := StripLimbs(MultInt64(a.p, b.p), MultUint64(a.q, b.q));
    RangeTest(pw, qw, Strip(a.p * b.p, Q).0, Strip(a.p * b.p, Q).1);
  }

  lemma InRangeIsItself(p: int64)
    ensures I64(p) == p
  {
    Wraps(p, if p < 0 then p + TWO64 else p, if p < 0 then -1 else 0);
  }

  lemma ReduceLimbsRefines(P: int, Q: int)
    requires Q > 0 && Reduce(P, Q).Ok?
    ensures ReduceLimbs(P, Q).Ok?
    ensures var r := ReduceLimbs(P, Q).value;
      SameValue(r, Reduce(P, Q).value) && r.q > 0 && (r.p % 2 != 0 || r.q % 2 != 0) && IsValue(r, P, Q)
  {
    ReduceExact(P, Q);
    RepresentableIffStripped(P, Q);
    var (p, q) := Strip(P, Q);
    InRangeIsItself(p);
    var k := StripFactor(P, Q);
    ScaledSameValue(k, P, Q, p, q);
    var w := Reduce(P, Q).value;
    SameRatio(p, q, w.p, w.q, P, Q);
  }

  /**
   Whenever the 128-bit branch succeeds the limb branch does, with an equal fraction that has no
   common factor of two left.
   */
  lemma LimbBranchRefines(a: Rat, b: Rat)
    requires a.q > 0 && b.q > 0 && CrossFits(a.q, b.q)
    requires Mult128(a, b).Ok?
    ensures MultLimbs(a, b).Ok?
    ensures var r := MultLimbs(a, b).value;
      SameValue(r, Mult128(a, b).value) && r.q > 0 && (r.p % 2 != 0 || r.q % 2 != 0)
  {
    LimbBranchMeaning(a, b);
    ReduceLimbsRefines(a.p * b.p, a.q * b.q);
  }

  lemma EvenPart(y: int, c: int, w: int, f: int, g: int)
    requires f % 2 == 0 && g % 2 == 0
    ensures (y - c * f + w * g) % 2 == y % 2
  {
    assert y - c * f + w * g == 2 * (w * (g / 2) - c * (f / 2)) + y;
  }

  lemma Distribute(f: int, y: int, c: int, u: int, w: int, v: int)
    ensures f * (y - c * u + w * v) == f * y - c * (f * u) + w * (f * v)
  {
  }

  lemma OddStays(x: int, y: int)
    requires y > 0 && (x % 2 != 0 || y % 2 != 0)
    ensures Strip(x, y) == (x, y)
  {
  }

  lemma PowerIsEven(k: nat)
    requires k > 0
    ensures Pow2(k) % 2 == 0
  {
  }

  /** Taking 2^96 or 2^128 away from a multiple of 2^k leaves one, with a cofactor of the same parity. */
  lemma CofactorOf(k: nat, y: int, c: int, w: int) returns (y': int)
    requires k < 96
    ensures Pow2(k) * y - c * TWO96 + w * TWO128 == Pow2(k) * y' && y' % 2 == y % 2
  {
    PowerOf32();
    PowerSplits(k, 96 - k);
    PowerSplits(k, 128 - k);
    PowerSplits(64, 64);
    var u, v := Pow2(96 - k), Pow2(128 - k);
    PowerIsEven(96 - k);
    PowerIsEven(128 - k);
    y' := y - c * u + w * v;
    EvenPart(y, c, w, u, v);
    Distribute(Pow2(k), y, c, u, w, v);
  }

  lemma {:induction false} LowPower(k: nat, y: int) returns (z: int)
    requires k >= 96
    ensures Pow2(k) * y == TWO96 * z
  {
    PowerOf32();
    PowerSplits(96, k - 96);
    z := Pow2(k - 96) * y;
    assert (TWO96 * Pow2(k - 96)) * y == TWO96 * z;
  }

  lemma PositiveCofactor(f: int, y: int)
    requires f > 0 && f * y > 0
    ensures y > 0
  {
  }

  /** Cross products are misread only when the product has few factors of two; then they leave these alone. */
  lemma SameFactors(P: int, Q: int, c: nat)
    requires 0 < Q < TWO128 && Lossy(Q, c) > 0
    requires c > 0 ==> forall z :: Q != TWO96 * z
    ensures Strip(P, Lossy(Q, c)).0 == Strip(P, Q).0
  {
    if c > 0 {
      var (x, y) := Strip(P, Q);
      var k := StripFactor(P, Q);
      if k >= 96 {
        var z := LowPower(k, y);
        assert false;
      }
      var y' := CofactorOf(k, y, c, if Q - c * TWO96 >= 0 then 0 else 1);
      PositiveCofactor(Pow2(k), y');
      StripConfluent(k, x, y');
      OddStays(x, y');
    }
  }

  lemma NoHighMultiple(a: uint64, b: uint64)
    requires a > 0 && b > 0 && CrossExcess(a, b) > 0
    ensures forall z: int :: a * b != TWO96 * z
  {
    forall z: int ensures a * b != TWO96 * z {
      if a * b == TWO96 * z {
        HighMultipleFits(a, b, z);
      }
    }
  }

  lemma LimbDenominatorIs(a: Rat, b: Rat)
    requires a.q > 0 && b.q > 0
    ensures 0 < a.q * b.q < TWO128
    ensures LimbDenominator(a, b) == Lossy(a.q * b.q, CrossExcess(a.q, b.q))
  {
    MultUint64Value(a.q, b.q);
    PositiveProduct(a.q, b.q);
  }

  lemma SameNumeratorOf(P: int, a: uint64, b: uint64, Q': int)
    requires a > 0 && b > 0 && 0 < a * b < TWO128 && Q' == Lossy(a * b, CrossExcess(a, b)) && Q' > 0
    ensures Strip(P, Q').0 == Strip(P, a * b).0
  {
    var Q, c := a * b, CrossExcess(a, b);
    if c > 0 {
      NoHighMultiple(a, b);
    }
    SameFactors(P, Q, c);
  }

  /** The misread denominator leaves the stripped numerator as it is. */
  lemma SameNumerator(a: Rat, b: Rat)
    requires a.q > 0 && b.q > 0
    ensures a.q * b.q > 0
    ensures Strip(a.p * b.p, LimbDenominator(a, b)).0 == Strip(a.p * b.p, a.q * b.q).0
  {
    LimbDenominatorIs(a, b);
    SameNumeratorOf(a.p * b.p, a.q, b.q, LimbDenominator(a, b));
  }

  /** A numerator that slips is not the one that is returned. */
  lemma SlipIsWrong(P: int, Q: int)
    requires Q > 0 && Slips(Strip(P, Q).0)
    ensures I64(Strip(P, Q).0) * Q != Strip(P, Q).1 * P
  {
    var (p, q) := Strip(P, Q);
    var k := StripFactor(P, Q);
    ScaledSameValue(k, P, Q, p, q);
    if I64(p) * Q == q * P {
      CancelFactor(I64(p), p, Q);
    }
  }

  lemma Differences(x: int, p: int, Q: int, Q': int)
    ensures x * Q == p * Q' <==> x * (Q - Q') == (p - x) * Q'
  {
  }

  lemma SameMultiple(p: int, x: int, y: int)
    ensures p * x == p * y <==> p == 0 || x == y
  {
    if p != 0 && p * x == p * y {
      CancelFactor(x, y, p);
    }
  }

  /** What a success over the denominator Q' is worth when the denominator is Q. */
  lemma ReduceLimbsRightIff(P: int, Q: int, Q': int)
    requires Q > 0 && Q' > 0 && ReduceLimbs(P, Q').Ok?
    ensures var (r, p) := (ReduceLimbs(P, Q').value, Strip(P, Q').0);
      && (InRange(p) ==> (IsValue(r, P, Q) <==> P == 0 || Q == Q'))
      && (Slips(p) ==> (IsValue(r, P, Q) <==> I64(p) * (Q - Q') == (p - I64(p)) * Q'))
      && (Slips(p) && Q == Q' ==> !IsValue(r, P, Q))
  {
    var (p, q) := Strip(P, Q');
    if Slips(p) && Q == Q' {
      SlipIsWrong(P, Q);
    }
    var k := StripFactor(P, Q');
    ScaledSameValue(k, P, Q', p, q);
    Differences(I64(p), p, Q, Q');
    if InRange(p) {
      InRangeIsItself(p);
      SameMultiple(p, Q, Q');
      assert p == 0 <==> P == 0;
    }
  }

  /**
   When the limb branch reports success, its result is the product: for a numerator in range if and
   only if the numerator is 0 or no cross product is misread, and for a numerator that slips if and only
   if both errors cancel, which they never do when no cross product is misread.
   */
  lemma LimbBranchRightIff(a: Rat, b: Rat)
    requires a.q > 0 && b.q > 0 && MultLimbs(a, b).Ok?
    ensures a.q * b.q > 0
    ensures var (P, Q, Q', r) := (a.p * b.p, a.q * b.q, LimbDenominator(a, b), MultLimbs(a, b).value);
      var p := Strip(P, Q).0;
      && (InRange(p) || Slips(p))
      && (InRange(p) ==> (IsValue(r, P, Q) <==> P == 0 || CrossFits(a.q, b.q)))
      && (Slips(p) ==> (IsValue(r, P, Q) <==> I64(p) * (Q - Q') == (p - I64(p)) * Q'))
      && (Slips(p) && CrossFits(a.q, b.q) ==> !IsValue(r, P, Q))
  {
    PositiveProduct(a.q, b.q);
    LimbBranchMeaning(a, b);
    SameNumerator(a, b);
    ReduceLimbsRightIff(a.p * b.p, a.q * b.q, LimbDenominator(a, b));
  }

  /** Two results are the same error, or successes with the same value. */
  predicate Agree(x: Result, y: Result) {
    x.Ok? == y.Ok? && (x.Ok? ==> SameValue(x.value, y.value))
  }

  /** Having the value of a fraction is having the same value as anything that has it. */
  lemma SameValueIff(r: Rat, v: Rat, P: int, Q: int)
    requires Q > 0 && v.q > 0 && IsValue(v, P, Q)
    ensures SameValue(r, v) <==> IsValue(r, P, Q)
  {
    if IsValue(r, P, Q) {
      SameRatio(r.p, r.q, v.p, v.q, P, Q);
    } else if SameValue(r, v) {
      assert (r.p * Q) * v.q == (r.p * v.q) * Q == (v.p * r.q) * Q == (v.p * Q) * r.q == (v.q * P) * r.q == (r.q * P) * v.q;
      CancelFactor(r.p * Q, r.q * P, v.q);
    }
  }

  lemma ReductionsAgreeIff(P: int, Q: int, Q': int)
    requires Q > 0 && Q' > 0 && Strip(P, Q').0 == Strip(P, Q).0
    ensures var (p, passes, limbPasses) := (Strip(P, Q).0, Strip(P, Q).1 <= UINT64_MAX, Strip(P, Q').1 <= UINT64_MAX);
      Agree(ReduceLimbs(P, Q'), Reduce(P, Q)) <==>
        if InRange(p) then passes == limbPasses && (limbPasses ==> P == 0 || Q == Q')
        else !(limbPasses && Slips(p))
  {
    var x, y := ReduceLimbs(P, Q'), Reduce(P, Q);
    ReduceExact(P, Q);
    RepresentableIffStripped(P, Q);
    if x.Ok? && y.Ok? {
      ReduceLimbsRightIff(P, Q, Q');
      SameValueIff(x.value, y.value, P, Q);
    }
  }

  /**
   The condition under which the branches do the same with P/Q, where the limb branch works with the
   denominator Q' and `crossFits` tells whether no cross product is misread.
   */
  predicate BranchesAgree(P: int, Q: int, Q': int, crossFits: bool)
    requires Q > 0 && Q' > 0
  {
    var (p, passes, limbPasses) := (Strip(P, Q).0, Strip(P, Q).1 <= UINT64_MAX, Strip(P, Q').1 <= UINT64_MAX);
    if InRange(p) then passes == limbPasses && (limbPasses ==> P == 0 || crossFits)
    else !(limbPasses && Slips(p))
  }

  /**
   Exactly when the limb branch does what the 128-bit branch does, for all positive denominators: with
   a stripped numerator p out of range, unless p slips and the denominator passes; with p in range, if
   both denominators pass the range test or neither does, and no cross product is misread in a result
   other than 0.
   */
  lemma LimbBranchAgreesIff(a: Rat, b: Rat)
    requires a.q > 0 && b.q > 0
    ensures a.q * b.q > 0
    ensures Agree(MultLimbs(a, b), Mult128(a, b)) <==>
      BranchesAgree(a.p * b.p, a.q * b.q, LimbDenominator(a, b), CrossFits(a.q, b.q))
  {
    PositiveProduct(a.q, b.q);
    LimbBranchMeaning(a, b);
    SameNumerator(a, b);
    ReductionsAgreeIff(a.p * b.p, a.q * b.q, LimbDenominator(a, b));
  }

  /** What the limb branch reports has all common factors of two taken out, whether the product fits or not. */
  lemma MultLimbsForm(a: Rat, b: Rat)
    requires a.q > 0 && b.q > 0 && MultLimbs(a, b).Ok? && CrossFits(a.q, b.q)
    requires a.q * b.q > 0 && !Slips(Strip(a.p * b.p, a.q * b.q).0)
    ensures IsStripped(MultLimbs(a, b).value.p, MultLimbs(a, b).value.q, a.p * b.p, a.q * b.q)
  {
    LimbBranchMeaning(a, b);
    StripIsStripped(a.p * b.p, a.q * b.q);
    InRangeIsItself(Strip(a.p * b.p, a.q * b.q).0);
  }

  /** 2^32 times 2^32 is reported as 0, with success. */
  lemma LimbBranchSlips()
    ensures var a := Rat(TWO32, 1);
      CrossFits(1, 1) && MultLimbs(a, a) == Ok(Rat(0, 1)) && Mult128(a, a) == ErrArg
  {
    var a := Rat(TWO32, 1);
    LimbBranchMeaning(a, a);
    assert Strip(TWO64, 1) == (TWO64, 1);
  }

  lemma PowersOf2()
    ensures Pow2(28) == 0x1000_0000 && Pow2(92) == 0x1000_0000 * TWO64
  {
    PowerOf8();
    PowerSplits(8, 8);
    PowerSplits(16, 8);
    PowerSplits(24, 4);
    PowerOf32();
    PowerSplits(28, 64);
  }

  lemma CrossMisread(b: uint64)
    requires 0xC000_0000_0000_0000 <= b <= 0xC000_0000_0000_0004
    ensures CrossExcess(0x1_C000_0000, b) == 1 && !CrossFits(0x1_C000_0000, b)
  {
    assert b == 0xC000_0000 * TWO32 + (b - 0xC000_0000_0000_0000);
    assert Low32(0x1_C000_0000) == 0xC000_0000 && Shr32(0x1_C000_0000) == 1;
  }

  /** With a misread cross product, 2 times 1/2 is reported as 21/5, with success and no numerator that slips. */
  lemma LimbBranchMisreadsDenominator(a: Rat, b: Rat)
    requires a == Rat(0x3_8000_0000, 0x1_C000_0000) && b == Rat(0x6000_0000_0000_0000, 0xC000_0000_0000_0000)
    ensures SameValue(a, Rat(2, 1)) && SameValue(b, Rat(1, 2)) && !CrossFits(a.q, b.q)
    ensures MultLimbs(a, b) == Ok(Rat(21, 5)) && Mult128(a, b) == Ok(Rat(21, 21))
  {
    CrossMisread(b.q);
    LimbDenominatorIs(a, b);
    LimbBranchMeaning(a, b);
    PowersOf2();
    StripConfluent(92, 21, 21);
    StripConfluent(92, 21, 5);
    OddStays(21, 21);
    OddStays(21, 5);
    InRangeIsItself(21);
  }

  /** Both errors at once can cancel: here 2 times 1/2 comes out as 1, where the 128-bit branch fails. */
  lemma LimbErrorsCancel(a: Rat, b: Rat)
    requires a == Rat(0x3_8000_0000, 0x1_C000_0000) && b == Rat(0x6000_0000_0000_0002, 0xC000_0000_0000_0004)
    ensures var w := 0x5000_0000_0000_0007;
      MultLimbs(a, b) == Ok(Rat(w, w)) && Mult128(a, b) == ErrArg
  {
    var w, p := 0x5000_0000_0000_0007, 0x1_5000_0000_0000_0007;
    CrossMisread(b.q);
    LimbDenominatorIs(a, b);
    LimbBranchMeaning(a, b);
    PowerOf32();
    StripConfluent(32, p, p);
    StripConfluent(32, p, w);
    OddStays(p, p);
    OddStays(p, w);
    Wraps(p, w, 1);
  }

  // ----- Equality -----

  /** sr_rational_eq with 128-bit integers: the products are unsigned, then read as signed. */
  predicate Eq128(a: Rat, b: Rat) {
    I128(U128(b.p) * a.q) == I128(U128(a.p) * b.q)
  }

  /** sr_rational_eq with limbs: the denominators are converted to int64_t. */
  predicate EqLimbs(a: Rat, b: Rat) {
    MultInt64(I64(a.q), b.p) == MultInt64(a.p, I64(b.q))
  }

  lemma Reduce128(v: int, k: int)
    requires -TWO127 <= v < TWO127
    ensures I128(v + k * TWO128) == v
  {
  }

  lemma Product128(p: int64, q: uint64)
    ensures I128(U128(p) * q) == p * q
  {
    MulBound(p, q, TWO63, TWO64 - 1);
    var wrapped := if p < 0 then p + TWO128 else p;
    assert U128(p) == wrapped;
    assert wrapped * q == p * q + (if p < 0 then q else 0) * TWO128 by {
      if p < 0 { assert (p + TWO128) * q == p * q + q * TWO128; }
    }
    Reduce128(p * q, if p < 0 then q else 0);
  }

  /** With 128-bit integers, equality of values is decided for all 64-bit arguments. */
  lemma Eq128Decides(a: Rat, b: Rat)
    ensures Eq128(a, b) <==> SameValue(a, b)
  {
    Product128(b.p, a.q);
    Product128(a.p, b.q);
  }

  lemma SameWide(x: Wide, y: Wide)
    ensures x == y <==> x.Value() == y.Value()
  {
    if x.Value() == y.Value() {
      assert (x.high - y.high) * TWO64 == y.low - x.low;
    }
  }

  lemma SameLimbs(a: int64, b: int64, c: int64, d: int64)
    ensures MultInt64(a, b) == MultInt64(c, d) <==> a * b == c * d
  {
    MultInt64Exact(a, b);
    MultInt64Exact(c, d);
    SameWide(MultInt64(a, b), MultInt64(c, d));
  }

  /** With limbs, what is compared are the products with the converted denominators. */
  lemma EqLimbsMeaning(a: Rat, b: Rat)
    ensures EqLimbs(a, b) <==> I64(a.q) * b.p == a.p * I64(b.q)
  {
    SameLimbs(I64(a.q), b.p, a.p, I64(b.q));
  }

  /** 1 for a denominator that is read as negative. */
  function Misread(q: uint64): nat {
    if q <= INT64_MAX then 0 else 1
  }

  lemma DenominatorReading(q: uint64)
    ensures I64(q) == q - Misread(q) * TWO64
  {
    Wraps(q, q, 0);
  }

  /** By how much, in units of 2^64, the two compared products are off against each other. */
  function MisreadBy(a: Rat, b: Rat): int {
    Misread(a.q) * b.p - Misread(b.q) * a.p
  }

  lemma NothingMisread(a: Rat, b: Rat)
    requires a.q <= INT64_MAX && b.q <= INT64_MAX
    ensures MisreadBy(a, b) == 0
  {
  }

  lemma FirstMisread(a: Rat, b: Rat)
    requires b.q <= INT64_MAX < a.q
    ensures MisreadBy(a, b) == b.p
  {
  }

  lemma ComparedDifference(x: int, y: int, p: int, q: int, k: int, m: int)
    ensures (x - k * TWO64) * p - q * (y - m * TWO64) == (x * p - y * q) - TWO64 * (k * p - m * q)
  {
  }

  /** What is compared: equality is reported when the products differ by what they are misread by. */
  lemma EqLimbsReports(a: Rat, b: Rat)
    ensures EqLimbs(a, b) <==> a.q * b.p - b.q * a.p == TWO64 * MisreadBy(a, b)
  {
    EqLimbsMeaning(a, b);
    DenominatorReading(a.q);
    DenominatorReading(b.q);
    ComparedDifference(a.q, b.q, b.p, a.p, Misread(a.q), Misread(b.q));
  }

  /**
   Exactly when the limb comparison decides equality of values, for all arguments: the misreadings
   balance, or the values differ and not by just as much as is misread.
   */
  lemma EqLimbsDecidesIff(a: Rat, b: Rat)
    ensures (EqLimbs(a, b) <==> SameValue(a, b)) <==>
      var (w, d) := (MisreadBy(a, b), a.q * b.p - b.q * a.p);
      w == 0 || (d != 0 && d != TWO64 * w)
  {
    EqLimbsReports(a, b);
  }

  /** With limbs, equality of values is decided for denominators up to INT64_MAX. */
  lemma EqLimbsDecides(a: Rat, b: Rat)
    requires a.q <= INT64_MAX && b.q <= INT64_MAX
    ensures EqLimbs(a, b) <==> SameValue(a, b)
  {
    NothingMisread(a, b);
    EqLimbsDecidesIff(a, b);
  }

  /** One denominator above INT64_MAX: equal values other than 0 are always reported as different. */
  lemma OneLargeDenominatorMissed(a: Rat, b: Rat)
    requires b.q <= INT64_MAX < a.q && SameValue(a, b)
    ensures EqLimbs(a, b) <==> b.p == 0
  {
    FirstMisread(a, b);
    EqLimbsReports(a, b);
  }

  /** It also takes different values for equal ones: 1/(2^64-1) for -1/1. */
  lemma EqLimbsMisreads(a: Rat, b: Rat)
    requires a.p == 1 && a.q == UINT64_MAX && b.p == -1 && b.q == 1
    ensures EqLimbs(a, b) && !SameValue(a, b)
  {
    EqLimbsReports(a, b);
  }

  /** For positive denominators equality of values is an equivalence. */
  lemma SameValueIsEquivalence(a: Rat, b: Rat, c: Rat)
    requires a.q > 0 && b.q > 0 && c.q > 0
    ensures SameValue(a, a)
    ensures SameValue(a, b) ==> SameValue(b, a)
    ensures SameValue(a, b) && SameValue(b, c) ==> SameValue(a, c)
  {
    if SameValue(a, b) && SameValue(b, c) {
      SameRatio(a.p, a.q, c.p, c.q, b.p, b.q);
    }
  }

  // ----- Division -----

  /** The reciprocal that sr_rational_div multiplies with, if there is one. */
  function Reciprocal(d: Rat): (r: Result)
    ensures r.Ok? ==> r.value.q > 0
  {
    if d.q > INT64_MAX then ErrArg
    else if d.p == 0 then ErrArg
    else if d.p > 0 then Ok(Rat(I64(d.q), U64(d.p)))
    else Ok(Rat(I64(U64(-(d.q as int))), U64(I64(-(d.p as int)))))
  }

  function Div128(num: Rat, d: Rat): Result
    requires num.q > 0
  {
    match Reciprocal(d)
    case ErrArg => ErrArg
    case Ok(t) => Mult128(num, t)
  }

  function DivLimbs(num: Rat, d: Rat): Result
    requires num.q > 0
  {
    match Reciprocal(d)
    case ErrArg => ErrArg
    case Ok(t) => MultLimbs(num, t)
  }

  /** The reciprocal is defined exactly when it should be, and times the divisor it is one. INT64_MIN included. */
  lemma ReciprocalInverts(d: Rat)
    ensures Reciprocal(d).Ok? <==> d.p != 0 && d.q <= INT64_MAX
    ensures Reciprocal(d).Ok? ==> var t := Reciprocal(d).value; t.p * d.p == d.q * t.q
  {
    if d.q <= INT64_MAX && d.p != 0 {
      var t := Reciprocal(d).value;
      if d.p > 0 {
        assert t == Rat(d.q, d.p);
      } else {
        var q: int, p: int := d.q, d.p;
        Wraps(-q, if q == 0 then 0 else TWO64 - q, if q == 0 then 0 else -1);
        assert t.p == -q && t.q == -p;
        assert t.p * d.p == d.q * t.q;
      }
    }
  }

  /** The algebra of multiplying and dividing by the same number. */
  lemma MultDivCancel(a: Rat, b: Rat, t: Rat, r: Rat, s: Rat)
    requires a.q > 0 && b.q > 0 && t.q > 0 && r.q > 0 && b.p != 0
    requires t.p * b.p == b.q * t.q
    requires r.p * (a.q * b.q) == r.q * (a.p * b.p)
    requires s.p * (r.q * t.q) == s.q * (r.p * t.p)
    ensures SameValue(s, a)
  {
    var f := r.q * t.q * b.q;
    PositiveProduct(r.q, t.q);
    PositiveProduct(r.q * t.q, b.q);
    assert (s.p * a.q) * f == (s.p * (r.q * t.q)) * (a.q * b.q)
                           == (s.q * (r.p * t.p)) * (a.q * b.q)
                           == s.q * t.p * (r.p * (a.q * b.q))
                           == s.q * t.p * (r.q * (a.p * b.p))
                           == s.q * r.q * a.p * (t.p * b.p)
                           == s.q * r.q * a.p * (b.q * t.q)
                           == (a.p * s.q) * f;
    CancelFactor(s.p * a.q, a.p * s.q, f);
  }

  /** Dividing a product by one factor gives back the other, whenever both operations succeed. */
  lemma DivUndoesMult(a: Rat, b: Rat)
    requires a.q > 0 && b.q > 0
    requires Mult128(a, b).Ok?
    ensures Mult128(a, b).value.q > 0
    ensures var back := Div128(Mult128(a, b).value, b);
      back.Ok? ==> SameValue(back.value, a)
  {
    Mult128Exact(a, b);
    var r := Mult128(a, b).value;
    ReciprocalInverts(b);
    if Div128(r, b).Ok? {
      var t := Reciprocal(b).value;
      Mult128Exact(r, t);
      MultDivCancel(a, b, t, r, Div128(r, b).value);
    }
  }

  /** The limb branch computes the product when no cross product is misread and no numerator slips. */
  predicate LimbsSafe(a: Rat, b: Rat)
    requires a.q > 0 && b.q > 0
  {
    PositiveProduct(a.q, b.q);
    CrossFits(a.q, b.q) && !Slips(Strip(a.p * b.p, a.q * b.q).0)
  }

  lemma SafeIsExact(a: Rat, b: Rat)
    requires a.q > 0 && b.q > 0 && LimbsSafe(a, b) && MultLimbs(a, b).Ok?
    ensures MultLimbs(a, b).value.q > 0 && IsValue(MultLimbs(a, b).value, a.p * b.p, a.q * b.q)
  {
    LimbBranchMeaning(a, b);
    LimbBranchRightIff(a, b);
  }

  /** The same for the limb branch, when both of its multiplications are safe. */
  lemma DivUndoesMultLimbs(a: Rat, b: Rat, r: Rat, s: Rat)
    requires a.q > 0 && b.q > 0 && LimbsSafe(a, b) && MultLimbs(a, b) == Ok(r)
    requires r.q > 0 && DivLimbs(r, b) == Ok(s) && LimbsSafe(r, Reciprocal(b).value)
    ensures SameValue(s, a)
  {
    SafeIsExact(a, b);
    ReciprocalInverts(b);
    SafeIsExact(r, Reciprocal(b).value);
    MultDivCancel(a, b, Reciprocal(b).value, r, s);
  }

  // ----- Division of any number -----

  /** Numerator and denominator of a quotient, with the sign of the divisor in the numerator. */
  function QuotientP(num: Rat, d: Rat): int {
    if d.p < 0 then -(num.p * d.q) else num.p * d.q
  }

  function QuotientQ(num: Rat, d: Rat): int {
    if d.p < 0 then -(num.q * d.p) else num.q * d.p
  }

  /** The divisor turned upside down, with a positive denominator. */
  function Inverted(d: Rat): (t: Rat)
    requires d.p != 0 && d.q <= INT64_MAX
    ensures t.q > 0
  {
    if d.p < 0 then Rat(-(d.q as int), -(d.p as int)) else Rat(d.q, d.p)
  }

  lemma ReciprocalIsInverted(d: Rat)
    ensures Reciprocal(d) == if d.p != 0 && d.q <= INT64_MAX then Ok(Inverted(d)) else ErrArg
  {
    if d.q <= INT64_MAX && d.p < 0 {
      var q: int, p: int := d.q, d.p;
      Wraps(-q, if q == 0 then 0 else TWO64 - q, if q == 0 then 0 else -1);
    }
  }

  lemma SignOut(x: int, y: int)
    ensures x * -y == -(x * y)
  {
  }

  lemma InvertedProducts(num: Rat, d: Rat)
    requires num.q > 0 && d.p != 0 && d.q <= INT64_MAX
    ensures var t := Inverted(d);
      num.p * t.p == QuotientP(num, d) && num.q * t.q == QuotientQ(num, d) && QuotientQ(num, d) > 0
  {
    SignOut(num.p, d.q);
    SignOut(num.q, d.p);
    PositiveProduct(num.q, Inverted(d).q);
  }

  /** r is num divided by d. */
  predicate IsQuotient(r: Rat, num: Rat, d: Rat) {
    r.p * (num.q * d.p) == r.q * (num.p * d.q)
  }

  lemma QuotientIff(r: Rat, num: Rat, d: Rat)
    ensures IsQuotient(r, num, d) <==> IsValue(r, QuotientP(num, d), QuotientQ(num, d))
  {
    if d.p < 0 {
      SignOut(r.p, num.q * d.p);
      SignOut(r.q, num.p * d.q);
    }
  }

  /** Both divisions are refused together, or are multiplications by the inverted divisor. */
  lemma DivisionIsMultiplication(num: Rat, d: Rat)
    requires num.q > 0
    ensures d.p == 0 || d.q > INT64_MAX ==> Div128(num, d) == ErrArg && DivLimbs(num, d) == ErrArg
    ensures d.p != 0 && d.q <= INT64_MAX ==>
      Div128(num, d) == Mult128(num, Inverted(d)) && DivLimbs(num, d) == MultLimbs(num, Inverted(d))
  {
    ReciprocalIsInverted(d);
  }

  /**
   A division succeeds if and only if the divisor is not 0, its denominator fits int64_t, and some power of two
   brings the quotient into range; then the result is the quotient, with a positive denominator.
   */
  lemma Div128Exact(num: Rat, d: Rat)
    requires num.q > 0
    ensures Div128(num, d).Ok? <==>
      d.p != 0 && d.q <= INT64_MAX && Representable(QuotientP(num, d), QuotientQ(num, d))
    ensures Div128(num, d).Ok? ==> Div128(num, d).value.q > 0 && IsQuotient(Div128(num, d).value, num, d)
  {
    DivisionIsMultiplication(num, d);
    if d.p != 0 && d.q <= INT64_MAX {
      InvertedProducts(num, d);
      Mult128Exact(num, Inverted(d));
      if Div128(num, d).Ok? {
        QuotientIff(Div128(num, d).value, num, d);
      }
    }
  }

  /** When a quotient that the limb branch reports is right, for all divisors that are not refused. */
  lemma DivLimbsRightIff(num: Rat, d: Rat)
    requires num.q > 0 && DivLimbs(num, d).Ok?
    ensures d.p != 0 && d.q <= INT64_MAX && QuotientQ(num, d) > 0
    ensures var (r, t, P, Q) := (DivLimbs(num, d).value, Inverted(d), QuotientP(num, d), QuotientQ(num, d));
      var (p, Q') := (Strip(P, Q).0, LimbDenominator(num, t));
      && (InRange(p) || Slips(p))
      && (InRange(p) ==> (IsQuotient(r, num, d) <==> P == 0 || CrossFits(num.q, t.q)))
      && (Slips(p) ==> (IsQuotient(r, num, d) <==> I64(p) * (Q - Q') == (p - I64(p)) * Q'))
  {
    DivisionIsMultiplication(num, d);
    InvertedProducts(num, d);
    LimbBranchRightIff(num, Inverted(d));
    QuotientIff(DivLimbs(num, d).value, num, d);
  }

  /** When division does the same in both branches, for all divisors, failures included. */
  lemma DivLimbsAgreesIff(num: Rat, d: Rat)
    requires num.q > 0
    ensures d.p == 0 || d.q > INT64_MAX ==> Agree(DivLimbs(num, d), Div128(num, d))
    ensures d.p != 0 && d.q <= INT64_MAX ==>
      var (P, Q, t) := (QuotientP(num, d), QuotientQ(num, d), Inverted(d));
      && Q > 0
      && (Agree(DivLimbs(num, d), Div128(num, d)) <==> BranchesAgree(P, Q, LimbDenominator(num, t), CrossFits(num.q, t.q)))
  {
    DivisionIsMultiplication(num, d);
    if d.p != 0 && d.q <= INT64_MAX {
      InvertedProducts(num, d);
      LimbBranchAgreesIff(num, Inverted(d));
    }
  }

  // ----- The operations as they are called: results are written through a reference -----

  /** struct sr_rational. The result of an operation may be one of its operands. */
  class Rational {
    var p: int64
    var q: uint64

    function Val(): Rat
      reads this
    {
      Rat(p, q)
    }

    constructor (p: int64, q: uint64)
      ensures Val() == Rat(p, q)
    {
      this.p, this.q := p, q;
    }
  }

  /** The object holds the result and SR_OK was returned, or it is as before and SR_ERR_ARG was. */
  twostate predicate Stored(r: Result, ret: int, res: Rational)
    reads res
  {
    match r
    case Ok(v) => ret == SR_OK && res.Val() == v
    case ErrArg => ret == SR_ERR_ARG && res.Val() == old(res.Val())
  }

  method RationalMult128(res: Rational, a: Rational, b: Rational) returns (ret: int)
    requires a.q > 0 && b.q > 0
    modifies res
    ensures Stored(old(Mult128(a.Val(), b.Val())), ret, res)
  {
    var p, q := a.p * b.p, a.q * b.q;
    PositiveProduct(a.q, b.q);
    ghost var p0, q0 := p, q;
    if p > INT64_MAX || p < INT64_MIN || q > UINT64_MAX {
      while p % 2 == 0 && q % 2 == 0
        invariant q > 0 && Strip(p, q) == Strip(p0, q0)
        decreases q
      {
        p, q := p / 2, q / 2;
      }
    }
    if p > INT64_MAX || p < INT64_MIN || q > UINT64_MAX {
      return SR_ERR_ARG;
    }
    res.p, res.q := p, q;
    return SR_OK;
  }

  /** The strip loop of the limb branch. */
  method StripLoop(p0: Wide, q0: Wide) returns (p: Wide, q: Wide)
    requires q0.Value() > 0
    ensures (p, q) == StripLimbs(p0, q0)
  {
    p, q := p0, q0;
    while p.low % 2 == 0 && q.low % 2 == 0
      invariant q.Value() > 0 && StripLimbs(p, q) == StripLimbs(p0, q0)
      decreases q.Value()
    {
      Parity(q);
      p, q := Half(p), Half(q);
    }
  }

  method RationalMultLimbs(res: Rational, a: Rational, b: Rational) returns (ret: int)
    requires a.q > 0 && b.q > 0
    modifies res
    ensures Stored(old(MultLimbs(a.Val(), b.Val())), ret, res)
  {
    ProductStaysPositive(a.q, b.q);
    var p, q := StripLoop(MultInt64(a.p, b.p), MultUint64(a.q, b.q));
    if q.high != 0 {
      return SR_ERR_ARG;
    }
    if p.high >= 0 && p.low > INT64_MAX {
      return SR_ERR_ARG;
    }
    if p.high < -1 {
      return SR_ERR_ARG;
    }
    res.p, res.q := I64(p.low), q.low;
    return SR_OK;
  }

  /** The part of sr_rational_div before the multiplication: the reciprocal of the divisor, if there is one. */
  method MakeReciprocal(div: Rational) returns (ok: bool, t: Rational)
    ensures ok == Reciprocal(div.Val()).Ok?
    ensures ok ==> fresh(t) && t.Val() == Reciprocal(div.Val()).value
  {
    t := div;
    if div.q > INT64_MAX {
      return false, t;
    }
    if div.p == 0 {
      return false, t;
    }
    if div.p > 0 {
      t := new Rational(I64(div.q), U64(div.p));
    } else {
      t := new Rational(I64(U64(-(div.q as int))), U64(I64(-(div.p as int))));
    }
    ok := true;
  }

  /** sr_rational_div over the 128-bit multiplication */
  method RationalDiv128(res: Rational, num: Rational, div: Rational) returns (ret: int)
    requires num.q > 0
    modifies res
    ensures Stored(old(Div128(num.Val(), div.Val())), ret, res)
  {
    var ok, t := MakeReciprocal(div);
    if !ok {
      return SR_ERR_ARG;
    }
    ret := RationalMult128(res, num, t);
  }

  /** sr_rational_div over the limb multiplication */
  method RationalDivLimbs(res: Rational, num: Rational, div: Rational) returns (ret: int)
    requires num.q > 0
    modifies res
    ensures Stored(old(DivLimbs(num.Val(), div.Val())), ret, res)
  {
    var ok, t := MakeReciprocal(div);
    if !ok {
      return SR_ERR_ARG;
    }
    ret := RationalMultLimbs(res, num, t);
  }
}
