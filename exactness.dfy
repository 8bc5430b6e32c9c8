/**
 * The exactness tests of grisu_exact_impl: whether the lower boundary's
 * product has its low fraction bit set, whether f * 2^e * 10^(-minus_k) is
 * an integer, and the two tie-breaking tests built on it.
 */
module Exactness {
  import opened Arith
  import opened CommonInfo
  import opened CacheTables
  import opened MulHelper
  import opened LogEstimates

  /** power_of_5<e>: compute_power(5, e), which wraps modulo 2^W. */
  function PowerOf5(fmt: Format, e: nat): nat
  {
    Pow(5, e) % Modulus(fmt)
  }

  /** The largest minus_k the table of is_product_integer covers: 10 or 23. */
  function MaxMinusK(fmt: Format): nat
  {
    match fmt
    case Binary32 => 10
    case Binary64 => 23
  }

  /** The table entries of power_of_5 do not wrap. */
  lemma PowerOf5Exact(fmt: Format, e: nat)
    requires e <= MaxMinusK(fmt)
    ensures PowerOf5(fmt, e) == Pow(5, e) && Pow(5, e) > 0
  {
    CommonInfo.PowersFitInWord(fmt);
    PowMonotone(5, e, MaxMinusK(fmt));
    PowPositive(5, e);
  }

  /**
   * is_z2_smaller_than_delta2: the lowest fraction bit of fminus times the
   * cache entry, which is the low bit of the scaled product.
   */
  function IsZ2SmallerThanDelta2(fmt: Format, fminus: nat, beta: nat, c: CacheEntry): (b: bool)
    requires EntryMatches(fmt, c) && fminus < Modulus(fmt) && 1 <= beta <= 8
    ensures b <==> ScaledProduct(fmt, fminus, c, beta) % 2 == 1
  {
    var s := ComputeMul(fmt, fminus, c, beta);
    LowBit(s.integerPart, s.fractionBits, beta);
    s.fractionBits % 2 != 0
  }

  lemma LowBit(i: nat, f: nat, beta: nat)
    requires beta >= 1
    ensures (i * Pow(2, beta) + f) % 2 == f % 2
  {
    assert i * Pow(2, beta) == (i * Pow(2, beta - 1)) * 2;
    MulDivCancel(i * Pow(2, beta - 1), f, 2);
  }

  /** The exponents for which the table of is_product_integer is consulted. */
  predicate InTableRange(fmt: Format, exponent: int)
  {
    4 <= exponent <= ZeroFractionalPartMaxExponentNormal(fmt)
  }

  /** The exponents for which is_product_integer answers true outright. */
  predicate NonNegativeKRange(fmt: Format, exponent: int)
  {
    ZeroFractionalPartMinExponentNormal(fmt) <= exponent <= 3
  }

  /**
   * is_product_integer: true when k is non-negative and the exponent is in
   * range; a divisibility test by 5^minus_k when k is negative but small;
   * binary64 first divides out 5^12 when minus_k >= 12.
   */
  function IsProductInteger(fmt: Format, f: nat, exponent: int, minusK: int): (r: bool)
    requires InTableRange(fmt, exponent) ==> 0 <= minusK <= MaxMinusK(fmt)
    ensures r <==> (NonNegativeKRange(fmt, exponent)
      || (InTableRange(fmt, exponent) && Divides(Pow(5, minusK), f)))
  {
    if NonNegativeKRange(fmt, exponent) then
      true
    else if InTableRange(fmt, exponent) then
      PowerOf5Exact(fmt, minusK);
      match fmt
      case Binary32 =>
        f % PowerOf5(fmt, minusK) == 0
      case Binary64 =>
        if minusK >= 12 then
          PowerOf5Exact(fmt, 12);
          PowerOf5Exact(fmt, minusK - 12);
          PowAdd(5, 12, minusK - 12);
          SplitDivisibility(f, Pow(5, 12), Pow(5, minusK - 12));
          if f % PowerOf5(fmt, 12) == 0 then
            (f / PowerOf5(fmt, 12)) % PowerOf5(fmt, minusK - 12) == 0
          else
            false
        else if minusK == 0 then
          true
        else
          f % PowerOf5(fmt, minusK) == 0
    else
      false
  }

  /** a*b divides f exactly when a divides f and b divides f / a. */
  lemma SplitDivisibility(f: nat, a: nat, b: nat)
    requires a > 0 && b > 0
    ensures f % (a * b) == 0 <==> f % a == 0 && (f / a) % b == 0
  {
    DivDiv(f, a, b);
    if (f / a) % b != 0 {
      MulAtLeast(a, (f / a) % b);
    }
  }

  /**
   * In the table range minus_k <= exponent, and there the test means what
   * its name says: f * 2^exponent is a multiple of 10^minus_k exactly when
   * f is a multiple of 5^minus_k, powers of 2 and of 5 being coprime.
   */
  lemma {:induction false} ProductIntegerMeaning(f: nat, exponent: nat, minusK: nat)
    requires minusK <= exponent
    ensures Divides(Pow(10, minusK), f * Pow(2, exponent)) <==> Divides(Pow(5, minusK), f)
  {
    var j := exponent - minusK;
    var x := f * Pow(2, j);
    PowAdd(2, j, minusK);
    PowProduct(5, 2, minusK);
    PowPositive(5, minusK);
    PowPositive(2, minusK);
    assert f * Pow(2, exponent) == x * Pow(2, minusK);
    MulModCancel(x, Pow(2, minusK), Pow(5, minusK));
    assert (x * Pow(2, minusK)) % Pow(10, minusK) == (x % Pow(5, minusK)) * Pow(2, minusK);
    if x % Pow(5, minusK) != 0 {
      MulAtLeast(x % Pow(5, minusK), Pow(2, minusK));
    }
    CoprimeShift(f, j, minusK);
  }

  /** Multiplying by a power of 2 neither creates nor destroys a factor 5^n. */
  lemma {:induction false} CoprimeShift(f: nat, j: nat, n: nat)
    ensures Divides(Pow(5, n), f * Pow(2, j)) <==> Divides(Pow(5, n), f)
  {
    PowPositive(5, n);
    if j > 0 {
      CoprimeShift(f, j - 1, n);
      var g := f * Pow(2, j - 1);
      assert f * Pow(2, j) == 2 * g;
      DoubleDivisible(g, n);
    }
  }

  /** A power of 5 divides 2g only when it divides g. */
  lemma DoubleDivisible(g: nat, n: nat)
    ensures Pow(5, n) > 0
    ensures (2 * g) % Pow(5, n) == 0 <==> g % Pow(5, n) == 0
  {
    PowPositive(5, n);
    PowOdd(n);
    OddDivisor(g, Pow(5, n));
  }

  lemma OddDivisor(g: nat, p: nat)
    requires p > 0 && p % 2 == 1
    ensures (2 * g) % p == 0 <==> g % p == 0
  {
    if g % p == 0 {
      MulDivCancel(2 * (g / p), 0, p);
      assert 2 * g == 2 * (g / p) * p;
    }
    if (2 * g) % p == 0 {
      var q := (2 * g) / p;
      EvenQuotient(g, p, q);
      MulDivCancel(q / 2, 0, p);
    }
  }

  /** With p odd, 2g = q * p forces q even, so g = (q / 2) * p. */
  lemma EvenQuotient(g: nat, p: nat, q: nat)
    requires p > 0 && p % 2 == 1 && 2 * g == q * p
    ensures g == (q / 2) * p
  {
    var h := q / 2;
    assert q == 2 * h + q % 2;
    assert q * p == 2 * (h * p) + (q % 2) * p;
  }

  lemma {:induction false} PowOdd(n: nat)
    ensures Pow(5, n) % 2 == 1
  {
    if n > 0 {
      PowOdd(n - 1);
      MulDivCancel(2 * Pow(5, n - 1), Pow(5, n - 1), 2);
    }
  }

  /**
   * is_z2_same_as_delta2: for the lower boundary of the edge case, a fixed
   * exponent range; otherwise whether the lower boundary's product is an
   * integer.
   */
  function IsZ2SameAsDelta2(fmt: Format, fminus: nat, exponent: int, minusK: int): (r: bool)
    requires InTableRange(fmt, exponent) ==> 0 <= minusK <= MaxMinusK(fmt)
    ensures fminus == SignBitMask(fmt) - EdgeCaseBoundaryBit(fmt) ==>
      (r <==> ZeroFractionalPartMinExponentEdge(fmt) <= exponent <= 3)
    ensures fminus != SignBitMask(fmt) - EdgeCaseBoundaryBit(fmt) ==>
      (r <==> (NonNegativeKRange(fmt, exponent)
        || (InTableRange(fmt, exponent) && Divides(Pow(5, minusK), fminus))))
  {
    if fminus != SignBitMask(fmt) - EdgeCaseBoundaryBit(fmt) then
      IsProductInteger(fmt, fminus, exponent, minusK)
    else
      exponent <= 3 && exponent >= ZeroFractionalPartMinExponentEdge(fmt)
  }

  /**
   * is_delta_integer: a fixed exponent range, narrower in the edge case.
   * DeltaIntegerMeaning shows it decides whether the interval width, scaled
   * like z, is an integer.
   */
  function IsDeltaInteger(fmt: Format, isEdgeCase: bool, exponent: int): (r: bool)
    ensures r ==> exponent <= 3
    ensures r ==> IsDeltaInteger(fmt, false, exponent)
    ensures !isEdgeCase && ZeroFractionalPartMinExponentDeltaNormal(fmt) <= exponent <= 3 ==> r
    ensures isEdgeCase && ZeroFractionalPartMinExponentEdge(fmt) <= exponent <= 3 ==> r
  {
    if isEdgeCase then
      exponent <= 3 && exponent >= ZeroFractionalPartMinExponentEdge(fmt)
    else
      exponent <= 3 && exponent >= ZeroFractionalPartMinExponentDeltaNormal(fmt)
  }

  /** x when it is not negative, otherwise 0. */
  function NonNeg(x: int): (r: nat)
    ensures r >= x && (r == x || r == 0)
  {
    if x >= 0 then x else 0
  }

  /** fplus - fminus: the width of the rounding interval, in units of 2^exponent. */
  function IntervalWidth(fmt: Format, isEdgeCase: bool): nat
  {
    if isEdgeCase then BoundaryBit(fmt) + EdgeCaseBoundaryBit(fmt) else NormalIntervalLength(fmt)
  }

  /**
   * The interval width scaled like z, IntervalWidth * 2^e * 10^(-minusK), is
   * an integer: the numerator and denominator below hold the positive and
   * the negative powers.
   */
  predicate WidthIntegral(fmt: Format, isEdgeCase: bool, e: int, minusK: int)
  {
    Divides(Pow(2, NonNeg(-e)) * Pow(10, NonNeg(minusK)),
            IntervalWidth(fmt, isEdgeCase) * Pow(2, NonNeg(e)) * Pow(10, NonNeg(-minusK)))
  }

  /** The width is an odd factor, 1 or 3, times a power of two. */
  lemma WidthShape(fmt: Format, isEdgeCase: bool) returns (c: nat, l: nat)
    ensures (c == 1 || c == 3) && IntervalWidth(fmt, isEdgeCase) == c * Pow(2, l)
    ensures !isEdgeCase ==> c == 1 && l == (if fmt == Binary64 then 11 else 8)
    ensures isEdgeCase ==> c == 3 && l == (if fmt == Binary64 then 9 else 6)
  {
    c := if isEdgeCase then 3 else 1;
    l := match fmt
      case Binary64 => if isEdgeCase then 9 else 11
      case Binary32 => if isEdgeCase then 6 else 8;
    assert Pow(2, 6) == 64 && Pow(2, 8) == 256;
    assert Pow(2, 9) == 512 && Pow(2, 11) == 2048;
  }

  /** floor_log10_pow2 in closed form on the exponents the format uses. */
  lemma MinusKOfExponent(e: int)
    requires -2620 <= e <= 2620
    ensures e >= 0 ==> FloorLog10Pow2(e) == (643 * e) / 2136
    ensures e < 0 ==> FloorLog10Pow2(e) == -((643 * -e) / 2136) - 1
  {
    var r := (e * Log10Of2Multiplier) / TWO32;
    if e > 0 {
      Log10FixedPoint(e, r);
    } else if e < 0 {
      var n := -e;
      var rp := (n * Log10Of2Multiplier) / TWO32;
      Log10FixedPoint(n, rp);
      assert e * Log10Of2Multiplier == -(n * Log10Of2Multiplier);
      NegatedFloor(n * Log10Of2Multiplier, rp, r);
    }
  }

  /** 2^a divides c * 2^b, for an odd c, exactly when a <= b. */
  lemma OddTimesPowerOfTwo(c: nat, a: nat, b: nat)
    requires c % 2 == 1
    ensures Divides(Pow(2, a), c * Pow(2, b)) <==> a <= b
  {
    if a <= b {
      PowerOfTwoDivides(c, a, b);
    } else {
      PowerOfTwoTooLarge(c, a, b);
    }
  }

  lemma MultipleDivides(c: nat, k: nat, d: nat)
    requires d > 0
    ensures Divides(d, c * (k * d))
  {
    assert c * (k * d) == (c * k) * d;
    MulDivCancel(c * k, 0, d);
  }

  lemma PowerOfTwoDivides(c: nat, a: nat, b: nat)
    requires a <= b
    ensures Divides(Pow(2, a), c * Pow(2, b))
  {
    PowPositive(2, a);
    PowAdd(2, b - a, a);
    MultipleDivides(c, Pow(2, b - a), Pow(2, a));
  }

  lemma PowerOfTwoTooLarge(c: nat, a: nat, b: nat)
    requires c % 2 == 1 && a > b
    ensures Pow(2, a) > 0 && (c * Pow(2, b)) % Pow(2, a) != 0
  {
    var pb, pd, ph := Pow(2, b), Pow(2, a - b), Pow(2, a - b - 1);
    PowPositive(2, b);
    PowPositive(2, a - b - 1);
    PowAdd(2, a - b, b);
    assert Pow(2, a) == pd * pb;
    assert pd == 2 * ph;
    MulModCancel(c, pb, pd);
    ModOfMod(c, 2, ph);
    assert c % pd != 0;
    MulAtLeast(c % pd, pb);
  }

  /** 5 never divides 1 or 3 times a power of two. */
  lemma {:induction false} NoFactorFive(c: nat, j: nat)
    requires c == 1 || c == 3
    ensures (c * Pow(2, j)) % 5 != 0
  {
    if j > 0 {
      NoFactorFive(c, j - 1);
      assert c * Pow(2, j) == 2 * (c * Pow(2, j - 1));
      OddDivisor(c * Pow(2, j - 1), 5);
    }
  }

  /** If 10^m divides x for some m >= 1, then 5 divides x. */
  lemma FiveDividesMultiple(x: nat, m: nat)
    requires m >= 1 && Divides(Pow(10, m), x)
    ensures x % 5 == 0
  {
    var k := x / Pow(10, m);
    assert x == k * Pow(10, m);
    assert x == (k * 2 * Pow(10, m - 1)) * 5;
    MulDivCancel(k * 2 * Pow(10, m - 1), 0, 5);
  }

  /**
   * Where the exact width stops being an integer below exponent 0: with
   * q = floor(643 n / 2136) the exponent -n keeps q + 1 factors of ten.
   */
  lemma NegativeExponentBound(n: nat, q: int, lower: int, l: nat)
    requires 1 <= n && 2136 * q <= 643 * n < 2136 * (q + 1)
    requires (lower, l) == (-17, 11) || (lower, l) == (-14, 9) || (lower, l) == (-12, 8) || (lower, l) == (-10, 6)
    ensures n <= -lower <==> n <= l + q + 1
  {
  }

  lemma Regroup(c: nat, x: nat, y: nat, z: nat)
    ensures c * x * 1 * (y * z) == (c * z) * (x * y)
  {
  }

  /**
   * For every exponent of the format, is_delta_integer holds exactly when
   * the width of the rounding interval, scaled by 2^e * 10^(-minus_k) as z
   * is, is an integer.
   */
  lemma DeltaIntegerMeaning(fmt: Format, isEdgeCase: bool, e: int)
    requires MinExponent(fmt) <= e <= MaxExponent(fmt)
    ensures IsDeltaInteger(fmt, isEdgeCase, e) <==> WidthIntegral(fmt, isEdgeCase, e, FloorLog10Pow2(e + 1 - Alpha))
  {
    MinusKOfExponent(e);
    if e >= 0 {
      DeltaIntegerNonNegative(fmt, isEdgeCase, e);
    } else {
      DeltaIntegerNegative(fmt, isEdgeCase, e);
    }
  }

  /** Up to exponent 3 no power of ten divides; from 4 on one does not fit. */
  lemma DeltaIntegerNonNegative(fmt: Format, isEdgeCase: bool, e: int)
    requires 0 <= e <= 2620
    ensures IsDeltaInteger(fmt, isEdgeCase, e) <==> WidthIntegral(fmt, isEdgeCase, e, FloorLog10Pow2(e))
  {
    MinusKOfExponent(e);
    if e >= 4 {
      WidthNotIntegral(fmt, isEdgeCase, e);
    } else {
      assert FloorLog10Pow2(e) == 0;
      assert NonNeg(-e) == 0 && NonNeg(0) == 0;
    }
  }

  /** From exponent 4 on, 10^(minus_k) keeps a factor 5 the width lacks. */
  lemma WidthNotIntegral(fmt: Format, isEdgeCase: bool, e: int)
    requires 4 <= e <= 2620
    ensures !WidthIntegral(fmt, isEdgeCase, e, FloorLog10Pow2(e))
  {
    var m := FloorLog10Pow2(e);
    MinusKOfExponent(e);
    var c, l := WidthShape(fmt, isEdgeCase);
    assert NonNeg(-e) == 0 && NonNeg(e) == e && NonNeg(m) == m && NonNeg(-m) == 0;
    PowAdd(2, l, e);
    assert IntervalWidth(fmt, isEdgeCase) * Pow(2, e) * Pow(10, 0) == c * Pow(2, l + e);
    if WidthIntegral(fmt, isEdgeCase, e, m) {
      assert Pow(2, 0) * Pow(10, m) == Pow(10, m);
      FiveDividesMultiple(c * Pow(2, l + e), m);
      NoFactorFive(c, l + e);
    }
  }

  /**
   * Below exponent 0 the width times 10^t, t = -minus_k, is an odd number
   * times 2^(l + t); 2^(-e) divides it while -e <= l + t.
   */
  lemma DeltaIntegerNegative(fmt: Format, isEdgeCase: bool, e: int)
    requires -2620 <= e < 0
    ensures IsDeltaInteger(fmt, isEdgeCase, e) <==> WidthIntegral(fmt, isEdgeCase, e, FloorLog10Pow2(e))
  {
    var m := FloorLog10Pow2(e);
    MinusKOfExponent(e);
    var c, l := WidthShape(fmt, isEdgeCase);
    var w := IntervalWidth(fmt, isEdgeCase);
    var n := -e;
    var t := -m;
    var q := (643 * n) / 2136;
    assert NonNeg(-e) == n && NonNeg(e) == 0 && NonNeg(m) == 0 && NonNeg(-m) == t && t == q + 1;
    PowProduct(2, 5, t);
    PowAdd(2, l, t);
    PowOdd(t);
    var odd := c * Pow(5, t);
    MulMod(c, Pow(5, t), 2);
    Regroup(c, Pow(2, l), Pow(2, t), Pow(5, t));
    assert w * Pow(2, 0) * Pow(10, t) == odd * Pow(2, l + t);
    assert Pow(2, n) * Pow(10, 0) == Pow(2, n);
    OddTimesPowerOfTwo(odd, n, l + t);
    NegativeExponentBound(n, q, if isEdgeCase then ZeroFractionalPartMinExponentEdge(fmt)
      else ZeroFractionalPartMinExponentDeltaNormal(fmt), l);
  }
}
