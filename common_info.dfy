/**
 * common_info: the parameters of the IEEE-754 binary32 and binary64 formats
 * and of the algorithm's precision settings. Each constant is given by its
 * value; FormulaConstants proves that the values are the ones the source
 * derives from the format's numeric limits.
 */
module CommonInfo {
  import opened Arith
  import opened LogEstimates

  datatype Format = Binary32 | Binary64

  /** std::numeric_limits<Float>::digits */
  function Digits(f: Format): nat
  {
    match f
    case Binary32 => 24
    case Binary64 => 53
  }

  /** std::numeric_limits<Float>::min_exponent */
  function LimitsMinExponent(f: Format): int
  {
    match f
    case Binary32 => -125
    case Binary64 => -1021
  }

  /** std::numeric_limits<Float>::max_exponent */
  function LimitsMaxExponent(f: Format): int
  {
    match f
    case Binary32 => 128
    case Binary64 => 1024
  }

  /** Number of stored significand bits. */
  function Precision(f: Format): nat
  {
    match f
    case Binary32 => 23
    case Binary64 => 52
  }

  /** Width of extended_significand_type (uint32_t or uint64_t). */
  function ExtendedPrecision(f: Format): nat
  {
    match f
    case Binary32 => 32
    case Binary64 => 64
  }

  /** 2^extended_precision: arithmetic on extended_significand_type wraps modulo this. */
  function Modulus(f: Format): nat
  {
    match f
    case Binary32 => TWO32
    case Binary64 => TWO64
  }

  function SignBitMask(f: Format): nat
  {
    match f
    case Binary32 => 0x8000_0000
    case Binary64 => 0x8000_0000_0000_0000
  }

  function ExponentBits(f: Format): nat
  {
    match f
    case Binary32 => 8
    case Binary64 => 11
  }

  function ExponentBias(f: Format): int
  {
    match f
    case Binary32 => -127
    case Binary64 => -1023
  }

  function ExponentBitsMask(f: Format): nat
  {
    match f
    case Binary32 => 0x7f80_0000
    case Binary64 => 0x7ff0_0000_0000_0000
  }

  /** The bit just below the last significand bit of the shifted significand. */
  function BoundaryBit(f: Format): nat
  {
    match f
    case Binary32 => 128
    case Binary64 => 1024
  }

  function NormalIntervalLength(f: Format): nat
  {
    2 * BoundaryBit(f)
  }

  function EdgeCaseBoundaryBit(f: Format): nat
  {
    BoundaryBit(f) / 2
  }

  function MinExponent(f: Format): int
  {
    match f
    case Binary32 => -157
    case Binary64 => -1085
  }

  function MaxExponent(f: Format): int
  {
    match f
    case Binary32 => 96
    case Binary64 => 960
  }

  const Alpha: int := 1
  const Gamma: int := 4

  function InitialKappa(f: Format): nat
  {
    match f
    case Binary32 => 4
    case Binary64 => 7
  }

  function MinK(f: Format): int
  {
    match f
    case Binary32 => -28
    case Binary64 => -288
  }

  function MaxK(f: Format): int
  {
    match f
    case Binary32 => 48
    case Binary64 => 327
  }

  function CachePrecision(f: Format): nat
  {
    2 * ExtendedPrecision(f)
  }

  function ZeroFractionalPartMinExponentNormal(f: Format): int
  {
    match f
    case Binary32 => -10
    case Binary64 => -14
  }

  function ZeroFractionalPartMinExponentEdge(f: Format): int
  {
    match f
    case Binary32 => -10
    case Binary64 => -14
  }

  function ZeroFractionalPartMaxExponentNormal(f: Format): int
  {
    match f
    case Binary32 => 36
    case Binary64 => 79
  }

  function ZeroFractionalPartMinExponentDeltaNormal(f: Format): int
  {
    match f
    case Binary32 => -12
    case Binary64 => -17
  }

  /** The constants agree with the formulas of common_info and its static_asserts hold. */
  lemma FormulaConstants(f: Format)
    ensures Precision(f) == Digits(f) - 1
    ensures Modulus(f) == Pow(2, ExtendedPrecision(f))
    ensures SignBitMask(f) == Pow(2, ExtendedPrecision(f) - 1)
    ensures ExponentBits(f) == ExtendedPrecision(f) - Precision(f) - 1
    ensures ExponentBias(f) == 1 - Pow(2, ExponentBits(f) - 1)
    ensures ExponentBitsMask(f) == (Pow(2, ExponentBits(f)) - 1) * Pow(2, Precision(f))
    ensures BoundaryBit(f) == Pow(2, ExtendedPrecision(f) - Precision(f) - 2)
    ensures MinExponent(f) == LimitsMinExponent(f) - ExtendedPrecision(f)
    ensures MaxExponent(f) == LimitsMaxExponent(f) - ExtendedPrecision(f)
    ensures MinExponent(f) < 0 && MaxExponent(f) > 0 && -MinExponent(f) >= MaxExponent(f)
    ensures Alpha > 0 && InitialKappa(f) >= Gamma
    ensures MinK(f) == -FloorLog10Pow2(MaxExponent(f) + 1 - Alpha)
    ensures MaxK(f) == -FloorLog10Pow2(MinExponent(f) + 1 - Alpha)
  {
    SqPowIsPow(2, ExtendedPrecision(f));
    SqPowIsPow(2, ExtendedPrecision(f) - 1);
    SqPowIsPow(2, Precision(f));
    SqPowIsPow(2, ExponentBits(f));
    SqPowIsPow(2, ExponentBits(f) - 1);
    SqPowIsPow(2, ExtendedPrecision(f) - Precision(f) - 2);
    match f
    case Binary32 =>
      assert SqPow(2, 32) == TWO32 && SqPow(2, 31) == 0x8000_0000;
      assert SqPow(2, 23) == 0x80_0000 && SqPow(2, 8) == 256 && SqPow(2, 7) == 128;
    case Binary64 =>
      assert SqPow(2, 64) == TWO64 && SqPow(2, 63) == 0x8000_0000_0000_0000;
      assert SqPow(2, 52) == 0x10_0000_0000_0000 && SqPow(2, 11) == 2048;
      assert SqPow(2, 10) == 1024;
  }

  /** compute_power: b^e by repeated multiplication, which wraps modulo 2^W. */
  method ComputePower(f: Format, b: nat, e: nat) returns (r: nat)
    requires b < Modulus(f)
    ensures r == Pow(b, e) % Modulus(f)
  {
    r := 1;
    var i := 0;
    while i < e
      invariant 0 <= i <= e
      invariant r == Pow(b, i) % Modulus(f)
    {
      MulMod(Pow(b, i), b, Modulus(f));
      r := (r * b) % Modulus(f);
      i := i + 1;
    }
  }

  /** The powers the algorithm takes from compute_power do not wrap around. */
  lemma PowersFitInWord(f: Format)
    ensures Pow(10, InitialKappa(f) + 1) < Modulus(f)
    ensures f == Binary32 ==> Pow(5, 10) < Modulus(f)
    ensures f == Binary64 ==> Pow(5, 23) < Modulus(f)
  {
    match f
    case Binary32 =>
      PowValue(10, 5, 100000);
      PowValue(5, 10, 9765625);
    case Binary64 =>
      PowValue(10, 8, 100000000);
      PowValue(5, 23, 11920928955078125);
  }

  /** A power computed by squaring: Pow(b, e) == v when SqPow(b, e) evaluates to v. */
  lemma PowValue(b: nat, e: nat, v: nat)
    requires SqPow(b, e) == v
    ensures Pow(b, e) == v
  {
    SqPowIsPow(b, e);
  }
}
