/**
 * The bit pattern of a binary32 or binary64 value (IEEE 754-2008, section
 * 3.4): one sign bit, exponent_bits exponent bits and precision significand
 * bits. This module holds the inspector methods of grisu_exact_impl and the
 * first steps of its main algorithm, which turn the pattern into a
 * left-aligned significand, a binary exponent, and the two boundaries of
 * the rounding interval.
 *
 * A masking `bits & m` with a mask m made of consecutive bits is written as
 * the arithmetic field it selects; a single-bit `|` is SetBit.
 */
module FloatBits {
  import opened Arith
  import opened CommonInfo

  /** 2^precision: one unit of the exponent field. */
  function HiddenBit(fmt: Format): nat
  {
    match fmt
    case Binary32 => 0x80_0000
    case Binary64 => 0x10_0000_0000_0000
  }

  /** 2^exponent_bits: the number of values of the exponent field. */
  function ExponentRange(fmt: Format): nat
  {
    match fmt
    case Binary32 => 0x100
    case Binary64 => 0x800
  }

  /** The field weights agree with the common_info masks. */
  lemma FieldConstants(fmt: Format)
    ensures HiddenBit(fmt) == Pow(2, Precision(fmt))
    ensures ExponentRange(fmt) == Pow(2, ExponentBits(fmt))
    ensures SignBitMask(fmt) == ExponentRange(fmt) * HiddenBit(fmt)
    ensures Modulus(fmt) == 2 * SignBitMask(fmt)
    ensures ExponentBitsMask(fmt) == (ExponentRange(fmt) - 1) * HiddenBit(fmt)
    ensures ExponentRange(fmt) == NormalIntervalLength(fmt) == 2 * BoundaryBit(fmt)
    ensures BoundaryBit(fmt) == 2 * EdgeCaseBoundaryBit(fmt)
  {
    SqPowIsPow(2, Precision(fmt));
    SqPowIsPow(2, ExponentBits(fmt));
    match fmt
    case Binary32 =>
      assert SqPow(2, 23) == 0x80_0000 && SqPow(2, 8) == 0x100;
    case Binary64 =>
      assert SqPow(2, 52) == 0x10_0000_0000_0000 && SqPow(2, 11) == 0x800;
  }

  /** (bits & exponent_bits_mask) >> precision */
  function ExponentField(fmt: Format, bits: nat): nat
  {
    (bits / HiddenBit(fmt)) % ExponentRange(fmt)
  }

  /** (bits & sign_bit_mask) >> (extended_precision - 1) */
  function SignField(fmt: Format, bits: nat): nat
  {
    (bits / SignBitMask(fmt)) % 2
  }

  /** extract_significand: bits & ((1 << precision) - 1), the low precision bits. */
  function ExtractSignificand(fmt: Format, bits: nat): (m: nat)
    ensures m < HiddenBit(fmt) && (bits - m) % HiddenBit(fmt) == 0
  {
    DivModUnique(bits - bits % HiddenBit(fmt), HiddenBit(fmt), bits / HiddenBit(fmt), 0);
    bits % HiddenBit(fmt)
  }

  /** A bit pattern is its three fields laid side by side. */
  lemma FieldsRecombine(fmt: Format, bits: nat)
    requires bits < Modulus(fmt)
    ensures SignField(fmt, bits) == bits / SignBitMask(fmt)
    ensures bits == SignField(fmt, bits) * SignBitMask(fmt)
      + ExponentField(fmt, bits) * HiddenBit(fmt) + ExtractSignificand(fmt, bits)
  {
    FieldConstants(fmt);
    var h, r := HiddenBit(fmt), ExponentRange(fmt);
    DivDiv(bits, h, r);
    DivUpperBound(bits, SignBitMask(fmt), 2);
    assert bits / h == ((bits / h) / r) * r + (bits / h) % r;
  }

  /** Laying three fields side by side gives a pattern with those fields. */
  lemma FieldsSeparate(fmt: Format, s: nat, e: nat, m: nat)
    requires s < 2 && e < ExponentRange(fmt) && m < HiddenBit(fmt)
    ensures var bits := s * SignBitMask(fmt) + e * HiddenBit(fmt) + m;
      bits < Modulus(fmt) && SignField(fmt, bits) == s
      && ExponentField(fmt, bits) == e && ExtractSignificand(fmt, bits) == m
  {
    FieldConstants(fmt);
    var h, r := HiddenBit(fmt), ExponentRange(fmt);
    var bits := s * SignBitMask(fmt) + e * HiddenBit(fmt) + m;
    assert bits == (s * r + e) * h + m;
    DivModUnique(bits, h, s * r + e, m);
    DivModUnique(s * r + e, r, s, e);
    assert e * h + m < r * h by {
      MulLe(e + 1, h, r, h);
    }
    DivModUnique(bits, SignBitMask(fmt), s, e * h + m);
  }

  /** is_finite: the exponent field is not all ones. */
  predicate IsFinite(fmt: Format, bits: nat)
  {
    ExponentField(fmt, bits) != ExponentRange(fmt) - 1
  }

  /** is_nonzero: some bit other than the sign bit is set. */
  function IsNonzero(fmt: Format, bits: nat): (r: bool)
    requires bits < Modulus(fmt)
    ensures r <==> ExponentField(fmt, bits) != 0 || ExtractSignificand(fmt, bits) != 0
  {
    FieldsRecombine(fmt, bits);
    FieldConstants(fmt);
    ModOfLayout(SignField(fmt, bits), ExponentField(fmt, bits), ExtractSignificand(fmt, bits),
      HiddenBit(fmt), SignBitMask(fmt), bits);
    bits % SignBitMask(fmt) != 0
  }

  lemma ModOfLayout(s: nat, e: nat, m: nat, h: nat, w: nat, bits: nat)
    requires h > 0 && w > 0 && m < h && e * h + m < w && bits == s * w + e * h + m
    ensures bits % w == e * h + m
    ensures bits % w == 0 <==> e == 0 && m == 0
  {
    DivModUnique(bits, w, s, e * h + m);
    if e != 0 {
      MulAtLeast(h, e);
    }
  }

  /** is_subnormal: the exponent field is zero (both zeros included). */
  predicate IsSubnormal(fmt: Format, bits: nat)
  {
    ExponentField(fmt, bits) == 0
  }

  /** is_negative: the sign bit is set. */
  predicate IsNegative(fmt: Format, bits: nat)
  {
    SignField(fmt, bits) != 0
  }

  /** is_positive: the sign bit is clear. */
  function IsPositive(fmt: Format, bits: nat): (r: bool)
    requires bits < Modulus(fmt)
    ensures r <==> bits < SignBitMask(fmt)
    ensures r <==> !IsNegative(fmt, bits)
  {
    FieldsRecombine(fmt, bits);
    FieldConstants(fmt);
    SignField(fmt, bits) == 0
  }

  /** is_positive_infinity: the pattern equals exponent_bits_mask. */
  function IsPositiveInfinity(fmt: Format, bits: nat): (r: bool)
    requires bits < Modulus(fmt)
    ensures r <==> !IsFinite(fmt, bits) && ExtractSignificand(fmt, bits) == 0 && IsPositive(fmt, bits)
  {
    FieldsRecombine(fmt, bits);
    FieldConstants(fmt);
    MaskedPattern(fmt, bits, 0);
    bits == ExponentBitsMask(fmt)
  }

  /** is_negative_infinity: the pattern equals exponent_bits_mask | sign_bit_mask. */
  function IsNegativeInfinity(fmt: Format, bits: nat): (r: bool)
    requires bits < Modulus(fmt)
    ensures r <==> !IsFinite(fmt, bits) && ExtractSignificand(fmt, bits) == 0 && IsNegative(fmt, bits)
  {
    FieldsRecombine(fmt, bits);
    FieldConstants(fmt);
    MaskedPattern(fmt, bits, 1);
    bits == ExponentBitsMask(fmt) + SignBitMask(fmt)
  }

  /** The pattern with sign s, all exponent bits set and a zero significand. */
  lemma MaskedPattern(fmt: Format, bits: nat, s: nat)
    requires bits < Modulus(fmt) && s < 2
    ensures bits == ExponentBitsMask(fmt) + s * SignBitMask(fmt) <==>
      SignField(fmt, bits) == s && ExponentField(fmt, bits) == ExponentRange(fmt) - 1
      && ExtractSignificand(fmt, bits) == 0
  {
    FieldConstants(fmt);
    FieldsRecombine(fmt, bits);
    FieldsSeparate(fmt, s, ExponentRange(fmt) - 1, 0);
  }

  /** is_infinity: either infinity. */
  function IsInfinity(fmt: Format, bits: nat): (r: bool)
    requires bits < Modulus(fmt)
    ensures r <==> !IsFinite(fmt, bits) && ExtractSignificand(fmt, bits) == 0
  {
    IsPositiveInfinity(fmt, bits) || IsNegativeInfinity(fmt, bits)
  }

  /** is_nan: not finite, with a nonzero significand field. */
  predicate IsNan(fmt: Format, bits: nat)
  {
    !IsFinite(fmt, bits) && ExtractSignificand(fmt, bits) != 0
  }

  /** Every pattern is exactly one of finite, infinite and NaN. */
  lemma ClassificationPartition(fmt: Format, bits: nat)
    requires bits < Modulus(fmt)
    ensures IsFinite(fmt, bits) || IsInfinity(fmt, bits) || IsNan(fmt, bits)
    ensures !(IsFinite(fmt, bits) && IsInfinity(fmt, bits))
    ensures !(IsFinite(fmt, bits) && IsNan(fmt, bits))
    ensures !(IsInfinity(fmt, bits) && IsNan(fmt, bits))
    ensures IsSubnormal(fmt, bits) ==> IsFinite(fmt, bits)
  {
  }

  /** The bit that tells a quiet NaN from a signalling one: 2^(precision-1). */
  function QuietBit(fmt: Format): nat
  {
    HiddenBit(fmt) / 2
  }

  /**
   * is_quiet_nan: a NaN whose quiet-or-signal bit agrees with that of the
   * platform's quiet_NaN(), whose pattern is taken as a parameter.
   */
  predicate IsQuietNan(fmt: Format, bits: nat, quietNanBits: nat)
  {
    if !IsNan(fmt, bits) then false
    else (quietNanBits / QuietBit(fmt)) % 2 == (bits / QuietBit(fmt)) % 2
  }

  /** is_signaling_nan */
  predicate IsSignalingNan(fmt: Format, bits: nat, quietNanBits: nat)
  {
    IsNan(fmt, bits) && !IsQuietNan(fmt, bits, quietNanBits)
  }

  /** get_nan_payload: the significand bits below the quiet-or-signal bit. */
  function GetNanPayload(fmt: Format, bits: nat): (p: nat)
    ensures p < QuietBit(fmt)
    ensures ExtractSignificand(fmt, bits) == ((bits / QuietBit(fmt)) % 2) * QuietBit(fmt) + p
  {
    FieldConstants(fmt);
    var q := QuietBit(fmt);
    assert HiddenBit(fmt) == q * 2;
    DivDiv(bits, q, 2);
    bits % q
  }

  /** A NaN is quiet or signalling, never both. */
  lemma NanKinds(fmt: Format, bits: nat, quietNanBits: nat)
    ensures IsNan(fmt, bits) <==> IsQuietNan(fmt, bits, quietNanBits) || IsSignalingNan(fmt, bits, quietNanBits)
    ensures !(IsQuietNan(fmt, bits, quietNanBits) && IsSignalingNan(fmt, bits, quietNanBits))
  {
  }

  /** fp_t: a significand and a binary exponent. */
  datatype ExtendedFp = ExtendedFp(significand: nat, exponent: int)

  /**
   * The decomposition at the head of the main algorithm: the stored
   * significand shifted left by exponent_bits (the shift also pushes the
   * sign and exponent out of the word), the implicit bit restored for a
   * normal input, and the binary exponent of the left-aligned significand.
   */
  function Decompose(fmt: Format, bits: nat): (x: ExtendedFp)
    requires bits < Modulus(fmt)
    ensures x.significand < Modulus(fmt)
    ensures x.significand == (if ExponentField(fmt, bits) != 0 then SignBitMask(fmt) else 0)
      + ExtractSignificand(fmt, bits) * ExponentRange(fmt)
    ensures x.exponent == (if ExponentField(fmt, bits) != 0 then ExponentField(fmt, bits) else 1)
      + ExponentBias(fmt) - ExtendedPrecision(fmt) + 1
  {
    FieldConstants(fmt);
    FieldsRecombine(fmt, bits);
    var e, m := ExponentField(fmt, bits), ExtractSignificand(fmt, bits);
    var w := Modulus(fmt);
    // bits << (extended_precision - precision - 1), in extended_significand_type
    var significand := (bits * ExponentRange(fmt)) % w;
    // (bits << 1) >> (precision + 1)
    var exponent := ((bits * 2) % w) / (2 * HiddenBit(fmt));
    ShiftedPattern(SignField(fmt, bits), e, m, HiddenBit(fmt), ExponentRange(fmt), bits);
    if exponent != 0 then
      ExtendedFp(SetBit(significand, SignBitMask(fmt)), exponent + ExponentBias(fmt) - ExtendedPrecision(fmt) + 1)
    else
      ExtendedFp(significand, ExponentBias(fmt) - ExtendedPrecision(fmt) + 2)
  }

  /**
   * With bits = s*h*r + e*h + m, shifting left by log2 r in a word of 2*h*r
   * keeps the low exponent bit on top of the significand field, and
   * shifting left by one then right by log2 h + 1 leaves the exponent field.
   */
  lemma ShiftedPattern(s: nat, e: nat, m: nat, h: nat, r: nat, bits: nat)
    requires h > 0 && r >= 2 && r % 2 == 0 && s < 2 && e < r && m < h
    requires bits == s * (r * h) + e * h + m
    ensures var sig := (bits * r) % (2 * (r * h));
      sig == (e % 2) * (r * h) + m * r && (sig / (r * h)) % 2 == e % 2
    ensures ((bits * 2) % (2 * (r * h))) / (2 * h) == e
  {
    var rh := r * h;
    ShiftedSignificand(s, e, m, h, r, rh, bits);
    ShiftOutSign(s, e, m, h, r, rh, bits);
  }

  lemma ShiftedSignificand(s: nat, e: nat, m: nat, h: nat, r: nat, rh: nat, bits: nat)
    requires h > 0 && r >= 2 && r % 2 == 0 && s < 2 && e < r && m < h
    requires rh == r * h && bits == s * rh + e * h + m
    ensures var sig := (bits * r) % (2 * rh);
      sig == (e % 2) * rh + m * r && (sig / rh) % 2 == e % 2
  {
    var lo, mr := e % 2, m * r;
    assert mr < rh by {
      MulStrictLeft(m, h, r);
    }
    assert bits * r == (s * (r / 2) + e / 2) * (2 * rh) + (lo * rh + mr) by {
      ShiftLeftField(s, e, m, h, r, rh, bits, r / 2);
    }
    SplitAtWord(bits * r, rh, s * (r / 2) + e / 2, lo, mr);
  }

  /** x = q * 2rh + (lo * rh + mr) with lo a bit and mr < rh: the low word and its top bit. */
  lemma SplitAtWord(x: nat, rh: nat, q: nat, lo: nat, mr: nat)
    requires lo < 2 && mr < rh && x == q * (2 * rh) + (lo * rh + mr)
    ensures x % (2 * rh) == lo * rh + mr && ((x % (2 * rh)) / rh) % 2 == lo
  {
    assert lo * rh + mr < 2 * rh by {
      MulLe(lo, rh, 1, rh);
    }
    DivModUnique(x, 2 * rh, q, lo * rh + mr);
    DivModUnique(lo * rh + mr, rh, lo, mr);
  }

  /** bits << log2 r, split at the word boundary 2 * r * h. */
  lemma ShiftLeftField(s: nat, e: nat, m: nat, h: nat, r: nat, rh: nat, bits: nat, k: nat)
    requires r == 2 * k && rh == r * h && bits == s * rh + e * h + m
    ensures bits * r == (s * k + e / 2) * (2 * rh) + ((e % 2) * rh + m * r)
  {
    assert e == 2 * (e / 2) + e % 2;
    assert bits * r == s * rh * r + e * (h * r) + m * r;
    assert s * rh * r == (s * k) * (2 * rh);
    assert e * (h * r) == (e / 2) * (2 * rh) + (e % 2) * rh;
  }

  /** (bits << 1) >> (log2 h + 1) in a word of 2 * r * h is the exponent field. */
  lemma ShiftOutSign(s: nat, e: nat, m: nat, h: nat, r: nat, rh: nat, bits: nat)
    requires h > 0 && e < r && m < h && rh == r * h && bits == s * rh + e * h + m
    ensures ((bits * 2) % (2 * rh)) / (2 * h) == e
  {
    assert e * h + m < rh by {
      MulLe(e + 1, h, r, h);
    }
    DivModUnique(bits * 2, 2 * rh, s, 2 * (e * h + m));
    DivModUnique(2 * (e * h + m), 2 * h, e, 2 * m);
  }

  /** A subnormal input gets the exponent of a normal input with exponent field 1. */
  lemma SubnormalExponent(fmt: Format, bits: nat, normal: nat)
    requires bits < Modulus(fmt) && normal < Modulus(fmt)
    requires IsSubnormal(fmt, bits) && ExponentField(fmt, normal) == 1
    ensures Decompose(fmt, bits).exponent == Decompose(fmt, normal).exponent
  {
  }

  /** The binary exponent of every finite input lies in [min_exponent, max_exponent]. */
  lemma ExponentInRange(fmt: Format, bits: nat)
    requires bits < Modulus(fmt) && IsFinite(fmt, bits)
    ensures MinExponent(fmt) <= Decompose(fmt, bits).exponent <= MaxExponent(fmt)
  {
  }

  /** The rounding interval's ends and whether the lower one is the closer edge-case boundary. */
  datatype Boundaries = Boundaries(fplus: nat, fminus: nat, isEdgeCase: bool)

  /**
   * fplus = significand | boundary_bit; the edge case is a significand equal
   * to sign_bit_mask; fminus is sign_bit_mask - edge_case_boundary_bit there
   * and fplus - normal_interval_length otherwise, in extended_significand_type.
   */
  function ComputeBoundaries(fmt: Format, significand: nat): (b: Boundaries)
    requires significand < Modulus(fmt)
    ensures significand % ExponentRange(fmt) == 0 && significand >= ExponentRange(fmt) ==>
      b.fplus == significand + BoundaryBit(fmt)
      && (b.isEdgeCase <==> significand == SignBitMask(fmt))
      && b.fminus == significand - (if b.isEdgeCase then EdgeCaseBoundaryBit(fmt) else BoundaryBit(fmt))
  {
    FieldConstants(fmt);
    var fplus := SetBit(significand, BoundaryBit(fmt));
    var isEdgeCase := fplus == SignBitMask(fmt) + BoundaryBit(fmt);
    var fminus := if isEdgeCase then SignBitMask(fmt) - EdgeCaseBoundaryBit(fmt)
      else (fplus - 2 * BoundaryBit(fmt)) % Modulus(fmt);
    BoundaryBitClear(significand, BoundaryBit(fmt));
    Boundaries(fplus, fminus, isEdgeCase)
  }

  lemma BoundaryBitClear(x: nat, b: nat)
    requires b > 0
    ensures x % (2 * b) == 0 ==> (x / b) % 2 == 0
  {
    DivDiv(x, b, 2);
  }

  /**
   * For a finite nonzero input: fplus - significand is boundary_bit;
   * significand - fminus is boundary_bit, or edge_case_boundary_bit for a
   * normal input with a zero significand field; so fminus < significand < fplus.
   */
  lemma BoundariesOfInput(fmt: Format, bits: nat)
    requires bits < Modulus(fmt) && IsFinite(fmt, bits) && IsNonzero(fmt, bits)
    ensures var x := Decompose(fmt, bits);
      var b := ComputeBoundaries(fmt, x.significand);
      && b.fplus - x.significand == BoundaryBit(fmt)
      && (b.isEdgeCase <==> ExponentField(fmt, bits) != 0 && ExtractSignificand(fmt, bits) == 0)
      && x.significand - b.fminus == (if b.isEdgeCase then EdgeCaseBoundaryBit(fmt) else BoundaryBit(fmt))
      && 0 < b.fminus < x.significand < b.fplus < Modulus(fmt)
      && b.fplus >= NormalIntervalLength(fmt) + BoundaryBit(fmt)
  {
    FieldConstants(fmt);
    var e, m := ExponentField(fmt, bits), ExtractSignificand(fmt, bits);
    var r := ExponentRange(fmt);
    var x := Decompose(fmt, bits);
    assert (m * r) % r == 0 by {
      MulDivCancel(m, 0, r);
    }
    assert x.significand % r == 0 by {
      if e != 0 {
        MulDivCancel(m + HiddenBit(fmt), 0, r);
        assert x.significand == (m + HiddenBit(fmt)) * r;
      }
    }
    assert x.significand >= r by {
      if m != 0 {
        MulAtLeast(r, m);
      }
    }
    assert x.significand + BoundaryBit(fmt) < Modulus(fmt) by {
      MulLe(m, r, HiddenBit(fmt) - 1, r);
    }
    assert x.significand == SignBitMask(fmt) <==> e != 0 && m == 0 by {
      if e == 0 {
        MulLe(m, r, HiddenBit(fmt) - 1, r);
      }
    }
  }
}
