/**
 * The rounding-mode policies of grisu_exact_rounding_modes. Each one looks
 * at the bit pattern of the input and says whether the left and the right
 * boundary of the rounding interval belong to it.
 */
module RoundingModes {
  import opened CommonInfo
  import opened FloatBits

  datatype RoundingMode =
    | NearestToEven
    | NearestTowardZero
    | NearestDownward
    | NearestUpward
    | NearestFast

  datatype BoundaryFlags = BoundaryFlags(containLeft: bool, containRight: bool)

  /** The sign test of the directed modes: (bits & sign_bit_mask) == 0. */
  predicate SignBitClear(fmt: Format, bits: nat)
  {
    SignField(fmt, bits) == 0
  }

  /** The pair each policy returns for the given bit pattern. */
  function ContainBoundaries(mode: RoundingMode, fmt: Format, bits: nat): (b: BoundaryFlags)
    ensures mode == NearestFast ==> b.containLeft && b.containRight
    ensures mode == NearestToEven ==> b.containLeft == b.containRight == (bits % 2 == 0)
  {
    match mode
    case NearestToEven => BoundaryFlags(bits % 2 == 0, bits % 2 == 0)
    case NearestTowardZero => BoundaryFlags(false, true)
    case NearestDownward =>
      if SignBitClear(fmt, bits) then BoundaryFlags(false, true) else BoundaryFlags(true, false)
    case NearestUpward =>
      if SignBitClear(fmt, bits) then BoundaryFlags(true, false) else BoundaryFlags(false, true)
    case NearestFast => BoundaryFlags(true, true)
  }

  /** The directed modes contain exactly one of the two boundaries. */
  lemma DirectedModesContainOneBoundary(mode: RoundingMode, fmt: Format, bits: nat)
    requires mode == NearestTowardZero || mode == NearestDownward || mode == NearestUpward
    ensures ContainBoundaries(mode, fmt, bits).containLeft != ContainBoundaries(mode, fmt, bits).containRight
  {
  }

  /** Upward is downward with the two boundaries swapped. */
  lemma UpwardMirrorsDownward(fmt: Format, bits: nat)
    ensures ContainBoundaries(NearestUpward, fmt, bits).containLeft
      == ContainBoundaries(NearestDownward, fmt, bits).containRight
    ensures ContainBoundaries(NearestUpward, fmt, bits).containRight
      == ContainBoundaries(NearestDownward, fmt, bits).containLeft
  {
  }

  /**
   * The directed modes look only at the sign: downward on a positive input
   * and upward on a negative one behave as toward zero, and the sign test
   * is the comparison with sign_bit_mask.
   */
  lemma DirectedModesBySign(fmt: Format, bits: nat)
    requires bits < Modulus(fmt)
    ensures SignBitClear(fmt, bits) <==> bits < SignBitMask(fmt)
    ensures bits < SignBitMask(fmt) ==>
      ContainBoundaries(NearestDownward, fmt, bits) == ContainBoundaries(NearestTowardZero, fmt, bits)
    ensures bits >= SignBitMask(fmt) ==>
      ContainBoundaries(NearestUpward, fmt, bits) == ContainBoundaries(NearestTowardZero, fmt, bits)
  {
    assert IsPositive(fmt, bits) <==> bits < SignBitMask(fmt);
  }
}
