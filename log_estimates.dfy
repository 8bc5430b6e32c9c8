/**
 * The two logarithm estimators of grisu_exact_detail: floor(e * log10(2))
 * and floor(e * log2(10)), each computed by a 32-bit fixed-point
 * multiplication followed by an arithmetic right shift by 32 (a floor
 * division, which is what Dafny's `/` by a positive divisor is).
 *
 * The bracket lemmas state the meaning of each estimate through powers:
 * r = floor(e * log10(2)) exactly when 10^r <= 2^e < 10^(r+1). They are
 * proved from rational bounds on the two logarithms whose integer forms
 * (such as 10^643 < 2^2136) are evaluated by repeated squaring.
 */
module LogEstimates {
  import opened Arith

  /** floor(log10(2) * 2^32) */
  const Log10Of2Multiplier: int := 0x4d104d42
  /** floor((log2(10) - 3) * 2^32) */
  const Log2Of10FracMultiplier: int := 0x5269e12f

  /**
   * The estimates are only claimed for exponents of this magnitude; the
   * arguments are 32-bit ints, whose products with the multipliers fit in
   * 64 bits.
   */
  const MaxEstimatedExponent: int := 65536

  /** 10^r <= 2^e < 10^(r+1), written with natural powers only. */
  ghost predicate IsFloorLog10Pow2(e: int, r: int)
  {
    if e >= 0 then r >= 0 && Pow(10, r) <= Pow(2, e) < Pow(10, r + 1)
    else r < 0 && Pow(10, -r - 1) < Pow(2, -e) <= Pow(10, -r)
  }

  /** 2^r <= 10^e < 2^(r+1), written with natural powers only. */
  ghost predicate IsFloorLog2Pow10(e: int, r: int)
  {
    if e >= 0 then r >= 0 && Pow(2, r) <= Pow(10, e) < Pow(2, r + 1)
    else r < 0 && Pow(2, -r - 1) < Pow(10, -e) <= Pow(2, -r)
  }

  /** floor_log10_pow2 */
  function FloorLog10Pow2(e: int): (r: int)
    requires -MaxEstimatedExponent <= e <= MaxEstimatedExponent
    ensures -2620 <= e <= 2620 ==> IsFloorLog10Pow2(e, r)
  {
    var r := (e * Log10Of2Multiplier) / TWO32;
    if -2620 <= e <= 2620 then
      Log10Pow2Bracket(e, r);
      r
    else
      r
  }

  /** floor_log2_pow10 */
  function FloorLog2Pow10(e: int): (r: int)
    requires -MaxEstimatedExponent <= e <= MaxEstimatedExponent
    ensures -642 <= e <= 642 ==> IsFloorLog2Pow10(e, r)
  {
    var r := 3 * e + (e * Log2Of10FracMultiplier) / TWO32;
    if -642 <= e <= 642 then
      Log2Pow10Bracket(e, r);
      r
    else
      r
  }

  /**
   * If p/q < log_b(a) < p2/q2 (in the integer forms b^p < a^q and
   * a^q2 < b^p2) and r/e lies between, then b^r < a^e < b^(r+1).
   */
  lemma Sandwich(a: nat, b: nat, e: nat, r: nat, p: nat, q: nat, p2: nat, q2: nat)
    requires a >= 2 && b >= 2 && e >= 1 && q >= 1 && q2 >= 1
    requires SqPow(b, p) < SqPow(a, q) && SqPow(a, q2) < SqPow(b, p2)
    requires q * r <= p * e && p2 * e <= q2 * (r + 1)
    ensures Pow(b, r) < Pow(a, e) < Pow(b, r + 1)
  {
    SqPowIsPow(b, p);
    SqPowIsPow(a, q);
    SqPowIsPow(a, q2);
    SqPowIsPow(b, p2);
    SandwichBelow(a, b, e, r, p, q);
    SandwichAbove(a, b, e, r + 1, p2, q2);
  }

  /** (b^r)^q <= b^(p*e) = (b^p)^e < (a^q)^e = (a^e)^q */
  lemma SandwichBelow(a: nat, b: nat, e: nat, r: nat, p: nat, q: nat)
    requires b >= 2 && e >= 1 && q >= 1
    requires Pow(b, p) < Pow(a, q) && q * r <= p * e
    ensures Pow(b, r) < Pow(a, e)
  {
    MulNat(q, r);
    MulNat(p, e);
    MulNat(q, e);
    assert Pow(b, q * r) <= Pow(b, p * e) by {
      PowMonotone(b, q * r, p * e);
    }
    assert Pow(b, p * e) < Pow(a, q * e) by {
      PowMul(b, p, e);
      PowBaseStrict(Pow(b, p), Pow(a, q), e);
      PowMul(a, q, e);
    }
    assert Pow(Pow(b, r), q) < Pow(Pow(a, e), q) by {
      PowMulCommuted(b, r, q);
      PowMulCommuted(a, e, q);
    }
    PowRootStrict(Pow(b, r), Pow(a, e), q);
  }

  /** (a^e)^q2 = (a^q2)^e < (b^p2)^e = b^(p2*e) <= (b^s)^q2 */
  lemma SandwichAbove(a: nat, b: nat, e: nat, s: nat, p2: nat, q2: nat)
    requires b >= 2 && e >= 1 && q2 >= 1
    requires Pow(a, q2) < Pow(b, p2) && p2 * e <= q2 * s
    ensures Pow(a, e) < Pow(b, s)
  {
    MulNat(q2, e);
    MulNat(p2, e);
    MulNat(q2, s);
    assert Pow(a, q2 * e) < Pow(b, p2 * e) by {
      PowMul(a, q2, e);
      PowBaseStrict(Pow(a, q2), Pow(b, p2), e);
      PowMul(b, p2, e);
    }
    assert Pow(b, p2 * e) <= Pow(b, q2 * s) by {
      PowMonotone(b, p2 * e, q2 * s);
    }
    assert Pow(Pow(a, e), q2) < Pow(Pow(b, s), q2) by {
      PowMulCommuted(a, e, q2);
      PowMulCommuted(b, s, q2);
    }
    PowRootStrict(Pow(a, e), Pow(b, s), q2);
  }

  /** 643/2136 < log10(2) */
  lemma Log10Of2Above()
    ensures SqPow(10, 643) < SqPow(2, 2136)
  {
  }

  /** log10(2) < 789/2621 */
  lemma Log10Of2Below()
    ensures SqPow(2, 2621) < SqPow(10, 789)
  {
  }

  /** 485/146 < log2(10) */
  lemma Log2Of10Above()
    ensures SqPow(2, 485) < SqPow(10, 146)
  {
  }

  /**
   * For 1 <= n <= 2620 the fixed-point product agrees with the rational
   * 643/2136 and its remainder modulo 2^32 is not zero.
   */
  lemma Log10FixedPoint(n: int, r: int)
    requires 1 <= n <= 2620 && r == (n * Log10Of2Multiplier) / TWO32
    ensures r == (643 * n) / 2136
    ensures 2136 * r <= 643 * n && 789 * n <= 2621 * (r + 1)
    ensures (n * Log10Of2Multiplier) % TWO32 != 0
  {
    var q := (643 * n) / 2136;
    assert 2136 * q <= 643 * n < 2136 * (q + 1);
    assert q * TWO32 < n * Log10Of2Multiplier < (q + 1) * TWO32 by {
      assert 2136 * (q * TWO32) <= 643 * n * TWO32;
      assert 643 * TWO32 < 2136 * Log10Of2Multiplier;
      assert 2136 * Log10Of2Multiplier - 643 * TWO32 == 302768;
      assert 2136 * (n * Log10Of2Multiplier) == 643 * n * TWO32 + 302768 * n;
      assert 643 * n + 1 <= 2136 * (q + 1);
    }
    DivModUnique(n * Log10Of2Multiplier, TWO32, q, n * Log10Of2Multiplier - q * TWO32);
  }

  lemma Log2FixedPoint(n: int, r: int)
    requires 1 <= n <= 642 && r == 3 * n + (n * Log2Of10FracMultiplier) / TWO32
    ensures r == (485 * n) / 146
    ensures 146 * r <= 485 * n && 2136 * n <= 643 * (r + 1)
    ensures (n * Log2Of10FracMultiplier) % TWO32 != 0
  {
    var q := (485 * n) / 146;
    var c := 3 * TWO32 + Log2Of10FracMultiplier;
    assert 146 * q <= 485 * n < 146 * (q + 1);
    assert q * TWO32 < n * c < (q + 1) * TWO32 by {
      assert 146 * (q * TWO32) <= 485 * n * TWO32;
      assert 146 * c - 485 * TWO32 == 6450382;
      assert 146 * (n * c) == 485 * n * TWO32 + 6450382 * n;
      assert 485 * n + 1 <= 146 * (q + 1);
    }
    assert n * c == 3 * n * TWO32 + n * Log2Of10FracMultiplier;
    DivModUnique(n * c, TWO32, q, n * c - q * TWO32);
    DivModUnique(n * Log2Of10FracMultiplier, TWO32, q - 3 * n, n * c - q * TWO32);
  }

  lemma Log10Pow2Bracket(e: int, r: int)
    requires -2620 <= e <= 2620 && r == (e * Log10Of2Multiplier) / TWO32
    ensures IsFloorLog10Pow2(e, r)
  {
    Log10Of2Above();
    Log10Of2Below();
    if e > 0 {
      Log10FixedPoint(e, r);
      Sandwich(2, 10, e, r, 643, 2136, 789, 2621);
    } else if e < 0 {
      var n := -e;
      var rp := (n * Log10Of2Multiplier) / TWO32;
      Log10FixedPoint(n, rp);
      NegatedFloor(n * Log10Of2Multiplier, rp, r);
      Sandwich(2, 10, n, rp, 643, 2136, 789, 2621);
    }
  }

  lemma Log2Pow10Bracket(e: int, r: int)
    requires -642 <= e <= 642 && r == 3 * e + (e * Log2Of10FracMultiplier) / TWO32
    ensures IsFloorLog2Pow10(e, r)
  {
    if e > 0 {
      Log2FixedPoint(e, r);
      Log2Pow10Positive(e, r);
    } else if e < 0 {
      var n := -e;
      var rp := 3 * n + (n * Log2Of10FracMultiplier) / TWO32;
      Log2FixedPoint(n, rp);
      NegatedFloor(n * Log2Of10FracMultiplier, rp - 3 * n, r - 3 * e);
      Log2Pow10Positive(n, rp);
      assert -r - 1 == rp;
    }
  }

  lemma Log2Pow10Positive(n: int, r: int)
    requires 1 <= n && 0 <= r && 146 * r <= 485 * n && 2136 * n <= 643 * (r + 1)
    ensures Pow(2, r) < Pow(10, n) < Pow(2, r + 1)
  {
    Log2Of10Above();
    Log10Of2Above();
    Sandwich(10, 2, n, r, 485, 146, 2136, 643);
  }

  /** An arithmetic shift of a negated product that is not a multiple of 2^32. */
  lemma NegatedFloor(x: int, q: int, s: int)
    requires x > 0 && x % TWO32 != 0 && q == x / TWO32 && s == (-x) / TWO32
    ensures s == -q - 1
  {
    DivModUnique(-x, TWO32, -q - 1, TWO32 - x % TWO32);
  }

  lemma FloorLog10Pow2Monotone(e1: int, e2: int)
    requires -MaxEstimatedExponent <= e1 <= e2 <= MaxEstimatedExponent
    ensures FloorLog10Pow2(e1) <= FloorLog10Pow2(e2)
  {
  }

  /**
   * The exponent beta = e + floor_log2_pow10(-floor_log10_pow2(e)) + 1
   * lies in [1, 4]: the scaled value keeps at most four integer bits.
   */
  lemma BetaInRange(e: int)
    requires -2132 <= e <= 2135
    ensures -642 <= FloorLog10Pow2(e) <= 642
    ensures 1 <= e + FloorLog2Pow10(-FloorLog10Pow2(e)) + 1 <= 4
  {
    var m := FloorLog10Pow2(e);
    FloorLog10Pow2Monotone(-2132, e);
    FloorLog10Pow2Monotone(e, 2135);
    assert FloorLog10Pow2(-2132) == -642 && FloorLog10Pow2(2135) == 642;
    var f := FloorLog2Pow10(-m);
    BetaOf(e, m, f);
  }

  lemma BetaOf(e: int, m: int, f: int)
    requires IsFloorLog10Pow2(e, m) && IsFloorLog2Pow10(-m, f)
    ensures 1 <= e + f + 1 <= 4
  {
    if e >= 0 {
      if m == 0 {
        Pow2RatioBound(e, 0);
      } else {
        var g := -f;
        PowLessImpliesExpLess(2, g - 1, e);
        assert Pow(10, m + 1) == 10 * Pow(10, m);
        MulLe(10, Pow(10, m), 10, Pow(2, g));
        Pow2RatioBound(e, g);
      }
    } else {
      var n, x := -e, -m;
      PowLessImpliesExpLess(2, n, f + 1);
      assert Pow(10, x) == 10 * Pow(10, x - 1);
      MulLe(10, Pow(10, x - 1), 10, Pow(2, n));
      Pow2RatioBound(f, n);
    }
  }

  lemma Pow2RatioBound(a: nat, b: nat)
    requires Pow(2, a) < 10 * Pow(2, b)
    ensures a <= b + 3
  {
    if a >= b + 4 {
      PowAdd(2, a - b, b);
      PowMonotone(2, 4, a - b);
    }
  }
}
