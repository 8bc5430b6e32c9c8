/**
 * The main algorithm of grisu_exact_impl (operator()) and the entry point
 * grisu_exact: decompose the input, compute the boundaries, k, beta and
 * the two products, then find kappa by a binary search upward or
 * downward from initial_kappa and, when the right boundary is excluded,
 * trade digits back. The order of the C++ code is kept; its jump to the
 * downward search is an explicit branch.
 *
 * Every intermediate value is proved to stay below 2^W where it is
 * computed, so the wrap-around of the C++ unsigned arithmetic never
 * happens and is not written.
 */
module GrisuExact {
  import opened Arith
  import opened CommonInfo
  import opened LogEstimates
  import opened CacheTables
  import opened MulHelper
  import opened FloatBits
  import opened RoundingModes
  import opened Exactness
  import opened SearchSpec

  /** power_of_10<e>: compute_power(10, e), which wraps modulo 2^W. */
  function PowerOf10(fmt: Format, e: nat): nat
  {
    Pow(10, e) % Modulus(fmt)
  }

  /** The powers of 10 the search takes from the table do not wrap. */
  lemma PowerOf10Exact(fmt: Format, e: nat)
    requires e <= InitialKappa(fmt) + 1
    ensures PowerOf10(fmt, e) == Pow(10, e) && Pow(10, e) > 0
  {
    CommonInfo.PowersFitInWord(fmt);
    PowMonotone(10, e, InitialKappa(fmt) + 1);
    PowPositive(10, e);
  }

  /** Two digits in base P compare lexicographically. */
  lemma LexCompare(a: nat, b: nat, c: nat, d: nat, p: nat)
    requires b < p && d < p
    ensures a * p + b < c * p + d <==> a < c || (a == c && b < d)
    ensures a * p + b == c * p + d <==> a == c && b == d
  {
    if a < c {
      MulLe(a + 1, p, c, p);
    } else if c < a {
      MulLe(c + 1, p, a, p);
    }
  }

  /** Z mod (dv * P) and Z / (dv * P) from z11 and z12, for z12 < P. */
  lemma SplitRemainder(z11: nat, z12: nat, dv: nat, p: nat, w: nat)
    requires dv > 0 && p > 0 && z12 < p && w == dv * p
    ensures (z11 * p + z12) % w == (z11 % dv) * p + z12
    ensures (z11 * p + z12) / w == z11 / dv
  {
    var q, r := z11 / dv, z11 % dv;
    assert z11 * p + z12 == q * w + (r * p + z12) by {
      assert z11 == q * dv + r;
    }
    assert r * p + z12 < w by {
      MulLe(r + 1, p, dv, p);
    }
    DivModUnique(z11 * p + z12, w, q, r * p + z12);
  }

  /**
   * The state of the upward search at kappa = D: divisor * 2^beta is 10^D,
   * s and r are quotient and remainder of z11 by divisor, and D fits.
   */
  ghost predicate UpState(ctx: SearchContext, D: nat, s: int, r: int, divisor: int)
    requires ValidContext(ctx)
  {
    && InitialKappa(ctx.fmt) <= D <= Hi(ctx.fmt)
    && divisor > 0 && divisor * Pow(2, ctx.beta) == Pow(10, D)
    && s == ctx.z11 / divisor && r == ctx.z11 % divisor
    && Fits(ctx, D)
  }

  lemma Regroup(a: nat, b: nat, c: nat, x: nat, y: nat)
    requires a * c == x && y == x * b
    ensures (a * b) * c == y
  {
  }

  /** In the upward state Z mod 10^D is r * 2^beta + z12. */
  lemma UpRemainder(ctx: SearchContext, D: nat, s: nat, r: nat, divisor: nat)
    requires ValidContext(ctx) && divisor > 0 && divisor * Pow(2, ctx.beta) == Pow(10, D)
    requires s == ctx.z11 / divisor && r == ctx.z11 % divisor
    ensures Mod10(Z(ctx), D) == r * Pow(2, ctx.beta) + ctx.z12
    ensures Div10(Z(ctx), D) == s
  {
    PowPositive(2, ctx.beta);
    SplitRemainder(ctx.z11, ctx.z12, divisor, Pow(2, ctx.beta), Pow(10, D));
  }

  /**
   * Moving lambda digits from s into the remainder: with s and r the
   * quotient and remainder of z by divisor, s / p and r + divisor * (s % p)
   * are those of z by divisor * p.
   */
  lemma IncreasingStep(z: nat, s: nat, r: nat, divisor: nat, p: nat)
    requires divisor > 0 && p > 0 && s == z / divisor && r == z % divisor
    ensures divisor * (s % p) >= 0
    ensures r + divisor * (s % p) == z % (divisor * p) <= z
    ensures s / p == z / (divisor * p)
  {
    var q, m := s / p, s % p;
    MulNat(divisor, m);
    assert z == q * (divisor * p) + (m * divisor + r) by {
      assert z == s * divisor + r;
      assert s == q * p + m;
    }
    assert m * divisor + r < divisor * p by {
      MulLe(m + 1, divisor, p, divisor);
    }
    DivModUnique(z, divisor * p, q, m * divisor + r);
    MulNat(q, divisor * p);
    assert divisor * m == m * divisor;
  }

  /**
   * The candidate of increasing_search<lambda>: quotient and new_r are the
   * quotient and remainder of z11 by divisor * 10^lambda, and the
   * comparison of (new_r, z12) with (delta11, delta12) is the comparison of
   * Z mod 10^(D + lambda) with Delta.
   */
  method UpCandidate(ctx: SearchContext, lambda: nat, ghost D: nat, s: nat, r: nat, divisor: nat)
    returns (quotient: nat, newR: nat)
    requires ValidContext(ctx) && UpState(ctx, D, s, r, divisor)
    requires 1 <= lambda <= InitialKappa(ctx.fmt) + 1 && D + lambda <= Hi(ctx.fmt)
    ensures ctx.delta11 < newR || (ctx.delta11 == newR && ctx.delta12 < ctx.z12)
      <==> Mod10(Z(ctx), D + lambda) > Delta(ctx)
    ensures ctx.delta11 == newR && ctx.delta12 == ctx.z12 <==> Mod10(Z(ctx), D + lambda) == Delta(ctx)
    ensures Fits(ctx, D + lambda) ==>
      UpState(ctx, D + lambda, quotient, newR, divisor * PowerOf10(ctx.fmt, lambda))
    ensures newR <= ctx.z11 < Modulus(ctx.fmt)
  {
    PowerOf10Exact(ctx.fmt, lambda);
    var p := PowerOf10(ctx.fmt, lambda);
    DivNat(s, p);
    quotient := s / p;
    MulNat(divisor, s % p);
    newR := r + divisor * (s % p);
    ghost var w := Pow(2, ctx.beta);
    ghost var bigP := Pow(10, D + lambda);
    PowAdd(10, D, lambda);
    CandidateArith(ctx.z11, s, r, divisor, p, w, Pow(10, D), bigP, quotient, newR);
    UpCompare(ctx, D + lambda, divisor * p, newR);
  }

  /** The comparisons of the candidate remainder newR by dv = 10^K / 2^beta against delta1. */
  lemma UpCompare(ctx: SearchContext, K: nat, dv: nat, newR: nat)
    requires ValidContext(ctx) && dv > 0 && dv * Pow(2, ctx.beta) == Pow(10, K) && newR == ctx.z11 % dv
    ensures ctx.delta11 < newR || (ctx.delta11 == newR && ctx.delta12 < ctx.z12)
      <==> Mod10(Z(ctx), K) > Delta(ctx)
    ensures ctx.delta11 == newR && ctx.delta12 == ctx.z12 <==> Mod10(Z(ctx), K) == Delta(ctx)
  {
    PowPositive(10, K);
    CandidateCompare(ctx.z11, ctx.z12, ctx.delta11, ctx.delta12, Pow(2, ctx.beta), dv, Pow(10, K), newR,
      Mod10(Z(ctx), K), Delta(ctx));
  }

  /**
   * The quotient and remainder of z11 by divisor * p, from those by
   * divisor, and the scaled new divisor is the new power of 10.
   */
  lemma CandidateArith(z11: nat, s: nat, r: nat, divisor: nat, p: nat, w: nat, pd: nat, bigP: nat,
                       quotient: nat, newR: nat)
    requires divisor > 0 && p > 0 && s == z11 / divisor && r == z11 % divisor
    requires divisor * w == pd && bigP == pd * p
    requires quotient == s / p && newR == r + divisor * (s % p)
    ensures divisor * p > 0 && (divisor * p) * w == bigP
    ensures quotient == z11 / (divisor * p) && newR == z11 % (divisor * p)
  {
    IncreasingStep(z11, s, r, divisor, p);
    Regroup(divisor, p, w, pd, bigP);
    MulStrictLeft(0, divisor, p);
  }

  /**
   * With Z = z11 * w + z12 and divisor * w = P, the remainder of Z by P is
   * new_r * w + z12, so comparing (new_r, z12) with (delta11, delta12)
   * compares Z mod P with Delta.
   */
  lemma CandidateCompare(z11: nat, z12: nat, d11: nat, d12: nat, w: nat, dv: nat, bigP: nat, newR: nat, m: nat, dl: nat)
    requires z12 < w && d12 < w && dv > 0 && dv * w == bigP && newR == z11 % dv
    requires bigP > 0 && m == (z11 * w + z12) % bigP && dl == d11 * w + d12
    ensures (d11 < newR || (d11 == newR && d12 < z12)) <==> m > dl
    ensures (d11 == newR && d12 == z12) <==> m == dl
  {
    SplitRemainder(z11, z12, dv, w, bigP);
    LexCompare(newR, z12, d11, d12, w);
    LexCompare(d11, d12, newR, z12, w);
  }

  /**
   * The tie comparison the search makes when Z mod 10^kappa equals Delta:
   * is_z2_smaller_than_delta2, and, when the lower boundary belongs to the
   * interval, is_z2_same_as_delta2.
   */
  method TieVerdict(ctx: SearchContext) returns (inside: bool)
    requires ValidContext(ctx)
    ensures inside == TieInside(ctx)
  {
    inside := IsZ2SmallerThanDelta2(ctx.fmt, ctx.fminus, ctx.beta, ctx.cache)
      || (ctx.containLeft && IsZ2SameAsDelta2(ctx.fmt, ctx.fminus, ctx.exponent, ctx.minusK));
  }

  /** is_product_integer on the upper boundary, as the last step of the search asks it. */
  method UpperProductInteger(ctx: SearchContext) returns (exact: bool)
    requires ValidContext(ctx)
    ensures exact == ProductInteger(ctx.fmt, ctx.fplus, ctx.exponent, ctx.minusK)
  {
    exact := IsProductInteger(ctx.fmt, ctx.fplus, ctx.exponent, ctx.minusK);
  }

  /**
   * increasing_search<lambda>: accept kappa + lambda exactly when it fits,
   * consulting and filling the memo in a tie. On acceptance the quotient,
   * the exponent, the remainder and the divisor move up by lambda digits.
   */
  method IncreasingSearch(ctx: SearchContext, lambda: nat, ghost D: nat,
                          s: nat, k: int, r: nat, divisor: nat, memo: Z2VsDelta2)
    returns (accepted: bool, s': nat, k': int, r': nat, divisor': nat, memo': Z2VsDelta2)
    requires ValidContext(ctx) && MemoCoherent(ctx, memo) && UpState(ctx, D, s, r, divisor)
    requires 1 <= lambda <= InitialKappa(ctx.fmt) + 1 && D + lambda <= Hi(ctx.fmt)
    ensures MemoCoherent(ctx, memo') && (memo != NotComparedYet ==> memo' == memo)
    ensures accepted <==> Fits(ctx, D + lambda)
    ensures accepted ==> UpState(ctx, D + lambda, s', r', divisor') && k' == k + lambda
    ensures !accepted ==> s' == s && k' == k && r' == r && divisor' == divisor
    ensures accepted ==> s' <= ctx.z11 && r' < divisor' <= ctx.z11 < Modulus(ctx.fmt)
  {
    var quotient, newR := UpCandidate(ctx, lambda, D, s, r, divisor);
    memo' := memo;
    if ctx.delta11 < newR {
      return false, s, k, r, divisor, memo';
    } else if ctx.delta11 == newR {
      if ctx.delta12 < ctx.z12 {
        return false, s, k, r, divisor, memo';
      } else if ctx.delta12 == ctx.z12 {
        match memo
        case Z2Larger =>
          return false, s, k, r, divisor, memo';
        case NotComparedYet =>
          var tie := TieVerdict(ctx);
          if !tie {
            memo' := Z2Larger;
            return false, s, k, r, divisor, memo';
          }
          memo' := Z2Smaller;
        case Z2Smaller =>
      }
    }
    accepted, s', k', r', divisor' := true, quotient, k + lambda, newR, divisor * PowerOf10(ctx.fmt, lambda);
    DivisorBound(ctx, D + lambda, divisor');
    DivIsMonotone(0, ctx.z11, divisor');
    QuotientAtMost(ctx.z11, divisor');
  }

  /** Dividing by a positive divisor never increases a natural. */
  lemma QuotientAtMost(x: nat, d: nat)
    requires d > 0
    ensures x / d <= x
  {
    if x / d > x {
      MulLe(x + 1, 1, x / d, d);
    }
  }

  /** A divisor with divisor * 2^beta == 10^D for a fitting D is at most z11. */
  lemma DivisorBound(ctx: SearchContext, D: nat, dv: nat)
    requires ValidContext(ctx) && dv * Pow(2, ctx.beta) == Pow(10, D) && Fits(ctx, D)
    ensures dv <= ctx.z11
  {
    FitsNeedsDigits(ctx, D);
    PowPositive(2, ctx.beta);
    WordBound(ctx.z11, ctx.z12, Pow(2, ctx.beta), dv, Pow(10, D));
  }

  lemma WordBound(z11: nat, z12: nat, p: nat, dv: nat, big: nat)
    requires z12 < p && dv * p == big && big <= z11 * p + z12
    ensures dv <= z11
  {
    if dv > z11 {
      MulLe(z11 + 1, p, dv, p);
    }
  }

  /**
   * The state of the downward search at kappa = D: s is Z / 10^D, r is
   * Z mod 10^D scaled to initial_kappa digits, delta1 is Delta scaled the
   * same way, and D does not fit.
   */
  ghost predicate DownState(ctx: SearchContext, D: nat, s: int, r: int, delta1: int)
    requires ValidContext(ctx)
  {
    && Lo(ctx.fmt) <= D <= InitialKappa(ctx.fmt)
    && s == Div10(Z(ctx), D)
    && r == Mod10(Z(ctx), D) * Pow(10, InitialKappa(ctx.fmt) - D)
    && delta1 == Delta(ctx) * Pow(10, InitialKappa(ctx.fmt) - D)
    && !Fits(ctx, D)
  }

  /**
   * Splitting x = (Z mod 10^D) scaled by m = 10^(kappa - D) at
   * 10^(kappa - lambda): the quotient is the next lambda digits of Z and the
   * remainder is Z mod 10^(D - lambda) scaled by m.
   */
  lemma DecreasingStep(z: nat, D: nat, lambda: nat, kappa: nat, r: nat)
    requires lambda <= D <= kappa && r == Mod10(z, D) * Pow(10, kappa - D)
    ensures Pow(10, kappa - lambda) > 0 && Pow(10, lambda) > 0 && Pow(10, D - lambda) > 0
    ensures r / Pow(10, kappa - lambda) == Mod10(z, D) / Pow(10, D - lambda)
    ensures r % Pow(10, kappa - lambda) == Mod10(z, D - lambda) * Pow(10, kappa - D)
    ensures Div10(z, D - lambda) == Div10(z, D) * Pow(10, lambda) + Mod10(z, D) / Pow(10, D - lambda)
  {
    var m := Pow(10, kappa - D);
    var e := Pow(10, D - lambda);
    PowPositive(10, kappa - D);
    PowPositive(10, D - lambda);
    PowPositive(10, lambda);
    PowPositive(10, kappa - lambda);
    assert Pow(10, kappa - lambda) == e * m by {
      PowAdd(10, D - lambda, kappa - D);
    }
    MulModCancel(Mod10(z, D), m, e);
    ModOfSmallerPower(z, D - lambda, D);
    assert Pow(10, D) == e * Pow(10, lambda) by {
      PowAdd(10, D - lambda, lambda);
    }
    DigitsAbove(z, e, Pow(10, lambda));
  }

  /** z / e == (z / (e * b)) * b + (z mod (e * b)) / e */
  lemma DigitsAbove(z: nat, e: nat, b: nat)
    requires e > 0 && b > 0
    ensures z / e == (z / (e * b)) * b + (z % (e * b)) / e
  {
    DivDiv(z, e, b);
    DivModUnique(z % (e * b), e, (z / e) % b, z % e);
  }

  /** Scaling both sides by the same positive m keeps the comparison. */
  lemma ScaleCompare(a: nat, b: nat, m: nat)
    requires m > 0
    ensures a * m < b * m <==> a < b
    ensures a * m == b * m <==> a == b
  {
    if a < b {
      MulStrictLeft(a, b, m);
    } else if b < a {
      MulStrictLeft(b, a, m);
    }
  }

  /**
   * decreasing_search<lambda>: stay at kappa exactly when kappa - lambda
   * fits, consulting and filling the memo in a tie; otherwise move down by
   * lambda digits.
   */
  method DecreasingSearch(ctx: SearchContext, lambda: nat, ghost D: nat,
                          s: nat, k: int, r: nat, delta1: nat, memo: Z2VsDelta2)
    returns (stay: bool, s': nat, k': int, r': nat, delta1': nat, memo': Z2VsDelta2)
    requires ValidContext(ctx) && MemoCoherent(ctx, memo) && DownState(ctx, D, s, r, delta1)
    requires 1 <= lambda && Lo(ctx.fmt) < D - lambda
    ensures MemoCoherent(ctx, memo') && (memo != NotComparedYet ==> memo' == memo)
    ensures stay <==> Fits(ctx, D - lambda)
    ensures stay ==> s' == s && k' == k && r' == r && delta1' == delta1
    ensures !stay ==> DownState(ctx, D - lambda, s', r', delta1') && k' == k - lambda
    ensures !stay ==> s' < Modulus(ctx.fmt) && delta1' <= r' < Modulus(ctx.fmt)
  {
    var kappa := InitialKappa(ctx.fmt);
    PowerOf10Exact(ctx.fmt, kappa - lambda);
    var p := PowerOf10(ctx.fmt, kappa - lambda);
    var quotient := r / p;
    var newR := r % p;
    DivNat(r, p);
    DownCompare(ctx, D, lambda, s, r, delta1, quotient, newR);
    memo' := memo;
    if newR < delta1 {
      return true, s, k, r, delta1, memo';
    } else if delta1 == newR {
      match memo
      case Z2Smaller =>
        return true, s, k, r, delta1, memo';
      case NotComparedYet =>
        var tie := TieVerdict(ctx);
        if tie {
          memo' := Z2Smaller;
          return true, s, k, r, delta1, memo';
        }
        memo' := Z2Larger;
      case Z2Larger =>
    }
    var p10 := PowerOf10(ctx.fmt, lambda);
    MulNat(newR, p10);
    MulNat(delta1, p10);
    MulNat(s, p10);
    stay, r', delta1', s', k' := false, newR * p10, delta1 * p10, s * p10 + quotient, k - lambda;
    QuotientFits(ctx, D - lambda);
  }

  /**
   * The comparison decreasing_search makes on the scaled values is the one
   * on Z mod 10^(D - lambda) and Delta, and a move down by lambda digits
   * keeps the downward state.
   */
  lemma DownCompare(ctx: SearchContext, D: nat, lambda: nat, s: nat, r: nat, delta1: nat, quotient: nat, newR: nat)
    requires ValidContext(ctx) && DownState(ctx, D, s, r, delta1)
    requires 1 <= lambda && Lo(ctx.fmt) < D - lambda
    requires Pow(10, InitialKappa(ctx.fmt) - lambda) > 0
    requires quotient == r / Pow(10, InitialKappa(ctx.fmt) - lambda)
    requires newR == r % Pow(10, InitialKappa(ctx.fmt) - lambda)
    ensures newR < delta1 <==> Mod10(Z(ctx), D - lambda) < Delta(ctx)
    ensures newR == delta1 <==> Mod10(Z(ctx), D - lambda) == Delta(ctx)
    ensures PowerOf10(ctx.fmt, lambda) == Pow(10, lambda)
    ensures !Fits(ctx, D - lambda) ==>
      var p10 := Pow(10, lambda);
      DownState(ctx, D - lambda, s * p10 + quotient, newR * p10, delta1 * p10)
    ensures !Fits(ctx, D - lambda) ==>
      delta1 * Pow(10, lambda) <= newR * Pow(10, lambda) < Modulus(ctx.fmt)
  {
    var kappa := InitialKappa(ctx.fmt);
    PowerOf10Exact(ctx.fmt, lambda);
    DecreasingStep(Z(ctx), D, lambda, kappa, r);
    PowPositive(10, kappa - D);
    ScaleCompare(Mod10(Z(ctx), D - lambda), Delta(ctx), Pow(10, kappa - D));
    if !Fits(ctx, D - lambda) {
      assert Delta(ctx) <= Mod10(Z(ctx), D - lambda) < Pow(10, D - lambda);
      DownMove(ctx.fmt, D, lambda, Mod10(Z(ctx), D - lambda), Delta(ctx), newR, delta1);
    }
  }

  /**
   * After a move down by lambda the scaled remainder a and width dl, with
   * dl <= a < 10^(D - lambda), stay below 10^kappa.
   */
  lemma DownMove(fmt: Format, D: nat, lambda: nat, a: nat, dl: nat, newR: nat, delta1: nat)
    requires lambda <= D <= InitialKappa(fmt) && dl <= a < Pow(10, D - lambda)
    requires newR == a * Pow(10, InitialKappa(fmt) - D) && delta1 == dl * Pow(10, InitialKappa(fmt) - D)
    ensures newR * Pow(10, lambda) == a * Pow(10, InitialKappa(fmt) - (D - lambda))
    ensures delta1 * Pow(10, lambda) == dl * Pow(10, InitialKappa(fmt) - (D - lambda))
    ensures delta1 * Pow(10, lambda) <= newR * Pow(10, lambda) < Modulus(fmt)
  {
    var kappa := InitialKappa(fmt);
    PowAdd(10, kappa - D, lambda);
    PowAdd(10, D - lambda, kappa - (D - lambda));
    CommonInfo.PowersFitInWord(fmt);
    PowMonotone(10, kappa, kappa + 1);
    ScaledBounds(a, dl, Pow(10, kappa - D), Pow(10, lambda),
      Pow(10, kappa - (D - lambda)), Pow(10, D - lambda), Pow(10, kappa), Modulus(fmt), newR, delta1);
  }

  lemma ScaledBounds(a: nat, dl: nat, m1: nat, pl: nat, m: nat, e: nat, big: nat, w: nat, newR: nat, delta1: nat)
    requires m == m1 * pl && big == e * m && big < w
    requires newR == a * m1 && delta1 == dl * m1 && dl <= a < e
    ensures newR * pl == a * m && delta1 * pl == dl * m
    ensures delta1 * pl <= newR * pl < w
  {
    MulLe(dl, m, a, m);
    if m > 0 {
      MulStrictLeft(a, e, m);
    }
  }

  /**
   * After the upward steps so far, rem digits remain to be tried above D:
   * either D + rem is Hi or D + rem + 1 already fails.
   */
  ghost predicate UpProgress(ctx: SearchContext, D: nat, rem: nat)
    requires ValidContext(ctx)
  {
    D + rem <= Hi(ctx.fmt) && (D + rem == Hi(ctx.fmt) || !Fits(ctx, D + rem + 1))
  }

  /** One step of the binary search upward halves what remains. */
  lemma UpProgressStep(ctx: SearchContext, D: nat, rem: nat, lambda: nat, accepted: bool)
    requires ValidContext(ctx) && UpProgress(ctx, D, rem)
    requires 1 <= lambda && rem == 2 * lambda - 1
    requires accepted <==> Fits(ctx, D + lambda)
    ensures UpProgress(ctx, if accepted then D + lambda else D, rem - lambda)
  {
  }

  /** Everything the upward search keeps between its steps. */
  ghost predicate UpAt(ctx: SearchContext, D: nat, rem: nat, s: nat, k: int, r: nat, divisor: nat, memo: Z2VsDelta2)
    requires ValidContext(ctx)
  {
    UpState(ctx, D, s, r, divisor) && UpProgress(ctx, D, rem) && MemoCoherent(ctx, memo)
    && k == D + ctx.minusK
  }

  /** One call of increasing_search, with the bracket it narrows. */
  method UpStep(ctx: SearchContext, lambda: nat, ghost D: nat,
                s: nat, k: int, r: nat, divisor: nat, memo: Z2VsDelta2)
    returns (ghost D': nat, s': nat, k': int, r': nat, divisor': nat, memo': Z2VsDelta2)
    requires ValidContext(ctx) && 1 <= lambda <= InitialKappa(ctx.fmt) + 1
    requires UpAt(ctx, D, 2 * lambda - 1, s, k, r, divisor, memo)
    ensures UpAt(ctx, D', lambda - 1, s', k', r', divisor', memo')
  {
    var accepted: bool;
    accepted, s', k', r', divisor', memo' := IncreasingSearch(ctx, lambda, D, s, k, r, divisor, memo);
    UpProgressStep(ctx, D, 2 * lambda - 1, lambda, accepted);
    D' := if accepted then D + lambda else D;
  }

  /**
   * The binary search upward from initial_kappa: the steps 8, 4, 2, 1
   * (binary64) or 4, 2, 1 (binary32) end at the best kappa.
   */
  method UpSteps(ctx: SearchContext, s0: nat, k0: int, r0: nat, divisor0: nat, memo0: Z2VsDelta2)
    returns (ghost D: nat, s: nat, k: int, r: nat, divisor: nat)
    requires ValidContext(ctx) && MemoCoherent(ctx, memo0)
    requires UpState(ctx, InitialKappa(ctx.fmt), s0, r0, divisor0)
    requires k0 == InitialKappa(ctx.fmt) + ctx.minusK
    ensures UpState(ctx, D, s, r, divisor) && k == D + ctx.minusK
    ensures D == Best(ctx, Hi(ctx.fmt))
  {
    var memo := memo0;
    s, k, r, divisor := s0, k0, r0, divisor0;
    D := InitialKappa(ctx.fmt);
    if ctx.fmt == Binary32 {
      assert UpAt(ctx, D, 7, s, k, r, divisor, memo);
      D, s, k, r, divisor, memo := UpStep(ctx, 4, D, s, k, r, divisor, memo);
    } else {
      assert UpAt(ctx, D, 15, s, k, r, divisor, memo);
      D, s, k, r, divisor, memo := UpStep(ctx, 8, D, s, k, r, divisor, memo);
      D, s, k, r, divisor, memo := UpStep(ctx, 4, D, s, k, r, divisor, memo);
    }
    D, s, k, r, divisor, memo := UpStep(ctx, 2, D, s, k, r, divisor, memo);
    D, s, k, r, divisor, memo := UpStep(ctx, 1, D, s, k, r, divisor, memo);
    BestFromBracket(ctx, D);
  }

  /**
   * The upward part of operator(): the binary search, then the trailing
   * loop when the right boundary is excluded and Z is hit exactly.
   */
  method UpwardSearch(ctx: SearchContext, s0: nat, k0: int, r0: nat, divisor0: nat, memo0: Z2VsDelta2)
    returns (result: Decimal)
    requires ValidContext(ctx) && MemoCoherent(ctx, memo0)
    requires UpState(ctx, InitialKappa(ctx.fmt), s0, r0, divisor0)
    requires k0 == InitialKappa(ctx.fmt) + ctx.minusK
    ensures result == ExpectedResult(ctx)
  {
    ghost var D;
    var s, k, r, divisor;
    D, s, k, r, divisor := UpSteps(ctx, s0, k0, r0, divisor0, memo0);
    UpRemainder(ctx, D, s, r, divisor);
    LexCompare(r, ctx.z12, 0, 0, Pow(2, ctx.beta));
    var exact := UpperProductInteger(ctx);
    if !ctx.containRight && r == 0 && ctx.z12 == 0 && exact {
      assert UpperEndHit(ctx, D);
      s, k := ShrinkUp(ctx, D, s, k, divisor);
    } else {
      assert !UpperEndHit(ctx, D);
    }
    result := Decimal(s, k);
  }

  /** For K >= beta, 2^beta divides 10^K. */
  lemma ExactShr(K: nat, beta: nat)
    requires beta <= K
    ensures Pow(2, beta) > 0 && Shr(Pow(10, K), beta) * Pow(2, beta) == Pow(10, K)
  {
    PowPositive(2, beta);
    PowAdd(2, beta, K - beta);
    PowProduct(2, 5, K);
    ExactMultiple(Pow(2, beta), Pow(2, K - beta), Pow(5, K), Pow(2, K), Pow(10, K));
  }

  /** With x = (w * b) * c, x is an exact multiple of w. */
  lemma ExactMultiple(w: nat, b: nat, c: nat, t: nat, x: nat)
    requires w > 0 && t == w * b && x == t * c
    ensures (x / w) * w == x
  {
    assert x == (b * c) * w;
    MulDivCancel(b * c, 0, w);
  }

  /** floor(10^K / 2^beta) / 10 == floor(10^(K-1) / 2^beta) */
  lemma ShrTen(K: nat, beta: nat)
    requires K >= 1
    ensures Shr(Pow(10, K - 1), beta) == Shr(Pow(10, K), beta) / 10
  {
    PowPositive(2, beta);
    DivDiv(Pow(10, K), Pow(2, beta), 10);
    MulModCancel(Pow(10, K - 1), 10, Pow(2, beta));
    assert Pow(10, K) == Pow(10, K - 1) * 10;
  }

  /** 10^(beta - 1) < 96 * 2^beta for beta in [1, 4]. */
  lemma SmallPowers(beta: nat)
    requires 1 <= beta <= 4
    ensures Pow(10, beta - 1) < 96 * Pow(2, beta)
  {
    assert Pow(10, 3) == 1000 && Pow(2, 4) == 16;
  }

  /**
   * The tests of the upward trailing loop, on divisor = floor(10^K / 2^beta)
   * against delta11 and delta12, decide Continue(K): exactly for K >= beta,
   * and below that both are false since delta11 >= 96.
   */
  lemma UpLoopTest(ctx: SearchContext, K: nat, divisor: nat, integralLeftEnd: bool)
    requires ValidContext(ctx) && divisor == Shr(Pow(10, K), ctx.beta)
    requires integralLeftEnd == IsDeltaInteger(ctx.fmt, ctx.isEdgeCase, ctx.exponent)
    ensures (divisor > ctx.delta11
      || (divisor == ctx.delta11 && ctx.delta12 == 0 && integralLeftEnd && !ctx.containLeft))
      <==> Continue(ctx, K)
  {
    if K >= ctx.beta {
      UpLoopTestExact(ctx, K, divisor);
    } else {
      UpLoopTestSmall(ctx, K, divisor);
    }
  }

  /** For K >= beta, divisor is 10^K / 2^beta exactly and the tests compare (delta11, delta12) with it. */
  lemma UpLoopTestExact(ctx: SearchContext, K: nat, divisor: nat)
    requires ValidContext(ctx) && divisor == Shr(Pow(10, K), ctx.beta) && K >= ctx.beta
    ensures divisor > ctx.delta11 <==> Pow(10, K) > Delta(ctx)
    ensures divisor == ctx.delta11 && ctx.delta12 == 0 <==> Pow(10, K) == Delta(ctx)
  {
    var w := Pow(2, ctx.beta);
    PowPositive(2, ctx.beta);
    ExactShr(K, ctx.beta);
    LexCompare(divisor, 0, ctx.delta11, ctx.delta12, w);
    LexCompare(ctx.delta11, ctx.delta12, divisor, 0, w);
  }

  /** For K < beta, divisor stays below 96 <= delta11, so neither test passes. */
  lemma UpLoopTestSmall(ctx: SearchContext, K: nat, divisor: nat)
    requires ValidContext(ctx) && divisor == Shr(Pow(10, K), ctx.beta) && K < ctx.beta
    ensures divisor < ctx.delta11 && Pow(10, K) < Delta(ctx)
  {
    var w := Pow(2, ctx.beta);
    PowPositive(2, ctx.beta);
    SmallPowers(ctx.beta);
    PowMonotone(10, K, ctx.beta - 1);
    DivUpperBound(Pow(10, K), w, 96);
    MulLe(96, w, ctx.delta11, w);
  }

  /** Moving one exact digit from the cut part back into s. */
  lemma ShiftDigit(ctx: SearchContext, K: nat, s: nat)
    requires ValidContext(ctx) && K >= 3 && Mod10(Z(ctx), K) == 0 && s == Div10(Z(ctx), K)
    ensures Mod10(Z(ctx), K - 1) == 0 && Div10(Z(ctx), K - 1) == s * 10 < Modulus(ctx.fmt)
  {
    PowPositive(10, K - 1);
    ExactDigit(Z(ctx), s, Pow(10, K), Pow(10, K - 1));
    QuotientFits(ctx, K - 1);
  }

  lemma ExactDigit(z: nat, s: nat, p: nat, p1: nat)
    requires p1 > 0 && p == p1 * 10 && z % p == 0 && s == z / p
    ensures z % p1 == 0 && z / p1 == s * 10
  {
    assert z == (s * 10) * p1 by {
      assert z == s * p;
    }
    DivModUnique(z, p1, s * 10, 0);
  }

  /**
   * The trailing loop of the upward branch: while 10^kappa still exceeds
   * Delta (or equals it where allowed), move one digit back into the
   * significand; then step the significand down by one.
   */
  method ShrinkUp(ctx: SearchContext, ghost D: nat, s0: nat, k0: int, divisor0: nat)
    returns (s: nat, k: int)
    requires ValidContext(ctx) && InitialKappa(ctx.fmt) <= D
    requires divisor0 * Pow(2, ctx.beta) == Pow(10, D)
    requires Mod10(Z(ctx), D) == 0 && s0 == Div10(Z(ctx), D)
    ensures s == Div10(Z(ctx), ShrinkFrom(ctx, D)) - 1
    ensures k == k0 - (D - ShrinkFrom(ctx, D))
  {
    s, k := s0, k0;
    var divisor := divisor0;
    ghost var K: nat := D;
    var integralLeftEnd := IsDeltaInteger(ctx.fmt, ctx.isEdgeCase, ctx.exponent);
    assert divisor == Shr(Pow(10, D), ctx.beta) by {
      PowPositive(2, ctx.beta);
      MulDivCancel(divisor0, 0, Pow(2, ctx.beta));
    }
    while true
      invariant K <= D && Mod10(Z(ctx), K) == 0 && s == Div10(Z(ctx), K)
      invariant divisor == Shr(Pow(10, K), ctx.beta)
      invariant ShrinkFrom(ctx, K) == ShrinkFrom(ctx, D) && k == k0 - (D - K)
      decreases K
    {
      UpLoopTest(ctx, K, divisor, integralLeftEnd);
      if divisor < ctx.delta11 {
        break;
      } else if divisor == ctx.delta11 {
        if ctx.delta12 != 0 {
          break;
        } else if !integralLeftEnd || ctx.containLeft {
          break;
        }
      }
      ContinueNeedsDigits(ctx, K);
      ShiftDigit(ctx, K, s);
      ShrTen(K, ctx.beta);
      s := s * 10;
      divisor := divisor / 10;
      k := k - 1;
      K := K - 1;
    }
    ExactQuotientPositive(ctx, K, K);
    s := s - 1;
  }

  /** Downward, rem more digits may still be tried below D. */
  ghost predicate DownProgress(ctx: SearchContext, D: nat, rem: nat)
    requires ValidContext(ctx)
  {
    D >= Lo(ctx.fmt) + 1 + rem && (D - 1 - rem == Lo(ctx.fmt) || Fits(ctx, D - 1 - rem))
  }

  /** One step of the binary search downward halves what remains. */
  lemma DownProgressStep(ctx: SearchContext, D: nat, rem: nat, lambda: nat, stay: bool)
    requires ValidContext(ctx) && DownProgress(ctx, D, rem)
    requires 1 <= lambda && rem == 2 * lambda - 1
    requires stay <==> Fits(ctx, D - lambda)
    ensures DownProgress(ctx, if stay then D else D - lambda, rem - lambda)
  {
  }

  /**
   * The last move of the downward branch: one digit from r into s, r
   * reduced to the digits below, and delta1 scaled by 10.
   */
  lemma FinalDown(ctx: SearchContext, D: nat, s: nat, r: nat, delta1: nat)
    requires ValidContext(ctx) && DownState(ctx, D, s, r, delta1) && Lo(ctx.fmt) < D
    ensures Pow(10, InitialKappa(ctx.fmt) - 1) > 0
    ensures s * 10 + r / Pow(10, InitialKappa(ctx.fmt) - 1) == Div10(Z(ctx), D - 1) < Modulus(ctx.fmt)
    ensures r % Pow(10, InitialKappa(ctx.fmt) - 1) == Mod10(Z(ctx), D - 1) * Pow(10, InitialKappa(ctx.fmt) - D)
    ensures delta1 * 10 == Delta(ctx) * Pow(10, InitialKappa(ctx.fmt) - (D - 1)) < Modulus(ctx.fmt)
  {
    var kappa := InitialKappa(ctx.fmt);
    DecreasingStep(Z(ctx), D, 1, kappa, r);
    QuotientFits(ctx, D - 1);
    assert Pow(10, 1) == 10;
    assert Delta(ctx) < Pow(10, D);
    PowAdd(10, kappa - D, 1);
    PowAdd(10, D, kappa - D);
    CommonInfo.PowersFitInWord(ctx.fmt);
    assert Pow(10, kappa + 1) == Pow(10, kappa) * 10;
    WidthBound(Delta(ctx), Pow(10, D), Pow(10, kappa - D), Pow(10, kappa), delta1, Modulus(ctx.fmt));
  }

  lemma WidthBound(dl: nat, e: nat, m: nat, big: nat, delta1: nat, w: nat)
    requires dl < e && big == e * m && big * 10 < w && delta1 == dl * m
    ensures delta1 * 10 == dl * (m * 10) < w
  {
    if m > 0 {
      MulStrictLeft(dl, e, m);
    }
  }


  /** Everything the downward search keeps between its steps. */
  ghost predicate DownAt(ctx: SearchContext, D: nat, rem: nat, s: nat, k: int, r: nat, delta1: nat, memo: Z2VsDelta2)
    requires ValidContext(ctx)
  {
    DownState(ctx, D, s, r, delta1) && DownProgress(ctx, D, rem) && MemoCoherent(ctx, memo)
    && k == D + ctx.minusK
  }

  /** One call of decreasing_search, with the bracket it narrows. */
  method DownStep(ctx: SearchContext, lambda: nat, ghost D: nat,
                  s: nat, k: int, r: nat, delta1: nat, memo: Z2VsDelta2)
    returns (ghost D': nat, s': nat, k': int, r': nat, delta1': nat, memo': Z2VsDelta2)
    requires ValidContext(ctx) && 1 <= lambda
    requires DownAt(ctx, D, 2 * lambda - 1, s, k, r, delta1, memo)
    ensures DownAt(ctx, D', lambda - 1, s', k', r', delta1', memo')
  {
    var stay: bool;
    stay, s', k', r', delta1', memo' := DecreasingSearch(ctx, lambda, D, s, k, r, delta1, memo);
    DownProgressStep(ctx, D, 2 * lambda - 1, lambda, stay);
    D' := if stay then D else D - lambda;
  }

  /**
   * The binary search downward from initial_kappa: the steps 2, 1
   * (binary64) or 1 (binary32) leave kappa one above the best kappa.
   */
  method DownSteps(ctx: SearchContext, s0: nat, k0: int, r0: nat, delta10: nat, memo0: Z2VsDelta2)
    returns (ghost D: nat, s: nat, k: int, r: nat, delta1: nat)
    requires ValidContext(ctx) && MemoCoherent(ctx, memo0)
    requires DownState(ctx, InitialKappa(ctx.fmt), s0, r0, delta10)
    requires k0 == InitialKappa(ctx.fmt) + ctx.minusK
    ensures DownState(ctx, D, s, r, delta1) && DownProgress(ctx, D, 0) && k == D + ctx.minusK
  {
    var memo := memo0;
    s, k, r, delta1 := s0, k0, r0, delta10;
    D := InitialKappa(ctx.fmt);
    if ctx.fmt == Binary32 {
      assert DownAt(ctx, D, 1, s, k, r, delta1, memo);
    } else {
      assert DownAt(ctx, D, 3, s, k, r, delta1, memo);
      D, s, k, r, delta1, memo := DownStep(ctx, 2, D, s, k, r, delta1, memo);
    }
    D, s, k, r, delta1, memo := DownStep(ctx, 1, D, s, k, r, delta1, memo);
  }

  /**
   * The downward part of operator(): the binary search, the final move
   * down by one digit, then the trailing loop when the right boundary is
   * excluded and Z is hit exactly.
   */
  method DownwardSearch(ctx: SearchContext, s0: nat, k0: int, r0: nat, delta10: nat, memo0: Z2VsDelta2)
    returns (result: Decimal)
    requires ValidContext(ctx) && MemoCoherent(ctx, memo0)
    requires DownState(ctx, InitialKappa(ctx.fmt), s0, r0, delta10)
    requires k0 == InitialKappa(ctx.fmt) + ctx.minusK
    ensures result == ExpectedResult(ctx)
  {
    ghost var D;
    var s, k, r, delta1;
    D, s, k, r, delta1 := DownSteps(ctx, s0, k0, r0, delta10, memo0);
    D, s, k, r, delta1 := LastDigitDown(ctx, D, s, k, r, delta1);
    var exact := UpperProductInteger(ctx);
    if !ctx.containRight && r == 0 && exact {
      assert UpperEndHit(ctx, D);
      s, k := ShrinkDown(ctx, D, s, k, delta1);
    } else {
      assert !UpperEndHit(ctx, D);
    }
    result := Decimal(s, k);
  }

  /**
   * The unconditional last step of the downward search: one more digit
   * moves from the remainder into s, and the kappa reached is the result
   * of the binary search.
   */
  method LastDigitDown(ctx: SearchContext, ghost D0: nat, s0: nat, k0: int, r0: nat, delta10: nat)
    returns (ghost D: nat, s: nat, k: int, r: nat, delta1: nat)
    requires ValidContext(ctx) && DownState(ctx, D0, s0, r0, delta10) && DownProgress(ctx, D0, 0)
    requires k0 == D0 + ctx.minusK
    ensures D == Best(ctx, Hi(ctx.fmt)) && D < InitialKappa(ctx.fmt) && k == D + ctx.minusK
    ensures s == Div10(Z(ctx), D) && (r == 0 <==> Mod10(Z(ctx), D) == 0)
    ensures delta1 == Delta(ctx) * Pow(10, InitialKappa(ctx.fmt) - D)
  {
    D, s, k, r, delta1 := D0, s0, k0, r0, delta10;
    var kappa := InitialKappa(ctx.fmt);
    var p := PowerOf10(ctx.fmt, kappa - 1);
    PowerOf10Exact(ctx.fmt, kappa - 1);
    FinalDown(ctx, D, s, r, delta1);
    DivNat(r, p);
    MulNat(s, 10);
    s := s * 10 + r / p;
    r := r % p;
    k := k - 1;
    delta1 := delta1 * 10;
    D := D - 1;
    BestFromBracket(ctx, D);
    PowPositive(10, kappa - (D + 1));
    ZeroScaled(Mod10(Z(ctx), D), Pow(10, kappa - (D + 1)), r);
  }

  lemma ZeroScaled(a: nat, m: nat, r: nat)
    requires m > 0 && r == a * m
    ensures r == 0 <==> a == 0
  {
    if a > 0 {
      MulAtLeast(m, a);
    }
  }

  /** Dropping a digit of divisor = 10^K * m. */
  lemma ShrinkDivisor(K: nat, m: nat, divisor: nat)
    requires K >= 1 && divisor == Pow(10, K) * m
    ensures divisor / 10 == Pow(10, K - 1) * m
  {
    assert divisor == (Pow(10, K - 1) * m) * 10;
    MulDivCancel(Pow(10, K - 1) * m, 0, 10);
  }

  /**
   * The tests of the downward trailing loop, on divisor = 10^K * m against
   * delta1 = Delta * m, decide Continue(K).
   */
  lemma DownLoopTest(ctx: SearchContext, K: nat, m: nat, divisor: nat, delta1: nat, integralLeftEnd: bool)
    requires ValidContext(ctx) && m > 0 && divisor == Pow(10, K) * m && delta1 == Delta(ctx) * m
    requires integralLeftEnd == IsDeltaInteger(ctx.fmt, ctx.isEdgeCase, ctx.exponent)
    ensures (divisor > delta1 || (divisor == delta1 && integralLeftEnd && !ctx.containLeft))
      <==> Continue(ctx, K)
  {
    ScaleCompare(Pow(10, K), Delta(ctx), m);
    ScaleCompare(Delta(ctx), Pow(10, K), m);
  }

  /**
   * The trailing loop of the downward branch: the divisor starts at
   * 10^initial_kappa and is compared with delta1, both scaled by
   * 10^(initial_kappa - D); then the significand steps down by one.
   */
  method ShrinkDown(ctx: SearchContext, ghost D: nat, s0: nat, k0: int, delta1: nat)
    returns (s: nat, k: int)
    requires ValidContext(ctx) && D <= InitialKappa(ctx.fmt)
    requires delta1 == Delta(ctx) * Pow(10, InitialKappa(ctx.fmt) - D)
    requires Mod10(Z(ctx), D) == 0 && s0 == Div10(Z(ctx), D)
    ensures s == Div10(Z(ctx), ShrinkFrom(ctx, D)) - 1
    ensures k == k0 - (D - ShrinkFrom(ctx, D))
  {
    var kappa := InitialKappa(ctx.fmt);
    s, k := s0, k0;
    PowerOf10Exact(ctx.fmt, kappa);
    var divisor: nat := PowerOf10(ctx.fmt, kappa);
    ghost var m: nat := Pow(10, kappa - D);
    ghost var K: nat := D;
    PowPositive(10, kappa - D);
    PowAdd(10, D, kappa - D);
    var integralLeftEnd := IsDeltaInteger(ctx.fmt, ctx.isEdgeCase, ctx.exponent);
    while true
      invariant K <= D && Mod10(Z(ctx), K) == 0 && s == Div10(Z(ctx), K)
      invariant divisor == Pow(10, K) * m
      invariant ShrinkFrom(ctx, K) == ShrinkFrom(ctx, D) && k == k0 - (D - K)
      decreases K
    {
      DownLoopTest(ctx, K, m, divisor, delta1, integralLeftEnd);
      if divisor < delta1 {
        break;
      } else if divisor == delta1 {
        if !integralLeftEnd || ctx.containLeft {
          break;
        }
      }
      ContinueNeedsDigits(ctx, K);
      ShiftDigit(ctx, K, s);
      ShrinkDivisor(K, m, divisor);
      s := s * 10;
      divisor := divisor / 10;
      k := k - 1;
      K := K - 1;
    }
    ExactQuotientPositive(ctx, K, K);
    s := s - 1;
  }

  /**
   * The initial split at initial_kappa: with t, u the quotient and remainder
   * of z11 by 5^kappa and s, v those of t by 2^(kappa - beta), s and
   * 5^kappa * v + u are the quotient and remainder of z11 by
   * divisor = 5^kappa * 2^(kappa - beta), and divisor * 2^beta == 10^kappa.
   */
  lemma InitialSplit(fmt: Format, beta: nat, z11: nat, p5: nat, w: nat, t: nat, u: nat, s: nat, v: nat)
    requires beta <= InitialKappa(fmt)
    requires p5 == Pow(5, InitialKappa(fmt)) && w == Pow(2, InitialKappa(fmt) - beta)
    requires p5 > 0 && w > 0
    requires t == z11 / p5 && u == z11 % p5 && s == t / w && v == t % w
    ensures p5 * w > 0 && (p5 * w) * Pow(2, beta) == Pow(10, InitialKappa(fmt))
    ensures s == z11 / (p5 * w) && p5 * v + u == z11 % (p5 * w)
  {
    var kappa := InitialKappa(fmt);
    DivDiv(z11, p5, w);
    PowAdd(2, kappa - beta, beta);
    PowProduct(2, 5, kappa);
    Regroup(w, p5, Pow(2, beta), Pow(2, kappa), Pow(10, kappa));
  }

  /**
   * The start of the search at initial_kappa: s and r are quotient and
   * remainder of z11 by divisor = 5^kappa << (kappa - beta), computed
   * through 5^kappa first and the exclusive or that clears the high bits.
   */
  method SplitAtInitialKappa(fmt: Format, beta: nat, z11: nat) returns (s: nat, r: nat, divisor: nat)
    requires Alpha <= beta <= Gamma
    ensures divisor > 0 && divisor * Pow(2, beta) == Pow(10, InitialKappa(fmt))
    ensures s == z11 / divisor && r == z11 % divisor
  {
    var kappa := InitialKappa(fmt);
    PowerOf5Exact(fmt, kappa);
    var p5 := PowerOf5(fmt, kappa);
    var t := z11 / p5;
    var u := z11 % p5;
    DivNat(z11, p5);
    s := Shr(t, kappa - beta);
    ghost var w := Pow(2, kappa - beta);
    XorClearsHighBits(t, kappa - beta);
    MulNat(s, w);
    var v := Xor(t, s * Pow(2, kappa - beta));
    InitialSplit(fmt, beta, z11, p5, w, t, u, s, v);
    MulNat(p5, v);
    MulNat(p5, w);
    r := p5 * v + u;
    divisor := p5 * Pow(2, kappa - beta);
  }

  /**
   * The comparison at initial_kappa: go downward exactly when
   * initial_kappa does not fit, filling the memo in a tie.
   */
  method ChooseDirection(ctx: SearchContext, s: nat, r: nat, divisor: nat) returns (downward: bool, memo: Z2VsDelta2)
    requires ValidContext(ctx)
    requires divisor > 0 && divisor * Pow(2, ctx.beta) == Pow(10, InitialKappa(ctx.fmt))
    requires s == ctx.z11 / divisor && r == ctx.z11 % divisor
    ensures downward <==> !Fits(ctx, InitialKappa(ctx.fmt))
    ensures MemoCoherent(ctx, memo)
  {
    UpRemainder(ctx, InitialKappa(ctx.fmt), s, r, divisor);
    LexCompare(r, ctx.z12, ctx.delta11, ctx.delta12, Pow(2, ctx.beta));
    memo := NotComparedYet;
    if r > ctx.delta11 {
      downward := true;
    } else if r == ctx.delta11 {
      if ctx.z12 > ctx.delta12 {
        downward := true;
      } else if ctx.z12 == ctx.delta12 {
        var tie := TieVerdict(ctx);
        if !tie {
          memo := Z2Larger;
          downward := true;
        } else {
          memo := Z2Smaller;
          downward := false;
        }
      } else {
        downward := false;
      }
    } else {
      downward := false;
    }
  }

  /** Restoring r and delta1 to full width gives the downward state at initial_kappa. */
  lemma DownStart(ctx: SearchContext, s: nat, r: nat, divisor: nat, r1: nat)
    requires ValidContext(ctx) && !Fits(ctx, InitialKappa(ctx.fmt))
    requires divisor > 0 && divisor * Pow(2, ctx.beta) == Pow(10, InitialKappa(ctx.fmt))
    requires s == ctx.z11 / divisor && r == ctx.z11 % divisor && r1 == r * Pow(2, ctx.beta) + ctx.z12
    ensures DownState(ctx, InitialKappa(ctx.fmt), s, r1, Delta(ctx))
  {
    UpRemainder(ctx, InitialKappa(ctx.fmt), s, r, divisor);
    assert Pow(10, InitialKappa(ctx.fmt) - InitialKappa(ctx.fmt)) == 1;
  }

  /**
   * operator() from the point where z1 and delta1 are known: the initial
   * split at initial_kappa, the comparison that chooses the direction
   * (the C++ jump to the downward search is the flag `downward`), then one
   * of the two searches.
   */
  method FindKappa(ctx: SearchContext) returns (result: Decimal)
    requires ValidContext(ctx)
    ensures result == ExpectedResult(ctx)
  {
    var s, r, divisor := SplitAtInitialKappa(ctx.fmt, ctx.beta, ctx.z11);
    var k := InitialKappa(ctx.fmt) + ctx.minusK;
    var downward, memo := ChooseDirection(ctx, s, r, divisor);
    if !downward {
      result := UpwardSearch(ctx, s, k, r, divisor, memo);
    } else {
      // r <<= beta; r += z12; delta1 = (delta11 << beta) + delta12
      MulNat(r, Pow(2, ctx.beta));
      var r1 := r * Pow(2, ctx.beta) + ctx.z12;
      var delta1 := ctx.delta11 * Pow(2, ctx.beta) + ctx.delta12;
      DownStart(ctx, s, r, divisor, r1);
      result := DownwardSearch(ctx, s, k, r1, delta1, memo);
    }
  }

  /** k = -floor_log10_pow2(e + 1 - alpha) indexes the cache table for every finite input. */
  lemma CacheIndexInRange(fmt: Format, e: int)
    requires MinExponent(fmt) <= e <= MaxExponent(fmt)
    ensures MinK(fmt) <= -FloorLog10Pow2(e + 1 - Alpha) <= MaxK(fmt)
  {
    FloorLog10Pow2Monotone(MinExponent(fmt) + 1 - Alpha, e + 1 - Alpha);
    FloorLog10Pow2Monotone(e + 1 - Alpha, MaxExponent(fmt) + 1 - Alpha);
    match fmt
    case Binary32 =>
      assert FloorLog10Pow2(-157) == -48 && FloorLog10Pow2(96) == 28;
    case Binary64 =>
      assert FloorLog10Pow2(-1085) == -327 && FloorLog10Pow2(960) == 288;
  }

  /** Where is_product_integer reads the table of powers of 5, minus_k indexes it. */
  lemma TableIndexInRange(fmt: Format, e: int)
    requires MinExponent(fmt) <= e <= MaxExponent(fmt)
    ensures InTableRange(fmt, e) ==> 0 <= FloorLog10Pow2(e + 1 - Alpha) <= MaxMinusK(fmt)
  {
    if InTableRange(fmt, e) {
      var hi := ZeroFractionalPartMaxExponentNormal(fmt);
      FloorLog10Pow2Monotone(4, e);
      FloorLog10Pow2Monotone(e, hi);
      assert FloorLog10Pow2(4) == 1;
      match fmt
      case Binary32 =>
        assert FloorLog10Pow2(36) == 10;
      case Binary64 =>
        assert FloorLog10Pow2(79) == 23;
    }
  }

  /** The integer part of the width is at least 96: the cache entry is normalized and q_mp_1 >= 8. */
  lemma DeltaAtLeast96(fmt: Format, isEdgeCase: bool, c: CacheEntry, beta: nat)
    requires IsNormalized(c) && 1 <= beta <= 8
    ensures ComputeDelta(fmt, isEdgeCase, c, beta).integerPart >= 96
  {
    var d := ComputeDelta(fmt, isEdgeCase, c, beta);
    var q := QMp1(fmt);
    IntervalLengths(fmt);
    DeltaLowerBound(fmt, isEdgeCase, c, beta);
    var lo := if isEdgeCase then 3 * Pow(2, q + beta - 3) else Pow(2, q + beta - 1);
    LowerBoundWeight(q, beta, isEdgeCase, lo);
    IntegerPartAtLeast(d.integerPart, d.fractionBits, Pow(2, beta), lo);
  }

  /** The integer part of the width fits in a word. */
  lemma DeltaInWord(fmt: Format, isEdgeCase: bool, c: CacheEntry, beta: nat)
    requires 1 <= beta <= 8
    ensures ComputeDelta(fmt, isEdgeCase, c, beta).integerPart < Modulus(fmt)
  {
    IntervalLengths(fmt);
    PowMonotone(2, QMp1(fmt), 11);
    assert Pow(2, 11) == 2048;
  }

  /** 2^(q + beta - 1) and 3 * 2^(q + beta - 3) are at least 96 * 2^beta for q >= 8. */
  lemma LowerBoundWeight(q: nat, beta: nat, isEdgeCase: bool, lo: nat)
    requires 8 <= q && lo == if isEdgeCase then 3 * Pow(2, q + beta - 3) else Pow(2, q + beta - 1)
    ensures lo >= 96 * Pow(2, beta)
  {
    var w := Pow(2, beta);
    if isEdgeCase {
      PowAdd(2, q - 3, beta);
      PowMonotone(2, 5, q - 3);
      assert Pow(2, 5) == 32;
      MulLe(96, w, 3 * Pow(2, q - 3), w);
    } else {
      PowAdd(2, q - 1, beta);
      PowMonotone(2, 7, q - 1);
      assert Pow(2, 7) == 128;
      MulLe(96, w, Pow(2, q - 1), w);
    }
  }

  lemma IntegerPartAtLeast(ip: nat, fb: nat, w: nat, lo: nat)
    requires fb < w && lo >= 96 * w && ip * w + fb >= lo
    ensures ip >= 96
  {
    if ip < 96 {
      MulLe(ip + 1, w, 96, w);
    }
  }

  /**
   * z1 exceeds delta1: fplus lies at least boundary_bit above the larger
   * multiplier the width can stand for, and boundary_bit times the cache
   * is worth at least one unit of the scaled product.
   */
  lemma ProductAboveWidth(fmt: Format, fplus: nat, isEdgeCase: bool, c: CacheEntry, beta: nat)
    requires EntryMatches(fmt, c) && 1 <= beta <= 8
    requires Pow(2, CachePrecision(fmt) - 1) <= CacheValue(c)
    requires fplus >= NormalIntervalLength(fmt) + BoundaryBit(fmt)
    ensures Combined(ComputeDelta(fmt, isEdgeCase, c, beta), beta) < ScaledProduct(fmt, fplus, c, beta)
  {
    var bb := BoundaryBit(fmt);
    var nil := NormalIntervalLength(fmt);
    IntervalLengths(fmt);
    assert 2 * bb == nil && bb >= 64 by {
      PowAdd(2, QMp1(fmt) - 2, 1);
      PowMonotone(2, 6, QMp1(fmt) - 2);
      assert Pow(2, 6) == 64;
    }
    var f1 := if isEdgeCase then bb + EdgeCaseBoundaryBit(fmt) else nil;
    if isEdgeCase {
      DeltaEdgeCase(fmt, c, beta);
    } else {
      DeltaNormalCase(fmt, c, beta);
    }
    ScaledMonotone(fmt, f1, fplus - bb, c, beta);
    PowMonotone(2, CachePrecision(fmt) - beta, CachePrecision(fmt) - 1);
    MulAtLeast(CacheValue(c), bb);
    ScaledGap(fmt, fplus - bb, bb, c, beta);
  }

  /**
   * minus_k = floor_log10_pow2(e + 1 - alpha): the decimal exponent of 2^e,
   * which indexes the cache table and, where is_product_integer needs it,
   * the table of powers of 5.
   */
  function MinusK(fmt: Format, e: int): (m: int)
    requires MinExponent(fmt) <= e <= MaxExponent(fmt)
    ensures IsFloorLog10Pow2(e + 1 - Alpha, m)
    ensures MinK(fmt) <= -m <= MaxK(fmt) && -642 <= m <= 642
    ensures InTableRange(fmt, e) ==> 0 <= m <= MaxMinusK(fmt)
  {
    CacheIndexInRange(fmt, e);
    TableIndexInRange(fmt, e);
    BetaInRange(e);
    FloorLog10Pow2(e + 1 - Alpha)
  }

  /** beta = e + floor_log2_pow10(-minus_k) + 1, which the C++ code asserts lies in [alpha, gamma]. */
  function Beta(fmt: Format, e: int, m: int): (beta: nat)
    requires MinExponent(fmt) <= e <= MaxExponent(fmt) && m == FloorLog10Pow2(e + 1 - Alpha)
    ensures Alpha <= beta <= Gamma
  {
    BetaInRange(e);
    e + FloorLog2Pow10(-m) + 1
  }

  /**
   * From the binary exponent and the boundaries on: minus_k and beta, the
   * cache entry for 10^-minus_k, then the two products.
   */
  function ContextOf(fmt: Format, e: int, b: Boundaries, flags: BoundaryFlags): (ctx: SearchContext)
    requires MinExponent(fmt) <= e <= MaxExponent(fmt)
    requires b.fplus >= NormalIntervalLength(fmt) + BoundaryBit(fmt)
    requires b.fplus < Modulus(fmt) && b.fminus < Modulus(fmt)
    ensures ValidContext(ctx) && ctx.fmt == fmt && ctx.exponent == e
    ensures ctx.fplus == b.fplus && ctx.fminus == b.fminus && ctx.isEdgeCase == b.isEdgeCase
    ensures ctx.minusK == MinusK(fmt, e) && ctx.beta == Beta(fmt, e, ctx.minusK)
    ensures ctx.containLeft == flags.containLeft && ctx.containRight == flags.containRight
  {
    var minusK := MinusK(fmt, e);
    var beta := Beta(fmt, e, minusK);
    WithCache(fmt, e, minusK, beta, GetCache(fmt, -minusK), b, flags)
  }

  /**
   * z1 = compute_mul(fplus, cache, beta) and delta1 = compute_delta: z1 is
   * the scaled product of fplus, delta1 that of the interval length
   * (exactly away from the edge case, within one unit in it), and the
   * context is valid.
   */
  function WithCache(fmt: Format, e: int, minusK: int, beta: nat, cache: CacheEntry, b: Boundaries, flags: BoundaryFlags): (ctx: SearchContext)
    requires Alpha <= beta <= Gamma && EntryMatches(fmt, cache) && IsNormalized(cache)
    requires Pow(2, CachePrecision(fmt) - 1) <= CacheValue(cache)
    requires InTableRange(fmt, e) ==> 0 <= minusK <= MaxMinusK(fmt)
    requires b.fplus >= NormalIntervalLength(fmt) + BoundaryBit(fmt)
    requires b.fplus < Modulus(fmt) && b.fminus < Modulus(fmt)
    ensures ValidContext(ctx) && ctx.fmt == fmt && ctx.exponent == e && ctx.minusK == minusK
    ensures ctx.beta == beta && ctx.cache == cache
    ensures ctx.fplus == b.fplus && ctx.fminus == b.fminus && ctx.isEdgeCase == b.isEdgeCase
    ensures Z(ctx) == ScaledProduct(fmt, ctx.fplus, cache, beta)
    ensures !ctx.isEdgeCase ==> Delta(ctx) == ScaledProduct(fmt, NormalIntervalLength(fmt), cache, beta)
    ensures ctx.isEdgeCase ==>
      Delta(ctx) <= ScaledProduct(fmt, BoundaryBit(fmt) + EdgeCaseBoundaryBit(fmt), cache, beta) <= Delta(ctx) + 1
    ensures ctx.containLeft == flags.containLeft && ctx.containRight == flags.containRight
  {
    var z := ComputeMul(fmt, b.fplus, cache, beta);
    var delta := ComputeDelta(fmt, b.isEdgeCase, cache, beta);
    DeltaAtLeast96(fmt, b.isEdgeCase, cache, beta);
    DeltaInWord(fmt, b.isEdgeCase, cache, beta);
    ProductAboveWidth(fmt, b.fplus, b.isEdgeCase, cache, beta);
    var ctx := SearchContext(fmt, e, minusK, beta, b.fplus, b.fminus, b.isEdgeCase, cache,
      z.integerPart, z.fractionBits, delta.integerPart, delta.fractionBits,
      flags.containLeft, flags.containRight);
    ContextFromProducts(ctx, z, delta);
    if b.isEdgeCase then
      DeltaEdgeCase(fmt, cache, beta);
      ctx
    else
      DeltaNormalCase(fmt, cache, beta);
      ctx
  }

  /** A context whose words come from the two compute_mul results is valid. */
  lemma ContextFromProducts(ctx: SearchContext, z: Split, delta: Split)
    requires Alpha <= ctx.beta <= Gamma && EntryMatches(ctx.fmt, ctx.cache)
    requires ctx.fplus < Modulus(ctx.fmt) && ctx.fminus < Modulus(ctx.fmt)
    requires InTableRange(ctx.fmt, ctx.exponent) ==> 0 <= ctx.minusK <= MaxMinusK(ctx.fmt)
    requires ctx.z11 == z.integerPart && ctx.z12 == z.fractionBits
    requires ctx.delta11 == delta.integerPart && ctx.delta12 == delta.fractionBits
    requires z.integerPart < Modulus(ctx.fmt) && z.fractionBits < Pow(2, ctx.beta)
    requires 96 <= delta.integerPart < Modulus(ctx.fmt) && delta.fractionBits < Pow(2, ctx.beta)
    requires Combined(delta, ctx.beta) < Combined(z, ctx.beta)
    ensures ValidContext(ctx)
    ensures Z(ctx) == Combined(z, ctx.beta) && Delta(ctx) == Combined(delta, ctx.beta)
  {
  }

  /**
   * The start of operator(): decompose the bits and compute the
   * boundaries, then the context of the search.
   */
  function MakeContext(fmt: Format, bits: nat, flags: BoundaryFlags): (ctx: SearchContext)
    requires bits < Modulus(fmt) && IsFinite(fmt, bits) && IsNonzero(fmt, bits)
    ensures ValidContext(ctx) && ctx.fmt == fmt
    ensures ctx.exponent == Decompose(fmt, bits).exponent
    ensures ctx.fplus - Decompose(fmt, bits).significand == BoundaryBit(fmt)
    ensures ctx.isEdgeCase <==> ExponentField(fmt, bits) != 0 && ExtractSignificand(fmt, bits) == 0
    ensures Decompose(fmt, bits).significand - ctx.fminus
      == if ctx.isEdgeCase then EdgeCaseBoundaryBit(fmt) else BoundaryBit(fmt)
    ensures ctx.containLeft == flags.containLeft && ctx.containRight == flags.containRight
  {
    var x := Decompose(fmt, bits);
    BoundariesOfInput(fmt, bits);
    ExponentInRange(fmt, bits);
    var b := ComputeBoundaries(fmt, x.significand);
    ContextOf(fmt, x.exponent, b, flags)
  }

  /** signed_fp_t: the decimal significand and exponent with the sign of the input. */
  datatype SignedFp = SignedFp(significand: nat, exponent: int, isNegative: bool)

  /**
   * grisu_exact(x, assert_finite, rounding_mode) on the bit pattern of x:
   * the rounding mode decides which boundaries the interval contains, then
   * operator() runs on the pattern. The sign is the sign bit; the decimal
   * is the one the search specification picks for the context of the input.
   */
  method Convert(fmt: Format, bits: nat, mode: RoundingMode) returns (result: SignedFp)
    requires bits < Modulus(fmt) && IsFinite(fmt, bits) && IsNonzero(fmt, bits)
    ensures result.isNegative == IsNegative(fmt, bits)
    ensures Decimal(result.significand, result.exponent)
      == ExpectedResult(MakeContext(fmt, bits, ContainBoundaries(mode, fmt, bits)))
  {
    var flags := ContainBoundaries(mode, fmt, bits);
    var ctx := MakeContext(fmt, bits, flags);
    var d := FindKappa(ctx);
    result := SignedFp(d.significand, d.exponent, SignField(fmt, bits) != 0);
  }
}
