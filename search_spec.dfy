/**
 * What the digit search of grisu_exact_impl computes, stated over the
 * values it starts from.
 *
 * Z = z1 * 2^beta is the upper boundary f+ times the cache entry for
 * 10^(-minus_k), kept with beta fraction bits, and Delta is the width of
 * the rounding interval in the same units. The search looks for the
 * largest kappa such that cutting the last kappa decimal digits off Z
 * stays inside the interval: Z mod 10^kappa below Delta, or equal to it
 * when the lower boundary belongs to the interval ("Fits"). The comparison
 * of the exact fractional parts in the tie is made by
 * is_z2_smaller_than_delta2 and is_z2_same_as_delta2 ("TieInside").
 * When the right boundary is excluded and Z is itself an exact integer with
 * no digits to cut, the candidate is Z itself, which is outside; the
 * algorithm then trades digits back while 10^kappa still exceeds Delta and
 * steps the result down by one unit ("ShrinkFrom").
 */
module SearchSpec {
  import opened Arith
  import opened CommonInfo
  import opened CacheTables
  import opened MulHelper
  import opened Exactness

  /** z2_vs_delta2_t: the lazily computed verdict of the tie comparison. */
  datatype Z2VsDelta2 = NotComparedYet | Z2Larger | Z2Smaller

  /** The values the search reads, computed before it starts. */
  datatype SearchContext = SearchContext(
    fmt: Format, exponent: int, minusK: int, beta: nat,
    fplus: nat, fminus: nat, isEdgeCase: bool, cache: CacheEntry,
    z11: nat, z12: nat, delta11: nat, delta12: nat,
    containLeft: bool, containRight: bool)

  /** The decimal significand and exponent the search returns. */
  datatype Decimal = Decimal(significand: nat, exponent: int)

  /** z1 as one integer with beta fraction bits. */
  function Z(ctx: SearchContext): nat
  {
    ctx.z11 * Pow(2, ctx.beta) + ctx.z12
  }

  /** delta1 as one integer with beta fraction bits. */
  function Delta(ctx: SearchContext): nat
  {
    ctx.delta11 * Pow(2, ctx.beta) + ctx.delta12
  }

  function Mod10(x: nat, d: nat): nat
  {
    PowPositive(10, d);
    x % Pow(10, d)
  }

  function Div10(x: nat, d: nat): nat
  {
    PowPositive(10, d);
    x / Pow(10, d)
  }

  /**
   * What the main algorithm knows when the search starts: beta in
   * [alpha, gamma], every word below 2^W, the fraction bytes below 2^beta,
   * the upper boundary above the interval width, and minus_k in the range
   * of is_product_integer's table.
   */
  predicate ValidContext(ctx: SearchContext)
  {
    && Alpha <= ctx.beta <= Gamma
    && EntryMatches(ctx.fmt, ctx.cache)
    && ctx.fplus < Modulus(ctx.fmt) && ctx.fminus < Modulus(ctx.fmt)
    && ctx.z11 < Modulus(ctx.fmt) && ctx.z12 < Pow(2, ctx.beta)
    && ctx.delta11 < Modulus(ctx.fmt) && ctx.delta12 < Pow(2, ctx.beta)
    && 96 <= ctx.delta11
    && Z(ctx) > Delta(ctx)
    && (InTableRange(ctx.fmt, ctx.exponent) ==> 0 <= ctx.minusK <= MaxMinusK(ctx.fmt))
  }

  /**
   * f * 2^exponent * 10^(-minus_k) is an integer, as is_product_integer
   * decides it: outright for the exponents where k is not negative, by
   * divisibility by 5^minus_k in the range its table covers.
   */
  predicate ProductInteger(fmt: Format, f: nat, exponent: int, minusK: int)
  {
    NonNegativeKRange(fmt, exponent)
    || (InTableRange(fmt, exponent) && 0 <= minusK && Divides(Pow(5, minusK), f))
  }

  /**
   * The fractional part of the lower boundary's product equals that of
   * Delta: a fixed exponent range for the lower boundary of the edge case,
   * otherwise the lower boundary's product is an integer.
   */
  predicate LowerTieSame(ctx: SearchContext)
  {
    if ctx.fminus == SignBitMask(ctx.fmt) - EdgeCaseBoundaryBit(ctx.fmt)
    then ZeroFractionalPartMinExponentEdge(ctx.fmt) <= ctx.exponent <= 3
    else ProductInteger(ctx.fmt, ctx.fminus, ctx.exponent, ctx.minusK)
  }

  /**
   * Whether a tie Z mod 10^kappa == Delta falls inside the interval: the
   * lower boundary's scaled product has its low fraction bit set (z2 is
   * below delta2), or the two fractional parts are equal and the lower
   * boundary belongs to the interval.
   */
  predicate TieInside(ctx: SearchContext)
    requires ValidContext(ctx)
  {
    ScaledProduct(ctx.fmt, ctx.fminus, ctx.cache, ctx.beta) % 2 == 1
    || (ctx.containLeft && LowerTieSame(ctx))
  }

  /** Cutting the last d digits of Z keeps it inside the interval. */
  predicate Fits(ctx: SearchContext, d: nat)
    requires ValidContext(ctx)
  {
    Mod10(Z(ctx), d) < Delta(ctx) || (Mod10(Z(ctx), d) == Delta(ctx) && TieInside(ctx))
  }

  /** The memo is either empty or holds the verdict of TieInside. */
  predicate MemoCoherent(ctx: SearchContext, memo: Z2VsDelta2)
    requires ValidContext(ctx)
  {
    memo == NotComparedYet || (memo == Z2Smaller <==> TieInside(ctx))
  }

  /** The smallest kappa the binary search can return. */
  function Lo(fmt: Format): nat
  {
    match fmt
    case Binary32 => InitialKappa(fmt) - 2
    case Binary64 => InitialKappa(fmt) - 4
  }

  /** The largest kappa the binary search can return. */
  function Hi(fmt: Format): nat
  {
    match fmt
    case Binary32 => InitialKappa(fmt) + 7
    case Binary64 => InitialKappa(fmt) + 15
  }

  /** The largest kappa in [Lo, d] that fits, or Lo if none does. */
  function Best(ctx: SearchContext, d: nat): (r: nat)
    requires ValidContext(ctx) && Lo(ctx.fmt) <= d
    ensures Lo(ctx.fmt) <= r <= d
    decreases d
  {
    if d == Lo(ctx.fmt) || Fits(ctx, d) then d else Best(ctx, d - 1)
  }

  /** Trading one more digit back keeps 10^kappa above the interval width. */
  predicate Continue(ctx: SearchContext, d: nat)
  {
    Pow(10, d) > Delta(ctx)
    || (Pow(10, d) == Delta(ctx) && IsDeltaInteger(ctx.fmt, ctx.isEdgeCase, ctx.exponent) && !ctx.containLeft)
  }

  /** Where the trailing loop stops when it starts at d. */
  function ShrinkFrom(ctx: SearchContext, d: nat): (r: nat)
    ensures r <= d
  {
    if d > 0 && Continue(ctx, d) then ShrinkFrom(ctx, d - 1) else d
  }

  /** Whether the candidate is Z itself, exactly, while the right boundary is excluded. */
  predicate UpperEndHit(ctx: SearchContext, d: nat)
    requires ValidContext(ctx)
  {
    !ctx.containRight && Mod10(Z(ctx), d) == 0
    && ProductInteger(ctx.fmt, ctx.fplus, ctx.exponent, ctx.minusK)
  }

  /** The result of the search, from the values it starts from. */
  function ExpectedResult(ctx: SearchContext): (r: Decimal)
    requires ValidContext(ctx)
  {
    var d0 := Best(ctx, Hi(ctx.fmt));
    if UpperEndHit(ctx, d0) then
      var d := ShrinkFrom(ctx, d0);
      ExactQuotientPositive(ctx, d0, d);
      Decimal(Div10(Z(ctx), d) - 1, d + ctx.minusK)
    else
      Decimal(Div10(Z(ctx), d0), d0 + ctx.minusK)
  }

  /** If 10^d0 divides Z, so does 10^d for d <= d0, with a quotient of at least 1. */
  lemma ExactQuotientPositive(ctx: SearchContext, d0: nat, d: nat)
    requires ValidContext(ctx) && d <= d0 && Mod10(Z(ctx), d0) == 0
    ensures Mod10(Z(ctx), d) == 0 && Div10(Z(ctx), d) >= 1
  {
    ModOfSmallerPower(Z(ctx), d, d0);
    PowPositive(10, d);
  }

  /** Z mod 10^d is Z mod 10^d0 reduced once more, for d <= d0. */
  lemma ModOfSmallerPower(x: nat, d: nat, d0: nat)
    requires d <= d0
    ensures Mod10(x, d) == Mod10(Mod10(x, d0), d) <= Mod10(x, d0)
  {
    PowAdd(10, d, d0 - d);
    PowPositive(10, d);
    PowPositive(10, d0 - d);
    ModChain(x, Pow(10, d), Pow(10, d0 - d), Pow(10, d0));
  }

  lemma ModChain(x: nat, a: nat, b: nat, p: nat)
    requires a > 0 && b > 0 && p == a * b
    ensures x % a == (x % p) % a <= x % p
  {
    ModOfMod(x, a, b);
  }

  /** Fewer digits cut never leave the interval: Fits is antitone. */
  lemma FitsAntitone(ctx: SearchContext, d1: nat, d2: nat)
    requires ValidContext(ctx) && d1 <= d2 && Fits(ctx, d2)
    ensures Fits(ctx, d1)
  {
    ModOfSmallerPower(Z(ctx), d1, d2);
  }

  /**
   * Fits says that the truncation of Z to a multiple of 10^d is no lower
   * than the lower end Z - Delta of the interval, and equal to it only in
   * a tie whose lower boundary belongs to the interval.
   */
  lemma FitsMeaning(ctx: SearchContext, d: nat)
    requires ValidContext(ctx)
    ensures Pow(10, d) > 0
    ensures Fits(ctx, d) <==> (Z(ctx) - Delta(ctx) < Div10(Z(ctx), d) * Pow(10, d)
      || (Z(ctx) - Delta(ctx) == Div10(Z(ctx), d) * Pow(10, d) && TieInside(ctx)))
  {
    PowPositive(10, d);
    Truncation(Z(ctx), Delta(ctx), Pow(10, d), Div10(Z(ctx), d), Mod10(Z(ctx), d));
  }

  /** With z = q * p + m, comparing m with delta is comparing q * p with z - delta. */
  lemma Truncation(z: nat, delta: nat, p: nat, q: nat, m: nat)
    requires p > 0 && z > delta && q == z / p && m == z % p
    ensures m < delta <==> z - delta < q * p
    ensures m == delta <==> z - delta == q * p
  {
  }

  /** A kappa that fits cuts no more digits than Z has. */
  lemma FitsNeedsDigits(ctx: SearchContext, d: nat)
    requires ValidContext(ctx) && Fits(ctx, d)
    ensures Pow(10, d) <= Z(ctx)
  {
    PowPositive(10, d);
    if Z(ctx) < Pow(10, d) {
      DivModUnique(Z(ctx), Pow(10, d), 0, Z(ctx));
    }
  }

  /**
   * Best(Hi) is the largest fitting kappa of [Lo, Hi]: everything above it
   * fails, everything from Lo up to it fits, and it is Lo when none fits.
   */
  lemma BestCharacterised(ctx: SearchContext)
    requires ValidContext(ctx)
    ensures var b := Best(ctx, Hi(ctx.fmt));
      && Lo(ctx.fmt) <= b <= Hi(ctx.fmt)
      && (b == Lo(ctx.fmt) || Fits(ctx, b))
      && (forall d: nat :: b < d <= Hi(ctx.fmt) ==> !Fits(ctx, d))
      && (Fits(ctx, b) ==> forall d: nat :: d <= b ==> Fits(ctx, d))
  {
    var b := Best(ctx, Hi(ctx.fmt));
    BestAbove(ctx, Hi(ctx.fmt));
    if Fits(ctx, b) {
      forall d: nat | d <= b
        ensures Fits(ctx, d)
      {
        FitsAntitone(ctx, d, b);
      }
    }
  }

  lemma {:induction false} BestAbove(ctx: SearchContext, top: nat)
    requires ValidContext(ctx) && Lo(ctx.fmt) <= top
    ensures var b := Best(ctx, top);
      (b == Lo(ctx.fmt) || Fits(ctx, b)) && forall d: nat :: b < d <= top ==> !Fits(ctx, d)
    decreases top
  {
    if top != Lo(ctx.fmt) && !Fits(ctx, top) {
      BestAbove(ctx, top - 1);
    }
  }

  /**
   * A kappa that fits while the next one does not (or which is Hi) is
   * Best(Hi); the upward search ends in such a bracket.
   */
  lemma BestFromBracket(ctx: SearchContext, k: nat)
    requires ValidContext(ctx) && Lo(ctx.fmt) <= k <= Hi(ctx.fmt)
    requires k == Lo(ctx.fmt) || Fits(ctx, k)
    requires k == Hi(ctx.fmt) || !Fits(ctx, k + 1)
    ensures Best(ctx, Hi(ctx.fmt)) == k
  {
    BestDownTo(ctx, Hi(ctx.fmt), k);
  }

  lemma {:induction false} BestDownTo(ctx: SearchContext, top: nat, k: nat)
    requires ValidContext(ctx) && Lo(ctx.fmt) <= k <= top
    requires k == Lo(ctx.fmt) || Fits(ctx, k)
    requires k == top || !Fits(ctx, k + 1)
    ensures Best(ctx, top) == k
    decreases top
  {
    if top > k {
      if Fits(ctx, top) {
        FitsAntitone(ctx, k + 1, top);
      }
      assert top != Lo(ctx.fmt);
      BestDownTo(ctx, top - 1, k);
    }
  }

  /**
   * ShrinkFrom(d0) goes down through every kappa whose 10^kappa still
   * exceeds the width (or equals it where allowed), and stops at the
   * first one that does not.
   */
  lemma {:induction false} ShrinkCharacterised(ctx: SearchContext, d0: nat)
    ensures var d := ShrinkFrom(ctx, d0);
      && d <= d0
      && (d == 0 || !Continue(ctx, d))
      && forall d': nat :: d < d' <= d0 ==> Continue(ctx, d')
  {
    if d0 > 0 && Continue(ctx, d0) {
      ShrinkCharacterised(ctx, d0 - 1);
    }
  }

  /** Continuing needs 10^kappa >= Delta >= 192, hence kappa >= 3. */
  lemma ContinueNeedsDigits(ctx: SearchContext, d: nat)
    requires ValidContext(ctx) && Continue(ctx, d)
    ensures d >= 3
  {
    assert Delta(ctx) >= 192 by {
      PowMonotone(2, 1, ctx.beta);
      MulLe(96, 2, ctx.delta11, Pow(2, ctx.beta));
    }
    if d < 3 {
      PowMonotone(10, d, 2);
    }
  }

  /** Z < 2^(W + 4), so Z / 10^d fits in a word once d >= 2. */
  lemma QuotientFits(ctx: SearchContext, d: nat)
    requires ValidContext(ctx) && d >= 2
    ensures Div10(Z(ctx), d) < Modulus(ctx.fmt)
  {
    var m := Modulus(ctx.fmt);
    PowMonotone(2, ctx.beta, 4);
    PowMonotone(10, 2, d);
    assert Pow(2, 4) == 16;
    assert Z(ctx) < m * 100 by {
      MulLe(ctx.z11 + 1, Pow(2, ctx.beta), m, 16);
    }
    MulLe(m, 100, m, Pow(10, d));
    DivUpperBound(Z(ctx), Pow(10, d), m);
  }
}
