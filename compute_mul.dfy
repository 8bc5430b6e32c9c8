/**
 * compute_mul_helper: the integer part and the leading fraction bits of
 * f * 10^k, read from the product of f with the cache entry for 10^k, and
 * the same pair for the width of the rounding interval.
 *
 * The pair (integer part, fraction bits) stands for the single integer
 * integerPart * 2^beta + fractionBits, the product scaled so that it keeps
 * beta bits below the binary point; the lemmas state everything in terms
 * of that combined value.
 */
module MulHelper {
  import opened Arith
  import opened WideMul
  import opened CommonInfo
  import opened CacheTables

  /** std::pair<extended_significand_type, unsigned char> */
  datatype Split = Split(integerPart: nat, fractionBits: nat)

  /** The pair read as one integer with beta fraction bits. */
  function Combined(s: Split, beta: nat): nat
  {
    s.integerPart * Pow(2, beta) + s.fractionBits
  }

  /** q_mp_1 = extended_precision - precision - 1: 8 for binary32, 11 for binary64. */
  function QMp1(fmt: Format): nat
  {
    ExtendedPrecision(fmt) - Precision(fmt) - 1
  }

  /** The exact product f * cache, keeping beta bits below the binary point. */
  function ScaledProduct(fmt: Format, f: nat, c: CacheEntry, beta: nat): nat
    requires beta <= CachePrecision(fmt)
  {
    MulNat(f, CacheValue(c));
    Shr(f * CacheValue(c), CachePrecision(fmt) - beta)
  }

  /** The leading 64-bit word of a cache entry. */
  function HeadWord(c: CacheEntry): (h: U64)
    ensures c.Entry32? ==> h == CacheValue(c)
    ensures c.Entry64? ==> CacheValue(c) == h * TWO64 + c.pair.low
    ensures IsNormalized(c) <==> h >= 0x8000_0000_0000_0000
  {
    match c
    case Entry32(w) => w
    case Entry64(p) => p.high
  }

  /** 2^(cache_precision - 64): the weight of the leading word. */
  function HeadWeight(fmt: Format): (t: nat)
    ensures t >= 1
  {
    match fmt
    case Binary32 => 1
    case Binary64 => TWO64
  }

  /**
   * Splitting x / 2^(a-b) at bit b: with u = 2^(a-b) and w = 2^b, the high
   * part x / (u*w) and the low part (x % (u*w)) / u recombine to x / u.
   */
  lemma ShiftSplit(x: nat, u: nat, w: nat, hi: nat, lo: nat)
    requires u > 0 && w > 0
    requires hi == x / (u * w) && lo == (x % (u * w)) / u
    ensures hi * w + lo == x / u && lo < w
  {
    var y := x / u;
    DivDiv(x, u, w);
    MulDivCancel(y % w, x % u, u);
    DivModUnique(x % u, u, 0, x % u);
    assert u * (y % w) == (y % w) * u;
  }

  lemma PowSplit(a: nat, b: nat)
    requires b <= a
    ensures Pow(2, a - b) > 0 && Pow(2, b) > 0 && Pow(2, a - b) * Pow(2, b) == Pow(2, a)
  {
    PowPositive(2, a - b);
    PowPositive(2, b);
    PowAdd(2, a - b, b);
  }

  /** beta fraction bits fit in an unsigned char when beta <= 8. */
  lemma SmallFraction(lo: nat, beta: nat)
    requires beta <= 8 && lo < Pow(2, beta)
    ensures lo % 256 == lo
  {
    PowMonotone(2, beta, 8);
    assert Pow(2, 8) == 256;
  }

  /**
   * compute_mul: the integer part of f * cache / 2^cache_precision and the
   * next beta bits. For binary32 it keeps the upper 64 bits of the 96-bit
   * product, for binary64 the upper 128 bits of the 192-bit product.
   */
  function ComputeMul(fmt: Format, f: nat, c: CacheEntry, beta: nat): (r: Split)
    requires EntryMatches(fmt, c) && f < Modulus(fmt) && 1 <= beta <= 8
    ensures r.integerPart < Modulus(fmt) && r.fractionBits < Pow(2, beta)
    ensures r.integerPart == Shr(f * CacheValue(c), CachePrecision(fmt))
    ensures Combined(r, beta) == ScaledProduct(fmt, f, c, beta)
  {
    match c
    case Entry32(w) => ComputeMul32(f, w, beta)
    case Entry64(p) => ComputeMul64(f, p, beta)
  }

  function ComputeMul32(f: U32, w: U64, beta: nat): (r: Split)
    requires 1 <= beta <= 8
    ensures r.integerPart < TWO32 && r.fractionBits < Pow(2, beta)
    ensures r.integerPart == Shr(f * w, 64)
    ensures r.integerPart * Pow(2, beta) + r.fractionBits == Shr(f * w, 64 - beta)
  {
    var r := Umul96Upper64(f, w);
    WordPowers(32, beta);
    DivNat(r % TWO32, Pow(2, 32 - beta));
    var lo := (r % TWO32) / Pow(2, 32 - beta);
    MulNat(f, w);
    TwoLevelSplit(f * w, TWO32, Pow(2, 32 - beta), Pow(2, beta), r / TWO32, r % TWO32, lo);
    SmallFraction(lo, beta);
    assert r / TWO32 < TWO32 by {
      MulLe(f, w, TWO32 - 1, TWO64 - 1);
      DivUpperBound(f * w, TWO64, TWO32);
    }
    // extended_significand_type(r >> 32), (unsigned char)((r & mask) >> (32 - beta))
    Split(r / TWO32, lo % 256)
  }

  function ComputeMul64(f: U64, p: UInt128, beta: nat): (r: Split)
    requires 1 <= beta <= 8
    ensures r.integerPart < TWO64 && r.fractionBits < Pow(2, beta)
    ensures r.integerPart == Shr(f * Value128(p), 128)
    ensures r.integerPart * Pow(2, beta) + r.fractionBits == Shr(f * Value128(p), 128 - beta)
  {
    var r := Umul192Upper128(f, p);
    WordPowers(64, beta);
    DivNat(r.low, Pow(2, 64 - beta));
    var lo := r.low / Pow(2, 64 - beta);
    MulNat(f, Value128(p));
    DivModUnique(Value128(r), TWO64, r.high, r.low);
    TwoLevelSplit(f * Value128(p), TWO64, Pow(2, 64 - beta), Pow(2, beta), r.high, r.low, lo);
    SmallFraction(lo, beta);
    // r.high(), (unsigned char)(r.low() >> (64 - beta))
    Split(r.high, lo % 256)
  }

  /** The powers of two a compute_mul on n-bit words shifts by. */
  lemma WordPowers(n: nat, beta: nat)
    requires (n == 32 || n == 64) && 1 <= beta <= 8
    ensures Pow(2, n - beta) > 0 && Pow(2, beta) > 0
    ensures Pow(2, n - beta) * Pow(2, beta) == Pow(2, n)
    ensures Pow(2, n) == (if n == 32 then TWO32 else TWO64)
    ensures Pow(2, 2 * n) == Pow(2, n) * Pow(2, n)
    ensures Pow(2, 2 * n - beta) == Pow(2, n) * Pow(2, n - beta)
  {
    PowSplit(n, beta);
    WordPowersOfTwo();
    PowAdd(2, n, n);
    PowAdd(2, n, n - beta);
  }

  /**
   * Two successive divisions by d of x, the second one also split at u:
   * with v = x / d, the high word v / d and the low word v % d shifted
   * right by u recombine to x / (d * u).
   */
  lemma TwoLevelSplit(x: nat, d: nat, u: nat, w: nat, hi: nat, low: nat, lo: nat)
    requires d > 0 && u > 0 && w > 0 && u * w == d
    requires hi == (x / d) / d && low == (x / d) % d && lo == low / u
    ensures hi == x / (d * d) && lo < w
    ensures hi * w + lo == x / (d * u)
  {
    var v := x / d;
    ShiftSplit(v, u, w, hi, lo);
    DivDiv(x, d, d);
    DivDiv(x, d, u);
  }

  /** The head word for compute_delta: the full word, or 3/4 of it in the edge case. */
  function DeltaHead(isEdgeCase: bool, c: CacheEntry): (v: nat)
    ensures v < TWO64
  {
    var h := HeadWord(c);
    if isEdgeCase then h / 2 + h / 4 else h
  }

  /**
   * compute_delta: the integer part and the next beta bits of the width of
   * the rounding interval, (fplus - fminus) * 10^k, read from the leading
   * word of the cache entry alone.
   */
  function ComputeDelta(fmt: Format, isEdgeCase: bool, c: CacheEntry, beta: nat): (r: Split)
    requires 1 <= beta <= 8
    ensures r.integerPart < Pow(2, QMp1(fmt)) && r.fractionBits < Pow(2, beta)
    ensures Combined(r, beta) == Shr(DeltaHead(isEdgeCase, c), 64 - QMp1(fmt) - beta)
  {
    SplitHead(DeltaHead(isEdgeCase, c), QMp1(fmt), beta)
  }

  /** The integer part (the top q bits) of a 64-bit word and its next beta bits. */
  function SplitHead(v: nat, q: nat, beta: nat): (r: Split)
    requires v < TWO64 && 8 <= q <= 11 && 1 <= beta <= 8
    ensures r.integerPart < Pow(2, q) && r.fractionBits < Pow(2, beta)
    ensures r.integerPart * Pow(2, beta) + r.fractionBits == Shr(v, 64 - q - beta)
  {
    PowSplit(64 - q, beta);
    DivNat(v, Pow(2, 64 - q));
    DivNat(v % Pow(2, 64 - q), Pow(2, 64 - q - beta));
    var lo := (v % Pow(2, 64 - q)) / Pow(2, 64 - q - beta);
    DeltaFraction(v, q, beta, lo);
    // r >> (64 - q_mp_1), (unsigned char)((r & mask) >> (64 - q_mp_1 - beta))
    Split(v / Pow(2, 64 - q), lo % 256)
  }

  lemma DeltaFraction(v: nat, q: nat, beta: nat, lo: nat)
    requires v < TWO64 && 8 <= q <= 11 && 1 <= beta <= 8
    requires Pow(2, 64 - q) > 0 && Pow(2, 64 - q - beta) > 0
    requires lo == (v % Pow(2, 64 - q)) / Pow(2, 64 - q - beta)
    ensures lo < Pow(2, beta) && lo % 256 == lo
    ensures v / Pow(2, 64 - q) < Pow(2, q)
    ensures (v / Pow(2, 64 - q)) * Pow(2, beta) + lo == Shr(v, 64 - q - beta)
  {
    PowSplit(64 - q, beta);
    PowSplit(64, q);
    WordPowersOfTwo();
    HeadSplit(v, Pow(2, 64 - q), Pow(2, 64 - q - beta), Pow(2, beta), Pow(2, q), lo);
    SmallFraction(lo, beta);
  }

  /** Splitting a word at a = u * w: the part above a, then w more bits below it. */
  lemma HeadSplit(v: nat, a: nat, u: nat, w: nat, t: nat, lo: nat)
    requires u > 0 && w > 0 && u * w == a && a * t == TWO64 && v < TWO64
    requires lo == (v % a) / u
    ensures lo < w && (v / a) * w + lo == v / u && v / a < t
  {
    ShiftSplit(v, u, w, v / a, lo);
    assert v < t * a;
    DivUpperBound(v, a, t);
  }

  /** normal_interval_length is 2^q_mp_1, and boundary_bit + edge_case_boundary_bit is 3 * 2^(q_mp_1 - 2). */
  lemma IntervalLengths(fmt: Format)
    ensures NormalIntervalLength(fmt) == Pow(2, QMp1(fmt))
    ensures BoundaryBit(fmt) + EdgeCaseBoundaryBit(fmt) == 3 * Pow(2, QMp1(fmt) - 2)
    ensures 8 <= QMp1(fmt) <= 11
    ensures HeadWeight(fmt) == Pow(2, CachePrecision(fmt) - 64)
  {
    WordPowersOfTwo();
    match fmt
    case Binary32 =>
      assert Pow(2, 8) == 256 && Pow(2, 6) == 64 && Pow(2, 0) == 1;
    case Binary64 =>
      assert Pow(2, 11) == 2048 && Pow(2, 9) == 512;
  }

  /**
   * Away from the edge case compute_delta is exactly compute_mul of the
   * normal interval length: the bits of the cache below the leading word
   * cannot reach the kept bits.
   */
  lemma DeltaNormalCase(fmt: Format, c: CacheEntry, beta: nat)
    requires EntryMatches(fmt, c) && 1 <= beta <= 8
    ensures Combined(ComputeDelta(fmt, false, c, beta), beta)
      == ScaledProduct(fmt, NormalIntervalLength(fmt), c, beta)
  {
    var q := QMp1(fmt);
    IntervalLengths(fmt);
    var t := HeadWeight(fmt);
    var u := Pow(2, 64 - q - beta);
    var h := HeadWord(c);
    PowSplit(64 - q, beta);
    // 2^(cache_precision - beta) == 2^q * (u * t)
    assert Pow(2, CachePrecision(fmt) - beta) == Pow(2, q) * (u * t) by {
      PowAdd(2, 64 - q - beta, CachePrecision(fmt) - 64);
      PowAdd(2, q, CachePrecision(fmt) - beta - q);
    }
    PowPositive(2, q);
    NormalCaseQuotient(CacheValue(c), Pow(2, q), u, t, h, c.Entry64?);
  }

  lemma NormalCaseQuotient(c: nat, p: nat, u: nat, t: nat, h: nat, wide: bool)
    requires p > 0 && u > 0 && t > 0
    requires !wide ==> t == 1 && c == h
    requires wide ==> t == TWO64 && c / TWO64 == h
    ensures (p * c) / (p * (u * t)) == h / u
  {
    MulModCancel(c, p, u * t);
    assert (p * c) / (p * (u * t)) == c / (u * t) by {
      assert p * c == c * p && p * (u * t) == (u * t) * p;
    }
    DivDiv(c, t, u);
    assert t * u == u * t;
  }

  /**
   * In the edge case compute_delta takes floor(h/2) + floor(h/4) for 3h/4,
   * which can lose at most one unit of the combined value against the
   * exact product with boundary_bit + edge_case_boundary_bit.
   */
  lemma DeltaEdgeCase(fmt: Format, c: CacheEntry, beta: nat)
    requires EntryMatches(fmt, c) && 1 <= beta <= 8
    ensures var d := Combined(ComputeDelta(fmt, true, c, beta), beta);
      var s := ScaledProduct(fmt, BoundaryBit(fmt) + EdgeCaseBoundaryBit(fmt), c, beta);
      d <= s <= d + 1
  {
    var q := QMp1(fmt);
    var u := Pow(2, 64 - q - beta);
    var g := Pow(2, q - 2);
    var p := Pow(2, CachePrecision(fmt) - beta);
    var f := BoundaryBit(fmt) + EdgeCaseBoundaryBit(fmt);
    EdgeWeights(fmt, beta);
    PowPositive(2, CachePrecision(fmt) - beta);
    var d := Combined(ComputeDelta(fmt, true, c, beta), beta);
    assert d == DeltaHead(true, c) / u;
    var s := ScaledProduct(fmt, f, c, beta);
    assert s == (f * CacheValue(c)) / p by {
      MulNat(f, CacheValue(c));
    }
    EdgeCaseQuotient(CacheValue(c), g, u, HeadWeight(fmt), HeadWord(c), DeltaHead(true, c), c.Entry64?, f, p);
  }

  /** The powers of two that the edge case of compute_delta divides by. */
  lemma EdgeWeights(fmt: Format, beta: nat)
    requires 1 <= beta <= 8
    ensures var q := QMp1(fmt);
      var u := Pow(2, 64 - q - beta);
      var g := Pow(2, q - 2);
      && 8 <= q <= 11
      && u >= 2 && g > 0 && BoundaryBit(fmt) + EdgeCaseBoundaryBit(fmt) == 3 * g
      && Pow(2, CachePrecision(fmt) - beta) == g * (4 * u * HeadWeight(fmt))
  {
    var q := QMp1(fmt);
    IntervalLengths(fmt);
    var t := HeadWeight(fmt);
    PowMonotone(2, 1, 64 - q - beta);
    PowPositive(2, q - 2);
    PowAdd(2, 64 - q - beta, CachePrecision(fmt) - 64);
    PowAdd(2, q - 2, CachePrecision(fmt) - beta - q + 2);
    PowAdd(2, 2, CachePrecision(fmt) - beta - q);
    assert Pow(2, 2) == 4;
  }

  lemma EdgeCaseQuotient(c: nat, g: nat, u: nat, t: nat, h: nat, v: nat, wide: bool, f: nat, p: nat)
    requires g > 0 && u >= 2 && t > 0 && f == 3 * g && p == g * (4 * u * t)
    requires !wide ==> t == 1 && c == h
    requires wide ==> t == TWO64 && h * TWO64 <= c < h * TWO64 + TWO64
    requires v == h / 2 + h / 4
    ensures v / u <= (f * c) / p <= v / u + 1
  {
    var d := 4 * u * t;
    MulModCancel(3 * c, g, d);
    assert (f * c) / p == (3 * c) / d by {
      assert f * c == (3 * c) * g && p == d * g;
    }
    MulModCancel(v, 4 * t, u);
    assert v / u == (v * (4 * t)) / d by {
      assert u * (4 * t) == d;
    }
    assert 4 * v <= 3 * h <= 4 * v + 5;
    var x := v * (4 * t);
    assert x <= 3 * c < x + d by {
      if wide {
        assert x == (4 * v) * TWO64;
        assert d >= 8 * TWO64;
      }
    }
    NearQuotient(x, 3 * c, d);
  }

  lemma NearQuotient(x: nat, y: nat, d: nat)
    requires d > 0 && x <= y < x + d
    ensures x / d <= y / d <= x / d + 1
  {
    DivIsMonotone(x, y, d);
    DivUpperBound(y, d, x / d + 2) by {
      assert x < (x / d + 1) * d;
    }
  }

  /**
   * With a normalized cache entry the combined delta is at least
   * 2^(q_mp_1 + beta - 1), and 3 * 2^(q_mp_1 + beta - 3) in the edge case.
   */
  lemma DeltaLowerBound(fmt: Format, isEdgeCase: bool, c: CacheEntry, beta: nat)
    requires IsNormalized(c) && 1 <= beta <= 8
    ensures var d := Combined(ComputeDelta(fmt, isEdgeCase, c, beta), beta);
      var q := QMp1(fmt);
      isEdgeCase ==> d >= 3 * Pow(2, q + beta - 3)
    ensures var d := Combined(ComputeDelta(fmt, isEdgeCase, c, beta), beta);
      var q := QMp1(fmt);
      !isEdgeCase ==> d >= Pow(2, q + beta - 1)
  {
    var q := QMp1(fmt);
    IntervalLengths(fmt);
    PowPositive(2, 64 - q - beta);
    WordPowersOfTwo();
    PowSum(q + beta - 1, 64 - q - beta, 63);
    PowSum(q + beta - 3, 64 - q - beta, 61);
    HeadAtLeast(HeadWord(c), DeltaHead(isEdgeCase, c), isEdgeCase,
      Pow(2, q + beta - 3), Pow(2, q + beta - 1), Pow(2, 64 - q - beta));
  }

  lemma PowSum(a: nat, b: nat, n: nat)
    requires a + b == n
    ensures Pow(2, n) == Pow(2, a) * Pow(2, b)
  {
    PowAdd(2, a, b);
  }

  lemma HeadAtLeast(h: nat, v: nat, isEdgeCase: bool, a: nat, b: nat, u: nat)
    requires h >= 0x8000_0000_0000_0000 && v == (if isEdgeCase then h / 2 + h / 4 else h)
    requires u > 0 && 0x2000_0000_0000_0000 == a * u && 0x8000_0000_0000_0000 == b * u
    ensures isEdgeCase ==> v / u >= 3 * a
    ensures !isEdgeCase ==> v / u >= b
  {
    if isEdgeCase {
      assert (3 * a) * u == 3 * (a * u);
      DivLowerBound(v, u, 3 * a);
    } else {
      DivLowerBound(v, u, b);
    }
  }

  /** A larger multiplier never gives a smaller scaled product. */
  lemma ScaledMonotone(fmt: Format, f1: nat, f2: nat, c: CacheEntry, beta: nat)
    requires f1 <= f2 && beta <= CachePrecision(fmt)
    ensures ScaledProduct(fmt, f1, c, beta) <= ScaledProduct(fmt, f2, c, beta)
  {
    PowPositive(2, CachePrecision(fmt) - beta);
    MulLe(f1, CacheValue(c), f2, CacheValue(c));
    DivIsMonotone(f1 * CacheValue(c), f2 * CacheValue(c), Pow(2, CachePrecision(fmt) - beta));
  }

  /**
   * Raising the multiplier by g with g * cache >= 2^(cache_precision - beta)
   * raises the scaled product by at least one.
   */
  lemma ScaledGap(fmt: Format, f: nat, g: nat, c: CacheEntry, beta: nat)
    requires beta <= CachePrecision(fmt)
    requires g * CacheValue(c) >= Pow(2, CachePrecision(fmt) - beta)
    ensures ScaledProduct(fmt, f, c, beta) + 1 <= ScaledProduct(fmt, f + g, c, beta)
  {
    PowPositive(2, CachePrecision(fmt) - beta);
    var cv := CacheValue(c);
    MulNat(f, cv);
    MulNat(g, cv);
    assert (f + g) * cv == f * cv + g * cv;
    QuotientGap(f * cv, (f + g) * cv, g * cv, Pow(2, CachePrecision(fmt) - beta));
  }

  lemma QuotientGap(x: nat, y: nat, gap: nat, p: nat)
    requires p > 0 && y == x + gap && gap >= p
    ensures x / p + 1 <= y / p
  {
    MulDivCancel(1, x, p);
    DivIsMonotone(p + x, y, p);
  }
}
