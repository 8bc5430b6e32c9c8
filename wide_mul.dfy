/**
 * Wide multiplication helpers of grisu_exact_detail: the 128-bit product of
 * two 64-bit words, its upper half, the upper 128 bits of a 64x128 product
 * and the upper 64 bits of a 32x64 product. The model follows the portable
 * path, which splits each operand into 32-bit halves; every C++ addition or
 * shift that could wrap is written modulo 2^64.
 */
module WideMul {
  import opened Arith

  /** struct uint128: a pair of 64-bit words. */
  datatype UInt128 = UInt128(high: U64, low: U64)

  function Value128(u: UInt128): (v: nat)
    ensures v < TWO64 * TWO64
  {
    u.high * TWO64 + u.low
  }

  /** The four partial products of the portable path, recombined. */
  lemma SplitProduct(x: U64, y: U64, a: nat, b: nat, c: nat, d: nat)
    requires a == x / TWO32 && b == x % TWO32 && c == y / TWO32 && d == y % TWO32
    ensures a < TWO32 && b < TWO32 && c < TWO32 && d < TWO32
    ensures a * c < TWO64 && a * d < TWO64 && b * c < TWO64 && b * d < TWO64
    ensures x * y == a * c * TWO64 + (a * d + b * c) * TWO32 + b * d
  {
    MulLe(a, c, TWO32 - 1, TWO32 - 1);
    MulLe(a, d, TWO32 - 1, TWO32 - 1);
    MulLe(b, c, TWO32 - 1, TWO32 - 1);
    MulLe(b, d, TWO32 - 1, TWO32 - 1);
    ExpandProduct(x, y, a, b, c, d);
  }

  lemma ExpandProduct(x: int, y: int, a: int, b: int, c: int, d: int)
    requires x == a * TWO32 + b && y == c * TWO32 + d
    ensures x * y == a * c * TWO64 + (a * d + b * c) * TWO32 + b * d
  {
  }

  /**
   * With I = bd/2^32 + ad%2^32 + bc%2^32, the high word
   * ac + I/2^32 + ad/2^32 + bc/2^32 and the low word (I%2^32)*2^32 + bd%2^32
   * together hold ac*2^64 + (ad+bc)*2^32 + bd.
   */
  lemma Recombine(ac: nat, ad: nat, bc: nat, bd: nat, i: nat, hi: nat, lo: nat)
    requires i == bd / TWO32 + ad % TWO32 + bc % TWO32
    requires hi == ac + i / TWO32 + ad / TWO32 + bc / TWO32
    requires lo == (i % TWO32) * TWO32 + bd % TWO32
    ensures hi * TWO64 + lo == ac * TWO64 + (ad + bc) * TWO32 + bd
    ensures lo < TWO64
  {
    assert i == (i / TWO32) * TWO32 + i % TWO32;
    assert ad == (ad / TWO32) * TWO32 + ad % TWO32;
    assert bc == (bc / TWO32) * TWO32 + bc % TWO32;
    assert bd == (bd / TWO32) * TWO32 + bd % TWO32;
  }

  /**
   * The portable path of umul128: from the 32-bit halves of x and y, the
   * high word ac + I/2^32 + ad/2^32 + bc/2^32 and the low word
   * (I%2^32)*2^32 + bd%2^32 are the two words of x*y.
   */
  lemma PortablePath(x: U64, y: U64, a: nat, b: nat, c: nat, d: nat, i: nat, hi: nat, lo: nat)
    requires a == x / TWO32 && b == x % TWO32 && c == y / TWO32 && d == y % TWO32
    requires i == (b * d) / TWO32 + (a * d) % TWO32 + (b * c) % TWO32
    requires hi == a * c + i / TWO32 + (a * d) / TWO32 + (b * c) / TWO32
    requires lo == (i % TWO32) * TWO32 + (b * d) % TWO32
    ensures hi < TWO64 && lo < TWO64 && x * y == hi * TWO64 + lo
    ensures hi == (x * y) / TWO64 && lo == (x * y) % TWO64
  {
    SplitProduct(x, y, a, b, c, d);
    Recombine(a * c, a * d, b * c, b * d, i, hi, lo);
    MulLe(x, y, TWO64 - 1, TWO64 - 1);
    DivModUnique(x * y, TWO64, hi, lo);
    DivUpperBound(x * y, TWO64, TWO64);
  }

  /** A left shift by 32 of a 64-bit word drops the bits pushed past 2^64. */
  lemma ShiftLeft32(i: nat)
    ensures (i * TWO32) % TWO64 == (i % TWO32) * TWO32
  {
    MulModCancel(i, TWO32, TWO32);
  }

  /** umul128: the full 128-bit product of two 64-bit words. */
  function Umul128(x: U64, y: U64): (r: UInt128)
    ensures Value128(r) == x * y
    ensures r.high == (x * y) / TWO64 && r.low == (x * y) % TWO64
  {
    var a, b, c, d := x / TWO32, x % TWO32, y / TWO32, y % TWO32;
    var ac, bc, ad, bd := a * c, b * c, a * d, b * d;
    var intermediate := bd / TWO32 + ad % TWO32 + bc % TWO32;
    var hi := ac + intermediate / TWO32 + ad / TWO32 + bc / TWO32;
    var lo := (intermediate % TWO32) * TWO32 + bd % TWO32;
    PortablePath(x, y, a, b, c, d, intermediate, hi, lo);
    LowWord(intermediate, bd, lo);
    // the sum for the high word cannot wrap; the low word is (intermediate << 32) + (bd & mask)
    UInt128(hi, ((intermediate * TWO32) % TWO64 + bd % TWO32) % TWO64)
  }

  /** The low word of umul128, computed with a wrapping shift, is the unwrapped one. */
  lemma LowWord(intermediate: nat, bd: nat, lo: nat)
    requires lo == (intermediate % TWO32) * TWO32 + bd % TWO32 && lo < TWO64
    ensures ((intermediate * TWO32) % TWO64 + bd % TWO32) % TWO64 == lo
  {
    ShiftLeft32(intermediate);
  }

  /** umul128_upper64: only the high word of the 128-bit product. */
  function Umul128Upper64(x: U64, y: U64): (r: U64)
    ensures r == (x * y) / TWO64
  {
    var a, b, c, d := x / TWO32, x % TWO32, y / TWO32, y % TWO32;
    var ac, bc, ad, bd := a * c, b * c, a * d, b * d;
    var intermediate := bd / TWO32 + ad % TWO32 + bc % TWO32;
    var hi := ac + intermediate / TWO32 + ad / TWO32 + bc / TWO32;
    PortablePath(x, y, a, b, c, d, intermediate, hi, (intermediate % TWO32) * TWO32 + bd % TWO32);
    hi % TWO64
  }

  /** The two portable routines agree on the high word. */
  lemma Upper64IsHighWord(x: U64, y: U64)
    ensures Umul128Upper64(x, y) == Umul128(x, y).high
  {
  }

  /** umul192_upper128: the upper 128 bits of a 64-bit by 128-bit product. */
  function Umul192Upper128(x: U64, y: UInt128): (r: UInt128)
    ensures Value128(r) == (x * Value128(y)) / TWO64
  {
    var g0 := Umul128(x, y.high);
    var g10 := Umul128Upper64(x, y.low);
    Umul192Of(x, y, g0, g10)
  }

  /** The tail of umul192_upper128: add the two middle words and propagate the carry. */
  function Umul192Of(x: U64, y: UInt128, g0: UInt128, g10: U64): (r: UInt128)
    requires Value128(g0) == x * y.high && g10 == (x * y.low) / TWO64
    ensures Value128(r) == (x * Value128(y)) / TWO64
  {
    var intermediate := (g0.low + g10) % TWO64;
    var carry := if intermediate < g10 then 1 else 0;
    Umul192Carry(x, y, g0, g10, intermediate, carry);
    // the carry into the high word cannot overflow it
    UInt128(g0.high + carry, intermediate)
  }

  lemma Umul192Carry(x: U64, y: UInt128, g0: UInt128, g10: U64, intermediate: nat, carry: nat)
    requires Value128(g0) == x * y.high && g10 == (x * y.low) / TWO64
    requires intermediate == (g0.low + g10) % TWO64
    requires carry == if intermediate < g10 then 1 else 0
    ensures g0.high + carry < TWO64 && intermediate < TWO64
    ensures Value128(UInt128(g0.high + carry, intermediate)) == (x * Value128(y)) / TWO64
  {
    var yv := Value128(y);
    assert g0.high * TWO64 + g0.low == x * y.high;
    assert yv == y.high * TWO64 + y.low;
    Upper128Carry(x, y.high, y.low, yv, g0.high, g0.low, g10, intermediate, carry);
  }

  lemma Upper128Carry(x: U64, yh: U64, yl: U64, yv: nat, g0h: U64, g0l: U64, g10: U64, intermediate: nat, carry: nat)
    requires yv == yh * TWO64 + yl
    requires g0h * TWO64 + g0l == x * yh && g10 == (x * yl) / TWO64
    requires intermediate == (g0l + g10) % TWO64
    requires carry == if intermediate < g10 then 1 else 0
    ensures g0h + carry < TWO64
    ensures (g0h + carry) * TWO64 + intermediate == (x * yv) / TWO64
  {
    var lowPart := x * yl;
    assert g0l + g10 == carry * TWO64 + intermediate;
    assert x * yv == (x * yh) * TWO64 + lowPart;
    assert lowPart == g10 * TWO64 + lowPart % TWO64;
    var q := g0h * TWO64 + g0l + g10;
    assert x * yv == q * TWO64 + lowPart % TWO64;
    DivModUnique(x * yv, TWO64, q, lowPart % TWO64);
    MulLe(x, yv, TWO64 - 1, TWO64 * TWO64 - 1);
    assert x * yv < TWO64 * (TWO64 * TWO64);
    DivUpperBound(x * yv, TWO64, TWO64 * TWO64);
  }

  /** umul96_upper64: the upper 64 bits of a 32-bit by 64-bit product. */
  function Umul96Upper64(x: U32, y: U64): (r: U64)
    ensures r == (x * y) / TWO32
  {
    var g0 := x * (y / TWO32);
    var g1 := x * (y % TWO32);
    Upper64Of96(x, y, y / TWO32, y % TWO32, g0, g1);
    (g0 + g1 / TWO32) % TWO64
  }

  lemma Upper64Of96(x: U32, y: U64, yh: nat, yl: nat, g0: nat, g1: nat)
    requires yh == y / TWO32 && yl == y % TWO32 && g0 == x * yh && g1 == x * yl
    ensures g0 < TWO64 && g1 < TWO64
    ensures g0 + g1 / TWO32 < TWO64 && g0 + g1 / TWO32 == (x * y) / TWO32
  {
    MulLe(x, yh, TWO32 - 1, TWO32 - 1);
    MulLe(x, yl, TWO32 - 1, TWO32 - 1);
    assert x * y == g0 * TWO32 + g1 by {
      assert y == yh * TWO32 + yl;
    }
    MulDivCancel(g0, g1, TWO32);
    MulLe(x, y, TWO32 - 1, TWO64 - 1);
    DivUpperBound(x * y, TWO32, TWO64);
  }
}
