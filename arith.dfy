/**
 * Integer facts shared by the whole model: machine-word types, powers,
 * division identities, and the bitwise exclusive or on naturals.
 * C++ unsigned arithmetic wraps; the model writes every such wrap out with
 * `% TWO32` or `% TWO64`.
 */
module Arith {

  const TWO32: nat := 0x1_0000_0000
  const TWO64: nat := 0x1_0000_0000_0000_0000

  /** std::uint32_t */
  type U32 = x: int | 0 <= x < 0x1_0000_0000
  /** std::uint64_t */
  type U64 = x: int | 0 <= x < 0x1_0000_0000_0000_0000
  /** unsigned char */
  type Byte = x: int | 0 <= x < 256

  function Pow(b: nat, n: nat): nat
  {
    if n == 0 then 1 else b * Pow(b, n - 1)
  }

  /** Exponentiation by squaring; only used to evaluate large ground powers. */
  function SqPow(b: nat, n: nat): nat
    decreases n
  {
    if n == 0 then 1
    else if n % 2 == 0 then SqPow(b * b, n / 2)
    else b * SqPow(b * b, n / 2)
  }

  /** x >> n on an unbounded natural. */
  function Shr(x: nat, n: nat): nat
  {
    PowPositive(2, n);
    x / Pow(2, n)
  }

  lemma {:induction false} PowPositive(b: nat, n: nat)
    requires b >= 1
    ensures Pow(b, n) >= 1
  {
    if n > 0 {
      PowPositive(b, n - 1);
    }
  }

  lemma {:induction false} PowAdd(b: nat, m: nat, n: nat)
    ensures Pow(b, m + n) == Pow(b, m) * Pow(b, n)
  {
    if m > 0 {
      PowAdd(b, m - 1, n);
      assert Pow(b, m + n) == b * Pow(b, m - 1 + n);
    }
  }

  lemma {:induction false} PowMul(b: nat, m: nat, n: nat)
    ensures Pow(b, m * n) == Pow(Pow(b, m), n)
  {
    if n > 0 {
      PowMul(b, m, n - 1);
      PowAdd(b, m, m * (n - 1));
      assert m * n == m + m * (n - 1);
    }
  }

  lemma PowMulCommuted(b: nat, m: nat, n: nat)
    ensures n * m >= 0 && Pow(b, n * m) == Pow(Pow(b, m), n)
  {
    MulNat(n, m);
    assert n * m == m * n;
    PowMul(b, m, n);
  }

  lemma {:induction false} PowProduct(a: nat, b: nat, n: nat)
    ensures Pow(a * b, n) == Pow(a, n) * Pow(b, n)
  {
    if n > 0 {
      PowProduct(a, b, n - 1);
      calc {
        Pow(a * b, n);
        a * b * Pow(a * b, n - 1);
        a * b * (Pow(a, n - 1) * Pow(b, n - 1));
        (a * Pow(a, n - 1)) * (b * Pow(b, n - 1));
      }
    }
  }

  lemma {:induction false} PowSquare(b: nat, n: nat)
    ensures Pow(b * b, n) == Pow(b, 2 * n)
  {
    if n > 0 {
      PowSquare(b, n - 1);
      PowAdd(b, 2, 2 * (n - 1));
    }
  }

  lemma {:induction false} SqPowIsPow(b: nat, n: nat)
    ensures SqPow(b, n) == Pow(b, n)
    decreases n
  {
    if n > 0 {
      SqPowIsPow(b * b, n / 2);
      PowSquare(b, n / 2);
    }
  }

  /** The powers of two at the word boundaries. */
  lemma WordPowersOfTwo()
    ensures Pow(2, 32) == TWO32 && Pow(2, 64) == TWO64
    ensures Pow(2, 63) == 0x8000_0000_0000_0000 && Pow(2, 61) == 0x2000_0000_0000_0000
  {
    SqPowIsPow(2, 32);
    SqPowIsPow(2, 64);
    SqPowIsPow(2, 63);
    SqPowIsPow(2, 61);
  }

  lemma PowMonotone(b: nat, m: nat, n: nat)
    requires b >= 1 && m <= n
    ensures Pow(b, m) <= Pow(b, n)
  {
    PowAdd(b, m, n - m);
    PowPositive(b, n - m);
    MulAtLeast(Pow(b, m), Pow(b, n - m));
  }

  lemma PowStrictMonotone(b: nat, m: nat, n: nat)
    requires b >= 2 && m < n
    ensures Pow(b, m) < Pow(b, n)
  {
    PowAdd(b, m, n - m);
    PowPositive(b, m);
    PowMonotone(b, 1, n - m);
    MulStrict(Pow(b, m), Pow(b, n - m));
  }

  lemma MulNat(x: nat, y: nat)
    ensures x * y >= 0
  {
  }

  /** Quotient and remainder of naturals are naturals. */
  lemma DivNat(x: nat, d: nat)
    requires d > 0
    ensures x / d >= 0 && 0 <= x % d < d
  {
  }

  lemma MulAtLeast(x: nat, k: nat)
    requires k >= 1
    ensures x * k >= x
  {
  }

  lemma MulStrict(x: nat, k: nat)
    requires x >= 1 && k >= 2
    ensures x * k > x
  {
  }

  /** Powers of one base larger than 1 are ordered as their exponents. */
  lemma PowLessImpliesExpLess(b: nat, m: nat, n: nat)
    requires b >= 2 && Pow(b, m) < Pow(b, n)
    ensures m < n
  {
    if n <= m {
      PowMonotone(b, n, m);
    }
  }

  lemma {:induction false} PowBaseStrict(x: nat, y: nat, n: nat)
    requires x < y && n >= 1
    ensures Pow(x, n) < Pow(y, n)
  {
    if n > 1 {
      PowBaseStrict(x, y, n - 1);
      MulLe(x, Pow(x, n - 1), x, Pow(y, n - 1));
      MulStrictLeft(x, y, Pow(y, n - 1));
    }
  }

  lemma MulLe(a: nat, b: nat, c: nat, d: nat)
    requires a <= c && b <= d
    ensures a * b <= c * d
  {
    assert a * b <= a * d;
    assert a * d <= c * d;
  }

  lemma MulStrictLeft(a: nat, b: nat, c: nat)
    requires a < b && c > 0
    ensures a * c < b * c
  {
    assert b * c == a * c + (b - a) * c;
  }

  /** Taking an n-th root keeps a strict order. */
  lemma PowRootStrict(x: nat, y: nat, n: nat)
    requires n >= 1 && Pow(x, n) < Pow(y, n)
    ensures x < y
  {
    if y <= x {
      if y < x {
        PowBaseStrict(y, x, n);
      }
    }
  }

  /** Division by d has a unique quotient and remainder. */
  lemma DivModUnique(x: int, d: int, q: int, r: int)
    requires d > 0 && 0 <= r < d && x == q * d + r
    ensures x / d == q && x % d == r
  {
    var q0, r0 := x / d, x % d;
    var k := q0 - q;
    assert k * d == r - r0 by {
      assert q0 * d + r0 == q * d + r;
    }
    if k >= 1 {
      MulAtLeast(d, k);
    }
  }

  lemma DivDiv(x: nat, a: nat, b: nat)
    requires a > 0 && b > 0
    ensures x / (a * b) == (x / a) / b
    ensures x % (a * b) == x % a + a * ((x / a) % b)
  {
    var q1, r1 := x / a, x % a;
    var q2, r2 := q1 / b, q1 % b;
    assert x == q2 * (a * b) + (r1 + a * r2) by {
      assert x == q1 * a + r1;
      assert q1 == q2 * b + r2;
      assert q1 * a == q2 * (a * b) + a * r2;
    }
    assert r1 + a * r2 < a * b by {
      assert a * r2 <= a * (b - 1);
    }
    DivModUnique(x, a * b, q2, r1 + a * r2);
  }

  lemma ModOfMod(x: nat, a: nat, b: nat)
    requires a > 0 && b > 0
    ensures (x % (a * b)) % a == x % a
  {
    DivDiv(x, a, b);
    DivModUnique(x % (a * b), a, (x / a) % b, x % a);
  }

  lemma MulDivCancel(x: nat, a: nat, d: nat)
    requires d > 0
    ensures (x * d + a) / d == x + a / d
    ensures (x * d + a) % d == a % d
  {
    DivModUnique(x * d + a, d, x + a / d, a % d);
  }

  lemma MulModCancel(x: nat, m: nat, d: nat)
    requires d > 0 && m > 0
    ensures (x * m) % (d * m) == (x % d) * m
    ensures (x * m) / (d * m) == x / d
  {
    assert x * m == (x / d) * (d * m) + (x % d) * m by {
      assert x == (x / d) * d + x % d;
    }
    assert (x % d) * m < d * m;
    DivModUnique(x * m, d * m, x / d, (x % d) * m);
  }

  /** Reducing a factor modulo m does not change a product modulo m. */
  lemma MulMod(x: nat, b: nat, m: nat)
    requires m > 0
    ensures ((x % m) * b) % m == (x * b) % m
  {
    var q, s := x / m, x % m;
    assert x * b == (q * b) * m + s * b by {
      assert x == q * m + s;
    }
    MulDivCancel(q * b, s * b, m);
  }

  lemma DivIsMonotone(x: nat, y: nat, d: nat)
    requires d > 0 && x <= y
    ensures x / d <= y / d
  {
    var k := x / d - y / d;
    if k >= 1 {
      MulAtLeast(d, k);
    }
  }

  lemma DivLowerBound(x: nat, d: nat, lo: nat)
    requires d > 0 && lo * d <= x
    ensures lo <= x / d
  {
    MulDivCancel(lo, 0, d);
    DivIsMonotone(lo * d, x, d);
  }

  lemma DivUpperBound(x: nat, d: nat, hi: nat)
    requires d > 0 && x < hi * d
    ensures x / d < hi
  {
    var k := x / d - hi;
    if k >= 0 {
      MulAtLeast(d, k + 1);
    }
  }

  /** d is a positive divisor of x. */
  predicate Divides(d: nat, x: nat)
  {
    d > 0 && x % d == 0
  }

  /** x | b for a mask b holding a single bit: adds b when that bit of x is clear. */
  function SetBit(x: nat, b: nat): nat
    requires b > 0
  {
    if (x / b) % 2 == 0 then x + b else x
  }

  /** Bitwise exclusive or of two naturals. */
  function Xor(a: nat, b: nat): nat
  {
    if a == 0 && b == 0 then 0
    else (if a % 2 == b % 2 then 0 else 1) + 2 * Xor(a / 2, b / 2)
  }

  /** Xor-ing away the bits of t above position k leaves the low k bits. */
  lemma XorClearsHighBits(t: nat, k: nat)
    ensures Pow(2, k) > 0 && Xor(t, (t / Pow(2, k)) * Pow(2, k)) == t % Pow(2, k)
  {
    PowPositive(2, k);
    XorClearsHighBitsOf(t, k, Pow(2, k), (t / Pow(2, k)) * Pow(2, k));
  }

  lemma {:induction false} XorClearsHighBitsOf(t: nat, k: nat, p: nat, hi: nat)
    requires p == Pow(2, k) && p > 0 && hi == (t / p) * p
    ensures Xor(t, hi) == t % p
  {
    if k == 0 {
      assert hi == t;
      XorSelf(t);
    } else {
      var h := Pow(2, k - 1);
      PowPositive(2, k - 1);
      var c := ((t / 2) / h) * h;
      XorClearsHighBitsOf(t / 2, k - 1, h, c);
      HalveHighBits(t, h, p, c, hi);
      XorCombine(t, h, p, c, hi);
    }
  }

  lemma HalveHighBits(t: nat, h: nat, p: nat, c: nat, hi: nat)
    requires h > 0 && p == 2 * h
    requires c == ((t / 2) / h) * h && hi == (t / p) * p
    ensures hi == 2 * c
    ensures t % p == t % 2 + 2 * ((t / 2) % h)
  {
    DivDiv(t, 2, h);
  }

  lemma XorCombine(t: nat, h: nat, p: nat, c: nat, hi: nat)
    requires h > 0 && p > 0 && hi == 2 * c
    requires t % p == t % 2 + 2 * ((t / 2) % h)
    requires Xor(t / 2, c) == (t / 2) % h
    ensures Xor(t, hi) == t % p
  {
    XorStep(t, c);
  }

  lemma XorStep(a: nat, c: nat)
    ensures Xor(a, 2 * c) == a % 2 + 2 * Xor(a / 2, c)
  {
    if a == 0 && c == 0 {
      XorSelf(0);
    }
  }

  lemma {:induction false} XorSelf(t: nat)
    ensures Xor(t, t) == 0
  {
    if t != 0 {
      XorSelf(t / 2);
    }
  }
}
