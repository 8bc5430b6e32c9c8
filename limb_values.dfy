/**
 * Limb sequences of the fixed-size big integer of bigint.h: the value of a
 * little-endian sequence of 64-bit limbs, the bit length of a natural
 * (log2p1), the bitwise or of two naturals, and the per-limb facts that the
 * shifting and carry-propagating loops rely on.
 */
module LimbValues {
  import opened Arith
  import opened WideMul

  /** The value of little-endian limbs: s[0] + s[1]*2^64 + s[2]*2^128 + ... */
  function Val(s: seq<U64>): nat
  {
    if |s| == 0 then 0
    else
      MulNat(s[|s| - 1], Pow(TWO64, |s| - 1));
      Val(s[..|s| - 1]) + s[|s| - 1] * Pow(TWO64, |s| - 1)
  }

  /** Every limb from index m on is zero. */
  ghost predicate ZeroFrom(s: seq<U64>, m: int)
  {
    forall j :: 0 <= m <= j < |s| ==> s[j] == 0
  }

  /** Writing a limb below k of limbs zero from m <= k keeps them zero from k. */
  lemma ZeroFromUpdate(s: seq<U64>, i: nat, v: U64, m: nat, k: nat)
    requires i < |s| && ZeroFrom(s, m) && m <= k && i < k
    ensures ZeroFrom(s[i := v], k)
  {
  }

  lemma ValPrefix(s: seq<U64>, i: nat)
    requires i < |s|
    ensures Val(s[..i + 1]) == Val(s[..i]) + s[i] * Pow(TWO64, i)
  {
    assert s[..i + 1][..i] == s[..i];
  }

  /** n limbs hold less than 2^(64n). */
  lemma {:induction false} ValBound(s: seq<U64>)
    ensures Val(s) < Pow(TWO64, |s|)
  {
    if |s| > 0 {
      var n := |s| - 1;
      ValBound(s[..n]);
      MulLe(s[n], Pow(TWO64, n), TWO64 - 1, Pow(TWO64, n));
      assert Pow(TWO64, n + 1) == TWO64 * Pow(TWO64, n);
    }
  }

  /** The value of a concatenation: the upper part is weighted by 2^(64|a|). */
  lemma {:induction false} ValConcat(a: seq<U64>, b: seq<U64>)
    ensures Val(a + b) == Val(a) + Val(b) * Pow(TWO64, |a|)
  {
    if |b| == 0 {
      assert a + b == a;
    } else {
      var n := |b| - 1;
      ValConcat(a, b[..n]);
      assert (a + b)[..|a + b| - 1] == a + b[..n];
      assert (a + b)[|a + b| - 1] == b[n];
      PowAdd(TWO64, |a|, n);
      ConcatArith(Val(a), Val(b[..n]), b[n], Pow(TWO64, |a|), Pow(TWO64, n));
    }
  }

  lemma ConcatArith(va: nat, vb: nat, top: nat, pa: nat, pn: nat)
    ensures va + vb * pa + top * (pa * pn) == va + (vb + top * pn) * pa
  {
    assert top * (pa * pn) == (top * pn) * pa;
  }

  /** Limb i splits the value into the limbs below, itself, and the limbs above. */
  lemma ValSplit(s: seq<U64>, i: nat)
    requires i < |s|
    ensures Val(s) == Val(s[..i]) + s[i] * Pow(TWO64, i) + Val(s[i + 1..]) * Pow(TWO64, i + 1)
  {
    assert s == s[..i + 1] + s[i + 1..];
    ValConcat(s[..i + 1], s[i + 1..]);
    ValPrefix(s, i);
  }

  /** Overwriting limb i with v changes the value by (v - s[i]) * 2^(64i). */
  lemma ValUpdate(s: seq<U64>, i: nat, v: U64)
    requires i < |s|
    ensures Val(s[i := v]) + s[i] * Pow(TWO64, i) == Val(s) + v * Pow(TWO64, i)
  {
    var t := s[i := v];
    ValSplit(s, i);
    ValSplit(t, i);
    assert t[..i] == s[..i] && t[i + 1..] == s[i + 1..];
  }

  /** Zero limbs at the top do not contribute. */
  lemma {:induction false} ValZeroFrom(s: seq<U64>, m: nat)
    requires m <= |s| && ZeroFrom(s, m)
    ensures Val(s) == Val(s[..m])
    decreases |s|
  {
    if |s| > m {
      var n := |s| - 1;
      assert s[..n][..m] == s[..m];
      assert s[n] == 0;
      ValZeroFrom(s[..n], m);
    } else {
      assert s[..m] == s;
    }
  }

  /** With zeros above index p, limb p fixes the value to within 2^(64p). */
  lemma ValTop(s: seq<U64>, p: nat)
    requires p < |s| && ZeroFrom(s, p + 1)
    ensures Val(s) == Val(s[..p]) + s[p] * Pow(TWO64, p)
    ensures s[p] * Pow(TWO64, p) <= Val(s) < (s[p] + 1) * Pow(TWO64, p)
    ensures Val(s) < Pow(TWO64, p + 1)
  {
    var a := Pow(TWO64, p);
    assert Val(s) == Val(s[..p]) + s[p] * a by {
      ValZeroFrom(s, p + 1);
      ValPrefix(s, p);
    }
    assert Val(s[..p]) < a by {
      ValBound(s[..p]);
    }
    TopArith(Val(s), Val(s[..p]), s[p], a);
  }

  lemma TopArith(v: nat, low: nat, t: nat, a: nat)
    requires v == low + t * a && low < a && t < TWO64
    ensures t * a <= v < (t + 1) * a && v < TWO64 * a
  {
    MulLe(t + 1, a, TWO64, a);
  }

  /** With zeros from m on, the value is below 2^(64m). */
  lemma ValBelow(s: seq<U64>, m: nat)
    requires m <= |s| && ZeroFrom(s, m)
    ensures Val(s) < Pow(TWO64, m)
  {
    ValZeroFrom(s, m);
    ValBound(s[..m]);
  }

  /** A value of at least 2^(64m) has a nonzero limb at index m or above. */
  lemma ValAtLeast(s: seq<U64>, m: nat)
    requires m <= |s| && Pow(TWO64, m) <= Val(s)
    ensures m < |s| && !ZeroFrom(s, m)
  {
    ValBound(s);
    PowLessImpliesExpLess(TWO64, m, |s|);
    if ZeroFrom(s, m) {
      ValBelow(s, m);
    }
  }

  /** A value below 2^(64m) has only zero limbs from index m on. */
  lemma ValBelowZero(s: seq<U64>, m: nat)
    requires m <= |s| && Val(s) < Pow(TWO64, m)
    ensures ZeroFrom(s, m)
  {
    forall j | m <= j < |s|
      ensures s[j] == 0
    {
      LimbAtMost(s, j);
      PowMonotone(TWO64, m, j);
      if s[j] != 0 {
        MulLe(1, Pow(TWO64, j), s[j], Pow(TWO64, j));
      }
    }
  }

  /** One limb, weighted by its position, never exceeds the whole value. */
  lemma LimbAtMost(s: seq<U64>, i: nat)
    requires i < |s|
    ensures s[i] * Pow(TWO64, i) <= Val(s)
  {
    ValSplit(s, i);
    MulNat(Val(s[i + 1..]), Pow(TWO64, i + 1));
  }

  function Zeros(n: nat): (z: seq<U64>)
    ensures |z| == n && ZeroFrom(z, 0)
  {
    seq(n, _ => 0)
  }

  lemma {:induction false} ValZeros(n: nat)
    ensures Val(Zeros(n)) == 0
  {
    ValZeroFrom(Zeros(n), 0);
  }

  /** Prepending k zero limbs multiplies the value by 2^(64k). */
  lemma ValShiftUp(t: seq<U64>, k: nat)
    ensures Val(Zeros(k) + t) == Val(t) * Pow(TWO64, k)
  {
    ValConcat(Zeros(k), t);
    ValZeros(k);
  }

  /**
   * Two limb sequences equal above index i and smaller at i compare as
   * their values.
   */
  lemma ValLess(s: seq<U64>, t: seq<U64>, i: nat)
    requires |s| == |t| && i < |s|
    requires forall j :: i < j < |s| ==> s[j] == t[j]
    requires s[i] < t[i]
    ensures Val(s) < Val(t)
  {
    ValSplit(s, i);
    ValSplit(t, i);
    assert s[i + 1..] == t[i + 1..];
    ValBound(s[..i]);
    LessArith(Val(s[..i]), Val(t[..i]), s[i], t[i], Val(s[i + 1..]) * Pow(TWO64, i + 1), Pow(TWO64, i));
  }

  lemma LessArith(vs: nat, vt: nat, si: nat, ti: nat, u: int, a: nat)
    requires vs < a && si < ti
    ensures vs + si * a + u < vt + ti * a + u
  {
    MulLe(si + 1, a, ti, a);
  }

  /** Two sequences that agree from index h on have one suffix from h. */
  lemma SuffixEqual(o: seq<U64>, x: seq<U64>, h: nat)
    requires h <= |o| == |x| && forall j :: h <= j < |o| ==> o[j] == x[j]
    ensures o[h..] == x[h..]
  {
    assert forall j :: 0 <= j < |o| - h ==> o[h..][j] == o[h + j] == x[h + j] == x[h..][j];
  }

  /** Two limb sequences equal above index 0 differ in value as their limb 0. */
  lemma ValAboveZero(s: seq<U64>, t: seq<U64>)
    requires |s| == |t| >= 1
    requires forall j :: 0 < j < |s| ==> s[j] == t[j]
    ensures Val(s) - s[0] == Val(t) - t[0]
  {
    ValSplit(s, 0);
    ValSplit(t, 0);
    SuffixEqual(s, t, 1);
  }

  // ---------------------------------------------------------------------
  // Bit length (log2p1)

  /** The number of binary digits of x; 0 for 0. */
  function BitLength(x: nat): nat
  {
    if x == 0 then 0 else 1 + BitLength(x / 2)
  }

  /** A positive x lies in [2^(n-1), 2^n) for n its bit length. */
  lemma {:induction false} BitLengthBounds(x: nat)
    ensures x == 0 <==> BitLength(x) == 0
    ensures x > 0 ==> Pow(2, BitLength(x) - 1) <= x < Pow(2, BitLength(x))
  {
    if x > 0 {
      BitLengthBounds(x / 2);
    }
  }

  /** The bit length is the only n with 2^(n-1) <= x < 2^n. */
  lemma {:induction false} BitLengthUnique(x: nat, n: nat)
    requires n >= 1 && Pow(2, n - 1) <= x < Pow(2, n)
    ensures BitLength(x) == n
  {
    if n > 1 {
      assert Pow(2, n - 1) == 2 * Pow(2, n - 2);
      BitLengthUnique(x / 2, n - 1);
    }
  }

  lemma BitLengthAtMost(x: nat, n: nat)
    requires x < Pow(2, n)
    ensures BitLength(x) <= n
  {
    BitLengthBounds(x);
    if x > 0 {
      PowLessImpliesExpLess(2, BitLength(x) - 1, n);
    }
  }

  lemma BitLengthAtLeast(x: nat, n: nat)
    requires Pow(2, n) <= x
    ensures BitLength(x) > n
  {
    BitLengthBounds(x);
    PowPositive(2, n);
    PowLessImpliesExpLess(2, n, BitLength(x));
  }

  /** A limb has at most 64 binary digits. */
  lemma BitLengthOfLimb(x: U64)
    ensures BitLength(x) <= 64
  {
    WordPowersOfTwo();
    BitLengthAtMost(x, 64);
  }

  lemma BitLengthMonotone(a: nat, b: nat)
    requires a <= b
    ensures BitLength(a) <= BitLength(b)
  {
    BitLengthBounds(a);
    if a > 0 {
      BitLengthAtLeast(b, BitLength(a) - 1);
    }
  }

  /** x < 2^n exactly when x has at most n binary digits. */
  lemma BitLengthBelow(x: nat, n: nat)
    ensures x < Pow(2, n) <==> BitLength(x) <= n
  {
    if x < Pow(2, n) {
      BitLengthAtMost(x, n);
    } else {
      BitLengthAtLeast(x, n);
    }
  }

  /** Multiplying by 2^k adds k binary digits. */
  lemma BitLengthScale(x: nat, k: nat)
    requires x > 0
    ensures BitLength(x * Pow(2, k)) == BitLength(x) + k
  {
    var n := BitLength(x);
    BitLengthBounds(x);
    PowAdd(2, n - 1, k);
    PowAdd(2, n, k);
    MulLe(Pow(2, n - 1), Pow(2, k), x, Pow(2, k));
    PowPositive(2, k);
    MulStrictLeft(x, Pow(2, n), Pow(2, k));
    BitLengthUnique(x * Pow(2, k), n + k);
  }

  /** Dividing by 2^k removes k binary digits, down to none. */
  lemma BitLengthShr(x: nat, k: nat)
    ensures BitLength(Shr(x, k)) == if BitLength(x) >= k then BitLength(x) - k else 0
  {
    assert Pow(2, k) >= 1 by {
      PowPositive(2, k);
    }
    if x < Pow(2, k) {
      assert BitLength(x) <= k by {
        BitLengthAtMost(x, k);
      }
      assert Shr(x, k) == 0;
    } else {
      var n := BitLength(x);
      assert n > k && Pow(2, n - 1) <= x < Pow(2, n) by {
        BitLengthAtLeast(x, k);
        BitLengthBounds(x);
      }
      ShrBounds(x, n, k);
      BitLengthUnique(Shr(x, k), n - k);
    }
  }

  lemma ShrBounds(x: nat, n: nat, k: nat)
    requires n >= k + 1 && Pow(2, n - 1) <= x < Pow(2, n)
    ensures Pow(2, n - 1 - k) <= Shr(x, k) < Pow(2, n - k)
  {
    PowPositive(2, k);
    PowAdd(2, n - 1 - k, k);
    PowAdd(2, n - k, k);
    DivLowerBound(x, Pow(2, k), Pow(2, n - 1 - k));
    DivUpperBound(x, Pow(2, k), Pow(2, n - k));
  }

  lemma BitLengthOfPow(k: nat)
    ensures BitLength(Pow(2, k)) == k + 1
  {
    BitLengthUnique(Pow(2, k), k + 1);
  }

  /** 2^(64p) written as a power of the limb modulus. */
  lemma LimbPow(p: nat)
    ensures Pow(TWO64, p) == Pow(2, 64 * p)
  {
    PowMul(2, 64, p);
    WordPowersOfTwo();
  }

  /**
   * With zeros above index p and a nonzero limb p (or p = 0), the bit length
   * of the value is 64p plus the bit length of limb p.
   */
  lemma ValBitLength(s: seq<U64>, p: nat)
    requires p < |s| && ZeroFrom(s, p + 1) && (p > 0 ==> s[p] != 0)
    ensures BitLength(Val(s)) == 64 * p + BitLength(s[p])
  {
    ValTop(s, p);
    ValBound(s[..p]);
    if s[p] == 0 {
      assert Val(s[..0]) == 0;
    } else {
      LimbPow(p);
      ScaledBitLength(Val(s), Val(s[..p]), s[p], p);
    }
  }

  /** low + t * 2^(64p) with low below 2^(64p) has 64p more digits than t. */
  lemma ScaledBitLength(v: nat, low: nat, t: nat, p: nat)
    requires t > 0 && low < Pow(2, 64 * p) && v == low + t * Pow(2, 64 * p)
    ensures BitLength(v) == 64 * p + BitLength(t)
  {
    var b, a := BitLength(t), Pow(2, 64 * p);
    assert b >= 1 && Pow(2, b - 1) <= t < Pow(2, b) by {
      BitLengthBounds(t);
    }
    var lo, hi := Pow(2, b - 1), Pow(2, b);
    assert lo * a <= v < hi * a by {
      Sandwich(v, low, t, a, lo, hi);
    }
    assert Pow(2, b - 1 + 64 * p) == lo * a by {
      PowAdd(2, b - 1, 64 * p);
    }
    assert Pow(2, b + 64 * p) == hi * a by {
      PowAdd(2, b, 64 * p);
    }
    BitLengthUnique(v, 64 * p + b);
  }

  lemma Sandwich(v: nat, low: nat, t: nat, a: nat, lo: nat, hi: nat)
    requires lo <= t < hi && low < a && v == low + t * a
    ensures lo * a <= v < hi * a
  {
    MulLe(lo, a, t, a);
    assert (t + 1) * a == t * a + a;
    MulLe(t + 1, a, hi, a);
  }

  /**
   * With zeros above index p and a value of at least 2^(64p) (or p = 0),
   * limb p is the leading limb and its bit length is what remains of the
   * value's bit length after 64p.
   */
  lemma TopLimb(s: seq<U64>, p: nat)
    requires p < |s| && ZeroFrom(s, p + 1) && (p > 0 ==> Pow(TWO64, p) <= Val(s))
    ensures p > 0 ==> s[p] != 0
    ensures BitLength(s[p]) == BitLength(Val(s)) - 64 * p
  {
    if p > 0 {
      ValAtLeast(s, p);
    }
    ValBitLength(s, p);
  }

  /** Zeros everywhere but index p: the value is s[p] * 2^(64p). */
  lemma ValSingle(s: seq<U64>, p: nat)
    requires p < |s| && ZeroFrom(s, p + 1)
    requires forall j :: 0 <= j < p ==> s[j] == 0
    ensures Val(s) == s[p] * Pow(TWO64, p)
  {
    ValTop(s, p);
    assert ZeroFrom(s[..p], 0);
    ValZeroFrom(s[..p], 0);
  }

  // ---------------------------------------------------------------------
  // Bitwise or, left and right shifts of one limb

  /** Bitwise inclusive or of two naturals. */
  function BitOr(a: nat, b: nat): nat
  {
    if a == 0 then b
    else if b == 0 then a
    else 2 * BitOr(a / 2, b / 2) + (if a % 2 == 1 || b % 2 == 1 then 1 else 0)
  }

  /** The or of a multiple of 2^k and a number below 2^k is their sum. */
  lemma {:induction false} BitOrDisjoint(a: nat, b: nat, k: nat)
    requires Divides(Pow(2, k), a) && b < Pow(2, k)
    ensures BitOr(a, b) == a + b && BitOr(b, a) == a + b
  {
    if k > 0 && a != 0 && b != 0 {
      var m := a / Pow(2, k);
      assert a == m * Pow(2, k);
      assert a == 2 * (m * Pow(2, k - 1));
      MulDivCancel(m, 0, Pow(2, k - 1));
      BitOrDisjoint(a / 2, b / 2, k - 1);
    }
  }

  /** x << k on a 64-bit limb. */
  function Shl(x: U64, k: nat): U64
  {
    MulNat(x, Pow(2, k));
    (x * Pow(2, k)) % TWO64
  }

  /** x >> k on a 64-bit limb. */
  function ShrLimb(x: U64, k: nat): (r: U64)
    ensures r == Shr(x, k)
  {
    PowPositive(2, k);
    DivIsMonotone(x, x * 1, Pow(2, k));
    DivUpperBound(x, Pow(2, k), x + 1);
    x / Pow(2, k)
  }

  /** 2^k * 2^(64-k) is the limb modulus. */
  lemma WordSplit(k: nat)
    requires k <= 64
    ensures Pow(2, k) * Pow(2, 64 - k) == TWO64
    ensures Pow(2, k) >= 1 && Pow(2, 64 - k) >= 1
  {
    PowAdd(2, k, 64 - k);
    WordPowersOfTwo();
    PowPositive(2, k);
    PowPositive(2, 64 - k);
  }

  /** x << k and x >> (64 - k) are the low and high limbs of x * 2^k. */
  lemma ShlSplit(x: U64, k: nat)
    requires 0 < k < 64
    ensures x * Pow(2, k) == Shl(x, k) + ShrLimb(x, 64 - k) * TWO64
    ensures Divides(Pow(2, k), Shl(x, k)) && ShrLimb(x, 64 - k) < Pow(2, k)
    ensures Shl(x, k) <= TWO64 - Pow(2, k)
  {
    WordSplit(k);
    SplitAt(x, Pow(2, k), Pow(2, 64 - k));
  }

  lemma SplitAt(x: nat, p: nat, q: nat)
    requires p >= 1 && q >= 1 && p * q == TWO64 && x < TWO64
    ensures x * p == (x / q) * TWO64 + (x % q) * p
    ensures (x * p) % TWO64 == (x % q) * p && x / q < p
    ensures ((x % q) * p) % p == 0 && (x % q) * p <= TWO64 - p
  {
    var h, l := x / q, x % q;
    assert x * p == h * TWO64 + l * p by {
      assert x == h * q + l;
      assert (h * q + l) * p == h * (q * p) + l * p;
    }
    MulStrictLeft(l, q, p);
    DivModUnique(x * p, TWO64, h, l * p);
    DivUpperBound(x, q, p);
    MulDivCancel(l, 0, p);
    MulLe(l, p, q - 1, p);
  }

  /** (x << k) | (y >> (64 - k)): the two parts do not overlap. */
  lemma LeftJoin(x: U64, y: U64, k: nat)
    requires 0 < k < 64
    ensures BitOr(Shl(x, k), ShrLimb(y, 64 - k)) == Shl(x, k) + ShrLimb(y, 64 - k) < TWO64
  {
    ShlSplit(x, k);
    ShlSplit(y, k);
    BitOrDisjoint(Shl(x, k), ShrLimb(y, 64 - k), k);
  }

  /** (x >> k) | (y << (64 - k)): the low k bits of y land on top of x >> k. */
  lemma RightJoin(x: U64, y: U64, k: nat)
    requires 0 < k < 64
    ensures Pow(2, k) >= 1
    ensures Shl(y, 64 - k) == (y % Pow(2, k)) * Pow(2, 64 - k)
    ensures BitOr(ShrLimb(x, k), Shl(y, 64 - k)) == ShrLimb(x, k) + Shl(y, 64 - k) < TWO64
  {
    WordSplit(k);
    JoinAt(x, y, Pow(2, k), Pow(2, 64 - k));
    BitOrDisjoint(Shl(y, 64 - k), ShrLimb(x, k), 64 - k);
  }

  lemma JoinAt(x: nat, y: nat, p: nat, q: nat)
    requires p >= 1 && q >= 1 && p * q == TWO64 && x < TWO64
    ensures (y * q) % TWO64 == (y % p) * q && ((y % p) * q) % q == 0
    ensures x / p < q && x / p + (y % p) * q < TWO64
  {
    assert q * p == TWO64;
    MulModCancel(y, q, p);
    DivUpperBound(x, p, q);
    MulDivCancel(y % p, 0, q);
    MulLe(y % p, q, p - 1, q);
  }

  // ---------------------------------------------------------------------
  // Multi-limb shifts

  /** Limb i of s shifted left by k bits: (s[i] << k) | (s[i-1] >> (64 - k)). */
  function LeftLimb(s: seq<U64>, i: nat, k: nat): U64
    requires i < |s| && 0 < k < 64
  {
    if i == 0 then Shl(s[0], k)
    else
      LeftJoin(s[i], s[i - 1], k);
      BitOr(Shl(s[i], k), ShrLimb(s[i - 1], 64 - k))
  }

  /**
   * Shifting the limbs below n left by k bits multiplies their value by 2^k,
   * except for the bits pushed out of limb n-1.
   */
  lemma {:induction false} ShiftLeftValue(o: seq<U64>, e: seq<U64>, k: nat, n: nat)
    requires 0 < k < 64 && 1 <= n <= |o| && n <= |e|
    requires forall j :: 0 <= j < n ==> e[j] == LeftLimb(o, j, k)
    ensures Val(e[..n]) + ShrLimb(o[n - 1], 64 - k) * Pow(TWO64, n) == Val(o[..n]) * Pow(2, k)
  {
    var l1, h1 := Shl(o[n - 1], k), ShrLimb(o[n - 1], 64 - k);
    var h0 := if n == 1 then 0 else ShrLimb(o[n - 2], 64 - k);
    var a := Pow(TWO64, n - 1);
    assert o[n - 1] * Pow(2, k) == l1 + h1 * TWO64 by {
      ShlSplit(o[n - 1], k);
    }
    assert Val(e[..n - 1]) + h0 * a == Val(o[..n - 1]) * Pow(2, k) && e[n - 1] == l1 + h0 by {
      if n == 1 {
        assert Val(e[..0]) == 0 && Val(o[..0]) == 0;
      } else {
        ShiftLeftValue(o, e, k, n - 1);
        LeftJoin(o[n - 1], o[n - 2], k);
      }
    }
    assert Val(e[..n]) == Val(e[..n - 1]) + e[n - 1] * a by {
      ValPrefix(e, n - 1);
    }
    assert Val(o[..n]) == Val(o[..n - 1]) + o[n - 1] * a by {
      ValPrefix(o, n - 1);
    }
    ShiftLeftStep(Val(e[..n - 1]), Val(o[..n - 1]), h0, l1, h1,
      o[n - 1], a, Pow(2, k), e[n - 1], Val(e[..n]), Val(o[..n]), Pow(TWO64, n));
  }

  lemma ShiftLeftStep(ve: nat, vo: nat, h0: nat, l1: nat, h1: nat, o1: nat, a: nat, p: nat,
                      e1: nat, ve1: nat, vo1: nat, a1: nat)
    requires ve + h0 * a == vo * p && o1 * p == l1 + h1 * TWO64
    requires e1 == l1 + h0 && ve1 == ve + e1 * a && vo1 == vo + o1 * a && a1 == TWO64 * a
    ensures ve1 + h1 * a1 == vo1 * p
  {
    assert (o1 * a) * p == (o1 * p) * a;
    assert (l1 + h1 * TWO64) * a == l1 * a + h1 * (TWO64 * a);
  }

  /** Limb i of s[..top+1] shifted right by k bits: (s[i] >> k) | (s[i+1] << (64 - k)). */
  function RightLimb(s: seq<U64>, i: nat, top: nat, k: nat): U64
    requires i <= top < |s| && 0 < k < 64
  {
    if i == top then ShrLimb(s[top], k)
    else
      RightJoin(s[i], s[i + 1], k);
      BitOr(ShrLimb(s[i], k), Shl(s[i + 1], 64 - k))
  }

  /** Shifting the limbs up to top right by k bits divides their value by 2^k. */
  lemma ShiftRightValue(o: seq<U64>, e: seq<U64>, top: nat, k: nat)
    requires 0 < k < 64 && top < |o| && top < |e|
    requires forall j :: 0 <= j <= top ==> e[j] == RightLimb(o, j, top, k)
    ensures Val(e[..top + 1]) == Shr(Val(o[..top + 1]), k)
  {
    var p := Pow(2, k);
    WordSplit(k);
    ShiftRightPrefix(o, e, top, k, top);
    ValPrefix(e, top);
    ValPrefix(o, top);
    ShiftRightTop(Val(e[..top]), Val(o[..top]), o[0] % p, o[top], Pow(TWO64, top), p);
    DivModUnique(Val(o[..top + 1]), p, Val(e[..top + 1]), o[0] % p);
  }

  lemma ShiftRightTop(ve: nat, vo: nat, r0: nat, t: nat, a: nat, p: nat)
    requires p > 0 && ve * p + r0 == vo + (t % p) * a
    ensures (ve + (t / p) * a) * p + r0 == vo + t * a
  {
    assert t == (t / p) * p + t % p;
    assert ((t / p) * a) * p == ((t / p) * p) * a;
  }

  lemma {:induction false} ShiftRightPrefix(o: seq<U64>, e: seq<U64>, top: nat, k: nat, n: nat)
    requires 0 < k < 64 && top < |o| && top < |e| && n <= top
    requires forall j :: 0 <= j <= top ==> e[j] == RightLimb(o, j, top, k)
    ensures Pow(2, k) >= 1
    ensures Val(e[..n]) * Pow(2, k) + o[0] % Pow(2, k) == Val(o[..n]) + (o[n] % Pow(2, k)) * Pow(TWO64, n)
  {
    WordSplit(k);
    if n == 0 {
      assert Val(e[..0]) == 0 && Val(o[..0]) == 0;
    } else {
      ShiftRightPrefix(o, e, top, k, n - 1);
      ShiftRightPrefixStep(o, e, top, k, n);
    }
  }

  /** ShiftRightPrefix at n from ShiftRightPrefix at n - 1. */
  lemma ShiftRightPrefixStep(o: seq<U64>, e: seq<U64>, top: nat, k: nat, n: nat)
    requires 0 < k < 64 && top < |o| && top < |e| && 0 < n <= top
    requires e[n - 1] == RightLimb(o, n - 1, top, k) && Pow(2, k) >= 1
    requires Val(e[..n - 1]) * Pow(2, k) + o[0] % Pow(2, k) == Val(o[..n - 1]) + (o[n - 1] % Pow(2, k)) * Pow(TWO64, n - 1)
    ensures Val(e[..n]) * Pow(2, k) + o[0] % Pow(2, k) == Val(o[..n]) + (o[n] % Pow(2, k)) * Pow(TWO64, n)
  {
    var p, q := Pow(2, k), Pow(2, 64 - k);
    WordSplit(k);
    ValPrefix(e, n - 1);
    ValPrefix(o, n - 1);
    RightJoin(o[n - 1], o[n], k);
    assert e[n - 1] == o[n - 1] / p + (o[n] % p) * q;
    ShiftRightStep(Val(e[..n - 1]), Val(o[..n - 1]), o[0] % p, o[n - 1], o[n], Pow(TWO64, n - 1), p, q,
      e[n - 1], Val(e[..n]), Val(o[..n]), Pow(TWO64, n));
  }

  lemma ShiftRightStep(ve: nat, vo: nat, r0: nat, x: nat, y: nat, a: nat, p: nat, q: nat,
                       e1: nat, ve1: nat, vo1: nat, a1: nat)
    requires p > 0 && p * q == TWO64
    requires ve * p + r0 == vo + (x % p) * a
    requires e1 == x / p + (y % p) * q && ve1 == ve + e1 * a && vo1 == vo + x * a && a1 == TWO64 * a
    ensures ve1 * p + r0 == vo1 + (y % p) * a1
  {
    assert x == (x / p) * p + x % p;
    assert ((x / p) * a) * p == ((x / p) * p) * a;
    assert (((y % p) * q) * a) * p == (y % p) * (TWO64 * a);
  }

  // ---------------------------------------------------------------------
  // One limb of the carry-propagating loops

  /**
   * The value bookkeeping of one limb of a carry loop: val + c * 2^(64i) is
   * base + acc before limb i is overwritten, and stays so with the carry out
   * and the addend taken into acc.
   */
  lemma CarryStep(val: nat, val2: nat, oldLimb: nat, newLimb: nat, c: nat, c2: nat, addend: int,
                  a: nat, base: int, acc: int, acc2: int)
    requires val2 + oldLimb * a == val + newLimb * a
    requires newLimb + c2 * TWO64 == oldLimb + c + addend
    requires val + c * a == base + acc && acc2 == acc + addend * a
    ensures val2 + c2 * (TWO64 * a) == base + acc2
  {
    assert c2 * (TWO64 * a) == (c2 * TWO64) * a;
    assert (newLimb + c2 * TWO64) * a == (oldLimb + c + addend) * a;
  }

  /** The borrowing counterpart of CarryStep. */
  lemma BorrowStep(val: nat, val2: nat, oldLimb: nat, newLimb: nat, c: nat, c2: nat, sub: int,
                   a: nat, base: int, acc: int, acc2: int)
    requires val2 + oldLimb * a == val + newLimb * a
    requires newLimb - c2 * TWO64 == oldLimb - c - sub
    requires val - c * a == base - acc && acc2 == acc + sub * a
    ensures val2 - c2 * (TWO64 * a) == base - acc2
  {
    assert c2 * (TWO64 * a) == (c2 * TWO64) * a;
    assert (newLimb - c2 * TWO64) * a == (oldLimb - c - sub) * a;
  }

  /**
   * with_carry = a + c; first_carry = with_carry < a; e = with_carry + b;
   * carry = first_carry | (e < b): the limb and the carry out hold a + b + c.
   */
  lemma AddLimbs(a: U64, b: U64, c: nat, w: U64, e: U64, c2: nat)
    requires c <= 1
    requires w == (a + c) % TWO64 && e == (w + b) % TWO64
    requires c2 == if w < a || e < b then 1 else 0
    ensures e + c2 * TWO64 == a + b + c
  {
  }

  /** e = a + c; carry = e < c: adding a carry into one limb. */
  lemma AddCarry(a: U64, c: nat, e: U64, c2: nat)
    requires c <= 1 && e == (a + c) % TWO64
    requires c2 == if e < c then 1 else 0
    ensures e + c2 * TWO64 == a + c
  {
  }

  /**
   * with_carry = b + c; first_carry = with_carry < c;
   * carry = first_carry | (a < with_carry); e = a - with_carry:
   * the limb minus the borrow out is a - b - c.
   */
  lemma SubLimbs(a: U64, b: U64, c: nat, w: U64, e: U64, c2: nat)
    requires c <= 1
    requires w == (b + c) % TWO64 && e == (a - w) % TWO64
    requires c2 == if w < c || a < w then 1 else 0
    ensures e - c2 * TWO64 == a - b - c
  {
  }

  /**
   * mul = umul128(a, n); e = mul.low + c; carry = mul.high + (e < mul.low):
   * the limb and the carry out hold a * n + c, and the carry fits in a limb.
   */
  lemma MulLimb(a: U64, n: U64, c: U64, e: U64, c2: nat)
    requires e == (Umul128(a, n).low + c) % TWO64
    requires c2 == Umul128(a, n).high + (if e < Umul128(a, n).low then 1 else 0)
    ensures e + c2 * TWO64 == a * n + c && c2 < TWO64
  {
    var m := Umul128(a, n);
    MulLe(a, n, TWO64 - 1, TWO64 - 1);
    assert a * n == m.high * TWO64 + m.low;
    assert e + c2 * TWO64 == m.low + c + m.high * TWO64;
  }

  // ---------------------------------------------------------------------
  // Shifting a whole number whose top nonzero limb is p

  /**
   * Shifting limbs 0..p left by k bits, when the top limb has room for k more
   * bits, multiplies the value by 2^k and moves the leading bit up by k.
   */
  lemma ShiftLeftWhole(o: seq<U64>, e: seq<U64>, k: nat, p: nat)
    requires 0 < k < 64 && p < |o| == |e| && ZeroFrom(o, p + 1)
    requires p > 0 ==> o[p] != 0
    requires BitLength(o[p]) + k <= 64
    requires forall j :: 0 <= j <= p ==> e[j] == LeftLimb(o, j, k)
    requires forall j :: p < j < |e| ==> e[j] == o[j]
    ensures ZeroFrom(e, p + 1) && Val(e) == Val(o) * Pow(2, k)
    ensures p > 0 ==> e[p] != 0
    ensures o[p] != 0 ==> BitLength(e[p]) == BitLength(o[p]) + k
  {
    assert ZeroFrom(e, p + 1) by {
      forall j | p + 1 <= j < |e|
        ensures e[j] == 0
      {
        assert e[j] == o[j];
      }
    }
    ShiftLeftNoOverflow(o, e, k, p);
    if o[p] != 0 {
      ScaledTop(o, e, k, p);
    }
  }

  lemma ShiftLeftNoOverflow(o: seq<U64>, e: seq<U64>, k: nat, p: nat)
    requires 0 < k < 64 && p < |o| == |e| && ZeroFrom(o, p + 1) && ZeroFrom(e, p + 1)
    requires BitLength(o[p]) + k <= 64
    requires forall j :: 0 <= j <= p ==> e[j] == LeftLimb(o, j, k)
    ensures Val(e) == Val(o) * Pow(2, k)
  {
    TopShiftedOut(o[p], k);
    ShiftLeftValue(o, e, k, p + 1);
    ValZeroFrom(e, p + 1);
    ValZeroFrom(o, p + 1);
  }

  /** A limb with room for k more bits loses nothing in the shift by 64 - k. */
  lemma TopShiftedOut(x: U64, k: nat)
    requires 0 < k < 64 && BitLength(x) + k <= 64
    ensures ShrLimb(x, 64 - k) == 0
  {
    BitLengthShr(x, 64 - k);
    BitLengthBounds(Shr(x, 64 - k));
  }

  /** The leading limb of a nonzero number scaled by 2^k has k more bits. */
  lemma ScaledTop(o: seq<U64>, e: seq<U64>, k: nat, p: nat)
    requires p < |o| == |e| && ZeroFrom(o, p + 1) && ZeroFrom(e, p + 1)
    requires o[p] != 0 && Val(e) == Val(o) * Pow(2, k)
    ensures p > 0 ==> e[p] != 0
    ensures BitLength(e[p]) == BitLength(o[p]) + k
  {
    var vo, ve := Val(o), Val(e);
    assert Pow(TWO64, p) <= vo by {
      ValTop(o, p);
      MulLe(1, Pow(TWO64, p), o[p], Pow(TWO64, p));
    }
    assert vo <= ve by {
      PowPositive(2, k);
      MulLe(1, vo, Pow(2, k), vo);
    }
    assert BitLength(o[p]) == BitLength(vo) - 64 * p by {
      TopLimb(o, p);
    }
    assert BitLength(e[p]) == BitLength(ve) - 64 * p && (p > 0 ==> e[p] != 0) by {
      TopLimb(e, p);
    }
    assert BitLength(ve) == BitLength(vo) + k by {
      BitLengthScale(vo, k);
    }
  }

  /**
   * Shifting limbs 0..p right by k bits, when the top limb holds at least k
   * bits, divides the value by 2^k and moves the leading bit down by k.
   */
  lemma ShiftRightWhole(o: seq<U64>, e: seq<U64>, k: nat, p: nat)
    requires 0 < k < 64 && p < |o| == |e| && ZeroFrom(o, p + 1)
    requires forall j :: 0 <= j <= p ==> e[j] == RightLimb(o, j, p, k)
    requires forall j :: p < j < |e| ==> e[j] == o[j]
    ensures ZeroFrom(e, p + 1) && Val(e) == Shr(Val(o), k)
    ensures BitLength(e[p]) == if BitLength(o[p]) >= k then BitLength(o[p]) - k else 0
  {
    assert ZeroFrom(e, p + 1) by {
      forall j | p + 1 <= j < |e|
        ensures e[j] == 0
      {
        assert e[j] == o[j];
      }
    }
    ShiftRightValue(o, e, p, k);
    ValZeroFrom(e, p + 1);
    ValZeroFrom(o, p + 1);
    BitLengthShr(o[p], k);
  }

  // ---------------------------------------------------------------------
  // The leading-one bookkeeping of multiply_5

  /** element_type(-1) >> (64 - t) is the mask of the low t bits. */
  lemma LowMask(t: nat)
    requires 1 <= t <= 64
    ensures ShrLimb(TWO64 - 1, 64 - t) == Pow(2, t) - 1
  {
    var p, q := Pow(2, t), Pow(2, 64 - t);
    assert p * q == TWO64 && q >= 1 by {
      WordSplit(t);
    }
    assert (TWO64 - 1) / q == p - 1 by {
      MaskSplit(p, q, TWO64);
      DivModUnique(TWO64 - 1, q, p - 1, q - 1);
    }
  }

  lemma MaskSplit(p: int, q: int, w: int)
    requires p * q == w
    ensures w - 1 == (p - 1) * q + (q - 1)
  {
  }

  /**
   * A leading limb of t or t + 1 bits exceeds the mask of t bits exactly
   * when it has t + 1 bits.
   */
  lemma AboveLowMask(v: U64, t: nat)
    requires 1 <= t <= 64 && (BitLength(v) == t || BitLength(v) == t + 1)
    ensures v > ShrLimb(TWO64 - 1, 64 - t) <==> BitLength(v) == t + 1
  {
    LowMask(t);
    BitLengthBelow(v, t);
  }

  lemma BitLengthRange(y: nat, m: nat)
    requires y > 0 && BitLength(y) == m
    ensures m >= 1 && Pow(2, m - 1) <= y < Pow(2, m)
  {
    BitLengthBounds(y);
  }

  /**
   * The leading-one position of 4x is two bits above that of x, moving to
   * the next limb past bit 64; 5x has as many bits as 4x or one more.
   */
  lemma TimesFiveBits(x: nat, pos: nat, bit: nat, t4Pos: nat, t4Bit: nat)
    requires x > 0 && BitLength(x) == 64 * pos + bit && 1 <= bit <= 64
    requires bit + 2 > 64 ==> t4Pos == pos + 1 && t4Bit == bit + 2 - 64
    requires bit + 2 <= 64 ==> t4Pos == pos && t4Bit == bit + 2
    ensures 1 <= t4Bit <= 64 && BitLength(x * 4) == 64 * t4Pos + t4Bit
    ensures Pow(TWO64, t4Pos) <= x * 5 && x * 4 < Pow(TWO64, t4Pos + 1)
    ensures BitLength(x * 5) == 64 * t4Pos + t4Bit || BitLength(x * 5) == 64 * t4Pos + t4Bit + 1
  {
    var m := 64 * t4Pos + t4Bit;
    ScaledBits(x, m);
    LimbRange(x * 4, m, t4Pos, t4Bit);
    BitsBetween(x * 4, x * 5, x * 8, m);
  }

  lemma ScaledBits(x: nat, m: nat)
    requires x > 0 && BitLength(x) + 2 == m
    ensures x * 4 > 0 && BitLength(x * 4) == m && BitLength(x * 8) == m + 1
  {
    assert Pow(2, 2) == 4 && Pow(2, 3) == 8;
    BitLengthScale(x, 2);
    BitLengthScale(x, 3);
  }

  /** A number of 64p + t bits, 1 <= t <= 64, has its leading one in limb p. */
  lemma LimbRange(y: nat, m: nat, p: nat, t: nat)
    requires y > 0 && BitLength(y) == m && m == 64 * p + t && 1 <= t <= 64
    ensures Pow(TWO64, p) <= y < Pow(TWO64, p + 1)
  {
    BitLengthRange(y, m);
    LimbPow(p);
    LimbPow(p + 1);
    PowMonotone(2, 64 * p, m - 1);
    PowMonotone(2, m, 64 * (p + 1));
  }

  lemma BitsBetween(a: nat, b: nat, c: nat, m: nat)
    requires a <= b <= c && BitLength(a) == m && BitLength(c) == m + 1
    ensures BitLength(b) == m || BitLength(b) == m + 1
  {
    BitLengthMonotone(a, b);
    BitLengthMonotone(b, c);
  }

  // ---------------------------------------------------------------------
  // The doubling count of multiply_2_until

  /** Fewer binary digits means a smaller number. */
  lemma BitLengthLess(a: nat, b: nat)
    requires BitLength(a) < BitLength(b)
    ensures a < b
  {
    if a >= b {
      BitLengthMonotone(b, a);
    }
  }

  /** Scaling by 2^a and then by 2^b is scaling by 2^(a+b). */
  lemma ScaledTwice(x: nat, a: nat, b: nat)
    ensures x * Pow(2, a) * Pow(2, b) == x * Pow(2, a + b)
  {
    PowAdd(2, a, b);
    assert x * Pow(2, a) * Pow(2, b) == x * (Pow(2, a) * Pow(2, b));
  }

  /** Shifting x * 2^a right by d <= a bits loses nothing. */
  lemma ShrOfScaled(x: nat, a: nat, d: nat)
    requires d <= a
    ensures Shr(x * Pow(2, a), d) == x * Pow(2, a - d)
  {
    PowPositive(2, d);
    ScaledTwice(x, a - d, d);
    DivModUnique(x * Pow(2, a), Pow(2, d), x * Pow(2, a - d), 0);
  }

  /**
   * A number of 64p + b binary digits, 1 <= b, with zeros above limb p, has
   * its leading one in limb p, at bit b.
   */
  lemma LeadingLimbOf(s: seq<U64>, p: nat, b: nat)
    requires p < |s| && ZeroFrom(s, p + 1) && BitLength(Val(s)) == 64 * p + b && 1 <= b
    ensures (p > 0 ==> s[p] != 0) && BitLength(s[p]) == b
  {
    var v := Val(s);
    assert Pow(TWO64, p) <= v by {
      BitLengthBounds(v);
      BitLengthRange(v, 64 * p + b);
      LimbPow(p);
      PowMonotone(2, 64 * p, 64 * p + b - 1);
    }
    TopLimb(s, p);
  }
}
