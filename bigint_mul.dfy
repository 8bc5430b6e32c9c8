/**
 * operator* of bigint.h: the product of two big integers of the same array
 * size, by rows. calculate_single multiplies x by one limb of y, and each
 * row after the first is accumulated into the result one limb further up.
 *
 * Multiply is the multiplication as intended: the result limbs start at
 * zero, the carry out of each accumulation goes into the next limb, and
 * the leading one position is that of the product. MulAsWritten models the
 * code as it stands, with the indeterminate initial limbs of temp and
 * result as parameters; the lemmas after it exhibit where the two part.
 */
module BigIntMul {
  import opened Arith
  import opened WideMul
  import opened LimbValues
  import opened BigIntImpl

  // ---------------------------------------------------------------------
  // calculate_single

  /**
   * The state of the calculate_single loop: limbs of e below idx and the
   * carry at 2^(64 idx) hold the low idx limbs of xs times n; limbs from
   * idx up are those of d0, the destination before the loop.
   */
  ghost predicate RowUpTo(xs: seq<U64>, d0: seq<U64>, e: seq<U64>, n: U64, idx: nat, carry: nat)
  {
    |xs| == |d0| == |e| && idx <= |e| && carry < TWO64
    && Val(e[..idx]) + carry * Pow(TWO64, idx) == Val(xs[..idx]) * n
    && (forall j :: idx <= j < |e| ==> e[j] == d0[j])
  }

  /** One limb of calculate_single, as umul128 and the carry test compute it. */
  lemma RowStep(xs: seq<U64>, d0: seq<U64>, e: seq<U64>, n: U64, idx: nat, mul: UInt128, limb: U64, c: U64, c2: nat)
    requires RowUpTo(xs, d0, e, n, idx, c) && idx < |e| && mul == Umul128(xs[idx], n)
    requires limb == (mul.low + c) % TWO64 && c2 == mul.high + (if limb < mul.low then 1 else 0)
    ensures c2 < TWO64 && RowUpTo(xs, d0, e[idx := limb], n, idx + 1, c2)
  {
    MulLimb(xs[idx], n, c, limb, c2);
    var e2 := e[idx := limb];
    assert e2[..idx] == e[..idx];
    ValPrefix(e2, idx);
    ValPrefix(xs, idx);
    MulArith(Val(e[..idx]), Val(xs[..idx]), limb, c, c2, xs[idx], n, Pow(TWO64, idx));
  }

  /**
   * calculate_single(n, dst): limbs 0..xPos of dst become those of x times
   * the limb n; a nonzero carry out of the top goes to limb xPos + 1, which
   * becomes the leading position. Limbs above it keep what they held.
   */
  method CalculateSingle(xs: array<U64>, xPos: nat, n: U64, dst: array<U64>) returns (top: nat)
    requires xPos < xs.Length == dst.Length && xs != dst
    requires Val(xs[..xPos + 1]) * n < Pow(TWO64, dst.Length)
    modifies dst
    ensures top < dst.Length && (top == xPos || (top == xPos + 1 && dst[top] != 0))
    ensures Val(dst[..top + 1]) == Val(xs[..xPos + 1]) * n
    ensures forall j :: top < j < dst.Length ==> dst[j] == old(dst[j])
  {
    ghost var d0, x := dst[..], xs[..];
    var idx: nat := 0;
    var carry: U64 := 0;
    assert Val(dst[..][..0]) == 0 && Val(x[..0]) == 0;
    while idx <= xPos
      invariant idx <= xPos + 1
      invariant RowUpTo(x, d0, dst[..], n, idx, carry)
    {
      ghost var before := dst[..];
      var mul := Umul128(xs[idx], n);
      var limb: U64 := (mul.low + carry) % TWO64;
      var next: nat := mul.high + (if limb < mul.low then 1 else 0);
      RowStep(x, d0, before, n, idx, mul, limb, carry, next);
      dst[idx] := limb;
      carry := next;
      assert dst[..] == before[idx := limb];
      idx := idx + 1;
    }
    assert x[..xPos + 1] == xs[..xPos + 1] && dst[..][..xPos + 1] == dst[..xPos + 1];
    if carry != 0 {
      assert xPos + 1 < dst.Length by {
        MulLe(1, Pow(TWO64, xPos + 1), carry, Pow(TWO64, xPos + 1));
        PowLessImpliesExpLess(TWO64, xPos + 1, dst.Length);
      }

      ghost var before := dst[..];
      dst[xPos + 1] := carry;
      assert dst[..xPos + 1] == before[..xPos + 1];
      assert dst[..][..xPos + 2] == dst[..xPos + 2];
      ValPrefix(dst[..], xPos + 1);
      top := xPos + 1;
    } else {
      top := xPos;
    }
  }

  // ---------------------------------------------------------------------
  // Accumulating one row

  /**
   * The state of the accumulation of row i: the value of e plus the carry
   * at 2^(64(i+j)) is that of o, the result before the row, plus the low j
   * limbs of t shifted up by i limbs; limbs from i + j up are those of o.
   */
  ghost predicate AccUpTo(o: seq<U64>, t: seq<U64>, e: seq<U64>, i: nat, j: nat, carry: nat)
  {
    |o| == |e| && i + j <= |o| && j <= |t| && carry <= 1
    && Val(e) + carry * Pow(TWO64, i + j) == Val(o) + Val(t[..j]) * Pow(TWO64, i)
    && (forall k :: i + j <= k < |o| ==> e[k] == o[k])
  }

  /** Nothing of the row has been added yet. */
  lemma AccStart(o: seq<U64>, t: seq<U64>, i: nat)
    requires i <= |o|
    ensures AccUpTo(o, t, o, i, 0, 0)
  {
    assert Val(t[..0]) == 0;
  }

  /** result[i] += temp[0], with a carry when that wraps. */
  lemma AccFirst(o: seq<U64>, t: seq<U64>, i: nat, first: U64, carry: nat)
    requires i < |o| && 0 < |t|
    requires first == (o[i] + t[0]) % TWO64 && carry == if first < t[0] then 1 else 0
    ensures AccUpTo(o, t, o[i := first], i, 1, carry)
  {
    AccStart(o, t, i);
    AccStep(o, t, o, i, 0, first, 0, carry);
  }

  /** Limb i + j of the result takes limb j of the row, with carry out c2. */
  lemma AccStep(o: seq<U64>, t: seq<U64>, e: seq<U64>, i: nat, j: nat, limb: U64, c: nat, c2: nat)
    requires AccUpTo(o, t, e, i, j, c) && i + j < |e| && j < |t|
    requires limb + c2 * TWO64 == e[i + j] as int + c + t[j] && c2 <= 1
    ensures AccUpTo(o, t, e[i + j := limb], i, j + 1, c2)
  {
    AddLimbStep(e, i + j, limb, c, c2, t[j], Val(o), Val(t[..j]) * Pow(TWO64, i));
    ValPrefix(t, j);
    PowAdd(TWO64, j, i);
    ScaleArith(Val(t[..j]), t[j], Pow(TWO64, j), Pow(TWO64, i));
    assert i + j + 1 == i + (j + 1);
  }

  lemma ScaleArith(a: nat, b: nat, p: nat, q: nat)
    ensures (a + b * p) * q == a * q + b * (p * q)
  {
  }

  /**
   * with_carry = a + c; first_carry = with_carry < a; e = b + with_carry;
   * carry = first_carry | (e < with_carry): the limb and the carry out hold
   * a + b + c.
   */
  lemma AccLimbs(a: U64, b: U64, c: nat, w: U64, e: U64, c2: nat)
    requires c <= 1 && w == (a + c) % TWO64 && e == (b + w) % TWO64
    requires c2 == if w < a || e < w then 1 else 0
    ensures e + c2 * TWO64 == b + a + c
  {
  }

  /**
   * The accumulation of one row: limbs 0..tPos of temp are added into the
   * result from limb i up, and the carry out of the top goes into limb
   * i + tPos + 1, which is still zero.
   */
  method Accumulate(res: array<U64>, temp: array<U64>, i: nat, tPos: nat)
    requires res != temp && res.Length == temp.Length && i + tPos < res.Length
    requires ZeroFrom(res[..], i + tPos + 1)
    requires Val(res[..]) + Val(temp[..tPos + 1]) * Pow(TWO64, i) < Pow(TWO64, res.Length)
    modifies res
    ensures Val(res[..]) == old(Val(res[..])) + Val(temp[..tPos + 1]) * Pow(TWO64, i)
  {
    ghost var o, t := res[..], temp[..];
    ghost var total := Val(o) + Val(temp[..tPos + 1]) * Pow(TWO64, i);
    var first: U64 := (res[i] + temp[0]) % TWO64;
    var carry: nat := if first < temp[0] then 1 else 0;
    AccFirst(o, t, i, first, carry);
    res[i] := first;
    assert res[..] == o[i := first];
    carry := AccumulateRest(res, temp, i, tPos, carry, o);
    assert t[..tPos + 1] == temp[..tPos + 1];
    StoreCarry(res, i + tPos + 1, carry, total);
  }

  /** Limbs 1..tPos of the row, each added with the carry of the one below. */
  method AccumulateRest(res: array<U64>, temp: array<U64>, i: nat, tPos: nat, carry0: nat, ghost o: seq<U64>)
      returns (carry: nat)
    requires res != temp && res.Length == temp.Length && i + tPos < res.Length
    requires AccUpTo(o, temp[..], res[..], i, 1, carry0)
    modifies res
    ensures AccUpTo(o, temp[..], res[..], i, tPos + 1, carry)
  {
    ghost var t := temp[..];
    carry := carry0;
    var j: nat := 1;
    while j <= tPos
      invariant 1 <= j <= tPos + 1
      invariant AccUpTo(o, t, res[..], i, j, carry)
    {
      ghost var before, c := res[..], carry;
      var withCarry: U64 := (temp[j] + carry) % TWO64;
      var firstCarry := if withCarry < temp[j] then 1 else 0;
      var limb: U64 := (res[i + j] + withCarry) % TWO64;
      var next: nat := if firstCarry != 0 || limb < withCarry then 1 else 0;
      AccLimbs(temp[j], res[i + j], c, withCarry, limb, next);
      AccStep(o, t, before, i, j, limb, c, next);
      res[i + j] := limb;
      carry := next;
      assert res[..] == before[i + j := limb];
      j := j + 1;
    }
  }

  /**
   * The carry out of the top of a row goes into limb k, which is zero: the
   * correction of operator*, which drops it.
   */
  method StoreCarry(res: array<U64>, k: nat, carry: nat, ghost total: nat)
    requires k <= res.Length && ZeroFrom(res[..], k) && carry <= 1
    requires Val(res[..]) + carry * Pow(TWO64, k) == total < Pow(TWO64, res.Length)
    modifies res
    ensures Val(res[..]) == total
  {
    if carry != 0 {
      assert k < res.Length by {
        PowLessImpliesExpLess(TWO64, k, res.Length);
      }

      ghost var before := res[..];
      res[k] := carry;
      assert res[..] == before[k := carry as U64];
      ValUpdate(before, k, carry as U64);
    }
  }

  // ---------------------------------------------------------------------
  // operator*

  /** A prefix of the limbs is worth at most the whole. */
  lemma ValPrefixAtMost(s: seq<U64>, i: nat)
    requires i <= |s|
    ensures Val(s[..i]) <= Val(s)
  {
    assert s == s[..i] + s[i..];
    ValConcat(s[..i], s[i..]);
    MulNat(Val(s[i..]), Pow(TWO64, i));
  }

  /**
   * Before row i the result holds x times the low i limbs of y; with row i
   * worth x * y[i], its accumulation stays inside the array and ends at x
   * times the low i + 1 limbs of y.
   */
  lemma RowFits(xv: nat, xPos: nat, ys: seq<U64>, yv: nat, i: nat, tv: nat, tPos: nat, tTop: U64, len: nat)
    requires i < |ys| && Val(ys) == yv && xv < Pow(TWO64, xPos + 1) && xv * yv < Pow(TWO64, len)
    requires xPos + i < len && tv == xv * ys[i]
    requires tPos == xPos || (tPos == xPos + 1 && tTop != 0 && tTop * Pow(TWO64, tPos) <= tv)
    ensures i + tPos < len
    ensures xv * Val(ys[..i]) < Pow(TWO64, i + tPos + 1)
    ensures xv * Val(ys[..i]) + tv * Pow(TWO64, i) == xv * Val(ys[..i + 1]) <= xv * yv
  {
    RowSum(xv, ys, yv, i, tv);
    RowLowBound(xv, xPos, ys, i, tPos);
    if tPos == xPos + 1 {
      MulNat(xv, Val(ys[..i]));
      MulNat(xv, yv);
      RowTopFits(xv * Val(ys[..i]), xv * yv, i, tv, tPos, tTop, len);
    }
  }

  lemma RowSum(xv: nat, ys: seq<U64>, yv: nat, i: nat, tv: nat)
    requires i < |ys| && Val(ys) == yv && tv == xv * ys[i]
    ensures xv * Val(ys[..i]) + tv * Pow(TWO64, i) == xv * Val(ys[..i + 1]) <= xv * yv
  {
    var v, v1, p := Val(ys[..i]), Val(ys[..i + 1]), Pow(TWO64, i);
    assert v1 == v + ys[i] * p by {
      ValPrefix(ys, i);
    }
    assert v1 <= yv by {
      ValPrefixAtMost(ys, i + 1);
    }
    RowArith(xv, v, v1, ys[i], p, tv, yv);
  }

  lemma RowLowBound(xv: nat, xPos: nat, ys: seq<U64>, i: nat, tPos: nat)
    requires i < |ys| && xv < Pow(TWO64, xPos + 1) && xPos <= tPos
    ensures xv * Val(ys[..i]) < Pow(TWO64, i + tPos + 1)
  {
    ValBound(ys[..i]);
    MulBelow(xv, Val(ys[..i]), Pow(TWO64, xPos + 1), Pow(TWO64, i));
    PowAdd(TWO64, xPos + 1, i);
    PowMonotone(TWO64, xPos + 1 + i, i + tPos + 1);
  }

  lemma RowTopFits(low: nat, m: nat, i: nat, tv: nat, tPos: nat, tTop: U64, len: nat)
    requires m < Pow(TWO64, len) && low + tv * Pow(TWO64, i) <= m
    requires tTop != 0 && tTop * Pow(TWO64, tPos) <= tv
    ensures i + tPos < len
  {
    var a, p := Pow(TWO64, tPos), Pow(TWO64, i);
    MulLe(1, a, tTop, a);
    ScaledBelow(a, tv, p, low, m, Pow(TWO64, len));
    PowAdd(TWO64, tPos, i);
    PowLessImpliesExpLess(TWO64, tPos + i, len);
  }

  /** x times the first i + 1 limbs of y, as x times the first i plus the row x * y[i]. */
  lemma RowArith(xv: nat, v: nat, v1: nat, yi: nat, p: nat, tv: nat, yv: nat)
    requires v1 == v + yi * p && tv == xv * yi && v1 <= yv
    ensures xv * v + tv * p == xv * v1 <= xv * yv
  {
    MulLe(xv, v1, xv, yv);
  }

  lemma ScaledBelow(a: nat, t: nat, p: nat, low: nat, m: nat, bound: nat)
    requires a <= t && low + t * p <= m < bound
    ensures a * p < bound
  {
    MulLe(a, p, t, p);
  }

  lemma MulBelow(a: nat, b: nat, c: nat, d: nat)
    requires a < c && b < d
    ensures a * b < c * d
  {
    MulLe(a, b, a, d);
    MulStrictLeft(a, c, d);
  }

  /** No limb exceeds the value. */
  lemma LimbBelowValue(s: seq<U64>, i: nat)
    requires i < |s|
    ensures s[i] <= Val(s)
  {
    LimbAtMost(s, i);
    PowPositive(TWO64, i);
    MulAtLeast(s[i], Pow(TWO64, i));
  }

  /** The product of two numbers with leading limbs p and q lies below 2^(64(p+q+2)). */
  lemma ProductBound(xv: nat, yv: nat, p: nat, q: nat)
    requires xv < Pow(TWO64, p + 1) && yv < Pow(TWO64, q + 1)
    ensures xv * yv < Pow(TWO64, p + q + 2)
  {
    PowAdd(TWO64, p + 1, q + 1);
    if yv > 0 {
      MulStrictLeft(xv, Pow(TWO64, p + 1), yv);
      MulLe(Pow(TWO64, p + 1), yv, Pow(TWO64, p + 1), Pow(TWO64, q + 1));
    }
  }

  /** The first row of operator*: calculate_single(y[0], result) on zero limbs. */
  method FirstRow(x: BigInt, y: BigInt, res: array<U64>, ghost xv: nat, ghost yv: nat)
    requires x.Normalized() && y.Normalized() && x.elements.Length == y.elements.Length == res.Length
    requires res != x.elements && res != y.elements && Val(res[..]) == 0
    requires xv == x.Value() && yv == y.Value() && xv * yv < Pow(TWO64, res.Length)
    modifies res
    ensures Val(res[..]) == xv * Val(y.elements[..1])
  {
    ghost var ys := y.elements[..];
    var xPos := x.elementPos;
    assert Val(x.elements[..xPos + 1]) == xv by {
      ValZeroFrom(x.elements[..], xPos + 1);
      assert x.elements[..][..xPos + 1] == x.elements[..xPos + 1];
    }
    assert ZeroFrom(res[..], 0) by {
      ValBelowZero(res[..], 0);
    }
    assert xv * ys[0] <= xv * yv by {
      LimbBelowValue(ys, 0);
      MulLe(xv, ys[0], xv, yv);
    }
    var top0 := CalculateSingle(x.elements, xPos, y.elements[0], res);
    assert Val(res[..]) == xv * Val(ys[..1]) by {
      ValZeroFrom(res[..], top0 + 1);
      assert res[..][..top0 + 1] == res[..top0 + 1];
      ValPrefix(ys, 0);
    }
  }

  /**
   * Row i of operator*: calculate_single(y[i], temp) and its accumulation
   * into the result from limb i up.
   */
  method AddRow(x: BigInt, y: BigInt, res: array<U64>, temp: array<U64>, i: nat, ghost xv: nat, ghost yv: nat)
    requires x.Normalized() && y.Normalized() && x.elements.Length == y.elements.Length == res.Length == temp.Length
    requires res != x.elements && temp != x.elements && res != y.elements && temp != y.elements && res != temp
    requires 1 <= i <= y.elementPos
    requires x.elementPos + y.elementPos < x.elements.Length
    requires xv == x.Value() && yv == y.Value() && xv * yv < Pow(TWO64, res.Length)
    requires Val(res[..]) == xv * Val(y.elements[..i])
    modifies res, temp
    ensures Val(res[..]) == xv * Val(y.elements[..i + 1])
  {
    ghost var ys := y.elements[..];
    var xPos := x.elementPos;
    assert ys[..i] == y.elements[..i] && ys[..i + 1] == y.elements[..i + 1];
    assert Val(x.elements[..xPos + 1]) == xv by {
      ValZeroFrom(x.elements[..], xPos + 1);
      assert x.elements[..][..xPos + 1] == x.elements[..xPos + 1];
    }
    assert xv < Pow(TWO64, xPos + 1) by {
      ValBound(x.elements[..xPos + 1]);
    }
    assert xv * ys[i] <= xv * yv by {
      LimbBelowValue(ys, i);
      MulLe(xv, ys[i], xv, yv);
    }

    ghost var rs := res[..];
    var tPos := CalculateSingle(x.elements, xPos, y.elements[i], temp);
    assert res[..] == rs;
    ghost var tv := Val(temp[..tPos + 1]);
    assert tPos == xPos + 1 ==> temp[tPos] * Pow(TWO64, tPos) <= tv by {
      if tPos == xPos + 1 {
        LimbAtMost(temp[..tPos + 1], tPos);
      }
    }
    RowRoom(rs, xv, xPos, ys, yv, i, tv, tPos, temp[tPos]);
    Accumulate(res, temp, i, tPos);
  }

  /**
   * Before row i is added, the result is zero from limb i + tPos + 1 and the
   * row fits.
   */
  lemma RowRoom(rs: seq<U64>, xv: nat, xPos: nat, ys: seq<U64>, yv: nat, i: nat, tv: nat, tPos: nat, tTop: U64)
    requires i < |ys| && Val(ys) == yv && xv < Pow(TWO64, xPos + 1) && xv * yv < Pow(TWO64, |rs|)
    requires xPos + i < |rs| && tv == xv * ys[i] && Val(rs) == xv * Val(ys[..i])
    requires tPos == xPos || (tPos == xPos + 1 && tTop != 0 && tTop * Pow(TWO64, tPos) <= tv)
    ensures i + tPos < |rs| && ZeroFrom(rs, i + tPos + 1)
    ensures Val(rs) + tv * Pow(TWO64, i) == xv * Val(ys[..i + 1]) < Pow(TWO64, |rs|)
  {
    RowFits(xv, xPos, ys, yv, i, tv, tPos, tTop, |rs|);
    ValBelowZero(rs, i + tPos + 1);
  }

  /**
   * operator*(x, y): the product of x and y, which must fit in the array;
   * the source also asserts that the two leading positions add up to less
   * than the array size. The result starts from zero limbs, every row's
   * final carry is kept, and the leading one position is found from the top.
   */
  method Multiply(x: BigInt, y: BigInt) returns (result: BigInt)
    requires x.Normalized() && y.Normalized() && x.elements.Length == y.elements.Length
    requires x.elementPos + y.elementPos < x.elements.Length
    requires x.Value() * y.Value() < Pow(TWO64, x.elements.Length)
    ensures fresh(result) && fresh(result.elements) && result.elements.Length == x.elements.Length
    ensures result.Valid() && result.Value() == x.Value() * y.Value()
  {
    var len := x.elements.Length;
    ghost var xv, yv := x.Value(), y.Value();
    var xPos, yPos := x.elementPos, y.elementPos;
    var top := if xPos + yPos + 1 < len then xPos + yPos + 1 else len - 1;
    assert xv * yv < Pow(TWO64, top + 1) by {
      x.Bounds();
      y.Bounds();
      ProductBound(xv, yv, xPos, yPos);
    }
    result := new BigInt(len, 0);
    var temp := new U64[len];
    MultiplyRows(x, y, result.elements, temp, xv, yv);
    result.FindLeading(top, xv * yv);
  }

  /** The row loop of operator*: row 0, then rows 1..yPos added at their offsets. */
  method MultiplyRows(x: BigInt, y: BigInt, res: array<U64>, temp: array<U64>, ghost xv: nat, ghost yv: nat)
    requires x.Normalized() && y.Normalized() && x.elements.Length == y.elements.Length == res.Length == temp.Length
    requires res != x.elements && temp != x.elements && res != y.elements && temp != y.elements && res != temp
    requires x.elementPos + y.elementPos < x.elements.Length
    requires xv == x.Value() && yv == y.Value() && xv * yv < Pow(TWO64, res.Length)
    requires Val(res[..]) == 0
    modifies res, temp
    ensures Val(res[..]) == xv * yv
  {
    ghost var ys := y.elements[..];
    FirstRow(x, y, res, xv, yv);
    var i := 1;
    while i <= y.elementPos
      invariant 1 <= i <= y.elementPos + 1
      invariant Val(res[..]) == xv * Val(ys[..i])
    {
      AddRow(x, y, res, temp, i, xv, yv);
      i := i + 1;
    }
    assert Val(ys[..y.elementPos + 1]) == yv by {
      ValZeroFrom(ys, y.elementPos + 1);
    }
  }

  // ---------------------------------------------------------------------
  // operator* as written

  /**
   * The outcome of operator* as written: the limbs, the leading one
   * position set at the end, and whether some accumulation ended with a
   * carry, which the source asserts never happens and otherwise drops.
   */
  datatype Product = Product(limbs: seq<U64>, pos: nat, bitPos: nat, carryLost: bool)

  /** The calculate_single loop from limb idx on, with carry coming in. */
  function RowAsWritten(xs: seq<U64>, n: U64, dst: seq<U64>, idx: nat, top: nat, carry: U64): (r: (seq<U64>, U64))
    requires top < |xs| == |dst| && idx <= top + 1
    ensures |r.0| == |dst|
    decreases top + 1 - idx
  {
    if idx > top then (dst, carry)
    else
      var mul := Umul128(xs[idx], n);
      var limb := (mul.low + carry) % TWO64;
      var next := mul.high + (if limb < mul.low then 1 else 0);
      MulLimb(xs[idx], n, carry, limb, next);
      RowAsWritten(xs, n, dst[idx := limb], idx + 1, top, next)
  }

  /** calculate_single as written: the limbs and the leading position. */
  function CalcSingleAsWritten(xs: seq<U64>, xPos: nat, n: U64, dst: seq<U64>): (r: (seq<U64>, nat))
    requires xPos + 1 < |xs| == |dst|
    ensures |r.0| == |dst| && (r.1 == xPos || r.1 == xPos + 1)
  {
    var (d, c) := RowAsWritten(xs, n, dst, 0, xPos, 0);
    if c != 0 then (d[xPos + 1 := c], xPos + 1) else (d, xPos)
  }

  /** The accumulation loop of row i from limb j of the row on. */
  function AccLoopAsWritten(res: seq<U64>, t: seq<U64>, i: nat, j: nat, tPos: nat, carry: nat): (r: (seq<U64>, nat))
    requires i + tPos < |res| && tPos < |t| && j <= tPos + 1 && carry <= 1
    ensures |r.0| == |res| && r.1 <= 1
    decreases tPos + 1 - j
  {
    if j > tPos then (res, carry)
    else
      var withCarry := (t[j] + carry) % TWO64;
      var firstCarry := withCarry < t[j];
      var limb: U64 := (res[i + j] + withCarry) % TWO64;
      AccLoopAsWritten(res[i + j := limb], t, i, j + 1, tPos, if firstCarry || limb < withCarry then 1 else 0)
  }

  /** The accumulation of row i as written: the limbs and the carry left at the end. */
  function AccumulateAsWritten(res: seq<U64>, t: seq<U64>, i: nat, tPos: nat): (r: (seq<U64>, nat))
    requires i + tPos < |res| && tPos < |t|
    ensures |r.0| == |res| && r.1 <= 1
  {
    var first := (res[i] + t[0]) % TWO64;
    AccLoopAsWritten(res[i := first], t, i, 1, tPos, if first < t[0] then 1 else 0)
  }

  /** Rows i..yPos as written, with temp and its leading position carried along. */
  function RowsAsWritten(xs: seq<U64>, xPos: nat, ys: seq<U64>, yPos: nat, i: nat,
                         res: seq<U64>, temp: seq<U64>, tPos: nat, lost: bool): (r: (seq<U64>, nat, bool))
    requires xPos + yPos + 1 < |xs| == |ys| == |res| == |temp| && 1 <= i && tPos <= xPos + 1
    ensures |r.0| == |res| && r.1 <= xPos + 1
    decreases yPos + 1 - i
  {
    if i > yPos then (res, tPos, lost)
    else
      var (t, tp) := CalcSingleAsWritten(xs, xPos, ys[i], temp);
      var (r2, c) := AccumulateAsWritten(res, t, i, tp);
      RowsAsWritten(xs, xPos, ys, yPos, i + 1, r2, t, tp, lost || c != 0)
  }

  /**
   * operator*(x, y) as written, given the indeterminate initial limbs of
   * result and temp: the first row goes straight into result, each further
   * row is accumulated without its final carry, the leading position
   * becomes y.pos + temp.pos and the limbs above it are cleared.
   */
  function MulAsWritten(xs: seq<U64>, xPos: nat, ys: seq<U64>, yPos: nat,
                        resInit: seq<U64>, tempInit: seq<U64>): (p: Product)
    requires xPos + yPos + 1 < |xs| == |ys| == |resInit| == |tempInit|
    ensures |p.limbs| == |xs| && p.pos < |xs| && ZeroFrom(p.limbs, p.pos + 1)
  {
    var (r0, _) := CalcSingleAsWritten(xs, xPos, ys[0], resInit);
    var (r, tp, lost) := RowsAsWritten(xs, xPos, ys, yPos, 1, r0, tempInit, 0, false);
    var pos := yPos + tp;
    Product(r[..pos + 1] + Zeros(|r| - pos - 1), pos, BitLength(r[pos]), lost)
  }

  /** umul128 on the small operands of the examples below. */
  lemma SmallProducts()
    ensures Umul128(0, 1) == UInt128(0, 0) && Umul128(1, 1) == UInt128(0, 1)
    ensures Umul128(2, 3) == UInt128(0, 6) && Umul128(2, 1) == UInt128(0, 2)
    ensures Umul128(TWO64 - 1, TWO64 - 1) == UInt128(TWO64 - 2, 1)
    ensures Umul128(TWO64 - 1, 1) == UInt128(0, TWO64 - 1)
  {
  }

  /**
   * When y has a single limb no further row runs and temp.pos keeps its
   * initial 0, so the leading position becomes y.pos + 0 = 0 and every
   * limb above limb 0 is cleared: 2^64 times 1 comes out as 0, whatever the
   * initial limbs of result and temp.
   */
  lemma SingleLimbFactorLosesLimbs(resInit: seq<U64>, tempInit: seq<U64>)
    requires |resInit| == |tempInit| == 3
    ensures Val([0, 1, 0]) * Val([1, 0, 0]) == TWO64
    ensures MulAsWritten([0, 1, 0], 1, [1, 0, 0], 0, resInit, tempInit).limbs == [0, 0, 0]
  {
    var xs: seq<U64> := [0, 1, 0];
    SmallProducts();
    var d := resInit[0 := 0][1 := 1];
    assert RowAsWritten(xs, 1, resInit, 0, 1, 0) == RowAsWritten(xs, 1, resInit[0 := 0], 1, 1, 0);
    assert RowAsWritten(xs, 1, resInit[0 := 0], 1, 1, 0) == RowAsWritten(xs, 1, d, 2, 1, 0) == (d, 0);
    assert CalcSingleAsWritten(xs, 1, 1, resInit) == (d, 1);
    assert d[..1] + Zeros(2) == [0, 0, 0];
    ValSingle(xs, 1);
    ValSingle([1, 0, 0], 0);
  }

  /**
   * The accumulation of a row can end with a carry, which the source
   * asserts is zero and then drops: (2^64 - 1) times (2^65 - 1) is
   * 2^128 + (2^64 - 3) * 2^64 + 1, and the code as written loses the 2^128,
   * whatever the initial limbs of result and temp.
   */
  lemma RowCarryLost(resInit: seq<U64>, tempInit: seq<U64>)
    requires |resInit| == |tempInit| == 3
    ensures Val([TWO64 - 1, 0, 0]) * Val([TWO64 - 1, 1, 0]) == Pow(TWO64, 2) + (TWO64 - 3) * TWO64 + 1
    ensures var p := MulAsWritten([TWO64 - 1, 0, 0], 0, [TWO64 - 1, 1, 0], 1, resInit, tempInit);
            p.carryLost && p.limbs == [1, TWO64 - 3, 0] && Val(p.limbs) == (TWO64 - 3) * TWO64 + 1
  {
    RowCarryLostLimbs(resInit, tempInit);
    ValOfThree(1, TWO64 - 3, 0);
    ValOfThree(TWO64 - 1, 0, 0);
    ValOfThree(TWO64 - 1, 1, 0);
    assert Pow(TWO64, 2) == TWO64 * TWO64;
    assert (TWO64 - 1) * (TWO64 - 1 + TWO64) == TWO64 * TWO64 + (TWO64 - 3) * TWO64 + 1;
  }

  lemma RowCarryLostLimbs(resInit: seq<U64>, tempInit: seq<U64>)
    requires |resInit| == |tempInit| == 3
    ensures var p := MulAsWritten([TWO64 - 1, 0, 0], 0, [TWO64 - 1, 1, 0], 1, resInit, tempInit);
            p.carryLost && p.limbs == [1, TWO64 - 3, 0]
  {
    var m: U64 := TWO64 - 1;
    var xs, ys: seq<U64> := [m, 0, 0], [m, 1, 0];
    var r0 := resInit[0 := 1][1 := TWO64 - 2];
    var t := tempInit[0 := m];
    var r1 := r0[1 := TWO64 - 3];
    CarryFirstRow(resInit);
    CarrySecondRow(tempInit);
    CarryAccumulate(r0, t);
    assert RowsAsWritten(xs, 0, ys, 1, 1, r0, tempInit, 0, false) == RowsAsWritten(xs, 0, ys, 1, 2, r1, t, 0, true);
    assert r1[..2] + Zeros(1) == [1, TWO64 - 3, 0];
  }

  /** Row 0: (2^64-1)^2 leaves 1 in limb 0 and 2^64-2 in limb 1, with carry 1 kept as the new top limb. */
  lemma CarryFirstRow(resInit: seq<U64>)
    requires |resInit| == 3
    ensures CalcSingleAsWritten([TWO64 - 1, 0, 0], 0, TWO64 - 1, resInit) == (resInit[0 := 1][1 := TWO64 - 2], 1)
  {
    var m: U64 := TWO64 - 1;
    var xs: seq<U64> := [m, 0, 0];
    SmallProducts();
    assert RowAsWritten(xs, m, resInit, 0, 0, 0) == RowAsWritten(xs, m, resInit[0 := 1], 1, 0, TWO64 - 2)
      == (resInit[0 := 1], TWO64 - 2);
  }

  /** Row 1: multiplying by 1 copies 2^64-1 into temp limb 0 with no carry. */
  lemma CarrySecondRow(tempInit: seq<U64>)
    requires |tempInit| == 3
    ensures CalcSingleAsWritten([TWO64 - 1, 0, 0], 0, 1, tempInit) == (tempInit[0 := TWO64 - 1], 0)
  {
    var m: U64 := TWO64 - 1;
    var xs: seq<U64> := [m, 0, 0];
    var t := tempInit[0 := m];
    SmallProducts();
    assert RowAsWritten(xs, 1, tempInit, 0, 0, 0) == RowAsWritten(xs, 1, t, 1, 0, 0) == (t, 0);
  }

  /** Adding the second row into limb 1 wraps and leaves a carry the source drops. */
  lemma CarryAccumulate(r0: seq<U64>, t: seq<U64>)
    requires |r0| == |t| == 3 && r0[0] == 1 && r0[1] == TWO64 - 2 && t[0] == TWO64 - 1
    ensures AccumulateAsWritten(r0, t, 1, 0) == (r0[1 := TWO64 - 3], 1)
  {
    var r1 := r0[1 := TWO64 - 3];
    assert (r0[1] + t[0]) % TWO64 == TWO64 - 3;
    assert AccLoopAsWritten(r1, t, 1, 1, 0, 1) == (r1, 1);
  }

  /** The value of three limbs. */
  lemma ValOfThree(a: U64, b: U64, c: U64)
    ensures Val([a, b, c]) == a + b * TWO64 + c * Pow(TWO64, 2)
  {
    var s := [a, b, c];
    assert s[..2] == [a, b] && [a, b][..1] == [a] && [a][..0] == [];
    assert Val(s) == Val([a, b]) + c * Pow(TWO64, 2);
    assert Val([a, b]) == Val([a]) + b * Pow(TWO64, 1);
    assert Val([a]) == a * Pow(TWO64, 0);
  }

  /**
   * The accumulation reads limbs of result that no row has written: with
   * x = 2 and y = 2^64 + 3 the first row writes limb 0 only, and row 1 adds
   * 2 to whatever limb 1 held, so the product comes out right only when
   * that limb happened to be 0.
   */
  lemma UninitialisedLimbRead(resInit: seq<U64>, tempInit: seq<U64>)
    requires |resInit| == |tempInit| == 3
    ensures var p := MulAsWritten([2, 0, 0], 0, [3, 1, 0], 1, resInit, tempInit);
            Val(p.limbs) == 6 + ((resInit[1] + 2) % TWO64) * TWO64
            && (Val(p.limbs) == Val([2, 0, 0]) * Val([3, 1, 0]) <==> resInit[1] == 0)
  {
    var first: U64 := (resInit[1] + 2) % TWO64;
    UninitialisedLimbs(resInit, tempInit);
    ghost var p := MulAsWritten([2, 0, 0], 0, [3, 1, 0], 1, resInit, tempInit);
    SixAndLimb(p.limbs, first);
    FactorValues();
    SecondLimbArith(resInit[1], first, Val(p.limbs), Val([2, 0, 0]) * Val([3, 1, 0]));
  }

  /** The two factors of the example, x = 2 and y = 2^64 + 3. */
  lemma FactorValues()
    ensures Val([2, 0, 0]) == 2 && Val([3, 1, 0]) == 3 + TWO64
  {
    ValOfThree(2, 0, 0);
    ValOfThree(3, 1, 0);
  }

  lemma SixAndLimb(l: seq<U64>, first: U64)
    requires l == [6, first, 0]
    ensures Val(l) == 6 + first * TWO64
  {
    ValOfThree(6, first, 0);
  }

  lemma SecondLimbArith(r: U64, first: U64, v: nat, product: nat)
    requires first == (r + 2) % TWO64 && v == 6 + first * TWO64 && product == 6 + 2 * TWO64
    ensures v == product <==> r == 0
  {
    if r + 2 < TWO64 {
      DivModUnique(r + 2, TWO64, 0, r + 2);
    } else {
      DivModUnique(r + 2, TWO64, 1, r + 2 - TWO64);
    }
    if first < 2 {
      MulStrictLeft(first, 2, TWO64);
    } else if first > 2 {
      MulStrictLeft(2, first, TWO64);
    }
  }

  lemma UninitialisedLimbs(resInit: seq<U64>, tempInit: seq<U64>)
    requires |resInit| == |tempInit| == 3
    ensures MulAsWritten([2, 0, 0], 0, [3, 1, 0], 1, resInit, tempInit).limbs == [6, (resInit[1] + 2) % TWO64, 0]
  {
    var xs, ys: seq<U64> := [2, 0, 0], [3, 1, 0];
    SmallProducts();
    var r0 := resInit[0 := 6];
    assert RowAsWritten(xs, 3, resInit, 0, 0, 0) == RowAsWritten(xs, 3, r0, 1, 0, 0) == (r0, 0);
    assert CalcSingleAsWritten(xs, 0, 3, resInit) == (r0, 0);
    var t := tempInit[0 := 2];
    assert RowAsWritten(xs, 1, tempInit, 0, 0, 0) == RowAsWritten(xs, 1, t, 1, 0, 0) == (t, 0);
    assert CalcSingleAsWritten(xs, 0, 1, tempInit) == (t, 0);
    var first: U64 := (resInit[1] + 2) % TWO64;
    var r1 := r0[1 := first];
    assert AccumulateAsWritten(r0, t, 1, 0) == (r1, if first < 2 then 1 else 0);
    ghost var rows := RowsAsWritten(xs, 0, ys, 1, 1, r0, tempInit, 0, false);
    assert rows.0 == r1 && rows.1 == 0;
    assert r1[..2] + Zeros(1) == [6, first, 0];
  }
}
