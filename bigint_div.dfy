/**
 * long_division of bigint.h: this number becomes the remainder and the
 * quotient is returned. The divisor n is copied into n_shifted with its
 * leading one aligned to that of this number, and then, as in schoolbook
 * binary division, n_shifted is subtracted whenever it fits, halved when it
 * does not, and shifted right again to realign after each subtraction.
 *
 * The methods here are the corrected algorithm; the two limb shifts that the
 * source gets wrong are modelled as written at the end of this file.
 */
module BigIntDiv {
  import opened Arith
  import opened LimbValues
  import opened BigIntImpl

  // ---------------------------------------------------------------------
  // Limb loops shared by the phases

  /** std::fill_n(begin + from, count, 0). */
  method ZeroFill(xs: array<U64>, from: nat, count: nat)
    requires from + count <= xs.Length
    modifies xs
    ensures forall j :: from <= j < from + count ==> xs[j] == 0
    ensures forall j :: 0 <= j < xs.Length && !(from <= j < from + count) ==> xs[j] == old(xs[j])
  {
    var idx := from;
    while idx < from + count
      invariant from <= idx <= from + count
      invariant forall j :: from <= j < idx ==> xs[j] == 0
      invariant forall j :: 0 <= j < xs.Length && !(from <= j < idx) ==> xs[j] == old(xs[j])
    {
      xs[idx] := 0;
      idx := idx + 1;
    }
  }

  /** std::copy of limbs 0..count-1 of src to limbs offset.. of dst. */
  method CopyLimbs(src: array<U64>, dst: array<U64>, count: nat, offset: nat)
    requires src != dst && count <= src.Length && offset + count <= dst.Length
    modifies dst
    ensures forall j :: 0 <= j < count ==> dst[offset + j] == src[j]
    ensures forall j :: 0 <= j < dst.Length && !(offset <= j < offset + count) ==> dst[j] == old(dst[j])
  {
    var idx := 0;
    while idx < count
      invariant idx <= count
      invariant forall j :: 0 <= j < idx ==> dst[offset + j] == src[j]
      invariant forall j :: 0 <= j < dst.Length && !(offset <= j < offset + idx) ==> dst[j] == old(dst[j])
    {
      dst[offset + idx] := src[idx];
      idx := idx + 1;
    }
  }

  /**
   * The comparison loop of long_division: from limb top down, the first limb
   * where the two numbers differ, or -1 when they agree on every limb.
   */
  method FirstDifference(a: array<U64>, b: array<U64>, top: nat) returns (c: int)
    requires top < a.Length == b.Length
    ensures -1 <= c <= top
    ensures forall j :: c < j <= top ==> a[j] == b[j]
    ensures c >= 0 ==> a[c] != b[c]
  {
    c := top;
    while c >= 0 && a[c] == b[c]
      invariant -1 <= c <= top
      invariant forall j :: c < j <= top ==> a[j] == b[j]
    {
      c := c - 1;
    }
  }

  // ---------------------------------------------------------------------
  // perform_subtraction

  /** The value of s, split below limb h. */
  lemma ValSplitAt(s: seq<U64>, h: nat)
    requires h <= |s|
    ensures Val(s) == Val(s[..h]) + Val(s[h..]) * Pow(TWO64, h)
  {
    assert s == s[..h] + s[h..];
    ValConcat(s[..h], s[h..]);
  }

  /** Subtracting x from o when the two agree from limb h up. */
  lemma SameTail(o: seq<U64>, x: seq<U64>, h: nat)
    requires h <= |o| == |x| && Val(x) <= Val(o)
    requires forall j :: h <= j < |o| ==> o[j] == x[j]
    ensures Val(x[..h]) <= Val(o[..h])
    ensures Val(o) - Val(x) == Val(o[..h]) - Val(x[..h]) < Pow(TWO64, h)
  {
    ValSplitAt(o, h);
    ValSplitAt(x, h);
    ValBound(o[..h]);
    SuffixEqual(o, x, h);
    TailArith(Val(o), Val(x), Val(o[..h]), Val(x[..h]), Val(o[h..]) * Pow(TWO64, h), Pow(TWO64, h));
  }

  lemma TailArith(vo: nat, vx: nat, lo: nat, lx: nat, tail: int, p: nat)
    requires vo == lo + tail && vx == lx + tail && vx <= vo && lo < p
    ensures lx <= lo && vo - vx == lo - lx < p
  {
  }

  /**
   * After the subtraction loop has reached limb h - 1 with the limbs from h
   * up agreeing, there is no borrow left and the low h limbs hold o - x.
   */
  lemma NoBorrowLeft(o: seq<U64>, x: seq<U64>, e: seq<U64>, h: nat, borrow: nat)
    requires SubtractedUpTo(o, x, e, h, borrow) && 0 < h
    requires forall j :: h <= j < |o| ==> o[j] == x[j]
    requires Val(x) <= Val(o)
    ensures borrow == 0 && Val(e[..h]) == Val(o) - Val(x)
  {
    assert e[h..] == o[h..] == x[h..];
    ValSplitAt(e, h);
    ValSplitAt(o, h);
    ValSplitAt(x, h);
    ValBound(e[..h]);
    BorrowArith(Val(e[..h]), Val(o[..h]), Val(x[..h]), Val(o[h..]), Pow(TWO64, h), borrow, Val(o), Val(x), Val(e));
  }

  lemma BorrowArith(ve: nat, vo: nat, vx: nat, tail: nat, p: nat, b: nat, o: nat, x: nat, e: nat)
    requires e == ve + tail * p && o == vo + tail * p && x == vx + tail * p
    requires e - b * p == o - vx && x <= o && ve < p && b <= 1
    ensures b == 0 && ve == o - x
  {
  }

  /** Below limb base x is zero, so the subtraction loop may start there. */
  lemma SubtractedFromBase(o: seq<U64>, x: seq<U64>, base: nat)
    requires |o| == |x| && base <= |o| && forall j :: 0 <= j < base ==> x[j] == 0
    ensures SubtractedUpTo(o, x, o, base, 0)
  {
    assert ZeroFrom(x[..base], 0);
    ValZeroFrom(x[..base], 0);
    assert x[..base][..0] == [];
  }

  /**
   * perform_subtraction: subtract x, whose limbs below baseIdx are zero and
   * whose limbs above c are those of this number. Limbs baseIdx..c are
   * subtracted with borrow, the ones above up to the leading limb are
   * cleared, and the leading limb is searched for from c down.
   */
  method PerformSubtraction(r: BigInt, x: BigInt, baseIdx: nat, c: nat)
    requires r.Valid() && r.elements != x.elements && x.elements.Length == r.elements.Length
    requires baseIdx <= r.elementPos && c <= r.elementPos
    requires forall j :: c < j < r.elements.Length ==> x.elements[j] == r.elements[j]
    requires forall j :: 0 <= j < baseIdx ==> x.elements[j] == 0
    requires x.Value() <= r.Value()
    modifies r, r.elements
    ensures r.Valid() && r.Value() == old(r.Value()) - x.Value() && r.elementPos <= c
  {
    ghost var o, xs := r.elements[..], x.elements[..];
    ghost var total := r.Value() - x.Value();
    SubtractValue(r, x, baseIdx, c);
    assert total < Pow(TWO64, c + 1) by {
      SameTail(o, xs, c + 1);
    }
    r.FindLeading(c, total);
  }

  /** The limb work of perform_subtraction, before the leading limb is searched for. */
  method SubtractValue(r: BigInt, x: BigInt, baseIdx: nat, c: nat)
    requires r.Valid() && r.elements != x.elements && x.elements.Length == r.elements.Length
    requires baseIdx <= r.elementPos && c <= r.elementPos
    requires forall j :: c < j < r.elements.Length ==> x.elements[j] == r.elements[j]
    requires forall j :: 0 <= j < baseIdx ==> x.elements[j] == 0
    requires x.Value() <= r.Value()
    modifies r.elements
    ensures r.Value() == old(r.Value()) - x.Value()
  {
    ghost var o, xs := r.elements[..], x.elements[..];
    var carry := SubtractBaseLimb(r.elements, x.elements, o, xs, baseIdx);
    var idx;
    idx, carry := SubtractLimbs(r.elements, x.elements, o, xs, baseIdx + 1, c, carry);
    ClearAbove(r, o, xs, idx, carry);
  }

  /** The first step of perform_subtraction: limb baseIdx, with no borrow in. */
  method SubtractBaseLimb(e: array<U64>, x: array<U64>, ghost o: seq<U64>, ghost xs: seq<U64>, baseIdx: nat)
      returns (carry: nat)
    requires e != x && e[..] == o && x[..] == xs && baseIdx < e.Length == x.Length
    requires forall j :: 0 <= j < baseIdx ==> xs[j] == 0
    modifies e
    ensures SubtractedUpTo(o, xs, e[..], baseIdx + 1, carry)
  {
    SubtractedFromBase(o, xs, baseIdx);
    carry := if e[baseIdx] < x[baseIdx] then 1 else 0;
    var limb: U64 := (e[baseIdx] - x[baseIdx]) % TWO64;
    SubLimbs(o[baseIdx], xs[baseIdx], 0, xs[baseIdx], limb, carry);
    SubtractedStep(o, xs, o, baseIdx, limb, 0, carry);
    e[baseIdx] := limb;
    assert e[..] == o[baseIdx := limb];
  }

  /** The borrow loop of perform_subtraction over limbs from..c. */
  method SubtractLimbs(e: array<U64>, x: array<U64>, ghost o: seq<U64>, ghost xs: seq<U64>, from: nat, c: nat, carry0: nat)
      returns (idx: nat, carry: nat)
    requires e != x && x[..] == xs && 1 <= from && SubtractedUpTo(o, xs, e[..], from, carry0)
    requires c < e.Length
    modifies e
    ensures idx == (if c < from then from else c + 1) && SubtractedUpTo(o, xs, e[..], idx, carry)
  {
    idx, carry := from, carry0;
    while idx <= c
      invariant from <= idx <= if c < from then from else c + 1
      invariant SubtractedUpTo(o, xs, e[..], idx, carry)
    {
      ghost var before, cin := e[..], carry;
      var withCarry := (x[idx] + carry) % TWO64;
      var firstCarry := if withCarry < carry then 1 else 0;
      carry := if firstCarry != 0 || e[idx] < withCarry then 1 else 0;
      e[idx] := (e[idx] - withCarry) % TWO64;
      SubLimbs(before[idx], xs[idx], cin, withCarry, e[idx], carry);
      assert e[..] == before[idx := e[idx]];
      SubtractedStep(o, xs, before, idx, e[idx], cin, carry);
      idx := idx + 1;
    }
  }

  /**
   * The tail of perform_subtraction: the limbs from idx to the leading one
   * agreed with x and are cleared; no borrow is left.
   */
  method ClearAbove(r: BigInt, ghost o: seq<U64>, ghost xs: seq<U64>, idx: nat, carry: nat)
    requires r.elementPos < r.elements.Length && 0 < idx
    requires SubtractedUpTo(o, xs, r.elements[..], idx, carry)
    requires ZeroFrom(o, r.elementPos + 1) && Val(xs) <= Val(o)
    requires forall j :: idx <= j < |o| ==> o[j] == xs[j]
    modifies r.elements
    ensures Val(r.elements[..]) == Val(o) - Val(xs)
  {
    ghost var e := r.elements[..];
    NoBorrowLeft(o, xs, e, idx, carry);
    var pos := r.elementPos;
    if idx <= pos {
      ZeroFill(r.elements, idx, pos + 1 - idx);
    }
    assert r.elements[..idx] == e[..idx];
    assert ZeroFrom(r.elements[..], idx);
    ValZeroFrom(r.elements[..], idx);
  }

  // ---------------------------------------------------------------------
  // Leading ones at the same position: at most one subtraction

  /** Two numbers agreeing on limbs c+1..top and zero above top agree above c. */
  lemma AgreeAbove(a: seq<U64>, b: seq<U64>, c: int, top: nat)
    requires |a| == |b| && top < |a| && -1 <= c <= top && ZeroFrom(a, top + 1) && ZeroFrom(b, top + 1)
    requires forall j :: c < j <= top ==> a[j] == b[j]
    ensures forall j :: c < j < |a| ==> a[j] == b[j]
  {
  }

  /** With equal bit lengths, a number at least b exceeds b by less than b. */
  lemma SameLengthDifference(a: nat, b: nat)
    requires 0 < b <= a && BitLength(a) == BitLength(b)
    ensures a - b < b
  {
    BitLengthBounds(a);
    BitLengthBounds(b);
  }

  /** The number 1 in a zero BigInt: bit_pos = 1, elements[0] = 1. */
  method SetOne(q: BigInt)
    requires q.Valid() && q.Value() == 0 && q.elementPos == 0
    modifies q, q.elements
    ensures q.Valid() && q.Value() == 1 && q.elementPos == 0
  {
    ValBelowZero(q.elements[..], 0);
    ghost var o := q.elements[..];
    q.bitPos := 1;
    q.elements[0] := 1;
    assert q.elements[..] == o[0 := 1];
    ValUpdate(o, 0, 1);
    BitLengthUnique(1, 1);
  }

  /**
   * The else branch of the equal-limb comparison: every limb of n above
   * limb 0 is that of this number, so only limb 0 is subtracted and the
   * limbs above are cleared.
   */
  method SubtractLowLimb(r: BigInt, n: BigInt)
    requires r.Valid() && n.Valid() && r.elements != n.elements && r.elements.Length == n.elements.Length
    requires forall j :: 0 < j < r.elements.Length ==> n.elements[j] == r.elements[j]
    requires n.elements[0] <= r.elements[0]
    modifies r, r.elements
    ensures r.Valid() && r.Value() == old(r.Value()) - n.Value()
  {
    ghost var o, nv := r.elements[..], n.elements[..];
    ValAboveZero(o, nv);
    var low := r.elements[0] - n.elements[0];
    ZeroFill(r.elements, 1, r.elementPos);
    assert ZeroFrom(r.elements[..], 1);
    r.elements[0] := low;
    LowLimbOnly(r.elements[..]);
    r.elementPos := 0;
    r.bitPos := Log2p1(low);
  }

  /** Limbs zero above limb 0 have the value of limb 0. */
  lemma LowLimbOnly(e: seq<U64>)
    requires |e| >= 1 && ZeroFrom(e, 1)
    ensures Val(e) == e[0]
  {
    ValSingle(e, 0);
    assert Pow(TWO64, 0) == 1;
  }

  /**
   * The branch where the leading ones of this number and of n are at the
   * same position: the limbs are compared from the top; if n is larger
   * the quotient is 0, otherwise n is subtracted once and the quotient is 1.
   */
  method DivideSameTop(r: BigInt, n: BigInt, q: BigInt)
    requires r.Valid() && n.Valid() && q.Valid() && q.Value() == 0 && q.elementPos == 0
    requires r.elements != n.elements && r.elements != q.elements && n.elements != q.elements
    requires r.elements.Length == n.elements.Length
    requires r.elementPos == n.elementPos && r.bitPos == n.bitPos && n.Value() != 0
    modifies r, r.elements, q, q.elements
    ensures r.Valid() && q.Valid() && q.elementPos == 0
    ensures old(r.Value()) == q.Value() * n.Value() + r.Value() && r.Value() < n.Value()
  {
    ghost var rv, nv := r.Value(), n.Value();
    var c := FirstDifference(n.elements, r.elements, r.elementPos);
    AgreeAbove(n.elements[..], r.elements[..], c, r.elementPos);
    var low := if c >= 1 then c else 0;
    if n.elements[low] > r.elements[low] {
      ValLess(r.elements[..], n.elements[..], low);
    } else {
      SubtractOnce(r, n, q, c);
    }
    QuotientAtMostOne(rv, nv, q.Value(), r.Value());
  }

  /** The quotient 0 leaves the dividend, the quotient 1 takes one divisor from it. */
  lemma QuotientAtMostOne(rv: nat, nv: nat, qv: nat, rem: nat)
    requires (qv == 0 && rem == rv) || (qv == 1 && rem == rv - nv)
    ensures rv == qv * nv + rem
  {
  }

  /** The subtraction of n exactly once, with quotient 1. */
  method SubtractOnce(r: BigInt, n: BigInt, q: BigInt, c: int)
    requires r.Valid() && n.Valid() && q.Valid() && q.Value() == 0 && q.elementPos == 0
    requires r.elements != n.elements && r.elements != q.elements && n.elements != q.elements
    requires r.elements.Length == n.elements.Length
    requires r.elementPos == n.elementPos && r.bitPos == n.bitPos && n.Value() != 0
    requires -1 <= c <= r.elementPos && forall j :: c < j < r.elements.Length ==> n.elements[j] == r.elements[j]
    requires c >= 1 ==> n.elements[c] < r.elements[c]
    requires c < 1 ==> n.elements[0] <= r.elements[0]
    modifies r, r.elements, q, q.elements
    ensures r.Valid() && q.Valid() && q.elementPos == 0 && q.Value() == 1
    ensures r.Value() == old(r.Value()) - n.Value() < n.Value()
  {
    ghost var rv, nv := r.Value(), n.Value();
    assert nv <= rv by {
      if c >= 1 || n.elements[0] < r.elements[0] {
        ValLess(n.elements[..], r.elements[..], if c >= 1 then c else 0);
      } else {
        assert n.elements[..] == r.elements[..];
      }
    }
    assert rv - nv < nv by {
      r.TopBit();
      n.TopBit();
      SameLengthDifference(rv, nv);
    }
    if c >= 1 {
      PerformSubtraction(r, n, 0, c);
    } else {
      SubtractLowLimb(r, n);
    }
    SetOne(q);
  }

  // ---------------------------------------------------------------------
  // Leading ones at different positions: shift, compare and subtract

  /**
   * The state of the division loop: n_shifted holds nv * 2^total, and the
   * quotient so far times nv plus this number is the dividend ov.
   */
  ghost predicate Dividing(r: BigInt, ns: BigInt, q: BigInt, nv: nat, ov: nat, total: nat)
    reads r, r.elements, ns, ns.elements, q, q.elements
  {
    r.Valid() && ns.Valid() && q.Valid()
    && r.elements != ns.elements && r.elements != q.elements && ns.elements != q.elements
    && ns.elements.Length == r.elements.Length && q.elements.Length == r.elements.Length
    && ns.Value() == nv * Pow(2, total) && ov == q.Value() * nv + r.Value()
  }

  /** n_shifted starts as a copy of n: the same limbs and leading one. */
  method CopyOf(n: BigInt) returns (c: BigInt)
    requires n.Valid()
    ensures fresh(c) && fresh(c.elements) && c.Valid()
    ensures c.elements[..] == n.elements[..] && c.elementPos == n.elementPos && c.bitPos == n.bitPos
  {
    c := new BigInt.Uninitialized(n.elements.Length);
    CopyLimbs(n.elements, c.elements, n.elements.Length, 0);
    assert c.elements[..] == n.elements[..];
    c.elementPos, c.bitPos := n.elementPos, n.bitPos;
  }

  /**
   * n_shifted >>= k for 0 < k < 64, its leading one kept exact: the limbs up
   * to the leading limb are shifted, and the leading one moves to the limb
   * below when the leading limb runs empty.
   */
  method ShiftDownBits(x: BigInt, k: nat)
    requires x.Valid() && 0 < k < 64 && BitLength(x.Value()) > k
    modifies x, x.elements
    ensures x.Valid() && x.Value() == Shr(old(x.Value()), k)
    ensures BitLength(x.Value()) == BitLength(old(x.Value())) - k
    ensures x.elementPos <= old(x.elementPos)
  {
    ghost var o, v := x.elements[..], x.Value();
    x.TopBit();
    var p := x.elementPos;
    x.ShiftLimbsRight(p, k);
    ShiftRightWhole(o, x.elements[..], k, p);
    BitLengthShr(v, k);
    if x.bitPos > k {
      x.bitPos := x.bitPos - k;
    } else {
      BitLengthBounds(x.elements[p]);
      x.elementPos := p - 1;
      x.bitPos := 64 + x.bitPos - k;
    }
    LeadingLimbOf(x.elements[..], x.elementPos, x.bitPos);
  }

  /**
   * The element-wise shift of the realignment, with the vacated limbs
   * cleared: limb j becomes limb j + offset.
   */
  method MoveLimbsDown(x: BigInt, offset: nat)
    requires x.Valid() && 0 < offset <= x.elementPos
    modifies x, x.elements
    ensures x.Valid() && x.Value() == Shr(old(x.Value()), 64 * offset)
    ensures x.elementPos == old(x.elementPos) - offset && x.bitPos == old(x.bitPos)
  {
    ghost var o := x.elements[..];
    var p := x.elementPos;
    var idx := 0;
    while idx <= p - offset
      invariant idx <= p - offset + 1
      invariant x.elementPos == p && x.bitPos == old(x.bitPos)
      invariant forall j :: 0 <= j < idx ==> x.elements[j] == o[j + offset]
      invariant forall j :: idx <= j < x.elements.Length ==> x.elements[j] == o[j]
    {
      x.elements[idx] := x.elements[idx + offset];
      idx := idx + 1;
    }
    ZeroFill(x.elements, p - offset + 1, offset);
    x.elementPos := p - offset;
    MovedDown(o, x.elements[..], p, offset);
  }

  /** Moving the limbs down by offset divides the value by 2^(64 offset). */
  lemma MovedDown(o: seq<U64>, e: seq<U64>, p: nat, offset: nat)
    requires offset <= p < |o| == |e| && ZeroFrom(o, p + 1)
    requires forall j :: 0 <= j <= p - offset ==> e[j] == o[j + offset]
    requires ZeroFrom(e, p - offset + 1)
    ensures Val(e) == Shr(Val(o), 64 * offset) && e[p - offset] == o[p]
  {
    var m := p - offset + 1;
    var t := o[offset..];
    ValSplitAt(o, offset);
    ValBound(o[..offset]);
    LimbPow(offset);
    PowPositive(2, 64 * offset);
    DivModUnique(Val(o), Pow(2, 64 * offset), Val(t), Val(o[..offset]));
    ValZeroFrom(e, m);
    ValZeroFrom(t, m);
    assert e[..m] == t[..m];
  }

  /**
   * The realignment at the head of the do loop: n_shifted, holding
   * nv * 2^t, is shifted right by esa limbs and bsa bits.
   */
  method AlignDown(x: BigInt, esa: nat, bsa: nat, ghost nv: nat, ghost t: nat)
    requires x.Valid() && nv > 0 && x.Value() == nv * Pow(2, t)
    requires esa <= x.elementPos && bsa < 64 && 64 * esa + bsa <= t
    modifies x, x.elements
    ensures x.Valid() && x.Value() == nv * Pow(2, t - (64 * esa + bsa))
  {
    if esa != 0 {
      MoveLimbsDown(x, esa);
      ShrOfScaled(nv, t, 64 * esa);
    }
    if bsa != 0 {
      BitLengthScale(nv, t - 64 * esa);
      BitLengthBounds(nv);
      ShiftDownBits(x, bsa);
      ShrOfScaled(nv, t - 64 * esa, bsa);
    }
  }

  /**
   * The shift amounts of the realignment: the leading one of n_shifted,
   * which is above that of this number, is brought down to it when the
   * shift left in total allows; otherwise the division is over and this
   * number is below n.
   */
  method Realign(r: BigInt, ns: BigInt, ghost nv: nat, total: nat) returns (fits: bool, total': nat)
    requires r.Valid() && ns.Valid() && r.elements != ns.elements && nv > 0
    requires ns.Value() == nv * Pow(2, total) && 0 < r.Value() < ns.Value()
    modifies ns, ns.elements
    ensures ns.Valid() && ns.Value() == nv * Pow(2, total') && total' <= total
    ensures fits ==> ns.elementPos == r.elementPos && ns.bitPos == r.bitPos
    ensures fits ==> total' < total || r.Value() < ns.Value()
    ensures !fits ==> r.Value() < nv
  {
    r.TopBit();
    ns.TopBit();
    BitLengthMonotone(r.Value(), ns.Value());
    var esa, bsa := ShiftAmounts(r.elementPos, r.bitPos, ns.elementPos, ns.bitPos);
    var necessary := esa * 64 + bsa;
    BitLengthScale(nv, total);
    if total < necessary {
      BitLengthLess(r.Value(), nv);
      return false, total;
    }
    total' := total - necessary;
    BringDown(r, ns, esa, bsa, nv, total);
    fits := true;
  }

  /**
   * The element-wise and bit-wise right shifts of the realignment, after
   * which n_shifted's leading one is set to this number's.
   */
  method BringDown(r: BigInt, ns: BigInt, esa: nat, bsa: nat, ghost nv: nat, ghost total: nat)
    requires r.Valid() && ns.Valid() && r.elements != ns.elements && nv > 0
    requires ns.Value() == nv * Pow(2, total) && esa <= ns.elementPos && bsa < 64
    requires 64 * esa + bsa <= total
    requires BitLength(ns.Value()) - (64 * esa + bsa) == 64 * r.elementPos + r.bitPos && 1 <= r.bitPos
    modifies ns, ns.elements
    ensures ns.Valid() && ns.Value() == nv * Pow(2, total - (64 * esa + bsa))
    ensures ns.elementPos == r.elementPos && ns.bitPos == r.bitPos
  {
    BitLengthScale(nv, total);
    AlignDown(ns, esa, bsa, nv, total);
    BitLengthScale(nv, total - (64 * esa + bsa));
    ns.TopBit();
    PositionUnique(ns.elementPos, ns.bitPos, r.elementPos, r.bitPos);
    ns.elementPos, ns.bitPos := r.elementPos, r.bitPos;
  }

  /** A bit length 64 p + b with 1 <= b <= 64 names one limb and one bit. */
  lemma PositionUnique(p1: nat, b1: nat, p2: nat, b2: nat)
    requires 1 <= b1 <= 64 && 1 <= b2 <= 64 && 64 * p1 + b1 == 64 * p2 + b2
    ensures p1 == p2 && b1 == b2
  {
  }

  /**
   * element_shft_amount and bit_shft_amount: the distance from the leading
   * one at bit rBit of limb rPos up to the one at bit nBit of limb nPos, as
   * whole limbs and remaining bits.
   */
  method ShiftAmounts(rPos: nat, rBit: nat, nPos: nat, nBit: nat) returns (esa: nat, bsa: nat)
    requires 1 <= rBit <= 64 && 1 <= nBit <= 64 && 64 * rPos + rBit <= 64 * nPos + nBit
    ensures 64 * esa + bsa == (64 * nPos + nBit) - (64 * rPos + rBit)
    ensures esa <= nPos && bsa < 64
  {
    esa := nPos - rPos;
    if rBit < nBit {
      bsa := nBit - rBit;
    } else if rBit > nBit {
      esa := esa - 1;
      bsa := 64 + nBit - rBit;
    } else {
      bsa := 0;
    }
  }

  /** Exact match: *this is cleared and leading_one_pos set to {0, 0}. */
  method SetZero(r: BigInt)
    requires r.Valid()
    modifies r, r.elements
    ensures r.Valid() && r.Value() == 0 && r.elementPos == 0
  {
    ZeroFill(r.elements, 0, r.elementPos + 1);
    r.elementPos, r.bitPos := 0, 0;
    assert ZeroFrom(r.elements[..], 0);
    ValZeroFrom(r.elements[..], 0);
    assert r.elements[..][..0] == [];
  }

  /**
   * quotient.elements[t / 64] |= 1 << (t % 64) on a quotient whose bits up
   * to t are clear; on the first call the quotient is zero and its leading
   * one is set to bit t.
   */
  method SetQuotientBit(q: BigInt, t: nat, first: bool)
    requires q.Valid() && t < 64 * q.elements.Length
    requires first <==> q.Value() == 0
    requires Divides(Pow(2, t + 1), q.Value())
    modifies q, q.elements
    ensures q.Valid() && q.Value() == old(q.Value()) + Pow(2, t)
  {
    ghost var o := q.elements[..];
    q.TopBit();
    var i, b := t / 64, t % 64;
    if first {
      ValBelowZero(o, 0);
      q.elementPos := i;
      q.bitPos := b + 1;
    }
    SetBitLeading(o, t, q.elementPos, q.bitPos);
    SetBitValue(o, t);
    q.elements[i] := BitOr(q.elements[i], Shl(1, b));
    assert q.elements[..] == o[i := o[i] + Pow(2, b)];
  }

  /**
   * Setting bit t of a multiple of 2^(t+1) whose leading one is at bit bp of
   * limb p, or of zero with p and bp naming bit t: the leading one is then
   * at bit bp of limb p.
   */
  lemma SetBitLeading(o: seq<U64>, t: nat, p: nat, bp: nat)
    requires t / 64 < |o| && Divides(Pow(2, t + 1), Val(o)) && p < |o| && ZeroFrom(o, p + 1)
    requires Val(o) == 0 ==> p == t / 64 && bp == t % 64 + 1
    requires Val(o) > 0 ==> BitLength(Val(o)) == 64 * p + bp && 1 <= bp <= 64
    ensures t / 64 <= p && o[t / 64] + Pow(2, t % 64) < TWO64
    ensures var e := o[t / 64 := o[t / 64] + Pow(2, t % 64)];
      ZeroFrom(e, p + 1) && (p > 0 ==> e[p] != 0) && BitLength(e[p]) == bp
  {
    SetBitValue(o, t);
    SetLeadingAt(o, o[t / 64 := o[t / 64] + Pow(2, t % 64)], t, t / 64, t % 64, p, bp);
  }

  /** SetBitLeading with the limb i and bit b of t named, and e the limbs after the update. */
  lemma SetLeadingAt(o: seq<U64>, e: seq<U64>, t: nat, i: nat, b: nat, p: nat, bp: nat)
    requires t == 64 * i + b && b < 64 && i < |o| == |e| && e == o[i := e[i]]
    requires Val(e) == Val(o) + Pow(2, t) && Divides(Pow(2, t + 1), Val(o))
    requires p < |o| && ZeroFrom(o, p + 1)
    requires Val(o) == 0 ==> p == i && bp == b + 1
    requires Val(o) > 0 ==> BitLength(Val(o)) == 64 * p + bp && 1 <= bp <= 64
    ensures i <= p && ZeroFrom(e, p + 1) && (p > 0 ==> e[p] != 0) && BitLength(e[p]) == bp
  {
    if Val(o) == 0 {
      BitLengthOfPow(t);
    } else {
      WithBitLength(Val(o), t);
      LimbIndexBelow(i, b, p, bp);
    }
    ZeroFromUpdate(o, i, e[i], p + 1, p + 1);
    LeadingLimbOf(e, p, bp);
  }

  /** Bit b of limb i lies below the leading one at bit bp of limb p. */
  lemma LimbIndexBelow(i: nat, b: nat, p: nat, bp: nat)
    requires b < 64 && bp <= 64 && 64 * i + b + 2 <= 64 * p + bp
    ensures i <= p
  {
  }

  /** x is a multiple of m * d, with d > 0 and m > 0, so a multiple of d. */
  lemma DividesFactor(d: nat, m: nat, x: nat)
    requires d > 0 && m > 0 && x % (m * d) == 0
    ensures x % d == 0
  {
    var k := x / (m * d);
    assert x == (k * m) * d;
    MulDivCancel(k * m, 0, d);
  }

  /** A multiple of 2^a is a multiple of 2^b for b <= a. */
  lemma PowDividesLower(a: nat, b: nat, x: nat)
    requires b <= a && Divides(Pow(2, a), x)
    ensures Divides(Pow(2, b), x)
  {
    PowAdd(2, a - b, b);
    PowPositive(2, b);
    PowPositive(2, a - b);
    DividesFactor(Pow(2, b), Pow(2, a - b), x);
  }

  /** Setting the clear bit t of a multiple of 2^(t+1) leaves a multiple of 2^t. */
  lemma BitAdded(x: nat, t: nat)
    requires Divides(Pow(2, t + 1), x)
    ensures Divides(Pow(2, t), x + Pow(2, t))
  {
    var d := Pow(2, t);
    PowPositive(2, t);
    assert Pow(2, t + 1) == 2 * d;
    var k := x / (2 * d);
    assert x + d == (2 * k + 1) * d;
    MulDivCancel(2 * k + 1, 0, d);
  }

  /** The limb holding bit 64 i + b of a multiple of 2^(64 i + b + 1), as plain arithmetic. */
  lemma LimbDivisibleArith(v: nat, l: nat, x: nat, h: nat, a: nat, m: nat, w: nat)
    requires a > 0 && m > 0 && w > 0 && l < a && x < m * w
    requires v == l + x * a + h * ((m * w) * a) && v % (a * m) == 0
    ensures x % m == 0 && x + m <= m * w
  {
    var c, y := x % m, x / m;
    Regroup(v, l, x, h, a, m, w, c, y);
    LowPartBelow(l, c, a, m);
    DivModUnique(v, a * m, y + h * w, l + c * a);
    NoLowPart(l, c, a);
    QuotientBelow(x, y, m, w);
  }

  /** l + x a + h m w a regrouped around the multiple a m, for x = y m + c. */
  lemma Regroup(v: nat, l: nat, x: nat, h: nat, a: nat, m: nat, w: nat, c: nat, y: nat)
    requires m > 0 && c == x % m && y == x / m && v == l + x * a + h * ((m * w) * a)
    ensures v == (l + c * a) + (y + h * w) * (a * m)
  {
    assert x == y * m + c;
    assert x * a == y * (a * m) + c * a;
    assert h * ((m * w) * a) == (h * w) * (a * m);
  }

  lemma LowPartBelow(l: nat, c: nat, a: nat, m: nat)
    requires l < a && c < m
    ensures l + c * a < a * m
  {
    MulLe(c, a, m - 1, a);
  }

  lemma NoLowPart(l: nat, c: nat, a: nat)
    requires a > 0 && l + c * a == 0
    ensures c == 0
  {
    if c > 0 {
      MulLe(1, a, c, a);
    }
  }

  lemma QuotientBelow(x: nat, y: nat, m: nat, w: nat)
    requires m > 0 && w > 0 && x < m * w && x % m == 0 && y == x / m
    ensures x + m <= m * w
  {
    assert x == y * m;
    assert y < w by {
      if y >= w {
        MulLe(w, m, y, m);
      }
    }
    MulLe(y, m, w - 1, m);
  }

  /**
   * The limb holding bit t of a multiple of 2^(t+1) is a multiple of
   * 2^(t%64+1), so setting bit t%64 in it neither carries nor overflows.
   */
  lemma LimbDivisible(o: seq<U64>, i: nat, b: nat)
    requires i < |o| && b < 64 && Divides(Pow(2, 64 * i + b + 1), Val(o))
    ensures Divides(Pow(2, b + 1), o[i]) && o[i] + Pow(2, b + 1) <= TWO64
  {
    LimbPow(i);
    PowAdd(2, 64 * i, b + 1);
    PowAdd(2, b + 1, 63 - b);
    WordPowersOfTwo();
    PowPositive(TWO64, i);
    PowPositive(2, b + 1);
    PowPositive(2, 63 - b);
    ValSplit(o, i);
    ValBound(o[..i]);
    assert Pow(TWO64, i + 1) == TWO64 * Pow(TWO64, i);
    LimbDivisibleArith(Val(o), Val(o[..i]), o[i], Val(o[i + 1..]), Pow(TWO64, i), Pow(2, b + 1), Pow(2, 63 - b));
  }

  /**
   * Setting bit t of a multiple of 2^(t+1): limb t / 64 gains 2^(t % 64)
   * without a carry, and the value gains 2^t.
   */
  lemma SetBitValue(o: seq<U64>, t: nat)
    requires t / 64 < |o| && Divides(Pow(2, t + 1), Val(o))
    ensures o[t / 64] + Pow(2, t % 64) < TWO64
    ensures BitOr(o[t / 64], Shl(1, t % 64)) == o[t / 64] + Pow(2, t % 64)
    ensures Val(o[t / 64 := o[t / 64] + Pow(2, t % 64)]) == Val(o) + Pow(2, t)
  {
    var i, b := t / 64, t % 64;
    LimbDivisible(o, i, b);
    OneShifted(b);
    assert Pow(2, b + 1) == 2 * Pow(2, b);
    BitOrDisjoint(o[i], Pow(2, b), b + 1);
    ValUpdate(o, i, o[i] + Pow(2, b));
    LimbPow(i);
    PowAdd(2, 64 * i, b);
    assert Pow(2, b) * Pow(TWO64, i) == Pow(2, t) by {
      assert 64 * i + b == t;
    }
    UpdateArith(Val(o[i := o[i] + Pow(2, b)]), Val(o), o[i], Pow(2, b), Pow(TWO64, i), Pow(2, t));
  }

  lemma UpdateArith(ve: nat, vo: nat, x: nat, a: nat, p: nat, d: nat)
    requires ve + x * p == vo + (x + a) * p && a * p == d
    ensures ve == vo + d
  {
    assert (x + a) * p == x * p + a * p;
  }

  /** Below a multiple P of D, a multiple of D is at most P - D. */
  lemma MultipleBelow(v: nat, p: nat, d: nat)
    requires d > 0 && v % d == 0 && p % d == 0 && v < p
    ensures v + d <= p
  {
    var k, n := v / d, p / d;
    assert v == k * d && p == n * d;
    assert k < n by {
      if k >= n {
        MulLe(n, d, k, d);
      }
    }
    MulLe(k + 1, d, n, d);
  }

  /** Setting the clear bit t of a positive multiple of 2^(t+1) keeps its bit length. */
  lemma WithBitLength(v: nat, t: nat)
    requires v > 0 && Divides(Pow(2, t + 1), v)
    ensures BitLength(v + Pow(2, t)) == BitLength(v) >= t + 2
  {
    var d := Pow(2, t + 1);
    DivisibleAtLeast(v, d);
    BitLengthAtLeast(v, t + 1);
    BitLengthBounds(v);
    var m := BitLength(v);
    PowDividesPow(t + 1, m);
    MultipleBelow(v, Pow(2, m), d);
    assert d == 2 * Pow(2, t);
    BitLengthUnique(v + Pow(2, t), m);
  }

  /** 2^a divides 2^b for a <= b. */
  lemma PowDividesPow(a: nat, b: nat)
    requires a <= b
    ensures Pow(2, a) > 0 && Pow(2, b) % Pow(2, a) == 0
  {
    PowAdd(2, b - a, a);
    PowPositive(2, b - a);
    PowPositive(2, a);
    MulDivCancel(Pow(2, b - a), 0, Pow(2, a));
  }

  /** A positive multiple of d is at least d. */
  lemma DivisibleAtLeast(v: nat, d: nat)
    requires Divides(d, v) && v > 0
    ensures d <= v
  {
    assert v == (v / d) * d;
    MulLe(1, d, v / d, d);
  }

  /** A multiple of 2^t has zero limbs below limb t / 64. */
  lemma LowLimbsZero(s: seq<U64>, t: nat)
    requires t / 64 <= |s| && Divides(Pow(2, t), Val(s))
    ensures forall j :: 0 <= j < t / 64 ==> s[j] == 0
  {
    var h := t / 64;
    ValSplitAt(s, h);
    LimbPow(h);
    PowDividesLower(t, 64 * h, Val(s));
    ValBound(s[..h]);
    DivModUnique(Val(s), Pow(TWO64, h), Val(s[h..]), Val(s[..h]));
    ValBelowZero(s[..h], 0);
    assert forall j :: 0 <= j < h ==> s[j] == s[..h][j];
  }

  /** nv * 2^t fits below limb p + 1 only when t < 64 (p + 1). */
  lemma ShiftBelowTop(nv: nat, t: nat, rv: nat, p: nat)
    requires nv > 0 && nv * Pow(2, t) <= rv < Pow(TWO64, p + 1)
    ensures t < 64 * (p + 1)
  {
    MulLe(1, Pow(2, t), nv, Pow(2, t));
    LimbPow(p + 1);
    PowLessImpliesExpLess(2, t, 64 * (p + 1));
  }

  /** Two numbers with one bit length differ by less than a factor of two. */
  lemma SameLengthBelowDouble(a: nat, b: nat)
    requires b > 0 && BitLength(a) == BitLength(b)
    ensures a < 2 * b
  {
    BitLengthBounds(a);
    BitLengthBounds(b);
  }

  /** Moving nv * 2^t from the remainder to the quotient keeps the dividend. */
  lemma Accounting(ov: nat, qv: nat, nv: nat, rv: nat, p: nat)
    requires ov == qv * nv + rv && nv * p <= rv
    ensures ov == (qv + p) * nv + (rv - nv * p)
  {
  }

  /**
   * The subtraction of n_shifted, nv * 2^t, from a number with the same
   * leading limb position, less than twice n_shifted: limbs below t / 64 of
   * n_shifted are zero and those above c agree with this number's.
   */
  method SubtractShifted(r: BigInt, ns: BigInt, ghost nv: nat, t: nat, c: nat)
    requires r.Valid() && ns.Valid() && r.elements != ns.elements && ns.elements.Length == r.elements.Length
    requires nv > 0 && ns.Value() == nv * Pow(2, t) && ns.Value() < r.Value() < 2 * ns.Value()
    requires c <= r.elementPos && forall j :: c < j < r.elements.Length ==> ns.elements[j] == r.elements[j]
    modifies r, r.elements
    ensures r.Valid() && r.Value() == old(r.Value()) - ns.Value() && 0 < r.Value() < ns.Value()
  {
    r.TopBit();
    ShiftBelowTop(nv, t, r.Value(), r.elementPos);
    PowPositive(2, t);
    MulDivCancel(nv, 0, Pow(2, t));
    LowLimbsZero(ns.elements[..], t);
    PerformSubtraction(r, ns, t / 64, c);
  }

  /**
   * compare_and_subtract: n_shifted, nv * 2^total with its leading one at
   * that of this number, is halved first when it is the larger, which is
   * refused when no shift is left after the first call; the quotient gets
   * bit total; an exact match clears this number, anything else subtracts
   * n_shifted from it. The result says whether the division goes on.
   */
  method CompareAndSubtract(r: BigInt, ns: BigInt, q: BigInt, total: nat, first: bool, ghost nv: nat, ghost ov: nat)
    returns (more: bool, total': nat)
    requires Dividing(r, ns, q, nv, ov, total) && nv > 0 && r.Value() > 0
    requires ns.elementPos == r.elementPos && ns.bitPos == r.bitPos
    requires first ==> total > 0
    requires first <==> q.Value() == 0
    requires Divides(Pow(2, total), q.Value())
    requires ns.Value() <= r.Value() ==> Divides(Pow(2, total + 1), q.Value())
    modifies r, r.elements, ns, ns.elements, q, q.elements
    ensures Dividing(r, ns, q, nv, ov, total') && q.Value() > 0
    ensures Divides(Pow(2, total'), q.Value())
    ensures total' <= total && (more && old(r.Value()) < old(ns.Value()) ==> total' < total)
    ensures more ==> 0 < r.Value() < ns.Value()
    ensures !more ==> r.Value() < nv
  {
    var c, larger := CompareShifted(r, ns);
    if !larger {
      total' := total;
      more := RecordAndSubtract(r, ns, q, total, c, first, nv, ov);
    } else if !first && total == 0 {
      more, total' := false, total;
    } else {
      more, total' := HalveAndSubtract(r, ns, q, total, first, nv, ov);
    }
  }

  /** compare_and_subtract when n_shifted is the larger: halve it, then record and subtract. */
  method HalveAndSubtract(r: BigInt, ns: BigInt, q: BigInt, total: nat, first: bool, ghost nv: nat, ghost ov: nat)
    returns (more: bool, total': nat)
    requires Dividing(r, ns, q, nv, ov, total) && nv > 0
    requires ns.elementPos == r.elementPos && ns.bitPos == r.bitPos
    requires total > 0 && (first <==> q.Value() == 0)
    requires Divides(Pow(2, total), q.Value()) && r.Value() < ns.Value()
    modifies r, r.elements, ns, ns.elements, q, q.elements
    ensures Dividing(r, ns, q, nv, ov, total') && q.Value() > 0 && Divides(Pow(2, total'), q.Value())
    ensures total' < total
    ensures more ==> 0 < r.Value() < ns.Value()
    ensures !more ==> r.Value() == 0
  {
    total' := HalveShifted(r, ns, nv, total);
    assert total' + 1 == total;
    more := RecordAndSubtract(r, ns, q, total', r.elementPos, first, nv, ov);
  }

  /**
   * The comparison loop of compare_and_subtract, on two numbers whose
   * leading ones are at the same position: c is the first limb from the
   * top where they differ, -1 for none, and larger says n_shifted is the
   * larger one.
   */
  method CompareShifted(r: BigInt, ns: BigInt) returns (c: int, larger: bool)
    requires r.Valid() && ns.Valid() && ns.elements.Length == r.elements.Length
    requires ns.elementPos == r.elementPos && ns.bitPos == r.bitPos && r.Value() > 0
    ensures -1 <= c <= r.elementPos && forall j :: c < j < r.elements.Length ==> ns.elements[j] == r.elements[j]
    ensures larger <==> r.Value() < ns.Value()
    ensures !larger && c == -1 ==> ns.Value() == r.Value()
    ensures !larger && c >= 0 ==> ns.Value() < r.Value() < 2 * ns.Value()
  {
    r.TopBit();
    ns.TopBit();
    SameLengthBelowDouble(r.Value(), ns.Value());
    c := FirstDifference(ns.elements, r.elements, r.elementPos);
    AgreeAbove(ns.elements[..], r.elements[..], c, r.elementPos);
    larger := c >= 0 && ns.elements[c] > r.elements[c];
    if larger {
      ValLess(r.elements[..], ns.elements[..], c);
    } else if c >= 0 {
      ValLess(ns.elements[..], r.elements[..], c);
    } else {
      assert ns.elements[..] == r.elements[..];
    }
  }

  /**
   * The halving of n_shifted when it exceeds this number with its leading
   * one at the same position: afterwards it lies between half this number
   * and this number.
   */
  method HalveShifted(r: BigInt, ns: BigInt, ghost nv: nat, total: nat) returns (total': nat)
    requires r.Valid() && ns.Valid() && r.elements != ns.elements && ns.elements.Length == r.elements.Length
    requires ns.elementPos == r.elementPos && ns.bitPos == r.bitPos
    requires nv > 0 && total > 0 && ns.Value() == nv * Pow(2, total) && r.Value() < ns.Value()
    modifies ns, ns.elements
    ensures ns.Valid() && total' == total - 1 && ns.Value() == nv * Pow(2, total')
    ensures ns.Value() < r.Value() < 2 * ns.Value()
    ensures forall j :: r.elementPos < j < r.elements.Length ==> ns.elements[j] == r.elements[j]
  {
    ghost var rv, nsv := r.Value(), ns.Value();
    r.TopBit();
    ns.TopBit();
    BitLengthScale(nv, total);
    BitLengthBounds(nv);
    ShiftDownBits(ns, 1);
    ShrOfScaled(nv, total, 1);
    total' := total - 1;
    assert 2 * ns.Value() == nsv by {
      DoubleScaled(nv, total');
    }
    BitLengthLess(ns.Value(), rv);
  }

  lemma DoubleScaled(v: nat, k: nat)
    ensures 2 * (v * Pow(2, k)) == v * Pow(2, k + 1)
  {
    assert Pow(2, k + 1) == 2 * Pow(2, k);
  }

  /**
   * The tail of compare_and_subtract: bit t of the quotient is set, then an
   * exact match (c = -1) clears this number and otherwise n_shifted, which
   * agrees with this number above limb c, is subtracted.
   */
  method RecordAndSubtract(r: BigInt, ns: BigInt, q: BigInt, t: nat, c: int, first: bool, ghost nv: nat, ghost ov: nat)
    returns (more: bool)
    requires Dividing(r, ns, q, nv, ov, t) && nv > 0
    requires first <==> q.Value() == 0
    requires Divides(Pow(2, t + 1), q.Value())
    requires -1 <= c <= r.elementPos && forall j :: c < j < r.elements.Length ==> ns.elements[j] == r.elements[j]
    requires c == -1 ==> ns.Value() == r.Value()
    requires c >= 0 ==> ns.Value() < r.Value() < 2 * ns.Value()
    modifies r, r.elements, q, q.elements
    ensures Dividing(r, ns, q, nv, ov, t) && q.Value() > 0 && Divides(Pow(2, t), q.Value())
    ensures more ==> 0 < r.Value() < ns.Value()
    ensures !more ==> r.Value() == 0
  {
    ghost var rv, qv := r.Value(), q.Value();
    r.TopBit();
    ShiftBelowTop(nv, t, rv, r.elementPos);
    SetQuotientBit(q, t, first);
    BitAdded(qv, t);
    Accounting(ov, qv, nv, rv, Pow(2, t));
    if c == -1 {
      SetZero(r);
      return false;
    }
    SubtractShifted(r, ns, nv, t, c);
    more := true;
  }

  /**
   * long_division: this number becomes the remainder of its division by n,
   * and the quotient is returned.
   */
  method LongDivision(r: BigInt, n: BigInt) returns (q: BigInt)
    requires r.Valid() && n.Valid() && n.Value() != 0
    requires r.elements != n.elements && r.elements.Length == n.elements.Length
    modifies r, r.elements
    ensures fresh(q) && fresh(q.elements) && q.Valid() && r.Valid()
    ensures old(r.Value()) == q.Value() * n.Value() + r.Value() && r.Value() < n.Value()
  {
    ghost var ov, nv := r.Value(), n.Value();
    q := new BigInt(r.elements.Length, 0);
    r.TopBit();
    n.TopBit();
    if r.elementPos < n.elementPos || (r.elementPos == n.elementPos && r.bitPos < n.bitPos) {
      BitLengthLess(ov, nv);
      return;
    }
    DivideAtLeast(r, n, q);
  }

  /** long_division once the leading one of this number is not below that of n. */
  method DivideAtLeast(r: BigInt, n: BigInt, q: BigInt)
    requires r.Valid() && n.Valid() && q.Valid() && q.Value() == 0 && q.elementPos == 0 && n.Value() != 0
    requires r.elements != n.elements && r.elements != q.elements && n.elements != q.elements
    requires r.elements.Length == n.elements.Length == q.elements.Length
    requires n.elementPos < r.elementPos || (n.elementPos == r.elementPos && n.bitPos <= r.bitPos)
    modifies r, r.elements, q, q.elements
    ensures r.Valid() && q.Valid()
    ensures old(r.Value()) == q.Value() * n.Value() + r.Value() && r.Value() < n.Value()
  {
    if r.elementPos == n.elementPos && r.bitPos == n.bitPos {
      DivideSameTop(r, n, q);
    } else {
      DivideShifted(r, n, q);
    }
  }

  /**
   * The branches of long_division where the leading one of this number is
   * above that of n: n_shifted is n aligned to this number's leading one,
   * then compare_and_subtract runs once and again after each realignment.
   */
  method DivideShifted(r: BigInt, n: BigInt, q: BigInt)
    requires r.Valid() && n.Valid() && q.Valid() && q.Value() == 0 && n.Value() != 0
    requires r.elements != n.elements && r.elements != q.elements && n.elements != q.elements
    requires r.elements.Length == n.elements.Length == q.elements.Length
    requires n.elementPos < r.elementPos || (n.elementPos == r.elementPos && n.bitPos < r.bitPos)
    modifies r, r.elements, q, q.elements
    ensures r.Valid() && q.Valid()
    ensures old(r.Value()) == q.Value() * n.Value() + r.Value() && r.Value() < n.Value()
  {
    ghost var ov, nv := r.Value(), n.Value();
    var ns, total := ShiftedCopy(r, n);
    PowPositive(2, total);
    PowPositive(2, total + 1);
    var more;
    more, total := CompareAndSubtract(r, ns, q, total, true, nv, ov);
    RealignLoop(r, ns, q, total, more, nv, ov);
  }

  /**
   * n_shifted: a copy of n shifted left by total bits so that its leading
   * one is at that of this number, which is above n's.
   */
  method ShiftedCopy(r: BigInt, n: BigInt) returns (ns: BigInt, total: nat)
    requires r.Valid() && n.Valid() && n.Value() != 0 && r.elements.Length == n.elements.Length
    requires n.elementPos < r.elementPos || (n.elementPos == r.elementPos && n.bitPos < r.bitPos)
    ensures fresh(ns) && fresh(ns.elements) && ns.Valid() && ns.elements.Length == r.elements.Length
    ensures ns.elementPos == r.elementPos && ns.bitPos == r.bitPos
    ensures total > 0 && ns.Value() == n.Value() * Pow(2, total) && r.Value() > 0
  {
    r.TopBit();
    n.TopBit();
    ns := CopyOf(n);
    total := ns.AlignLeading(r.elementPos, r.bitPos);
  }

  /** The do loop of long_division: realign, then compare and subtract. */
  method RealignLoop(r: BigInt, ns: BigInt, q: BigInt, total0: nat, more0: bool, ghost nv: nat, ghost ov: nat)
    requires Dividing(r, ns, q, nv, ov, total0) && q.Value() > 0 && nv > 0
    requires Divides(Pow(2, total0), q.Value())
    requires more0 ==> 0 < r.Value() < ns.Value()
    requires !more0 ==> r.Value() < nv
    modifies r, r.elements, ns, ns.elements, q, q.elements
    ensures r.Valid() && q.Valid() && ov == q.Value() * nv + r.Value() && r.Value() < nv
  {
    var total, more := total0, more0;
    while more
      invariant Dividing(r, ns, q, nv, ov, total) && q.Value() > 0
      invariant Divides(Pow(2, total), q.Value())
      invariant more ==> 0 < r.Value() < ns.Value()
      invariant !more ==> r.Value() < nv
      decreases total, if more then 1 else 0
    {
      ghost var before := total;
      var fits;
      fits, total := Realign(r, ns, nv, total);
      if !fits {
        break;
      }
      PowDividesLower(before, total, q.Value());
      if ns.Value() <= r.Value() {
        PowDividesLower(before, total + 1, q.Value());
      }
      more, total := CompareAndSubtract(r, ns, q, total, false, nv, ov);
    }
  }

  // ---------------------------------------------------------------------
  // The two right shifts of n_shifted as the source writes them

  /**
   * An ascending in-place loop over limbs from..top that sets each limb to
   * (limb >> k) | (next limb << (64 - k)), and the top limb to limb >> k.
   */
  function ShiftRightFrom(s: seq<U64>, from: nat, top: nat, k: nat): (e: seq<U64>)
    requires from <= top < |s| && 0 < k < 64
    ensures |e| == |s|
    ensures forall j :: from <= j <= top ==> e[j] == RightLimb(s, j, top, k)
    ensures forall j :: 0 <= j < |s| && !(from <= j <= top) ==> e[j] == s[j]
    decreases top - from
  {
    if from == top then s[top := RightLimb(s, top, top, k)]
    else
      var e := ShiftRightFrom(s[from := RightLimb(s, from, top, k)], from + 1, top, k);
      assert forall j :: from < j <= top ==> RightLimb(s[from := RightLimb(s, from, top, k)], j, top, k) == RightLimb(s, j, top, k);
      e
  }

  /** An ascending in-place loop over limbs from..top that sets limb j to limb j + offset. */
  function MoveDownFrom(s: seq<U64>, from: nat, top: nat, offset: nat): (e: seq<U64>)
    requires from <= top + 1 && top + offset < |s|
    ensures |e| == |s|
    ensures forall j :: from <= j <= top ==> e[j] == s[j + offset]
    ensures forall j :: 0 <= j < |s| && !(from <= j <= top) ==> e[j] == s[j]
    decreases top + 1 - from
  {
    if from > top then s
    else MoveDownFrom(s[from := s[from + offset]], from + 1, top, offset)
  }

  /**
   * The halving of n_shifted in compare_and_subtract when
   * base_trailing_zeros is 0, as written: limb base - 1 is first set to
   * limb base << 63, and the loop from base - 1 then shifts it right by one
   * and ors limb base << 63 into it once more.
   */
  function HalveAsWritten(s: seq<U64>, base: nat, top: nat): seq<U64>
    requires 1 <= base <= top < |s|
  {
    ShiftRightFrom(s[base - 1 := Shl(s[base], 63)], base - 1, top, 1)
  }

  /**
   * The realignment of n_shifted in the do loop, as written: the element
   * shift moves limbs base..lpos only, and the bit shift then runs up to
   * the old leading limb npos of n_shifted, over limbs the element shift
   * left in place.
   */
  function RealignAsWritten(s: seq<U64>, base: nat, lpos: nat, npos: nat, esa: nat, bsa: nat): seq<U64>
    requires base <= lpos + 1 && lpos + esa < |s| && base <= npos < |s| && bsa < 64
  {
    var moved := if esa != 0 then MoveDownFrom(s, base, lpos, esa) else s;
    if bsa != 0 then ShiftRightFrom(moved, base, npos, bsa) else moved
  }

  /** Single-limb shifts used by the two counterexamples below. */
  lemma SmallShifts()
    ensures Shl(3, 63) == 0x8000_0000_0000_0000 && Shl(0, 63) == 0
    ensures ShrLimb(0x8000_0000_0000_0000, 1) == 0x4000_0000_0000_0000
    ensures ShrLimb(3, 1) == 1 && ShrLimb(0, 1) == 0
    ensures BitOr(0x4000_0000_0000_0000, 0x8000_0000_0000_0000) == 0xC000_0000_0000_0000
    ensures BitOr(1, 0x8000_0000_0000_0000) == 0x8000_0000_0000_0001
    ensures BitOr(0, 0x8000_0000_0000_0000) == 0x8000_0000_0000_0000
  {
    WordPowersOfTwo();
    assert Pow(2, 63) == 2 * Pow(2, 62);
    MulDivCancel(1, 0x8000_0000_0000_0000, TWO64);
    SmallOrs();
  }

  lemma SmallOrs()
    ensures BitOr(0x4000_0000_0000_0000, 0x8000_0000_0000_0000) == 0xC000_0000_0000_0000
    ensures BitOr(1, 0x8000_0000_0000_0000) == 0x8000_0000_0000_0001
  {
    WordPowersOfTwo();
    assert Pow(2, 63) == 2 * Pow(2, 62);
    assert Divides(Pow(2, 63), 0x8000_0000_0000_0000);
    BitOrDisjoint(0x8000_0000_0000_0000, 0x4000_0000_0000_0000, 63);
    BitOrDisjoint(0x8000_0000_0000_0000, 1, 63);
  }

  /**
   * *this = 2^65 and n = 3, three limbs: n_shifted = 3 * 2^64 exceeds
   * *this, and its halving as written gives 2^64 + 2^63 + 2^62 where
   * 3 * 2^63 = 2^64 + 2^63 is meant.
   */
  lemma HalvingSetsExtraBit()
    ensures HalveAsWritten([0, 3, 0], 1, 1) == [0xC000_0000_0000_0000, 1, 0]
    ensures Val([0, 3, 0]) == 3 * TWO64 && Shr(3 * TWO64, 1) == Val([0x8000_0000_0000_0000, 1, 0])
    ensures Val(HalveAsWritten([0, 3, 0], 1, 1)) == Val([0x8000_0000_0000_0000, 1, 0]) + 0x4000_0000_0000_0000
  {
    SmallShifts();
    var s := [0, 3, 0];
    var s1 := s[0 := Shl(3, 63)];
    var e := HalveAsWritten(s, 1, 1);
    assert e[0] == RightLimb(s1, 0, 1, 1) == 0xC000_0000_0000_0000;
    assert e[1] == RightLimb(s1, 1, 1, 1) == 1;
    assert e == [0xC000_0000_0000_0000, 1, 0];
    ThreeLimbs(0xC000_0000_0000_0000, 1, 0);
    ThreeLimbs(0x8000_0000_0000_0000, 1, 0);
    ThreeLimbs(0, 3, 0);
    WordPowersOfTwo();
    assert 3 * TWO64 == (0x8000_0000_0000_0000 + TWO64) * 2;
    MulDivCancel(0x8000_0000_0000_0000 + TWO64, 0, 2);
    assert Pow(2, 1) == 2;
  }

  /**
   * *this = 3 * 2^128 + 2^64 and n = 3, three limbs: after the first
   * subtraction *this is 2^64 and n_shifted, 3 * 2^128, is to come down by
   * 65 bits to 3 * 2^63. As written, limb 2 is never cleared and the bit
   * shift ors it into limb 1.
   */
  lemma RealignKeepsStaleLimb()
    ensures RealignAsWritten([0, 0, 3], 0, 1, 2, 1, 1) == [0x8000_0000_0000_0000, 0x8000_0000_0000_0001, 1]
    ensures Shr(Val([0, 0, 3]), 65) == Val([0x8000_0000_0000_0000, 1, 0])
  {
    SmallShifts();
    var s := [0, 0, 3];
    var m := MoveDownFrom(s, 0, 1, 1);
    assert m == [0, 3, 3];
    var e := RealignAsWritten(s, 0, 1, 2, 1, 1);
    assert e == ShiftRightFrom(m, 0, 2, 1);
    assert e[0] == RightLimb(m, 0, 2, 1) == 0x8000_0000_0000_0000;
    assert e[1] == RightLimb(m, 1, 2, 1) == 0x8000_0000_0000_0001;
    assert e[2] == RightLimb(m, 2, 2, 1) == 1;
    assert e == [0x8000_0000_0000_0000, 0x8000_0000_0000_0001, 1];
    ThreeLimbs(0, 0, 3);
    ThreeLimbs(0x8000_0000_0000_0000, 1, 0);
    WordPowersOfTwo();
    PowAdd(2, 64, 1);
    PowAdd(2, 63, 65);
    assert Pow(2, 128) == TWO64 * TWO64 by {
      PowAdd(2, 64, 64);
    }
    assert Val([0, 0, 3]) == (0x8000_0000_0000_0000 + TWO64) * Pow(2, 65);
    MulDivCancel(0x8000_0000_0000_0000 + TWO64, 0, Pow(2, 65));
  }

  /** The value of three limbs. */
  lemma ThreeLimbs(a: U64, b: U64, c: U64)
    ensures Val([a, b, c]) == a + b * TWO64 + c * TWO64 * TWO64
  {
    var s := [a, b, c];
    ValPrefix(s, 2);
    ValPrefix(s, 1);
    ValPrefix(s, 0);
    assert s[..3] == s;
    assert s[..0] == [];
    assert Pow(TWO64, 2) == TWO64 * TWO64;
  }
}
