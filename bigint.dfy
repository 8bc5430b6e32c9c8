/**
 * bigint_impl of bigint.h: a fixed-size array of 64-bit limbs, least
 * significant first, with a cached position of the leading one bit
 * (leading_one_pos: the index of the top nonzero limb and the bit length of
 * that limb). Every operation rewrites the limbs and the cached position in
 * place. The array size is the template parameter array_size, here the
 * length of the limb array.
 */
module BigIntImpl {
  import opened Arith
  import opened WideMul
  import opened LimbValues

  /** One step of log2p1: if x >> shft is nonzero, move shft bits of x into ret. */
  method Inspect(x: U64, ret: nat, shft: nat) returns (x': U64, ret': nat)
    requires 0 < shft <= 32 && x < Pow(2, 2 * shft)
    ensures x' < Pow(2, shft)
    ensures ret' + BitLength(x') == ret + BitLength(x)
  {
    var y := ShrLimb(x, shft);
    assert BitLength(y) == if BitLength(x) >= shft then BitLength(x) - shft else 0 by {
      BitLengthShr(x, shft);
    }
    assert y == 0 <==> BitLength(y) == 0 by {
      BitLengthBounds(y);
    }
    if y != 0 {
      assert y < Pow(2, shft) by {
        PowPositive(2, shft);
        PowAdd(2, shft, shft);
        DivUpperBound(x, Pow(2, shft), Pow(2, shft));
      }
      x', ret' := y, ret + shft;
    } else {
      assert x < Pow(2, shft) by {
        BitLengthBelow(x, shft);
      }
      x', ret' := x, ret;
    }
  }

  /** log2p1: the number of binary digits of x, found by halving the search width. */
  method Log2p1(x: U64) returns (n: nat)
    ensures n == BitLength(x) && n <= 64
    ensures x == 0 ==> n == 0
    ensures x > 0 ==> Pow(2, n - 1) <= x < Pow(2, n)
  {
    WordPowersOfTwo();
    var y, ret := x, 0;
    y, ret := Inspect(y, ret, 32);
    y, ret := Inspect(y, ret, 16);
    y, ret := Inspect(y, ret, 8);
    y, ret := Inspect(y, ret, 4);
    y, ret := Inspect(y, ret, 2);
    y, ret := Inspect(y, ret, 1);
    assert BitLength(y) == y;
    n := ret + y;
    BitLengthBounds(x);
    BitLengthOfLimb(x);
  }

  class BigInt {
    /** elements: the limbs, least significant first. */
    const elements: array<U64>
    /** leading_one_pos.element_pos: the index of the top nonzero limb. */
    var elementPos: nat
    /** leading_one_pos.bit_pos: the bit length of that limb, 0 only for zero. */
    var bitPos: nat

    /** The limbs above elementPos are zero. */
    ghost predicate Limbs()
      reads this, elements
    {
      1 <= elements.Length && elementPos < elements.Length && bitPos <= 64
      && ZeroFrom(elements[..], elementPos + 1)
    }

    /** elementPos is the top nonzero limb, or 0 for zero. */
    ghost predicate Normalized()
      reads this, elements
    {
      Limbs() && (elementPos > 0 ==> elements[elementPos] != 0)
    }

    /** The cached leading one position is exact. */
    ghost predicate Valid()
      reads this, elements
    {
      Normalized() && bitPos == BitLength(elements[elementPos])
    }

    ghost function Value(): nat
      reads elements
    {
      Val(elements[..])
    }

    /** leading_one_pos names the highest set bit of the value. */
    lemma TopBit()
      requires Valid()
      ensures BitLength(Value()) == 64 * elementPos + bitPos
      ensures Value() < Pow(TWO64, elementPos + 1)
      ensures elementPos > 0 ==> Pow(TWO64, elementPos) <= Value()
      ensures Value() == 0 <==> bitPos == 0
    {
      var s := elements[..];
      ValBitLength(s, elementPos);
      ValTop(s, elementPos);
      if elementPos > 0 {
        MulLe(1, Pow(TWO64, elementPos), s[elementPos], Pow(TWO64, elementPos));
      }
      BitLengthBounds(Val(s));
    }

    /** bigint_impl(): the limbs and the leading one position are left indeterminate. */
    constructor Uninitialized(size: nat)
      requires size >= 1
      ensures fresh(elements) && elements.Length == size
    {
      elements := new U64[size];
    }

    /** bigint_impl(element_type x): the value x in limb 0, zeros above. */
    constructor (size: nat, x: U64)
      requires size >= 1
      ensures fresh(elements) && elements.Length == size
      ensures Valid() && Value() == x
      ensures elementPos == 0 && bitPos == BitLength(x)
    {
      var a := new U64[size];
      a[0] := x;
      var i := 1;
      while i < size
        invariant 1 <= i <= size && a[0] == x
        invariant forall j :: 1 <= j < i ==> a[j] == 0
      {
        a[i] := 0;
        i := i + 1;
      }
      var n := Log2p1(x);
      elements := a;
      elementPos, bitPos := 0, n;
      new;
      ValSingle(elements[..], 0);
    }

    /** power_of_2(exp): the value 2^exp; exp must fit in the array. */
    static method PowerOf2(size: nat, exp: nat) returns (r: BigInt)
      requires size >= 1 && exp < size * 64
      ensures fresh(r) && fresh(r.elements) && r.elements.Length == size
      ensures r.Valid() && r.Value() == Pow(2, exp)
      ensures r.elementPos == exp / 64 && r.bitPos == exp % 64 + 1
    {
      r := new BigInt.Uninitialized(size);
      var i := 0;
      while i < size
        invariant 0 <= i <= size
        invariant forall j :: 0 <= j < i ==> r.elements[j] == 0
      {
        r.elements[i] := 0;
        i := i + 1;
      }
      r.elementPos := exp / 64;
      r.bitPos := exp % 64 + 1;
      OneShifted(r.bitPos - 1);
      r.elements[r.elementPos] := Shl(1, r.bitPos - 1);
      ValSingle(r.elements[..], r.elementPos);
      BitLengthOfPow(exp % 64);
      LimbPow(exp / 64);
      PowAdd(2, exp % 64, 64 * (exp / 64));
    }

    /** The carry loop of operator++: limbs that wrap to zero pass the carry up. */
    method PropagateCarry() returns (idx: nat)
      requires Valid() && Value() + 1 < Pow(TWO64, elements.Length)
      modifies elements
      ensures 1 <= idx <= elements.Length
      ensures Value() == old(Value()) + 1
      ensures forall j :: 0 <= j < idx - 1 ==> elements[j] == 0 && old(elements[j]) == TWO64 - 1
      ensures elements[idx - 1] == old(elements[idx - 1]) as int + 1
      ensures forall j :: idx <= j < elements.Length ==> elements[j] == old(elements[j])
    {
      ghost var o, v0 := elements[..], Value();
      idx := 0;
      var carry := 1;
      while carry != 0
        invariant CarryInv(o, elements[..], idx, carry, v0 + 1)
        decreases elements.Length - idx, carry
      {
        assert idx < elements.Length by {
          PowLessImpliesExpLess(TWO64, idx, elements.Length);
        }

        ghost var before := elements[..];
        var limb := (elements[idx] + 1) % TWO64;
        elements[idx] := limb;
        carry := if limb == 0 then 1 else 0;
        assert elements[..] == before[idx := limb];
        CarryInvStep(o, before, idx, limb, carry, v0 + 1);
        idx := idx + 1;
      }
    }

    /** operator++: add one, carrying through limbs that wrap to zero. */
    method Increment()
      requires Valid() && Value() + 1 < Pow(TWO64, elements.Length)
      modifies this, elements
      ensures Valid() && Value() == old(Value()) + 1
    {
      ghost var o, p0 := elements[..], elementPos;
      var idx := PropagateCarry();
      ghost var e := elements[..];
      IncrementTop(o, e, p0, idx);
      if idx == elementPos + 1 {
        bitPos := Log2p1(elements[elementPos]);
      } else if idx > elementPos + 1 {
        elementPos := elementPos + 1;
        bitPos := 1;
      }
    }

    /**
     * The limb loop of operator<<=: from limb top down to limb 1, each limb
     * becomes (limb << k) | (next lower limb >> (64 - k)); limb 0 is shifted last.
     */
    method ShiftLimbsLeft(top: nat, k: nat)
      requires top < elements.Length && 0 < k < 64
      modifies elements
      ensures forall j :: 0 <= j <= top ==> elements[j] == LeftLimb(old(elements[..]), j, k)
      ensures forall j :: top < j < elements.Length ==> elements[j] == old(elements[j])
    {
      ghost var o := elements[..];
      var idx: nat := top;
      while idx > 0
        invariant idx <= top < elements.Length == |o|
        invariant forall j :: idx < j <= top ==> elements[j] == LeftLimb(o, j, k)
        invariant forall j :: 0 <= j <= idx ==> elements[j] == o[j]
        invariant forall j :: top < j < elements.Length ==> elements[j] == o[j]
      {
        LeftJoin(o[idx], o[idx - 1], k);
        elements[idx] := Shl(elements[idx], k);
        elements[idx] := BitOr(elements[idx], ShrLimb(elements[idx - 1], 64 - k));
        idx := idx - 1;
      }
      elements[0] := Shl(elements[0], k);
    }

    /**
     * The limb loop of operator>>=: from limb 0 up to limb top - 1, each limb
     * becomes (limb >> k) | (next higher limb << (64 - k)); limb top is shifted last.
     */
    method ShiftLimbsRight(top: nat, k: nat)
      requires top < elements.Length && 0 < k < 64
      modifies elements
      ensures forall j :: 0 <= j <= top ==> elements[j] == RightLimb(old(elements[..]), j, top, k)
      ensures forall j :: top < j < elements.Length ==> elements[j] == old(elements[j])
    {
      ghost var o := elements[..];
      var idx := 0;
      while idx < top
        invariant idx <= top < elements.Length == |o|
        invariant forall j :: 0 <= j < idx ==> elements[j] == RightLimb(o, j, top, k)
        invariant forall j :: idx <= j < elements.Length ==> elements[j] == o[j]
      {
        RightJoin(o[idx], o[idx + 1], k);
        elements[idx] := ShrLimb(elements[idx], k);
        elements[idx] := BitOr(elements[idx], Shl(elements[idx + 1], 64 - k));
        idx := idx + 1;
      }
      elements[top] := ShrLimb(elements[top], k);
    }

    /**
     * operator<<=: multiply by 2^shft, where the leading limb has room for
     * shft more bits. The cached bit position grows by shft even for zero.
     */
    method ShiftLeft(shft: nat)
      requires Valid() && 0 < shft < 64 && shft + bitPos <= 64
      modifies this, elements
      ensures Limbs() && elementPos == old(elementPos) && bitPos == old(bitPos) + shft
      ensures Value() == old(Value()) * Pow(2, shft)
      ensures old(Value()) != 0 ==> Valid()
    {
      ghost var o := elements[..];
      bitPos := bitPos + shft;
      ShiftLimbsLeft(elementPos, shft);
      ShiftLeftWhole(o, elements[..], shft, elementPos);
      TopBitOf(o, elementPos);
    }

    /**
     * operator>>=: divide by 2^shft, rounding down, where the leading limb
     * holds at least shft bits. When it holds exactly shft bits the leading
     * limb becomes zero and elementPos is left where it was.
     */
    method ShiftRight(shft: nat)
      requires Valid() && 0 < shft < 64 && bitPos >= shft
      modifies this, elements
      ensures Limbs() && elementPos == old(elementPos) && bitPos == old(bitPos) - shft
      ensures Value() == Shr(old(Value()), shft)
      ensures bitPos == BitLength(elements[elementPos])
      ensures (bitPos != 0 || elementPos == 0) ==> Valid()
    {
      ghost var o := elements[..];
      bitPos := bitPos - shft;
      ShiftLimbsRight(elementPos, shft);
      ShiftRightWhole(o, elements[..], shft, elementPos);
      BitLengthBounds(elements[elementPos]);
    }

    /** The value is below 2^(64(elementPos+1)) and, above limb 0, at least 2^(64 elementPos). */
    lemma Bounds()
      requires Normalized()
      ensures Value() < Pow(TWO64, elementPos + 1)
      ensures elementPos > 0 ==> Pow(TWO64, elementPos) <= Value()
      ensures elementPos == 0 ==> Value() == elements[0]
    {
      var s := elements[..];
      ValTop(s, elementPos);
      if elementPos > 0 {
        MulLe(1, Pow(TWO64, elementPos), s[elementPos], Pow(TWO64, elementPos));
      } else {
        assert Val(s[..0]) == 0;
      }
    }

    /**
     * compare_common: 1 when this number is smaller than n, -1 when it is
     * larger, 0 when the two agree on every limb but limb 0, which is left
     * to the caller.
     */
    method CompareCommon(n: BigInt) returns (c: int)
      requires Normalized() && n.Normalized() && n.elements.Length == elements.Length
      ensures c == -1 || c == 0 || c == 1
      ensures c == 1 ==> Value() < n.Value()
      ensures c == -1 ==> Value() > n.Value()
      ensures c == 0 ==> Value() - elements[0] == n.Value() - n.elements[0]
    {
      Bounds();
      n.Bounds();
      if elementPos < n.elementPos {
        PowMonotone(TWO64, elementPos + 1, n.elementPos);
        return 1;
      } else if elementPos > n.elementPos {
        PowMonotone(TWO64, n.elementPos + 1, elementPos);
        return -1;
      }
      c := CompareFromTop(n);
    }

    /** The limb loop of compare_common on two numbers with the same leading limb index. */
    method CompareFromTop(n: BigInt) returns (c: int)
      requires Limbs() && n.Limbs() && n.elements.Length == elements.Length && elementPos == n.elementPos
      ensures c == -1 || c == 0 || c == 1
      ensures c == 1 ==> Value() < n.Value()
      ensures c == -1 ==> Value() > n.Value()
      ensures c == 0 ==> Value() - elements[0] == n.Value() - n.elements[0]
    {
      ghost var s, t := elements[..], n.elements[..];
      assert forall j :: elementPos < j < |s| ==> s[j] == t[j] == 0;
      var idx: nat := elementPos;
      while idx > 0
        invariant idx <= elementPos && |t| == |s|
        invariant forall j :: idx < j < |s| ==> s[j] == t[j]
      {
        if elements[idx] < n.elements[idx] {
          ValLess(s, t, idx);
          return 1;
        } else if elements[idx] > n.elements[idx] {
          ValLess(t, s, idx);
          return -1;
        }
        idx := idx - 1;
      }
      ValAboveZero(s, t);
      return 0;
    }

    /** operator< on two numbers. */
    method Less(n: BigInt) returns (r: bool)
      requires Normalized() && n.Normalized() && n.elements.Length == elements.Length
      ensures r <==> Value() < n.Value()
    {
      var c := CompareCommon(n);
      if c > 0 {
        return true;
      } else if c < 0 {
        return false;
      }
      r := elements[0] < n.elements[0];
    }

    /** operator<= on two numbers. */
    method LessEq(n: BigInt) returns (r: bool)
      requires Normalized() && n.Normalized() && n.elements.Length == elements.Length
      ensures r <==> Value() <= n.Value()
    {
      var c := CompareCommon(n);
      if c > 0 {
        return true;
      } else if c < 0 {
        return false;
      }
      r := elements[0] <= n.elements[0];
    }

    /** operator> on two numbers. */
    method Greater(n: BigInt) returns (r: bool)
      requires Normalized() && n.Normalized() && n.elements.Length == elements.Length
      ensures r <==> Value() > n.Value()
    {
      var c := CompareCommon(n);
      if c < 0 {
        return true;
      } else if c > 0 {
        return false;
      }
      r := elements[0] > n.elements[0];
    }

    /** operator>= on two numbers. */
    method GreaterEq(n: BigInt) returns (r: bool)
      requires Normalized() && n.Normalized() && n.elements.Length == elements.Length
      ensures r <==> Value() >= n.Value()
    {
      var c := CompareCommon(n);
      if c < 0 {
        return true;
      } else if c > 0 {
        return false;
      }
      r := elements[0] >= n.elements[0];
    }

    /** operator== on two numbers. */
    method Equal(n: BigInt) returns (r: bool)
      requires Normalized() && n.Normalized() && n.elements.Length == elements.Length
      ensures r <==> Value() == n.Value()
    {
      var c := CompareCommon(n);
      if c != 0 {
        return false;
      }
      r := elements[0] == n.elements[0];
    }

    /** operator!= on two numbers. */
    method NotEqual(n: BigInt) returns (r: bool)
      requires Normalized() && n.Normalized() && n.elements.Length == elements.Length
      ensures r <==> Value() != n.Value()
    {
      var c := CompareCommon(n);
      if c != 0 {
        return true;
      }
      r := elements[0] != n.elements[0];
    }

    /** operator< against a single limb: any number with a limb above limb 0 is larger. */
    method LessLimb(n: U64) returns (r: bool)
      requires Normalized()
      ensures r <==> Value() < n
    {
      Bounds();
      if elementPos != 0 {
        PowMonotone(TWO64, 1, elementPos);
        return false;
      }
      r := elements[0] < n;
    }

    /** operator<= against a single limb: any number with a limb above limb 0 is larger. */
    method LessEqLimb(n: U64) returns (r: bool)
      requires Normalized()
      ensures r <==> Value() <= n
    {
      Bounds();
      if elementPos != 0 {
        PowMonotone(TWO64, 1, elementPos);
        return false;
      }
      r := elements[0] <= n;
    }

    /** operator> against a single limb: any number with a limb above limb 0 is larger. */
    method GreaterLimb(n: U64) returns (r: bool)
      requires Normalized()
      ensures r <==> Value() > n
    {
      Bounds();
      if elementPos != 0 {
        PowMonotone(TWO64, 1, elementPos);
        return true;
      }
      r := elements[0] > n;
    }

    /** operator>= against a single limb: any number with a limb above limb 0 is larger. */
    method GreaterEqLimb(n: U64) returns (r: bool)
      requires Normalized()
      ensures r <==> Value() >= n
    {
      Bounds();
      if elementPos != 0 {
        PowMonotone(TWO64, 1, elementPos);
        return true;
      }
      r := elements[0] >= n;
    }

    /** operator== against a single limb: any number with a limb above limb 0 is larger. */
    method EqualLimb(n: U64) returns (r: bool)
      requires Normalized()
      ensures r <==> Value() == n
    {
      Bounds();
      if elementPos != 0 {
        PowMonotone(TWO64, 1, elementPos);
        return false;
      }
      r := elements[0] == n;
    }

    /** operator!= against a single limb: any number with a limb above limb 0 is larger. */
    method NotEqualLimb(n: U64) returns (r: bool)
      requires Normalized()
      ensures r <==> Value() != n
    {
      Bounds();
      if elementPos != 0 {
        PowMonotone(TWO64, 1, elementPos);
        return true;
      }
      r := elements[0] != n;
    }

    /**
     * add_common of operator+=, and the addition loop of multiply_5: for
     * limbs start..minIdx, add the carry and then the limb of src, carrying
     * out when either addition wraps.
     */
    method AddCommon(src: array<U64>, ghost o: seq<U64>, ghost nv: seq<U64>, start: nat, minIdx: nat, carry0: nat)
      returns (idx: nat, carry: nat)
      requires AddedUpTo(o, nv, elements[..], start, carry0) && 1 <= start <= minIdx + 1 <= elements.Length
      requires src.Length == elements.Length
      requires forall j :: start <= j < elements.Length ==> src[j] == nv[j]
      modifies elements
      ensures idx == minIdx + 1 && AddedUpTo(o, nv, elements[..], idx, carry)
      ensures forall j :: idx <= j < elements.Length ==> src[j] == nv[j]
    {
      idx, carry := start, carry0;
      while idx <= minIdx
        invariant start <= idx <= minIdx + 1
        invariant AddedUpTo(o, nv, elements[..], idx, carry)
        invariant forall j :: idx <= j < elements.Length ==> src[j] == nv[j]
      {
        ghost var before, c := elements[..], carry;
        var withCarry := (elements[idx] + carry) % TWO64;
        var firstCarry := if withCarry < elements[idx] then 1 else 0;
        var nElement := src[idx];
        elements[idx] := (withCarry + nElement) % TWO64;
        carry := if firstCarry != 0 || elements[idx] < nElement then 1 else 0;
        AddLimbs(before[idx], nElement, c, withCarry, elements[idx], carry);
        assert elements[..] == before[idx := elements[idx]];
        AddedStep(o, nv, before, idx, elements[idx], c, carry);
        idx := idx + 1;
      }
    }

    /**
     * The tail loop of operator+= when n has more limbs: limbs start..maxIdx
     * of this number are zero and become the limb of n plus the carry.
     */
    method CarryFrom(n: BigInt, ghost o: seq<U64>, ghost nv: seq<U64>, start: nat, maxIdx: nat, carry0: nat)
      returns (idx: nat, carry: nat)
      requires AddedUpTo(o, nv, elements[..], start, carry0) && 1 <= start <= maxIdx + 1 <= elements.Length
      requires n.elements.Length == elements.Length && ZeroFrom(o, start) && ZeroFrom(nv, maxIdx + 1)
      requires forall j :: start <= j < elements.Length ==> n.elements[j] == nv[j]
      modifies elements
      ensures idx == maxIdx + 1 && carry <= 1 && ZeroFrom(elements[..], idx)
      ensures carry == 0 ==> Value() == Val(o) + Val(nv) < Pow(TWO64, idx)
      ensures carry != 0 ==> Value() + Pow(TWO64, idx) == Val(o) + Val(nv) && Pow(TWO64, idx) <= Val(o) + Val(nv)
    {
      idx, carry := AddLimbsOf(n, o, nv, start, maxIdx, carry0);
      AddFinish(o, nv, elements[..], maxIdx, carry, Val(o) + Val(nv));
    }

    /** The loop of CarryFrom: limb idx becomes (n's limb idx + carry) mod 2^64. */
    method AddLimbsOf(n: BigInt, ghost o: seq<U64>, ghost nv: seq<U64>, start: nat, maxIdx: nat, carry0: nat)
      returns (idx: nat, carry: nat)
      requires AddedUpTo(o, nv, elements[..], start, carry0) && start <= maxIdx + 1 <= elements.Length
      requires n.elements.Length == elements.Length && ZeroFrom(o, start)
      requires forall j :: start <= j < elements.Length ==> n.elements[j] == nv[j]
      modifies elements
      ensures idx == maxIdx + 1 && AddedUpTo(o, nv, elements[..], idx, carry)
    {
      idx, carry := start, carry0;
      while idx <= maxIdx
        invariant start <= idx <= maxIdx + 1
        invariant AddedUpTo(o, nv, elements[..], idx, carry)
        invariant forall j :: idx <= j < elements.Length ==> n.elements[j] == nv[j]
      {
        ghost var before := elements[..];
        var limb: U64 := (n.elements[idx] + carry) % TWO64;
        var c2 := if limb < carry then 1 else 0;
        OneSidedCarry(o, nv, before, idx, nv[idx], limb, carry, c2);
        elements[idx] := limb;
        carry := c2;
        assert elements[..] == before[idx := limb];
        idx := idx + 1;
      }
    }

    /**
     * The tail loop of operator+= when this number has more limbs, and the
     * loop of operator+=(element_type): limbs start..maxIdx take the carry.
     */
    method CarryThrough(ghost o: seq<U64>, ghost nv: seq<U64>, start: nat, maxIdx: nat, carry0: nat)
      returns (idx: nat, carry: nat)
      requires AddedUpTo(o, nv, elements[..], start, carry0) && 1 <= start <= maxIdx + 1 <= elements.Length
      requires ZeroFrom(nv, start) && ZeroFrom(o, maxIdx + 1)
      modifies elements
      ensures idx == maxIdx + 1 && carry <= 1 && ZeroFrom(elements[..], idx)
      ensures carry == 0 ==> Value() == Val(o) + Val(nv) < Pow(TWO64, idx)
      ensures carry != 0 ==> Value() + Pow(TWO64, idx) == Val(o) + Val(nv) && Pow(TWO64, idx) <= Val(o) + Val(nv)
    {
      idx, carry := CarryLoop(o, nv, start, maxIdx, carry0);
      AddFinish(o, nv, elements[..], maxIdx, carry, Val(o) + Val(nv));
    }

    /** The loop of CarryThrough: limb idx becomes (limb idx + carry) mod 2^64. */
    method CarryLoop(ghost o: seq<U64>, ghost nv: seq<U64>, start: nat, maxIdx: nat, carry0: nat)
      returns (idx: nat, carry: nat)
      requires AddedUpTo(o, nv, elements[..], start, carry0) && start <= maxIdx + 1 <= elements.Length
      requires ZeroFrom(nv, start)
      modifies elements
      ensures idx == maxIdx + 1 && AddedUpTo(o, nv, elements[..], idx, carry)
    {
      idx, carry := start, carry0;
      while idx <= maxIdx
        invariant start <= idx <= maxIdx + 1
        invariant AddedUpTo(o, nv, elements[..], idx, carry)
      {
        ghost var before := elements[..];
        var limb: U64 := (elements[idx] + carry) % TWO64;
        var c2 := if limb < carry then 1 else 0;
        OneSidedCarry(o, nv, before, idx, before[idx], limb, carry, c2);
        elements[idx] := limb;
        carry := c2;
        assert elements[..] == before[idx := limb];
        idx := idx + 1;
      }
    }

    /**
     * A carry out of limb maxIdx, the leading limb: limb maxIdx + 1 becomes
     * the leading limb, holding 1.
     */
    method PushLeadingOne(maxIdx: nat, ghost total: nat)
      requires maxIdx < elements.Length && ZeroFrom(elements[..], maxIdx + 1)
      requires Value() + Pow(TWO64, maxIdx + 1) == total < Pow(TWO64, elements.Length)
      modifies this, elements
      ensures Valid() && Value() == total && elementPos == maxIdx + 1 && bitPos == 1
    {
      assert maxIdx + 1 < elements.Length by {
        PowLessImpliesExpLess(TWO64, maxIdx + 1, elements.Length);
      }

      ghost var before := elements[..];
      elementPos := maxIdx + 1;
      bitPos := 1;
      elements[elementPos] := 1;
      assert elements[..] == before[elementPos := 1];
      NewTopLimb(before, elementPos, total);
    }

    /**
     * set_leading_one_pos of operator+=: a carry out of limb maxIdx becomes a
     * new leading limb 1; otherwise limb maxIdx is the leading limb.
     */
    method SetLeadingOnePos(maxIdx: nat, carry: nat, ghost total: nat)
      requires maxIdx < elements.Length && carry <= 1 && ZeroFrom(elements[..], maxIdx + 1)
      requires carry != 0 ==> Value() + Pow(TWO64, maxIdx + 1) == total < Pow(TWO64, elements.Length)
      requires carry == 0 ==> Value() == total
      requires maxIdx > 0 ==> Pow(TWO64, maxIdx) <= total
      modifies this, elements
      ensures Valid() && Value() == total
      ensures elementPos == if carry != 0 then maxIdx + 1 else maxIdx
    {
      if carry != 0 {
        PushLeadingOne(maxIdx, total);
      } else {
        assert maxIdx > 0 ==> elements[maxIdx] != 0 by {
          if maxIdx > 0 {
            TopNonzero(elements[..], maxIdx);
          }
        }
        elementPos := maxIdx;
        bitPos := Log2p1(elements[maxIdx]);
      }
    }

    /** operator+=: add n, which may be this number itself. */
    method AddAssign(n: BigInt)
      requires Normalized() && n.Normalized() && n.elements.Length == elements.Length
      requires Value() + n.Value() < Pow(TWO64, elements.Length)
      modifies this, elements
      ensures Valid() && Value() == old(Value()) + old(n.Value())
    {
      ghost var o, nv, total := elements[..], n.elements[..], Value() + n.Value();
      var pos, nPos := elementPos, n.elementPos;
      ghost var top := if pos < nPos then nPos else pos;
      assert top > 0 ==> Pow(TWO64, top) <= total by {
        Bounds();
        n.Bounds();
      }
      assert ZeroFrom(o, pos + 1) && ZeroFrom(nv, nPos + 1) && total == Val(o) + Val(nv);
      var carry := AddFirstLimb(n.elements[0], o, nv);
      if pos < nPos {
        AddIntoLonger(n, o, nv, carry, pos, nPos, total);
      } else {
        AddIntoShorter(n, o, nv, carry, nPos, pos, total);
      }
    }

    /** The first limb of both additions: add the limb and note whether it wrapped. */
    method AddFirstLimb(nElement: U64, ghost o: seq<U64>, ghost nv: seq<U64>) returns (carry: nat)
      requires elements[..] == o && |nv| == |o| && 0 < |o| && nv[0] == nElement
      modifies elements
      ensures AddedUpTo(o, nv, elements[..], 1, carry)
    {
      elements[0] := (elements[0] + nElement) % TWO64;
      carry := if elements[0] < nElement then 1 else 0;
      assert elements[..] == o[0 := elements[0]];
      AddedFirst(o, nv, elements[0], carry);
    }

    /** operator+= when n has more limbs than this number. */
    method AddIntoLonger(n: BigInt, ghost o: seq<U64>, ghost nv: seq<U64>, carry0: nat, pos: nat, nPos: nat, ghost total: nat)
      requires pos < nPos < elements.Length == n.elements.Length
      requires AddedUpTo(o, nv, elements[..], 1, carry0)
      requires ZeroFrom(o, pos + 1) && ZeroFrom(nv, nPos + 1) && total == Val(o) + Val(nv)
      requires total < Pow(TWO64, elements.Length) && Pow(TWO64, nPos) <= total
      requires forall j :: 1 <= j < elements.Length ==> n.elements[j] == nv[j]
      modifies this, elements
      ensures Valid() && Value() == total
    {
      var idx, carry := AddCommon(n.elements, o, nv, 1, pos, carry0);
      idx, carry := CarryFrom(n, o, nv, idx, nPos, carry);
      SetLeadingOnePos(nPos, carry, total);
    }

    /** operator+= when this number has at least as many limbs as n. */
    method AddIntoShorter(n: BigInt, ghost o: seq<U64>, ghost nv: seq<U64>, carry0: nat, nPos: nat, pos: nat, ghost total: nat)
      requires nPos <= pos < elements.Length == n.elements.Length
      requires AddedUpTo(o, nv, elements[..], 1, carry0)
      requires ZeroFrom(o, pos + 1) && ZeroFrom(nv, nPos + 1) && total == Val(o) + Val(nv)
      requires total < Pow(TWO64, elements.Length) && (pos > 0 ==> Pow(TWO64, pos) <= total)
      requires forall j :: 1 <= j < elements.Length ==> n.elements[j] == nv[j]
      modifies this, elements
      ensures Valid() && Value() == total
    {
      var idx, carry := AddCommon(n.elements, o, nv, 1, nPos, carry0);
      idx, carry := CarryThrough(o, nv, idx, pos, carry);
      SetLeadingOnePos(pos, carry, total);
    }

    /**
     * operator+=(element_type): add one limb. A new leading limb is made only
     * on a carry out of the leading limb; otherwise the cached bit position
     * is left as it was, even when the leading limb grew.
     */
    method AddLimb(n: U64)
      requires Normalized() && Value() + n < Pow(TWO64, elements.Length)
      modifies this, elements
      ensures Normalized() && Value() == old(Value()) + n
      ensures old(Value()) + n < Pow(TWO64, old(elementPos) + 1) ==>
        elementPos == old(elementPos) && bitPos == old(bitPos)
      ensures old(Value()) + n >= Pow(TWO64, old(elementPos) + 1) ==>
        elementPos == old(elementPos) + 1 && bitPos == 1
    {
      ghost var total := Value() + n;
      assert elementPos > 0 ==> Pow(TWO64, elementPos) <= total by {
        Bounds();
      }
      var carry := AddLimbCarry(n, total);
      AddLimbLeading(carry, total);
    }

    /** The limb loop of operator+=(element_type): the carry out of the leading limb. */
    method AddLimbCarry(n: U64, ghost total: nat) returns (carry: nat)
      requires Limbs() && Value() + n == total < Pow(TWO64, elements.Length)
      modifies elements
      ensures carry <= 1 && ZeroFrom(elements[..], elementPos + 1)
      ensures carry == 0 ==> Value() == total < Pow(TWO64, elementPos + 1)
      ensures carry != 0 ==> Value() + Pow(TWO64, elementPos + 1) == total
    {
      ghost var o := elements[..];
      ghost var nv := LimbNumber(n, elements.Length);
      carry := AddFirstLimb(n, o, nv);
      var idx;
      idx, carry := CarryThrough(o, nv, 1, elementPos, carry);
    }

    /**
     * The end of operator+=(element_type): a carry out of the leading limb
     * makes a new leading limb 1; otherwise the positions stay.
     */
    method AddLimbLeading(carry: nat, ghost total: nat)
      requires elementPos < elements.Length && bitPos <= 64 && carry <= 1
      requires ZeroFrom(elements[..], elementPos + 1) && total < Pow(TWO64, elements.Length)
      requires elementPos > 0 ==> Pow(TWO64, elementPos) <= total
      requires carry == 0 ==> Value() == total < Pow(TWO64, elementPos + 1)
      requires carry != 0 ==> Value() + Pow(TWO64, elementPos + 1) == total
      modifies this, elements
      ensures Normalized() && Value() == total
      ensures total < Pow(TWO64, old(elementPos) + 1) ==> elementPos == old(elementPos) && bitPos == old(bitPos)
      ensures total >= Pow(TWO64, old(elementPos) + 1) ==> elementPos == old(elementPos) + 1 && bitPos == 1
    {
      if carry != 0 {
        PushLeadingOne(elementPos, total);
      } else if elementPos > 0 {
        TopNonzero(elements[..], elementPos);
      }
    }

    /**
     * The subtraction loop of operator-=: limb 0, then for limbs 1..nPos add
     * the borrow to the limb of n and subtract that from the limb of this
     * number, borrowing when either step wraps.
     */
    method SubCommon(n: BigInt, ghost o: seq<U64>, ghost nv: seq<U64>, nPos: nat) returns (idx: nat, carry: nat)
      requires elements[..] == o && n.elements[..] == nv && nPos < elements.Length == n.elements.Length
      modifies elements
      ensures idx == nPos + 1 && SubtractedUpTo(o, nv, elements[..], idx, carry)
    {
      var nElement := n.elements[0];
      carry := if elements[0] < nElement then 1 else 0;
      elements[0] := (elements[0] - nElement) % TWO64;
      assert elements[..] == o[0 := elements[0]];
      SubtractedFirst(o, nv, elements[0], carry);
      idx, carry := SubLimbsFrom(n, o, nv, nPos, carry);
    }

    /** The borrow loop of operator-= over limbs 1..nPos. */
    method SubLimbsFrom(n: BigInt, ghost o: seq<U64>, ghost nv: seq<U64>, nPos: nat, carry0: nat)
      returns (idx: nat, carry: nat)
      requires SubtractedUpTo(o, nv, elements[..], 1, carry0) && nPos < elements.Length == n.elements.Length
      requires forall j :: 1 <= j < elements.Length ==> n.elements[j] == nv[j]
      modifies elements
      ensures idx == nPos + 1 && SubtractedUpTo(o, nv, elements[..], idx, carry)
    {
      idx, carry := 1, carry0;
      while idx <= nPos
        invariant 1 <= idx <= nPos + 1
        invariant SubtractedUpTo(o, nv, elements[..], idx, carry)
        invariant forall j :: idx <= j < elements.Length ==> n.elements[j] == nv[j]
      {
        ghost var before := elements[..];
        var withCarry: U64 := (n.elements[idx] + carry) % TWO64;
        var firstCarry := if withCarry < carry then 1 else 0;
        var next := if firstCarry != 0 || elements[idx] < withCarry then 1 else 0;
        var limb: U64 := (elements[idx] - withCarry) % TWO64;
        SubtractBorrowStep(o, nv, before, idx, withCarry, limb, carry, next);
        elements[idx] := limb;
        carry := next;
        assert elements[..] == before[idx := limb];
        idx := idx + 1;
      }
    }

    /**
     * The borrow out of limb start - 1 of operator-=: zero limbs become
     * 2^64 - 1 until a nonzero limb, which is decremented.
     */
    method PropagateBorrow(start: nat, ghost total: nat)
      requires start <= elements.Length && Value() == total + Pow(TWO64, start)
      modifies elements
      ensures Value() == total
    {
      var idx := start;
      ValAtLeast(elements[..], idx);
      while elements[idx] == 0
        invariant start <= idx < elements.Length
        invariant Value() == total + Pow(TWO64, idx)
        decreases elements.Length - idx
      {
        ghost var before := elements[..];
        elements[idx] := TWO64 - 1;
        assert elements[..] == before[idx := (TWO64 - 1) as U64];
        BorrowThrough(before, idx, total);
        idx := idx + 1;
      }

      ghost var before := elements[..];
      elements[idx] := elements[idx] - 1;
      assert elements[..] == before[idx := before[idx] - 1];
      BorrowEnd(before, idx, total);
    }

    /**
     * The leading-limb scan of operator-=: from top down, the first nonzero
     * limb, or limb 0, becomes the leading limb.
     */
    method FindLeading(top: nat, ghost total: nat)
      requires top < elements.Length && Value() == total < Pow(TWO64, top + 1)
      modifies this
      ensures Valid() && Value() == total && elementPos <= top
    {
      ValBelowZero(elements[..], top + 1);
      var idx: nat := top;
      while idx > 0 && elements[idx] == 0
        invariant idx <= top && ZeroFrom(elements[..], idx + 1)
      {
        idx := idx - 1;
      }
      elementPos := idx;
      bitPos := Log2p1(elements[idx]);
    }

    /** operator-=: subtract n, which is at most this number and may be this number itself. */
    method SubAssign(n: BigInt)
      requires Normalized() && n.Normalized() && n.elements.Length == elements.Length
      requires n.Value() <= Value()
      modifies this, elements
      ensures Valid() && Value() == old(Value()) - old(n.Value())
    {
      ghost var o, nv, total := elements[..], n.elements[..], Value() - n.Value();
      var pos := elementPos;
      assert total < Pow(TWO64, pos + 1) by {
        Bounds();
      }
      assert ZeroFrom(nv, n.elementPos + 1);
      var idx, carry := SubCommon(n, o, nv, n.elementPos);
      assert Value() - carry * Pow(TWO64, idx) == total by {
        ValZeroFrom(nv, idx);
      }
      if carry != 0 {
        PropagateBorrow(idx, total);
      }
      FindLeading(pos, total);
    }

    /**
     * The limb loop of operator*=(element_type): each limb of 0..top becomes
     * the low word of limb * n plus the carry, and the carry the high word
     * plus one when that addition wraps.
     */
    method MulLimbs(top: nat, n: U64) returns (carry: U64)
      requires top < elements.Length
      modifies elements
      ensures MulUpTo(old(elements[..]), elements[..], n, top + 1, carry)
    {
      ghost var o := elements[..];
      var idx: nat := 0;
      carry := 0;
      assert Val(o[..0]) == 0 && elements[..][..0] == [];
      while idx <= top
        invariant idx <= top + 1
        invariant MulUpTo(o, elements[..], n, idx, carry)
      {
        ghost var before, c := elements[..], carry;
        var mul := Umul128(elements[idx], n);
        var limb: U64 := (mul.low + carry) % TWO64;
        var next: nat := mul.high + (if limb < mul.low then 1 else 0);
        MulLimbStep(o, before, n, idx, mul, limb, c, next);
        elements[idx] := limb;
        carry := next;
        assert elements[..] == before[idx := limb];
        idx := idx + 1;
      }
    }

    /**
     * operator*=(element_type): multiply by one limb. A carry out of the
     * leading limb becomes the new leading limb. Multiplying a number of
     * several limbs by zero leaves the leading position where it was.
     */
    method MulLimbAssign(n: U64)
      requires Normalized() && Value() * n < Pow(TWO64, elements.Length)
      modifies this, elements
      ensures Limbs() && Value() == old(Value()) * n
      ensures bitPos == BitLength(elements[elementPos])
      ensures n != 0 || old(elementPos) == 0 ==> Valid()
    {
      ghost var o, v := elements[..], Value();
      ghost var total: nat := v * n;
      assert elementPos > 0 && n != 0 ==> Pow(TWO64, elementPos) <= total by {
        if elementPos > 0 && n != 0 {
          Bounds();
          MulLe(Pow(TWO64, elementPos), 1, v, n);
        }
      }
      var carry := MulLimbs(elementPos, n);
      MulFinish(o, elements[..], n, elementPos, carry);
      MulLimbLeading(carry, total, n != 0);
    }

    /**
     * The end of operator*=(element_type): a nonzero carry becomes the new
     * leading limb; otherwise the leading one position is recomputed from
     * the leading limb, which is nonzero when the product is.
     */
    method MulLimbLeading(carry: U64, ghost total: nat, ghost nonzero: bool)
      requires elementPos < elements.Length && ZeroFrom(elements[..], elementPos + 1)
      requires Value() + carry * Pow(TWO64, elementPos + 1) == total < Pow(TWO64, elements.Length)
      requires elementPos > 0 && nonzero ==> Pow(TWO64, elementPos) <= total
      modifies this, elements
      ensures Limbs() && Value() == total && bitPos == BitLength(elements[elementPos])
      ensures nonzero || old(elementPos) == 0 ==> Valid()
    {
      if carry != 0 {
        PushCarry(carry, total);
      } else {
        assert elementPos > 0 && nonzero ==> elements[elementPos] != 0 by {
          if elementPos > 0 && nonzero {
            TopNonzero(elements[..], elementPos);
          }
        }
        bitPos := Log2p1(elements[elementPos]);
      }
    }

    /** A nonzero carry out of the leading limb becomes the new leading limb. */
    method PushCarry(carry: U64, ghost total: nat)
      requires elementPos < elements.Length && ZeroFrom(elements[..], elementPos + 1) && carry != 0
      requires Value() + carry * Pow(TWO64, elementPos + 1) == total < Pow(TWO64, elements.Length)
      modifies this, elements
      ensures Valid() && Value() == total && elementPos == old(elementPos) + 1
    {
      assert elementPos + 1 < elements.Length by {
        MulLe(1, Pow(TWO64, elementPos + 1), carry, Pow(TWO64, elementPos + 1));
        PowLessImpliesExpLess(TWO64, elementPos + 1, elements.Length);
      }

      ghost var before := elements[..];
      PushedLimb(before, elementPos + 1, carry, total);
      elementPos := elementPos + 1;
      elements[elementPos] := carry;
      assert elements[..] == before[elementPos := carry];
      bitPos := Log2p1(carry);
    }

    /**
     * The times_4 loop of multiply_5: limbs 0..top of times4 become those of
     * this number shifted left by two bits, from the top limb down.
     */
    method TimesFour(times4: array<U64>, top: nat)
      requires top < elements.Length == times4.Length && times4 != elements
      modifies times4
      ensures forall j :: 0 <= j <= top ==> times4[j] == LeftLimb(elements[..], j, 2)
      ensures forall j :: top < j < times4.Length ==> times4[j] == old(times4[j])
    {
      var idx: nat := top;
      while idx > 0
        invariant idx <= top
        invariant forall j :: idx < j <= top ==> times4[j] == LeftLimb(elements[..], j, 2)
        invariant forall j :: top < j < times4.Length ==> times4[j] == old(times4[j])
      {
        LeftJoin(elements[idx], elements[idx - 1], 2);
        times4[idx] := Shl(elements[idx], 2);
        times4[idx] := BitOr(times4[idx], ShrLimb(elements[idx - 1], 62));
        idx := idx - 1;
      }
      times4[0] := Shl(elements[0], 2);
    }

    /**
     * multiply_5: add four times this number, computed by a two-bit shift
     * into a scratch array, to this number. The leading-one position of 4x
     * is two bits up; that of 5x is found from the carry out of the top limb,
     * or by comparing the top limb with the mask of the low bits.
     */
    method Multiply5()
      requires Valid() && bitPos != 0 && Value() * 5 < Pow(TWO64, elements.Length)
      modifies this, elements
      ensures Valid() && Value() == old(Value()) * 5
    {
      ghost var o, x := elements[..], Value();
      ghost var total := x * 5;
      var t4Pos, t4Bit := elementPos, bitPos + 2;
      if t4Bit > 64 {
        t4Bit := t4Bit - 64;
        t4Pos := t4Pos + 1;
      }
      assert x > 0 && BitLength(x) == 64 * elementPos + bitPos by {
        BitLengthBounds(o[elementPos]);
        PowPositive(TWO64, elementPos);
        LimbAtMost(o, elementPos);
        MulLe(1, 1, o[elementPos], Pow(TWO64, elementPos));
        ValBitLength(o, elementPos);
      }

      ghost var m := 64 * t4Pos + t4Bit;
      assert 1 <= t4Bit <= 64 && Pow(TWO64, t4Pos) <= total
        && (BitLength(total) == m || BitLength(total) == m + 1) by {
        TimesFiveBits(x, elementPos, bitPos, t4Pos, t4Bit);
      }
      assert t4Pos < elements.Length by {
        PowLessImpliesExpLess(TWO64, t4Pos, elements.Length);
      }
      var times4 := new U64[elements.Length](_ => 0);
      TimesFour(times4, t4Pos);
      ghost var nv := times4[..];
      assert ZeroFrom(nv, t4Pos + 1) && ZeroFrom(o, t4Pos + 1) && BitLength(o[t4Pos]) + 2 <= 64;
      assert Val(nv) == x * 4 by {
        ShiftLeftNoOverflow(o, nv, 2, t4Pos);
        assert Pow(2, 2) == 4;
      }
      AddTimesFour(times4, o, nv, t4Pos, t4Bit, total);
    }

    /** The addition of multiply_5: this number plus times4, and the new leading one. */
    method AddTimesFour(times4: array<U64>, ghost o: seq<U64>, ghost nv: seq<U64>, t4Pos: nat, t4Bit: nat, ghost total: nat)
      requires times4 != elements && elements[..] == o && times4[..] == nv && times4.Length == elements.Length
      requires t4Pos < elements.Length && 1 <= t4Bit <= 64 && ZeroFrom(o, t4Pos + 1) && ZeroFrom(nv, t4Pos + 1)
      requires total == Val(o) + Val(nv) < Pow(TWO64, elements.Length) && Pow(TWO64, t4Pos) <= total
      requires BitLength(total) == 64 * t4Pos + t4Bit || BitLength(total) == 64 * t4Pos + t4Bit + 1
      modifies this, elements
      ensures Valid() && Value() == total
    {
      var carry := AddFirstLimb(times4[0], o, nv);
      var idx;
      idx, carry := AddCommon(times4, o, nv, 1, t4Pos, carry);
      AddFinish(o, nv, elements[..], t4Pos, carry, total);
      if carry != 0 {
        PushLeadingOne(t4Pos, total);
      } else {
        TimesFiveLeading(total, t4Pos, t4Bit);
      }
    }

    /**
     * The leading-one position of 5x when adding 4x did not carry out of
     * limb t4Pos: t4Bit, or one more when the limb exceeds the mask of
     * t4Bit low bits.
     */
    method TimesFiveLeading(ghost total: nat, t4Pos: nat, t4Bit: nat)
      requires t4Pos < elements.Length && 1 <= t4Bit <= 64 && ZeroFrom(elements[..], t4Pos + 1)
      requires Value() == total && Pow(TWO64, t4Pos) <= total
      requires BitLength(total) == 64 * t4Pos + t4Bit || BitLength(total) == 64 * t4Pos + t4Bit + 1
      modifies this
      ensures Valid() && Value() == total
    {
      ghost var top := elements[t4Pos];
      assert (t4Pos > 0 ==> top != 0) && (BitLength(top) == t4Bit || BitLength(top) == t4Bit + 1) by {
        TopLimb(elements[..], t4Pos);
      }
      var threshold := ShrLimb(TWO64 - 1, 64 - t4Bit);
      assert top > threshold <==> BitLength(top) == t4Bit + 1 by {
        AboveLowMask(top, t4Bit);
      }
      elementPos := t4Pos;
      if elements[elementPos] > threshold {
        bitPos := t4Bit + 1;
      } else {
        bitPos := t4Bit;
      }
    }

    /**
     * The element-wise shift of multiply_2_until: std::move_backward of limbs
     * 0..pos up by offset limbs, from the top limb down, then std::fill_n of
     * the low offset limbs with zero.
     */
    method MoveLimbsUp(pos: nat, offset: nat)
      requires pos + offset < elements.Length && offset > 0
      modifies elements
      ensures forall j :: 0 <= j < offset ==> elements[j] == 0
      ensures forall j :: offset <= j <= pos + offset ==> elements[j] == old(elements[j - offset])
      ensures forall j :: pos + offset < j < elements.Length ==> elements[j] == old(elements[j])
    {
      ghost var o := elements[..];
      var i: nat := pos + 1;
      while i > 0
        invariant i <= pos + 1
        invariant forall j :: i + offset <= j <= pos + offset ==> elements[j] == o[j - offset]
        invariant forall j :: 0 <= j < i + offset ==> elements[j] == o[j]
        invariant forall j :: pos + offset < j < elements.Length ==> elements[j] == o[j]
      {
        i := i - 1;
        elements[i + offset] := elements[i];
      }
      var z: nat := 0;
      while z < offset
        invariant z <= offset
        invariant forall j :: 0 <= j < z ==> elements[j] == 0
        invariant forall j :: offset <= j <= pos + offset ==> elements[j] == o[j - offset]
        invariant forall j :: pos + offset < j < elements.Length ==> elements[j] == o[j]
      {
        elements[z] := 0;
        z := z + 1;
      }
    }

    /** The element-wise phase of multiply_2_until: the leading limb moves up to limb top. */
    method AlignLimbs(top: nat)
      requires Valid() && bitPos != 0 && elementPos <= top < elements.Length
      modifies this, elements
      ensures Valid() && elementPos == top && bitPos == old(bitPos)
      ensures Value() == old(Value()) * Pow(2, 64 * (top - old(elementPos)))
      ensures top == old(elementPos) ==> elements[..] == old(elements[..])
    {
      var offset := top - elementPos;
      if offset > 0 {
        ghost var o := elements[..];
        BitLengthBounds(o[elementPos]);
        MoveLimbsUp(elementPos, offset);
        MovedValue(o, elements[..], offset, elementPos);
        elementPos := elementPos + offset;
      } else {
        assert Pow(2, 0) == 1;
      }
    }

    /**
     * The extra doubling of multiply_2_until: the leading one moves up one
     * bit, to bit 1 of the next limb when it was at bit 64, and limbs
     * 0..elementPos are shifted left by one bit.
     */
    method ShiftOneMore()
      requires Valid() && bitPos != 0 && (elementPos + 1 < elements.Length || bitPos < 64)
      modifies this, elements
      ensures Valid() && Value() == old(Value()) * 2
    {
      ghost var o, x, b := elements[..], Value(), 64 * elementPos + bitPos + 1;
      assert x > 0 && BitLength(x * 2) == b by {
        BitLengthBounds(o[elementPos]);
        ValBitLength(o, elementPos);
        BitLengthBounds(x);
        BitLengthScale(x, 1);
      }
      if bitPos == 64 {
        bitPos := 1;
        elementPos := elementPos + 1;
      } else {
        bitPos := bitPos + 1;
      }
      ShiftLimbsLeft(elementPos, 1);
      ShiftLeftOneBit(o, elements[..], elementPos);
      LeadingLimbOf(elements[..], elementPos, bitPos);
    }

    /**
     * The comparison loop of multiply_2_until: with leading limbs at the
     * same index, scan down from it until two limbs differ.
     */
    method AtLeastSameTop(n: BigInt) returns (ge: bool)
      requires elements.Length == n.elements.Length && elementPos < elements.Length
      requires ZeroFrom(elements[..], elementPos + 1) && ZeroFrom(n.elements[..], elementPos + 1)
      ensures ge <==> Value() >= n.Value()
    {
      ghost var s, t := elements[..], n.elements[..];
      var idx: int := elementPos;
      while idx >= 0
        invariant -1 <= idx <= elementPos
        invariant forall j :: idx < j < |s| ==> s[j] == t[j]
      {
        if elements[idx] > n.elements[idx] {
          ValLess(t, s, idx);
          return true;
        } else if elements[idx] < n.elements[idx] {
          ValLess(s, t, idx);
          return false;
        }
        idx := idx - 1;
      }
      assert s == t;
      return true;
    }

    /**
     * multiply_2_until: double this number until it is at least n, and
     * return how many doublings that took. The leading one is first moved to
     * the position of that of n, whole limbs and then bits, and one more
     * doubling follows when that is still below n. The number n may be this
     * number itself.
     */
    method Multiply2Until(n: BigInt) returns (r: nat)
      requires Valid() && n.Valid() && bitPos != 0 && n.elements.Length == elements.Length
      requires Value() <= n.Value()
      requires n.elementPos + 1 < elements.Length || n.bitPos < 64
        || Value() * Pow(2, 64 * elements.Length - 64 * elementPos - bitPos) >= n.Value()
      modifies this, elements
      ensures Valid() && Value() == old(Value()) * Pow(2, r)
      ensures Value() >= old(n.Value())
      ensures r > 0 ==> old(Value()) * Pow(2, r - 1) < old(n.Value())
    {
      ghost var x, nval, nv := Value(), n.Value(), n.elements[..];
      var nPos, nBit := n.elementPos, n.bitPos;
      ghost var bx, bn := 64 * elementPos + bitPos, 64 * nPos + nBit;
      assert x > 0 && BitLength(x) == bx && BitLength(nval) == bn && bx <= bn by {
        BitLengthBounds(elements[elementPos]);
        ValBitLength(elements[..], elementPos);
        ValBitLength(n.elements[..], nPos);
        BitLengthBounds(x);
        BitLengthMonotone(x, nval);
      }
      assert n.elements == elements ==> elementPos == nPos;
      var count := AlignLeading(nPos, nBit);
      assert BitLength(Value()) == bn by {
        BitLengthScale(x, count);
      }
      assert n.elements[..] == nv;
      r := DoubleOnceMore(n, x, nval, count);
    }

    /**
     * The end of multiply_2_until: with the leading ones aligned, one more
     * doubling when the number is still below n.
     */
    method DoubleOnceMore(n: BigInt, ghost x: nat, ghost nval: nat, count: nat) returns (r: nat)
      requires Valid() && bitPos != 0 && x > 0 && Value() == x * Pow(2, count)
      requires BitLength(Value()) == BitLength(nval) && n.Value() == nval
      requires n.elements.Length == elements.Length && elementPos == n.elementPos
      requires ZeroFrom(n.elements[..], elementPos + 1)
      requires elementPos + 1 < elements.Length || bitPos < 64 || Value() >= nval
      modifies this, elements
      ensures Valid() && Value() == x * Pow(2, r) && Value() >= nval
      ensures r > 0 ==> x * Pow(2, r - 1) < nval
    {
      ghost var z := Value();
      var ge := AtLeastSameTop(n);
      r := count;
      if !ge {
        r := r + 1;
        ShiftOneMore();
        ExtraDoubling(x, nval, count, z);
      } else if r > 0 {
        FewerDoublings(x, nval, count, z);
      }
    }

    /**
     * The alignment phases of multiply_2_until: whole limbs, then bits, so
     * that the leading one sits at limb nPos, bit nBit.
     */
    method AlignLeading(nPos: nat, nBit: nat) returns (count: nat)
      requires Valid() && bitPos != 0 && 1 <= nBit <= 64 && elementPos <= nPos < elements.Length
      requires elementPos == nPos ==> bitPos <= nBit
      modifies this, elements
      ensures Valid() && elementPos == nPos && bitPos == nBit
      ensures count == 64 * (nPos - old(elementPos)) + nBit - old(bitPos)
      ensures Value() == old(Value()) * Pow(2, count)
      ensures old(elementPos) == nPos && old(bitPos) == nBit ==> elements[..] == old(elements[..])
    {
      ghost var x := Value();
      var offset := nPos - elementPos;
      count := offset * 64;
      AlignLimbs(nPos);
      var bitOffset := nBit as int - bitPos as int;
      count := count + bitOffset;
      if bitOffset > 0 {
        TopBit();
        ShiftLeft(bitOffset);
        assert Value() == x * Pow(2, count) by {
          ScaledTwice(x, 64 * offset, bitOffset);
        }
      } else if bitOffset < 0 {
        ShiftRight(-bitOffset);
        assert Value() == x * Pow(2, count) by {
          ShrOfScaled(x, 64 * offset, -bitOffset);
        }
      } else {
        assert Pow(2, 0) == 1;
      }
      bitPos := nBit;
    }

  }

  /**
   * After the element-wise shift of multiply_2_until by offset limbs, the
   * value is multiplied by 2^(64 offset).
   */
  lemma MovedValue(o: seq<U64>, e: seq<U64>, offset: nat, pos: nat)
    requires |e| == |o| && pos + offset < |o| && ZeroFrom(o, pos + 1)
    requires forall j :: 0 <= j < offset ==> e[j] == 0
    requires forall j :: offset <= j <= pos + offset ==> e[j] == o[j - offset]
    requires forall j :: pos + offset < j < |e| ==> e[j] == o[j]
    ensures ZeroFrom(e, pos + offset + 1) && e[pos + offset] == o[pos]
    ensures Val(e) == Val(o) * Pow(2, 64 * offset)
  {
    var t := o[..|o| - offset];
    assert e == Zeros(offset) + t;
    ValShiftUp(t, offset);
    ValZeroFrom(o, |o| - offset);
    LimbPow(offset);
  }

  /**
   * Shifting limbs 0..p left by one bit, when limb p has room for one more
   * bit, doubles the value.
   */
  lemma ShiftLeftOneBit(o: seq<U64>, e: seq<U64>, p: nat)
    requires p < |o| == |e| && ZeroFrom(o, p + 1) && BitLength(o[p]) < 64
    requires forall j :: 0 <= j <= p ==> e[j] == LeftLimb(o, j, 1)
    requires forall j :: p < j < |e| ==> e[j] == o[j]
    ensures ZeroFrom(e, p + 1) && Val(e) == Val(o) * 2
  {
    assert ZeroFrom(e, p + 1) by {
      forall j | p + 1 <= j < |e|
        ensures e[j] == 0
      {
        assert e[j] == o[j];
      }
    }
    ShiftLeftNoOverflow(o, e, 1, p);
  }

  /** Once 2^c x has as many bits as n, 2^(c-1) x is below n. */
  lemma FewerDoublings(x: nat, nval: nat, c: nat, z: nat)
    requires x > 0 && c > 0 && z == x * Pow(2, c) && BitLength(z) == BitLength(nval)
    ensures x * Pow(2, c - 1) < nval
  {
    BitLengthScale(x, c);
    BitLengthScale(x, c - 1);
    BitLengthLess(x * Pow(2, c - 1), nval);
  }

  /** When 2^c x has as many bits as n, 2^(c+1) x is above n. */
  lemma ExtraDoubling(x: nat, nval: nat, c: nat, z: nat)
    requires x > 0 && z == x * Pow(2, c) && BitLength(z) == BitLength(nval)
    ensures z * 2 == x * Pow(2, c + 1) && z * 2 > nval
  {
    ScaledTwice(x, c, 1);
    PowPositive(2, c);
    MulLe(1, 1, x, Pow(2, c));
    assert Pow(2, 1) == 2;
    BitLengthScale(z, 1);
    BitLengthLess(nval, z * 2);
  }

  /**
   * The state of the subtraction loop of operator-=: limbs below idx hold the
   * difference so far, with borrow out at 2^(64 idx); limbs from idx up are the old ones.
   */
  ghost predicate SubtractedUpTo(o: seq<U64>, nv: seq<U64>, e: seq<U64>, idx: nat, borrow: nat)
  {
    |o| == |nv| == |e| && idx <= |o| && borrow <= 1
    && Val(e) - borrow * Pow(TWO64, idx) == Val(o) - Val(nv[..idx])
    && (forall j :: idx <= j < |o| ==> e[j] == o[j])
  }

  /** One step of the subtraction loop: the borrow is added to n's limb, then that is subtracted. */
  lemma SubtractBorrowStep(o: seq<U64>, nv: seq<U64>, e: seq<U64>, idx: nat, withCarry: U64, limb: U64, c: nat, c2: nat)
    requires SubtractedUpTo(o, nv, e, idx, c) && idx < |e|
    requires withCarry == (nv[idx] + c) % TWO64 && limb == (e[idx] - withCarry) % TWO64
    requires c2 == if withCarry < c || e[idx] < withCarry then 1 else 0
    ensures SubtractedUpTo(o, nv, e[idx := limb], idx + 1, c2)
  {
    SubLimbs(e[idx], nv[idx], c, withCarry, limb, c2);
    SubtractedStep(o, nv, e, idx, limb, c, c2);
  }

  lemma SubtractedStep(o: seq<U64>, nv: seq<U64>, e: seq<U64>, idx: nat, limb: U64, c: nat, c2: nat)
    requires SubtractedUpTo(o, nv, e, idx, c) && idx < |e|
    requires limb - c2 * TWO64 == e[idx] as int - c - nv[idx] && c2 <= 1
    ensures SubtractedUpTo(o, nv, e[idx := limb], idx + 1, c2)
  {
    ValUpdate(e, idx, limb);
    ValPrefix(nv, idx);
    BorrowStep(Val(e), Val(e[idx := limb]), e[idx], limb, c, c2, nv[idx], Pow(TWO64, idx),
      Val(o), Val(nv[..idx]), Val(nv[..idx]) + nv[idx] * Pow(TWO64, idx));
  }

  /** limb 0 of operator-=: o[0] - nv[0] modulo 2^64, borrowing when o[0] < nv[0]. */
  lemma SubtractedFirst(o: seq<U64>, nv: seq<U64>, limb: U64, borrow: nat)
    requires 0 < |o| == |nv|
    requires borrow == (if o[0] < nv[0] then 1 else 0) && limb == (o[0] as int - nv[0]) % TWO64
    ensures SubtractedUpTo(o, nv, o[0 := limb], 1, borrow)
  {
    SubLimbs(o[0], nv[0], 0, nv[0], limb, borrow);
    assert Val(nv[..0]) == 0;
    SubtractedStep(o, nv, o, 0, limb, 0, borrow);
  }

  /** A zero limb under a pending borrow becomes 2^64 - 1 and passes the borrow up. */
  lemma BorrowThrough(s: seq<U64>, idx: nat, total: nat)
    requires idx < |s| && s[idx] == 0 && Val(s) == total + Pow(TWO64, idx)
    ensures idx + 1 < |s| && Val(s[idx := (TWO64 - 1) as U64]) == total + Pow(TWO64, idx + 1)
  {
    ValUpdate(s, idx, TWO64 - 1);
    ValAtLeast(s[idx := (TWO64 - 1) as U64], idx + 1);
  }

  /** A nonzero limb under a pending borrow is decremented and absorbs it. */
  lemma BorrowEnd(s: seq<U64>, idx: nat, total: nat)
    requires idx < |s| && s[idx] != 0 && Val(s) == total + Pow(TWO64, idx)
    ensures Val(s[idx := s[idx] - 1]) == total
  {
    ValUpdate(s, idx, s[idx] - 1);
    DecrementArith(Val(s[idx := s[idx] - 1]), Val(s), s[idx], Pow(TWO64, idx), total);
  }

  lemma DecrementArith(ve: nat, vs: nat, x: nat, p: nat, total: nat)
    requires x >= 1 && ve + x * p == vs + (x - 1) * p && vs == total + p
    ensures ve == total
  {
    assert x * p == (x - 1) * p + p;
  }

  /**
   * The state of the multiplication loop of operator*=(element_type):
   * limbs below idx and the carry at 2^(64 idx) hold the low idx limbs of
   * o times n; limbs from idx up are the old ones.
   */
  ghost predicate MulUpTo(o: seq<U64>, e: seq<U64>, n: U64, idx: nat, carry: nat)
  {
    |e| == |o| && idx <= |o| && carry < TWO64
    && Val(e[..idx]) + carry * Pow(TWO64, idx) == Val(o[..idx]) * n
    && (forall j :: idx <= j < |o| ==> e[j] == o[j])
  }

  /** One iteration of the multiplication loop. */
  lemma MulStep(o: seq<U64>, e: seq<U64>, n: U64, idx: nat, limb: U64, c: nat, c2: nat)
    requires MulUpTo(o, e, n, idx, c) && idx < |e|
    requires limb + c2 * TWO64 == e[idx] * n + c && c2 < TWO64
    ensures MulUpTo(o, e[idx := limb], n, idx + 1, c2)
  {
    var e2 := e[idx := limb];
    assert e2[..idx] == e[..idx];
    ValPrefix(e2, idx);
    ValPrefix(o, idx);
    MulArith(Val(e[..idx]), Val(o[..idx]), limb, c, c2, o[idx], n, Pow(TWO64, idx));
  }

  /** One limb of the multiplication loop, as umul128 and the carry test compute it. */
  lemma MulLimbStep(o: seq<U64>, e: seq<U64>, n: U64, idx: nat, mul: UInt128, limb: U64, c: U64, c2: nat)
    requires MulUpTo(o, e, n, idx, c) && idx < |e| && mul == Umul128(e[idx], n)
    requires limb == (mul.low + c) % TWO64 && c2 == mul.high + (if limb < mul.low then 1 else 0)
    ensures c2 < TWO64 && MulUpTo(o, e[idx := limb], n, idx + 1, c2)
  {
    MulLimb(e[idx], n, c, limb, c2);
    MulStep(o, e, n, idx, limb, c, c2);
  }

  lemma MulArith(ve: int, vo: int, limb: int, c: int, c2: int, oi: int, n: int, a: int)
    requires ve + c * a == vo * n && limb + c2 * TWO64 == oi * n + c
    ensures ve + limb * a + c2 * (TWO64 * a) == (vo + oi * a) * n
  {
    assert c2 * (TWO64 * a) == (c2 * TWO64) * a;
    assert (limb + c2 * TWO64) * a == (oi * n + c) * a;
  }

  /** After the multiplication loop over a number whose top nonzero limb is p. */
  lemma MulFinish(o: seq<U64>, e: seq<U64>, n: U64, p: nat, carry: nat)
    requires p < |o| && ZeroFrom(o, p + 1) && MulUpTo(o, e, n, p + 1, carry)
    ensures ZeroFrom(e, p + 1) && Val(e) + carry * Pow(TWO64, p + 1) == Val(o) * n
  {
    assert ZeroFrom(e, p + 1) by {
      forall j | p + 1 <= j < |e|
        ensures e[j] == 0
      {
        assert e[j] == o[j];
      }
    }
    ValZeroFrom(e, p + 1);
    ValZeroFrom(o, p + 1);
  }

  /** Writing the carry into the first zero limb p adds carry * 2^(64p) and makes limb p the leading one. */
  lemma PushedLimb(s: seq<U64>, p: nat, carry: U64, total: nat)
    requires 0 < p < |s| && ZeroFrom(s, p) && carry != 0 && total == Val(s) + carry * Pow(TWO64, p)
    ensures Val(s[p := carry]) == total && ZeroFrom(s[p := carry], p + 1)
  {
    ValUpdate(s, p, carry);
    ZeroFromUpdate(s, p, carry, p, p + 1);
  }

  /**
   * One limb of a carry loop: before limb idx is overwritten the value plus
   * the incoming carry c at 2^(64 idx) is base + acc; limb idx becomes limb
   * with carry out c2, where limb + c2 * 2^64 is the old limb plus c plus the
   * addend, and the value plus c2 at 2^(64 (idx+1)) is base + acc plus the
   * addend at 2^(64 idx).
   */
  lemma AddLimbStep(s: seq<U64>, idx: nat, limb: U64, c: nat, c2: nat, addend: nat, base: int, acc: int)
    requires idx < |s| && Val(s) + c * Pow(TWO64, idx) == base + acc
    requires limb + c2 * TWO64 == s[idx] as int + c + addend
    ensures Val(s[idx := limb]) + c2 * Pow(TWO64, idx + 1) == base + acc + addend * Pow(TWO64, idx)
  {
    ValUpdate(s, idx, limb);
    CarryStep(Val(s), Val(s[idx := limb]), s[idx], limb, c, c2, addend, Pow(TWO64, idx), base, acc,
      acc + addend * Pow(TWO64, idx));
  }

  /**
   * The state of the addition loops of operator+=: limbs below idx hold the
   * sum so far, with carry out at 2^(64 idx); limbs from idx up are the old ones.
   */
  ghost predicate AddedUpTo(o: seq<U64>, nv: seq<U64>, e: seq<U64>, idx: nat, carry: nat)
  {
    |o| == |nv| == |e| && idx <= |o| && carry <= 1
    && Val(e) + carry * Pow(TWO64, idx) == Val(o) + Val(nv[..idx])
    && (forall j :: idx <= j < |o| ==> e[j] == o[j])
  }

  /** The limb n as a number of len limbs. */
  function LimbNumber(n: U64, len: nat): (s: seq<U64>)
    requires len >= 1
    ensures |s| == len && s[0] == n && ZeroFrom(s, 1) && Val(s) == n
  {
    var z := Zeros(len - 1);
    assert forall j :: 1 <= j < len ==> ([n] + z)[j] == z[j - 1];
    ValConcat([n], z);
    ValZeros(len - 1);
    assert [n] == [] + [n];
    [n] + z
  }

  /** Nothing has been added before the first limb. */
  lemma AddedStart(o: seq<U64>, nv: seq<U64>)
    requires |o| == |nv|
    ensures AddedUpTo(o, nv, o, 0, 0)
  {
    assert Val(nv[..0]) == 0;
  }

  /**
   * One step of a carry loop where one addend's limb idx is zero: the sum a
   * of the other addend's limb and the carry leaves limb (a + c) mod 2^64
   * and carries out when that is below c.
   */
  lemma OneSidedCarry(o: seq<U64>, nv: seq<U64>, e: seq<U64>, idx: nat, a: U64, limb: U64, c: nat, c2: nat)
    requires AddedUpTo(o, nv, e, idx, c) && idx < |e|
    requires (o[idx] == 0 && a == nv[idx]) || (nv[idx] == 0 && a == e[idx])
    requires limb == (a + c) % TWO64 && c2 == if limb < c then 1 else 0
    ensures AddedUpTo(o, nv, e[idx := limb], idx + 1, c2)
  {
    AddCarry(a, c, limb, c2);
    AddedStep(o, nv, e, idx, limb, c, c2);
  }

  lemma AddedStep(o: seq<U64>, nv: seq<U64>, e: seq<U64>, idx: nat, limb: U64, c: nat, c2: nat)
    requires AddedUpTo(o, nv, e, idx, c) && idx < |e|
    requires limb + c2 * TWO64 == e[idx] as int + c + nv[idx] && c2 <= 1
    ensures AddedUpTo(o, nv, e[idx := limb], idx + 1, c2)
  {
    AddLimbStep(e, idx, limb, c, c2, nv[idx], Val(o), Val(nv[..idx]));
    ValPrefix(nv, idx);
  }

  /**
   * The first limb of operator+=: limb 0 becomes o[0] + nv[0] modulo 2^64,
   * with a carry when that wraps.
   */
  lemma AddedFirst(o: seq<U64>, nv: seq<U64>, limb: U64, carry: nat)
    requires 0 < |o| == |nv|
    requires limb == (o[0] as int + nv[0]) % TWO64 && carry == if limb < nv[0] then 1 else 0
    ensures AddedUpTo(o, nv, o[0 := limb], 1, carry)
  {
    AddLimbs(o[0], nv[0], 0, o[0], limb, carry);
    AddedStart(o, nv);
    AddedStep(o, nv, o, 0, limb, 0, carry);
  }

  /**
   * The state of the carry loop of operator++ after idx limbs: the value plus
   * the pending carry is total; the limbs below the last one written wrapped
   * from 2^64 - 1 to 0, and once the carry stops the last one written grew by one.
   */
  ghost predicate CarryInv(o: seq<U64>, e: seq<U64>, idx: nat, carry: nat, total: int)
  {
    |e| == |o| && idx <= |o| && carry <= 1 && (idx == 0 ==> carry == 1)
    && Val(e) + carry * Pow(TWO64, idx) == total
    && (forall j :: 0 <= j < idx + carry - 1 ==> e[j] == 0 && o[j] == TWO64 - 1)
    && (carry == 0 ==> e[idx - 1] == o[idx - 1] as int + 1)
    && (forall j :: idx <= j < |e| ==> e[j] == o[j])
  }

  /** One iteration of the carry loop of operator++: ++elements[idx] and a carry when it wraps. */
  lemma CarryInvStep(o: seq<U64>, e: seq<U64>, idx: nat, limb: U64, carry: nat, total: int)
    requires CarryInv(o, e, idx, 1, total) && idx < |e|
    requires limb == (e[idx] as int + 1) % TWO64 && carry == if limb == 0 then 1 else 0
    ensures CarryInv(o, e[idx := limb], idx + 1, carry, total)
  {
    AddLimbStep(e, idx, limb, 1, carry, 0, total, 0);
    assert e[idx] == o[idx];
  }

  /**
   * After the carry of operator++ stopped at limb idx-1, the top nonzero limb
   * is the old one, or the one above it when the carry ran past the old top.
   */
  lemma IncrementTop(o: seq<U64>, e: seq<U64>, p0: nat, idx: nat)
    requires p0 < |o| == |e| && 1 <= idx <= |e|
    requires ZeroFrom(o, p0 + 1) && (p0 > 0 ==> o[p0] != 0)
    requires forall j :: 0 <= j < idx - 1 ==> e[j] == 0 && o[j] == TWO64 - 1
    requires e[idx - 1] == o[idx - 1] as int + 1
    requires forall j :: idx <= j < |e| ==> e[j] == o[j]
    ensures idx <= p0 + 2
    ensures idx == p0 + 2 ==> e[p0 + 1] == 1 && ZeroFrom(e, p0 + 2)
    ensures idx <= p0 + 1 ==> ZeroFrom(e, p0 + 1) && (p0 > 0 ==> e[p0] != 0)
    ensures idx < p0 + 1 ==> e[p0] == o[p0]
  {
    if p0 + 1 < |o| {
      assert o[p0 + 1] == 0;
    }
    forall j | p0 + 1 < j < |e|
      ensures e[j] == 0
    {
      assert e[j] == o[j];
    }
  }

  /**
   * At the end of the loops of operator+=, up to limb maxIdx, the limbs above
   * maxIdx are still zero, the whole sum is there but for the carry out of
   * limb maxIdx, and there is a carry exactly when the sum needs another limb.
   */
  lemma AddFinish(o: seq<U64>, nv: seq<U64>, e: seq<U64>, maxIdx: nat, carry: nat, total: nat)
    requires maxIdx < |o| == |nv| == |e| && ZeroFrom(o, maxIdx + 1) && ZeroFrom(nv, maxIdx + 1)
    requires total == Val(o) + Val(nv) && AddedUpTo(o, nv, e, maxIdx + 1, carry)
    ensures ZeroFrom(e, maxIdx + 1) && Val(e) + carry * Pow(TWO64, maxIdx + 1) == total
    ensures carry == 0 ==> Val(e) == total < Pow(TWO64, maxIdx + 1)
    ensures carry != 0 ==> Val(e) + Pow(TWO64, maxIdx + 1) == total && Pow(TWO64, maxIdx + 1) <= total
  {
    ValZeroFrom(nv, maxIdx + 1);
    assert ZeroFrom(e, maxIdx + 1) by {
      forall j | maxIdx + 1 <= j < |e|
        ensures e[j] == 0
      {
        assert e[j] == o[j];
      }
    }
    ValBelow(e, maxIdx + 1);
  }

  /** With zeros above index p and a value of at least 2^(64p), limb p is not zero. */
  lemma TopNonzero(s: seq<U64>, p: nat)
    requires p < |s| && ZeroFrom(s, p + 1) && Pow(TWO64, p) <= Val(s)
    ensures s[p] != 0
  {
    ValAtLeast(s, p);
  }

  /** Writing 1 into the zero limb p, above a number that holds total - 2^(64p), gives total. */
  lemma NewTopLimb(s: seq<U64>, p: nat, total: nat)
    requires p < |s| && ZeroFrom(s, p) && Val(s) + Pow(TWO64, p) == total
    ensures ZeroFrom(s[p := 1], p + 1) && Val(s[p := 1]) == total
  {
    ValUpdate(s, p, 1);
  }

  /** A zero leading limb at position p of a number with zeros above p is zero only for p = 0. */
  lemma TopBitOf(s: seq<U64>, p: nat)
    requires p < |s| && ZeroFrom(s, p + 1) && (p > 0 ==> s[p] != 0)
    ensures Val(s) != 0 <==> s[p] != 0
  {
    ValTop(s, p);
    PowPositive(TWO64, p);
    if s[p] != 0 {
      MulLe(1, Pow(TWO64, p), s[p], Pow(TWO64, p));
    }
  }

  /** element_type(1) << b for b below 64 is 2^b. */
  lemma OneShifted(b: nat)
    requires b < 64
    ensures Shl(1, b) == Pow(2, b)
  {
    WordPowersOfTwo();
    PowStrictMonotone(2, b, 64);
  }
}
