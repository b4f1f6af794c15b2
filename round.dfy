/**
 * flt/flt-round.c: round, trunc, ceil and floor, all built on the integral
 * part that flt_tmp_modf computes.
 */
module FltRound {
  import opened FltTypes
  import opened FltClassify
  import opened FltConvert
  import FltInit
  import FltBasic
  import FltModf
  import FltArith

  // ------------------------------------------------- static ceil and floor

  /**
   * flt_tmp_floor: the integral part of a working value. On a value with
   * the sign bit clear this is the floor: the largest whole number of units
   * 2^(30 - e) in the mantissa that does not exceed it.
   */
  function Floored(t: Tmp): (r: Tmp)
    requires Wf(t)
    ensures Wf(r) && r.s == t.s
    ensures t.c == Normal && t.e < 0 ==> r == Tmp(Zero, t.s, 0, 0)
    ensures t.c == Normal && t.e > TMP_1_BITS ==> r == t
    ensures t.c == Normal && 0 <= t.e <= TMP_1_BITS ==>
      r.c == Normal && r.e == t.e && r.m % Unit(t.e) == 0 && r.m <= t.m < r.m + Unit(t.e)
  {
    FltModf.ModfParts(t).1
  }

  method TmpFloor(pt: FltTmp)
    requires Wf(pt.Value())
    modifies pt
    ensures pt.Value() == Floored(old(pt.Value()))
  {
    var u := new FltTmp();
    FltInit.Copy(u, pt);
    FltModf.TmpModf(u, pt);
  }

  /**
   * flt_tmp_ceil: the integral part, plus one when a fractional part is
   * left. On a value with the sign bit clear this is the ceiling: below 1 it
   * is 1, and otherwise the floor plus one unit 2^(30 - e), renormalized
   * (the mantissa reaches 2^31 when the floor is the largest one).
   */
  function Ceiled(t: Tmp): (r: Tmp)
    requires Wf(t)
    ensures Wf(r)
    ensures t.c == Normal && t.s == 0 ==> r.c == Normal && r.s == 0
    ensures t.c == Normal && t.e < 0 && t.s == 0 ==> r == FltInit.ONE_TMP
    ensures t.c == Normal && t.e > TMP_1_BITS ==> r == t
    ensures t.c == Normal && 0 <= t.e <= TMP_1_BITS ==>
      (t.m % Unit(t.e) == 0 ==> r == t) &&
      (t.m % Unit(t.e) != 0 && t.s == 0 ==>
         r == FltBasic.Normalized(Tmp(Normal, 0, Floored(t).m + Unit(t.e), t.e)))
  {
    var parts := FltModf.ModfParts(t);
    CeiledStep(t);
    if parts.0.c == Normal then FltBasic.Sum(parts.1, FltInit.ONE_TMP) else parts.1
  }

  /** The unit of the integral part at exponent e in [0, 30], 2^(30 - e). */
  function Unit(e: int): (u: nat)
    requires 0 <= e <= TMP_1_BITS
    ensures u == Pow2(TMP_1_BITS - e) && 1 <= u <= TMP_1 && TMP_1 / Pow2(e) == u
  {
    Pow2Add(TMP_1_BITS - e, e);
    Pow2Of30();
    Pow2Monotone(TMP_1_BITS - e, TMP_1_BITS);
    UnitQuotient(Pow2(TMP_1_BITS - e), Pow2(e));
    Pow2(TMP_1_BITS - e)
  }

  /** The integral part plus 1.0, when a fractional part is left over. */
  lemma CeiledStep(t: Tmp)
    requires Wf(t)
    ensures var parts := FltModf.ModfParts(t);
      t.c == Normal && 0 <= t.e <= TMP_1_BITS && t.s == 0 && parts.0.c == Normal ==>
      FltBasic.Sum(parts.1, FltInit.ONE_TMP) == FltBasic.Normalized(Tmp(Normal, 0, parts.1.m + Unit(t.e), t.e))
    ensures var parts := FltModf.ModfParts(t);
      t.s == 0 && parts.1.c == Normal ==>
      FltBasic.Sum(parts.1, FltInit.ONE_TMP).c == Normal && FltBasic.Sum(parts.1, FltInit.ONE_TMP).s == 0
  {
    var parts := FltModf.ModfParts(t);
    if t.s == 0 && parts.1.c == Normal {
      FltBasic.SumSameSign(parts.1, FltInit.ONE_TMP);
    }
    if t.c == Normal && 0 <= t.e <= TMP_1_BITS && t.s == 0 && parts.0.c == Normal {
      OneUnitMore(parts.1.m, t.e, Unit(t.e));
    }
  }

  /** Adding 1.0 to a whole number at exponent e in [0, 30] adds one unit. */
  lemma OneUnitMore(I: U32, e: int, unit: nat)
    requires TMP_1 <= I < TMP_2 && 0 <= e <= TMP_1_BITS && unit == Unit(e)
    ensures FltBasic.Sum(Tmp(Normal, 0, I, e), FltInit.ONE_TMP) == FltBasic.Normalized(Tmp(Normal, 0, I + unit, e))
  {
    var t := Tmp(Normal, 0, I, e);
    assert FltBasic.Align(TMP_1, 0, e) == (unit, e);
    assert FltBasic.Align(I, e, e) == (I, e);
    assert FltBasic.SumNormals(t, FltInit.ONE_TMP) == FltBasic.Combine(t, 0, I, e, unit, e);
    CombinePositive(t, I, unit);
    assert FltBasic.Sum(t, FltInit.ONE_TMP) == FltBasic.SumNormals(t, FltInit.ONE_TMP);
  }

  /** Two positive aligned mantissas whose sum fits in 32 bits add without wrapping. */
  lemma CombinePositive(t: Tmp, I: U32, unit: U32)
    requires t.s == 0 && I != 0 && I + unit < TWO_32
    ensures FltBasic.Combine(t, 0, I, t.e, unit, t.e) == FltBasic.Normalized(Tmp(Normal, 0, I + unit, t.e))
  {
    assert (I + unit) % TWO_32 == I + unit;
  }

  /** 2^30 == unit * P: dividing 2^30 by P gives the unit. */
  lemma UnitQuotient(unit: nat, P: nat)
    requires P > 0 && unit * P == TMP_1
    ensures TMP_1 / P == unit
  {
    DivUnique(TMP_1, P, unit, 0);
  }

  method TmpCeil(pt: FltTmp)
    requires Wf(pt.Value())
    modifies pt
    ensures pt.Value() == Ceiled(old(pt.Value()))
  {
    ghost var t0 := pt.Value();
    var u := new FltTmp();
    FltInit.Copy(u, pt);
    FltModf.TmpModf(u, pt);
    if u.c == Normal {
      FltInit.InitOne(u);
      FltBasic.Add(pt, u.Value());
    }
  }

  // ------------------------------------------------------ the FLT functions

  /** flt_trunc: the integral part, with the sign kept; zeros, infinities and NaN pass through. */
  function Trunc(f: Flt): (r: Flt)
    ensures !IsNormal(f) && !IsSubnormal(f) ==> r == f
    ensures IsNormal(f) && ExpField(f) >= 150 ==> r == f
    ensures (IsNormal(f) && ExpField(f) < 127) || IsSubnormal(f) ==>
              r == (if SignField(f) == 1 then FLT_NEG_0 else FLT_POS_0)
    ensures !IsNaN(f) ==> SignField(r) == SignField(f)
  {
    var t := Unpacked(f);
    UnpackPackRoundTrip(f);
    if t.c == Normal then
      FltModf.WholeAboveExponent23(f);
      var u := FltModf.ModfParts(t).1;
      PackedSign(u);
      Packed(u)
    else f
  }

  /**
   * flt_round: add one half with the sign of the value, then take the
   * integral part, so that halves round away from zero. From one half up to
   * 2^23 the result is the integer nearest to the value, a half going up in
   * magnitude, with the value's sign, exactly as flt_ltof builds it; from
   * 2^23 on every value is whole and comes back unchanged.
   */
  function Round(f: Flt): (r: Flt)
    ensures !IsNormal(f) && !IsSubnormal(f) ==> r == f
    ensures !IsNaN(f) ==> SignField(r) == SignField(f)
    ensures var t := Unpacked(f); t.c == Normal && -1 <= t.e <= 22 ==>
      var n := HalfUp(t.m, TMP_1_BITS - t.e);
      1 <= n < 0x100_0000 && r == Ltof(if t.s == 1 then -(n as int) else n as int)
    ensures IsNormal(f) && ExpField(f) >= 150 ==> r == f
  {
    var t := Unpacked(f);
    UnpackPackRoundTrip(f);
    if t.c == Normal then
      var u := FltBasic.Sum(t, Half(t.s));
      FltBasic.SumSameSign(t, Half(t.s));
      var v := FltModf.ModfParts(u).1;
      PackedSign(v);
      if -1 <= t.e <= 22 then
        RoundNear(f);
        Packed(v)
      else if IsNormal(f) && ExpField(f) >= 150 then
        RoundOfWhole(f);
        Packed(v)
      else
        Packed(v)
    else f
  }

  /** The rounding of Round's nearest-integer range, stated on the packed result. */
  lemma RoundNear(f: Flt)
    requires Unpacked(f).c == Normal && -1 <= Unpacked(f).e <= 22
    ensures var t := Unpacked(f); 1 <= HalfUp(t.m, TMP_1_BITS - t.e) < 0x100_0000
    ensures var t := Unpacked(f); var n := HalfUp(t.m, TMP_1_BITS - t.e);
      Packed(FltModf.ModfParts(FltBasic.Sum(t, Half(t.s))).1) == Ltof(if t.s == 1 then -(n as int) else n as int)
  {
    var t := Unpacked(f);
    UnpackedEven(f);
    RoundOfHalfSum(t);
  }

  /** n is the multiple of d nearest to x, a tie going up. */
  predicate NearestUp(n: int, x: int, d: int)
    requires d > 0
  {
    var err := x - n * d;
    -d <= 2 * err < d
  }

  /** The number of units 2^k nearest to m, a half unit going up: what flt_round keeps of a magnitude. */
  function HalfUp(m: nat, k: nat): (n: nat)
    ensures NearestUp(n, m, Pow2(k))
  {
    var P := Pow2(k);
    var n := (m + P / 2) / P;
    assert m + P / 2 == n * P + (m + P / 2) % P;
    n
  }

  /**
   * flt_ceil: the ceiling of the magnitude for a positive value and the
   * floor of the magnitude for a negative one, with the sign put back.
   */
  function Ceil(f: Flt): (r: Flt)
    ensures !IsNormal(f) && !IsSubnormal(f) ==> r == f
    ensures !IsNaN(f) ==> SignField(r) == SignField(f)
  {
    var t := Unpacked(f);
    UnpackPackRoundTrip(f);
    if t.c == Normal then
      var sign := t.s;
      var a := t.(s := 0);
      var r := (if sign == 1 then Floored(a) else Ceiled(a)).(s := sign);
      PackedSignOf(r);
      Packed(r)
    else f
  }

  /** flt_floor: the mirror image of flt_ceil. */
  function Floor(f: Flt): (r: Flt)
    ensures !IsNormal(f) && !IsSubnormal(f) ==> r == f
    ensures !IsNaN(f) ==> SignField(r) == SignField(f)
  {
    var t := Unpacked(f);
    UnpackPackRoundTrip(f);
    if t.c == Normal then
      var sign := t.s;
      var a := t.(s := 0);
      var r := (if sign == 1 then Ceiled(a) else Floored(a)).(s := sign);
      PackedSignOf(r);
      Packed(r)
    else f
  }

  /** The value ceil and floor pack is never NaN, so the pattern keeps its sign. */
  lemma PackedSignOf(r: Tmp)
    requires Wf(r) && (r.c == Normal || r.c == Zero)
    ensures SignField(Packed(r)) == r.s
  {
    PackedSign(r);
  }

  // ---------------------------------------------------------------- lemmas

  /** trunc is the integral part that modf stores. */
  lemma TruncIsModfIntegral(f: Flt)
    ensures Trunc(f) == FltModf.ModfPair(f).1
  {
  }

  /** ceil(-x) == -floor(x), for every pattern (NaN included, whose sign is only flipped). */
  lemma CeilFloorMirror(f: Flt)
    ensures Ceil(FltArith.FlipSign(f)) == FltArith.FlipSign(Floor(f))
  {
    var g := FltArith.FlipSign(f);
    ClassifySignless(f);
    ClassifySignless(g);
    if !IsNaN(f) {
      FltArith.UnpackedFlipSign(f);
      var t := Unpacked(f);
      if t.c == Normal {
        var a := t.(s := 0);
        assert Unpacked(g).(s := 0) == a;
        if t.s == 0 {
          FltArith.PackedFlip(Floored(a));
        } else {
          FltArith.PackedFlip(Ceiled(a));
        }
      }
    }
  }

  /** floor(x) == trunc(x) for a value with the sign bit clear. */
  lemma FloorOfPositive(f: Flt)
    requires SignField(f) == 0
    ensures Floor(f) == Trunc(f)
  {
  }

  /** ceil(x) == trunc(x) for a value with the sign bit set. */
  lemma CeilOfNegative(f: Flt)
    requires SignField(f) == 1
    ensures Ceil(f) == Trunc(f)
  {
    var t := Unpacked(f);
    if t.c == Normal {
      assert FltModf.ModfParts(t).1 == Floored(t.(s := 0)).(s := 1);
    }
  }

  /** The ceiling of a positive value below 1 is 1, and the floor of a negative one is -1. */
  lemma CeilFloorBelowOne(f: Flt)
    requires (IsNormal(f) && ExpField(f) < 127) || IsSubnormal(f)
    ensures SignField(f) == 0 ==> Ceil(f) == FLT_POS_1
    ensures SignField(f) == 1 ==> Floor(f) == FLT_NEG_1
  {
    UnpackedExponent(f);
    PackedOnes();
  }

  /** The exponent of an unpacked normal or subnormal pattern. */
  lemma UnpackedExponent(f: Flt)
    requires IsNormal(f) || IsSubnormal(f)
    ensures Unpacked(f).c == Normal
    ensures IsNormal(f) ==> Unpacked(f).e == ExpField(f) - 127
    ensures IsSubnormal(f) ==> Unpacked(f).e < -126
  {
    if IsSubnormal(f) {
      FltModf.SubnormalExponent(f);
    }
  }

  lemma PackedOnes()
    ensures Packed(FltInit.ONE_TMP) == FLT_POS_1 && Packed(FltInit.ONE_TMP.(s := 1)) == FLT_NEG_1
  {
  }

  /** From 2^23 up every pattern is a whole number: ceil and floor return it. */
  lemma CeilFloorOfWhole(f: Flt)
    requires IsNormal(f) && ExpField(f) >= 150
    ensures Ceil(f) == f && Floor(f) == f
  {
    FltModf.WholeAboveExponent23(f);
    UnpackPackRoundTrip(f);
    var t := Unpacked(f);
    var a := t.(s := 0);
    if t.e <= TMP_1_BITS {
      var u := Unit(t.e);
      SameMultiple(Floored(a).m, a.m, u);
    }
    assert Floored(a) == a && Ceiled(a) == a;
    assert a.(s := t.s) == t;
  }

  /** Two multiples of u less than u apart are equal. */
  lemma SameMultiple(x: nat, y: nat, u: nat)
    requires u > 0 && x % u == 0 && y % u == 0 && x <= y < x + u
    ensures x == y
  {
    DivUnique(y, u, x / u, y - x);
  }

  /** round(x) is a zero of the same sign for |x| < 1/2. */
  lemma RoundBelowHalf(f: Flt)
    requires (IsNormal(f) && ExpField(f) <= 125) || IsSubnormal(f)
    ensures Round(f) == if SignField(f) == 1 then FLT_NEG_0 else FLT_POS_0
  {
    UnpackedExponent(f);
    SumHalfSmall(Unpacked(f));
  }

  /** round(x) is 1 with the sign of x for 1/2 <= |x| < 1: halves round away from zero. */
  lemma RoundHalfAway(f: Flt)
    requires IsNormal(f) && ExpField(f) == 126
    ensures Round(f) == if SignField(f) == 1 then FLT_NEG_1 else FLT_POS_1
  {
    var t := Unpacked(f);
    SumHalfAtHalf(t);
    var u := FltBasic.Sum(t, Half(t.s));
    IntegralFromOneToTwo(u);
    PackedOnes();
    assert Packed(Tmp(Normal, t.s, TMP_1, 0)) == if t.s == 1 then FLT_NEG_1 else FLT_POS_1;
  }

  /**
   * From one half up to 2^23, the integral part of t plus one half of its
   * sign is HalfUp(m, 30 - e) with t's sign, in the form flt_ltof gives it.
   */
  lemma RoundOfHalfSum(t: Tmp)
    requires Wf(t) && t.c == Normal && -1 <= t.e <= 22 && t.m % 2 == 0
    ensures var n := HalfUp(t.m, TMP_1_BITS - t.e);
      1 <= n < 0x100_0000 &&
      FltModf.ModfParts(FltBasic.Sum(t, Half(t.s))).1 == LtofTmp(if t.s == 1 then -(n as int) else n as int)
  {
    var n := HalfUp(t.m, TMP_1_BITS - t.e);
    var u := FltBasic.Sum(t, Half(t.s));
    HalfSumCount(t);
    IntegralAsLtof(u, n);
    var a: I32 := if t.s == 1 then -(n as int) else n as int;
    assert LtofTmp(a) == FltBasic.Normalized(Tmp(Normal, t.s, n, TMP_1_BITS));
  }

  /**
   * From one half up to 2^23 the sum with one half is a Normal of t's sign
   * at exponent 0 to 23 whose count of units is HalfUp(m, 30 - e).
   */
  lemma HalfSumCount(t: Tmp)
    requires Wf(t) && t.c == Normal && -1 <= t.e <= 22 && t.m % 2 == 0
    ensures var u := FltBasic.Sum(t, Half(t.s));
      u.c == Normal && u.s == t.s && 0 <= u.e <= 23 &&
      u.m / Pow2(TMP_1_BITS - u.e) == HalfUp(t.m, TMP_1_BITS - t.e)
  {
    if t.e == -1 {
      HalfSumCountAtHalf(t);
    } else {
      HalfSumCountAligned(t);
    }
  }

  /** HalfSumCount for values in [0.5, 1), where the sum always carries. */
  lemma HalfSumCountAtHalf(t: Tmp)
    requires Wf(t) && t.c == Normal && t.e == -1
    ensures var u := FltBasic.Sum(t, Half(t.s));
      u.c == Normal && u.s == t.s && u.e == 0 &&
      u.m / Pow2(TMP_1_BITS) == HalfUp(t.m, TMP_2_BITS)
  {
    var P, H := Pow2(TMP_2_BITS), Pow2(TMP_1_BITS);
    Pow2Of30();
    Pow2Of31();
    assert P / 2 == H;
    SumHalfAtHalf(t);
    CarryCount(t.m + H, TMP_2_BITS);
  }

  /** HalfSumCount for exponents 0 to 22, with or without a carry. */
  lemma HalfSumCountAligned(t: Tmp)
    requires Wf(t) && t.c == Normal && 0 <= t.e <= 22
    ensures var u := FltBasic.Sum(t, Half(t.s));
      u.c == Normal && u.s == t.s && t.e <= u.e <= t.e + 1 &&
      u.m / Pow2(TMP_1_BITS - u.e) == HalfUp(t.m, TMP_1_BITS - t.e)
  {
    var k: nat := TMP_1_BITS - t.e;
    var P, H := Pow2(k), Pow2(k - 1);
    assert P == 2 * H && P / 2 == H;
    var M := t.m + H;
    assert HalfUp(t.m, k) == M / P;
    SumHalfAligned(t);
    if M >= TMP_2 {
      CarriedCount(t, M);
    }
  }

  /** On a carry the sum is M / 2 one exponent up, which holds the same count M / 2^(30 - e). */
  lemma CarriedCount(t: Tmp, M: nat)
    requires Wf(t) && t.c == Normal && 0 <= t.e <= 22
    requires M == t.m + Pow2(TMP_1_BITS - t.e - 1) && M >= TMP_2
    ensures var u := FltBasic.Sum(t, Half(t.s));
      u.e == t.e + 1 && u.m / Pow2(TMP_1_BITS - u.e) == M / Pow2(TMP_1_BITS - t.e)
  {
    SumHalfAligned(t);
    CarryCount(M, TMP_1_BITS - t.e);
  }

  /** Halving M on a carry and counting units 2^(k - 1) counts units 2^k of M. */
  lemma CarryCount(M: nat, k: nat)
    requires k >= 1
    ensures (M / 2) / Pow2(k - 1) == M / Pow2(k)
  {
    DivPow2Add(M, 1, k - 1);
    Pow2Values();
  }

  /**
   * The integral part of a Normal u from 1 up to 2^31, which holds n whole
   * units 2^(30 - e), is n as flt_ltof normalizes it.
   */
  lemma IntegralAsLtof(u: Tmp, n: nat)
    requires Wf(u) && u.c == Normal && 0 <= u.e <= TMP_1_BITS && n == u.m / Pow2(TMP_1_BITS - u.e)
    ensures 1 <= n < TMP_2 && (u.e <= 23 ==> n < 0x100_0000)
    ensures FltModf.ModfParts(u).1 == FltBasic.Normalized(Tmp(Normal, u.s, n, TMP_1_BITS))
  {
    var j: nat := TMP_1_BITS - u.e;
    var U := Pow2(j);
    var v := FltModf.ModfParts(u).1;
    IntegralCount(v.m, u.m, U, n);
    CountBound(n, j);
    FltBasic.NormalizedScaled(u.s, n, j, TMP_1_BITS);
    FltBasic.NormalizedFixed(v);
    assert v == Tmp(Normal, u.s, n * U, TMP_1_BITS - j);
  }

  /** The multiple x of U with x <= m < x + U holds m / U units. */
  lemma IntegralCount(x: nat, m: nat, U: nat, n: nat)
    requires U > 0 && x > 0 && x % U == 0 && x <= m < x + U && n == m / U
    ensures x == n * U && n >= 1
  {
    var c := x / U;
    assert x == c * U;
    DivUnique(m, U, c, m - x);
  }

  /** A count of units 2^j that fits in 31 bits fits in 24 once j >= 7. */
  lemma CountBound(n: nat, j: nat)
    requires n * Pow2(j) < TMP_2
    ensures n < TMP_2 && (j >= 7 ==> n < 0x100_0000)
  {
    MulLe(1, Pow2(j), n);
    assert n <= Pow2(j) * n == n * Pow2(j);
    if j >= 7 {
      Pow2Monotone(7, j);
      Pow2Values();
      MulLe(0x80, Pow2(j), n);
      assert 0x80 * n < TMP_2;
    }
  }

  /** From 2^23 on, adding one half and taking the integral part gives the value back. */
  lemma RoundOfWhole(f: Flt)
    requires IsNormal(f) && ExpField(f) >= 150
    ensures var t := Unpacked(f); FltModf.ModfParts(FltBasic.Sum(t, Half(t.s))).1 == t
  {
    FltModf.WholeAboveExponent23(f);
    UnpackedGuardBits(f);
    var t := Unpacked(f);
    if t.e >= TMP_1_BITS {
      SumHalfNegligible(t);
      assert Pow2(0) == 1;
    } else {
      WholeKeptBelow30(t);
    }
  }

  /** From 2^23 up to 2^30 one half is less than a unit and the integral part is t. */
  lemma WholeKeptBelow30(t: Tmp)
    requires Wf(t) && t.c == Normal && 23 <= t.e < TMP_1_BITS && t.m % 0x80 == 0
    requires t.m % Pow2(TMP_1_BITS - t.e) == 0
    ensures FltModf.ModfParts(FltBasic.Sum(t, Half(t.s))).1 == t
  {
    var k: nat := TMP_1_BITS - t.e;
    var P, H := Pow2(k), Pow2(k - 1);
    assert P == 2 * H;
    HalfBelowGuard(t.m, k);
    var M := t.m + H;
    SumHalfAligned(t);
    assert FltBasic.Sum(t, Half(t.s)) == Tmp(Normal, t.s, M, t.e);
    var v := FltModf.ModfParts(Tmp(Normal, t.s, M, t.e)).1;
    if v.m <= t.m {
      SameMultiple(v.m, t.m, P);
    } else {
      SameMultiple(t.m, v.m, P);
    }
  }

  /** One half of a unit 2^k with k <= 7 fits below a mantissa whose guard bits are clear. */
  lemma HalfBelowGuard(m: nat, k: nat)
    requires m < TMP_2 && m % 0x80 == 0 && 1 <= k <= 7
    ensures m + Pow2(k - 1) < TMP_2
  {
    Pow2Monotone(k - 1, 6);
    Pow2Values();
    assert Pow2(7) == 2 * Pow2(6);
    var q := m / 0x80;
    assert m == q * 0x80;
  }

  /** The integral part of a value in [1, 2) is 1. */
  lemma IntegralFromOneToTwo(u: Tmp)
    requires Wf(u) && u.c == Normal && u.e == 0
    ensures FltModf.ModfParts(u).1 == Tmp(Normal, u.s, TMP_1, 0)
  {
    Pow2Of30();
    OnlyMultiple(FltModf.ModfParts(u).1.m);
  }

  /** The only multiple of 2^30 in [2^30, 2^31) is 2^30. */
  lemma OnlyMultiple(x: nat)
    requires TMP_1 <= x < TMP_2 && x % TMP_1 == 0
    ensures x == TMP_1
  {
  }
}
