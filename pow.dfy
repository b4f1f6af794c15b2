/**
 * flt/flt-pow.c: t^u. Zero exponents and a base of 1 give 1, +inf as base is
 * a table, an integral exponent goes through binary powering with the sign
 * rule for odd exponents, a positive base with any other exponent through
 * 2^(u * log2 t), and the rest through a table of special cases.
 */
module FltPow {
  import opened FltTypes
  import opened FltClassify
  import opened FltConvert
  import FltInit
  import FltBasic
  import FltCompare
  import FltModf
  import FltLog
  import FltExp

  /** -1.0 as a working value. */
  const NEG_ONE_TMP: Tmp := Tmp(Normal, 1, TMP_1, 0)

  // ---------------------------------------------------------- flt_tmp_is_odd

  /**
   * flt_tmp_is_odd: the integral part of |t|, halved, leaves a remainder.
   * Only a Normal can be odd.
   */
  function IsOdd(t: Tmp): bool
    requires Wf(t)
  {
    t.c == Normal &&
    var v := FltModf.ModfParts(t.(s := 0)).1;
    v.e >= 0 && FltModf.ModfParts(v.(e := v.e - 1)).0.c == Normal
  }

  method TmpIsOdd(pt: FltTmp) returns (result: bool)
    requires Wf(pt.Value())
    ensures result == IsOdd(pt.Value())
  {
    ghost var t := pt.Value();
    result := false;
    var u := new FltTmp();
    var v := new FltTmp();
    FltInit.Copy(u, pt);
    if u.c == Normal {
      u.s := 0;
      assert u.Value() == t.(s := 0);
      FltModf.TmpModf(u, v);
      ghost var w := FltModf.ModfParts(t.(s := 0)).1;
      assert v.Value() == w && Wf(w);
      if v.e >= 0 {
        v.e := v.e - 1;
        assert v.Value() == w.(e := w.e - 1);
        FltModf.TmpModf(v, u);
        result := v.c == Normal;
        assert v.c == FltModf.ModfParts(w.(e := w.e - 1)).0.c;
      }
    }
  }

  /** The whole number of units in |t| for a Normal t: its value rounded toward zero. */
  function Whole(t: Tmp): int
    requires t.c == Normal
  {
    if t.e < 0 then 0
    else if t.e <= TMP_1_BITS then t.m / Pow2(TMP_1_BITS - t.e)
    else t.m * Pow2(t.e - TMP_1_BITS)
  }

  // ------------------------------------------------------------ flt_tmp_powN

  /**
   * The loop of flt_tmp_powN as (v, base, exponent) at its exit: while v is
   * Normal and the exponent is at least 1, an odd exponent multiplies the
   * base into v, the base is squared and the exponent halved.
   */
  function PowLoop(v: Tmp, b: Tmp, u: Tmp): (r: (Tmp, Tmp, Tmp))
    requires Wf(u)
    ensures Wf(v) && Wf(b) ==> Wf(r.0) && Wf(r.1)
    ensures Wf(r.2) && r.2.c == u.c && r.2.s == u.s && r.2.m == u.m
    ensures r.0.c != Normal || r.2.e < 0
    decreases if u.e < 0 then 0 else u.e + 1
  {
    if v.c == Normal && u.e >= 0 then
      PowLoop(if IsOdd(u) then FltBasic.Product(v, b) else v, FltBasic.Product(b, b), u.(e := u.e - 1))
    else (v, b, u)
  }

  /** The base and exponent flt_tmp_powN works on for a Normal t: 1/t for a negative u, |u|. */
  function PowBase(t: Tmp, u: Tmp): (b: Tmp)
    requires Wf(t) && t.c == Normal
    ensures PosNormal(b)
  {
    ReciprocalOfNormal(t);
    (if u.s == 1 then FltBasic.Reciprocal(t) else t).(s := 0)
  }

  /**
   * flt_tmp_powN for an integral u: binary powering of a Normal, with the
   * sign of t kept for an odd exponent; for a zero or an infinite base the
   * class follows the sign of u and the sign of t is kept only for an odd u.
   */
  function PowN(t: Tmp, u: Tmp): (r: Tmp)
    requires Wf(t) && Wf(u)
    ensures Wf(r)
    ensures t.c == Normal ==> r.c == Normal && r.s == (if IsOdd(u) then t.s else 0)
    ensures t.c == Zero ==> r.c == (if u.s == 1 then Infinite else Zero) && r.s == (if IsOdd(u) then t.s else 0)
    ensures t.c == Infinite ==> r.c == (if u.s == 1 then Zero else Infinite) && r.s == (if IsOdd(u) then t.s else 0)
    ensures t.c == NaN ==> r.c == NaN
  {
    var odd := IsOdd(u);
    if t.c == Normal then
      var b := PowBase(t, u);
      PowLoopPositive(FltInit.ONE_TMP, b, u.(s := 0));
      PowLoop(FltInit.ONE_TMP, b, u.(s := 0)).0.(s := if odd then t.s else 0)
    else if t.c == Zero then
      t.(c := if u.s == 1 then Infinite else t.c, s := if odd then t.s else 0)
    else if t.c == Infinite then
      t.(c := if u.s == 1 then Zero else t.c, s := if odd then t.s else 0)
    else
      t.(c := NaN)
  }

  /** What flt_tmp_powN leaves in *pu: |u| run down by the loop for a Normal t, u otherwise. */
  function PowNExponent(t: Tmp, u: Tmp): (r: Tmp)
    requires Wf(t) && Wf(u)
    ensures t.c == Normal ==> r == u.(s := 0, e := if u.e >= 0 then -1 else u.e)
    ensures t.c != Normal ==> r == u
  {
    if t.c == Normal then
      var b := PowBase(t, u);
      PowLoopPositive(FltInit.ONE_TMP, b, u.(s := 0));
      PowLoop(FltInit.ONE_TMP, b, u.(s := 0)).2
    else u
  }

  method TmpPowN(pt: FltTmp, pu: FltTmp)
    requires pt != pu && Wf(pt.Value()) && Wf(pu.Value())
    modifies pt, pu
    ensures pt.Value() == PowN(old(pt.Value()), old(pu.Value()))
    ensures pu.Value() == PowNExponent(old(pt.Value()), old(pu.Value()))
  {
    ghost var t, u := pt.Value(), pu.Value();
    var uIsOdd := TmpIsOdd(pu);
    if pt.c == Normal {
      if pu.s == 1 {
        pu.s := 0;
        FltBasic.Invert(pt);
      }
      var sign := if uIsOdd then pt.s else 0;
      pt.s := 0;
      assert pt.Value() == PowBase(t, u) && pu.Value() == u.(s := 0);
      var v := new FltTmp();
      FltInit.InitOne(v);
      SquareAndMultiply(v, pt, pu);
      FltInit.Copy(pt, v);
      pt.s := sign;
    } else {
      if pt.c == Zero {
        if pu.s == 1 {
          pt.c := Infinite;
        }
        if !uIsOdd {
          pt.s := 0;
        }
      } else if pt.c == Infinite {
        if pu.s == 1 {
          pt.c := Zero;
        }
        if !uIsOdd {
          pt.s := 0;
        }
      } else {
        pt.c := NaN;
      }
    }
  }

  /** The while loop of flt_tmp_powN on v, the base *pt and the exponent *pu. */
  method SquareAndMultiply(pv: FltTmp, pt: FltTmp, pu: FltTmp)
    requires pv != pt && pv != pu && pt != pu
    requires PosNormal(pv.Value()) && PosNormal(pt.Value()) && Wf(pu.Value())
    modifies pv, pt, pu
    ensures (pv.Value(), pt.Value(), pu.Value()) == PowLoop(old(pv.Value()), old(pt.Value()), old(pu.Value()))
  {
    ghost var r := PowLoop(pv.Value(), pt.Value(), pu.Value());
    while pv.c == Normal && pu.e >= 0
      invariant Wf(pv.Value()) && Wf(pt.Value()) && Wf(pu.Value())
      invariant PowLoop(pv.Value(), pt.Value(), pu.Value()) == r
      decreases if pu.e < 0 then 0 else pu.e + 1
    {
      ghost var v0, b0, u0 := pv.Value(), pt.Value(), pu.Value();
      SquareAndMultiplyStep(pv, pt, pu);
      PowLoopStep(v0, b0, u0);
    }
  }

  /** One pass of the loop body: multiply in the base on an odd exponent, square the base, halve the exponent. */
  method SquareAndMultiplyStep(pv: FltTmp, pt: FltTmp, pu: FltTmp)
    requires pv != pt && pv != pu && pt != pu && Wf(pu.Value())
    modifies pv, pt, pu
    ensures pv.Value() == (if IsOdd(old(pu.Value())) then FltBasic.Product(old(pv.Value()), old(pt.Value())) else old(pv.Value()))
    ensures pt.Value() == FltBasic.Product(old(pt.Value()), old(pt.Value()))
    ensures pu.Value() == old(pu.Value()).(e := old(pu.e) - 1)
  {
    var odd := TmpIsOdd(pu);
    if odd {
      FltBasic.Multiply(pv, pt);
    }
    FltBasic.Multiply(pt, pt);
    pu.e := pu.e - 1;
  }

  // --------------------------------------------------------- flt_tmp_pow_alt

  /**
   * flt_tmp_pow_alt, for what the integral and logarithmic paths leave:
   * -inf and zero bases against a non-integral or infinite exponent, and a
   * Normal base against an infinite exponent, where -1 gives 1 and otherwise
   * |t| against 1 decides between +0 and +inf. Everything else is NaN.
   */
  function PowAlt(t: Tmp, u: Tmp): (r: Flt)
    requires Wf(t) && Wf(u)
    ensures t.c == Infinite && t.s == 1 && (u.c == Infinite || u.c == Normal) ==>
              r == (if u.s == 1 then FLT_POS_0 else FLT_POS_INF)
    ensures t.c == Zero && (u.c == Infinite || u.c == Normal) ==>
              r == (if u.s == 1 then FLT_POS_INF else FLT_POS_0)
    ensures t == NEG_ONE_TMP && u.c == Infinite ==> r == FLT_POS_1
    ensures t.c == NaN || u.c == NaN || u.c == Zero || (t.c == Normal && u.c == Normal) ==> r == FLT_NAN
    ensures r == FLT_POS_0 || r == FLT_POS_INF || r == FLT_POS_1 || r == FLT_NAN
  {
    match t.c
    case Infinite =>
      if t.s == 1 && (u.c == Infinite || u.c == Normal) then
        (if u.s == 1 then FLT_POS_0 else FLT_POS_INF)
      else FLT_NAN
    case Zero =>
      if u.c == Infinite || u.c == Normal then (if u.s == 1 then FLT_POS_INF else FLT_POS_0)
      else FLT_NAN
    case Normal =>
      if u.c == Infinite then
        if FltCompare.TmpCompare(t, NEG_ONE_TMP, EqualTo) then FLT_POS_1
        else if FltCompare.TmpCompare(t.(s := 0), FltInit.ONE_TMP, if u.s == 1 then LessThan else GreaterThan) then FLT_POS_INF
        else FLT_POS_0
      else FLT_NAN
    case NaN => FLT_NAN
  }

  // ----------------------------------------------------------------- flt_pow

  /** t compares equal to 1.0. */
  predicate IsOne(t: Tmp) {
    FltCompare.TmpCompare(t, FltInit.ONE_TMP, EqualTo)
  }

  /** u is a whole number: a Normal without fractional part, or a zero. */
  predicate Integral(u: Tmp)
    requires Wf(u)
  {
    u.c == Zero || (u.c == Normal && FltModf.ModfParts(u).0.c == Zero)
  }

  /** The logarithmic path: 2^(u * log2 t) for a positive Normal t. */
  function PowByLogarithm(t: Tmp, u: Tmp): (r: Flt)
    requires PosNormal(t) && Wf(u)
    ensures u.c == NaN ==> r == FLT_NAN
    ensures u.c == Normal ==> !IsNaN(r) && SignField(r) == 0
  {
    var l := FltLog.Log2Tmp(t);
    LogProductShape(l, u);
    FltExp.Exp2Packed(FltBasic.Product(l, u))
  }

  /** A finite logarithm times a NaN is NaN, and times a Normal is a Normal or a zero. */
  lemma LogProductShape(l: Tmp, u: Tmp)
    requires Wf(l) && (l.c == Normal || l.c == Zero) && Wf(u)
    ensures Wf(FltBasic.Product(l, u))
    ensures u.c == NaN ==> FltBasic.Product(l, u).c == NaN
    ensures u.c == Normal ==> FltBasic.Product(l, u).c == Normal || FltBasic.Product(l, u).c == Zero
  {
    if u.c == Normal {
      FltBasic.FiniteClosed(l, u);
    }
  }

  /**
   * flt_pow. A zero exponent or a base equal to 1 gives 1 (even against
   * NaN); +inf as base gives +0 or +inf by the sign of u; otherwise a NaN on
   * either side gives NaN.
   */
  function Pow(f: Flt, g: Flt): (r: Flt)
    ensures IsZero(g) ==> r == FLT_POS_1
    ensures IsOne(Unpacked(f)) ==> r == FLT_POS_1
    ensures f == FLT_POS_INF && !IsNaN(g) && !IsZero(g) ==>
              r == (if SignField(g) == 1 then FLT_POS_0 else FLT_POS_INF)
    ensures (IsNaN(f) || IsNaN(g)) && !IsZero(g) && !IsOne(Unpacked(f)) ==> r == FLT_NAN
  {
    var t, u := Unpacked(f), Unpacked(g);
    if u.c == Zero || IsOne(t) then FLT_POS_1
    else if t.c == Infinite && t.s == 0 && u.c != NaN then (if u.s == 1 then FLT_POS_0 else FLT_POS_INF)
    else if Integral(u) then Packed(PowN(t, u))
    else if t.c == Normal && t.s == 0 then PowByLogarithm(t, u)
    else PowAlt(t, u)
  }

  // ------------------------------------------------------------------ lemmas

  /** While v and the base start as positive Normals the loop keeps them so, and runs the exponent down below 1. */
  lemma {:induction false} PowLoopPositive(v: Tmp, b: Tmp, u: Tmp)
    requires PosNormal(v) && PosNormal(b) && Wf(u)
    ensures var r := PowLoop(v, b, u);
      PosNormal(r.0) && PosNormal(r.1) && r.2 == u.(e := if u.e >= 0 then -1 else u.e)
    decreases if u.e < 0 then 0 else u.e + 1
  {
    if u.e >= 0 {
      FltBasic.ProductOfNormals(v, b);
      FltBasic.ProductOfNormals(b, b);
      PowLoopPositive(if IsOdd(u) then FltBasic.Product(v, b) else v, FltBasic.Product(b, b), u.(e := u.e - 1));
    }
  }

  /** Oddness is the parity of the whole part. */
  lemma IsOddOfWhole(t: Tmp)
    requires Wf(t) && t.c == Normal
    ensures IsOdd(t) <==> Whole(t) % 2 == 1
  {
    if t.e == 0 {
      IsOddAtOne(t);
    } else if 0 < t.e <= TMP_1_BITS {
      IsOddInRange(t);
    } else if t.e > TMP_1_BITS {
      IsOddAboveRange(t);
    }
  }

  /** In [1, 2) the whole part is 1, and the halved integral part is all fraction. */
  lemma IsOddAtOne(t: Tmp)
    requires Wf(t) && t.c == Normal && t.e == 0
    ensures IsOdd(t) && Whole(t) == 1
  {
    Pow2Of30();
    DivUnique(t.m, TMP_1, 1, t.m - TMP_1);
  }

  /** With units of 2^(30 - e), halving leaves a fraction exactly when the number of units is odd. */
  lemma IsOddInRange(t: Tmp)
    requires Wf(t) && t.c == Normal && 0 < t.e <= TMP_1_BITS
    ensures IsOdd(t) <==> Whole(t) % 2 == 1
  {
    var unit := Pow2(TMP_1_BITS - t.e);
    var v := IntegralInRange(t);
    HalvedFraction(v);
    assert Pow2(TMP_1_BITS - (t.e - 1)) == 2 * unit;
    UnitsParity(t.m, unit);
  }

  /** The integral part of |t| at an exponent in [0, 30]: the mantissa rounded down to whole units. */
  lemma IntegralInRange(t: Tmp) returns (v: Tmp)
    requires Wf(t) && t.c == Normal && 0 <= t.e <= TMP_1_BITS
    ensures v == FltModf.ModfParts(t.(s := 0)).1
    ensures v == Tmp(Normal, 0, t.m - t.m % Pow2(TMP_1_BITS - t.e), t.e) && Wf(v)
  {
    var unit := Pow2(TMP_1_BITS - t.e);
    var u := t.(s := 0);
    v := FltModf.ModfParts(u).1;
    assert v.c == Normal && v.s == 0 && v.e == t.e;
    assert v.m % unit == 0 && v.m <= t.m < v.m + unit;
    RoundedDown(t.m, v.m, unit);
  }

  /** The only multiple of unit in (m - unit, m] is m rounded down to whole units. */
  lemma RoundedDown(m: nat, w: nat, unit: nat)
    requires unit > 0 && w % unit == 0 && w <= m < w + unit
    ensures w == m - m % unit
  {
    var q := w / unit;
    assert w == q * unit;
    DivUnique(m, unit, q, m - w);
  }

  /** Lowering the exponent of a Normal in [0, 30] by one: the fraction is Normal unless the units are even. */
  lemma HalvedFraction(v: Tmp)
    requires Wf(v) && v.c == Normal && 0 < v.e <= TMP_1_BITS
    ensures FltModf.ModfParts(v.(e := v.e - 1)).0.c == Normal <==> v.m % Pow2(TMP_1_BITS - v.e + 1) != 0
  {
    var p := FltModf.ModfParts(v.(e := v.e - 1));
    assert p.0.c == Zero || p.0.c == Normal;
  }

  /** Above exponent 30 everything is integral and even: halving leaves no fraction. */
  lemma IsOddAboveRange(t: Tmp)
    requires Wf(t) && t.c == Normal && t.e > TMP_1_BITS
    ensures !IsOdd(t) && Whole(t) % 2 == 0
  {
    var v := FltModf.ModfParts(t.(s := 0)).1;
    assert v == t.(s := 0);
    var w := v.(e := v.e - 1);
    if w.e == TMP_1_BITS {
      HalvedToUnits(w);
    } else {
      assert FltModf.ModfParts(w).0.c == Zero;
    }
    WholeEvenAboveRange(t);
  }

  lemma WholeEvenAboveRange(t: Tmp)
    requires t.c == Normal && t.e > TMP_1_BITS
    ensures Whole(t) % 2 == 0
  {
    var k: nat := t.e - TMP_1_BITS - 1;
    assert Pow2(k + 1) == 2 * Pow2(k);
    assert Whole(t) == 2 * (t.m * Pow2(k));
  }

  /** At exponent 30 one unit is 1: nothing is fractional. */
  lemma HalvedToUnits(w: Tmp)
    requires Wf(w) && w.c == Normal && w.e == TMP_1_BITS
    ensures FltModf.ModfParts(w).0.c == Zero
  {
    assert Pow2(0) == 1;
  }

  /** The unit-aligned part m - m % d is an even number of units exactly when m / d is even. */
  lemma UnitsParity(m: nat, d: nat)
    requires d > 0
    ensures (m - m % d) % (2 * d) == 0 <==> (m / d) % 2 == 0
  {
    var q := m / d;
    assert m - m % d == q * d;
    var k, r := q / 2, q % 2;
    assert q * d == k * (2 * d) + r * d;
    DivUnique(q * d, 2 * d, k, r * d);
  }

  /** Lowering the exponent by one halves the whole part, rounding down. */
  lemma WholeHalves(t: Tmp)
    requires Wf(t) && t.c == Normal && t.e >= 0
    ensures Whole(t.(e := t.e - 1)) == Whole(t) / 2
  {
    if t.e == 0 {
      Pow2Of30();
      DivUnique(t.m, TMP_1, 1, t.m - TMP_1);
    } else if t.e <= TMP_1_BITS {
      DivPow2Add(t.m, TMP_1_BITS - t.e, 1);
    } else if t.e == TMP_1_BITS + 1 {
      assert Pow2(1) == 2;
    } else {
      assert Pow2(t.e - TMP_1_BITS) == 2 * Pow2(t.e - TMP_1_BITS - 1);
    }
  }

  /**
   * n is the whole part of u as the loop reads it, one bit per step: u below
   * 1 is 0, and otherwise the oddness of u is the low bit of n and u with its
   * exponent lowered carries n / 2.
   */
  ghost predicate BitsOf(u: Tmp, n: int)
    requires Wf(u)
    decreases if u.e < 0 then 0 else u.e + 1
  {
    if u.e < 0 then n == 0
    else n >= 0 && (IsOdd(u) <==> n % 2 == 1) && BitsOf(u.(e := u.e - 1), n / 2)
  }

  /** The whole part is what the loop reads bit by bit. */
  lemma {:induction false} WholeBits(u: Tmp)
    requires Wf(u) && u.c == Normal
    ensures BitsOf(u, Whole(u))
    decreases if u.e < 0 then 0 else u.e + 1
  {
    if u.e >= 0 {
      IsOddOfWhole(u);
      WholeHalves(u);
      WholeBits(u.(e := u.e - 1));
    }
  }

  /**
   * Binary powering is exact on powers of two: starting from 2^x with the
   * base 2^y, the loop ends with 2^(x + y * n) for the whole part n of u.
   */
  lemma {:induction false} PowLoopOfPowers(x: int, y: int, u: Tmp, n: int)
    requires Wf(u) && BitsOf(u, n)
    ensures PowLoop(Tmp(Normal, 0, TMP_1, x), Tmp(Normal, 0, TMP_1, y), u).0 == Tmp(Normal, 0, TMP_1, x + y * n)
    decreases if u.e < 0 then 0 else u.e + 1
  {
    var v, b := Tmp(Normal, 0, TMP_1, x), Tmp(Normal, 0, TMP_1, y);
    if u.e >= 0 {
      var x' := if n % 2 == 1 then x + y else x;
      PowLoopStep(v, b, u);
      OddStep(x, y, u, n);
      FltExp.ProductOfPowersOfTwo(y, y);
      PowLoopOfPowers(x', y + y, u.(e := u.e - 1), n / 2);
      ExponentStep(x, y, n, n / 2);
    }
  }

  /** An odd step multiplies 2^y into 2^x exactly; an even one leaves 2^x. */
  lemma OddStep(x: int, y: int, u: Tmp, n: int)
    requires Wf(u) && u.e >= 0 && BitsOf(u, n)
    ensures (if IsOdd(u) then FltBasic.Product(Tmp(Normal, 0, TMP_1, x), Tmp(Normal, 0, TMP_1, y))
             else Tmp(Normal, 0, TMP_1, x)) == Tmp(Normal, 0, TMP_1, if n % 2 == 1 then x + y else x)
  {
    FltExp.ProductOfPowersOfTwo(x, y);
  }

  /** One step of the loop, for a Normal v and an exponent of at least 1. */
  lemma PowLoopStep(v: Tmp, b: Tmp, u: Tmp)
    requires Wf(u) && v.c == Normal && u.e >= 0
    ensures PowLoop(v, b, u) ==
              PowLoop(if IsOdd(u) then FltBasic.Product(v, b) else v, FltBasic.Product(b, b), u.(e := u.e - 1))
  {
    var v' := if IsOdd(u) then FltBasic.Product(v, b) else v;
    assert PowLoop(v, b, u) == PowLoop(v', FltBasic.Product(b, b), u.(e := u.e - 1));
  }

  lemma ExponentStep(x: int, y: int, n: int, h: int)
    requires n >= 0 && h == n / 2
    ensures (if n % 2 == 1 then x + y else x) + (y + y) * h == x + y * n
  {
    assert n == 2 * (n / 2) + n % 2;
  }

  /** A power of two to a whole power: (2^a)^n == 2^(a * n), and 2^(-a * n) for a negative exponent. */
  lemma PowNOfPowerOfTwo(a: int, u: Tmp)
    requires Wf(u) && u.c == Normal
    ensures PowN(Tmp(Normal, 0, TMP_1, a), u) ==
              Tmp(Normal, 0, TMP_1, if u.s == 1 then -a * Whole(u) else a * Whole(u))
  {
    var t := Tmp(Normal, 0, TMP_1, a);
    var b := PowBase(t, u);
    assert b == Tmp(Normal, 0, TMP_1, if u.s == 1 then -a else a);
    var n := Whole(u);
    assert Whole(u.(s := 0)) == n;
    WholeBits(u.(s := 0));
    PowLoopOfPowers(0, b.e, u.(s := 0), n);
  }

  /**
   * 2.0 to the power 2^32: the result's exponent is 2^32, beyond the int that
   * holds the exponent of flt_tmp, and the squared base's exponent passes
   * 2^31 on the way there.
   */
  lemma PowExponentBeyondInt32()
    ensures PowN(Tmp(Normal, 0, TMP_1, 1), Tmp(Normal, 0, TMP_1, 32)).e == 0x1_0000_0000
  {
    var u := Tmp(Normal, 0, TMP_1, 32);
    Pow2Values();
    assert Whole(u) == 0x1_0000_0000;
    PowNOfPowerOfTwo(1, u);
  }

  /** A negative exponent inverts the base: t^-n == (1/t)^n. */
  lemma PowNInverts(t: Tmp, u: Tmp)
    requires Wf(t) && Wf(u) && t.c == Normal && u.s == 1
    ensures PowN(t, u) == PowN(FltBasic.Reciprocal(t), u.(s := 0))
  {
    ReciprocalOfNormal(t);
    assert IsOdd(u) == IsOdd(u.(s := 0));
  }

  /** The sign of the base only reaches the result through an odd exponent. */
  lemma PowNSign(t: Tmp, u: Tmp)
    requires Wf(t) && Wf(u) && t.c == Normal
    ensures PowN(FltBasic.Negated(t), u) == PowN(t, u).(s := if IsOdd(u) then 1 - t.s else 0)
  {
    ReciprocalOfNormal(t);
    ReciprocalOfNormal(FltBasic.Negated(t));
    assert PowBase(FltBasic.Negated(t), u) == PowBase(t, u);
  }

  /** pow(-1, +/-inf) is 1. */
  lemma PowOfNegativeOne(g: Flt)
    requires IsInf(g)
    ensures Pow(FLT_NEG_1, g) == FLT_POS_1
  {
    var t := Unpacked(FLT_NEG_1);
    assert t == NEG_ONE_TMP;
    FltBasic.SumSameSign(t, FltBasic.Negated(FltInit.ONE_TMP));
    FltBasic.SumNegated(FltInit.ONE_TMP);
    FltBasic.SumCommutes(t, FltInit.ONE_TMP);
  }

  /** A negative finite base against a non-integral finite exponent has no real power: NaN. */
  lemma PowOfNegativeBase(f: Flt, g: Flt)
    requires SignField(f) == 1 && (IsNormal(f) || IsSubnormal(f))
    requires IsNormal(g) || IsSubnormal(g)
    requires !Integral(Unpacked(g))
    ensures Pow(f, g) == FLT_NAN
  {
    var t := Unpacked(f);
    FltBasic.SumSameSign(t, FltBasic.Negated(FltInit.ONE_TMP));
  }

  /** A positive finite base against a non-integral finite exponent gives a number, never negative. */
  lemma PowOfPositiveBase(f: Flt, g: Flt)
    requires SignField(f) == 0 && (IsNormal(f) || IsSubnormal(f))
    requires (IsNormal(g) || IsSubnormal(g)) && !Integral(Unpacked(g))
    ensures !IsNaN(Pow(f, g)) && SignField(Pow(f, g)) == 0
  {
  }

  /** A zero base against a non-integral finite or an infinite exponent: +inf for a negative one, +0 otherwise. */
  lemma PowOfZeroBase(f: Flt, g: Flt)
    requires IsZero(f) && !Integral(Unpacked(g)) && !IsNaN(g)
    ensures Pow(f, g) == (if SignField(g) == 1 then FLT_POS_INF else FLT_POS_0)
  {
  }

  /** A zero or infinite base against a whole exponent: the class from the sign of u, the base's sign only when u is odd. */
  lemma PowOfSpecialBaseIntegral(f: Flt, g: Flt)
    requires (IsZero(f) || f == FLT_NEG_INF) && Integral(Unpacked(g)) && !IsZero(g)
    ensures var keep := IsOdd(Unpacked(g)) && SignField(f) == 1; var neg := SignField(g) == 1;
      IsZero(f) ==> Pow(f, g) == (if neg then (if keep then FLT_NEG_INF else FLT_POS_INF)
                                  else (if keep then FLT_NEG_0 else FLT_POS_0))
    ensures var odd := IsOdd(Unpacked(g)); var neg := SignField(g) == 1;
      f == FLT_NEG_INF ==> Pow(f, g) == (if neg then (if odd then FLT_NEG_0 else FLT_POS_0)
                                         else (if odd then FLT_NEG_INF else FLT_POS_INF))
  {
  }

  /** The reciprocal of a Normal is a Normal of the same sign, and commutes with negation. */
  lemma ReciprocalOfNormal(t: Tmp)
    requires Wf(t) && t.c == Normal
    ensures var r := FltBasic.Reciprocal(t); Wf(r) && r.c == Normal && r.s == t.s
    ensures FltBasic.Reciprocal(FltBasic.Negated(t)) == FltBasic.Negated(FltBasic.Reciprocal(t))
  {
    if t.m != TMP_1 {
      FltBasic.ReciprocalOfNormal(t);
      FltBasic.ReciprocalOfNormal(FltBasic.Negated(t));
    }
  }
}
