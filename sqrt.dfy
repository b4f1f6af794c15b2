/**
 * flt/flt-sqrt.c: the square root by three Newton steps from a linear first
 * guess on the mantissa in [1, 2), one multiply by sqrt(2) for an odd
 * exponent and half the exponent put back; the forgiving variant that maps
 * a negative value to zero; and hypot computed on working values.
 */
module FltSqrt {
  import opened FltTypes
  import opened FltClassify
  import opened FltConvert
  import FltInit
  import FltBasic
  import FltArith

  /** The first guess 0.411954965695194 * t + 0.600722632796001, and sqrt(2). */
  const GUESS_SLOPE: Tmp := Tmp(Normal, 0, 0x6975_E171, -2)
  const GUESS_OFFSET: Tmp := Tmp(Normal, 0, 0x4CE4_7AAF, -1)
  const SQRT2: Tmp := Tmp(Normal, 0, 0x5A82_799A, 0)

  /** One Newton step x <- (x + t/x) / 2, the halving done by lowering the exponent. */
  function NewtonStep(x: Tmp, u: Tmp): (y: Tmp)
    ensures PosNormal(x) && PosNormal(u) ==> PosNormal(y)
  {
    var q := FltBasic.Product(FltBasic.Reciprocal(x), u);
    var z := FltBasic.Sum(x, q);
    if PosNormal(x) && PosNormal(u) then
      ReciprocalPositive(x);
      ProductPositive(FltBasic.Reciprocal(x), u);
      FltBasic.SumSameSign(x, q);
      z.(e := z.e - 1)
    else
      z.(e := z.e - 1)
  }

  /** n Newton steps from x towards the root of u. */
  function Newton(x: Tmp, u: Tmp, n: nat): (y: Tmp)
    ensures PosNormal(x) && PosNormal(u) ==> PosNormal(y)
    decreases n
  {
    if n == 0 then x else NewtonStep(Newton(x, u, n - 1), u)
  }

  /** The root of a mantissa in [1, 2): exactly 1 for 1, else three Newton steps. */
  function MantissaRoot(x: Tmp): (r: Tmp)
    requires PosNormal(x)
    ensures PosNormal(r)
    ensures x.m == TMP_1 ==> r == x
  {
    if x.m > TMP_1 then
      var g := FltBasic.Product(x, GUESS_SLOPE);
      ProductPositive(x, GUESS_SLOPE);
      FltBasic.SumSameSign(g, GUESS_OFFSET);
      Newton(FltBasic.Sum(g, GUESS_OFFSET), x, 3)
    else x
  }

  /**
   * flt_tmp_sqrt on a positive Normal: the root of the mantissa taken at
   * exponent 0, times sqrt(2) when the exponent is odd, with half the
   * exponent (rounded toward minus infinity) added back. `exponent & 1` and
   * `exponent >> 1` on a two's complement int are e % 2 and e / 2 with the
   * remainder never negative.
   */
  function SquareRoot(t: Tmp): (r: Tmp)
    requires PosNormal(t)
    ensures PosNormal(r)
  {
    var y := OddRoot(t.(e := 0), t.e % 2 == 1);
    y.(e := y.e + t.e / 2)
  }

  /** The root of a mantissa z at exponent 0, times sqrt(2) when the exponent was odd. */
  function OddRoot(z: Tmp, odd: bool): (r: Tmp)
    requires PosNormal(z) && z.e == 0
    ensures PosNormal(r)
    ensures !odd ==> r == MantissaRoot(z)
  {
    var x := MantissaRoot(z);
    ProductPositive(x, SQRT2);
    if odd then FltBasic.Product(x, SQRT2) else x
  }

  /**
   * flt_tmp_sqrt. A Normal with the sign set, or any other class, makes the
   * source exit, so the precondition excludes them.
   */
  method TmpSqrt(pt: FltTmp)
    requires PosNormal(pt.Value())
    modifies pt
    ensures pt.Value() == SquareRoot(old(pt.Value()))
  {
    var exponent := pt.e;
    pt.e := 0;
    if pt.m > TMP_1 {
      RootOfMantissa(pt);
    }
    if exponent % 2 == 1 {
      var u := new FltTmp();
      FltInit.Initialize(u, Normal, 0, 0x5A82_799A, 0);
      FltBasic.Multiply(pt, u);
    }
    pt.e := pt.e + exponent / 2;
  }

  /** The Newton part of flt_tmp_sqrt: the first guess, then three steps. */
  method RootOfMantissa(pt: FltTmp)
    requires PosNormal(pt.Value()) && pt.m > TMP_1
    modifies pt
    ensures pt.Value() == MantissaRoot(old(pt.Value()))
  {
    ghost var x := pt.Value();
    var u := new FltTmp();
    var v := new FltTmp();
    FltInit.Copy(u, pt);
    FltInit.Initialize(v, Normal, 0, 0x6975_E171, -2);
    FltBasic.Multiply(pt, v);
    FltInit.Initialize(v, Normal, 0, 0x4CE4_7AAF, -1);
    FltBasic.Add(pt, v.Value());
    ghost var x0 := pt.Value();
    FirstGuess(x, x0);
    for i := 0 to 3
      invariant u.Value() == x
      invariant pt.Value() == Newton(x0, x, i)
    {
      NewtonIteration(pt, u, v);
    }
  }

  /** The value the Newton loop starts from is the first guess of MantissaRoot. */
  lemma FirstGuess(x: Tmp, x0: Tmp)
    requires PosNormal(x) && x.m > TMP_1
    requires x0 == FltBasic.Sum(FltBasic.Product(x, GUESS_SLOPE), GUESS_OFFSET)
    ensures MantissaRoot(x) == Newton(x0, x, 3)
  {
  }

  /** One pass of the Newton loop: v = u / x, x = (x + v) / 2. */
  method NewtonIteration(pt: FltTmp, pu: FltTmp, pv: FltTmp)
    requires pt != pu && pt != pv && pu != pv
    modifies pt, pv
    ensures pt.Value() == NewtonStep(old(pt.Value()), pu.Value())
  {
    FltInit.Copy(pv, pt);
    FltBasic.Invert(pv);
    FltBasic.Multiply(pv, pu);
    FltBasic.Add(pt, pv.Value());
    pt.e := pt.e - 1;
  }

  /**
   * flt_tmp_sqrt_ext: a positive Normal gets its root, a negative Normal
   * (taken to be a rounding error below zero) becomes +0, and every other
   * class is left as it is.
   */
  function SquareRootExt(t: Tmp): (r: Tmp)
    requires Wf(t)
    ensures Wf(r)
    ensures t.c == Normal && t.s == 0 ==> r.c == Normal && r.s == 0
    ensures t.c == Normal && t.s == 1 ==> r == FltInit.ZERO_TMP
    ensures t.c != Normal ==> r == t
  {
    if t.c == Normal then
      if t.s == 0 then SquareRoot(t) else FltInit.ZERO_TMP
    else t
  }

  method TmpSqrtExt(pt: FltTmp)
    requires Wf(pt.Value())
    modifies pt
    ensures pt.Value() == SquareRootExt(old(pt.Value()))
  {
    if pt.c == Normal {
      if pt.s == 0 {
        TmpSqrt(pt);
      } else {
        FltInit.InitZero(pt);
      }
    }
  }

  /** flt_tmp_sqrt_alt: the packed result for everything but a positive Normal. */
  function SqrtSpecial(t: Tmp): Flt
    requires t.c != Subnormal
  {
    match t.c
    case Infinite => if t.s == 1 then FLT_NAN else FLT_POS_INF
    case NaN => FLT_NAN
    case Normal => FLT_NAN
    case Zero => if t.s == 1 then FLT_NEG_0 else FLT_POS_0
  }

  /**
   * flt_sqrt: +inf stays +inf, either zero stays itself, NaN, -inf and every
   * negative non-zero value give NaN, and a positive finite value gives a
   * positive non-NaN result.
   */
  function Sqrt(f: Flt): (r: Flt)
    ensures f == FLT_POS_INF ==> r == FLT_POS_INF
    ensures IsNaN(f) || f == FLT_NEG_INF ==> r == FLT_NAN
    ensures SignField(f) == 1 && (IsNormal(f) || IsSubnormal(f)) ==> r == FLT_NAN
    ensures IsZero(f) ==> r == f
    ensures SignField(f) == 0 && (IsNormal(f) || IsSubnormal(f)) ==> SignField(r) == 0 && !IsNaN(r)
  {
    var t := Unpacked(f);
    if t.c == Normal && t.s == 0 then
      var r := SquareRoot(t);
      PackedSign(r);
      PackedNotNaN(r);
      Packed(r)
    else
      UnpackPackRoundTrip(f);
      SqrtSpecial(t)
  }

  /**
   * flt_hypot: sqrt_ext(t*t + u*u) on the unpacked operands, with no table of
   * its own; the squares cannot overflow the working exponent.
   */
  function Hypot(f: Flt, g: Flt): (r: Flt)
    ensures IsNaN(f) || IsNaN(g) ==> r == FLT_NAN
    ensures !IsNaN(f) && !IsNaN(g) ==> !IsNaN(r) && SignField(r) == 0
    ensures IsZero(f) && IsZero(g) ==> r == FLT_POS_0
    ensures IsInf(f) && !IsNaN(g) ==> r == FLT_POS_INF
  {
    var t, u := Unpacked(f), Unpacked(g);
    var w := SquareRootExt(SumOfSquares(t, u));
    if !IsNaN(f) && !IsNaN(g) then
      SumOfSquaresSign(t, u);
      PackedSign(w);
      PackedNotNaN(w);
      Packed(w)
    else
      Packed(w)
  }

  /** t*t + u*u with the working multiply and add. */
  function SumOfSquares(t: Tmp, u: Tmp): (w: Tmp)
    requires Wf(t) && Wf(u)
    ensures Wf(w)
    ensures t.c == NaN || u.c == NaN ==> w.c == NaN
  {
    FltBasic.Sum(FltBasic.Product(t, t), FltBasic.Product(u, u))
  }

  // ------------------------------------------------------------------ lemmas

  /** The reciprocal of a positive Normal is a positive Normal. */
  lemma ReciprocalPositive(x: Tmp)
    requires PosNormal(x)
    ensures PosNormal(FltBasic.Reciprocal(x))
  {
    if x.m != TMP_1 {
      FltBasic.ReciprocalOfNormal(x);
    }
  }

  /** The product of two positive Normals is a positive Normal. */
  lemma ProductPositive(x: Tmp, y: Tmp)
    requires PosNormal(x) && PosNormal(y)
    ensures PosNormal(FltBasic.Product(x, y))
  {
    FltBasic.ProductOfNormals(x, y);
  }

  /** A square is never negative, and it is NaN only for NaN. */
  lemma SquareSign(t: Tmp)
    requires Wf(t)
    ensures var p := FltBasic.Product(t, t); Wf(p) && (p.c == NaN <==> t.c == NaN) && (p.c != NaN ==> p.s == 0)
    ensures t.c == Zero ==> FltBasic.Product(t, t).c == Zero
    ensures t.c == Infinite ==> FltBasic.Product(t, t).c == Infinite
  {
    if t.c == Normal {
      FltBasic.ProductOfNormals(t, t);
    }
  }

  /** The sum of two squares of non-NaN values is non-negative and not NaN. */
  lemma SumOfSquaresSign(t: Tmp, u: Tmp)
    requires Wf(t) && Wf(u) && t.c != NaN && u.c != NaN
    ensures SquareRootExt(SumOfSquares(t, u)).c != NaN
    ensures SquareRootExt(SumOfSquares(t, u)).s == 0
  {
    SquareSign(t);
    SquareSign(u);
    var p, q := FltBasic.Product(t, t), FltBasic.Product(u, u);
    if p.c == Normal && q.c == Normal {
      FltBasic.SumSameSign(p, q);
    }
  }

  /** Squaring ignores the sign: (-t) * (-t) == t * t. */
  lemma SquareSignless(t: Tmp)
    requires Wf(t) && t.c != NaN
    ensures FltBasic.Product(FltBasic.Negated(t), FltBasic.Negated(t)) == FltBasic.Product(t, t)
  {
    var n := FltBasic.Negated(t);
    assert Xor(n.s, n.s) == Xor(t.s, t.s) == 0;
    assert n.(s := 0) == t.(s := 0);
  }

  /** hypot ignores the signs of its operands. */
  lemma HypotSignless(f: Flt, g: Flt)
    ensures Hypot(FltArith.FlipSign(f), g) == Hypot(f, g)
    ensures Hypot(f, FltArith.FlipSign(g)) == Hypot(f, g)
  {
    ClassifySignless(f);
    ClassifySignless(FltArith.FlipSign(f));
    ClassifySignless(g);
    ClassifySignless(FltArith.FlipSign(g));
    if !IsNaN(f) {
      FltArith.UnpackedFlipSign(f);
      SquareSignless(Unpacked(f));
    }
    if !IsNaN(g) {
      FltArith.UnpackedFlipSign(g);
      SquareSignless(Unpacked(g));
    }
  }

  /** hypot is symmetric: the working add commutes up to unused fields, which packing ignores. */
  lemma HypotCommutes(f: Flt, g: Flt)
    ensures Hypot(f, g) == Hypot(g, f)
  {
    var t, u := Unpacked(f), Unpacked(g);
    var p, q := FltBasic.Product(t, t), FltBasic.Product(u, u);
    FltBasic.SumCommutes(p, q);
    ExtEquivalent(SumOfSquares(t, u), SumOfSquares(u, t));
  }

  /** Equivalent values have the same packed sqrt_ext. */
  lemma ExtEquivalent(a: Tmp, b: Tmp)
    requires Wf(a) && Wf(b) && Equivalent(a, b)
    ensures Packed(SquareRootExt(a)) == Packed(SquareRootExt(b))
  {
    if a.c == Normal {
      assert a == b;
    } else {
      PackedEquivalent(a, b);
    }
  }

  /** An even power of two has an exact root: sqrt(2^(2k)) == 2^k. */
  lemma RootOfEvenPower(t: Tmp)
    requires t.c == Normal && t.s == 0 && t.m == TMP_1 && t.e % 2 == 0
    ensures SquareRoot(t) == Tmp(Normal, 0, TMP_1, t.e / 2)
  {
    assert t.(e := 0) == Tmp(Normal, 0, TMP_1, 0);
  }

  /** An odd power of two costs the one multiply by sqrt(2): sqrt(2^(2k+1)) == sqrt(2) * 2^k. */
  lemma RootOfOddPower(t: Tmp)
    requires t.c == Normal && t.s == 0 && t.m == TMP_1 && t.e % 2 == 1
    ensures SquareRoot(t) == SQRT2.(e := t.e / 2)
  {
    var one := Tmp(Normal, 0, TMP_1, 0);
    assert t.(e := 0) == one;
    FltBasic.ProductByOne(SQRT2);
  }

  /** Scaling by 4^k scales the root by exactly 2^k. */
  lemma RootScales(t: Tmp, k: int)
    requires PosNormal(t)
    ensures SquareRoot(t.(e := t.e + 2 * k)) == SquareRoot(t).(e := SquareRoot(t).e + k)
  {
    var u := t.(e := t.e + 2 * k);
    HalfShift(t.e, k);
    assert u.(e := 0) == t.(e := 0);
    RootsOfSameMantissa(t, u, t.e % 2 == 1, t.e / 2, k);
  }

  /**
   * Two positive Normals with the same mantissa and exponents of the same
   * parity have roots that differ only by the difference of half exponents.
   */
  lemma RootsOfSameMantissa(t: Tmp, u: Tmp, odd: bool, h: int, k: int)
    requires PosNormal(t) && PosNormal(u) && u.(e := 0) == t.(e := 0)
    requires odd == (t.e % 2 == 1) && odd == (u.e % 2 == 1)
    requires h == t.e / 2 && u.e / 2 == h + k
    ensures SquareRoot(u) == SquareRoot(t).(e := SquareRoot(t).e + k)
  {
  }

  /** Adding 2k to an exponent keeps its parity and adds k to its half. */
  lemma HalfShift(e: int, k: int)
    ensures (e + 2 * k) % 2 == e % 2 && (e + 2 * k) / 2 == e / 2 + k
  {
  }

  /** flt_sqrt of 4^k is 2^k exactly, for every normal power of four. */
  lemma SqrtOfPowerOfFour(f: Flt)
    requires IsNormal(f) && SignField(f) == 0 && FracField(f) == 0 && (ExpField(f) - 127) % 2 == 0
    ensures Sqrt(f) == (127 + (ExpField(f) - 127) / 2) * 0x80_0000
  {
    var k := (ExpField(f) - 127) / 2;
    var g: Flt := (127 + k) * 0x80_0000;
    RootOfEvenPower(Unpacked(f));
    assert ExpField(g) == 127 + k && FracField(g) == 0 && SignField(g) == 0;
    ClassifyExponentOther(g);
    UnpackPackRoundTrip(g);
  }
}
