/**
 * flt/flt-exp.c: 2^t for a positive Normal t as a degree-9 polynomial on the
 * mantissa in [1, 2), raised to the exponent by repeated squaring (or taken
 * down by repeated square roots); a negative t goes through 1 / 2^|t|; exp
 * and exp10 scale the argument first, and a table handles the other classes.
 */
module FltExp {
  import opened FltTypes
  import opened FltClassify
  import opened FltConvert
  import FltInit
  import FltBasic
  import FltPoly
  import FltCompare
  import FltSqrt

  /** The coefficients of the 2^t polynomial on [1, 2), highest degree first. */
  const EXP2_S: seq<Bit> := [0, 1, 0, 0, 0, 0, 0, 0, 0, 0]
  const EXP2_M: seq<U32> := [0x4D80_EDA4, 0x4F45_BA91, 0x5A49_B423, 0x47E0_FA9C, 0x5964_BF18,
                             0x4E7A_F66B, 0x71BC_DDA9, 0x7AFC_B051, 0x58B9_3AB2, 0x7FFF_F954]
  const EXP2_E: seq<int> := [-22, -23, -16, -13, -10, -7, -5, -3, -1, -1]

  /** 149.0, above which 2^t overflows every pattern. */
  const EXP2_LIMIT: Tmp := Tmp(Normal, 0, 0x4A80_0000, 7)
  /** 2.0, the value 2^t takes at a mantissa of exactly 1. */
  const TWO_TMP: Tmp := Tmp(Normal, 0, TMP_1, 1)
  /** +infinity as a working value. */
  const INF_TMP: Tmp := Tmp(Infinite, 0, 0, 0)
  /** 1 / log 2 and log 10 / log 2 = 3.32192809488736 */
  const LOG10_OVER_LOG2: Tmp := Tmp(Normal, 0, 0x6A4D_3C26, 1)

  function Max0(n: int): (r: nat)
    ensures r >= n && (n >= 0 ==> r == n)
  {
    if n < 0 then 0 else n
  }

  /** 2^x for x in [1, 2): exactly 2 at x == 1, else the polynomial, which is positive there. */
  function ExpPoly(x: Tmp): (p: Tmp)
    requires PosNormal(x) && x.e == 0
    ensures PosNormal(p)
    ensures x.m == TMP_1 ==> p == TWO_TMP
  {
    if x.m == TMP_1 then TWO_TMP
    else
      ExpTablesNormalized();
      PolynomialPositive(x, |EXP2_M|);
      FltPoly.Horner(x, EXP2_S, EXP2_M, EXP2_E, |EXP2_M|)
  }

  /** Up to n squarings of p, stopping early if p leaves class Normal. */
  function Squarings(p: Tmp, n: nat): (r: Tmp)
    ensures PosNormal(p) ==> PosNormal(r)
    decreases n
  {
    if n == 0 || p.c != Normal then p
    else
      if PosNormal(p) then
        FltSqrt.ProductPositive(p, p);
        Squarings(FltBasic.Product(p, p), n - 1)
      else
        Squarings(FltBasic.Product(p, p), n - 1)
  }

  /** Up to n square roots of a positive p, stopping early if p leaves class Normal. */
  function Roots(p: Tmp, n: nat): (r: Tmp)
    requires PosNormal(p)
    ensures PosNormal(r)
    decreases n
  {
    if n == 0 || p.c != Normal then p else Roots(FltSqrt.SquareRoot(p), n - 1)
  }

  /** The argument is above 149.0, where 2^t is +inf. */
  predicate AboveLimit(t: Tmp) {
    FltCompare.TmpCompare(t, EXP2_LIMIT, GreaterThan)
  }

  /**
   * 2^t below the limit: the polynomial at the mantissa taken at exponent 0,
   * squared once per unit of a positive exponent and square-rooted once per
   * unit of a negative one.
   */
  function Exp2Scaled(x: Tmp, k: int): (r: Tmp)
    requires PosNormal(x) && x.e == 0
    ensures PosNormal(r)
  {
    Roots(Squarings(ExpPoly(x), Max0(k)), Max0(-k))
  }

  /** flt_tmp_exp2_wrk on a positive Normal: +inf above 149, 2^t otherwise. */
  function Exp2Work(t: Tmp): (r: Tmp)
    requires PosNormal(t)
    ensures PosNormal(r) || r == INF_TMP
    ensures AboveLimit(t) ==> r == INF_TMP
  {
    if AboveLimit(t) then INF_TMP else Exp2Scaled(t.(e := 0), t.e)
  }

  /** flt_tmp_exp2 on a Normal: a negative t is computed as 1 / 2^(-t). */
  function Exp2Tmp(t: Tmp): (r: Tmp)
    requires Wf(t) && t.c == Normal
    ensures Wf(r) && r.s == 0 && (r.c == Normal || r.c == Infinite || r.c == Zero)
    ensures t.s == 0 ==> r == Exp2Work(t)
    ensures t.s == 1 ==> r == FltBasic.Reciprocal(Exp2Work(FltBasic.Negated(t)))
  {
    if t.s == 1 then
      var w := Exp2Work(FltBasic.Negated(t));
      ReciprocalOfPower(w);
      FltBasic.Reciprocal(w)
    else Exp2Work(t)
  }

  method TmpExp2(pt: FltTmp)
    requires Wf(pt.Value()) && pt.c == Normal
    modifies pt
    ensures pt.Value() == Exp2Tmp(old(pt.Value()))
  {
    if pt.s == 1 {
      FltBasic.Negate(pt);
      TmpExp2Work(pt);
      FltBasic.Invert(pt);
    } else {
      TmpExp2Work(pt);
    }
  }

  /** flt_tmp_exp2_wrk. Anything but a positive Normal makes the source exit. */
  method TmpExp2Work(pt: FltTmp)
    requires PosNormal(pt.Value())
    modifies pt
    ensures pt.Value() == Exp2Work(old(pt.Value()))
  {
    ghost var t := pt.Value();
    var u := new FltTmp();
    FltInit.Initialize(u, Normal, 0, 0x4A80_0000, 7);
    var above := FltCompare.TmpCompare(pt.Value(), u.Value(), GreaterThan);
    assert above == AboveLimit(t);
    if above {
      FltInit.Initialize(pt, Infinite, 0, 0, 0);
      return;
    }
    var exponent := pt.e;
    pt.e := 0;
    assert pt.Value() == t.(e := 0);
    TmpExp2Scaled(pt, exponent);
  }

  /** flt_tmp_exp2_wrk below the limit, once the exponent is taken out of *pt. */
  method TmpExp2Scaled(pt: FltTmp, exponent: int)
    requires PosNormal(pt.Value()) && pt.e == 0
    modifies pt
    ensures pt.Value() == Exp2Scaled(old(pt.Value()), exponent)
  {
    MantissaPower(pt);
    SquareLoop(pt, exponent);
    RootLoop(pt, exponent);
  }

  /** The mantissa part of flt_tmp_exp2_wrk: *pt in [1, 2) becomes 2^*pt. */
  method MantissaPower(pt: FltTmp)
    requires PosNormal(pt.Value()) && pt.e == 0
    modifies pt
    ensures pt.Value() == ExpPoly(old(pt.Value()))
  {
    if pt.m == TMP_1 {
      FltInit.Initialize(pt, Normal, 0, TMP_1, 1);
    } else {
      ExpTablesNormalized();
      var steps := FltPoly.Evaluate(pt, 10, EXP2_S, EXP2_M, EXP2_E);
    }
  }

  /** The positive-powers loop of flt_tmp_exp2_wrk. */
  method SquareLoop(pt: FltTmp, exponent: int)
    requires PosNormal(pt.Value())
    modifies pt
    ensures pt.Value() == Squarings(old(pt.Value()), Max0(exponent))
  {
    ghost var p := pt.Value();
    var u := new FltTmp();
    var i := 0;
    while pt.c == Normal && i < exponent
      invariant 0 <= i <= Max0(exponent)
      invariant PosNormal(pt.Value())
      invariant Squarings(pt.Value(), Max0(exponent) - i) == Squarings(p, Max0(exponent))
      decreases exponent - i
    {
      FltInit.Copy(u, pt);
      FltBasic.Multiply(pt, u);
      i := i + 1;
    }
  }

  /** The negative-powers loop of flt_tmp_exp2_wrk. */
  method RootLoop(pt: FltTmp, exponent: int)
    requires PosNormal(pt.Value())
    modifies pt
    ensures pt.Value() == Roots(old(pt.Value()), Max0(-exponent))
  {
    ghost var p := pt.Value();
    ghost var k := Max0(-exponent);
    var i := 0;
    while pt.c == Normal && i > exponent
      invariant k == Max0(-exponent) + i
      invariant PosNormal(pt.Value())
      invariant Roots(pt.Value(), k) == Roots(p, Max0(-exponent))
      decreases i - exponent
    {
      RootStep(pt, p, Max0(-exponent), k);
      i := i - 1;
      k := k - 1;
    }
    assert k == 0;
  }

  /** One pass of the negative-powers loop: one root taken, one fewer left. */
  method RootStep(pt: FltTmp, ghost p: Tmp, ghost n: nat, ghost k: nat)
    requires PosNormal(p) && PosNormal(pt.Value()) && k > 0 && Roots(pt.Value(), k) == Roots(p, n)
    modifies pt
    ensures PosNormal(pt.Value()) && Roots(pt.Value(), k - 1) == Roots(p, n)
  {
    ghost var q := pt.Value();
    FltSqrt.TmpSqrt(pt);
    assert Roots(q, k) == Roots(pt.Value(), k - 1);
  }

  /** flt_tmp_exp2_alt: +inf gives +inf, -inf gives +0, NaN gives NaN and a zero gives +1. */
  function Exp2Special(t: Tmp): Flt
    requires t.c == Infinite || t.c == NaN || t.c == Zero
  {
    match t.c
    case Infinite => if t.s == 1 then FLT_POS_0 else FLT_POS_INF
    case NaN => FLT_NAN
    case Zero => FLT_POS_1
  }

  /**
   * The exponential of a pattern: 2^(t * scale) for a finite non-zero t, the
   * table otherwise. The result is never negative and only NaN for NaN.
   */
  function ExpWith(f: Flt, scale: Tmp): (r: Flt)
    requires PosNormal(scale)
    ensures f == FLT_POS_INF ==> r == FLT_POS_INF
    ensures f == FLT_NEG_INF ==> r == FLT_POS_0
    ensures IsNaN(f) ==> r == FLT_NAN
    ensures IsZero(f) ==> r == FLT_POS_1
    ensures !IsNaN(f) ==> !IsNaN(r) && SignField(r) == 0
  {
    if f == FLT_POS_INF || f == FLT_NEG_INF then
      UnpackedInfinity(f);
      Exp2Packed(Scaled(Unpacked(f), scale))
    else Exp2Packed(Scaled(Unpacked(f), scale))
  }

  /** The multiply by the scale that flt_exp and flt_exp10 do on a Normal only. */
  function Scaled(t: Tmp, scale: Tmp): (r: Tmp)
    requires Wf(t) && PosNormal(scale)
    ensures Wf(r) && (t.c == Normal <==> r.c == Normal)
    ensures t.c != Normal ==> r == t
  {
    if t.c == Normal then
      FltBasic.ProductOfNormals(t, scale);
      FltBasic.Product(t, scale)
    else t
  }

  /** flt_exp2: the working 2^t of the unpacked value, with no scaling. */
  function Exp2(f: Flt): (r: Flt)
    ensures f == FLT_POS_INF ==> r == FLT_POS_INF
    ensures f == FLT_NEG_INF ==> r == FLT_POS_0
    ensures IsNaN(f) ==> r == FLT_NAN
    ensures IsZero(f) ==> r == FLT_POS_1
    ensures !IsNaN(f) ==> !IsNaN(r) && SignField(r) == 0
  {
    if f == FLT_POS_INF || f == FLT_NEG_INF then
      UnpackedInfinity(f);
      Exp2Packed(Unpacked(f))
    else Exp2Packed(Unpacked(f))
  }

  /**
   * flt_tmp_exp2 packed for a Normal, flt_tmp_exp2_alt otherwise: NaN only
   * for NaN, and never negative.
   */
  function Exp2Packed(t: Tmp): (r: Flt)
    requires Wf(t)
    ensures t.c == Infinite ==> r == if t.s == 1 then FLT_POS_0 else FLT_POS_INF
    ensures t.c == NaN ==> r == FLT_NAN
    ensures t.c == Zero ==> r == FLT_POS_1
    ensures t.c != NaN ==> !IsNaN(r) && SignField(r) == 0
  {
    if t.c == Normal then
      var y := Exp2Tmp(t);
      PackedNotNaN(y);
      PackedSign(y);
      Packed(y)
    else Exp2Special(t)
  }

  /** flt_exp: 2^(t / log 2). */
  function Exp(f: Flt): (r: Flt)
    ensures r == ExpWith(f, FltInit.ONE_OVER_LOG2_TMP)
  {
    var t := Unpacked(f);
    if t.c == Normal then
      FltBasic.ProductOfNormals(t, FltInit.ONE_OVER_LOG2_TMP);
      Packed(Exp2Tmp(FltBasic.Product(t, FltInit.ONE_OVER_LOG2_TMP)))
    else Exp2Special(t)
  }

  /** flt_exp10: 2^(t * log 10 / log 2). */
  function Exp10(f: Flt): (r: Flt)
    ensures r == ExpWith(f, LOG10_OVER_LOG2)
  {
    var t := Unpacked(f);
    if t.c == Normal then
      FltBasic.ProductOfNormals(t, LOG10_OVER_LOG2);
      Packed(Exp2Tmp(FltBasic.Product(t, LOG10_OVER_LOG2)))
    else Exp2Special(t)
  }

  // ------------------------------------------------------------------ lemmas

  /** Every coefficient mantissa of the table is normalized. */
  lemma ExpTablesNormalized()
    ensures |EXP2_S| == |EXP2_M| == |EXP2_E| == 10
    ensures FltPoly.NormalizedTables(EXP2_S, EXP2_M, EXP2_E, 10)
  {
  }

  /**
   * On [1, 2) the polynomial stays positive at every step: the one negative
   * coefficient has a smaller exponent than the product before it, and every
   * later coefficient is positive. So the square roots of flt_tmp_exp2_wrk
   * never see a negative value, and the exit in flt_tmp_sqrt is never taken.
   */
  lemma {:induction false} PolynomialPositive(x: Tmp, n: nat)
    requires PosNormal(x) && x.e == 0 && 1 <= n <= 10
    ensures PosNormal(FltPoly.Horner(x, EXP2_S, EXP2_M, EXP2_E, n))
    decreases n
  {
    ExpTablesNormalized();
    if n == 2 {
      var c0 := FltPoly.Coefficient(EXP2_S, EXP2_M, EXP2_E, 0);
      var c1 := FltPoly.Coefficient(EXP2_S, EXP2_M, EXP2_E, 1);
      FltBasic.ProductOfNormals(c0, x);
      FltBasic.SumSmaller(FltBasic.Product(c0, x), c1);
    } else if n > 2 {
      PolynomialPositive(x, n - 1);
      var h := FltPoly.Horner(x, EXP2_S, EXP2_M, EXP2_E, n - 1);
      var c := FltPoly.Coefficient(EXP2_S, EXP2_M, EXP2_E, n - 1);
      FltSqrt.ProductPositive(h, x);
      FltBasic.SumSameSign(FltBasic.Product(h, x), c);
    }
  }

  /** The reciprocal of a positive Normal or +inf is a positive Normal or +0. */
  lemma ReciprocalOfPower(w: Tmp)
    requires PosNormal(w) || w == INF_TMP
    ensures var r := FltBasic.Reciprocal(w); Wf(r) && r.s == 0 && (r.c == Normal || r.c == Zero)
  {
    if w.c == Normal {
      FltSqrt.ReciprocalPositive(w);
    }
  }

  /** Squaring a power of two is exact: (2^a)^(2^n) == 2^(a * 2^n). */
  lemma {:induction false} SquaringsOfPowerOfTwo(a: int, n: nat)
    ensures Squarings(Tmp(Normal, 0, TMP_1, a), n) == Tmp(Normal, 0, TMP_1, a * Pow2(n))
    decreases n
  {
    if n > 0 {
      var p := Tmp(Normal, 0, TMP_1, a);
      ProductOfPowersOfTwo(a, a);
      assert Squarings(p, n) == Squarings(Tmp(Normal, 0, TMP_1, 2 * a), n - 1);
      SquaringsOfPowerOfTwo(2 * a, n - 1);
      DoubledExponent(a, n);
    }
  }

  /** (2a) * 2^(n-1) == a * 2^n. */
  lemma DoubledExponent(a: int, n: nat)
    requires n > 0
    ensures (2 * a) * Pow2(n - 1) == a * Pow2(n)
  {
    assert Pow2(n) == 2 * Pow2(n - 1);
    assert (2 * a) * Pow2(n - 1) == a * (2 * Pow2(n - 1));
  }

  /** The working multiply is exact on powers of two: 2^a * 2^b == 2^(a + b). */
  lemma ProductOfPowersOfTwo(a: int, b: int)
    ensures FltBasic.Product(Tmp(Normal, 0, TMP_1, a), Tmp(Normal, 0, TMP_1, b)) == Tmp(Normal, 0, TMP_1, a + b)
  {
    var t, u := Tmp(Normal, 0, TMP_1, a), Tmp(Normal, 0, TMP_1, b);
    OneTimesOne(TMP_1);
    assert FltBasic.Product(t, u) == FltBasic.Normalized(Tmp(Normal, Xor(0, 0), TMP_1, a + b));
    FltBasic.NormalizedFixed(Tmp(Normal, 0, TMP_1, a + b));
  }

  /** The partial products of two mantissas 1.0 give 1.0. */
  lemma OneTimesOne(m: U32)
    requires m == TMP_1
    ensures FltBasic.PartialProducts(m, m) == m
  {
  }

  /** A power of two 2^k with k <= 7 is at most 128, so not above the limit 149. */
  lemma PowerBelowLimit(k: int)
    requires k <= 7
    ensures !AboveLimit(Tmp(Normal, 0, TMP_1, k))
  {
    FltBasic.SumLarger(Tmp(Normal, 0, TMP_1, k), FltBasic.Negated(EXP2_LIMIT));
  }

  /** 2^(2^k) is exact for 0 <= k <= 7: one 2.0, squared k times. */
  lemma Exp2OfPowerOfTwo(k: nat)
    requires k <= 7
    ensures Exp2Work(Tmp(Normal, 0, TMP_1, k)) == Tmp(Normal, 0, TMP_1, Pow2(k))
  {
    PowerBelowLimit(k);
    SquaringsOfPowerOfTwo(1, k);
  }

  /** 2^(1/2) is the sqrt(2) constant of the square root, exactly. */
  lemma Exp2OfHalf()
    ensures Exp2Work(Tmp(Normal, 0, TMP_1, -1)) == FltSqrt.SQRT2
  {
    PowerBelowLimit(-1);
    FltSqrt.RootOfOddPower(TWO_TMP);
  }

  /** 2^t overflows to +inf above 149, and 2^-t underflows to +0 there. */
  lemma Exp2BeyondLimit(t: Tmp)
    requires PosNormal(t) && AboveLimit(t)
    ensures Exp2Tmp(t) == INF_TMP
    ensures Exp2Tmp(FltBasic.Negated(t)) == Tmp(Zero, 0, 0, 0)
  {
  }

  /**
   * On patterns: for k in 0 .. 6, exp2 of the pattern 2^k is exactly the
   * pattern 2^(2^k); at k == 7 the result 2^128 overflows to +inf.
   */
  lemma Exp2OfPowerPattern(f: Flt)
    requires IsNormal(f) && SignField(f) == 0 && FracField(f) == 0 && 127 <= ExpField(f) <= 134
    ensures ExpField(f) < 134 ==> Unpacked(Exp2(f)) == Tmp(Normal, 0, TMP_1, Pow2(ExpField(f) - 127))
    ensures ExpField(f) == 134 ==> Exp2(f) == FLT_POS_INF
  {
    var k := ExpField(f) - 127;
    Exp2OfPositive(f);
    assert Unpacked(f) == Tmp(Normal, 0, TMP_1, k);
    Exp2OfPowerOfTwo(k);
    Pow2AtMost7(k);
    if k < 7 {
      PackExact(Tmp(Normal, 0, TMP_1, Pow2(k)));
    }
  }

  lemma Pow2AtMost7(k: nat)
    requires k <= 7
    ensures Pow2(k) <= 0x80 && (k < 7 ==> Pow2(k) <= 0x40) && (k == 7 ==> Pow2(k) == 0x80)
  {
    Pow2Values();
    assert Pow2(7) == 2 * Pow2(6);
    if k < 7 {
      Pow2Monotone(k, 6);
    }
  }

  /** On a positive Normal pattern flt_exp2 packs the work function's value. */
  lemma Exp2OfPositive(f: Flt)
    requires IsNormal(f) && SignField(f) == 0
    ensures PosNormal(Unpacked(f)) && Exp2(f) == Packed(Exp2Work(Unpacked(f)))
  {
  }

  /** flt_exp2 is the scaled exponential with the scale 1.0. */
  lemma Exp2IsUnscaled(f: Flt)
    ensures Exp2(f) == ExpWith(f, FltInit.ONE_TMP)
  {
    var t := Unpacked(f);
    if t.c == Normal {
      FltBasic.ProductByOne(t);
    }
  }
}
