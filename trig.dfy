/**
 * flt/flt-trig.c: sine, cosine and tangent on the argument reduced modulo
 * 2 pi, arc tangent by a polynomial on [0, 1] and the identity
 * atan(t) = pi/2 - atan(1/t) above it, arc sine and arc cosine through the
 * arc tangent, and atan2 by quadrant. A table handles every class the
 * polynomials are not used for.
 */
module FltTrig {
  import opened FltTypes
  import opened FltClassify
  import opened FltConvert
  import FltInit
  import FltBasic
  import FltPoly
  import FltModf
  import FltCompare
  import FltSqrt
  import FltArith

  /** 2 pi, pi, -pi and pi/2: the working mantissa of pi/2 at exponents 2, 1 and 0. */
  const TWO_PI_TMP: Tmp := Tmp(Normal, 0, TMP_PI_2, 2)
  const PI_TMP: Tmp := Tmp(Normal, 0, TMP_PI_2, 1)
  const NEG_PI_TMP: Tmp := Tmp(Normal, 1, TMP_PI_2, 1)
  const HALF_PI_TMP: Tmp := Tmp(Normal, 0, TMP_PI_2, 0)

  /** pi as a pattern: the working pi rounded to 24 bits. */
  const FLT_POS_PI: Flt := 0x4049_0FDB

  /** The coefficients of the sine polynomial on [0, 2 pi), highest degree first. */
  const SIN_S: seq<Bit> := [1, 0, 1, 0, 0, 0, 1, 0, 0, 0]
  const SIN_M: seq<U32> := [0x4870_FB88, 0x4001_D83A, 0x4B42_51A2, 0x5A80_CD4F, 0x54BA_EA5A,
                            0x4900_9733, 0x5733_914F, 0x6455_356F, 0x7FF7_F2D7, 0x7FDC_906A]
  const SIN_E: seq<int> := [-19, -14, -11, -10, -8, -8, -3, -10, -1, -19]

  /** The coefficients of the cosine polynomial on [0, 2 pi). */
  const COS_S: seq<Bit> := [1, 1, 0, 1, 0, 0, 0, 1, 0, 0]
  const COS_M: seq<U32> := [0x74A4_C9C2, 0x4F4A_964F, 0x7C8C_F235, 0x7F3A_E7B6, 0x7B82_3842,
                            0x7374_BDF4, 0x7035_C2B2, 0x40E7_317B, 0x5B93_0754, 0x7FFE_E92B]
  const COS_E: seq<int> := [-56, -16, -12, -9, -8, -6, -7, -1, -10, -1]

  /** The coefficients of the arc tangent polynomial on [0, 1]. */
  const ATAN_S: seq<Bit> := [1, 0, 1, 1, 0, 1, 1, 1, 0, 1]
  const ATAN_M: seq<U32> := [0x6093_1D66, 0x6130_CCB6, 0x687A_2463, 0x5F34_5A31, 0x420C_CAB9,
                             0x4BEC_7B43, 0x5484_5851, 0x4712_3A43, 0x4000_24B2, 0x4909_76A0]
  const ATAN_E: seq<int> := [-6, -4, -4, -4, -2, -6, -2, -12, 0, -25]

  /** Every table has ten normalized coefficients. */
  lemma TablesNormalized()
    ensures |SIN_S| == |SIN_M| == |SIN_E| == 10 && FltPoly.NormalizedTables(SIN_S, SIN_M, SIN_E, 10)
    ensures |COS_S| == |COS_M| == |COS_E| == 10 && FltPoly.NormalizedTables(COS_S, COS_M, COS_E, 10)
    ensures |ATAN_S| == |ATAN_M| == |ATAN_E| == 10 && FltPoly.NormalizedTables(ATAN_S, ATAN_M, ATAN_E, 10)
  {
  }

  /** A polynomial of normalized coefficients, at a finite argument: finite. */
  function Polynomial(x: Tmp, ps: seq<Bit>, pm: seq<U32>, pe: seq<int>): (h: Tmp)
    requires 1 <= |pm| && |ps| == |pm| == |pe| && FltPoly.NormalizedTables(ps, pm, pe, |pm|)
    requires Wf(x) && (x.c == Normal || x.c == Zero)
    ensures Wf(h) && (h.c == Normal || h.c == Zero)
  {
    FltPoly.HornerWf(x, ps, pm, pe, |pm|);
    FltPoly.HornerFinite(x, ps, pm, pe, |pm|);
    FltPoly.Horner(x, ps, pm, pe, |pm|)
  }

  /**
   * The quick check flt_asin and flt_acos make on a Normal for |t| <= 1:
   * an exponent below 0, or exponent 0 with the mantissa exactly 1.
   */
  predicate WithinOne(t: Tmp) {
    t.e < 0 || (t.e == 0 && t.m == TMP_1)
  }

  // ----------------------------------------------------------- reduction

  /**
   * flt_tmp_fmod_2pi on a finite value: frac(|t| * (1 / 2 pi)) * 2 pi with
   * the sign of t put back. The result is finite, below 8 in magnitude, and
   * a zero stays zero.
   */
  function Reduced(t: Tmp): (r: Tmp)
    requires Wf(t) && (t.c == Normal || t.c == Zero)
    ensures Wf(r) && (r.c == Normal || r.c == Zero) && r.s == t.s
    ensures t.c == Zero ==> r.c == Zero
    ensures r.c == Normal ==> r.e <= 2
  {
    var x := FltBasic.Product(t.(s := 0), FltBasic.Reciprocal(TWO_PI_TMP));
    ReductionFacts(t.(s := 0), x);
    FltBasic.Product(FltModf.ModfParts(x).0, TWO_PI_TMP).(s := t.s)
  }

  /** The classes and exponents along the reduction. */
  lemma ReductionFacts(a: Tmp, x: Tmp)
    requires Wf(a) && (a.c == Normal || a.c == Zero)
    requires x == FltBasic.Product(a, FltBasic.Reciprocal(TWO_PI_TMP))
    ensures Wf(x) && (x.c == Normal || x.c == Zero) && (a.c == Zero ==> x.c == Zero)
    ensures var y := FltBasic.Product(FltModf.ModfParts(x).0, TWO_PI_TMP);
      Wf(y) && (y.c == Normal || y.c == Zero) && (a.c == Zero ==> y.c == Zero) && (y.c == Normal ==> y.e <= 2)
  {
    FltBasic.ReciprocalOfNormal(TWO_PI_TMP);
    var f := FltModf.ModfParts(x).0;
    if f.c == Normal {
      FltBasic.ProductOfNormals(f, TWO_PI_TMP);
    }
  }

  /**
   * flt_tmp_fmod_2pi. The exponent flt_tmp_modf leaves in a Zero fractional
   * part is not specified, so the result is determined up to the fields its
   * class does not use.
   */
  method TmpFmod2Pi(pt: FltTmp)
    requires Wf(pt.Value()) && (pt.c == Normal || pt.c == Zero)
    modifies pt
    ensures Equivalent(pt.Value(), Reduced(old(pt.Value())))
  {
    ghost var t := pt.Value();
    var sign := pt.s;
    pt.s := 0;
    var u := new FltTmp();
    var v := new FltTmp();
    FltInit.Initialize(u, Normal, 0, TMP_PI_2, 2);
    FltInit.Copy(v, u);
    FltBasic.Invert(u);
    FltBasic.Multiply(pt, u);
    ghost var x := pt.Value();
    ReductionFacts(t.(s := 0), x);
    FltModf.TmpModf(pt, u);
    FltBasic.ProductLeftEquivalent(pt.Value(), FltModf.ModfParts(x).0, TWO_PI_TMP);
    FltBasic.Multiply(pt, v);
    pt.s := sign;
  }

  // --------------------------------------------------- sine, cosine, tangent

  /** flt_tmp_sin: the polynomial at the reduced |t|, with the sign of t applied afterwards. */
  function SinTmp(t: Tmp): (r: Tmp)
    requires Wf(t) && (t.c == Normal || t.c == Zero)
    ensures Wf(r) && (r.c == Normal || r.c == Zero)
  {
    var x := Reduced(t);
    TablesNormalized();
    var h := Polynomial(x.(s := 0), SIN_S, SIN_M, SIN_E);
    h.(s := Xor(h.s, x.s))
  }

  /** flt_tmp_cos: the polynomial at the reduced |t|; the sign of t is dropped. */
  function CosTmp(t: Tmp): (r: Tmp)
    requires Wf(t) && (t.c == Normal || t.c == Zero)
    ensures Wf(r) && (r.c == Normal || r.c == Zero)
  {
    TablesNormalized();
    Polynomial(Reduced(t).(s := 0), COS_S, COS_M, COS_E)
  }

  /**
   * flt_tmp_tan: sin(x) * (1 / cos(x)) on the reduced x, where the sine and
   * cosine reduce x once more. It is finite whenever that cosine is not zero.
   */
  function TanTmp(t: Tmp): (r: Tmp)
    requires Wf(t) && (t.c == Normal || t.c == Zero)
    ensures Wf(r)
    ensures CosTmp(Reduced(t)).c == Normal ==> r.c == Normal || r.c == Zero
  {
    var x := Reduced(t);
    var c := CosTmp(x);
    QuotientFinite(SinTmp(x), c);
    FltBasic.Product(SinTmp(x), FltBasic.Reciprocal(c))
  }

  /** A finite value times the reciprocal of a Normal is finite. */
  lemma QuotientFinite(a: Tmp, c: Tmp)
    requires Wf(a) && (a.c == Normal || a.c == Zero) && Wf(c)
    ensures c.c == Normal ==> var q := FltBasic.Product(a, FltBasic.Reciprocal(c)); q.c == Normal || q.c == Zero
  {
    if c.c == Normal {
      FltBasic.FiniteClosed(a, FltBasic.Reciprocal(c));
    }
  }

  method TmpSin(pt: FltTmp)
    requires Wf(pt.Value()) && (pt.c == Normal || pt.c == Zero)
    modifies pt
    ensures pt.Value() == SinTmp(old(pt.Value()))
  {
    ghost var t := pt.Value();
    TmpFmod2Pi(pt);
    var sign := pt.s;
    pt.s := 0;
    TablesNormalized();
    FltPoly.HornerEquivalent(pt.Value(), Reduced(t).(s := 0), SIN_S, SIN_M, SIN_E, 10);
    var steps := FltPoly.Evaluate(pt, 10, SIN_S, SIN_M, SIN_E);
    pt.s := Xor(pt.s, sign);
  }

  method TmpCos(pt: FltTmp)
    requires Wf(pt.Value()) && (pt.c == Normal || pt.c == Zero)
    modifies pt
    ensures pt.Value() == CosTmp(old(pt.Value()))
  {
    ghost var t := pt.Value();
    TmpFmod2Pi(pt);
    pt.s := 0;
    TablesNormalized();
    FltPoly.HornerEquivalent(pt.Value(), Reduced(t).(s := 0), COS_S, COS_M, COS_E, 10);
    var steps := FltPoly.Evaluate(pt, 10, COS_S, COS_M, COS_E);
  }

  method TmpTan(pt: FltTmp)
    requires Wf(pt.Value()) && (pt.c == Normal || pt.c == Zero)
    modifies pt
    ensures pt.Value() == TanTmp(old(pt.Value()))
  {
    ghost var t := pt.Value();
    TmpFmod2Pi(pt);
    ghost var x := pt.Value();
    var u := new FltTmp();
    FltInit.Copy(u, pt);
    TmpSin(pt);
    TmpCos(u);
    SinEquivalent(x, Reduced(t));
    CosEquivalent(x, Reduced(t));
    FltBasic.Invert(u);
    FltBasic.Multiply(pt, u);
  }

  /** Equivalent arguments reduce to equivalent values. */
  lemma ReducedEquivalent(a: Tmp, b: Tmp)
    requires Wf(a) && (a.c == Normal || a.c == Zero) && Equivalent(a, b)
    ensures Wf(b) && Equivalent(Reduced(a), Reduced(b))
  {
    if a.c == Normal {
      assert a == b;
    }
  }

  /** The sine reads its argument only through the fields its class uses. */
  lemma SinEquivalent(a: Tmp, b: Tmp)
    requires Wf(a) && (a.c == Normal || a.c == Zero) && Equivalent(a, b)
    ensures Wf(b) && SinTmp(a) == SinTmp(b)
  {
    ReducedEquivalent(a, b);
    TablesNormalized();
    FltPoly.HornerEquivalent(Reduced(a).(s := 0), Reduced(b).(s := 0), SIN_S, SIN_M, SIN_E, 10);
  }

  /** The cosine reads its argument only through the fields its class uses. */
  lemma CosEquivalent(a: Tmp, b: Tmp)
    requires Wf(a) && (a.c == Normal || a.c == Zero) && Equivalent(a, b)
    ensures Wf(b) && CosTmp(a) == CosTmp(b)
  {
    ReducedEquivalent(a, b);
    TablesNormalized();
    FltPoly.HornerEquivalent(Reduced(a).(s := 0), Reduced(b).(s := 0), COS_S, COS_M, COS_E, 10);
  }

  /** flt_tmp_sin_alt; a Normal is never passed to it. */
  function SinSpecial(t: Tmp): Flt
    requires t.c != Normal && t.c != Subnormal
  {
    if t.c == Zero then (if t.s == 1 then FLT_NEG_0 else FLT_POS_0) else FLT_NAN
  }

  /** flt_tmp_cos_alt */
  function CosSpecial(t: Tmp): Flt
    requires t.c != Normal && t.c != Subnormal
  {
    if t.c == Zero then FLT_POS_1 else FLT_NAN
  }

  /** flt_tmp_tan_alt */
  function TanSpecial(t: Tmp): Flt
    requires t.c != Normal && t.c != Subnormal
  {
    if t.c == Zero then (if t.s == 1 then FLT_NEG_0 else FLT_POS_0) else FLT_NAN
  }

  /** A pattern the polynomials are used for: Normal or subnormal. */
  predicate NonZeroFinite(f: Flt) {
    IsNormal(f) || IsSubnormal(f)
  }

  /** flt_sin: sin(+-0) = +-0, NaN for an infinity or NaN, and a number otherwise. */
  function Sin(f: Flt): (r: Flt)
    ensures IsZero(f) ==> r == f
    ensures IsInf(f) || IsNaN(f) ==> r == FLT_NAN
    ensures NonZeroFinite(f) ==> !IsNaN(r)
  {
    var t := Unpacked(f);
    if t.c == Normal then
      PackedNotNaN(SinTmp(t));
      Packed(SinTmp(t))
    else SinSpecial(t)
  }

  /** flt_cos: cos(+-0) = +1, NaN for an infinity or NaN, and a number otherwise. */
  function Cos(f: Flt): (r: Flt)
    ensures IsZero(f) ==> r == FLT_POS_1
    ensures IsInf(f) || IsNaN(f) ==> r == FLT_NAN
    ensures NonZeroFinite(f) ==> !IsNaN(r)
  {
    var t := Unpacked(f);
    if t.c == Normal then
      PackedNotNaN(CosTmp(t));
      Packed(CosTmp(t))
    else CosSpecial(t)
  }

  /** flt_tan: tan(+-0) = +-0 and NaN for an infinity or NaN. */
  function Tan(f: Flt): (r: Flt)
    ensures IsZero(f) ==> r == f
    ensures IsInf(f) || IsNaN(f) ==> r == FLT_NAN
  {
    var t := Unpacked(f);
    if t.c == Normal then Packed(TanTmp(t)) else TanSpecial(t)
  }

  // ------------------------------------------------------------ arc tangent

  /**
   * flt_tmp_atan on a non-NaN value: with a = |t|, the polynomial at a when
   * a <= 1 and pi/2 minus the polynomial at 1/a otherwise; the sign of t is
   * then put back. The result is finite with the sign of t.
   */
  function AtanTmp(t: Tmp): (r: Tmp)
    requires Wf(t) && t.c != NaN
    ensures Wf(r) && (r.c == Normal || r.c == Zero) && r.s == t.s
  {
    AtanMagnitude(t.(s := 0)).(s := t.s)
  }

  /** The arc tangent of a = |t| before the sign is put back. */
  function AtanMagnitude(a: Tmp): (p: Tmp)
    requires Wf(a) && a.s == 0 && a.c != NaN
    ensures Wf(p) && (p.c == Normal || p.c == Zero)
  {
    OneComparison(a);
    TablesNormalized();
    if FltCompare.TmpCompare(a, FltInit.ONE_TMP, LessThanOrEqualTo) then Polynomial(a, ATAN_S, ATAN_M, ATAN_E)
    else
      var q := Polynomial(FltBasic.Reciprocal(a), ATAN_S, ATAN_M, ATAN_E);
      FltBasic.FiniteClosed(FltBasic.Negated(q), HALF_PI_TMP);
      FltBasic.Sum(FltBasic.Negated(q), HALF_PI_TMP)
  }

  method TmpAtan(pt: FltTmp)
    requires Wf(pt.Value()) && pt.c != NaN
    modifies pt
    ensures pt.Value() == AtanTmp(old(pt.Value()))
  {
    var sign := pt.s;
    pt.s := 0;
    var u := new FltTmp();
    FltInit.Initialize(u, Normal, 0, TMP_1, 0);
    TablesNormalized();
    OneComparison(pt.Value());
    if FltCompare.TmpCompare(pt.Value(), u.Value(), LessThanOrEqualTo) {
      var steps := FltPoly.Evaluate(pt, 10, ATAN_S, ATAN_M, ATAN_E);
    } else {
      FltBasic.Invert(pt);
      var steps := FltPoly.Evaluate(pt, 10, ATAN_S, ATAN_M, ATAN_E);
      FltBasic.Negate(pt);
      FltInit.Initialize(u, Normal, 0, TMP_PI_2, 0);
      FltBasic.Add(pt, u.Value());
    }
    pt.s := sign;
  }

  /**
   * Comparing a non-negative, non-NaN value with 1.0: it is at most 1 exactly
   * when it is a zero or a Normal that passes the quick exponent check.
   */
  lemma OneComparison(a: Tmp)
    requires Wf(a) && a.s == 0 && a.c != NaN
    ensures FltCompare.TmpCompare(a, FltInit.ONE_TMP, LessThanOrEqualTo) <==>
              a.c == Zero || (a.c == Normal && WithinOne(a))
  {
    var one := FltInit.ONE_TMP;
    if a.c == Normal {
      if a == one {
        FltBasic.SumNegated(a);
      } else if a.e < 0 {
        FltBasic.SumLarger(a, FltBasic.Negated(one));
      } else {
        FltBasic.SumSmaller(a, FltBasic.Negated(one));
      }
    }
  }

  /** flt_tmp_atan_alt */
  function AtanSpecial(t: Tmp): Flt
    requires t.c != Normal && t.c != Subnormal
  {
    match t.c
    case Infinite => if t.s == 1 then FLT_NEG_PI_2 else FLT_POS_PI_2
    case NaN => FLT_NAN
    case Zero => if t.s == 1 then FLT_NEG_0 else FLT_POS_0
  }

  /**
   * flt_atan: atan(+-0) = +-0, atan(+-inf) = +-pi/2, NaN for NaN, and a
   * number with the sign of f otherwise.
   */
  function Atan(f: Flt): (r: Flt)
    ensures IsZero(f) ==> r == f
    ensures IsInf(f) ==> r == (if SignField(f) == 1 then FLT_NEG_PI_2 else FLT_POS_PI_2)
    ensures IsNaN(f) ==> r == FLT_NAN
    ensures NonZeroFinite(f) ==> !IsNaN(r) && SignField(r) == SignField(f)
  {
    var t := Unpacked(f);
    if t.c == Normal then
      PackedNotNaN(AtanTmp(t));
      PackedSign(AtanTmp(t));
      Packed(AtanTmp(t))
    else AtanSpecial(t)
  }

  // --------------------------------------------------- arc sine, arc cosine

  /**
   * sqrt(1 - a^2) as flt_tmp_asin and flt_tmp_acos compute it for a
   * positive Normal a, with flt_tmp_sqrt_ext turning a negative difference
   * into 0: a non-negative finite value.
   */
  function Complement(a: Tmp): (u: Tmp)
    requires PosNormal(a)
    ensures Wf(u) && (u.c == Normal || u.c == Zero) && u.s == 0
  {
    ComplementFacts(a);
    FltSqrt.SquareRootExt(FltBasic.Sum(FltInit.ONE_TMP, FltBasic.Negated(FltBasic.Product(a, a))))
  }

  /** 1 - a^2 is finite, and +0 when it is a zero. */
  lemma ComplementFacts(a: Tmp)
    requires PosNormal(a)
    ensures var d := FltBasic.Sum(FltInit.ONE_TMP, FltBasic.Negated(FltBasic.Product(a, a)));
      Wf(d) && (d.c == Normal || (d.c == Zero && d.s == 0))
  {
    FltBasic.ProductOfNormals(a, a);
  }

  /** The quotient flt_tmp_asin takes the arc tangent of: |t| / sqrt(1 - t^2), non-negative and not NaN. */
  function AsinRatio(a: Tmp): (x: Tmp)
    requires PosNormal(a)
    ensures Wf(x) && x.c != NaN && x.s == 0
  {
    FltBasic.Product(a, FltBasic.Reciprocal(Complement(a)))
  }

  /** The quotient flt_tmp_acos takes the arc tangent of: sqrt(1 - t^2) / |t|, non-negative and finite. */
  function AcosRatio(a: Tmp): (x: Tmp)
    requires PosNormal(a)
    ensures Wf(x) && (x.c == Normal || x.c == Zero) && x.s == 0
  {
    var b := FltBasic.Reciprocal(a);
    if a.m == TMP_1 then FltBasic.ReciprocalOfPowerOfTwo(a); FltBasic.Product(b, Complement(a))
    else FltBasic.ReciprocalOfNormal(a); FltBasic.Product(b, Complement(a))
  }

  /** flt_tmp_asin on a Normal: atan(|t| / sqrt(1 - t^2)) with the sign of t applied. */
  function AsinTmp(t: Tmp): (r: Tmp)
    requires Wf(t) && t.c == Normal
    ensures Wf(r) && (r.c == Normal || r.c == Zero) && r.s == t.s
  {
    var p := AtanTmp(AsinRatio(t.(s := 0)));
    p.(s := Xor(p.s, t.s))
  }

  /**
   * flt_tmp_acos on a Normal: atan(sqrt(1 - t^2) / |t|), and pi minus that
   * for a negative t. A non-negative t gives a non-negative result.
   */
  function AcosTmp(t: Tmp): (r: Tmp)
    requires Wf(t) && t.c == Normal
    ensures Wf(r) && (r.c == Normal || r.c == Zero)
    ensures t.s == 0 ==> r.s == 0
  {
    var p := AtanTmp(AcosRatio(t.(s := 0)));
    if t.s == 1 then
      FltBasic.FiniteClosed(FltBasic.Negated(p), PI_TMP);
      FltBasic.Sum(FltBasic.Negated(p), PI_TMP)
    else p
  }

  method TmpAsin(pt: FltTmp)
    requires Wf(pt.Value()) && pt.c == Normal
    modifies pt
    ensures pt.Value() == AsinTmp(old(pt.Value()))
  {
    var sign := pt.s;
    pt.s := 0;
    ghost var a := pt.Value();
    ComplementFacts(a);
    var u := new FltTmp();
    var v := new FltTmp();
    FltInit.Copy(v, pt);
    FltBasic.Multiply(v, pt);
    FltBasic.Negate(v);
    FltInit.Initialize(u, Normal, 0, TMP_1, 0);
    FltBasic.Add(u, v.Value());
    FltSqrt.TmpSqrtExt(u);
    assert u.Value() == Complement(a);
    FltBasic.Invert(u);
    FltBasic.Multiply(pt, u);
    assert pt.Value() == AsinRatio(a);
    TmpAtan(pt);
    pt.s := Xor(pt.s, sign);
  }

  method TmpAcos(pt: FltTmp)
    requires Wf(pt.Value()) && pt.c == Normal
    modifies pt
    ensures pt.Value() == AcosTmp(old(pt.Value()))
  {
    var sign := pt.s;
    pt.s := 0;
    ghost var a := pt.Value();
    ComplementFacts(a);
    var u := new FltTmp();
    var v := new FltTmp();
    FltInit.Copy(v, pt);
    FltBasic.Multiply(v, pt);
    FltBasic.Negate(v);
    FltInit.Initialize(u, Normal, 0, TMP_1, 0);
    FltBasic.Add(u, v.Value());
    FltSqrt.TmpSqrtExt(u);
    FltBasic.Invert(pt);
    FltBasic.Multiply(pt, u);
    assert pt.Value() == AcosRatio(a);
    TmpAtan(pt);
    if sign == 1 {
      FltBasic.Negate(pt);
      FltInit.Initialize(u, Normal, 0, TMP_PI_2, 1);
      FltBasic.Add(pt, u.Value());
    }
  }

  /** flt_tmp_asin_alt: a Normal reaches it only when |t| > 1. */
  function AsinSpecial(t: Tmp): Flt
    requires t.c != Subnormal
  {
    if t.c == Zero then (if t.s == 1 then FLT_NEG_0 else FLT_POS_0) else FLT_NAN
  }

  /** flt_tmp_acos_alt */
  function AcosSpecial(t: Tmp): Flt
    requires t.c != Subnormal
  {
    if t.c == Zero then FLT_POS_PI_2 else FLT_NAN
  }

  /**
   * flt_asin: computed only for |f| <= 1 (the quick check is exactly that,
   * see WithinOneIsMagnitude), NaN for a larger value, an infinity or NaN,
   * and asin(+-0) = +-0. A computed result has the sign of f.
   */
  function Asin(f: Flt): (r: Flt)
    ensures IsZero(f) ==> r == f
    ensures IsInf(f) || IsNaN(f) ==> r == FLT_NAN
    ensures NonZeroFinite(f) && Magnitude(f) > FLT_POS_1 ==> r == FLT_NAN
    ensures NonZeroFinite(f) && Magnitude(f) <= FLT_POS_1 ==> !IsNaN(r) && SignField(r) == SignField(f)
  {
    var t := Unpacked(f);
    WithinOneIsMagnitude(f);
    if t.c == Normal && WithinOne(t) then
      PackedNotNaN(AsinTmp(t));
      PackedSign(AsinTmp(t));
      Packed(AsinTmp(t))
    else AsinSpecial(t)
  }

  /**
   * flt_acos: computed only for |f| <= 1, NaN for a larger value, an
   * infinity or NaN, and acos(+-0) = +pi/2. A computed result for a
   * non-negative f is non-negative.
   */
  function Acos(f: Flt): (r: Flt)
    ensures IsZero(f) ==> r == FLT_POS_PI_2
    ensures IsInf(f) || IsNaN(f) ==> r == FLT_NAN
    ensures NonZeroFinite(f) && Magnitude(f) > FLT_POS_1 ==> r == FLT_NAN
    ensures NonZeroFinite(f) && Magnitude(f) <= FLT_POS_1 ==> !IsNaN(r) && (SignField(f) == 0 ==> SignField(r) == 0)
  {
    var t := Unpacked(f);
    WithinOneIsMagnitude(f);
    if t.c == Normal && WithinOne(t) then
      PackedNotNaN(AcosTmp(t));
      PackedSign(AcosTmp(t));
      Packed(AcosTmp(t))
    else AcosSpecial(t)
  }

  /** On an unpacked Normal or subnormal pattern the quick check is |f| <= 1. */
  lemma WithinOneIsMagnitude(f: Flt)
    ensures NonZeroFinite(f) ==> Unpacked(f).c == Normal && (WithinOne(Unpacked(f)) <==> Magnitude(f) <= FLT_POS_1)
  {
    FieldsCompose(f);
    if IsSubnormal(f) {
      FltModf.SubnormalExponent(f);
    }
  }

  // ------------------------------------------------------------------ atan2

  /** The quadrant adjustment of flt_atan2 for the arc tangent p of |y / x|. */
  function Quadrant(p: Tmp, ySign: Bit, xSign: Bit): (r: Tmp)
    requires Wf(p) && (p.c == Normal || p.c == Zero)
    ensures Wf(r) && (r.c == Normal || r.c == Zero)
  {
    FltBasic.FiniteClosed(p, NEG_PI_TMP);
    FltBasic.FiniteClosed(FltBasic.Negated(p), PI_TMP);
    if ySign == 1 then
      if xSign == 1 then FltBasic.Sum(p, NEG_PI_TMP) else FltBasic.Negated(p)
    else if xSign == 1 then FltBasic.Sum(FltBasic.Negated(p), PI_TMP)
    else p
  }

  /** flt_atan2 on the unpacked y (as t) and x (as u). */
  function Atan2Tmp(t: Tmp, u: Tmp): (r: Tmp)
    requires Wf(t) && Wf(u)
    ensures Wf(r)
  {
    var a, b := t.(s := 0), u.(s := 0);
    if a.c == Normal && b.c == Normal then
      Quadrant(AtanTmp(FltBasic.Product(a, FltBasic.Reciprocal(b))), t.s, u.s)
    else if a.c == Zero && b.c == Normal then
      if u.s == 1 then PI_TMP else FltInit.ZERO_TMP
    else if a.c == Normal && b.c == Zero then Tmp(Normal, t.s, TMP_PI_2, 0)
    else Tmp(NaN, 0, 0, 0)
  }

  /**
   * flt_atan2(y, x): +0 or +pi along the x axis (whatever the sign of the
   * zero y), +-pi/2 along the y axis, a quadrant-adjusted arc tangent when
   * both are non-zero and finite, and NaN for every other combination.
   */
  function Atan2(y: Flt, x: Flt): (r: Flt)
    ensures IsZero(y) && NonZeroFinite(x) ==> r == (if SignField(x) == 1 then FLT_POS_PI else FLT_POS_0)
    ensures NonZeroFinite(y) && IsZero(x) ==> r == (if SignField(y) == 1 then FLT_NEG_PI_2 else FLT_POS_PI_2)
    ensures NonZeroFinite(y) && NonZeroFinite(x) ==> !IsNaN(r)
    ensures !(NonZeroFinite(y) && (NonZeroFinite(x) || IsZero(x))) && !(IsZero(y) && NonZeroFinite(x)) ==> r == FLT_NAN
  {
    var t, u := Unpacked(y), Unpacked(x);
    PiPatterns();
    var r := Atan2Tmp(t, u);
    if t.c == Normal && u.c == Normal then PackedNotNaN(r); Packed(r)
    else Packed(r)
  }

  /** pi and +-pi/2 as working values pack to their patterns. */
  lemma PiPatterns()
    ensures Packed(PI_TMP) == FLT_POS_PI
    ensures Packed(HALF_PI_TMP) == FLT_POS_PI_2
    ensures Packed(Tmp(Normal, 1, TMP_PI_2, 0)) == FLT_NEG_PI_2
  {
  }

  // ------------------------------------------------------------------ lemmas

  /** Packing the negation of a value flips the sign bit, except for a NaN. */
  lemma PackedNegated(y: Tmp)
    requires Wf(y)
    ensures Packed(FltBasic.Negated(y)) == if y.c == NaN then FLT_NAN else FltArith.FlipSign(Packed(y))
  {
    if y.c != NaN {
      PackedSign(y);
      PackedWithSign(y, Xor(y.s, 1));
      FieldsCompose(Packed(y));
    }
  }

  /** Reduction works on |t| and puts the sign back. */
  lemma ReducedNegated(t: Tmp)
    requires Wf(t) && (t.c == Normal || t.c == Zero)
    ensures Reduced(FltBasic.Negated(t)) == FltBasic.Negated(Reduced(t))
  {
    assert FltBasic.Negated(t).(s := 0) == t.(s := 0);
  }

  /** sin(-t) == -sin(t) on working values. */
  lemma SinTmpOdd(t: Tmp)
    requires Wf(t) && (t.c == Normal || t.c == Zero)
    ensures SinTmp(FltBasic.Negated(t)) == FltBasic.Negated(SinTmp(t))
  {
    ReducedNegated(t);
  }

  /** cos(-t) == cos(t) on working values. */
  lemma CosTmpEven(t: Tmp)
    requires Wf(t) && (t.c == Normal || t.c == Zero)
    ensures CosTmp(FltBasic.Negated(t)) == CosTmp(t)
  {
    ReducedNegated(t);
  }

  /** The sine is odd on every finite pattern: sin(-f) == -sin(f). */
  lemma SinOdd(f: Flt)
    requires IsFinite(f)
    ensures Sin(FltArith.FlipSign(f)) == FltArith.FlipSign(Sin(f))
  {
    var t := Unpacked(f);
    FltArith.UnpackedFlipSign(f);
    if t.c == Normal {
      SinTmpOdd(t);
      PackedNegated(SinTmp(t));
    }
  }

  /** The cosine is even: cos(-f) == cos(f) for every pattern but NaN. */
  lemma CosEven(f: Flt)
    requires !IsNaN(f)
    ensures Cos(FltArith.FlipSign(f)) == Cos(f)
  {
    var t := Unpacked(f);
    FltArith.UnpackedFlipSign(f);
    if t.c == Normal {
      CosTmpEven(t);
    }
  }

  /** A product with a negated left operand is the negated product. */
  lemma ProductNegatedLeft(a: Tmp, b: Tmp)
    ensures FltBasic.Product(FltBasic.Negated(a), b) == FltBasic.Negated(FltBasic.Product(a, b))
  {
    if a.c == Normal && b.c == Normal {
      var p := Tmp(Normal, Xor(a.s, b.s), FltBasic.PartialProducts(a.m, b.m), a.e + b.e);
      NormalizedWithSign(p, Xor(Xor(a.s, 1), b.s));
    }
  }

  /** tan(-t) == -tan(t) on working values. */
  lemma TanTmpOdd(t: Tmp)
    requires Wf(t) && (t.c == Normal || t.c == Zero)
    ensures TanTmp(FltBasic.Negated(t)) == FltBasic.Negated(TanTmp(t))
  {
    var x := Reduced(t);
    ReducedNegated(t);
    SinTmpOdd(x);
    CosTmpEven(x);
    ProductNegatedLeft(SinTmp(x), FltBasic.Reciprocal(CosTmp(x)));
  }

  /** The tangent is odd on every finite pattern, unless the result is NaN. */
  lemma TanOdd(f: Flt)
    requires IsFinite(f)
    ensures Tan(FltArith.FlipSign(f)) == if Tan(f) == FLT_NAN then FLT_NAN else FltArith.FlipSign(Tan(f))
  {
    var t := Unpacked(f);
    FltArith.UnpackedFlipSign(f);
    if t.c == Normal {
      TanTmpOdd(t);
      PackedNegated(TanTmp(t));
      if TanTmp(t).c != NaN {
        PackedNotNaN(TanTmp(t));
      }
    }
  }

  /** The arc tangent is odd: atan(-f) == -atan(f) for every pattern but NaN. */
  lemma AtanOdd(f: Flt)
    requires !IsNaN(f)
    ensures Atan(FltArith.FlipSign(f)) == FltArith.FlipSign(Atan(f))
  {
    var t := Unpacked(f);
    FltArith.UnpackedFlipSign(f);
    if t.c == Normal {
      assert FltBasic.Negated(t).(s := 0) == t.(s := 0);
      PackedNegated(AtanTmp(t));
    }
  }

  /** The arc sine is odd wherever it is not NaN. */
  lemma AsinOdd(f: Flt)
    requires !IsNaN(f)
    ensures Asin(FltArith.FlipSign(f)) == if Asin(f) == FLT_NAN then FLT_NAN else FltArith.FlipSign(Asin(f))
  {
    var t := Unpacked(f);
    FltArith.UnpackedFlipSign(f);
    if t.c == Normal && WithinOne(t) {
      assert FltBasic.Negated(t).(s := 0) == t.(s := 0);
      PackedNegated(AsinTmp(t));
    }
  }

  /** acos(-t) == pi - acos(t): the negative side is pi minus the computation on |t|. */
  lemma AcosOfNegated(t: Tmp)
    requires Wf(t) && t.c == Normal && t.s == 0
    ensures AcosTmp(FltBasic.Negated(t)) == FltBasic.Sum(FltBasic.Negated(AcosTmp(t)), PI_TMP)
  {
    assert FltBasic.Negated(t).(s := 0) == t;
  }

  /**
   * The two branches of the arc tangent of a Normal: the polynomial at |t|
   * for |t| <= 1, pi/2 minus the polynomial at 1/|t| above, each with the
   * sign of t.
   */
  lemma AtanBranches(t: Tmp)
    requires Wf(t) && t.c == Normal
    ensures |ATAN_S| == |ATAN_M| == |ATAN_E| == 10 && FltPoly.NormalizedTables(ATAN_S, ATAN_M, ATAN_E, 10)
    ensures WithinOne(t) ==> AtanTmp(t) == Polynomial(t.(s := 0), ATAN_S, ATAN_M, ATAN_E).(s := t.s)
    ensures !WithinOne(t) ==>
      var q := Polynomial(FltBasic.Reciprocal(t.(s := 0)), ATAN_S, ATAN_M, ATAN_E);
      AtanTmp(t) == FltBasic.Sum(FltBasic.Negated(q), HALF_PI_TMP).(s := t.s)
  {
    TablesNormalized();
    OneComparison(t.(s := 0));
  }

  /** atan2(y, 1) == atan(y) for every non-zero finite y. */
  lemma Atan2AtOne(y: Flt)
    requires NonZeroFinite(y)
    ensures Atan2(y, FLT_POS_1) == Atan(y)
  {
    OneUnpacked();
    Atan2AtUnit(y, FLT_POS_1);
  }

  /** The same for any x that unpacks to 1.0. */
  lemma Atan2AtUnit(y: Flt, x: Flt)
    requires NonZeroFinite(y) && Unpacked(x) == FltInit.ONE_TMP
    ensures Atan2(y, x) == Atan(y)
  {
    Atan2TmpAtOne(Unpacked(y));
  }

  /** On working values: atan2(t, 1.0) is atan(t) for a Normal t. */
  lemma Atan2TmpAtOne(t: Tmp)
    requires Wf(t) && t.c == Normal
    ensures Atan2Tmp(t, FltInit.ONE_TMP) == AtanTmp(t)
  {
    var a := t.(s := 0);
    QuotientByOne(a);
    Atan2TmpOfNormals(t, FltInit.ONE_TMP);
    var p := AtanTmp(a);
    QuadrantRight(p, t.s);
    assert a.(s := 0) == a;
    var m := AtanMagnitude(a);
    assert p == m.(s := 0);
    assert AtanTmp(t) == m.(s := t.s);
  }

  /** Dividing by 1.0 is exact. */
  lemma QuotientByOne(a: Tmp)
    requires Wf(a) && a.c == Normal
    ensures FltBasic.Product(a, FltBasic.Reciprocal(FltInit.ONE_TMP)) == a
  {
    FltBasic.ReciprocalOfPowerOfTwo(FltInit.ONE_TMP);
    assert FltBasic.Reciprocal(FltInit.ONE_TMP) == Tmp(Normal, 0, TMP_1, 0);
    FltBasic.ProductByOne(a);
  }

  /** Both operands Normal: the quadrant adjustment of atan |t / u|. */
  lemma Atan2TmpOfNormals(t: Tmp, u: Tmp)
    requires Wf(t) && Wf(u) && t.c == Normal && u.c == Normal
    ensures Atan2Tmp(t, u) ==
      Quadrant(AtanTmp(FltBasic.Product(t.(s := 0), FltBasic.Reciprocal(u.(s := 0)))), t.s, u.s)
  {
  }

  /** In the right half-plane the quadrant adjustment only applies the sign of y. */
  lemma QuadrantRight(p: Tmp, ySign: Bit)
    requires Wf(p) && (p.c == Normal || p.c == Zero)
    ensures Quadrant(p, ySign, 0) == if ySign == 1 then FltBasic.Negated(p) else p
  {
  }

  /** The pattern +1 unpacks to the working 1.0. */
  lemma OneUnpacked()
    ensures Unpacked(FLT_POS_1) == FltInit.ONE_TMP
  {
    FieldsCompose(FLT_POS_1);
  }

  /**
   * On the right half-plane and on the y axis atan2 is odd in y:
   * atan2(-y, x) == -atan2(y, x) for a non-zero finite y.
   */
  lemma Atan2OddInY(y: Flt, x: Flt)
    requires NonZeroFinite(y)
    requires IsZero(x) || (NonZeroFinite(x) && SignField(x) == 0)
    ensures Atan2(FltArith.FlipSign(y), x) == FltArith.FlipSign(Atan2(y, x))
  {
    var t, u := Unpacked(y), Unpacked(x);
    FltArith.UnpackedFlipSign(y);
    assert FltBasic.Negated(t).(s := 0) == t.(s := 0);
    if u.c == Normal {
      var p := AtanTmp(FltBasic.Product(t.(s := 0), FltBasic.Reciprocal(u.(s := 0))));
      PackedNegated(p);
    } else {
      PiPatterns();
    }
  }
}
