/**
 * flt/flt-htrig.c: the hyperbolic functions through e^t = 2^(t / log 2),
 * their inverses through log(x) = log 2 * log2(x) and the square root, and
 * one special-value table per function for the classes the formulas are
 * not used for.
 */
module FltHtrig {
  import opened FltTypes
  import opened FltClassify
  import opened FltConvert
  import FltInit
  import FltBasic
  import FltCompare
  import FltSqrt
  import FltLog
  import FltExp
  import FltArith
  import FltTrig
  import FltModf

  /** -1.0, and log 2 / 2 written as the working 2 log 2 at exponent -2. */
  const NEG_ONE_TMP: Tmp := Tmp(Normal, 1, TMP_1, 0)
  const HALF_LOG2_TMP: Tmp := Tmp(Normal, 0, TMP_2LOG2, -2)

  /** The mantissa of 10.0 (1.25 at exponent 3), the bound flt_tanh saturates at. */
  const TEN_M: U32 := 0x5000_0000

  // --------------------------------------------------------- e^t and e^-t

  /** kt with k = 1 / log 2: a Normal with the sign of t. */
  function Scaled(t: Tmp): (x: Tmp)
    requires Wf(t) && t.c == Normal
    ensures Wf(x) && x.c == Normal && x.s == t.s
  {
    FltBasic.ProductOfNormals(t, FltInit.ONE_OVER_LOG2_TMP);
    FltBasic.Product(t, FltInit.ONE_OVER_LOG2_TMP)
  }

  /**
   * e^t and e^-t as flt_sinh, flt_cosh and flt_tanh compute them: 2^kt and
   * 2^-kt. Both come from the one power w = 2^|kt| (a positive Normal or
   * +inf): the one on the positive side is w, the other its reciprocal.
   */
  function Exponentials(t: Tmp): (r: (Tmp, Tmp))
    requires Wf(t) && t.c == Normal
    ensures var w := FltExp.Exp2Work(Scaled(t).(s := 0));
      (PosNormal(w) || w == FltExp.INF_TMP) &&
      r == (if t.s == 0 then (w, FltBasic.Reciprocal(w)) else (FltBasic.Reciprocal(w), w))
  {
    var x := Scaled(t);
    FltBasic.NegatedTwice(x);
    (FltExp.Exp2Tmp(x), FltExp.Exp2Tmp(FltBasic.Negated(x)))
  }

  /** The two exponentials of a pair (w, 1/w) by class: never NaN, never negative, never both infinite or both zero. */
  lemma PowerPair(w: Tmp)
    requires PosNormal(w) || w == FltExp.INF_TMP
    ensures var v := FltBasic.Reciprocal(w);
      Wf(v) && v.s == 0 && (w.c == Normal ==> PosNormal(v)) && (w.c == Infinite ==> v.c == Zero)
  {
    FltExp.ReciprocalOfPower(w);
    if w.c == Normal {
      FltSqrt.ReciprocalPositive(w);
    }
  }

  /** The sum of the pair, in either order: +inf for w = +inf, a positive Normal otherwise. */
  lemma PairSum(w: Tmp)
    requires PosNormal(w) || w == FltExp.INF_TMP
    ensures var v := FltBasic.Reciprocal(w); var p, q := FltBasic.Sum(w, v), FltBasic.Sum(v, w);
      Wf(p) && Wf(q) && p.s == 0 && q.s == 0 && p.c == q.c && (p.c == Normal || p.c == Infinite)
  {
    PowerPair(w);
    if w.c == Normal {
      var v := FltBasic.Reciprocal(w);
      FltBasic.SumSameSign(w, v);
      FltBasic.SumSameSign(v, w);
    }
  }

  /** The halving both flt_sinh and flt_cosh apply to a Normal by decrementing its exponent. */
  function Halved(d: Tmp): (r: Tmp)
    requires Wf(d)
    ensures Wf(r) && r.c == d.c && r.s == d.s
  {
    if d.c == Normal then d.(e := d.e - 1) else d
  }

  /** sinh on a Normal: (e^t - e^-t) / 2. The difference of the pair is never NaN. */
  function SinhTmp(t: Tmp): (r: Tmp)
    requires Wf(t) && t.c == Normal
    ensures Wf(r) && r.c != NaN
  {
    var (a, b) := Exponentials(t);
    var w := FltExp.Exp2Work(Scaled(t).(s := 0));
    PowerPair(w);
    Halved(FltBasic.Sum(a, FltBasic.Negated(b)))
  }

  /** cosh on a Normal: (e^t + e^-t) / 2, a positive Normal or +inf. */
  function CoshTmp(t: Tmp): (r: Tmp)
    requires Wf(t) && t.c == Normal
    ensures Wf(r) && r.s == 0 && (r.c == Normal || r.c == Infinite)
  {
    var (a, b) := Exponentials(t);
    var w := FltExp.Exp2Work(Scaled(t).(s := 0));
    PairSum(w);
    Halved(FltBasic.Sum(a, b))
  }

  /**
   * The guard of flt_tanh: a Normal strictly inside (-10, 10), checked by
   * comparing t with 10.0 carrying the sign of t.
   */
  predicate TanhInRange(t: Tmp) {
    t.c == Normal &&
    FltCompare.TmpCompare(t, Tmp(Normal, t.s, TEN_M, 3), if t.s == 1 then GreaterThan else LessThan)
  }

  /** tanh inside the range: (e^t - e^-t) * (1 / (e^t + e^-t)). */
  function TanhTmp(t: Tmp): (r: Tmp)
    requires Wf(t) && t.c == Normal
    ensures Wf(r)
  {
    var (a, b) := Exponentials(t);
    FltBasic.Product(FltBasic.Sum(a, FltBasic.Negated(b)), FltBasic.Reciprocal(FltBasic.Sum(a, b)))
  }

  /** The pair as the in-place code builds it: 2^x and 2^-x for x = kt. */
  lemma ExponentialsAre(t: Tmp, a: Tmp, b: Tmp)
    requires Wf(t) && t.c == Normal
    requires a == FltExp.Exp2Tmp(Scaled(t)) && b == FltExp.Exp2Tmp(FltBasic.Negated(Scaled(t)))
    ensures Exponentials(t) == (a, b)
  {
  }

  /** The Normal branch of flt_sinh on its local t, with u holding kt and then -e^-t. */
  method SinhInPlace(pt: FltTmp)
    requires Wf(pt.Value()) && pt.c == Normal
    modifies pt
    ensures pt.Value() == SinhTmp(old(pt.Value()))
  {
    ghost var t := pt.Value();
    var u := new FltTmp();
    FltInit.InitOneOverLog2(u);
    FltBasic.Multiply(pt, u);
    assert pt.Value() == Scaled(t);
    FltInit.Copy(u, pt);
    FltExp.TmpExp2(pt);
    FltBasic.Negate(u);
    FltExp.TmpExp2(u);
    ExponentialsAre(t, pt.Value(), u.Value());
    FltBasic.Negate(u);
    FltBasic.Add(pt, u.Value());
    if pt.c == Normal {
      pt.e := pt.e - 1;
    }
  }

  /** The Normal branch of flt_cosh. */
  method CoshInPlace(pt: FltTmp)
    requires Wf(pt.Value()) && pt.c == Normal
    modifies pt
    ensures pt.Value() == CoshTmp(old(pt.Value()))
  {
    ghost var t := pt.Value();
    var u := new FltTmp();
    FltInit.InitOneOverLog2(u);
    FltBasic.Multiply(pt, u);
    assert pt.Value() == Scaled(t);
    FltInit.Copy(u, pt);
    FltExp.TmpExp2(pt);
    FltBasic.Negate(u);
    FltExp.TmpExp2(u);
    ExponentialsAre(t, pt.Value(), u.Value());
    FltBasic.Add(pt, u.Value());
    if pt.c == Normal {
      pt.e := pt.e - 1;
    }
  }

  /** The in-range branch of flt_tanh, with v holding the reciprocal of the sum. */
  method TanhInPlace(pt: FltTmp)
    requires Wf(pt.Value()) && pt.c == Normal
    modifies pt
    ensures pt.Value() == TanhTmp(old(pt.Value()))
  {
    ghost var t := pt.Value();
    var u := new FltTmp();
    var v := new FltTmp();
    FltInit.InitOneOverLog2(u);
    FltBasic.Multiply(pt, u);
    assert pt.Value() == Scaled(t);
    FltInit.Copy(u, pt);
    FltExp.TmpExp2(pt);
    FltBasic.Negate(u);
    FltExp.TmpExp2(u);
    ExponentialsAre(t, pt.Value(), u.Value());
    FltInit.Copy(v, pt);
    FltBasic.Add(v, u.Value());
    FltBasic.Invert(v);
    FltBasic.Negate(u);
    FltBasic.Add(pt, u.Value());
    FltBasic.Multiply(pt, v);
  }

  // ------------------------------------------------------ inverse functions

  /**
   * asinh on a positive Normal a: log 2 * log2(a + sqrt(a^2 + 1)). Every
   * intermediate is a positive Normal, so the logarithm is defined.
   */
  function AsinhMagnitude(a: Tmp): (r: Tmp)
    requires PosNormal(a)
    ensures Wf(r) && (r.c == Normal || r.c == Zero)
  {
    var sq := FltBasic.Product(a, a);
    FltSqrt.ProductPositive(a, a);
    var w := FltBasic.Sum(sq, FltInit.ONE_TMP);
    FltBasic.SumSameSign(sq, FltInit.ONE_TMP);
    var x := FltBasic.Sum(a, FltSqrt.SquareRootExt(w));
    FltBasic.SumSameSign(a, FltSqrt.SquareRootExt(w));
    FltBasic.FiniteClosed(FltLog.Log2Tmp(x), FltInit.LOG2_TMP);
    FltBasic.Product(FltLog.Log2Tmp(x), FltInit.LOG2_TMP)
  }

  /** flt_asinh on a Normal works on |t| and puts the sign of t back. */
  function AsinhTmp(t: Tmp): (r: Tmp)
    requires Wf(t) && t.c == Normal
    ensures Wf(r) && (r.c == Normal || r.c == Zero) && r.s == t.s
  {
    AsinhMagnitude(t.(s := 0)).(s := t.s)
  }

  /**
   * acosh on a positive Normal: log 2 * log2(t + sqrt(t^2 - 1)). A t^2 - 1
   * that comes out negative is taken as 0 by the extended square root, so
   * the argument of the logarithm stays a positive Normal.
   */
  function AcoshTmp(t: Tmp): (r: Tmp)
    requires PosNormal(t)
    ensures Wf(r) && (r.c == Normal || r.c == Zero)
  {
    var sq := FltBasic.Product(t, t);
    FltSqrt.ProductPositive(t, t);
    var w := FltBasic.Sum(sq, NEG_ONE_TMP);
    FltBasic.FiniteClosed(sq, NEG_ONE_TMP);
    var x := FltBasic.Sum(t, FltSqrt.SquareRootExt(w));
    AcoshArgument(t, w);
    FltBasic.FiniteClosed(FltLog.Log2Tmp(x), FltInit.LOG2_TMP);
    FltBasic.Product(FltLog.Log2Tmp(x), FltInit.LOG2_TMP)
  }

  /** t + sqrt_ext(w) for a finite w is a positive Normal. */
  lemma AcoshArgument(t: Tmp, w: Tmp)
    requires PosNormal(t) && Wf(w) && (w.c == Normal || w.c == Zero)
    ensures PosNormal(FltBasic.Sum(t, FltSqrt.SquareRootExt(w)))
  {
    var r := FltSqrt.SquareRootExt(w);
    if r.c == Normal {
      FltBasic.SumSameSign(t, r);
    } else {
      FltBasic.SumZero(t, r);
    }
  }

  /**
   * atanh on a Normal below 1 in magnitude: log 2 / 2 * log2((1 + t) * (1 / (1 - t))).
   * Both 1 + t and 1 - t are positive Normals there.
   */
  function AtanhTmp(t: Tmp): (r: Tmp)
    requires Wf(t) && t.c == Normal && t.e < 0
    ensures Wf(r) && (r.c == Normal || r.c == Zero)
  {
    var d := FltBasic.Sum(FltInit.ONE_TMP, FltBasic.Negated(t));
    var n := FltBasic.Sum(t, FltInit.ONE_TMP);
    AtanhArguments(t);
    FltSqrt.ReciprocalPositive(d);
    var x := FltBasic.Product(n, FltBasic.Reciprocal(d));
    FltSqrt.ProductPositive(n, FltBasic.Reciprocal(d));
    FltBasic.FiniteClosed(FltLog.Log2Tmp(x), HALF_LOG2_TMP);
    FltBasic.Product(FltLog.Log2Tmp(x), HALF_LOG2_TMP)
  }

  /** For |t| < 1 (exponent below 0) both 1 - t and 1 + t are positive Normals. */
  lemma AtanhArguments(t: Tmp)
    requires Wf(t) && t.c == Normal && t.e < 0
    ensures PosNormal(FltBasic.Sum(FltInit.ONE_TMP, FltBasic.Negated(t)))
    ensures PosNormal(FltBasic.Sum(t, FltInit.ONE_TMP))
  {
    if t.s == 0 {
      FltBasic.SumSmaller(FltInit.ONE_TMP, FltBasic.Negated(t));
      FltBasic.SumSameSign(t, FltInit.ONE_TMP);
    } else {
      FltBasic.SumSameSign(FltInit.ONE_TMP, FltBasic.Negated(t));
      FltBasic.SumLarger(t, FltInit.ONE_TMP);
    }
  }

  /** The Normal branch of flt_asinh: the sign is saved, |t| computed, the sign restored. */
  method AsinhInPlace(pt: FltTmp)
    requires Wf(pt.Value()) && pt.c == Normal
    modifies pt
    ensures pt.Value() == AsinhTmp(old(pt.Value()))
  {
    var u := new FltTmp();
    var v := new FltTmp();
    var sign := pt.s;
    pt.s := 0;
    ghost var a := pt.Value();
    FltInit.Copy(u, pt);
    FltBasic.Multiply(u, pt);
    FltInit.InitOne(v);
    FltBasic.Add(u, v.Value());
    AsinhSteps(a, u.Value());
    FltSqrt.TmpSqrtExt(u);
    FltBasic.Add(pt, u.Value());
    FltLog.TmpLog2(pt);
    FltInit.InitLog2(u);
    FltBasic.Multiply(pt, u);
    pt.s := sign;
  }

  /** a^2 + 1 is a positive Normal, and a plus its square root too. */
  lemma AsinhSteps(a: Tmp, w: Tmp)
    requires PosNormal(a) && w == FltBasic.Sum(FltBasic.Product(a, a), FltInit.ONE_TMP)
    ensures PosNormal(w) && PosNormal(FltBasic.Sum(a, FltSqrt.SquareRootExt(w)))
  {
    FltSqrt.ProductPositive(a, a);
    FltBasic.SumSameSign(FltBasic.Product(a, a), FltInit.ONE_TMP);
    FltBasic.SumSameSign(a, FltSqrt.SquareRootExt(w));
  }

  /** The branch of flt_acosh for a positive Normal of exponent 0 or more. */
  method AcoshInPlace(pt: FltTmp)
    requires PosNormal(pt.Value())
    modifies pt
    ensures pt.Value() == AcoshTmp(old(pt.Value()))
  {
    ghost var t := pt.Value();
    var u := new FltTmp();
    var v := new FltTmp();
    FltInit.Copy(u, pt);
    FltBasic.Multiply(u, pt);
    FltInit.Initialize(v, Normal, 1, TMP_1, 0);
    FltBasic.Add(u, v.Value());
    AcoshSteps(t, u.Value());
    FltSqrt.TmpSqrtExt(u);
    FltBasic.Add(pt, u.Value());
    FltLog.TmpLog2(pt);
    FltInit.InitLog2(u);
    FltBasic.Multiply(pt, u);
  }

  /** t^2 - 1 is finite, and t plus its extended square root a positive Normal. */
  lemma AcoshSteps(t: Tmp, w: Tmp)
    requires PosNormal(t) && w == FltBasic.Sum(FltBasic.Product(t, t), NEG_ONE_TMP)
    ensures Wf(w) && PosNormal(FltBasic.Sum(t, FltSqrt.SquareRootExt(w)))
  {
    FltSqrt.ProductPositive(t, t);
    FltBasic.FiniteClosed(FltBasic.Product(t, t), NEG_ONE_TMP);
    AcoshArgument(t, w);
  }

  /** The branch of flt_atanh for a Normal of exponent below 0. */
  method AtanhInPlace(pt: FltTmp)
    requires Wf(pt.Value()) && pt.c == Normal && pt.e < 0
    modifies pt
    ensures pt.Value() == AtanhTmp(old(pt.Value()))
  {
    ghost var t := pt.Value();
    var u := new FltTmp();
    var v := new FltTmp();
    AtanhArguments(t);
    FltInit.InitOne(u);
    FltInit.Copy(v, pt);
    FltBasic.Negate(v);
    FltBasic.Add(u, v.Value());
    FltSqrt.ReciprocalPositive(u.Value());
    FltBasic.Invert(u);
    FltInit.InitOne(v);
    FltBasic.Add(pt, v.Value());
    FltSqrt.ProductPositive(pt.Value(), u.Value());
    FltBasic.Multiply(pt, u);
    FltLog.TmpLog2(pt);
    FltInit.Initialize(u, Normal, 0, TMP_2LOG2, -2);
    FltBasic.Multiply(pt, u);
  }

  // ------------------------------------------------------- special tables

  /** flt_tmp_sinh_alt (also flt_tmp_asinh_alt, which has the same table): the value itself. */
  function SinhSpecial(t: Tmp): Flt
    requires t.c == Infinite || t.c == NaN || t.c == Zero
  {
    match t.c
    case Infinite => if t.s == 1 then FLT_NEG_INF else FLT_POS_INF
    case NaN => FLT_NAN
    case Zero => if t.s == 1 then FLT_NEG_0 else FLT_POS_0
  }

  /** flt_tmp_cosh_alt: cosh(+-inf) = +inf and cosh(+-0) = +1. */
  function CoshSpecial(t: Tmp): Flt
    requires t.c == Infinite || t.c == NaN || t.c == Zero
  {
    match t.c
    case Infinite => FLT_POS_INF
    case NaN => FLT_NAN
    case Zero => FLT_POS_1
  }

  /** flt_tmp_tanh_alt: an infinity or a Normal outside (-10, 10) gives +-1. */
  function TanhSpecial(t: Tmp): Flt
    requires t.c != Subnormal
  {
    match t.c
    case Infinite => if t.s == 1 then FLT_NEG_1 else FLT_POS_1
    case Normal => if t.s == 1 then FLT_NEG_1 else FLT_POS_1
    case NaN => FLT_NAN
    case Zero => if t.s == 1 then FLT_NEG_0 else FLT_POS_0
  }

  /** flt_tmp_acosh_alt: +inf for +inf, NaN for everything else. */
  function AcoshSpecial(t: Tmp): Flt
    requires t.c != Subnormal
  {
    match t.c
    case Infinite => if t.s == 1 then FLT_NAN else FLT_POS_INF
    case _ => FLT_NAN
  }

  /** flt_tmp_atanh_alt: +-inf at exactly +-1, NaN elsewhere outside (-1, 1), the zero itself. */
  function AtanhSpecial(t: Tmp): Flt
    requires t.c != Subnormal
  {
    match t.c
    case Infinite => FLT_NAN
    case NaN => FLT_NAN
    case Normal =>
      if t.m == TMP_1 && t.e == 0 then (if t.s == 1 then FLT_NEG_INF else FLT_POS_INF)
      else FLT_NAN
    case Zero => if t.s == 1 then FLT_NEG_0 else FLT_POS_0
  }

  // ------------------------------------------------------ public functions

  /** flt_sinh: +-0 and +-inf are their own sinh, NaN stays NaN, a number gives a number. */
  function Sinh(f: Flt): (r: Flt)
    ensures IsZero(f) || IsInf(f) ==> r == f
    ensures IsNaN(f) ==> r == FLT_NAN
    ensures FltTrig.NonZeroFinite(f) ==> !IsNaN(r)
  {
    var t := Unpacked(f);
    UnpackPackRoundTrip(f);
    if t.c == Normal then
      PackedNotNaN(SinhTmp(t));
      Packed(SinhTmp(t))
    else SinhSpecial(t)
  }

  /** flt_cosh: cosh(+-0) = +1, cosh(+-inf) = +inf, and never negative. */
  function Cosh(f: Flt): (r: Flt)
    ensures IsZero(f) ==> r == FLT_POS_1
    ensures IsInf(f) ==> r == FLT_POS_INF
    ensures IsNaN(f) ==> r == FLT_NAN
    ensures !IsNaN(f) ==> !IsNaN(r) && SignField(r) == 0
  {
    var t := Unpacked(f);
    if t.c == Normal then
      PackedNotNaN(CoshTmp(t));
      PackedSign(CoshTmp(t));
      Packed(CoshTmp(t))
    else CoshSpecial(t)
  }

  /** flt_tanh: +-0 stays, +-inf gives +-1, and only NaN gives NaN. */
  function Tanh(f: Flt): (r: Flt)
    ensures IsZero(f) ==> r == f
    ensures IsInf(f) ==> r == if SignField(f) == 1 then FLT_NEG_1 else FLT_POS_1
    ensures IsNaN(f) ==> r == FLT_NAN
    ensures !IsNaN(f) ==> !IsNaN(r)
  {
    var t := Unpacked(f);
    UnpackPackRoundTrip(f);
    if TanhInRange(t) then
      TanhFinite(t);
      PackedNotNaN(TanhTmp(t));
      Packed(TanhTmp(t))
    else TanhSpecial(t)
  }

  /** flt_asinh: +-0 and +-inf stay, NaN stays NaN, a number gives a number of its own sign. */
  function Asinh(f: Flt): (r: Flt)
    ensures IsZero(f) || IsInf(f) ==> r == f
    ensures IsNaN(f) ==> r == FLT_NAN
    ensures FltTrig.NonZeroFinite(f) ==> !IsNaN(r) && SignField(r) == SignField(f)
  {
    var t := Unpacked(f);
    UnpackPackRoundTrip(f);
    if t.c == Normal then
      PackedNotNaN(AsinhTmp(t));
      PackedSign(AsinhTmp(t));
      Packed(AsinhTmp(t))
    else SinhSpecial(t)
  }

  /**
   * flt_acosh: computed for a positive Normal of exponent 0 or more (the
   * quick test for t >= 1); +inf for +inf; NaN for everything else,
   * including the values in (0, 1), which the quick test sends to the table.
   */
  function Acosh(f: Flt): (r: Flt)
    ensures f == FLT_POS_INF ==> r == FLT_POS_INF
    ensures IsNormal(f) && SignField(f) == 0 && ExpField(f) >= 127 ==> !IsNaN(r)
    ensures f != FLT_POS_INF && !(IsNormal(f) && SignField(f) == 0 && ExpField(f) >= 127) ==> r == FLT_NAN
  {
    var t := Unpacked(f);
    FieldsCompose(f);
    SubnormalBelowOne(f);
    if t.c == Normal && t.s == 0 && t.e >= 0 then
      PackedNotNaN(AcoshTmp(t));
      Packed(AcoshTmp(t))
    else AcoshSpecial(t)
  }

  /**
   * flt_atanh: computed for a Normal of exponent below 0 (the quick test for
   * |t| < 1), subnormals included; +-inf at exactly +-1; +-0 stays; NaN for
   * the rest.
   */
  function Atanh(f: Flt): (r: Flt)
    ensures IsZero(f) ==> r == f
    ensures IsInf(f) || IsNaN(f) ==> r == FLT_NAN
    ensures f == FLT_POS_1 ==> r == FLT_POS_INF
    ensures f == FLT_NEG_1 ==> r == FLT_NEG_INF
    ensures IsNormal(f) && ExpField(f) >= 127 && f != FLT_POS_1 && f != FLT_NEG_1 ==> r == FLT_NAN
    ensures IsSubnormal(f) || (IsNormal(f) && ExpField(f) < 127) ==> !IsNaN(r)
  {
    var t := Unpacked(f);
    UnpackPackRoundTrip(f);
    FieldsCompose(f);
    SubnormalBelowOne(f);
    if t.c == Normal && t.e < 0 then
      PackedNotNaN(AtanhTmp(t));
      Packed(AtanhTmp(t))
    else AtanhSpecial(t)
  }

  // ------------------------------------------------------------------ lemmas

  /** A subnormal pattern unpacks to a Normal far below 1, so the exponent tests of acosh and atanh see it as such. */
  lemma SubnormalBelowOne(f: Flt)
    ensures IsSubnormal(f) ==> Unpacked(f).c == Normal && Unpacked(f).e < -126
  {
    if IsSubnormal(f) {
      FltModf.SubnormalExponent(f);
    }
  }

  /**
   * The tanh guard is exactly |t| < 10: an exponent below 3, or exponent 3
   * with a mantissa below that of 10.0.
   */
  lemma TanhRange(t: Tmp)
    requires Wf(t) && t.c == Normal
    ensures TanhInRange(t) <==> t.e < 3 || (t.e == 3 && t.m < TEN_M)
  {
    var ten := Tmp(Normal, t.s, TEN_M, 3);
    if t.e < 3 || (t.e == 3 && t.m < TEN_M) {
      FltBasic.SumLarger(t, FltBasic.Negated(ten));
    } else if t.e > 3 || (t.e == 3 && t.m > TEN_M) {
      FltBasic.SumSmaller(t, FltBasic.Negated(ten));
    } else {
      assert t == ten;
      FltBasic.SumNegated(ten);
    }
  }

  /**
   * Inside the range neither exponential overflows (|kt| < 16 is far below
   * the limit 149 of 2^x), so tanh is a finite number there.
   */
  lemma TanhFinite(t: Tmp)
    requires Wf(t) && TanhInRange(t)
    ensures TanhTmp(t).c == Normal || TanhTmp(t).c == Zero
  {
    InRangePower(t);
    var w := FltExp.Exp2Work(Scaled(t).(s := 0));
    PowerPair(w);
    var (a, b) := Exponentials(t);
    FltBasic.SumSameSign(a, b);
    FltSqrt.ReciprocalPositive(FltBasic.Sum(a, b));
    FltBasic.FiniteClosed(a, FltBasic.Negated(b));
    FltBasic.FiniteClosed(FltBasic.Sum(a, FltBasic.Negated(b)), FltBasic.Reciprocal(FltBasic.Sum(a, b)));
  }

  /** From 10 up in magnitude tanh is exactly +-1. */
  lemma TanhSaturates(f: Flt)
    requires IsNormal(f) && (ExpField(f) > 130 || (ExpField(f) == 130 && FracField(f) >= 0x20_0000))
    ensures Tanh(f) == if SignField(f) == 1 then FLT_NEG_1 else FLT_POS_1
  {
    TanhRange(Unpacked(f));
  }

  /** Below 10 in magnitude tanh is computed by the formula. */
  lemma TanhComputed(f: Flt)
    requires IsNormal(f) && (ExpField(f) < 130 || (ExpField(f) == 130 && FracField(f) < 0x20_0000))
    ensures Tanh(f) == Packed(TanhTmp(Unpacked(f)))
  {
    TanhRange(Unpacked(f));
  }

  /**
   * Negating both operands of a sum negates it, up to the fields its class
   * does not use, unless the sum is Zero (a cancellation is always +0).
   */
  lemma SumOfNegations(a: Tmp, b: Tmp)
    requires Wf(a) && Wf(b) && FltBasic.Sum(a, b).c != Zero
    ensures Equivalent(FltBasic.Sum(FltBasic.Negated(a), FltBasic.Negated(b)), FltBasic.Negated(FltBasic.Sum(a, b)))
  {
    if a.c == Normal && b.c == Normal {
      var (bm, be) := FltBasic.Align(b.m, b.e, a.e);
      var (am, ae) := FltBasic.Align(a.m, a.e, be);
      CombineNegated(a, b.s, am, ae, bm, be);
    }
  }

  /**
   * The add-or-subtract step with both signs flipped flips the sign of a
   * non-Zero result, and gives the same +0 when a subtraction cancels.
   */
  lemma CombineNegated(t: Tmp, us: Bit, am: U32, ae: int, bm: U32, be: int)
    ensures var r, r' := FltBasic.Combine(t, us, am, ae, bm, be), FltBasic.Combine(FltBasic.Negated(t), Xor(us, 1), am, ae, bm, be);
      r'.c == r.c && (r.c == Zero && t.s != us ==> r' == r) && (r.c != Zero ==> r' == FltBasic.Negated(r))
  {
    var e := if am != 0 then ae else be;
    if t.s == us {
      NormalizedWithSign(Tmp(Normal, t.s, (am + bm) % TWO_32, e), Xor(t.s, 1));
    } else {
      var m := if am >= bm then am - bm else bm - am;
      var s := if am >= bm then t.s else us;
      NormalizedWithSign(Tmp(Normal, s, m, e), Xor(s, 1));
    }
  }

  /**
   * An exact cancellation of two Normals is +0 whatever their signs, so
   * negating both operands gives the same Zero.
   */
  lemma CancelledSum(a: Tmp, b: Tmp)
    requires Wf(a) && Wf(b) && a.c == Normal && b.c == Normal && FltBasic.Sum(a, b).c == Zero
    ensures FltBasic.Sum(a, b).s == 0
    ensures Equivalent(FltBasic.Sum(FltBasic.Negated(a), FltBasic.Negated(b)), FltBasic.Sum(a, b))
  {
    var (bm, be) := FltBasic.Align(b.m, b.e, a.e);
    var (am, ae) := FltBasic.Align(a.m, a.e, be);
    if a.s == b.s {
      FltBasic.SumSameSign(a, b);
      assert false;
    }
    CombineNegated(a, b.s, am, ae, bm, be);
  }

  /** The pair of exponentials of -t is that of t, swapped. */
  lemma ExponentialsOfNegated(t: Tmp)
    requires Wf(t) && t.c == Normal
    ensures var (a, b) := Exponentials(t); Exponentials(FltBasic.Negated(t)) == (b, a)
  {
    FltTrig.ProductNegatedLeft(t, FltInit.ONE_OVER_LOG2_TMP);
    assert Scaled(FltBasic.Negated(t)).(s := 0) == Scaled(t).(s := 0);
  }

  /**
   * The difference e^t - e^-t at -t against the one at t: the negation, or
   * the same +0 when the two exponentials cancel exactly.
   */
  lemma DifferenceOfNegated(t: Tmp)
    requires Wf(t) && t.c == Normal
    ensures var (a, b) := Exponentials(t); var d := FltBasic.Sum(a, FltBasic.Negated(b));
      var d' := FltBasic.Sum(b, FltBasic.Negated(a));
      Wf(d) && d.c != NaN && (d.c == Zero ==> d.s == 0 && PosNormal(a) && PosNormal(b)) &&
      Equivalent(d', if d.c == Zero then d else FltBasic.Negated(d))
  {
    var (a, b) := Exponentials(t);
    var w := FltExp.Exp2Work(Scaled(t).(s := 0));
    PowerPair(w);
    var d := FltBasic.Sum(a, FltBasic.Negated(b));
    FltBasic.SumCommutes(b, FltBasic.Negated(a));
    FltBasic.NegatedTwice(b);
    if d.c == Zero {
      CancelledSum(a, FltBasic.Negated(b));
    } else {
      SumOfNegations(a, FltBasic.Negated(b));
    }
  }

  /** sinh(-t) is -sinh(t), except that an exact cancellation gives +0 on both sides. */
  lemma SinhTmpOdd(t: Tmp)
    requires Wf(t) && t.c == Normal
    ensures SinhTmp(t).c == Zero ==> SinhTmp(t).s == 0
    ensures Equivalent(SinhTmp(FltBasic.Negated(t)),
                       if SinhTmp(t).c == Zero then SinhTmp(t) else FltBasic.Negated(SinhTmp(t)))
  {
    ExponentialsOfNegated(t);
    DifferenceOfNegated(t);
  }

  /** The hyperbolic sine is odd, except that a cancelled difference is +0 for f and -f alike. */
  lemma SinhOdd(f: Flt)
    requires !IsNaN(f)
    ensures Sinh(FltArith.FlipSign(f)) == FltArith.FlipSign(Sinh(f)) || Sinh(FltArith.FlipSign(f)) == Sinh(f) == FLT_POS_0
  {
    var t := Unpacked(f);
    FltArith.UnpackedFlipSign(f);
    if t.c == Normal {
      SinhTmpOdd(t);
      var y := SinhTmp(t);
      if y.c == Zero {
        PackedEquivalent(SinhTmp(FltBasic.Negated(t)), y);
        assert Packed(y) == FLT_POS_0;
      } else {
        PackedEquivalent(SinhTmp(FltBasic.Negated(t)), FltBasic.Negated(y));
        FltTrig.PackedNegated(y);
      }
    }
  }

  /** The hyperbolic cosine is even: cosh(-f) == cosh(f) for every pattern but NaN. */
  lemma CoshEven(f: Flt)
    requires !IsNaN(f)
    ensures Cosh(FltArith.FlipSign(f)) == Cosh(f)
  {
    var t := Unpacked(f);
    FltArith.UnpackedFlipSign(f);
    if t.c == Normal {
      var (a, b) := Exponentials(t);
      ExponentialsOfNegated(t);
      FltBasic.SumCommutes(a, b);
      PackedEquivalent(CoshTmp(FltBasic.Negated(t)), CoshTmp(t));
    }
  }

  /** Inside the tanh range 2^|kt| is a positive Normal: |kt| < 16 is below the limit 149. */
  lemma InRangePower(t: Tmp)
    requires Wf(t) && TanhInRange(t)
    ensures PosNormal(FltExp.Exp2Work(Scaled(t).(s := 0)))
  {
    TanhRange(t);
    var x := Scaled(t).(s := 0);
    FltBasic.ProductOfNormals(t, FltInit.ONE_OVER_LOG2_TMP);
    FltBasic.SumLarger(x, FltBasic.Negated(FltExp.EXP2_LIMIT));
  }

  /** tanh(-t) is -tanh(t) inside the range, except that a cancelled numerator gives +0 on both sides. */
  lemma TanhTmpOdd(t: Tmp)
    requires Wf(t) && TanhInRange(t)
    ensures TanhTmp(t).c == Zero ==> TanhTmp(t).s == 0
    ensures Equivalent(TanhTmp(FltBasic.Negated(t)),
                       if TanhTmp(t).c == Zero then TanhTmp(t) else FltBasic.Negated(TanhTmp(t)))
  {
    var (a, b) := Exponentials(t);
    ExponentialsOfNegated(t);
    DifferenceOfNegated(t);
    InRangePower(t);
    PowerPair(FltExp.Exp2Work(Scaled(t).(s := 0)));
    var d := FltBasic.Sum(a, FltBasic.Negated(b));
    var d' := FltBasic.Sum(b, FltBasic.Negated(a));
    FltBasic.SumSameSign(a, b);
    FltBasic.SumCommutes(a, b);
    var q := FltBasic.Reciprocal(FltBasic.Sum(a, b));
    FltSqrt.ReciprocalPositive(FltBasic.Sum(a, b));
    FltBasic.ReciprocalEquivalent(FltBasic.Sum(b, a), FltBasic.Sum(a, b));
    FltBasic.ProductRightEquivalent(d', FltBasic.Reciprocal(FltBasic.Sum(b, a)), q);
    if d.c == Zero {
      FltBasic.ProductLeftEquivalent(d', d, q);
    } else {
      FltBasic.ProductOfNormals(d, q);
      FltBasic.ProductLeftEquivalent(d', FltBasic.Negated(d), q);
      FltTrig.ProductNegatedLeft(d, q);
    }
  }

  /** The hyperbolic tangent is odd, except that a cancelled numerator is +0 for f and -f alike. */
  lemma TanhOdd(f: Flt)
    requires !IsNaN(f)
    ensures Tanh(FltArith.FlipSign(f)) == FltArith.FlipSign(Tanh(f)) || Tanh(FltArith.FlipSign(f)) == Tanh(f) == FLT_POS_0
  {
    var t := Unpacked(f);
    FltArith.UnpackedFlipSign(f);
    if t.c == Normal {
      TanhRange(t);
      TanhRange(FltBasic.Negated(t));
      if TanhInRange(t) {
        TanhTmpOdd(t);
        var y := TanhTmp(t);
        if y.c == Zero {
          PackedEquivalent(TanhTmp(FltBasic.Negated(t)), y);
          assert Packed(y) == FLT_POS_0;
        } else {
          PackedEquivalent(TanhTmp(FltBasic.Negated(t)), FltBasic.Negated(y));
          FltTrig.PackedNegated(y);
        }
      }
    }
  }

  /** The inverse hyperbolic sine is odd: asinh(-f) == -asinh(f) for every pattern but NaN. */
  lemma AsinhOdd(f: Flt)
    requires !IsNaN(f)
    ensures Asinh(FltArith.FlipSign(f)) == FltArith.FlipSign(Asinh(f))
  {
    var t := Unpacked(f);
    FltArith.UnpackedFlipSign(f);
    if t.c == Normal {
      assert FltBasic.Negated(t).(s := 0) == t.(s := 0);
      FltTrig.PackedNegated(AsinhTmp(t));
    }
  }

  /** acosh(1) == +0: the square root of 1 - 1 is +0 and log2(1) is +0. */
  lemma AcoshOfOne()
    ensures Acosh(FLT_POS_1) == FLT_POS_0
  {
    var t := Unpacked(FLT_POS_1);
    assert ExpField(FLT_POS_1) == 127 && FracField(FLT_POS_1) == 0 && SignField(FLT_POS_1) == 0;
    assert t == FltInit.ONE_TMP;
    AcoshTmpOfOne();
  }

  /** On the working value 1.0, acosh is +0. */
  lemma AcoshTmpOfOne()
    ensures AcoshTmp(FltInit.ONE_TMP).c == Zero && AcoshTmp(FltInit.ONE_TMP).s == 0
  {
    var t := FltInit.ONE_TMP;
    FltBasic.ProductByOne(t);
    assert FltBasic.Product(t, t) == t;
    assert NEG_ONE_TMP == FltBasic.Negated(t);
    FltBasic.SumNegated(t);
    var w := FltBasic.Sum(t, NEG_ONE_TMP);
    assert w.c == Zero && w.s == 0;
    assert FltSqrt.SquareRootExt(w) == w;
    FltBasic.SumZero(t, w);
    assert FltBasic.Sum(t, FltSqrt.SquareRootExt(w)) == t;
    assert FltLog.Log2Tmp(t) == FltInit.ZERO_TMP;
  }

}
