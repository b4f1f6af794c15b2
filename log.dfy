/**
 * flt/flt-log.c: log2 of a positive Normal as a degree-9 polynomial on the
 * mantissa in [1, 2) plus the unbiased exponent, with a shortcut for a
 * mantissa of exactly 1; log and log10 scale that by a constant, and a table
 * handles every other class.
 */
module FltLog {
  import opened FltTypes
  import opened FltClassify
  import opened FltConvert
  import FltInit
  import FltBasic
  import FltPoly

  /** The coefficients of the log2 polynomial on [1, 2), highest degree first. */
  const LOG2_S: seq<Bit> := [0, 1, 0, 1, 0, 1, 0, 1, 0, 1]
  const LOG2_M: seq<U32> := [0x5833_01F1, 0x5375_27F8, 0x46E0_80CE, 0x473E_90A8, 0x5E1C_4C40,
                             0x55C7_D573, 0x6E7C_0271, 0x663F_0624, 0x491C_F8A7, 0x728B_1651]
  const LOG2_E: seq<int> := [-8, -4, -1, 1, 2, 3, 3, 3, 3, 1]

  /** log10(2) = 0.301029995663981 */
  const LOG10_2: Tmp := Tmp(Normal, 0, 0x4D10_4D42, -2)

  /**
   * The magnitude of the exponent as the uint32_t mantissa argument it is
   * passed as: |k| reduced modulo 2^32.
   */
  function ExponentMagnitude(k: int): (r: U32)
    ensures -TWO_32 < k < TWO_32 ==> r == (if k < 0 then -k else k)
  {
    (if k < 0 then -k else k) % TWO_32
  }

  /** The exponent k as a working value: |k| at exponent 30, sign from k, normalized. */
  function ExponentTmp(k: int): (r: Tmp)
    ensures Wf(r)
    ensures k == 0 ==> r.c == Zero && r.s == 0
    ensures 0 < k < 0x8000_0000 || -0x8000_0000 < k < 0 ==>
              r.c == Normal && r.s == (if k < 0 then 1 else 0) && r.e <= TMP_1_BITS &&
              r.m == (if k < 0 then -k else k) * Pow2(TMP_1_BITS - r.e)
  {
    FltBasic.Normalized(Tmp(Normal, if k < 0 then 1 else 0, ExponentMagnitude(k), TMP_1_BITS))
  }

  /**
   * flt_tmp_log2 on a positive Normal: the polynomial at the mantissa taken
   * at exponent 0 (or +0 when the mantissa is exactly 1), plus the exponent.
   */
  function Log2Tmp(t: Tmp): (r: Tmp)
    requires PosNormal(t)
    ensures Wf(r) && (r.c == Normal || r.c == Zero)
  {
    var p := Log2Mantissa(t.(e := 0));
    FltBasic.FiniteClosed(p, ExponentTmp(t.e));
    FltBasic.Sum(p, ExponentTmp(t.e))
  }

  /** The polynomial part of flt_tmp_log2, on the mantissa in [1, 2). */
  function Log2Mantissa(x: Tmp): (p: Tmp)
    requires PosNormal(x)
    ensures Wf(p) && (p.c == Normal || p.c == Zero)
    ensures x.m == TMP_1 ==> p == FltInit.ZERO_TMP
  {
    if x.m == TMP_1 then FltInit.ZERO_TMP
    else
      TablesNormalized();
      FltPoly.HornerWf(x, LOG2_S, LOG2_M, LOG2_E, 10);
      FltPoly.HornerFinite(x, LOG2_S, LOG2_M, LOG2_E, 10);
      FltPoly.Horner(x, LOG2_S, LOG2_M, LOG2_E, 10)
  }

  /** Every coefficient mantissa of the table is normalized. */
  lemma TablesNormalized()
    ensures |LOG2_S| == |LOG2_M| == |LOG2_E| == 10
    ensures FltPoly.NormalizedTables(LOG2_S, LOG2_M, LOG2_E, 10)
  {
  }

  /** flt_tmp_log2. Anything but a positive Normal makes the source exit. */
  method TmpLog2(pt: FltTmp)
    requires PosNormal(pt.Value())
    modifies pt
    ensures pt.Value() == Log2Tmp(old(pt.Value()))
  {
    var exponent := pt.e;
    pt.e := 0;
    if pt.m == TMP_1 {
      FltInit.Initialize(pt, Zero, 0, 0, 0);
    } else {
      var steps := FltPoly.Evaluate(pt, 10, LOG2_S, LOG2_M, LOG2_E);
    }
    var u := new FltTmp();
    FltInit.Initialize(u, Normal, if exponent < 0 then 1 else 0, ExponentMagnitude(exponent), TMP_1_BITS);
    FltBasic.Normalize(u);
    FltBasic.Add(pt, u.Value());
  }

  /** flt_tmp_log2_alt: the packed result for everything but a positive Normal. */
  function Log2Special(t: Tmp): Flt
    requires t.c != Subnormal
  {
    match t.c
    case Infinite => if t.s == 1 then FLT_NAN else FLT_POS_INF
    case NaN => FLT_NAN
    case Normal => FLT_NAN
    case Zero => FLT_NEG_INF
  }

  /** The pattern is a positive Normal or subnormal, the one domain where a logarithm is computed. */
  predicate PositiveFinite(f: Flt) {
    SignField(f) == 0 && (IsNormal(f) || IsSubnormal(f))
  }

  /** The logarithm of a pattern, given how to finish a positive Normal's log2. */
  function LogWith(f: Flt, scale: Tmp): (r: Flt)
    requires PosNormal(scale)
    ensures f == FLT_POS_INF ==> r == FLT_POS_INF
    ensures IsNaN(f) || f == FLT_NEG_INF ==> r == FLT_NAN
    ensures SignField(f) == 1 && (IsNormal(f) || IsSubnormal(f)) ==> r == FLT_NAN
    ensures IsZero(f) ==> r == FLT_NEG_INF
    ensures PositiveFinite(f) ==> !IsNaN(r)
  {
    var t := Unpacked(f);
    if t.c == Normal && t.s == 0 then
      var y := FltBasic.Product(Log2Tmp(t), scale);
      PackedNotNaN(y);
      Packed(y)
    else
      Log2Special(t)
  }

  /**
   * flt_log2, flt_log and flt_log10: the log2 of a positive value, times
   * nothing, log 2 or log10 2. (flt_log2 multiplies by nothing; multiplying
   * by the working value 1.0 is exact, see Log2IsUnscaled.)
   */
  function Log2(f: Flt): (r: Flt)
    ensures f == FLT_POS_INF ==> r == FLT_POS_INF
    ensures IsNaN(f) || f == FLT_NEG_INF ==> r == FLT_NAN
    ensures SignField(f) == 1 && (IsNormal(f) || IsSubnormal(f)) ==> r == FLT_NAN
    ensures IsZero(f) ==> r == FLT_NEG_INF
    ensures PositiveFinite(f) ==> !IsNaN(r)
  {
    var t := Unpacked(f);
    if t.c == Normal && t.s == 0 then
      PackedNotNaN(Log2Tmp(t));
      Packed(Log2Tmp(t))
    else
      Log2Special(t)
  }

  function Ln(f: Flt): (r: Flt)
    ensures r == LogWith(f, FltInit.LOG2_TMP)
  {
    var t := Unpacked(f);
    if t.c == Normal && t.s == 0 then Packed(FltBasic.Product(Log2Tmp(t), FltInit.LOG2_TMP))
    else Log2Special(t)
  }

  function Log10(f: Flt): (r: Flt)
    ensures r == LogWith(f, LOG10_2)
  {
    var t := Unpacked(f);
    if t.c == Normal && t.s == 0 then Packed(FltBasic.Product(Log2Tmp(t), LOG10_2))
    else Log2Special(t)
  }

  // ------------------------------------------------------------------ lemmas

  /** log2 is the scaled logarithm with the scale 1.0. */
  lemma Log2IsUnscaled(f: Flt)
    ensures Log2(f) == LogWith(f, FltInit.ONE_TMP)
  {
    var t := Unpacked(f);
    if t.c == Normal && t.s == 0 {
      var y := Log2Tmp(t);
      if y.c == Normal {
        FltBasic.ProductByOne(y);
      }
    }
  }

  /** With the mantissa exactly 1 the polynomial is skipped: log2(2^k) is k itself. */
  lemma Log2OfPowerOfTwo(t: Tmp)
    requires PosNormal(t) && t.m == TMP_1 && -0x8000_0000 <= t.e < 0x8000_0000
    ensures Equivalent(Log2Tmp(t), ExponentTmp(t.e))
  {
  }

  /** The exponent as a working value is the one flt_ltof builds for the same int. */
  lemma ExponentIsLtof(k: I32)
    requires k != 0
    ensures ExponentTmp(k) == LtofTmp(k)
  {
  }

  /** For a normal power of two the result is exactly the conversion of the exponent: log2(2^k) == ltof(k). */
  lemma Log2OfNormalPower(f: Flt)
    requires IsNormal(f) && SignField(f) == 0 && FracField(f) == 0
    ensures Log2(f) == Ltof(ExpField(f) - 127)
  {
    var t := Unpacked(f);
    var k: I32 := ExpField(f) - 127;
    Log2OfPowerOfTwo(t);
    if k != 0 {
      ExponentIsLtof(k);
    }
  }

  /** log2(1), ln(1) and log10(1) are +0. */
  lemma LogsOfOne()
    ensures Log2(FLT_POS_1) == FLT_POS_0
    ensures Ln(FLT_POS_1) == FLT_POS_0
    ensures Log10(FLT_POS_1) == FLT_POS_0
  {
    var t := Unpacked(FLT_POS_1);
    assert ExpField(FLT_POS_1) == 127 && FracField(FLT_POS_1) == 0 && SignField(FLT_POS_1) == 0;
    assert t == FltInit.ONE_TMP;
    assert Log2Tmp(t) == FltInit.ZERO_TMP;
  }

  /** Outside the positive finite values the three logarithms agree: they share one table. */
  lemma LogsAgreeOutsideDomain(f: Flt)
    requires !PositiveFinite(f)
    ensures Ln(f) == Log2(f) && Log10(f) == Log2(f)
  {
  }
}
