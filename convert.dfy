/**
 * flt/flt-convert.c: unpacking a binary32 pattern into a working value,
 * packing one back with round-to-nearest-even on the 7 guard bits
 * (IEEE 754-2008 section 4.3.1), and the integer conversions.
 */
module FltConvert {
  import opened FltTypes
  import opened FltClassify
  import FltInit
  import FltBasic

  // -------------------------------------------------------------- flt_to_tmp

  /**
   * flt_to_tmp as a function. A Normal pattern gets the hidden bit back as
   * 2^30 and its fraction in the 23 bits below it; a subnormal one is
   * renormalized into class Normal, which the working value can hold.
   */
  function Unpacked(f: Flt): (t: Tmp)
    ensures Wf(t)
    ensures Classify(f) == Subnormal ==> t.c == Normal
    ensures Classify(f) != Subnormal ==> t.c == Classify(f)
    ensures t.c != NaN ==> t.s == SignField(f)
    ensures t.c == NaN ==> t == Tmp(NaN, 0, 0, 0)
    ensures Classify(f) == Normal ==> t.m == TMP_1 + FracField(f) * 0x80 && t.e == ExpField(f) - 127
  {
    FieldsCompose(f);
    var sign, mantissa, exponent := SignField(f), FracField(f), ExpField(f);
    match Classify(f)
    case Infinite => Tmp(Infinite, sign, 0, 0)
    case Zero => Tmp(Zero, sign, 0, 0)
    case Normal => Tmp(Normal, sign, TMP_1 + mantissa * 0x80, exponent - 127)
    case Subnormal => FltBasic.Normalized(Tmp(Normal, sign, mantissa, -119))
    case NaN => Tmp(NaN, 0, 0, 0)
  }

  method FltToTmp(f: Flt, pt: FltTmp)
    modifies pt
    ensures pt.Value() == Unpacked(f)
  {
    FieldsCompose(f);
    var sign := f / 0x8000_0000;
    var mantissa := f % 0x80_0000;
    var exponent := (f / 0x80_0000) % 0x100;
    FltInit.Initialize(pt, Zero, 0, 0, 0);
    pt.c := Classify(f);
    match pt.c {
      case Infinite =>
        pt.s := sign;
      case Zero =>
        pt.s := sign;
      case Normal =>
        pt.s := sign;
        pt.m := TMP_1 + mantissa * 0x80;
        pt.e := exponent - 127;
      case Subnormal =>
        FltInit.Initialize(pt, Normal, sign, mantissa, -119);
        FltBasic.Normalize(pt);
      case NaN =>
    }
  }

  // -------------------------------------------------------------- tmp_to_flt

  /**
   * The Normal result of tmp_to_flt for an exponent in [-126, 127]. For a
   * normalized mantissa the pattern is the sign bit, the biased exponent and
   * n - 2^23, where n is the multiple of 2^7 nearest to m counted in units of
   * 2^7, ties to even (IEEE 754-2008 section 4.3.1); n == 2^24 is the carry
   * into the exponent field. PackNormalRounds proves it.
   */
  function PackNormal(s: Bit, m: U32, e: int): Flt
    requires -126 <= e <= 127
  {
    var mantissa := (m / 0x80) % 0x80_0000;
    var remainder := m % 0x80;
    var rounded := if remainder > 0x40 || (remainder == 0x40 && (m / 0x80) % 2 == 1)
                   then mantissa + 1 else mantissa;
    if rounded == 0x80_0000 then s * 0x8000_0000 + (e + 128) * 0x80_0000
    else s * 0x8000_0000 + (e + 127) * 0x80_0000 + rounded
  }

  /**
   * The subnormal result of tmp_to_flt for an exponent in [-157, -127]: add
   * 2^7 in uint32 arithmetic and shift right by -e - 119 (from 8 to 38 bits;
   * a shift of 32 or more is taken as the mathematical one, giving 0). A
   * normalized mantissa keeps the sign and gives a magnitude of at most
   * 2^23, the smallest normal pattern after a carry: PackSubnormalSplit.
   */
  function PackSubnormal(s: Bit, m: U32, e: int): Flt
    requires -157 <= e < -126
  {
    var shift: nat := -e - 119;
    Pow2AtLeast256(shift);
    var mantissa := ((m + 128) % TWO_32) / Pow2(shift);
    SmallQuotient((m + 128) % TWO_32, Pow2(shift));
    s * 0x8000_0000 + mantissa
  }

  lemma Pow2AtLeast256(k: nat)
    requires k >= 8
    ensures Pow2(k) >= 0x100
  {
    Pow2Values();
    Pow2Monotone(8, k);
  }

  lemma SmallQuotient(x: nat, d: nat)
    requires x < TWO_32 && d >= 0x100
    ensures 0 <= x / d < 0x100_0000
  {
  }

  /**
   * tmp_to_flt as a function. The Subnormal class never occurs in a working
   * value (the source leaves *pf unwritten for it).
   */
  function Packed(t: Tmp): (f: Flt)
    requires t.c != Subnormal
  {
    match t.c
    case Normal =>
      if -126 <= t.e <= 127 then PackNormal(t.s, t.m, t.e)
      else if t.e > 127 then (if t.s == 1 then FLT_NEG_INF else FLT_POS_INF)
      else if t.e < -157 then (if t.s == 1 then FLT_NEG_0 else FLT_POS_0)
      else PackSubnormal(t.s, t.m, t.e)
    case Infinite => if t.s == 1 then FLT_NEG_INF else FLT_POS_INF
    case NaN => FLT_NAN
    case Zero => if t.s == 1 then FLT_NEG_0 else FLT_POS_0
  }

  method TmpToFlt(pt: FltTmp) returns (f: Flt)
    requires pt.c != Subnormal
    ensures f == Packed(pt.Value())
  {
    if pt.c == Normal {
      if pt.e <= 127 && pt.e >= -126 {
        var sign := pt.s;
        var exponent := pt.e + 127;
        var mantissa := (pt.m / 0x80) % 0x80_0000;
        var remainder := pt.m % 0x80;
        if remainder > 0x40 || (remainder == 0x40 && (pt.m / 0x80) % 2 == 1) {
          mantissa := mantissa + 1;
        }
        if mantissa == 0x80_0000 {
          exponent := exponent + 1;
          mantissa := 0;
        }
        f := sign * 0x8000_0000 + exponent * 0x80_0000 + mantissa;
      } else if pt.e > 127 {
        f := if pt.s == 1 then FLT_NEG_INF else FLT_POS_INF;
      } else if pt.e < -157 {
        f := if pt.s == 1 then FLT_NEG_0 else FLT_POS_0;
      } else {
        var sign := pt.s;
        var shift: nat := -pt.e - 119;
        Pow2AtLeast256(shift);
        SmallQuotient((pt.m + 128) % TWO_32, Pow2(shift));
        var mantissa := ((pt.m + 128) % TWO_32) / Pow2(shift);
        f := sign * 0x8000_0000 + mantissa;
      }
    } else {
      match pt.c {
        case Infinite =>
          f := if pt.s == 1 then FLT_NEG_INF else FLT_POS_INF;
        case NaN =>
          f := FLT_NAN;
        case Zero =>
          f := if pt.s == 1 then FLT_NEG_0 else FLT_POS_0;
      }
    }
  }

  // ------------------------------------------------------------------ lemmas

  /** Equivalent working values pack to the same pattern. */
  lemma PackedEquivalent(a: Tmp, b: Tmp)
    requires a.c != Subnormal && Equivalent(a, b)
    ensures Packed(a) == Packed(b)
  {
  }

  /**
   * Unpacking then packing gives back every pattern except a NaN, which
   * comes back as the canonical 0x7FFFFFFF; subnormal patterns included.
   */
  lemma UnpackPackRoundTrip(f: Flt)
    ensures Classify(f) != NaN ==> Packed(Unpacked(f)) == f
    ensures Classify(f) == NaN ==> Packed(Unpacked(f)) == FLT_NAN
  {
    FieldsCompose(f);
    var c := Classify(f);
    if c == Normal {
      var m := TMP_1 + FracField(f) * 0x80;
      assert m / 0x80 == 0x80_0000 + FracField(f);
      assert m % 0x80 == 0;
    } else if c == Subnormal {
      SubnormalRoundTrip(f);
    }
  }

  lemma SubnormalRoundTrip(f: Flt)
    requires Classify(f) == Subnormal
    ensures Packed(Unpacked(f)) == f
  {
    FieldsCompose(f);
    var frac := FracField(f);
    assert 0 < frac < 0x80_0000 && ExpField(f) == 0;
    assert Unpacked(f) == FltBasic.Normalized(Tmp(Normal, SignField(f), frac, -119));
    PackRenormalized(SignField(f), frac);
  }

  /** A subnormal fraction shifted up to a normalized mantissa packs back to itself. */
  lemma PackRenormalized(s: Bit, frac: nat)
    requires 0 < frac < 0x80_0000
    ensures Packed(FltBasic.Normalized(Tmp(Normal, s, frac, -119))) == s * 0x8000_0000 + frac
  {
    var t := FltBasic.Normalized(Tmp(Normal, s, frac, -119));
    var k: nat := -119 - t.e;
    assert t.m == frac * Pow2(k);
    Pow2Values();
    ProductExponentLower(frac, k, 23, 30);
    ProductExponentUpper(frac, k, 31);
    assert -157 <= t.e < -126;
    Pow2Monotone(8, k);
    DivUnique(frac * Pow2(k) + 128, Pow2(k), frac, 128);
    assert (t.m + 128) % TWO_32 == frac * Pow2(k) + 128;
  }

  /**
   * n is the multiple of d nearest to x, ties going to the even n: the
   * rounding direction roundTiesToEven of IEEE 754-2008 section 4.3.1.
   */
  predicate NearestEven(n: int, x: int, d: int)
    requires d > 0
  {
    var err := x - n * d;
    -d <= 2 * err <= d && (2 * err == d || 2 * err == -d ==> n % 2 == 0)
  }

  /**
   * A working value whose mantissa has its 7 guard bits clear and whose
   * exponent is in the normal range packs exactly: unpacking gives it back.
   */
  lemma PackExact(t: Tmp)
    requires Wf(t) && t.c == Normal && -126 <= t.e <= 127 && t.m % 0x80 == 0
    ensures Unpacked(Packed(t)) == t
  {
    var q := t.m / 0x80;
    assert 0x80_0000 <= q < 0x100_0000;
    var frac := q - 0x80_0000;
    var f := Packed(t);
    assert f == t.s * 0x8000_0000 + (t.e + 127) * 0x80_0000 + frac;
    FieldsCompose(f);
    DivUnique(f, 0x8000_0000, t.s, (t.e + 127) * 0x80_0000 + frac);
    DivUnique(f, 0x80_0000, t.s * 0x100 + t.e + 127, frac);
    DivUnique(t.s * 0x100 + t.e + 127, 0x100, t.s, t.e + 127);
    assert ExpField(f) == t.e + 127 && FracField(f) == frac;
    ClassifyExponentOther(f);
  }

  /** A pattern built as sign bit plus magnitude splits back into the two. */
  lemma SignAndMagnitude(f: Flt, s: Bit, mag: nat)
    requires mag < 0x8000_0000 && f == s * 0x8000_0000 + mag
    ensures SignField(f) == s && Magnitude(f) == mag
  {
    DivUnique(f, 0x8000_0000, s, mag);
  }

  /** The normal-range pattern has magnitude (e + 126) * 2^23 plus the rounded mantissa. */
  lemma PackNormalSplit(t: Tmp)
    requires Wf(t) && t.c == Normal && -126 <= t.e <= 127
    ensures var n := Packed(t) - t.s * 0x8000_0000 - (t.e + 127) * 0x80_0000 + 0x80_0000;
      SignField(Packed(t)) == t.s && Magnitude(Packed(t)) == (t.e + 126) * 0x80_0000 + n &&
      0x80_0000 <= n <= 0x100_0000
  {
    PackNormalRounds(t);
    var n := Packed(t) - t.s * 0x8000_0000 - (t.e + 127) * 0x80_0000 + 0x80_0000;
    SignAndMagnitude(Packed(t), t.s, (t.e + 126) * 0x80_0000 + n);
  }

  /**
   * Packing a Normal in the normal range rounds its 31-bit mantissa to 24
   * bits to nearest, ties to even; the count of 2^7 units is 2^24 exactly
   * when the rounding carries into the exponent field.
   */
  lemma PackNormalRounds(t: Tmp)
    requires Wf(t) && t.c == Normal && -126 <= t.e <= 127
    ensures var n := Packed(t) - t.s * 0x8000_0000 - (t.e + 127) * 0x80_0000 + 0x80_0000;
      NearestEven(n, t.m, 0x80) && 0x80_0000 <= n <= 0x100_0000
  {
    var q := t.m / 0x80;
    assert 0x80_0000 <= q < 0x100_0000;
    assert (t.m / 0x80) % 0x80_0000 == q - 0x80_0000;
  }

  /** The subnormal-range pattern has the record's sign and a magnitude of at most 2^23. */
  lemma PackSubnormalSplit(t: Tmp)
    requires Wf(t) && t.c == Normal && -157 <= t.e <= -127
    ensures SignField(Packed(t)) == t.s && Magnitude(Packed(t)) <= 0x80_0000
  {
    var shift: nat := -t.e - 119;
    Pow2AtLeast256(shift);
    var x := (t.m + 128) % TWO_32;
    assert x < 0x8000_0000 + 128;
    DivAntitone(x, 0x100, Pow2(shift));
    SmallQuotient(x, Pow2(shift));
    SignAndMagnitude(Packed(t), t.s, x / Pow2(shift));
  }

  /** Packing keeps the sign of everything but NaN. */
  lemma PackedSign(t: Tmp)
    requires Wf(t) && t.c != NaN
    ensures SignField(Packed(t)) == t.s
  {
    if t.c == Normal && -126 <= t.e <= 127 {
      PackNormalSplit(t);
    } else if t.c == Normal && -157 <= t.e <= -127 {
      PackSubnormalSplit(t);
    }
  }

  /** Only a NaN working value packs to a NaN pattern. */
  lemma PackedNotNaN(t: Tmp)
    requires Wf(t) && t.c != NaN
    ensures !IsNaN(Packed(t)) && Packed(t) != FLT_NAN
  {
    PackedClass(t);
    if t.c == Normal && -157 <= t.e <= -127 {
      ClassifySignless(Packed(t));
    }
  }

  /** Packing with another sign bit changes only the sign of the pattern. */
  lemma PackedWithSign(t: Tmp, s: Bit)
    requires Wf(t) && t.c != NaN
    ensures Packed(t.(s := s)) == s * 0x8000_0000 + Magnitude(Packed(t))
  {
    PackedSign(t);
    FieldsCompose(Packed(t));
  }

  /**
   * The class of the packed pattern: Zero, Infinite and NaN keep their
   * class; a Normal overflows to infinity above exponent 127, flushes to zero
   * below -157, stays Normal up to exponent 126 and may carry into infinity at
   * 127; between -157 and -127 it becomes a subnormal pattern, or zero, or the
   * smallest normal one after a carry.
   */
  lemma PackedClass(t: Tmp)
    requires Wf(t)
    ensures t.c == Zero ==> IsZero(Packed(t))
    ensures t.c == Infinite ==> IsInf(Packed(t))
    ensures t.c == NaN ==> Packed(t) == FLT_NAN && IsNaN(Packed(t))
    ensures t.c == Normal && t.e > 127 ==> IsInf(Packed(t))
    ensures t.c == Normal && t.e < -157 ==> IsZero(Packed(t))
    ensures t.c == Normal && -126 <= t.e <= 126 ==> IsNormal(Packed(t))
    ensures t.c == Normal && t.e == 127 ==> IsNormal(Packed(t)) || IsInf(Packed(t))
    ensures t.c == Normal && -157 <= t.e <= -127 ==> Magnitude(Packed(t)) <= 0x80_0000
  {
    if t.c == Normal && -126 <= t.e <= 127 {
      PackNormalSplit(t);
    } else if t.c == Normal && -157 <= t.e <= -127 {
      PackSubnormalSplit(t);
    }
  }


  // ---------------------------------------------------- integer conversions

  /** (a < 0) ? -a : a as flt_ltof passes it to a uint32_t: 2^31 for INT32_MIN. */
  function Abs32(a: I32): U32 { if a < 0 then -(a as int) else a }

  /** flt_ltof: 0 becomes +0, anything else a Normal from mantissa |a| at exponent 30. */
  function Ltof(a: I32): (f: Flt)
  {
    if a != 0 then
      Packed(FltBasic.Normalized(Tmp(Normal, if a < 0 then 1 else 0, Abs32(a), TMP_1_BITS)))
    else Packed(Tmp(Zero, 0, 0, 0))
  }

  /** flt_ultof: as flt_ltof with no sign. */
  function Ultof(a: U32): (f: Flt)
  {
    if a != 0 then Packed(FltBasic.Normalized(Tmp(Normal, 0, a, TMP_1_BITS)))
    else Packed(Tmp(Zero, 0, 0, 0))
  }

  /** One half with sign s, the working value flt_ftol, flt_ftoul and flt_round start from. */
  function Half(s: Bit): (r: Tmp)
    ensures Wf(r) && r.c == Normal && r.s == s && r.m == TMP_1 && r.e == -1
  {
    Tmp(Normal, s, TMP_1, -1)
  }

  /** The rounding step of flt_ftol and flt_ftoul: add one half carrying the value's own sign. */
  function PlusHalf(f: Flt): (t: Tmp)
    ensures Wf(t)
  {
    var t := Unpacked(f);
    FltBasic.Sum(t, Half(t.s))
  }

  /**
   * t.m << (t.e + 2) as a uint32_t: the bits of m below the integer part, at
   * the top of the word (0 when the shift reaches 32, where the source's
   * shift is undefined).
   */
  function FractionBits(m: U32, e: nat): U32
  {
    (m * Pow2(e + 2)) % TWO_32
  }

  /**
   * flt_ftol: round half away from zero by adding one half, then send exact
   * ties back to even. A Normal below 2^31 in magnitude converts to the
   * integer nearest to it, a tie going to the even one, with its sign
   * (IEEE 754-2008 section 4.3.1); a larger one saturates by sign.
   */
  function Ftol(f: Flt): (r: I32)
    ensures var t := Unpacked(f); t.c == Normal && t.e <= TMP_1_BITS ==>
      var n := if t.s == 1 then -(r as int) else r as int;
      n >= 0 && NearestEven(n, t.m, Pow2(TMP_1_BITS - t.e))
    ensures var t := Unpacked(f); t.c == Normal && t.e > TMP_1_BITS ==>
      r == if t.s == 1 then -0x8000_0000 else 0x7FFF_FFFF
  {
    var t := Unpacked(f);
    if t.c == Normal && t.e <= TMP_1_BITS then
      PlusHalfRounds(f);
      ToInt32(PlusHalf(f))
    else if t.c == Normal then
      SumHalfNegligible(t);
      ToInt32(PlusHalf(f))
    else
      ToInt32(PlusHalf(f))
  }

  /**
   * The part of flt_ftol after the addition of one half: the integer part
   * with the value's sign, 0 below 1, saturated from 2^31 on.
   */
  function ToInt32(t: Tmp): (r: I32)
    requires Wf(t)
    ensures t.s == 0 ==> r >= 0
    ensures t.s == 1 ==> r <= 0
    ensures t.c == Zero || t.c == NaN || (t.c == Normal && t.e < 0) ==> r == 0
    ensures t.c == Infinite ==> r == if t.s == 1 then -0x8000_0000 else 0x7FFF_FFFF
  {
    if t.c == Infinite || (t.c == Normal && t.e > TMP_1_BITS) then
      (if t.s == 1 then -0x8000_0000 else 0x7FFF_FFFF)
    else if t.c == Normal && t.e >= 0 then
      var result := Shifted(t.m, TMP_1_BITS - t.e);
      var result := if FractionBits(t.m, t.e) == 0 && result % 2 == 1 then result - 1 else result;
      if t.s == 1 then -result else result
    else 0
  }

  /** m >> k for a k below 32. */
  function Shifted(m: U32, k: nat): (r: U32)
    ensures r <= m
  {
    DivAntitone(m, 1, Pow2(k));
    m / Pow2(k)
  }

  /**
   * flt_ftoul: as flt_ftol, but only positive values convert; every
   * infinity, including minus infinity, saturates to UINT32_MAX. A positive
   * Normal below 2^31 converts to the nearest integer, ties to even; one in
   * [2^31, 2^32) is already an integer and converts exactly; from 2^32 on
   * the result saturates.
   */
  function Ftoul(f: Flt): (r: U32)
    ensures var t := Unpacked(f); t.c == Normal && t.s == 0 && t.e <= TMP_1_BITS ==>
      NearestEven(r, t.m, Pow2(TMP_1_BITS - t.e))
    ensures var t := Unpacked(f); t.c == Normal && t.s == 0 && t.e == TMP_2_BITS ==> r == 2 * t.m
    ensures var t := Unpacked(f); t.c == Normal && t.s == 0 && t.e > TMP_2_BITS ==> r == 0xFFFF_FFFF
  {
    var t := Unpacked(f);
    if t.c == Normal && t.s == 0 && t.e <= TMP_1_BITS then
      PlusHalfRounds(f);
      var u := PlusHalf(f);
      if u.e >= 0 then
        ToUint32Agrees(u);
        ToUint32(u)
      else
        ToUint32(u)
    else if t.c == Normal && t.s == 0 && t.e == TMP_2_BITS then
      SumHalfNegligible(t);
      ToUint32Top(t);
      ToUint32(PlusHalf(f))
    else if t.c == Normal && t.s == 0 then
      SumHalfNegligible(t);
      ToUint32(PlusHalf(f))
    else
      ToUint32(PlusHalf(f))
  }

  /**
   * The part of flt_ftoul after the addition of one half: 0 for a negative
   * or zero value and below 1, UINT32_MAX for either infinity.
   */
  function ToUint32(t: Tmp): (r: U32)
    requires Wf(t)
    ensures t.c == Infinite ==> r == 0xFFFF_FFFF
    ensures t.c == Zero || t.c == NaN || (t.c == Normal && (t.s == 1 || t.e < 0)) ==> r == 0
  {
    if t.c == Infinite || (t.c == Normal && t.s == 0 && t.e > TMP_2_BITS) then 0xFFFF_FFFF
    else if t.c == Normal && t.s == 0 && t.e >= 0 then
      var result := Shifted((t.m * 2) % TWO_32, TMP_2_BITS - t.e);
      if FractionBits(t.m, t.e) == 0 && result % 2 == 1 then result - 1 else result
    else 0
  }

  /**
   * The fraction test of flt_ftol and flt_ftoul is exact: the shifted-out
   * bits are zero exactly when m is a multiple of 2^(30 - e), so when the
   * value plus one half is an integer, i.e. the value was a tie.
   */
  lemma FractionBitsZero(m: U32, e: nat)
    requires m < TMP_2 && e <= TMP_1_BITS
    ensures FractionBits(m, e) == (m % Pow2(TMP_1_BITS - e)) * Pow2(e + 2)
    ensures FractionBits(m, e) == 0 <==> m % Pow2(TMP_1_BITS - e) == 0
  {
    var p, w := Pow2(TMP_1_BITS - e), Pow2(e + 2);
    Pow2Add(TMP_1_BITS - e, e + 2);
    Pow2Values();
    SplitHigh(m, p, w);
  }

  /** With p * w == 2^32, (m * w) mod 2^32 keeps (m mod p) * w. */
  lemma SplitHigh(m: nat, p: nat, w: nat)
    requires p * w == TWO_32 && p > 0 && w > 0
    ensures (m * w) % TWO_32 == (m % p) * w
    ensures (m % p) * w == 0 <==> m % p == 0
  {
    var q, r := m / p, m % p;
    assert m * w == q * TWO_32 + r * w by {
      assert m == q * p + r;
      assert m * w == (q * p + r) * w == q * (p * w) + r * w;
    }
    MulLe(r + 1, p, w);
    DivUnique(m * w, TWO_32, q, r * w);
  }

  /** Adding one half to a non-NaN keeps its sign and never produces Zero. */
  lemma PlusHalfSign(f: Flt)
    requires !IsNaN(f)
    ensures PlusHalf(f).c == Normal || PlusHalf(f).c == Infinite
    ensures PlusHalf(f).s == SignField(f)
    ensures IsInf(f) ==> PlusHalf(f).c == Infinite
  {
    var t := Unpacked(f);
    if t.c == Normal {
      FltBasic.SumSameSign(t, Half(t.s));
    }
  }

  /** ftol of a NaN is 0; of an infinity, INT32_MIN or INT32_MAX by sign. */
  lemma FtolSpecial(f: Flt)
    ensures IsNaN(f) ==> Ftol(f) == 0
    ensures IsZero(f) ==> Ftol(f) == 0
    ensures IsInf(f) ==> Ftol(f) == if SignField(f) == 1 then -0x8000_0000 else 0x7FFF_FFFF
  {
    if IsInf(f) {
      PlusHalfSign(f);
    }
  }

  /** The integer has the sign of the value (or is 0). */
  lemma FtolSign(f: Flt)
    requires !IsNaN(f)
    ensures SignField(f) == 0 ==> Ftol(f) >= 0
    ensures SignField(f) == 1 ==> Ftol(f) <= 0
  {
    PlusHalfSign(f);
  }

  /** ftoul of a NaN or a negative finite value is 0; of either infinity, UINT32_MAX. */
  lemma FtoulSpecial(f: Flt)
    ensures IsNaN(f) ==> Ftoul(f) == 0
    ensures IsInf(f) ==> Ftoul(f) == 0xFFFF_FFFF
    ensures !IsNaN(f) && !IsInf(f) && SignField(f) == 1 ==> Ftoul(f) == 0
  {
    if !IsNaN(f) {
      PlusHalfSign(f);
    }
  }

  /** A tie goes to even: 2.5 converts to 2 and -2.5 to -2. */
  lemma FtolTies()
    ensures Ftol(0x4020_0000) == 2
    ensures Ftol(0xC020_0000) == -2
  {
    FtolTie(0);
    FtolTie(1);
  }

  lemma FtolTie(s: Bit)
    ensures Ftol(s * 0x8000_0000 + 0x4020_0000) == (if s == 1 then -2 else 2)
  {
    var f: Flt := s * 0x8000_0000 + 0x4020_0000;
    SignAndMagnitude(f, s, 0x4020_0000);
    FieldsCompose(f);
    assert ExpField(f) == 0x80 && FracField(f) == 0x20_0000;
    var t := Unpacked(f);
    assert t == Tmp(Normal, s, 0x5000_0000, 1);
    var u := Tmp(Normal, s, TMP_1, -1);
    assert FltBasic.Align(u.m, u.e, t.e) == (0x1000_0000, 1);
    assert FltBasic.Align(t.m, t.e, 1) == (t.m, 1);
    assert FltBasic.Normalized(Tmp(Normal, s, 0x6000_0000, 1)) == Tmp(Normal, s, 0x6000_0000, 1);
    assert PlusHalf(f) == Tmp(Normal, s, 0x6000_0000, 1);
    Pow2Values();
    assert Pow2(29) == 0x2000_0000 by { Pow2Add(16, 13); assert Pow2(13) == 0x2000; }
    assert Shifted(0x6000_0000, 29) == 3;
    assert FractionBits(0x6000_0000, 1) == 0;
  }

  /** The working value flt_ltof packs, before packing: |a| shifted up to 31 bits. */
  function LtofTmp(a: I32): Tmp
    requires a != 0
  {
    FltBasic.Normalized(Tmp(Normal, if a < 0 then 1 else 0, Abs32(a), TMP_1_BITS))
  }

  /**
   * Integers of magnitude below 2^24 convert exactly: the pattern unpacks
   * to |a| * 2^k at exponent 30 - k, for some k from 7 to 30.
   */
  lemma LtofExact(a: I32)
    requires 0 < Abs32(a) < 0x100_0000
    ensures Unpacked(Ltof(a)) == LtofTmp(a)
    ensures var t := LtofTmp(a);
      t.c == Normal && t.s == (if a < 0 then 1 else 0) && 0 <= t.e <= 23 &&
      t.m == Abs32(a) * Pow2(TMP_1_BITS - t.e)
  {
    var t := LtofTmp(a);
    var A := Abs32(a);
    var k: nat := TMP_1_BITS - t.e;
    assert t.m == A * Pow2(k);
    Pow2Of24();
    Pow2Of30();
    Pow2Of31();
    ProductExponentLower(A, k, 24, 30);
    ProductExponentUpper(A, k, 31);
    GuardBitsClear(A, k);
    PackExact(t);
  }

  /** A * 2^k has its 7 low bits clear once k >= 7. */
  lemma GuardBitsClear(A: nat, k: nat)
    requires k >= 7
    ensures (A * Pow2(k)) % 0x80 == 0
  {
    Pow2Add(7, k - 7);
    Pow2Values();
    var X := Pow2(k - 7);
    MulAssoc(A, 0x80, X);
    DivUnique(A * Pow2(k), 0x80, A * X, 0);
  }

  /** flt_ftol undoes flt_ltof for every integer of magnitude below 2^24. */
  lemma FtolLtof(a: I32)
    requires Abs32(a) < 0x100_0000
    ensures Ftol(Ltof(a)) == a
  {
    if a == 0 {
      assert Unpacked(Ltof(a)) == Tmp(Zero, 0, 0, 0);
    } else {
      FtolLtofNonZero(a);
    }
  }

  lemma FtolLtofNonZero(a: I32)
    requires 0 < Abs32(a) < 0x100_0000
    ensures Ftol(Ltof(a)) == a
  {
    LtofExact(a);
    var t := LtofTmp(a);
    var k: nat := TMP_1_BITS - t.e;
    var h := Pow2(k - 1);
    AlignHalf(k);
    HalfSumBounds(Abs32(a), Pow2(k), h, k);
    SumAligned(t, h);
    assert PlusHalf(Ltof(a)) == Tmp(Normal, t.s, t.m + h, t.e);
    ToInt32Exact(t.s, Abs32(a), k);
  }

  /** flt_ftoul undoes flt_ultof for every integer below 2^24. */
  lemma FtoulUltof(a: U32)
    requires a < 0x100_0000
    ensures Ftoul(Ultof(a)) == a
  {
    if a == 0 {
      assert Unpacked(Ultof(a)) == Tmp(Zero, 0, 0, 0);
    } else {
      UltofIsLtof(a);
      FtoulLtof(a);
    }
  }

  /** Below 2^31, flt_ultof and flt_ltof agree. */
  lemma UltofIsLtof(a: U32)
    requires 0 < a < 0x8000_0000
    ensures Ultof(a) == Ltof(a as I32)
  {
  }

  lemma FtoulLtof(a: I32)
    requires 0 < a < 0x100_0000
    ensures Ftoul(Ltof(a)) == a
  {
    LtofExact(a);
    var t := LtofTmp(a);
    var k: nat := TMP_1_BITS - t.e;
    var h := Pow2(k - 1);
    AlignHalf(k);
    HalfSumBounds(a, Pow2(k), h, k);
    SumAligned(t, h);
    var v := Tmp(Normal, 0, t.m + h, t.e);
    assert PlusHalf(Ltof(a)) == v;
    assert v == Tmp(Normal, 0, a * Pow2(k) + Pow2(k - 1), TMP_1_BITS - k);
    ToUint32Agrees(v);
    ToInt32Exact(0, a, k);
    assert Ftoul(Ltof(a)) == ToUint32(v) == ToInt32(v);
  }

  /** For a positive value whose integer part fits in 31 bits, flt_ftoul
      computes what flt_ftol does. */
  lemma ToUint32Agrees(t: Tmp)
    requires Wf(t) && t.c == Normal && t.s == 0 && 0 <= t.e <= TMP_1_BITS
    ensures ToUint32(t) == ToInt32(t)
  {
    var k: nat := TMP_1_BITS - t.e;
    assert Pow2(k + 1) == 2 * Pow2(k);
    assert (t.m * 2) % TWO_32 == t.m * 2;
    DivDiv(t.m * 2, 2, Pow2(k));
  }

  /** t plus a half that aligns to h at t's own exponent, when no carry occurs. */
  lemma SumAligned(t: Tmp, h: nat)
    requires Wf(t) && t.c == Normal && h >= 1 && t.m + h < TMP_2
    requires FltBasic.Align(TMP_1, -1, t.e) == (h, t.e)
    ensures FltBasic.Sum(t, Half(t.s)) == Tmp(Normal, t.s, t.m + h, t.e)
  {
    var u := Half(t.s);
    assert FltBasic.Align(t.m, t.e, t.e) == (t.m, t.e);
    FltBasic.CombineNoCarry(t, u.s, t.m, t.e, h, t.e);
    assert FltBasic.SumNormals(t, u) == FltBasic.Combine(t, u.s, t.m, t.e, h, t.e);
  }

  /** One half, aligned to exponent 30 - k, is 2^(k-1). */
  lemma AlignHalf(k: nat)
    requires 1 <= k <= 30
    ensures FltBasic.Align(TMP_1, -1, TMP_1_BITS - k) == (Pow2(k - 1), TMP_1_BITS - k)
  {
    Pow2Add(k - 1, 31 - k);
    Pow2Of30();
    DivUnique(TMP_1, Pow2(31 - k), Pow2(k - 1), 0);
  }

  /** The integer part of (2A + 1) * 2^(k-1) at exponent 30 - k is A, and it is not a tie. */
  lemma ToInt32Exact(s: Bit, A: nat, k: nat)
    requires 1 <= k <= 30 && TMP_1 <= A * Pow2(k) + Pow2(k - 1) < TMP_2
    ensures ToInt32(Tmp(Normal, s, A * Pow2(k) + Pow2(k - 1), TMP_1_BITS - k)) == if s == 1 then -(A as int) else A
  {
    var P, H := Pow2(k), Pow2(k - 1);
    var M := A * P + H;
    DivUnique(M, P, A, H);
    FractionBitsZero(M, TMP_1_BITS - k);
  }

  lemma MulAssoc(a: int, b: int, c: int)
    ensures a * (b * c) == (a * c) * b
  {
  }

  lemma HalfSumBounds(A: nat, P: nat, H: nat, k: nat)
    requires k <= 30 && P == Pow2(k) && P == 2 * H
    requires TMP_1 <= A * P < TMP_2
    ensures TMP_1 <= A * P + H < TMP_2
  {
    var Q := Pow2(31 - k);
    Pow2Add(k, 31 - k);
    Pow2Of31();
    assert P * Q == TMP_2;
    MulMono(Q, A, P);
    assert A < Q;
    MulLe(A + 1, Q, P);
  }


  /** flt_fsgn reads the class and sign of the unpacked value; the same answer as from the fields. */
  lemma FsgnUnpacked(f: Flt)
    ensures var t := Unpacked(f);
      Fsgn(f) == (if t.c == Zero || t.c == NaN then 0 else if t.s == 1 then -1 else 1)
  {
  }

  /** The two infinities unpack to the Infinite class with their own sign. */
  lemma UnpackedInfinity(f: Flt)
    requires f == FLT_POS_INF || f == FLT_NEG_INF
    ensures Unpacked(f).c == Infinite && Unpacked(f).s == (if f == FLT_POS_INF then 0 else 1)
  {
    assert Magnitude(f) == 0x7F80_0000;
    assert SignField(f) == (if f == FLT_POS_INF then 0 else 1);
  }

  /** Patterns with the same magnitude unpack alike except for the sign (NaN aside). */
  lemma UnpackedWithSign(f: Flt, g: Flt)
    requires !IsNaN(f) && Magnitude(f) == Magnitude(g)
    ensures Unpacked(g) == Unpacked(f).(s := SignField(g))
  {
    FieldsCompose(f);
    FieldsCompose(g);
    ClassifySignless(f);
    ClassifySignless(g);
    if Classify(f) == Subnormal {
      var a := Tmp(Normal, SignField(f), FracField(f), -119);
      NormalizedWithSign(a, SignField(g));
    }
  }

  lemma NormalizedWithSign(t: Tmp, s: Bit)
    ensures FltBasic.Normalized(t.(s := s)) == FltBasic.Normalized(t).(s := s)
  {
  }
  // ------------------------------------------- adding one half to a Normal

  /** A finite non-zero pattern unpacks with the 7 guard bits clear. */
  lemma UnpackedGuardBits(f: Flt)
    requires IsNormal(f) || IsSubnormal(f)
    ensures Unpacked(f).c == Normal && Unpacked(f).m % 0x80 == 0
  {
    FieldsCompose(f);
    var t := Unpacked(f);
    if IsSubnormal(f) {
      var frac := FracField(f);
      assert t == FltBasic.Normalized(Tmp(Normal, SignField(f), frac, -119));
      var k: nat := -119 - t.e;
      assert t.m == frac * Pow2(k);
      Pow2Values();
      ProductExponentLower(frac, k, 23, 30);
      GuardBitsClear(frac, k);
    }
  }

  /** Every Normal working value unpacked from a pattern has an even mantissa. */
  lemma UnpackedEven(f: Flt)
    requires Unpacked(f).c == Normal
    ensures Unpacked(f).m % 2 == 0
  {
    UnpackedGuardBits(f);
    var m := Unpacked(f).m;
    DivUnique(m, 2, (m / 0x80) * 0x40, 0);
  }

  /** Below one half, adding one half of the same sign stays below 1 (exponent -1). */
  lemma SumHalfSmall(t: Tmp)
    requires Wf(t) && t.c == Normal && t.e <= -2
    ensures var u := FltBasic.Sum(t, Half(t.s)); u.c == Normal && u.e == -1 && u.s == t.s
  {
    var k: nat := -1 - t.e;
    Pow2Values();
    Pow2Monotone(1, k);
    QuotientBelowHalf(t.m, Pow2(k));
    var (am, ae) := FltBasic.Align(t.m, t.e, -1);
    assert FltBasic.Align(TMP_1, -1, t.e) == (TMP_1, -1);
    CombineHalf(t, am, ae);
  }

  lemma QuotientBelowHalf(m: nat, P: nat)
    requires m < TMP_2 && P >= 2
    ensures m / P < TMP_1
  {
    DivAntitone(m, 2, P);
  }

  /** The aligned value below one half plus one half: no carry, exponent -1. */
  lemma CombineHalf(t: Tmp, am: U32, ae: int)
    requires am < TMP_1 && (am != 0 ==> ae == -1)
    ensures FltBasic.Combine(t, t.s, am, ae, TMP_1, -1) == Tmp(Normal, t.s, am + TMP_1, -1)
  {
    FltBasic.NormalizedFixed(Tmp(Normal, t.s, am + TMP_1, -1));
  }

  /** A value in [1/2, 1) plus one half of its sign lies in [1, 3/2): exponent 0. */
  lemma SumHalfAtHalf(t: Tmp)
    requires Wf(t) && t.c == Normal && t.e == -1
    ensures FltBasic.Sum(t, Half(t.s)) == Tmp(Normal, t.s, (t.m + TMP_1) / 2, 0)
  {
    var h := Half(t.s);
    assert FltBasic.Align(h.m, h.e, t.e) == (TMP_1, -1);
    assert FltBasic.Align(t.m, t.e, -1) == (t.m, -1);
    var M := t.m + TMP_1;
    assert M % TWO_32 == M;
    var n := Tmp(Normal, t.s, M, -1);
    assert FltBasic.Sum(t, h) == FltBasic.Combine(t, t.s, t.m, -1, TMP_1, -1);
    assert FltBasic.Combine(t, t.s, t.m, -1, TMP_1, -1) == FltBasic.Normalized(n);
    FltBasic.NormalizedOfDouble(n);
  }

  /**
   * From 1 up to 2^30, one half aligns to 2^(k - 1) at t's own exponent
   * 30 - k; a carry out of 31 bits costs one halving.
   */
  lemma SumHalfAligned(t: Tmp)
    requires Wf(t) && t.c == Normal && 0 <= t.e < TMP_1_BITS
    ensures var M := t.m + Pow2(TMP_1_BITS - t.e - 1); var u := FltBasic.Sum(t, Half(t.s));
      u.c == Normal && u.s == t.s &&
      if M < TMP_2 then u.m == M && u.e == t.e else u.m == M / 2 && u.e == t.e + 1
  {
    var k: nat := TMP_1_BITS - t.e;
    var h := Pow2(k - 1);
    AlignHalf(k);
    if t.m + h < TMP_2 {
      SumAligned(t, h);
    } else {
      Pow2Monotone(k - 1, 30);
      Pow2Of30();
      SumCarry(t, h);
    }
  }

  /** t plus a half that aligns to h at t's own exponent, when the sum carries out of 31 bits. */
  lemma SumCarry(t: Tmp, h: nat)
    requires Wf(t) && t.c == Normal && h <= TMP_1 && TMP_2 <= t.m + h
    requires FltBasic.Align(TMP_1, -1, t.e) == (h, t.e)
    ensures FltBasic.Sum(t, Half(t.s)) == Tmp(Normal, t.s, (t.m + h) / 2, t.e + 1)
  {
    var M := t.m + h;
    assert M % TWO_32 == M;
    assert FltBasic.Align(t.m, t.e, t.e) == (t.m, t.e);
    assert FltBasic.SumNormals(t, Half(t.s)) == FltBasic.Combine(t, t.s, t.m, t.e, h, t.e);
    FltBasic.NormalizedOfDouble(Tmp(Normal, t.s, M, t.e));
  }

  /** From 2^30 on, one half is shifted out completely: the sum is t itself. */
  lemma SumHalfNegligible(t: Tmp)
    requires Wf(t) && t.c == Normal && t.e >= TMP_1_BITS
    ensures FltBasic.Sum(t, Half(t.s)) == t
  {
    var (bm, be) := FltBasic.Align(TMP_1, -1, t.e);
    Pow2Monotone(31, t.e + 1);
    Pow2Of31();
    DivUnique(TMP_1, Pow2(t.e + 1), 0, TMP_1);
    assert bm == 0;
    assert FltBasic.Align(t.m, t.e, be) == (t.m, t.e);
    assert t.m % TWO_32 == t.m;
    FltBasic.NormalizedFixed(t);
    assert FltBasic.Sum(t, Half(t.s)) == FltBasic.Combine(t, t.s, t.m, t.e, 0, be);
  }

  /**
   * Rounding half up and then sending an exact tie with an odd result back
   * by one gives the multiple of P nearest to m, ties to even.
   */
  lemma HalfUpToEven(m: nat, P: nat, a: nat, z: bool)
    requires P >= 2 && P % 2 == 0 && a == (m + P / 2) / P && (z <==> (m + P / 2) % P == 0)
    ensures NearestEven(if z && a % 2 == 1 then a - 1 else a, m, P)
  {
    var q, r := m / P, m % P;
    var H := P / 2;
    assert m == q * P + r;
    if r + H < P {
      DivUnique(m + H, P, q, r + H);
    } else {
      DivUnique(m + H, P, q + 1, r + H - P);
      assert m - (q + 1) * P == r - P;
    }
  }

  /** For even M, M / 2 is a multiple of Q exactly when M is one of 2 * Q. */
  lemma HalfRemainder(M: nat, Q: nat)
    requires M % 2 == 0 && Q > 0
    ensures (M / 2) % Q == 0 <==> M % (2 * Q) == 0
  {
    var y := M / 2;
    assert M == (y / Q) * (2 * Q) + 2 * (y % Q);
    DivUnique(M, 2 * Q, y / Q, 2 * (y % Q));
  }

  /**
   * What flt_ftol does to a Normal t below 2^31: once one half of t's sign
   * is added, ToInt32 gives, with t's sign, the number of units 2^(30 - e)
   * nearest to t.m, a tie going to the even one. The sum stays a Normal of
   * t's sign at exponent 30 or below.
   */
  lemma ToInt32OfSum(t: Tmp)
    requires Wf(t) && t.c == Normal && t.e <= TMP_1_BITS && t.m % 2 == 0
    ensures var u := FltBasic.Sum(t, Half(t.s)); u.c == Normal && u.s == t.s && u.e <= TMP_1_BITS
    ensures var r := ToInt32(FltBasic.Sum(t, Half(t.s)));
      var n := if t.s == 1 then -r else r;
      n >= 0 && NearestEven(n, t.m, Pow2(TMP_1_BITS - t.e))
  {
    if t.e <= -2 {
      ToInt32Small(t);
    } else if t.e == -1 {
      SumHalfAtHalf(t);
      ToInt32AtHalf(t);
    } else if t.e < TMP_1_BITS {
      ToInt32Aligned(t);
    } else {
      SumHalfNegligible(t);
      ToInt32Top(t);
    }
  }

  /** ToInt32OfSum for the working value a pattern unpacks to. */
  lemma PlusHalfRounds(f: Flt)
    requires Unpacked(f).c == Normal && Unpacked(f).e <= TMP_1_BITS
    ensures var t := Unpacked(f); var u := PlusHalf(f);
      u.c == Normal && u.s == t.s && u.e <= TMP_1_BITS
    ensures var t := Unpacked(f); var r := ToInt32(PlusHalf(f));
      var n := if t.s == 1 then -r else r;
      n >= 0 && NearestEven(n, t.m, Pow2(TMP_1_BITS - t.e))
  {
    UnpackedEven(f);
    ToInt32OfSum(Unpacked(f));
  }

  /** Below one half the sum is read as 0, the nearest integer. */
  lemma ToInt32Small(t: Tmp)
    requires Wf(t) && t.c == Normal && t.e <= -2
    ensures var u := FltBasic.Sum(t, Half(t.s)); u.c == Normal && u.s == t.s && u.e <= TMP_1_BITS
    ensures ToInt32(FltBasic.Sum(t, Half(t.s))) == 0 && NearestEven(0, t.m, Pow2(TMP_1_BITS - t.e))
  {
    SumHalfSmall(t);
    Pow2Values();
    Pow2Monotone(32, TMP_1_BITS - t.e);
  }

  /** From 2^30 up to 2^31 the value is a whole number, an even one here, and converts as it is. */
  lemma ToInt32Top(t: Tmp)
    requires Wf(t) && t.c == Normal && t.e == TMP_1_BITS && t.m % 2 == 0
    ensures var r := ToInt32(t);
      var n := if t.s == 1 then -r else r;
      n == t.m && NearestEven(n, t.m, Pow2(0))
  {
    assert Shifted(t.m, 0) == t.m;
  }

  /** From 1/2 up to 1 the sum is read as 1, and sent back to 0 at exactly 1/2. */
  lemma ToInt32AtHalf(t: Tmp)
    requires Wf(t) && t.c == Normal && t.e == -1 && t.m % 2 == 0
    ensures var r := ToInt32(Tmp(Normal, t.s, (t.m + TMP_1) / 2, 0));
      var n := if t.s == 1 then -r else r;
      n >= 0 && NearestEven(n, t.m, Pow2(31))
  {
    var M := (t.m + TMP_1) / 2;
    Pow2Of30();
    Pow2Of31();
    DivUnique(M, TMP_1, 1, M - TMP_1);
    assert Shifted(M, TMP_1_BITS) == 1;
    FractionBitsZero(M, 0);
  }

  /** From 1 up to 2^30: the aligned sum holds the rounded-up count of units. */
  lemma ToInt32Aligned(t: Tmp)
    requires Wf(t) && t.c == Normal && 0 <= t.e < TMP_1_BITS && t.m % 2 == 0
    ensures var u := FltBasic.Sum(t, Half(t.s)); u.c == Normal && u.s == t.s && u.e <= TMP_1_BITS
    ensures var r := ToInt32(FltBasic.Sum(t, Half(t.s)));
      var n := if t.s == 1 then -r else r;
      n >= 0 && NearestEven(n, t.m, Pow2(TMP_1_BITS - t.e))
  {
    SumHalfAligned(t);
    AlignedCount(t);
    EvenCountNearest(t.m, TMP_1_BITS - t.e);
  }

  /** The count of units P in M, back by one when the division is exact and the count odd. */
  function EvenCount(M: nat, P: nat): nat
    requires P > 0
  {
    if M % P == 0 && (M / P) % 2 == 1 then (assert M / P != 0; M / P - 1) else M / P
  }

  /** Adding half a unit and counting units, back by one on an exact odd count, rounds to nearest even. */
  lemma EvenCountNearest(m: nat, k: nat)
    requires k >= 1
    ensures NearestEven(EvenCount(m + Pow2(k - 1), Pow2(k)), m, Pow2(k))
  {
    var P, H := Pow2(k), Pow2(k - 1);
    assert P == 2 * H && P / 2 == H;
    HalfUpToEven(m, P, (m + H) / P, (m + H) % P == 0);
  }

  /** The integer ToInt32 reads from the aligned sum: its count of units, back by one on an exact odd count. */
  lemma AlignedCount(t: Tmp)
    requires Wf(t) && t.c == Normal && 0 <= t.e < TMP_1_BITS && t.m % 2 == 0
    ensures var P := Pow2(TMP_1_BITS - t.e); var M := t.m + Pow2(TMP_1_BITS - t.e - 1);
      var r := ToInt32(FltBasic.Sum(t, Half(t.s)));
      (if t.s == 1 then -r else r) == EvenCount(M, P)
  {
    var k: nat := TMP_1_BITS - t.e;
    var H := Pow2(k - 1);
    var M := t.m + H;
    if M < TMP_2 {
      AlignedSumNoCarry(t, M);
    } else {
      AlignedCarry(t, k, H, M);
      AlignedSumCarry(t, M);
    }
  }

  /** AlignedCount when adding the half stays below 2^31. */
  lemma AlignedSumNoCarry(t: Tmp, M: nat)
    requires Wf(t) && t.c == Normal && 0 <= t.e < TMP_1_BITS
    requires M == t.m + Pow2(TMP_1_BITS - t.e - 1) && M < TMP_2
    ensures var r := ToInt32(FltBasic.Sum(t, Half(t.s)));
      (if t.s == 1 then -r else r) == EvenCount(M, Pow2(TMP_1_BITS - t.e))
  {
    SumHalfAligned(t);
    assert FltBasic.Sum(t, Half(t.s)) == Tmp(Normal, t.s, M, t.e);
    ToInt32NoCarry(t.s, M, t.e);
  }

  /** AlignedCount when adding the half carries past 2^31. */
  lemma AlignedSumCarry(t: Tmp, M: nat)
    requires Wf(t) && t.c == Normal && 0 <= t.e < TMP_1_BITS - 1
    requires M == t.m + Pow2(TMP_1_BITS - t.e - 1) && TMP_2 <= M < TWO_32 && M % 2 == 0
    ensures var r := ToInt32(FltBasic.Sum(t, Half(t.s)));
      (if t.s == 1 then -r else r) == EvenCount(M, Pow2(TMP_1_BITS - t.e))
  {
    SumHalfAligned(t);
    assert FltBasic.Sum(t, Half(t.s)) == Tmp(Normal, t.s, M / 2, t.e + 1);
    ToInt32Carry(t.s, M, t.e);
  }

  /** A carry needs at least two fraction bits, and leaves an even sum that fits in 32 bits. */
  lemma AlignedCarry(t: Tmp, k: nat, H: nat, M: nat)
    requires Wf(t) && t.c == Normal && t.m % 2 == 0 && 1 <= k <= TMP_1_BITS
    requires H == Pow2(k - 1) && M == t.m + H && M >= TMP_2
    ensures k >= 2 && M % 2 == 0 && M < TWO_32
  {
    if k == 1 {
      assert false;
    }
    assert M == 2 * (t.m / 2 + Pow2(k - 2));
    Pow2Monotone(k - 1, TMP_1_BITS);
    Pow2Of30();
  }

  /**
   * ToInt32 of a sum without carry at exponent e: the count of units
   * 2^(30 - e), less one when the sum is an exact odd count.
   */
  lemma ToInt32NoCarry(s: Bit, M: nat, e: int)
    requires TMP_1 <= M < TMP_2 && 0 <= e <= TMP_1_BITS
    ensures var P := Pow2(TMP_1_BITS - e); var r := ToInt32(Tmp(Normal, s, M, e));
      (if s == 1 then -r else r) == EvenCount(M, P)
  {
    FractionBitsZero(M, e);
  }

  /**
   * ToInt32 of a sum that carried into exponent e + 1: the same count of
   * units 2^(30 - e) of M, read from M / 2.
   */
  lemma ToInt32Carry(s: Bit, M: nat, e: int)
    requires TMP_2 <= M < TWO_32 && M % 2 == 0 && 0 <= e < TMP_1_BITS - 1
    ensures var P := Pow2(TMP_1_BITS - e); var r := ToInt32(Tmp(Normal, s, M / 2, e + 1));
      (if s == 1 then -r else r) == EvenCount(M, P)
  {
    var k: nat := TMP_1_BITS - e;
    Pow2Values();
    DivPow2Add(M, 1, k - 1);
    FractionBitsZero(M / 2, e + 1);
    HalfRemainder(M, Pow2(k - 1));
  }

  /** From 2^31 up to 2^32 flt_ftoul doubles the mantissa exactly. */
  lemma ToUint32Top(t: Tmp)
    requires Wf(t) && t.c == Normal && t.s == 0 && t.e == TMP_2_BITS
    ensures ToUint32(t) == 2 * t.m
  {
    assert (t.m * 2) % TWO_32 == t.m * 2;
    assert Shifted(t.m * 2, 0) == t.m * 2;
  }
}
