/**
 * flt/flt-classify.c: the class of a bit pattern from its exponent and
 * mantissa fields (IEEE 754-2008 section 5.7.2), and the is* predicates.
 */
module FltClassify {
  import opened FltTypes

  /** temporary >> 31 */
  function SignField(f: Flt): Bit { f / 0x8000_0000 }
  /** (temporary >> 23) & 0xFF */
  function ExpField(f: Flt): nat { (f / 0x80_0000) % 0x100 }
  /** temporary & 0x7FFFFF */
  function FracField(f: Flt): nat { f % 0x80_0000 }
  /** The pattern with the sign bit cleared. */
  function Magnitude(f: Flt): nat { f % 0x8000_0000 }

  lemma FieldsCompose(f: Flt)
    ensures ExpField(f) < 0x100 && FracField(f) < 0x80_0000
    ensures f == SignField(f) * 0x8000_0000 + ExpField(f) * 0x80_0000 + FracField(f)
    ensures Magnitude(f) == ExpField(f) * 0x80_0000 + FracField(f)
  {
  }

  /**
   * flt_classify. Independently of the fields, the class is fixed by where
   * the pattern without its sign bit lies: the five ranges below cover every
   * pattern exactly once.
   */
  function Classify(f: Flt): (c: Class)
    ensures c == Zero <==> Magnitude(f) == 0
    ensures c == Subnormal <==> 0 < Magnitude(f) < 0x80_0000
    ensures c == Normal <==> 0x80_0000 <= Magnitude(f) < 0x7F80_0000
    ensures c == Infinite <==> Magnitude(f) == 0x7F80_0000
    ensures c == NaN <==> Magnitude(f) > 0x7F80_0000
  {
    FieldsCompose(f);
    var mantissa := FracField(f);
    var exponent := ExpField(f);
    if exponent == 0x00 then (if mantissa != 0 then Subnormal else Zero)
    else if exponent == 0xFF then (if mantissa != 0 then NaN else Infinite)
    else Normal
  }

  /** Exponent field 0: Zero when the mantissa field is 0, else Subnormal. */
  lemma ClassifyExponentZero(f: Flt)
    requires ExpField(f) == 0
    ensures Classify(f) == (if FracField(f) == 0 then Zero else Subnormal)
  {
  }

  /** Exponent field 0xFF: Infinite when the mantissa field is 0, else NaN. */
  lemma ClassifyExponentMax(f: Flt)
    requires ExpField(f) == 0xFF
    ensures Classify(f) == (if FracField(f) == 0 then Infinite else NaN)
  {
  }

  /** Every other exponent field gives Normal. */
  lemma ClassifyExponentOther(f: Flt)
    requires 0 < ExpField(f) < 0xFF
    ensures Classify(f) == Normal
  {
  }

  /** The class does not depend on the sign bit. */
  lemma ClassifySignless(f: Flt)
    ensures Classify(f) == Classify(Magnitude(f))
  {
  }

  /** flt_isinf */
  predicate IsInf(f: Flt)
    ensures IsInf(f) <==> Magnitude(f) == 0x7F80_0000
  {
    Classify(f) == Infinite
  }

  /** flt_isnan */
  predicate IsNaN(f: Flt)
    ensures IsNaN(f) <==> Magnitude(f) > 0x7F80_0000
  {
    Classify(f) == NaN
  }

  /** flt_isnormal */
  predicate IsNormal(f: Flt)
    ensures IsNormal(f) <==> 0x80_0000 <= Magnitude(f) < 0x7F80_0000
  {
    Classify(f) == Normal
  }

  /** flt_issubnormal */
  predicate IsSubnormal(f: Flt)
    ensures IsSubnormal(f) <==> 0 < Magnitude(f) < 0x80_0000
  {
    Classify(f) == Subnormal
  }

  /** flt_iszero */
  predicate IsZero(f: Flt)
    ensures IsZero(f) <==> Magnitude(f) == 0
  {
    Classify(f) == Zero
  }

  /** flt_isfinite: Normal, Subnormal or Zero, i.e. below the infinity pattern. */
  predicate IsFinite(f: Flt)
    ensures IsFinite(f) <==> Magnitude(f) < 0x7F80_0000
    ensures IsFinite(f) <==> !IsInf(f) && !IsNaN(f)
  {
    var c := Classify(f);
    c == Normal || c == Subnormal || c == Zero
  }

  /**
   * flt_fsgn: 0 for either zero and for NaN, otherwise -1 or +1 from the
   * sign bit. (The source reads the class and sign from the unpacked value;
   * FltConvert.FsgnUnpacked shows the two agree.)
   */
  function Fsgn(f: Flt): (r: int)
    ensures r == 0 <==> IsZero(f) || IsNaN(f)
    ensures r == -1 <==> !IsZero(f) && !IsNaN(f) && f >= 0x8000_0000
    ensures r == 1 <==> !IsZero(f) && !IsNaN(f) && f < 0x8000_0000
  {
    var c := Classify(f);
    if c == Zero || c == NaN then 0
    else if SignField(f) == 1 then -1 else 1
  }
}
