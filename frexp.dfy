/**
 * flt/flt-frexp.c: splitting a pattern into the exponent of its working
 * value and that value with the exponent set to 0, a magnitude in [1, 2).
 */
module FltFrexp {
  import opened FltTypes
  import opened FltClassify
  import opened FltConvert
  import FltLdexp
  import FltBasic

  /**
   * The two results of flt_frexp: the pattern and the exponent. A normal
   * pattern keeps sign and fraction and gets the biased exponent 127; a
   * subnormal one becomes the normal pattern of its renormalized value;
   * zero and infinity come back unchanged with exponent 0, NaN as the
   * canonical NaN.
   */
  function FrexpParts(f: Flt): (r: (Flt, int))
    ensures IsNormal(f) ==>
              r.1 == ExpField(f) - 127 && r.0 == SignField(f) * 0x8000_0000 + 127 * 0x80_0000 + FracField(f)
    ensures IsNormal(f) || IsSubnormal(f) ==> IsNormal(r.0) && ExpField(r.0) == 127 && SignField(r.0) == SignField(f)
    ensures IsZero(f) || IsInf(f) ==> r == (f, 0)
    ensures IsNaN(f) ==> r == (FLT_NAN, 0)
  {
    var t := Unpacked(f);
    UnpackPackRoundTrip(f);
    FieldsCompose(f);
    if t.c == Normal then
      UnpackedGuardBits(f);
      PackExact(t.(e := 0));
      var g := Packed(t.(e := 0));
      FieldsCompose(g);
      ClassifyExponentOther(g);
      (g, t.e)
    else (Packed(t.(e := 0)), t.e)
  }

  /** flt_frexp, which requires a non-null exponent pointer. */
  method Frexp(f: Flt, exponent: IntBox) returns (result: Flt)
    modifies exponent
    ensures (result, exponent.value) == FrexpParts(f)
  {
    var t := new FltTmp();
    FltToTmp(f, t);
    exponent.value := t.e;
    t.e := 0;
    result := TmpToFlt(t);
  }

  /** ldexp undoes frexp for every finite non-zero pattern. */
  lemma LdexpFrexp(f: Flt)
    requires IsNormal(f) || IsSubnormal(f)
    ensures FltLdexp.Ldexp(FrexpParts(f).0, FrexpParts(f).1) == f
  {
    var t := Unpacked(f);
    UnpackedGuardBits(f);
    PackExact(t.(e := 0));
    UnpackPackRoundTrip(f);
  }
}
