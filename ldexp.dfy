/** flt/flt-ldexp.c: scaling by a power of two through the exponent alone. */
module FltLdexp {
  import opened FltTypes
  import opened FltClassify
  import opened FltConvert

  /**
   * flt_ldexp: a Normal working value (which includes every unpacked
   * subnormal) gets n added to its exponent and is packed again; the
   * mantissa is untouched. Other classes pack back as they were.
   */
  function Ldexp(f: Flt, n: int): (r: Flt)
    ensures IsNaN(f) ==> r == FLT_NAN
    ensures IsZero(f) || IsInf(f) ==> r == f
    ensures IsNormal(f) && 1 <= ExpField(f) + n <= 254 ==> r == f + n * 0x80_0000
    ensures (IsNormal(f) || IsSubnormal(f)) && Unpacked(f).e + n > 127 ==>
              r == (if SignField(f) == 1 then FLT_NEG_INF else FLT_POS_INF)
    ensures (IsNormal(f) || IsSubnormal(f)) && Unpacked(f).e + n < -157 ==>
              r == (if SignField(f) == 1 then FLT_NEG_0 else FLT_POS_0)
  {
    var t := Unpacked(f);
    UnpackPackRoundTrip(f);
    FieldsCompose(f);
    Packed(if t.c == Normal then t.(e := t.e + n) else t)
  }

  /** Scaling by 2^0 gives back every pattern but a NaN. */
  lemma LdexpZero(f: Flt)
    requires !IsNaN(f)
    ensures Ldexp(f, 0) == f
  {
    UnpackPackRoundTrip(f);
  }

  /**
   * Scaling by 2^a then by 2^b is scaling by 2^(a+b) when the intermediate
   * result stays a normal pattern.
   */
  lemma LdexpAdd(f: Flt, a: int, b: int)
    requires IsNormal(f) && 1 <= ExpField(f) + a <= 254 && 1 <= ExpField(f) + a + b <= 254
    ensures Ldexp(Ldexp(f, a), b) == Ldexp(f, a + b)
  {
    var g := f + a * 0x80_0000;
    FieldsCompose(f);
    assert Ldexp(f, a) == g;
    DivUnique(g, 0x80_0000, SignField(f) * 0x100 + ExpField(f) + a, FracField(f));
    DivUnique(SignField(f) * 0x100 + ExpField(f) + a, 0x100, SignField(f), ExpField(f) + a);
    assert ExpField(g) == ExpField(f) + a;
    ClassifyExponentOther(g);
  }
}
