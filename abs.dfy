/** flt/flt-abs.c: the absolute value clears the sign of the working value. */
module FltAbs {
  import opened FltTypes
  import opened FltClassify
  import opened FltConvert

  /** flt_tmp_abs: the sign field becomes 0 and nothing else changes. */
  method TmpAbs(pt: FltTmp)
    modifies pt
    ensures pt.Value() == old(pt.Value()).(s := 0)
  {
    pt.s := 0;
  }

  /**
   * flt_fabs: every non-NaN pattern loses its sign bit; every NaN pattern
   * becomes the canonical NaN.
   */
  function Fabs(f: Flt): (r: Flt)
    ensures !IsNaN(f) ==> r == Magnitude(f)
    ensures IsNaN(f) ==> r == FLT_NAN
  {
    var t := Unpacked(f);
    if !IsNaN(f) then
      UnpackedWithSign(f, Magnitude(f));
      UnpackPackRoundTrip(Magnitude(f));
      Packed(t.(s := 0))
    else Packed(t.(s := 0))
  }

  /** fabs is idempotent. */
  lemma FabsIdempotent(f: Flt)
    ensures Fabs(Fabs(f)) == Fabs(f)
  {
    var m := Magnitude(f);
    assert Magnitude(m) == m;
    if IsNaN(f) {
      assert IsNaN(FLT_NAN);
    } else {
      assert !IsNaN(m);
    }
  }

  /** fabs ignores the sign of its argument. */
  lemma FabsSignless(f: Flt, g: Flt)
    requires Magnitude(f) == Magnitude(g)
    ensures Fabs(f) == Fabs(g)
  {
  }
}
