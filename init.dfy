/**
 * flt/flt-init.c: filling in a working value field by field, and copying one.
 * The four fixed initializers (zero, one, 1/log 2, log 2) are declared in
 * flt/flt-tmp.h or called from the elementary functions; their definitions
 * are not among the source files, so the values they set are given here as
 * the constants of the same name used elsewhere in the library.
 */
module FltInit {
  import opened FltTypes

  /** flt_tmp_initialize: sets the four fields to the arguments, with no normalization. */
  method Initialize(pt: FltTmp, c: Class, s: Bit, m: U32, e: int)
    modifies pt
    ensures pt.c == c && pt.s == s && pt.m == m && pt.e == e
  {
    pt.c := c;
    pt.s := s;
    pt.m := m;
    pt.e := e;
  }

  /** flt_tmp_copy: every field of *pt becomes the field of *pu; *pu is only read. */
  method Copy(pt: FltTmp, pu: FltTmp)
    modifies pt
    ensures pt.Value() == old(pu.Value())
    ensures pu.Value() == old(pu.Value())
  {
    var c, s, m, e := pu.c, pu.s, pu.m, pu.e;
    pt.c := c;
    pt.s := s;
    pt.m := m;
    pt.e := e;
  }

  /** +0, +1, 1/log 2 and log 2 as working values. */
  const ZERO_TMP: Tmp := Tmp(Zero, 0, 0, 0)
  const ONE_TMP: Tmp := Tmp(Normal, 0, TMP_1, 0)
  const ONE_OVER_LOG2_TMP: Tmp := Tmp(Normal, 0, TMP_1_LOG2, 0)
  const LOG2_TMP: Tmp := Tmp(Normal, 0, TMP_2LOG2, -1)

  /** flt_tmp_init_0 */
  method InitZero(pt: FltTmp)
    modifies pt
    ensures pt.Value() == ZERO_TMP
  {
    Initialize(pt, Zero, 0, 0, 0);
  }

  /** flt_tmp_init_1 */
  method InitOne(pt: FltTmp)
    modifies pt
    ensures pt.Value() == ONE_TMP
  {
    Initialize(pt, Normal, 0, TMP_1, 0);
  }

  /** flt_tmp_init_1_log2 */
  method InitOneOverLog2(pt: FltTmp)
    modifies pt
    ensures pt.Value() == ONE_OVER_LOG2_TMP
  {
    Initialize(pt, Normal, 0, TMP_1_LOG2, 0);
  }

  /** flt_tmp_init_log2 */
  method InitLog2(pt: FltTmp)
    modifies pt
    ensures pt.Value() == LOG2_TMP
  {
    Initialize(pt, Normal, 0, TMP_2LOG2, -1);
  }
}
