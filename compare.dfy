/**
 * flt/flt-compare.c: comparison through the sign and class of the difference,
 * and fmin/fmax on top of it.
 */
module FltCompare {
  import opened FltTypes
  import opened FltClassify
  import opened FltConvert
  import FltBasic

  /** The relations that hold when the operands are equal. */
  predicate AdmitsEqual(rel: Relation) {
    rel == EqualTo || rel == LessThanOrEqualTo || rel == GreaterThanOrEqualTo
  }

  /** The relations that hold when the first operand is the smaller. */
  predicate AdmitsLess(rel: Relation) {
    rel == LessThan || rel == LessThanOrEqualTo || rel == NotEqualTo
  }

  /** The relations that hold when the first operand is the greater. */
  predicate AdmitsGreater(rel: Relation) {
    rel == GreaterThan || rel == GreaterThanOrEqualTo || rel == NotEqualTo
  }

  /**
   * flt_tmp_compare. Equal infinities compare equal; otherwise u is
   * subtracted from t and the class and sign of the difference decide: a
   * NaN difference makes only "not equal" true, a Zero difference (+0 and
   * -0 included) makes the equalities true, and a Normal or Infinite one is
   * "less" when negative and "greater" when positive.
   */
  function TmpCompare(t: Tmp, u: Tmp, rel: Relation): (b: bool)
    ensures t.c == Infinite && u.c == Infinite && t.s == u.s ==> (b <==> AdmitsEqual(rel))
    ensures Wf(t) && Wf(u) && (t.c == NaN || u.c == NaN) ==> (b <==> rel == NotEqualTo)
    ensures t.c == Zero && u.c == Zero ==> (b <==> AdmitsEqual(rel))
  {
    if t.c == Infinite && u.c == Infinite && t.s == u.s then AdmitsEqual(rel)
    else
      var v := FltBasic.Sum(t, FltBasic.Negated(u));
      match v.c
      case NaN => rel == NotEqualTo
      case Zero => AdmitsEqual(rel)
      case _ => if v.s == 1 then AdmitsLess(rel) else AdmitsGreater(rel)
  }

  /** flt_compare: the comparison of the unpacked patterns. */
  function Compare(f: Flt, g: Flt, rel: Relation): (b: bool)
    ensures IsNaN(f) || IsNaN(g) ==> (b <==> rel == NotEqualTo)
    ensures IsZero(f) && IsZero(g) ==> (b <==> AdmitsEqual(rel))
  {
    TmpCompare(Unpacked(f), Unpacked(g), rel)
  }

  /**
   * flt_fmin: a NaN operand loses (g when both are NaN); otherwise f when
   * it compares less than g, else g. The result is one of the operands and
   * compares less than or equal to both.
   */
  function Fmin(f: Flt, g: Flt): (r: Flt)
    ensures IsNaN(f) ==> r == g
    ensures !IsNaN(f) && IsNaN(g) ==> r == f
    ensures r == f || r == g
    ensures !IsNaN(f) && !IsNaN(g) ==>
              Compare(r, f, LessThanOrEqualTo) && Compare(r, g, LessThanOrEqualTo)
  {
    var t, u := Unpacked(f), Unpacked(g);
    if t.c == NaN then g
    else if u.c == NaN then f
    else
      CompareTotal(t, u);
      CompareReflexive(t);
      CompareReflexive(u);
      CompareSwap(t, u);
      if TmpCompare(t, u, LessThan) then f else g
  }

  /** flt_fmax: the mirror image of Fmin. */
  function Fmax(f: Flt, g: Flt): (r: Flt)
    ensures IsNaN(f) ==> r == g
    ensures !IsNaN(f) && IsNaN(g) ==> r == f
    ensures r == f || r == g
    ensures !IsNaN(f) && !IsNaN(g) ==>
              Compare(r, f, GreaterThanOrEqualTo) && Compare(r, g, GreaterThanOrEqualTo)
  {
    var t, u := Unpacked(f), Unpacked(g);
    if t.c == NaN then g
    else if u.c == NaN then f
    else
      CompareTotal(t, u);
      CompareReflexive(t);
      CompareReflexive(u);
      CompareSwap(t, u);
      if TmpCompare(t, u, GreaterThan) then f else g
  }

  // ------------------------------------------------------------------ lemmas

  /**
   * Between non-NaN operands exactly one of <, = and > holds, and the other
   * three relations are the combinations they name; "not equal" is always
   * the negation of "equal".
   */
  lemma CompareTotal(t: Tmp, u: Tmp)
    requires Wf(t) && Wf(u)
    ensures TmpCompare(t, u, NotEqualTo) <==> !TmpCompare(t, u, EqualTo)
    ensures t.c != NaN && u.c != NaN ==>
      var lt, eq, gt := TmpCompare(t, u, LessThan), TmpCompare(t, u, EqualTo), TmpCompare(t, u, GreaterThan);
      (lt || eq || gt) && !(lt && eq) && !(lt && gt) && !(eq && gt) &&
      (TmpCompare(t, u, LessThanOrEqualTo) <==> lt || eq) &&
      (TmpCompare(t, u, GreaterThanOrEqualTo) <==> gt || eq)
  {
    if t.c != NaN && u.c != NaN && !(t.c == Infinite && u.c == Infinite && t.s == u.s) {
      var v := FltBasic.Sum(t, FltBasic.Negated(u));
      assert v.c != NaN;
    }
  }

  /** Every non-NaN value equals itself. */
  lemma CompareReflexive(t: Tmp)
    requires Wf(t) && t.c != NaN
    ensures TmpCompare(t, t, EqualTo)
  {
    FltBasic.SumNegated(t);
  }

  /** Swapping the operands swaps "less" and "greater" and keeps "equal". */
  lemma CompareSwap(t: Tmp, u: Tmp)
    requires Wf(t) && Wf(u)
    ensures TmpCompare(t, u, EqualTo) <==> TmpCompare(u, t, EqualTo)
    ensures TmpCompare(t, u, LessThan) <==> TmpCompare(u, t, GreaterThan)
    ensures TmpCompare(t, u, GreaterThan) <==> TmpCompare(u, t, LessThan)
  {
    var a, b := t, FltBasic.Negated(u);
    FltBasic.NegatedTwice(t);
    FltBasic.SumCommutes(FltBasic.Negated(b), FltBasic.Negated(a));
    SumBothNegated(a, b);
  }

  /**
   * Negating both operands of an addition negates the sum: the class is the
   * same and a Normal or Infinite sum has the opposite sign.
   */
  lemma SumBothNegated(a: Tmp, b: Tmp)
    requires Wf(a) && Wf(b)
    ensures var r, r' := FltBasic.Sum(a, b), FltBasic.Sum(FltBasic.Negated(a), FltBasic.Negated(b));
      r'.c == r.c && (r.c == Normal || r.c == Infinite ==> r'.s != r.s)
  {
  }

  /** u is greater than t in magnitude: a larger exponent, or the same exponent and a larger mantissa. */
  predicate Above(t: Tmp, u: Tmp) {
    u.e > t.e || (u.e == t.e && u.m > t.m)
  }

  /**
   * Between positive Normals the comparison is exact: it orders them by
   * exponent and then by mantissa.
   */
  lemma ComparePositive(t: Tmp, u: Tmp)
    requires PosNormal(t) && PosNormal(u)
    ensures Above(t, u) ==> TmpCompare(t, u, LessThan) && !TmpCompare(t, u, GreaterThanOrEqualTo)
    ensures Above(u, t) ==> !TmpCompare(t, u, LessThan) && TmpCompare(t, u, GreaterThanOrEqualTo)
    ensures t == u ==> !TmpCompare(t, u, LessThan) && TmpCompare(t, u, GreaterThanOrEqualTo)
  {
    var n := FltBasic.Negated(u);
    if Above(t, u) {
      FltBasic.SumLarger(t, n);
    } else if Above(u, t) {
      FltBasic.SumSmaller(t, n);
    } else if t == u {
      FltBasic.SumNegated(t);
    }
  }
}
