/**
 * flt/flt-fmod.c: the remainder of f by g, computed as the fractional part
 * of |f| * (1 / |g|) multiplied back by |g|, with the sign of f.
 */
module FltFmod {
  import opened FltTypes
  import opened FltClassify
  import opened FltConvert
  import FltBasic
  import FltModf
  import FltCompare
  import FltArith

  /**
   * flt_fmod. When both operands are Normal and |f| >= |g| the result is
   * frac(|f| * (1/|g|)) * |g| with the sign of f. Otherwise it is f when f
   * is zero or finite and g is infinite or finite and non-zero (which covers
   * |f| < |g|), and NaN in every remaining case: a NaN operand, an infinite
   * f, a zero g.
   */
  function Fmod(f: Flt, g: Flt): (r: Flt)
    ensures IsNaN(f) || IsNaN(g) ==> r == FLT_NAN
    ensures IsInf(f) || IsZero(g) ==> r == FLT_NAN
    ensures !IsNaN(f) && !IsInf(f) && IsInf(g) ==> r == f
    ensures IsZero(f) && !IsNaN(g) && !IsZero(g) ==> r == f
    ensures r != FLT_NAN ==> SignField(r) == SignField(f)
  {
    var t := Unpacked(f);
    var u := Unpacked(g);
    var sign := t.s;
    var a, b := t.(s := 0), u.(s := 0);
    if a.c == Normal && b.c == Normal && FltCompare.TmpCompare(a, b, GreaterThanOrEqualTo) then
      var y := Remainder(a, b);
      PackedSign(y.(s := sign));
      Packed(y.(s := sign))
    else if (t.c == Zero || t.c == Normal) && (u.c == Infinite || u.c == Normal) then f
    else FLT_NAN
  }

  /**
   * The Normal branch of flt_fmod on the magnitudes: the fractional part of
   * a * (1/b), times b. It is a multiple of b's size below b, so it is never
   * NaN or infinite.
   */
  function Remainder(a: Tmp, b: Tmp): (y: Tmp)
    requires Wf(a) && Wf(b) && a.c == Normal && b.c == Normal
    ensures Wf(y) && (y.c == Normal || y.c == Zero)
  {
    var x := FltBasic.Product(a, FltBasic.Reciprocal(b));
    var frac := FltModf.ModfParts(x).0;
    FractionClass(x);
    FltBasic.Product(frac, b)
  }

  /** The fractional part of a Normal is Normal or Zero. */
  lemma FractionClass(x: Tmp)
    requires Wf(x)
    ensures x.c == Normal ==> FltModf.ModfParts(x).0.c == Normal || FltModf.ModfParts(x).0.c == Zero
  {
  }

  // ---------------------------------------------------------------- lemmas

  /** The sign of g does not matter: fmod(f, -g) == fmod(f, g). */
  lemma FmodDivisorSign(f: Flt, g: Flt)
    ensures Fmod(f, FltArith.FlipSign(g)) == Fmod(f, g)
  {
    ClassifySignless(g);
    ClassifySignless(FltArith.FlipSign(g));
    if !IsNaN(g) {
      FltArith.UnpackedFlipSign(g);
    }
  }

  /** fmod(-f, g) == -fmod(f, g) whenever the result is not NaN. */
  lemma FmodDividendSign(f: Flt, g: Flt)
    ensures Fmod(FltArith.FlipSign(f), g) ==
              if Fmod(f, g) == FLT_NAN then FLT_NAN else FltArith.FlipSign(Fmod(f, g))
  {
    var h := FltArith.FlipSign(f);
    ClassifySignless(f);
    ClassifySignless(h);
    if !IsNaN(f) {
      FltArith.UnpackedFlipSign(f);
      var t, u := Unpacked(f), Unpacked(g);
      var a, b := t.(s := 0), u.(s := 0);
      assert Unpacked(h).(s := 0) == a;
      if a.c == Normal && b.c == Normal && FltCompare.TmpCompare(a, b, GreaterThanOrEqualTo) {
        FmodDividendMain(f, g);
      } else {
        FmodOtherwise(f, g);
        FmodOtherwise(h, g);
      }
    }
  }

  /** The Normal branch of FmodDividendSign: the remainder of the magnitudes, packed with either sign. */
  lemma FmodDividendMain(f: Flt, g: Flt)
    requires !IsNaN(f)
    requires var a, b := Unpacked(f).(s := 0), Unpacked(g).(s := 0);
      a.c == Normal && b.c == Normal && FltCompare.TmpCompare(a, b, GreaterThanOrEqualTo)
    ensures Fmod(f, g) != FLT_NAN && Fmod(FltArith.FlipSign(f), g) == FltArith.FlipSign(Fmod(f, g))
  {
    var a, b := Unpacked(f).(s := 0), Unpacked(g).(s := 0);
    var h, y, s := FltArith.FlipSign(f), Remainder(a, b), SignField(f);
    FlippedMagnitude(f);
    assert !IsNaN(h) && SignField(h) == 1 - s && Unpacked(h).(s := 0) == a;
    FmodBySign(f, g);
    assert Fmod(f, g) == Packed(y.(s := s));
    FmodBySign(h, g);
    assert Fmod(h, g) == Packed(y.(s := 1 - s));
    FlippedRemainder(y, s);
  }

  /** -f is not NaN when f is not, has the other sign bit and unpacks to the same magnitude. */
  lemma FlippedMagnitude(f: Flt)
    requires !IsNaN(f)
    ensures var h := FltArith.FlipSign(f);
      !IsNaN(h) && SignField(h) == 1 - SignField(f) && Unpacked(h).(s := 0) == Unpacked(f).(s := 0)
  {
    ClassifySignless(f);
    ClassifySignless(FltArith.FlipSign(f));
    FltArith.UnpackedFlipSign(f);
  }

  /** The remainder packed with the other sign is the flipped pattern, and neither is NaN. */
  lemma FlippedRemainder(y: Tmp, s: Bit)
    requires Wf(y) && (y.c == Normal || y.c == Zero)
    ensures Packed(y.(s := s)) != FLT_NAN
    ensures Packed(y.(s := 1 - s)) == FltArith.FlipSign(Packed(y.(s := s)))
  {
    FltArith.PackedFlip(y);
    if s == 0 {
      PackedNotNaN(y.(s := 0));
    } else {
      PackedNotNaN(y.(s := 1));
    }
  }

  /** Outside the Normal branch fmod returns f or NaN, by the classes of the operands alone. */
  lemma FmodOtherwise(f: Flt, g: Flt)
    ensures var t, u := Unpacked(f), Unpacked(g); var a, b := t.(s := 0), u.(s := 0);
      !(a.c == Normal && b.c == Normal && FltCompare.TmpCompare(a, b, GreaterThanOrEqualTo)) ==>
        Fmod(f, g) == if (t.c == Zero || t.c == Normal) && (u.c == Infinite || u.c == Normal) then f else FLT_NAN
  {
  }

  /** fmod on a non-NaN f, by the sign of f: the remainder of the magnitudes, with that sign. */
  lemma FmodBySign(f: Flt, g: Flt)
    requires !IsNaN(f)
    ensures var t, u := Unpacked(f), Unpacked(g); var a, b := t.(s := 0), u.(s := 0);
      a.c == Normal && b.c == Normal && FltCompare.TmpCompare(a, b, GreaterThanOrEqualTo) ==>
        Fmod(f, g) == Packed(Remainder(a, b).(s := SignField(f)))
  {
  }

  /** A value smaller in magnitude than g is its own remainder: |f| < |g| ==> fmod(f, g) == f. */
  lemma FmodOfSmaller(f: Flt, g: Flt)
    requires IsNormal(f) || IsSubnormal(f)
    requires IsNormal(g) || IsSubnormal(g)
    requires FltCompare.Compare(Magnitude(f), Magnitude(g), LessThan)
    ensures Fmod(f, g) == f
  {
    UnpackedMagnitude(f);
    UnpackedMagnitude(g);
    var a, b := Unpacked(f).(s := 0), Unpacked(g).(s := 0);
    FltCompare.CompareTotal(a, b);
  }

  /** Clearing the sign bit of a non-NaN pattern clears the sign of its working value. */
  lemma UnpackedMagnitude(f: Flt)
    requires !IsNaN(f)
    ensures Unpacked(Magnitude(f)) == Unpacked(f).(s := 0)
  {
    UnpackedWithSign(f, Magnitude(f));
  }
}
