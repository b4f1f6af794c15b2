/**
 * The public functions of flt/flt-basic.c on bit patterns: unpack both
 * operands, run the in-place working operation, pack the result. The
 * *_into variants do the same through a pointer to the caller's variable.
 */
module FltArith {
  import opened FltTypes
  import opened FltClassify
  import opened FltConvert
  import FltBasic

  /** The pattern with its sign bit inverted. */
  function FlipSign(f: Flt): (r: Flt)
    ensures SignField(r) != SignField(f) && Magnitude(r) == Magnitude(f)
  {
    if f >= 0x8000_0000 then f - 0x8000_0000 else f + 0x8000_0000
  }

  /** A non-NaN working value packed with the sign bit clear and with it set: the two patterns differ in the sign only. */
  lemma PackedFlip(x: Tmp)
    requires Wf(x) && (x.c == Normal || x.c == Zero)
    ensures FlipSign(Packed(x.(s := 0))) == Packed(x.(s := 1))
    ensures FlipSign(Packed(x.(s := 1))) == Packed(x.(s := 0))
  {
    PackedWithSign(x, 0);
    PackedWithSign(x, 1);
  }

  /** Unpacking a pattern with its sign inverted gives the negated working value. */
  lemma UnpackedFlipSign(f: Flt)
    requires !IsNaN(f)
    ensures Unpacked(FlipSign(f)) == FltBasic.Negated(Unpacked(f))
  {
    UnpackedWithSign(f, FlipSign(f));
  }

  // ------------------------------------------------------------ the wrappers

  /**
   * flt_add. NaN propagates, opposite infinities give NaN, and adding a
   * zero to anything else returns that operand unchanged.
   */
  function Add(f: Flt, g: Flt): (r: Flt)
    ensures IsNaN(f) || IsNaN(g) ==> r == FLT_NAN
    ensures IsInf(f) && IsInf(g) && SignField(f) != SignField(g) ==> r == FLT_NAN
    ensures IsZero(f) && !IsZero(g) && !IsNaN(g) ==> r == g
    ensures IsZero(g) && !IsZero(f) && !IsNaN(f) ==> r == f
    ensures IsZero(f) && IsZero(g) ==>
              r == (if SignField(f) == 1 && SignField(g) == 1 then FLT_NEG_0 else FLT_POS_0)
  {
    var t, u := Unpacked(f), Unpacked(g);
    UnpackPackRoundTrip(f);
    UnpackPackRoundTrip(g);
    Packed(FltBasic.Sum(t, u))
  }

  /** flt_subtract: the second operand is negated before the addition. */
  function Subtract(f: Flt, g: Flt): (r: Flt)
    ensures IsNaN(f) || IsNaN(g) ==> r == FLT_NAN
  {
    var t, u := Unpacked(f), Unpacked(g);
    PackedClass(FltBasic.Sum(t, FltBasic.Negated(u)));
    Packed(FltBasic.Sum(t, FltBasic.Negated(u)))
  }

  /**
   * Packing the product of two working values. NaN propagates, infinity
   * times zero is NaN, every other product carries the exclusive or of the
   * signs, a zero times a finite value is a zero and an infinity times a
   * non-zero value is an infinity.
   */
  function PackedProduct(t: Tmp, u: Tmp): (r: Flt)
    requires Wf(t) && Wf(u)
    ensures t.c == NaN || u.c == NaN ==> r == FLT_NAN
    ensures (t.c == Infinite && u.c == Zero) || (t.c == Zero && u.c == Infinite) ==> r == FLT_NAN
    ensures !IsNaN(r) ==> t.c != NaN && u.c != NaN && SignField(r) == Xor(t.s, u.s)
    ensures (t.c == Zero && u.c != Infinite && u.c != NaN) || (u.c == Zero && t.c != Infinite && t.c != NaN) ==>
              IsZero(r)
    ensures (t.c == Infinite && u.c != Zero && u.c != NaN) || (u.c == Infinite && t.c != Zero && t.c != NaN) ==>
              IsInf(r)
  {
    var p := FltBasic.Product(t, u);
    if t.c == Normal && u.c == Normal then
      FltBasic.ProductOfNormals(t, u);
      PackedSign(p);
      Packed(p)
    else
      PackedClass(p);
      if p.c != NaN then PackedSign(p); Packed(p) else Packed(p)
  }

  /** flt_multiply. */
  function Multiply(f: Flt, g: Flt): (r: Flt)
    ensures IsNaN(f) || IsNaN(g) ==> r == FLT_NAN
    ensures (IsInf(f) && IsZero(g)) || (IsZero(f) && IsInf(g)) ==> r == FLT_NAN
    ensures !IsNaN(r) ==> SignField(r) == Xor(SignField(f), SignField(g))
    ensures (IsZero(f) && IsFinite(g)) || (IsFinite(f) && IsZero(g)) ==> IsZero(r)
    ensures (IsInf(f) && !IsZero(g) && !IsNaN(g)) || (!IsZero(f) && !IsNaN(f) && IsInf(g)) ==> IsInf(r)
  {
    PackedProduct(Unpacked(f), Unpacked(g))
  }

  /**
   * flt_multiply with the special-value table as flt/flt-basic.c writes it
   * (FltBasic.ProductAsWritten).
   */
  function MultiplyAsWritten(f: Flt, g: Flt): (r: Flt)
    ensures IsNaN(f) || IsNaN(g) ==> r == FLT_NAN
  {
    var t, u := Unpacked(f), Unpacked(g);
    PackedClass(FltBasic.ProductAsWritten(t, u));
    Packed(FltBasic.ProductAsWritten(t, u))
  }

  /**
   * flt_divide: the divisor is inverted and then multiplied in. A finite
   * non-zero value over zero is an infinity, zero over zero and infinity
   * over infinity are NaN, and the sign is the exclusive or.
   */
  function Divide(f: Flt, g: Flt): (r: Flt)
    ensures IsNaN(f) || IsNaN(g) ==> r == FLT_NAN
    ensures (IsZero(f) && IsZero(g)) || (IsInf(f) && IsInf(g)) ==> r == FLT_NAN
    ensures !IsZero(f) && !IsNaN(f) && IsZero(g) ==> IsInf(r)
    ensures IsFinite(f) && IsInf(g) ==> IsZero(r)
    ensures !IsNaN(r) ==> SignField(r) == Xor(SignField(f), SignField(g))
  {
    var u := Unpacked(g);
    assert FltBasic.Reciprocal(u).c != NaN ==> FltBasic.Reciprocal(u).s == u.s;
    PackedProduct(Unpacked(f), FltBasic.Reciprocal(u))
  }

  /**
   * flt_divide as flt/flt-basic.c writes it: the reciprocal of the divisor
   * multiplied in with the written special-value table
   * (FltBasic.ProductAsWritten).
   */
  function DivideAsWritten(f: Flt, g: Flt): (r: Flt)
    ensures IsNaN(f) || IsNaN(g) ==> r == FLT_NAN
    ensures IsFinite(f) && !IsZero(f) && IsInf(g) ==> r == (if SignField(f) == 1 then FLT_NEG_0 else FLT_POS_0)
  {
    var t, u := Unpacked(f), FltBasic.Reciprocal(Unpacked(g));
    PackedClass(FltBasic.ProductAsWritten(t, u));
    Packed(FltBasic.ProductAsWritten(t, u))
  }

  /** flt_negated: the sign bit inverted, except that a NaN becomes the canonical NaN. */
  function Negated(f: Flt): (r: Flt)
    ensures !IsNaN(f) ==> r == FlipSign(f)
    ensures IsNaN(f) ==> r == FLT_NAN
  {
    var t := Unpacked(f);
    if !IsNaN(f) then
      UnpackedFlipSign(f);
      UnpackPackRoundTrip(FlipSign(f));
      Packed(FltBasic.Negated(t))
    else Packed(FltBasic.Negated(t))
  }

  /**
   * flt_inverted. Zero and infinity swap keeping their sign, NaN stays NaN,
   * and a power of two whose reciprocal is in the normal range inverts exactly.
   */
  function Inverted(f: Flt): (r: Flt)
    ensures IsNaN(f) ==> r == FLT_NAN
    ensures IsZero(f) ==> r == (if SignField(f) == 1 then FLT_NEG_INF else FLT_POS_INF)
    ensures IsInf(f) ==> r == (if SignField(f) == 1 then FLT_NEG_0 else FLT_POS_0)
    ensures FracField(f) == 0 && 1 <= ExpField(f) <= 253 ==>
              r == SignField(f) * 0x8000_0000 + (254 - ExpField(f)) * 0x80_0000
  {
    var t := Unpacked(f);
    FieldsCompose(f);
    if FracField(f) == 0 && 1 <= ExpField(f) <= 253 then
      assert t == Tmp(Normal, SignField(f), TMP_1, ExpField(f) - 127);
      PackNormalRounds(FltBasic.Reciprocal(t));
      Packed(FltBasic.Reciprocal(t))
    else Packed(FltBasic.Reciprocal(t))
  }

  // ------------------------------------------------------------------ lemmas

  /** Subtraction is addition of the negated pattern. */
  lemma SubtractIsAddNegated(f: Flt, g: Flt)
    ensures Subtract(f, g) == Add(f, Negated(g))
  {
    if !IsNaN(g) {
      UnpackedFlipSign(g);
    }
  }

  /** A finite value minus itself is +0, whatever its sign. */
  lemma SubtractSelf(f: Flt)
    requires IsFinite(f)
    ensures Subtract(f, f) == FLT_POS_0
  {
    FltBasic.SumNegated(Unpacked(f));
  }

  /** Addition of patterns commutes. */
  lemma AddCommutes(f: Flt, g: Flt)
    ensures Add(f, g) == Add(g, f)
  {
    var t, u := Unpacked(f), Unpacked(g);
    FltBasic.SumCommutes(t, u);
    PackedEquivalent(FltBasic.Sum(t, u), FltBasic.Sum(u, t));
  }

  /** Multiplication of patterns commutes. */
  lemma MultiplyCommutes(f: Flt, g: Flt)
    ensures Multiply(f, g) == Multiply(g, f)
  {
    var t, u := Unpacked(f), Unpacked(g);
    FltBasic.ProductCommutes(t, u);
    PackedEquivalent(FltBasic.Product(t, u), FltBasic.Product(u, t));
    assert Multiply(f, g) == Packed(FltBasic.Product(t, u));
  }

  /** Multiplying by 1.0 gives back every pattern but a NaN. */
  lemma MultiplyByOne(f: Flt)
    requires !IsNaN(f)
    ensures Multiply(f, FLT_POS_1) == f
  {
    FieldsCompose(FLT_POS_1);
    assert Unpacked(FLT_POS_1) == Tmp(Normal, 0, TMP_1, 0);
    UnpackPackRoundTrip(f);
    if Unpacked(f).c == Normal {
      FltBasic.ProductByOne(Unpacked(f));
    }
  }

  /** Dividing by 1.0 gives back every pattern but a NaN. */
  lemma DivideByOne(f: Flt)
    requires !IsNaN(f)
    ensures Divide(f, FLT_POS_1) == f
  {
    var one := Tmp(Normal, 0, TMP_1, 0);
    FieldsCompose(FLT_POS_1);
    assert Unpacked(FLT_POS_1) == one;
    assert FltBasic.Reciprocal(one) == one;
    MultiplyByOne(f);
  }

  /** Negating twice restores every pattern but a NaN. */
  lemma NegatedTwice(f: Flt)
    requires !IsNaN(f)
    ensures Negated(Negated(f)) == f
  {
  }

  /** A power of two in the range where its reciprocal is normal inverts back to itself. */
  lemma InvertedTwice(f: Flt)
    requires FracField(f) == 0 && 1 <= ExpField(f) <= 253
    ensures Inverted(Inverted(f)) == f
  {
    var r := Inverted(f);
    FieldsCompose(f);
    DivUnique(r, 0x8000_0000, SignField(f), (254 - ExpField(f)) * 0x80_0000);
    DivUnique(r, 0x80_0000, SignField(f) * 0x100 + 254 - ExpField(f), 0);
    DivUnique(SignField(f) * 0x100 + 254 - ExpField(f), 0x100, SignField(f), 254 - ExpField(f));
  }

  /**
   * The signed-zero entries of the multiplication table as flt/flt-basic.c
   * writes them: 1 * -0 gives +0 and +0 * -1 gives +0, where the sign rule
   * gives -0 both times; the operand order then changes the result.
   */
  lemma MultiplySignedZeroAsWritten()
    ensures MultiplyAsWritten(FLT_POS_1, FLT_NEG_0) == FLT_POS_0
    ensures MultiplyAsWritten(FLT_POS_0, FLT_NEG_1) == FLT_POS_0
    ensures MultiplyAsWritten(FLT_NEG_0, FLT_POS_1) == FLT_NEG_0
    ensures Multiply(FLT_POS_1, FLT_NEG_0) == FLT_NEG_0 && Multiply(FLT_POS_0, FLT_NEG_1) == FLT_NEG_0
  {
    FieldsCompose(FLT_POS_1);
    FieldsCompose(FLT_NEG_1);
    FieldsCompose(FLT_NEG_0);
    FieldsCompose(FLT_POS_0);
    assert Unpacked(FLT_POS_1) == Tmp(Normal, 0, TMP_1, 0);
    assert Unpacked(FLT_NEG_1) == Tmp(Normal, 1, TMP_1, 0);
  }

  /**
   * The signed-zero quotients as flt_divide writes them: +0 / -1 and
   * 1 / -inf give +0, where the sign rule gives -0.
   */
  lemma DivideSignedZeroAsWritten()
    ensures DivideAsWritten(FLT_POS_0, FLT_NEG_1) == FLT_POS_0 && Divide(FLT_POS_0, FLT_NEG_1) == FLT_NEG_0
    ensures DivideAsWritten(FLT_POS_1, FLT_NEG_INF) == FLT_POS_0 && Divide(FLT_POS_1, FLT_NEG_INF) == FLT_NEG_0
  {
    ZeroOverMinusOne();
    OneOverMinusInfinity();
  }

  lemma ZeroOverMinusOne()
    ensures DivideAsWritten(FLT_POS_0, FLT_NEG_1) == FLT_POS_0 && Divide(FLT_POS_0, FLT_NEG_1) == FLT_NEG_0
  {
    var minusOne := Tmp(Normal, 1, TMP_1, 0);
    assert Unpacked(FLT_POS_0) == Tmp(Zero, 0, 0, 0) by { FieldsCompose(FLT_POS_0); }
    assert Unpacked(FLT_NEG_1) == minusOne by { FieldsCompose(FLT_NEG_1); }
    assert FltBasic.Reciprocal(minusOne) == minusOne;
    ZeroTimesMinusOne();
  }

  lemma OneOverMinusInfinity()
    ensures DivideAsWritten(FLT_POS_1, FLT_NEG_INF) == FLT_POS_0 && Divide(FLT_POS_1, FLT_NEG_INF) == FLT_NEG_0
  {
    assert Unpacked(FLT_POS_1) == Tmp(Normal, 0, TMP_1, 0) by { FieldsCompose(FLT_POS_1); }
    assert Unpacked(FLT_NEG_INF) == Tmp(Infinite, 1, 0, 0) by { FieldsCompose(FLT_NEG_INF); }
    assert FltBasic.Reciprocal(Tmp(Infinite, 1, 0, 0)) == Tmp(Zero, 1, 0, 0);
    OneTimesMinusZero();
  }

  /** +0 * -1: +0 as written, -0 by the sign rule. */
  lemma ZeroTimesMinusOne()
    ensures Packed(FltBasic.ProductAsWritten(Tmp(Zero, 0, 0, 0), Tmp(Normal, 1, TMP_1, 0))) == FLT_POS_0
    ensures Packed(FltBasic.Product(Tmp(Zero, 0, 0, 0), Tmp(Normal, 1, TMP_1, 0))) == FLT_NEG_0
  {
  }

  /** 1 * -0: +0 as written, -0 by the sign rule. */
  lemma OneTimesMinusZero()
    ensures Packed(FltBasic.ProductAsWritten(Tmp(Normal, 0, TMP_1, 0), Tmp(Zero, 1, 0, 0))) == FLT_POS_0
    ensures Packed(FltBasic.Product(Tmp(Normal, 0, TMP_1, 0), Tmp(Zero, 1, 0, 0))) == FLT_NEG_0
  {
  }

  // ------------------------------------------------------- the *_into forms

  /** flt_add_into: *pf = *pf + g, returning the new *pf, or NaN when pf is null. */
  method AddInto(pf: FltBox?, g: Flt) returns (r: Flt)
    modifies pf
    ensures pf == null ==> r == FLT_NAN
    ensures pf != null ==> pf.value == Add(old(pf.value), g) && r == pf.value
  {
    if pf == null {
      return FLT_NAN;
    }
    var t := new FltTmp();
    var u := new FltTmp();
    FltToTmp(pf.value, t);
    FltToTmp(g, u);
    FltBasic.Add(t, u.Value());
    pf.value := TmpToFlt(t);
    r := pf.value;
  }

  /** flt_subtract_into: *pf = *pf - g. */
  method SubtractInto(pf: FltBox?, g: Flt) returns (r: Flt)
    modifies pf
    ensures pf == null ==> r == FLT_NAN
    ensures pf != null ==> pf.value == Subtract(old(pf.value), g) && r == pf.value
  {
    if pf == null {
      return FLT_NAN;
    }
    var t := new FltTmp();
    var u := new FltTmp();
    FltToTmp(pf.value, t);
    FltToTmp(g, u);
    FltBasic.Negate(u);
    FltBasic.Add(t, u.Value());
    pf.value := TmpToFlt(t);
    r := pf.value;
  }

  /** flt_multiply_into: *pf = *pf * g. */
  method MultiplyInto(pf: FltBox?, g: Flt) returns (r: Flt)
    modifies pf
    ensures pf == null ==> r == FLT_NAN
    ensures pf != null ==> pf.value == Multiply(old(pf.value), g) && r == pf.value
  {
    if pf == null {
      return FLT_NAN;
    }
    var t := new FltTmp();
    var u := new FltTmp();
    FltToTmp(pf.value, t);
    FltToTmp(g, u);
    FltBasic.Multiply(t, u);
    pf.value := TmpToFlt(t);
    r := pf.value;
  }

  /** flt_divide_into: *pf = *pf / g. */
  method DivideInto(pf: FltBox?, g: Flt) returns (r: Flt)
    modifies pf
    ensures pf == null ==> r == FLT_NAN
    ensures pf != null ==> pf.value == Divide(old(pf.value), g) && r == pf.value
  {
    if pf == null {
      return FLT_NAN;
    }
    var t := new FltTmp();
    var u := new FltTmp();
    FltToTmp(pf.value, t);
    FltToTmp(g, u);
    FltBasic.Invert(u);
    FltBasic.Multiply(t, u);
    pf.value := TmpToFlt(t);
    r := pf.value;
  }
}
