/**
 * flt/flt-modf.c: splitting a working value into integral and fractional
 * parts by repeatedly moving its leading power of two from one to the other.
 */
module FltModf {
  import opened FltTypes
  import opened FltClassify
  import opened FltConvert
  import FltInit
  import FltBasic

  /**
   * The (fractional, integral) pair that flt_tmp_modf leaves in (*pt, *pu).
   * For a Normal at an exponent e in [0, 30] one unit of the integral part
   * is 2^(30 - e) in mantissa units: the integral part keeps the mantissa
   * rounded down to whole units, and the fractional part is the remainder,
   * renormalized to an exponent below 0, or a Zero. Both parts get the sign
   * of the input. Below exponent 0 everything is fractional, above 30
   * everything is integral.
   */
  function ModfParts(t: Tmp): (r: (Tmp, Tmp))
    requires Wf(t)
    ensures Wf(r.0) && Wf(r.1) && r.0.s == t.s && r.1.s == t.s
    ensures t.c == Normal && 0 <= t.e <= TMP_1_BITS ==>
      r.1.c == Normal && r.1.e == t.e && r.1.m % Pow2(TMP_1_BITS - t.e) == 0 &&
      r.1.m <= t.m < r.1.m + Pow2(TMP_1_BITS - t.e) &&
      (r.0.c == Zero || r.0.c == Normal) && (r.0.c == Zero <==> t.m % Pow2(TMP_1_BITS - t.e) == 0) &&
      (r.0.c == Zero ==> r.1.m == t.m) &&
      (r.0.c == Normal ==> r.0.e < 0 && r.0.m % Pow2(t.e - r.0.e) == 0 &&
                           r.1.m + r.0.m / Pow2(t.e - r.0.e) == t.m)
    ensures t.c == Normal && t.e < 0 ==> r == (t, Tmp(Zero, t.s, 0, 0))
    ensures t.c != Normal && t.e <= TMP_1_BITS ==> r == (t, Tmp(Zero, t.s, 0, 0))
    ensures t.e > TMP_1_BITS ==> r == (Tmp(Zero, t.s, 0, 0), t)
  {
    var r := UnsignedParts(t.(s := 0));
    (r.0.(s := t.s), r.1.(s := t.s))
  }

  /** The parts of a value with the sign bit clear, before the sign is put back. */
  function UnsignedParts(t: Tmp): (r: (Tmp, Tmp))
    requires Wf(t)
    ensures Wf(r.0) && Wf(r.1)
    ensures t.c == Normal && 0 <= t.e <= TMP_1_BITS ==>
      r.1.c == Normal && r.1.e == t.e && r.1.m % Pow2(TMP_1_BITS - t.e) == 0 &&
      r.1.m <= t.m < r.1.m + Pow2(TMP_1_BITS - t.e) &&
      (r.0.c == Zero || r.0.c == Normal) && (r.0.c == Zero <==> t.m % Pow2(TMP_1_BITS - t.e) == 0) &&
      (r.0.c == Zero ==> r.1.m == t.m) &&
      (r.0.c == Normal ==> r.0.e < 0 && r.0.m % Pow2(t.e - r.0.e) == 0 &&
                           r.1.m + r.0.m / Pow2(t.e - r.0.e) == t.m)
    ensures t.c == Normal && t.e < 0 ==> r == (t, Tmp(Zero, 0, 0, 0))
    ensures t.c != Normal && t.e <= TMP_1_BITS ==> r == (t, Tmp(Zero, 0, 0, 0))
    ensures t.e > TMP_1_BITS ==> r == (Tmp(Zero, 0, 0, 0), t)
  {
    if t.e > TMP_1_BITS then (Tmp(Zero, 0, 0, 0), t)
    else if t.c == Normal && t.e >= 0 then NormalParts(t)
    else (t, Tmp(Zero, 0, 0, 0))
  }

  /** UnsignedParts of a Normal value with 0 <= e <= 30: the bits below one unit move to the fraction. */
  function NormalParts(t: Tmp): (r: (Tmp, Tmp))
    requires Wf(t) && t.c == Normal && 0 <= t.e <= TMP_1_BITS
    ensures Wf(r.0) && Wf(r.1)
    ensures r.1.c == Normal && r.1.e == t.e && r.1.m % Pow2(TMP_1_BITS - t.e) == 0 &&
      r.1.m <= t.m < r.1.m + Pow2(TMP_1_BITS - t.e)
    ensures (r.0.c == Zero || r.0.c == Normal) && (r.0.c == Zero <==> t.m % Pow2(TMP_1_BITS - t.e) == 0)
    ensures r.0.c == Zero ==> r.1.m == t.m
    ensures r.0.c == Normal ==>
      r.0.e < 0 && r.0.m % Pow2(t.e - r.0.e) == 0 && r.1.m + r.0.m / Pow2(t.e - r.0.e) == t.m
  {
    var unit := Pow2(TMP_1_BITS - t.e);
    var F := t.m % unit;
    IntegralBounds(t.m, t.e, unit, F);
    var whole := Tmp(Normal, 0, t.m - F, t.e);
    assert whole.m % unit == 0 && whole.m <= t.m < whole.m + unit;
    var fraction := FractionPart(F, t.e);
    (fraction, whole)
  }

  /** The fractional part of a remainder F below one unit: a Zero when F is 0, FractionForm otherwise. */
  function FractionPart(F: nat, e: int): (r: Tmp)
    requires 0 <= e <= TMP_1_BITS && F < Pow2(TMP_1_BITS - e)
    ensures Wf(r) && r.s == 0 && (r.c == Zero || r.c == Normal) && (r.c == Zero <==> F == 0)
    ensures r.c == Normal ==> r.e < 0 && r.m % Pow2(e - r.e) == 0 && r.m / Pow2(e - r.e) == F
  {
    if F == 0 then Tmp(Zero, 0, 0, e) else FractionForm(0, F, e)
  }

  /**
   * A non-zero remainder below one unit, Normalized: its exponent is below 0
   * and its mantissa is the remainder shifted up by whole bits.
   */
  function FractionForm(s: Bit, F: nat, e: int): (r: Tmp)
    requires 0 <= e <= TMP_1_BITS && 0 < F < Pow2(TMP_1_BITS - e)
    ensures Wf(r) && r.c == Normal && r.s == s && r.e < 0
    ensures r.m % Pow2(e - r.e) == 0 && r.m / Pow2(e - r.e) == F
  {
    Pow2Monotone(TMP_1_BITS - e, TMP_2_BITS);
    Pow2Of31();
    var r := FltBasic.Normalized(Tmp(Normal, s, F, e));
    var k: nat := e - r.e;
    Pow2Of30();
    ProductExponentLower(F, k, TMP_1_BITS - e, TMP_1_BITS);
    DivUnique(F * Pow2(k), Pow2(k), F, 0);
    r
  }

  /** The whole units of a normalized mantissa at exponent e in [0, 30] come to at least 2^30. */
  lemma IntegralBounds(m: U32, e: int, unit: nat, F: nat)
    requires TMP_1 <= m < TMP_2 && 0 <= e <= TMP_1_BITS
    requires unit == Pow2(TMP_1_BITS - e) && F == m % unit
    ensures TMP_1 <= m - F && (m - F) % unit == 0 && m - F <= m < m - F + unit
  {
    Pow2Add(TMP_1_BITS - e, e);
    Pow2Of30();
    WholeUnits(m, Pow2(TMP_1_BITS - e), Pow2(e));
  }

  lemma WholeUnits(m: nat, unit: nat, p: nat)
    requires unit > 0 && unit * p == TMP_1 <= m
    ensures TMP_1 <= m - m % unit && (m - m % unit) % unit == 0
  {
    var q, r := m / unit, m % unit;
    assert m == q * unit + r;
    DivLowerBound(m, unit, p);
    MulMono(p, q, unit);
    DivUnique(m - r, unit, q, 0);
  }

  // -------------------------------------------------------- flt_tmp_modf

  /**
   * The state of the loop of flt_tmp_modf on a positive Normal with mantissa
   * m0 at exponent e0: I units have moved into *pu and F remain in *pt.
   */
  ghost predicate LoopState(p: Tmp, q: Tmp, I: nat, F: nat, m0: U32, e0: int)
    requires 0 <= e0 <= TMP_1_BITS
  {
    I + F == m0 && I % Pow2(TMP_1_BITS - e0) == 0 &&
    (I == 0 ==> q == Tmp(Zero, 0, 0, 0) && p == Tmp(Normal, 0, m0, e0)) &&
    (I != 0 ==> TMP_1 <= I && q == Tmp(Normal, 0, I, e0)) &&
    (F == 0 ==> p.c == Zero && p.s == 0) &&
    (F != 0 ==> p == FltBasic.Normalized(Tmp(Normal, 0, F, e0)))
  }

  /**
   * flt_tmp_modf: *pt becomes the fractional part and *pu the integral
   * part. The exponent left in a Zero fractional part is not specified.
   */
  method TmpModf(pt: FltTmp, pu: FltTmp)
    requires pt != pu && Wf(pt.Value())
    modifies pt, pu
    ensures Equivalent(pt.Value(), ModfParts(old(pt.Value())).0)
    ensures pu.Value() == ModfParts(old(pt.Value())).1
  {
    ghost var t0 := pt.Value();
    var sign := pt.s;
    pt.s := 0;
    if pt.e <= TMP_1_BITS {
      FltInit.Initialize(pu, Zero, 0, 0, 0);
      MoveUnits(pt, pu);
    } else {
      FltInit.Copy(pu, pt);
      FltInit.Initialize(pt, Zero, 0, 0, 0);
    }
    pt.s := sign;
    pu.s := sign;
  }

  /**
   * The loop of flt_tmp_modf on a positive value at an exponent of at most
   * 30, with *pu cleared: while *pt is a Normal at an exponent of at least 0,
   * its leading power of two moves into *pu.
   */
  method MoveUnits(pt: FltTmp, pu: FltTmp)
    requires pt != pu && Wf(pt.Value()) && pt.s == 0 && pt.e <= TMP_1_BITS
    requires pu.Value() == Tmp(Zero, 0, 0, 0)
    modifies pt, pu
    ensures Equivalent(pt.Value(), UnsignedParts(old(pt.Value())).0)
    ensures pu.Value() == UnsignedParts(old(pt.Value())).1
  {
    ghost var t0 := pt.Value();
    ghost var active := t0.c == Normal && t0.e >= 0;
    ghost var I: nat := 0;
    ghost var F: nat := if active then t0.m else 0;
    if active {
      FltBasic.NormalizedFixed(pt.Value());
    }
    var v := new FltTmp();
    while pt.c == Normal && pt.e >= 0
      invariant !active ==> pt.Value() == t0 && pu.Value() == Tmp(Zero, 0, 0, 0)
      invariant active ==> LoopState(pt.Value(), pu.Value(), I, F, t0.m, t0.e)
      decreases F
    {
      ghost var d := MoveUnit(pt, pu, v, I, F, t0.m, t0.e);
      I, F := I + d, F - d;
    }
    if active {
      LoopResult(pt.Value(), pu.Value(), I, F, t0);
    }
  }

  /** The loop state at exit is the pair of parts. */
  lemma LoopResult(p: Tmp, q: Tmp, I: nat, F: nat, t0: Tmp)
    requires Wf(t0) && t0.s == 0 && t0.c == Normal && 0 <= t0.e <= TMP_1_BITS
    requires LoopState(p, q, I, F, t0.m, t0.e) && !(p.c == Normal && p.e >= 0)
    ensures Equivalent(p, UnsignedParts(t0).0) && q == UnsignedParts(t0).1
  {
    ModfExit(p, q, I, F, t0.m, t0.e);
  }

  /** One pass of the loop: 2^e, e the exponent of *pt, is added to *pu and subtracted from *pt. */
  method MoveUnit(pt: FltTmp, pu: FltTmp, v: FltTmp, ghost I: nat, ghost F: nat, ghost m0: U32, ghost e0: int)
    returns (ghost d: nat)
    requires pt != pu && v != pt && v != pu
    requires TMP_1 <= m0 < TMP_2 && 0 <= e0 <= TMP_1_BITS
    requires LoopState(pt.Value(), pu.Value(), I, F, m0, e0) && pt.c == Normal && pt.e >= 0
    modifies pt, pu, v
    ensures 0 < d <= F && LoopState(pt.Value(), pu.Value(), I + d, F - d, m0, e0)
  {
    ghost var p, q := pt.Value(), pu.Value();
    d := PassState(p, q, I, F, m0, e0);
    FltInit.Initialize(v, Normal, 0, TMP_1, pt.e);
    FltBasic.Add(pu, v.Value());
    FltBasic.Negate(v);
    FltBasic.Add(pt, v.Value());
  }

  /** The loop state after one pass, stated on the two sums the pass computes. */
  lemma PassState(p: Tmp, q: Tmp, I: nat, F: nat, m0: U32, e0: int) returns (d: nat)
    requires TMP_1 <= m0 < TMP_2 && 0 <= e0 <= TMP_1_BITS
    requires LoopState(p, q, I, F, m0, e0) && p.c == Normal && p.e >= 0
    ensures var unit := Tmp(Normal, 0, TMP_1, p.e);
      0 < d <= F &&
      LoopState(FltBasic.Sum(p, FltBasic.Negated(unit)), FltBasic.Sum(q, unit), I + d, F - d, m0, e0)
  {
    SubtractUnit(p);
    IntegralStep(p, q, I, F, m0, e0);
    var unit := Tmp(Normal, 0, TMP_1, p.e);
    ModfStep(p, q, FltBasic.Sum(p, FltBasic.Negated(unit)), FltBasic.Sum(q, unit), I, F, m0, e0);
    d := Pow2(TMP_1_BITS - (e0 - p.e));
  }

  /**
   * One pass of the loop moves the leading power of two 2^e of *pt into *pu:
   * given what the two additions give, the loop state moves on by d units.
   */
  lemma ModfStep(p: Tmp, q: Tmp, pOut: Tmp, qOut: Tmp, I: nat, F: nat, m0: U32, e0: int)
    requires TMP_1 <= m0 < TMP_2 && 0 <= e0 <= TMP_1_BITS
    requires LoopState(p, q, I, F, m0, e0) && p.c == Normal && p.e >= 0
    requires e0 - p.e <= TMP_1_BITS
    requires pOut == if p.m == TMP_1 then Tmp(Zero, 0, 0, p.e) else FltBasic.Normalized(Tmp(Normal, 0, p.m - TMP_1, p.e))
    requires Pow2(TMP_1_BITS - (e0 - p.e)) <= F
    requires qOut == Tmp(Normal, 0, I + Pow2(TMP_1_BITS - (e0 - p.e)), e0)
    ensures var d := Pow2(TMP_1_BITS - (e0 - p.e));
      0 < d <= F && LoopState(pOut, qOut, I + d, F - d, m0, e0)
  {
    StepShape(p, q, I, F, m0, e0);
    StepArith(p, I, F, m0, e0);
    var d := Pow2(TMP_1_BITS - (e0 - p.e));
    if F - d != 0 {
      StepFraction(p, F - d, e0);
    }
    StepState(pOut, qOut, I + d, F - d, m0, e0);
  }

  /** What the loop state says of *pt while the loop runs: it holds F, shifted up to a normalized mantissa. */
  lemma StepShape(p: Tmp, q: Tmp, I: nat, F: nat, m0: U32, e0: int)
    requires TMP_1 <= m0 < TMP_2 && 0 <= e0 <= TMP_1_BITS
    requires LoopState(p, q, I, F, m0, e0) && p.c == Normal && p.e >= 0
    ensures 0 < F && p.e <= e0 && TMP_1 <= p.m < TMP_2 && p.m == F * Pow2(e0 - p.e)
    ensures I == 0 ==> p.e == e0
  {
    assert F != 0;
  }

  /** The arithmetic of one pass: the unit moved is d == 2^(30 - (e0 - e)), which the remainder F holds. */
  lemma StepArith(p: Tmp, I: nat, F: nat, m0: U32, e0: int)
    requires TMP_1 <= m0 < TMP_2 && 0 <= e0 <= TMP_1_BITS && I + F == m0 && I % Pow2(TMP_1_BITS - e0) == 0
    requires p.c == Normal && 0 <= p.e <= e0 && TMP_1 <= p.m < TMP_2 && p.m == F * Pow2(e0 - p.e)
    requires I == 0 ==> p.e == e0
    requires I != 0 ==> TMP_1 <= I
    ensures 0 <= e0 - p.e <= TMP_1_BITS
    ensures var d := Pow2(TMP_1_BITS - (e0 - p.e));
      0 < d <= F && (I + d) % Pow2(TMP_1_BITS - e0) == 0 && TMP_1 <= I + d < TMP_2 &&
      (F - d == 0 <==> p.m == TMP_1) && p.m - TMP_1 == (F - d) * Pow2(e0 - p.e) &&
      (I == 0 ==> d == TMP_1) &&
      (I != 0 ==> d == TMP_1 / Pow2(e0 - p.e))
  {
    var e := p.e;
    var j: nat := e0 - e;
    UnitFacts(F, p.m, j);
    var d := Pow2(TMP_1_BITS - j);
    UnitsAdd(I, d, e0, e);
  }

  /** The rest of *pt after a pass, renormalized, is the rest of F renormalized. */
  lemma StepFraction(p: Tmp, G: nat, e0: int)
    requires p.c == Normal && 0 <= p.e <= e0 && 0 < G && p.m - TMP_1 == G * Pow2(e0 - p.e) && p.m < TMP_2
    ensures FltBasic.Normalized(Tmp(Normal, 0, p.m - TMP_1, p.e)) == FltBasic.Normalized(Tmp(Normal, 0, G, e0))
  {
    MulLe(1, Pow2(e0 - p.e), G);
    FltBasic.NormalizedScaled(0, G, e0 - p.e, e0);
  }

  /**
   * A remainder F held as M == F * 2^j in a normalized mantissa: one unit of
   * 2^30 in M is d == 2^(30 - j) in F, and F holds at least one.
   */
  lemma UnitFacts(F: nat, M: nat, j: nat)
    requires M == F * Pow2(j) && TMP_1 <= M < TMP_2
    ensures j <= TMP_1_BITS
    ensures var d := Pow2(TMP_1_BITS - j);
      0 < d <= F && M - TMP_1 == (F - d) * Pow2(j) && d == TMP_1 / Pow2(j) &&
      (j == 0 ==> d == TMP_1) && (F - d == 0 <==> M == TMP_1)
  {
    Pow2Of31();
    ProductExponentUpper(F, j, TMP_2_BITS);
    var d := Pow2(TMP_1_BITS - j);
    Pow2Add(TMP_1_BITS - j, j);
    Pow2Of30();
    UnitParts(F, M, Pow2(j), d);
  }

  /** One unit 2^30 == d * P taken out of M == F * P. */
  lemma UnitParts(F: nat, M: nat, P: nat, d: nat)
    requires P > 0 && M == F * P && d * P == TMP_1 <= M
    ensures 0 < d <= F && M - TMP_1 == (F - d) * P && d == TMP_1 / P && (F - d == 0 <==> M == TMP_1)
  {
    UnitBelow(F, d, P, M);
    DivUnique(TMP_1, P, d, 0);
  }

  /** Adding the unit 2^(30 - (e0 - e)), e >= 0, to whole units of 2^(30 - e0) keeps whole units. */
  lemma UnitsAdd(I: nat, d: nat, e0: int, e: int)
    requires 0 <= e <= e0 <= TMP_1_BITS && I % Pow2(TMP_1_BITS - e0) == 0
    requires d == Pow2(TMP_1_BITS - (e0 - e))
    ensures (I + d) % Pow2(TMP_1_BITS - e0) == 0
  {
    Pow2Add(TMP_1_BITS - e0, e);
    MultiplesAdd(I, d, Pow2(TMP_1_BITS - e0), Pow2(e));
  }

  /** What *pu holds after a pass: the units so far plus d. */
  lemma IntegralStep(p: Tmp, q: Tmp, I: nat, F: nat, m0: U32, e0: int)
    requires TMP_1 <= m0 < TMP_2 && 0 <= e0 <= TMP_1_BITS
    requires LoopState(p, q, I, F, m0, e0) && p.c == Normal && p.e >= 0
    ensures 0 <= e0 - p.e <= TMP_1_BITS
    ensures var d := Pow2(TMP_1_BITS - (e0 - p.e));
      0 < d <= F && FltBasic.Sum(q, Tmp(Normal, 0, TMP_1, p.e)) == Tmp(Normal, 0, I + d, e0)
  {
    StepShape(p, q, I, F, m0, e0);
    StepArith(p, I, F, m0, e0);
    IntegralUnit(q, I, e0, p.e, Pow2(TMP_1_BITS - (e0 - p.e)));
  }

  /** *pu plus the unit moved: the unit itself on the first pass, a carry-free sum after. */
  lemma IntegralUnit(q: Tmp, I: nat, e0: int, e: int, d: nat)
    requires TMP_1 <= I + d < TMP_2 && e <= e0 && 0 < d
    requires I == 0 ==> q == Tmp(Zero, 0, 0, 0) && e == e0 && d == TMP_1
    requires I != 0 ==> TMP_1 <= I && q == Tmp(Normal, 0, I, e0) && d == TMP_1 / Pow2(e0 - e)
    ensures FltBasic.Sum(q, Tmp(Normal, 0, TMP_1, e)) == Tmp(Normal, 0, I + d, e0)
  {
    if I != 0 {
      AddUnit(I, e0, e, d);
    }
  }

  /** The loop state after a step, stated on the two new values. */
  lemma StepState(p: Tmp, q: Tmp, I: nat, F: nat, m0: U32, e0: int)
    requires 0 <= e0 <= TMP_1_BITS && I + F == m0 && I % Pow2(TMP_1_BITS - e0) == 0 && TMP_1 <= I
    requires q == Tmp(Normal, 0, I, e0)
    requires F == 0 ==> p.c == Zero && p.s == 0
    requires F != 0 ==> p == FltBasic.Normalized(Tmp(Normal, 0, F, e0))
    ensures LoopState(p, q, I, F, m0, e0)
  {
  }

  /** *pt minus its own leading power of two: Zero, or the rest renormalized. */
  lemma SubtractUnit(p: Tmp)
    requires Wf(p) && p.c == Normal && p.s == 0
    ensures FltBasic.Sum(p, FltBasic.Negated(Tmp(Normal, 0, TMP_1, p.e))) ==
      if p.m == TMP_1 then Tmp(Zero, 0, 0, p.e) else FltBasic.Normalized(Tmp(Normal, 0, p.m - TMP_1, p.e))
  {
    assert FltBasic.Align(TMP_1, p.e, p.e) == (TMP_1, p.e);
    assert FltBasic.Align(p.m, p.e, p.e) == (p.m, p.e);
  }

  /** *pu plus a power of two below everything it holds: the bit is set without a carry. */
  lemma AddUnit(I: nat, e0: int, e: int, d: nat)
    requires TMP_1 <= I && I + d < TMP_2 && e <= e0 && 0 < d
    requires d == TMP_1 / Pow2(e0 - e)
    ensures FltBasic.Sum(Tmp(Normal, 0, I, e0), Tmp(Normal, 0, TMP_1, e)) == Tmp(Normal, 0, I + d, e0)
  {
    var q := Tmp(Normal, 0, I, e0);
    assert FltBasic.Align(TMP_1, e, e0) == (d, e0);
    assert FltBasic.Align(I, e0, e0) == (I, e0);
    FltBasic.CombineNoCarry(q, 0, I, e0, d, e0);
  }

  /** The sum of two multiples of unit is one, when d == unit * k. */
  lemma MultiplesAdd(I: nat, d: nat, unit: nat, k: nat)
    requires unit > 0 && I % unit == 0 && d == unit * k
    ensures (I + d) % unit == 0
  {
    DivUnique(I + d, unit, I / unit + k, 0);
  }

  /** When the loop stops, F is the remainder of m0 by one unit and I the rest. */
  lemma ModfExit(p: Tmp, q: Tmp, I: nat, F: nat, m0: U32, e0: int)
    requires TMP_1 <= m0 < TMP_2 && 0 <= e0 <= TMP_1_BITS
    requires LoopState(p, q, I, F, m0, e0) && !(p.c == Normal && p.e >= 0)
    ensures var unit := Pow2(TMP_1_BITS - e0); F == m0 % unit && I == m0 - F && I != 0
  {
    var unit := Pow2(TMP_1_BITS - e0);
    if F != 0 {
      Pow2Of31();
      var j: nat := e0 - p.e;
      assert p.m == F * Pow2(j);
      Pow2Add(TMP_1_BITS - e0, j);
      Pow2Monotone(TMP_2_BITS, TMP_1_BITS - e0 + j);
      FractionBelowUnit(F, unit, Pow2(j), p.m);
    }
    RemainderOfUnits(m0, I, F, unit);
  }

  /** d * P == 2^30 <= F * P: at least d units remain, and removing 2^30 leaves F - d of them. */
  lemma UnitBelow(F: nat, d: nat, P: nat, M: nat)
    requires P > 0 && M == F * P && d * P == TMP_1 <= M
    ensures d <= F && M - TMP_1 == (F - d) * P
  {
    MulMono(F + 1, d, P);
  }

  /** F * P < 2^31 <= unit * P forces F below unit. */
  lemma FractionBelowUnit(F: nat, unit: nat, P: nat, M: nat)
    requires M == F * P < TMP_2 <= unit * P
    ensures F < unit
  {
    MulMono(unit, F, P);
  }

  /** I whole units plus a rest F below one unit: F is the remainder. */
  lemma RemainderOfUnits(m0: nat, I: nat, F: nat, unit: nat)
    requires unit > 0 && I + F == m0 && I % unit == 0 && F < unit
    ensures F == m0 % unit
  {
    assert I == (I / unit) * unit;
    DivUnique(m0, unit, I / unit, F);
  }

  // -------------------------------------------------------------- flt_modf

  /**
   * The two results of flt_modf: the fractional part returned and the
   * integral part stored through pg. A working value that is not Normal
   * (zero, infinity, NaN) gives the input pattern for both.
   */
  function ModfPair(f: Flt): (r: (Flt, Flt))
    ensures !IsNormal(f) && !IsSubnormal(f) ==> r == (f, f)
    ensures IsNormal(f) && ExpField(f) >= 150 ==>
              r == (if SignField(f) == 1 then FLT_NEG_0 else FLT_POS_0, f)
    ensures (IsNormal(f) && ExpField(f) < 127) || IsSubnormal(f) ==>
              r == (f, if SignField(f) == 1 then FLT_NEG_0 else FLT_POS_0)
  {
    var t := Unpacked(f);
    UnpackPackRoundTrip(f);
    if t.c == Normal then
      WholeAboveExponent23(f);
      var parts := ModfParts(t);
      (Packed(parts.0), Packed(parts.1))
    else (f, f)
  }

  /** From exponent 23 up a normal pattern has no bits below the units. */
  lemma WholeAboveExponent23(f: Flt)
    requires IsNormal(f) || IsSubnormal(f)
    ensures var t := Unpacked(f);
      t.c == Normal && (IsSubnormal(f) ==> t.e < -126) &&
      (IsNormal(f) ==> t.e == ExpField(f) - 127) &&
      (23 <= t.e <= TMP_1_BITS ==> t.m % Pow2(TMP_1_BITS - t.e) == 0)
  {
    var t := Unpacked(f);
    FieldsCompose(f);
    if IsSubnormal(f) {
      SubnormalExponent(f);
    }
    if 23 <= t.e <= TMP_1_BITS {
      var k: nat := TMP_1_BITS - t.e;
      Pow2Add(k, 7 - k);
      assert Pow2(7) == 0x80 by { Pow2Values(); }
      var q := t.m / 0x80;
      assert t.m == (q * Pow2(7 - k)) * Pow2(k);
      DivUnique(t.m, Pow2(k), q * Pow2(7 - k), 0);
    }
  }

  /** An unpacked subnormal pattern sits below exponent -126. */
  lemma SubnormalExponent(f: Flt)
    requires IsSubnormal(f)
    ensures Unpacked(f).c == Normal && Unpacked(f).e < -126
  {
    FieldsCompose(f);
    var t := Unpacked(f);
    var frac := FracField(f);
    assert t == FltBasic.Normalized(Tmp(Normal, SignField(f), frac, -119));
    var k: nat := -119 - t.e;
    assert Pow2(23) == 0x80_0000 && Pow2(30) == TMP_1 by { Pow2Values(); }
    ProductExponentLower(frac, k, 23, 30);
  }

  /** flt_modf, which requires a non-null pg. */
  method Modf(f: Flt, pg: FltBox) returns (result: Flt)
    modifies pg
    ensures (result, pg.value) == ModfPair(f)
  {
    var t := new FltTmp();
    var u := new FltTmp();
    FltToTmp(f, t);
    if t.c == Normal {
      ghost var parts := ModfParts(t.Value());
      TmpModf(t, u);
      PackedEquivalent(parts.0, t.Value());
      pg.value := TmpToFlt(u);
      result := TmpToFlt(t);
    } else {
      UnpackPackRoundTrip(f);
      pg.value := f;
      result := f;
    }
  }
}
