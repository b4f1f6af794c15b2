/**
 * flt/flt-basic.c, working-value part: normalization, addition, multiplication
 * from 16x16-bit partial products, negation and inversion by binary long
 * division, each as an in-place method on a FltTmp proved against a function
 * on Tmp values.
 */
module FltBasic {
  import opened FltTypes
  import FltInit

  // ---------------------------------------------------------------- normalize

  /** The first loop of flt_tmp_normalize: double m until it reaches 2^30. */
  function ShiftUp(m: nat, e: int): (r: (nat, int))
    requires m > 0
    ensures r.1 <= e && r.0 == m * Pow2(e - r.1) && r.0 >= TMP_1
    ensures m < TMP_1 ==> r.0 < TMP_2
    ensures m >= TMP_1 ==> r == (m, e)
    decreases TMP_1 - m
  {
    if m < TMP_1 then ShiftUp(2 * m, e - 1) else (m, e)
  }

  /** The second loop of flt_tmp_normalize: halve m until it is below 2^31. */
  function ShiftDown(m: nat, e: int): (r: (nat, int))
    ensures r.1 >= e && r.0 == m / Pow2(r.1 - e) && r.0 < TMP_2
    ensures m >= TMP_1 ==> r.0 >= TMP_1
    ensures m < TMP_2 ==> r == (m, e)
    decreases m
  {
    if m >= TMP_2 then
      var r := ShiftDown(m / 2, e + 1);
      DivPow2Add(m, 1, r.1 - e - 1);
      r
    else (m, e)
  }

  /**
   * flt_tmp_normalize. A Normal with a non-zero mantissa comes out with its
   * mantissa in [2^30, 2^31); doubling is exact and halving truncates. A
   * Normal with a zero mantissa only changes class to Zero, and every other
   * class is left alone.
   */
  function Normalized(t: Tmp): (r: Tmp)
    ensures t.c != Subnormal ==> Wf(r)
    ensures t.c == Normal && t.m != 0 ==> r.c == Normal && r.s == t.s
    ensures t.c == Normal && 0 < t.m < TMP_2 ==>
              r.e <= t.e && r.m == t.m * Pow2(t.e - r.e)
    ensures t.c == Normal && t.m >= TMP_1 ==>
              r.e >= t.e && r.m == t.m / Pow2(r.e - t.e)
    ensures t.c == Normal && t.m == 0 ==> r == t.(c := Zero)
    ensures t.c != Normal ==> r == t
  {
    if t.c == Normal then
      if t.m != 0 then
        var (m1, e1) := ShiftUp(t.m, t.e);
        var (m2, e2) := ShiftDown(m1, e1);
        Tmp(Normal, t.s, m2, e2)
      else t.(c := Zero)
    else t
  }

  method Normalize(pt: FltTmp)
    modifies pt
    ensures pt.Value() == Normalized(old(pt.Value()))
  {
    if pt.c == Normal {
      if pt.m != 0 {
        while pt.m < TMP_1
          invariant 0 < pt.m < TWO_32 && pt.c == old(pt.c) && pt.s == old(pt.s)
          invariant ShiftUp(pt.m, pt.e) == ShiftUp(old(pt.m), old(pt.e))
          decreases TMP_1 - pt.m
        {
          pt.m := pt.m * 2;
          pt.e := pt.e - 1;
        }
        while pt.m >= TMP_2
          invariant pt.c == old(pt.c) && pt.s == old(pt.s)
          invariant ShiftDown(pt.m, pt.e) == ShiftDown(ShiftUp(old(pt.m), old(pt.e)).0, ShiftUp(old(pt.m), old(pt.e)).1)
          decreases pt.m
        {
          pt.m := pt.m / 2;
          pt.e := pt.e + 1;
        }
      } else {
        pt.c := Zero;
      }
    }
  }

  // ---------------------------------------------------------------------- add

  /** One alignment loop of flt_tmp_add: shift bm right until be reaches ae or bm runs out. */
  function Align(bm: nat, be: int, ae: int): (r: (nat, int))
    ensures r.0 <= bm
    ensures be <= ae ==> r.0 == bm / Pow2(ae - be) && be <= r.1 <= ae && (r.0 != 0 ==> r.1 == ae)
    ensures be >= ae ==> r == (bm, be)
    decreases ae - be
  {
    if bm != 0 && ae > be then
      var r := Align(bm / 2, be + 1, ae);
      DivPow2Add(bm, 1, ae - be - 1);
      r
    else (bm, be)
  }

  /** Both operands Normal: align, then add or subtract the mantissas. */
  function SumNormals(t: Tmp, u: Tmp): (r: Tmp)
    requires t.c == Normal && u.c == Normal
    ensures r.c == Normal || r.c == Zero
    ensures Wf(r)
  {
    var (bm, be) := Align(u.m, u.e, t.e);
    var (am, ae) := Align(t.m, t.e, be);
    Combine(t, u.s, am, ae, bm, be)
  }

  /** The add-or-subtract step of flt_tmp_add on the aligned mantissas. */
  function Combine(t: Tmp, us: Bit, am: U32, ae: int, bm: U32, be: int): (r: Tmp)
    ensures r.c == Normal || r.c == Zero
    ensures Wf(r)
  {
    var e := if am != 0 then ae else be;
    if t.s == us then
      Normalized(Tmp(Normal, t.s, (am + bm) % TWO_32, e))
    else
      var m := if am >= bm then am - bm else bm - am;
      var s := if am >= bm then t.s else us;
      if m != 0 then Normalized(Tmp(Normal, s, m, e))
      else Tmp(Zero, 0, 0, t.e)
  }

  /** The special-value table of flt_tmp_add (at least one operand not Normal). */
  function SumSpecial(t: Tmp, u: Tmp): Tmp
  {
    match t.c
    case Infinite =>
      if u.c == Infinite && t.s != u.s then t.(c := NaN)
      else if u.c == NaN then t.(c := NaN)
      else t
    case Normal =>
      if u.c == Infinite then t.(s := u.s, c := Infinite)
      else if u.c == NaN then t.(c := NaN)
      else t
    case Zero =>
      if u.c == Infinite then t.(s := u.s, c := Infinite)
      else if u.c == NaN then t.(c := NaN)
      else if u.c == Normal then u
      else if u.c == Zero then t.(s := t.s * u.s)
      else t
    case _ => t
  }

  /** flt_tmp_add as a function of the two values. */
  function Sum(t: Tmp, u: Tmp): (r: Tmp)
    ensures Wf(t) && Wf(u) ==> Wf(r)
  {
    if t.c == Normal && u.c == Normal then SumNormals(t, u) else SumSpecial(t, u)
  }

  method Add(pt: FltTmp, u: Tmp)
    modifies pt
    ensures pt.Value() == Sum(old(pt.Value()), u)
  {
    if pt.c == Normal && u.c == Normal {
      AddNormals(pt, u);
    } else {
      AddSpecial(pt, u);
    }
  }

  /** The aligning and adding half of flt_tmp_add. */
  method AddNormals(pt: FltTmp, u: Tmp)
    requires pt.c == Normal && u.c == Normal
    modifies pt
    ensures pt.Value() == SumNormals(old(pt.Value()), u)
  {
    var am: nat, ae := pt.m, pt.e;
    var bm: nat, be := u.m, u.e;
    while bm != 0 && ae > be
      invariant Align(bm, be, ae) == Align(u.m, u.e, old(pt.e))
      decreases ae - be
    {
      bm := bm / 2;
      be := be + 1;
    }
    while am != 0 && be > ae
      invariant Align(am, ae, be) == Align(old(pt.m), old(pt.e), be)
      decreases be - ae
    {
      am := am / 2;
      ae := ae + 1;
    }
    assert (am, ae) == Align(old(pt.m), old(pt.e), be);
    assert (bm, be) == Align(u.m, u.e, old(pt.e));
    assert SumNormals(old(pt.Value()), u) == Combine(old(pt.Value()), u.s, am, ae, bm, be);
    CombineInPlace(pt, u.s, am, ae, bm, be);
  }

  method CombineInPlace(pt: FltTmp, us: Bit, am: U32, ae: int, bm: U32, be: int)
    requires pt.c == Normal
    modifies pt
    ensures pt.Value() == Combine(old(pt.Value()), us, am, ae, bm, be)
  {
    if pt.s == us {
      pt.m := (am + bm) % TWO_32;
      pt.e := if am != 0 then ae else be;
      Normalize(pt);
    } else {
      if am >= bm {
        pt.m := am - bm;
      } else {
        pt.m := bm - am;
        pt.s := us;
      }
      if pt.m != 0 {
        pt.e := if am != 0 then ae else be;
        Normalize(pt);
      } else {
        pt.c := Zero;
        pt.s := 0;
      }
    }
  }

  /** The special-value half of flt_tmp_add. */
  method AddSpecial(pt: FltTmp, u: Tmp)
    requires !(pt.c == Normal && u.c == Normal)
    modifies pt
    ensures pt.Value() == SumSpecial(old(pt.Value()), u)
  {
    match pt.c {
      case Infinite =>
        if u.c == Infinite {
          if pt.s != u.s {
            pt.c := NaN;
          }
        } else if u.c == NaN {
          pt.c := u.c;
        }
      case Normal =>
        if u.c == Infinite {
          pt.s := u.s;
          pt.c := u.c;
        } else if u.c == NaN {
          pt.c := u.c;
        }
      case Zero =>
        if u.c == Infinite {
          pt.s := u.s;
          pt.c := u.c;
        } else if u.c == NaN {
          pt.c := u.c;
        } else if u.c == Normal {
          pt.c, pt.s, pt.m, pt.e := u.c, u.s, u.m, u.e;
        } else if u.c == Zero {
          pt.s := pt.s * u.s;
        }
      case _ =>
    }
  }

  // ----------------------------------------------------------------- multiply

  /** The 32-bit mantissa built from the four 16x16-bit partial products, in uint32 arithmetic. */
  function PartialProducts(tm: U32, um: U32): U32
  {
    var a1, a2 := tm / 0x1_0000, tm % 0x1_0000;
    var b1, b2 := um / 0x1_0000, um % 0x1_0000;
    ((a1 * b1 * 4) % TWO_32 + (a1 * b2) / 0x4000 + (a2 * b1) / 0x4000 + (a2 * b2) / TMP_1) % TWO_32
  }

  /**
   * For normalized mantissas the partial products never wrap and fall short
   * of the exact product (tm * um) / 2^30 by at most 2.
   */
  lemma PartialProductsBounds(tm: U32, um: U32)
    requires TMP_1 <= tm < TMP_2 && TMP_1 <= um < TMP_2
    ensures TMP_1 <= PartialProducts(tm, um)
    ensures PartialProducts(tm, um) <= (tm * um) / TMP_1 <= PartialProducts(tm, um) + 2
  {
    var a1, a2 := tm / 0x1_0000, tm % 0x1_0000;
    var b1, b2 := um / 0x1_0000, um % 0x1_0000;
    var p11, p12, p21, p22 := a1 * b1, a1 * b2, a2 * b1, a2 * b2;
    Expand(a1, a2, b1, b2);
    var x := tm * um;
    assert x == p11 * 0x1_0000_0000 + (p12 + p21) * 0x1_0000 + p22;
    HalfProductBounds(a1, a2, b1, b2);
    assert x < TMP_2 * TMP_2 by {
      MulLe(tm, TMP_2, um);
      MulLe(um, TMP_2, TMP_2);
    }
    Regroup(x, p11, p12, p21, p22);
  }

  lemma Expand(a1: int, a2: int, b1: int, b2: int)
    ensures (a1 * 0x1_0000 + a2) * (b1 * 0x1_0000 + b2)
         == a1 * b1 * 0x1_0000_0000 + (a1 * b2 + a2 * b1) * 0x1_0000 + a2 * b2
  {
  }

  /** Bounds on the four 16x16-bit partial products of two normalized mantissas. */
  lemma HalfProductBounds(a1: nat, a2: nat, b1: nat, b2: nat)
    requires 0x4000 <= a1 < 0x8000 && 0x4000 <= b1 < 0x8000 && a2 < 0x1_0000 && b2 < 0x1_0000
    ensures 0x1000_0000 <= a1 * b1 < 0x4000_0000
    ensures a1 * b2 < 0x8000_0000 && a2 * b1 < 0x8000_0000 && a2 * b2 < 0x1_0000_0000
  {
    MulLe(0x4000, a1, 0x4000);
    MulLe(0x4000, b1, a1);
    MulLe(a1, 0x8000, b1);
    MulLe(b1, 0x8000, 0x8000);
    MulLe(b2, 0x1_0000, a1);
    MulLe(a1, 0x8000, 0x1_0000);
    MulLe(a2, 0x1_0000, b1);
    MulLe(b1, 0x8000, 0x1_0000);
    MulLe(a2, 0x1_0000, b2);
    MulLe(b2, 0x1_0000, 0x1_0000);
  }

  /** The sum of the truncated partial products against the truncated exact product. */
  lemma Regroup(x: nat, p11: nat, p12: nat, p21: nat, p22: nat)
    requires x == p11 * 0x1_0000_0000 + (p12 + p21) * 0x1_0000 + p22
    requires 0x1000_0000 <= p11 < 0x4000_0000
    requires p12 < 0x8000_0000 && p21 < 0x8000_0000 && p22 < 0x1_0000_0000
    requires x < TMP_2 * TMP_2
    ensures var sum := ((p11 * 4) % TWO_32 + p12 / 0x4000 + p21 / 0x4000 + p22 / TMP_1) % TWO_32;
      TMP_1 <= sum && sum <= x / TMP_1 <= sum + 2
  {
    var t2, r2 := p12 / 0x4000, p12 % 0x4000;
    var t3, r3 := p21 / 0x4000, p21 % 0x4000;
    var t4, r4 := p22 / TMP_1, p22 % TMP_1;
    var sum := p11 * 4 + t2 + t3 + t4;
    var rest := (r2 + r3) * 0x1_0000 + r4;
    assert x == sum * TMP_1 + rest;
    assert sum < TWO_32;
    var q := if rest < TMP_1 then 0 else if rest < 2 * TMP_1 then 1 else 2;
    DivUnique(x, TMP_1, sum + q, rest - q * TMP_1);
  }

  /** Both operands Normal: XOR the signs, add the exponents, multiply the mantissas. */
  function ProductNormals(t: Tmp, u: Tmp): (r: Tmp)
    requires t.c == Normal && u.c == Normal
    ensures Wf(r)
  {
    Normalized(Tmp(Normal, Xor(t.s, u.s), PartialProducts(t.m, u.m), t.e + u.e))
  }

  /**
   * The special-value table of flt_tmp_multiply, with the sign of a product
   * of a Normal and a Zero taken as the XOR of the signs, as for every other
   * product (see ProductSpecialAsWritten).
   */
  function ProductSpecial(t: Tmp, u: Tmp): Tmp
  {
    match t.c
    case Infinite =>
      if u.c == Infinite || u.c == Normal then t.(s := Xor(t.s, u.s))
      else if u.c == NaN || u.c == Zero then t.(c := NaN)
      else t
    case Normal =>
      if u.c == Infinite || u.c == Zero then t.(s := Xor(t.s, u.s), c := u.c)
      else if u.c == NaN then t.(c := NaN)
      else t
    case Zero =>
      if u.c == Infinite || u.c == NaN then t.(c := NaN)
      else if u.c == Zero || u.c == Normal then t.(s := Xor(t.s, u.s))
      else t
    case _ => t
  }

  /**
   * The special-value table exactly as flt/flt-basic.c writes it: a Normal
   * times a Zero keeps the Normal's sign, and a Zero times a Normal keeps the
   * Zero's sign.
   */
  function ProductSpecialAsWritten(t: Tmp, u: Tmp): Tmp
  {
    match t.c
    case Infinite =>
      if u.c == Infinite || u.c == Normal then t.(s := Xor(t.s, u.s))
      else if u.c == NaN || u.c == Zero then t.(c := NaN)
      else t
    case Normal =>
      if u.c == Infinite then t.(s := Xor(t.s, u.s), c := u.c)
      else if u.c == NaN || u.c == Zero then t.(c := u.c)
      else t
    case Zero =>
      if u.c == Infinite || u.c == NaN then t.(c := NaN)
      else if u.c == Zero then t.(s := Xor(t.s, u.s))
      else t
    case _ => t
  }

  /** flt_tmp_multiply, with the signed-zero table corrected. */
  function Product(t: Tmp, u: Tmp): (r: Tmp)
    ensures Wf(t) && Wf(u) ==> Wf(r)
  {
    if t.c == Normal && u.c == Normal then ProductNormals(t, u) else ProductSpecial(t, u)
  }

  /** flt_tmp_multiply as written. */
  function ProductAsWritten(t: Tmp, u: Tmp): (r: Tmp)
    ensures Wf(t) && Wf(u) ==> Wf(r)
  {
    if t.c == Normal && u.c == Normal then ProductNormals(t, u) else ProductSpecialAsWritten(t, u)
  }

  /**
   * flt_tmp_multiply. When both arguments are the same object the operand is
   * copied first, so squaring in place is the product of the old value with
   * itself.
   */
  method Multiply(pt: FltTmp, pu: FltTmp)
    modifies pt
    ensures pt.Value() == Product(old(pt.Value()), old(pu.Value()))
  {
    var v := pu;
    if pu == pt {
      v := new FltTmp();
      FltInit.Copy(v, pu);
    }
    if pt.c == Normal && v.c == Normal {
      MultiplyNormals(pt, v);
    } else {
      MultiplySpecial(pt, v.Value());
    }
  }

  method MultiplyNormals(pt: FltTmp, pu: FltTmp)
    requires pt.c == Normal && pu.c == Normal && pt != pu
    modifies pt
    ensures pt.Value() == ProductNormals(old(pt.Value()), pu.Value())
  {
    ghost var t := pt.Value();
    pt.s := Xor(pt.s, pu.s);
    pt.e := pt.e + pu.e;
    var a1: U16, a2: U16 := pt.m / 0x1_0000, pt.m % 0x1_0000;
    var b1: U16, b2: U16 := pu.m / 0x1_0000, pu.m % 0x1_0000;
    var p11 := UintMultiply(a1, b1);
    var p12 := UintMultiply(a1, b2);
    var p21 := UintMultiply(a2, b1);
    var p22 := UintMultiply(a2, b2);
    pt.m := ((p11 * 4) % TWO_32 + p12 / 0x4000 + p21 / 0x4000 + p22 / TMP_1) % TWO_32;
    assert pt.m == PartialProducts(t.m, pu.m);
    assert pt.Value() == Tmp(Normal, Xor(t.s, pu.s), PartialProducts(t.m, pu.m), t.e + pu.e);
    Normalize(pt);
  }

  method MultiplySpecial(pt: FltTmp, u: Tmp)
    requires !(pt.c == Normal && u.c == Normal)
    modifies pt
    ensures pt.Value() == ProductSpecial(old(pt.Value()), u)
  {
    match pt.c {
      case Infinite =>
        if u.c == Infinite || u.c == Normal {
          pt.s := Xor(pt.s, u.s);
        } else if u.c == NaN || u.c == Zero {
          pt.c := NaN;
        }
      case Normal =>
        if u.c == Infinite || u.c == Zero {
          pt.s := Xor(pt.s, u.s);
          pt.c := u.c;
        } else if u.c == NaN {
          pt.c := u.c;
        }
      case Zero =>
        if u.c == Infinite || u.c == NaN {
          pt.c := NaN;
        } else if u.c == Zero || u.c == Normal {
          pt.s := Xor(pt.s, u.s);
        }
      case _ =>
    }
  }

  /**
   * flt_tmp_multiply exactly as flt/flt-basic.c writes it: the special-value
   * table is the one of ProductSpecialAsWritten.
   */
  method MultiplyAsWritten(pt: FltTmp, pu: FltTmp)
    modifies pt
    ensures pt.Value() == ProductAsWritten(old(pt.Value()), old(pu.Value()))
  {
    var v := pu;
    if pu == pt {
      v := new FltTmp();
      FltInit.Copy(v, pu);
    }
    if pt.c == Normal && v.c == Normal {
      MultiplyNormals(pt, v);
    } else {
      MultiplySpecialAsWritten(pt, v.Value());
    }
  }

  /**
   * The special-value switch as written: a Normal times an infinity falls
   * through from the sign flip into the class copy, and neither a Normal
   * times a Zero nor a Zero times a Normal touches the sign.
   */
  method MultiplySpecialAsWritten(pt: FltTmp, u: Tmp)
    requires !(pt.c == Normal && u.c == Normal)
    modifies pt
    ensures pt.Value() == ProductSpecialAsWritten(old(pt.Value()), u)
  {
    match pt.c {
      case Infinite =>
        if u.c == Infinite || u.c == Normal {
          pt.s := Xor(pt.s, u.s);
        } else if u.c == NaN || u.c == Zero {
          pt.c := NaN;
        }
      case Normal =>
        if u.c == Infinite {
          pt.s := Xor(pt.s, u.s);
        }
        if u.c == Infinite || u.c == NaN || u.c == Zero {
          pt.c := u.c;
        }
      case Zero =>
        if u.c == Infinite || u.c == NaN {
          pt.c := NaN;
        } else if u.c == Zero {
          pt.s := Xor(pt.s, u.s);
        }
      case _ =>
    }
  }

  /**
   * The written table and the corrected one differ exactly where a Normal
   * meets a Zero and the second operand is negative; there the written one
   * keeps the first operand's sign, and nothing else changes.
   */
  lemma ProductAsWrittenDiffers(t: Tmp, u: Tmp)
    ensures ProductAsWritten(t, u) != Product(t, u) <==>
      ((t.c == Normal && u.c == Zero) || (t.c == Zero && u.c == Normal)) && u.s == 1
    ensures ProductAsWritten(t, u) == Product(t, u).(s := ProductAsWritten(t, u).s)
    ensures ((t.c == Normal && u.c == Zero) || (t.c == Zero && u.c == Normal)) ==>
      ProductAsWritten(t, u).s == t.s && Product(t, u).s == Xor(t.s, u.s)
  {
  }

  /**
   * uint_multiply: shift-and-add over the 16 bits of b, most significant
   * first; `i & b` for the single-bit mask i is bit log2(i) of b.
   */
  method UintMultiply(a: U16, b: U16) returns (r: U32)
    ensures r == a * b
  {
    var result: nat := 0;
    var i: nat := 0x8000;
    Pow2Values();
    if a != 0 && b != 0 {
      ghost var k: nat := 16;
      while i != 0
        invariant k <= 16 && i == Pow2(k) / 2
        invariant result == a * (b / Pow2(k))
        decreases k
      {
        assert k >= 1;
        ghost var p := Pow2(k);
        assert p == 2 * i;
        result := result * 2;
        if (b / i) % 2 == 1 {
          result := result + a;
        }
        StepBit(a, b, i, result);
        i := i / 2;
        k := k - 1;
      }
      assert b / Pow2(0) == b;
    }
    assert result <= 0xFFFF * 0xFFFF by {
      MulLe(a, 0xFFFF, b);
      MulLe(b, 0xFFFF, 0xFFFF);
    }
    r := result;
  }

  /** One step of uint_multiply: result == a * (b / i) once bit log2(i) has been added. */
  lemma StepBit(a: nat, b: nat, i: nat, result: nat)
    requires i >= 1
    requires result == 2 * (a * (b / (2 * i))) + (if (b / i) % 2 == 1 then a else 0)
    ensures result == a * (b / i)
  {
    DivDiv(b, i, 2);
    assert b / (i * 2) == (b / i) / 2;
    var q := b / i;
    assert q == 2 * (q / 2) + q % 2;
    assert a * q == 2 * (a * (q / 2)) + a * (q % 2);
  }

  // ------------------------------------------------------------------- negate

  /** flt_tmp_negate flips the sign field and nothing else. */
  function Negated(t: Tmp): (r: Tmp)
  {
    t.(s := Xor(t.s, 1))
  }

  method Negate(pt: FltTmp)
    modifies pt
    ensures pt.Value() == Negated(old(pt.Value()))
  {
    pt.s := Xor(pt.s, 1);
  }

  // ------------------------------------------------------------------- invert

  /**
   * The division loop of flt_tmp_invert, n steps left: shift a quotient bit
   * in, subtract the divisor when it fits, halve the divisor.
   */
  function DivideSteps(q: nat, rem: nat, d: nat, n: nat): nat
    decreases n
  {
    if n == 0 then q
    else if rem >= d then DivideSteps(2 * q + 1, rem - d, d / 2, n - 1)
    else DivideSteps(2 * q, rem, d / 2, n - 1)
  }

  /** n more steps append exactly n bits to the quotient q. */
  lemma {:induction false} DivideStepsBounds(q: nat, rem: nat, d: nat, n: nat)
    ensures q * Pow2(n) <= DivideSteps(q, rem, d, n) < (q + 1) * Pow2(n)
    decreases n
  {
    if n > 0 {
      var b := if rem >= d then 1 else 0;
      DivideStepsBounds(2 * q + b, if rem >= d then rem - d else rem, d / 2, n - 1);
      BitBounds(q, b, Pow2(n - 1));
    }
  }

  lemma BitBounds(q: nat, b: nat, p: nat)
    requires b <= 1
    ensures q * (2 * p) <= (2 * q + b) * p
    ensures (2 * q + b + 1) * p <= (q + 1) * (2 * p)
  {
  }

  /**
   * The 30-bit quotient flt_tmp_invert computes for the mantissa m: below
   * 2^30, and at least 2^29 when m is normalized, since the first step
   * always subtracts.
   */
  function Quotient(m: U32): (q: U32)
    ensures q < TMP_1
    ensures m < TMP_2 ==> TMP_1 / 2 <= q
  {
    Pow2Values();
    DivideStepsBounds(0, TMP_2, m, 30);
    if m < TMP_2 then
      DivideStepsBounds(1, TMP_2 - m, m / 2, 29);
      DivideSteps(0, TMP_2, m, 30)
    else
      DivideSteps(0, TMP_2, m, 30)
  }

  /**
   * flt_tmp_invert. A Normal gets its exponent negated; a mantissa of
   * exactly 1.0 is then done, any other goes through 30 division steps of
   * 2^31 by the mantissa. Infinite and Zero swap, and NaN stays.
   */
  function Reciprocal(t: Tmp): (r: Tmp)
    ensures Wf(t) ==> Wf(r)
  {
    if t.c == Normal then
      if t.m == TMP_1 then t.(e := -t.e)
      else Normalized(Tmp(Normal, t.s, Quotient(t.m), -t.e))
    else if t.c == Infinite then t.(c := Zero)
    else if t.c == Zero then t.(c := Infinite)
    else t
  }

  method Invert(pt: FltTmp)
    modifies pt
    ensures pt.Value() == Reciprocal(old(pt.Value()))
  {
    if pt.c == Normal {
      InvertNormal(pt);
    } else {
      match pt.c {
        case Infinite =>
          pt.c := Zero;
        case Zero =>
          pt.c := Infinite;
        case _ =>
      }
    }
  }

  /** The Normal half of flt_tmp_invert. */
  method InvertNormal(pt: FltTmp)
    requires pt.c == Normal
    modifies pt
    ensures pt.Value() == Reciprocal(old(pt.Value()))
  {
    ghost var u := pt.Value();
    pt.e := -pt.e;
    if pt.m == TMP_1 {
      assert pt.Value() == u.(e := -u.e);
      return;
    }
    pt.m := LongDivide(pt.m);
    ghost var t := pt.Value();
    assert t == Tmp(Normal, u.s, Quotient(u.m), -u.e);
    Normalize(pt);
    assert pt.Value() == Normalized(t);
  }

  /** The binary long division loop of flt_tmp_invert: 30 quotient bits of 2^31 / mantissa. */
  method LongDivide(mantissa0: U32) returns (quotient: U32)
    ensures quotient == Quotient(mantissa0)
  {
    var i: nat := TMP_2_BITS;
    var remainder: nat := TMP_2;
    var mantissa: nat := mantissa0;
    var q: nat := 0;
    i := i - 1;
    while i != 0
      invariant i <= 30
      invariant DivideSteps(q, remainder, mantissa, i) == DivideSteps(0, TMP_2, mantissa0, 30)
      decreases i
    {
      q := q * 2;
      if remainder >= mantissa {
        q := q + 1;
        remainder := remainder - mantissa;
      }
      mantissa := mantissa / 2;
      i := i - 1;
    }
    assert q == DivideSteps(q, remainder, mantissa, 0) == Quotient(mantissa0);
    quotient := q;
  }

  // ------------------------------------------------------------------- lemmas

  /** Normalizing twice changes nothing. */
  lemma NormalizedIdempotent(t: Tmp)
    requires t.c != Subnormal
    ensures Normalized(Normalized(t)) == Normalized(t)
  {
  }

  /** Addition commutes up to the fields a class does not use. */
  lemma SumCommutes(t: Tmp, u: Tmp)
    requires Wf(t) && Wf(u)
    ensures Equivalent(Sum(t, u), Sum(u, t))
  {
    if t.c == Normal && u.c == Normal {
      if t.e >= u.e {
        SumNormalsSwap(t, u);
      } else {
        SumNormalsSwap(u, t);
      }
    }
  }

  lemma SumNormalsSwap(t: Tmp, u: Tmp)
    requires Wf(t) && Wf(u) && t.c == Normal && u.c == Normal && t.e >= u.e
    ensures Equivalent(SumNormals(t, u), SumNormals(u, t))
  {
    var (bm, be) := Align(u.m, u.e, t.e);
    assert Align(t.m, t.e, be) == (t.m, t.e);
    assert Align(t.m, t.e, u.e) == (t.m, t.e);
    assert SumNormals(t, u) == Combine(t, u.s, t.m, t.e, bm, be);
    assert SumNormals(u, t) == Combine(u, t.s, bm, be, t.m, t.e);
  }

  /** A Zero is the identity of addition for Normal operands, on either side. */
  lemma SumZero(t: Tmp, z: Tmp)
    requires t.c == Normal && z.c == Zero
    ensures Sum(t, z) == t && Sum(z, t) == t
  {
  }

  /** x + (-x) is +0 for every finite x, and NaN for an infinity. */
  lemma SumNegated(t: Tmp)
    requires Wf(t)
    ensures t.c == Normal || t.c == Zero ==> Sum(t, Negated(t)).c == Zero && Sum(t, Negated(t)).s == 0
    ensures t.c == Infinite || t.c == NaN ==> Sum(t, Negated(t)).c == NaN
  {
    if t.c == Normal {
      assert Align(t.m, t.e, t.e) == (t.m, t.e);
    }
  }

  /** Negation is an involution. */
  lemma NegatedTwice(t: Tmp)
    ensures Negated(Negated(t)) == t
  {
  }

  /** Multiplication by the working value 1.0 (mantissa 2^30, exponent 0) is exact. */
  lemma ProductByOne(t: Tmp)
    requires Wf(t) && t.c == Normal
    ensures Product(t, Tmp(Normal, 0, TMP_1, 0)) == t
    ensures Product(Tmp(Normal, 0, TMP_1, 0), t) == t
  {
    var a1, a2 := t.m / 0x1_0000, t.m % 0x1_0000;
    assert PartialProducts(t.m, TMP_1) == t.m by {
      assert (a1 * 0x4000 * 4) % TWO_32 == a1 * 0x1_0000;
      assert (a2 * 0x4000) / 0x4000 == a2;
    }
    assert PartialProducts(TMP_1, t.m) == t.m by {
      assert (0x4000 * a1 * 4) % TWO_32 == a1 * 0x1_0000;
      assert (0x4000 * a2) / 0x4000 == a2;
    }
  }

  /** Both argument orders of the partial-product sum agree. */
  lemma PartialProductsCommute(tm: U32, um: U32)
    ensures PartialProducts(tm, um) == PartialProducts(um, tm)
  {
    var a1, a2 := tm / 0x1_0000, tm % 0x1_0000;
    var b1, b2 := um / 0x1_0000, um % 0x1_0000;
    assert a1 * b1 == b1 * a1 && a1 * b2 == b2 * a1 && a2 * b1 == b1 * a2 && a2 * b2 == b2 * a2;
  }

  /** The corrected multiplication commutes up to the fields a class does not use. */
  lemma ProductCommutes(t: Tmp, u: Tmp)
    requires Wf(t) && Wf(u)
    ensures Equivalent(Product(t, u), Product(u, t))
  {
    if t.c == Normal && u.c == Normal {
      PartialProductsCommute(t.m, u.m);
    }
  }

  /** The product of two Normal values is Normal: the mantissa product never vanishes. */
  lemma NormalProduct(t: Tmp, u: Tmp)
    requires Wf(t) && Wf(u) && t.c == Normal && u.c == Normal
    ensures Product(t, u).c == Normal
  {
    ProductOfNormals(t, u);
  }

  /**
   * The product of two normalized mantissas: the sign is the XOR of the
   * signs, the exponent the sum of the exponents or one more, and the
   * mantissa the truncated exact product (at most 2 units short) or half of it.
   */
  lemma ProductOfNormals(t: Tmp, u: Tmp)
    requires Wf(t) && Wf(u) && t.c == Normal && u.c == Normal
    ensures var r := Product(t, u); var p := PartialProducts(t.m, u.m);
      r.c == Normal && r.s == Xor(t.s, u.s) && TMP_1 <= p < TWO_32 &&
      (p < TMP_2 ==> r.m == p && r.e == t.e + u.e) &&
      (p >= TMP_2 ==> r.m == p / 2 && r.e == t.e + u.e + 1)
    ensures PartialProducts(t.m, u.m) <= (t.m * u.m) / TMP_1 <= PartialProducts(t.m, u.m) + 2
  {
    PartialProductsBounds(t.m, u.m);
    var p := PartialProducts(t.m, u.m);
    if p >= TMP_2 {
      assert ShiftUp(p, t.e + u.e) == (p, t.e + u.e);
      assert ShiftDown(p / 2, t.e + u.e + 1) == (p / 2, t.e + u.e + 1);
    }
  }

  /** A mantissa of exactly 1.0 inverts exactly, so inverting twice restores it. */
  lemma ReciprocalOfPowerOfTwo(t: Tmp)
    requires t.c == Normal && t.m == TMP_1
    ensures Reciprocal(t) == t.(e := -t.e)
    ensures Reciprocal(Reciprocal(t)) == t
  {
  }

  /**
   * Any other normalized mantissa: the exponent becomes -e - 1 and the
   * mantissa twice the 30-bit quotient of 2^31 by m, sign kept.
   */
  lemma ReciprocalOfNormal(t: Tmp)
    requires Wf(t) && t.c == Normal && t.m != TMP_1
    ensures Reciprocal(t) == Tmp(Normal, t.s, 2 * Quotient(t.m), -t.e - 1)
  {
    var q := Quotient(t.m);
    assert ShiftUp(q, -t.e) == ShiftUp(2 * q, -t.e - 1) == (2 * q, -t.e - 1);
  }

  /** Infinity and zero swap under inversion; NaN stays. */
  lemma ReciprocalSpecial(t: Tmp)
    requires t.c != Normal
    ensures t.c == Infinite ==> Reciprocal(t) == t.(c := Zero)
    ensures t.c == Zero ==> Reciprocal(t) == t.(c := Infinite)
    ensures t.c == NaN ==> Reciprocal(t) == t
  {
  }

  /** Adding two Normals of the same sign never cancels: the sum is Normal with that sign. */
  lemma SumSameSign(t: Tmp, u: Tmp)
    requires Wf(t) && Wf(u) && t.c == Normal && u.c == Normal && t.s == u.s
    ensures Sum(t, u).c == Normal && Sum(t, u).s == t.s
  {
    var (bm, be) := Align(u.m, u.e, t.e);
    var (am, ae) := Align(t.m, t.e, be);
    if u.e <= t.e {
      assert (am, ae) == (t.m, t.e);
    } else {
      assert (bm, be) == (u.m, u.e);
    }
    assert 0 < am + bm < TWO_32;
  }

  /**
   * Adding Normals of opposite signs where u is the larger in magnitude
   * (a larger exponent, or the same exponent and a larger mantissa) gives a
   * Normal with the sign of u.
   */
  lemma SumLarger(t: Tmp, u: Tmp)
    requires Wf(t) && Wf(u) && t.c == Normal && u.c == Normal && t.s != u.s
    requires u.e > t.e || (u.e == t.e && u.m > t.m)
    ensures Sum(t, u).c == Normal && Sum(t, u).s == u.s
  {
    var (bm, be) := Align(u.m, u.e, t.e);
    assert (bm, be) == (u.m, u.e);
    var (am, ae) := Align(t.m, t.e, be);
    if u.e > t.e {
      Pow2Monotone(1, u.e - t.e);
      DivAntitone(t.m, 2, Pow2(u.e - t.e));
      assert am < bm;
    } else {
      assert (am, ae) == (t.m, t.e);
    }
  }

  /** The mirror image of SumLarger: the larger first operand decides the sign. */
  lemma SumSmaller(t: Tmp, u: Tmp)
    requires Wf(t) && Wf(u) && t.c == Normal && u.c == Normal && t.s != u.s
    requires t.e > u.e || (t.e == u.e && t.m > u.m)
    ensures Sum(t, u).c == Normal && Sum(t, u).s == t.s
  {
    SumLarger(u, t);
    SumCommutes(u, t);
  }

  /**
   * The right operand of a product is read only through the fields its
   * class uses: equivalent right operands give the same product.
   */
  lemma ProductRightEquivalent(t: Tmp, u: Tmp, u': Tmp)
    requires Equivalent(u, u')
    ensures Product(t, u) == Product(t, u')
  {
    if t.c == Normal && u.c == Normal {
      assert u == u';
    }
  }

  /** Equivalent left operands give equivalent products. */
  lemma ProductLeftEquivalent(t: Tmp, t': Tmp, u: Tmp)
    requires Equivalent(t, t')
    ensures Equivalent(Product(t, u), Product(t', u))
  {
    if t.c == Normal {
      assert t == t';
    }
  }

  /** Equivalent values have equivalent reciprocals. */
  lemma ReciprocalEquivalent(t: Tmp, t': Tmp)
    requires Equivalent(t, t')
    ensures Equivalent(Reciprocal(t), Reciprocal(t'))
  {
    if t.c == Normal {
      assert t == t';
    }
  }

  /** Sums and products of finite values (Normal or Zero) are finite. */
  lemma FiniteClosed(t: Tmp, u: Tmp)
    requires (t.c == Normal || t.c == Zero) && (u.c == Normal || u.c == Zero)
    ensures Sum(t, u).c == Normal || Sum(t, u).c == Zero
    ensures Product(t, u).c == Normal || Product(t, u).c == Zero
  {
  }

  /** A Normal whose mantissa lies in [2^31, 2^32) normalizes by one halving. */
  lemma NormalizedOfDouble(n: Tmp)
    requires n.c == Normal && TMP_2 <= n.m < TWO_32
    ensures Normalized(n) == n.(m := n.m / 2, e := n.e + 1)
  {
    assert ShiftUp(n.m, n.e) == (n.m, n.e);
    assert ShiftDown(n.m / 2, n.e + 1) == (n.m / 2, n.e + 1);
  }

  /** A value that is already normalized is left alone. */
  lemma NormalizedFixed(t: Tmp)
    requires Wf(t)
    ensures Normalized(t) == t
  {
  }

  /** Same-sign addition without a carry out of 31 bits needs no renormalization. */
  lemma CombineNoCarry(t: Tmp, us: Bit, am: U32, ae: int, bm: U32, be: int)
    requires t.s == us && am != 0 && TMP_1 <= am + bm < TMP_2
    ensures Combine(t, us, am, ae, bm, be) == Tmp(Normal, t.s, am + bm, ae)
  {
    NormalizedFixed(Tmp(Normal, t.s, am + bm, ae));
  }

  /**
   * Normalizing F * 2^j at exponent e - j gives the same working value as
   * normalizing F at exponent e: both stand for F * 2^(e - 30).
   */
  lemma NormalizedScaled(s: Bit, F: nat, j: nat, e: int)
    requires 0 < F && F * Pow2(j) < TMP_2
    ensures Normalized(Tmp(Normal, s, F * Pow2(j), e - j)) == Normalized(Tmp(Normal, s, F, e))
  {
    var G := F * Pow2(j);
    ScaledPositive(F, j);
    ShiftUpScaled(F, j, e);
    NormalizedByShiftUp(Tmp(Normal, s, G, e - j), Tmp(Normal, s, F, e));
  }

  /** A positive number doubled j times is still positive. */
  lemma ScaledPositive(F: nat, j: nat)
    requires 0 < F
    ensures 0 < F * Pow2(j)
  {
  }

  /** Two Normals of the same sign whose doubling loops end in the same place normalize alike. */
  lemma NormalizedByShiftUp(t: Tmp, u: Tmp)
    requires t.c == Normal && u.c == Normal && t.s == u.s && t.m != 0 && u.m != 0
    requires ShiftUp(t.m, t.e) == ShiftUp(u.m, u.e)
    ensures Normalized(t) == Normalized(u)
  {
  }

  /**
   * The doubling loop of flt_tmp_normalize reaches the same place from F at
   * e as from F * 2^j at e - j, as long as F * 2^j is below 2^31.
   */
  lemma {:induction false} ShiftUpScaled(F: nat, j: nat, e: int)
    requires 0 < F && F * Pow2(j) < TMP_2
    ensures ShiftUp(F, e) == ShiftUp(F * Pow2(j), e - j)
    decreases j
  {
    if j > 0 {
      DoubleScaled(F, j);
      assert F < TMP_1;
      ShiftUpScaled(2 * F, j - 1, e - 1);
    }
  }

  /** F * 2^j == (2F) * 2^(j-1), and so 2F is at most F * 2^j. */
  lemma DoubleScaled(F: nat, j: nat)
    requires j > 0
    ensures F * Pow2(j) == (2 * F) * Pow2(j - 1) && 2 * F <= F * Pow2(j)
  {
    assert Pow2(j) == 2 * Pow2(j - 1);
    MulLe(1, Pow2(j - 1), 2 * F);
  }
}
