/**
 * flt/flt-io.c, reading: flt_atof, a character-driven state machine that
 * accumulates digits into a working value and scales the result by a power
 * of ten built from a fixed set of steps, and the constants the text layer
 * shares with the formatter.
 */
module FltAtof {
  import opened FltTypes
  import opened FltClassify
  import opened FltConvert
  import FltInit
  import FltBasic
  import FltSqrt
  import FltArith
  import FltTrig

  // ------------------------------------------------------------ characters

  /** isdigit */
  predicate IsDigit(ch: char) {
    '0' <= ch <= '9'
  }

  /** isspace in the C locale: space, tab, line feed, vertical tab, form feed, carriage return. */
  predicate IsSpace(ch: char) {
    ch == ' ' || ch == '\t' || ch == '\n' || ch == '\U{000B}' || ch == '\U{000C}' || ch == '\r'
  }

  /** tolower in the C locale: only A to Z change. */
  function ToLower(ch: char): (r: char)
    ensures 'A' <= ch <= 'Z' ==> 'a' <= r <= 'z' && r as int - ch as int == 32
    ensures !('A' <= ch <= 'Z') ==> r == ch
  {
    if 'A' <= ch <= 'Z' then (ch as int + 32) as char else ch
  }

  /** The character at i of a NUL-terminated string held without its terminator: '\0' from the end on. */
  function CharAt(s: string, i: nat): char {
    if i < |s| then s[i] else '\0'
  }

  // -------------------------------------------------------------- constants

  /** k1, k2, k3, k5, k10, k100, k1e3, k1e5 and k1e8: the integers converted by flt_ltof and unpacked. */
  const K1: Tmp := Tmp(Normal, 0, TMP_1, 0)
  const K2: Tmp := Tmp(Normal, 0, TMP_1, 1)
  const K3: Tmp := Tmp(Normal, 0, 0x6000_0000, 1)
  const K5: Tmp := Tmp(Normal, 0, 0x5000_0000, 2)
  const K10: Tmp := Tmp(Normal, 0, 0x5000_0000, 3)
  const K100: Tmp := Tmp(Normal, 0, 0x6400_0000, 6)
  const K1E3: Tmp := Tmp(Normal, 0, 0x7D00_0000, 9)
  const K1E5: Tmp := Tmp(Normal, 0, 0x61A8_0000, 16)
  const K1E8: Tmp := Tmp(Normal, 0, 0x5F5E_1000, 26)

  /** k1en1, k1en2, k1en3, k1en5, k1en8 and k5en1: flt_tmp_invert applied to 10, 100, 1e3, 1e5, 1e8 and 2. */
  const K1EN1: Tmp := FltBasic.Reciprocal(K10)
  const K1EN2: Tmp := FltBasic.Reciprocal(K100)
  const K1EN3: Tmp := FltBasic.Reciprocal(K1E3)
  const K1EN5: Tmp := FltBasic.Reciprocal(K1E5)
  const K1EN8: Tmp := FltBasic.Reciprocal(K1E8)
  const K5EN1: Tmp := FltBasic.Reciprocal(K2)

  /**
   * The constants flt_tmp_prepare_constants builds from flt_ltof are the
   * exact integers: a * 2^j at exponent 30 - j.
   */
  lemma PreparedConstants()
    ensures Unpacked(Ltof(1)) == K1 && Unpacked(Ltof(2)) == K2 && Unpacked(Ltof(3)) == K3
    ensures Unpacked(Ltof(5)) == K5 && Unpacked(Ltof(10)) == K10 && Unpacked(Ltof(100)) == K100
    ensures Unpacked(Ltof(1000)) == K1E3 && Unpacked(Ltof(100000)) == K1E5
    ensures Unpacked(Ltof(100000000)) == K1E8
  {
    PreparedSmall();
    PreparedTens(5, 10, 100);
    PreparedPowers();
    LtofLarge();
  }

  /** k1, k2 and k3. */
  lemma PreparedSmall()
    ensures Unpacked(Ltof(1)) == K1 && Unpacked(Ltof(2)) == K2 && Unpacked(Ltof(3)) == K3
  {
    Pow2Values();
    assert Pow2(29) == 0x2000_0000;
    ConvertedInteger(1, 30);
    ConvertedInteger(2, 29);
    ConvertedInteger(3, 29);
  }

  /** k5, k10 and k100. */
  lemma PreparedTens(five: I32, ten: I32, hundred: I32)
    requires five == 5 && ten == 10 && hundred == 100
    ensures Unpacked(Ltof(five)) == K5 && Unpacked(Ltof(ten)) == K10 && Unpacked(Ltof(hundred)) == K100
  {
    Pow2Values();
    Pow2Add(24, 4);
    Pow2Add(24, 3);
    assert Pow2(3) == 8 && Pow2(4) == 16;
    ConvertedInteger(five, 28);
    ConvertedInteger(ten, 27);
    ConvertedInteger(hundred, 24);
  }

  /** k1e3 and k1e5. */
  lemma PreparedPowers()
    ensures Unpacked(Ltof(1000)) == K1E3 && Unpacked(Ltof(100000)) == K1E5
  {
    Pow2Values();
    Pow2Add(14, 7);
    ConvertedInteger(1000, 21);
    ConvertedInteger(100000, 14);
  }

  /** A positive integer below 2^24 whose shifted form a * 2^j is normalized converts to exactly that. */
  lemma ConvertedInteger(a: I32, j: nat)
    requires 0 < a < 0x100_0000 && TMP_1 <= a * Pow2(j) < TMP_2
    ensures Unpacked(Ltof(a)) == Tmp(Normal, 0, a * Pow2(j), TMP_1_BITS - j)
  {
    MulLe(1, Pow2(j), a);
    LtofExact(a);
    FltBasic.NormalizedScaled(0, a, j, TMP_1_BITS);
    FltBasic.NormalizedFixed(Tmp(Normal, 0, a * Pow2(j), TMP_1_BITS - j));
  }

  /** 1e8 has 27 significant bits but only 19 of them set: it converts exactly. */
  lemma LtofLarge()
    ensures Unpacked(Ltof(100000000)) == K1E8
  {
    Pow2Values();
    assert Pow2(4) == 16;
    FltBasic.NormalizedScaled(0, 100000000, 4, TMP_1_BITS);
    FltBasic.NormalizedFixed(K1E8);
    assert LtofTmp(100000000) == K1E8;
    PackExact(K1E8);
  }

  /**
   * The inverted constants are positive Normals one binary place below the
   * negated exponent of what was inverted; one half is exact.
   */
  lemma ReciprocalConstants()
    ensures PosNormal(K1EN1) && K1EN1.e == -4 && PosNormal(K1EN2) && K1EN2.e == -7
    ensures PosNormal(K1EN3) && K1EN3.e == -10 && PosNormal(K1EN5) && K1EN5.e == -17
    ensures PosNormal(K1EN8) && K1EN8.e == -27 && K5EN1 == Tmp(Normal, 0, TMP_1, -1)
  {
    FltBasic.ReciprocalOfNormal(K10);
    FltBasic.ReciprocalOfNormal(K100);
    FltBasic.ReciprocalOfNormal(K1E3);
    FltBasic.ReciprocalOfNormal(K1E5);
    FltBasic.ReciprocalOfNormal(K1E8);
  }

  // -------------------------------------------------------------- scanning

  /** E_MODE */
  datatype Mode = Begin | Integer | Fraction | Exponent

  /**
   * The variables of the flt_atof loop: the mode, can_continue, the decimal
   * exponent and the two sign flags, the accumulator t and the place value v
   * of the next fraction digit.
   */
  datatype Scan = Scan(mode: Mode, go: bool, exponent: int, msign: Bit, esign: Bit, t: Tmp, v: Tmp)

  const START: Scan := Scan(Begin, true, 0, 0, 0, Tmp(Zero, 0, 0, 0), K1)

  /**
   * What the loop keeps: t is finite and non-negative while scanning goes
   * on, an infinity carries the mantissa sign, and v is a positive Normal.
   */
  predicate Inv(st: Scan) {
    Wf(st.t) && PosNormal(st.v) &&
    (st.t.c == Normal || st.t.c == Zero ==> st.t.s == 0) &&
    (st.t.c == Infinite ==> st.t.s == st.msign) &&
    (st.go ==> st.t.c == Normal || st.t.c == Zero)
  }

  /** A nonzero digit d as a working value: d at exponent 30, normalized. */
  function DigitTmp(d: int): (r: Tmp)
    requires 1 <= d <= 9
    ensures PosNormal(r)
  {
    FltBasic.Normalized(Tmp(Normal, 0, d, TMP_1_BITS))
  }

  /** An integer digit: t becomes t * 10 + d. */
  function IntegerDigit(st: Scan, d: int): (r: Scan)
    requires Inv(st) && st.go && 0 <= d <= 9
    ensures Inv(r) && r.go && r.mode == st.mode && r.v == st.v
  {
    var t := FltBasic.Product(st.t, K10);
    ProductKeepsSign(st.t, K10);
    if d > 0 then
      SumOfNonNegatives(t, DigitTmp(d));
      st.(t := FltBasic.Sum(t, DigitTmp(d)))
    else st.(t := t)
  }

  /** A fraction digit: v becomes v / 10 and t becomes t + d * v. */
  function FractionDigit(st: Scan, d: int): (r: Scan)
    requires Inv(st) && st.go && 0 <= d <= 9
    ensures Inv(r) && r.go && r.mode == st.mode
  {
    var v := FltBasic.Product(st.v, K1EN1);
    FltSqrt.ProductPositive(st.v, K1EN1);
    if d > 0 then
      FltSqrt.ProductPositive(DigitTmp(d), v);
      SumOfNonNegatives(st.t, FltBasic.Product(DigitTmp(d), v));
      st.(v := v, t := FltBasic.Sum(st.t, FltBasic.Product(DigitTmp(d), v)))
    else st.(v := v)
  }

  /** A digit: the first one starts the integer part; in the exponent it is accumulated in decimal. */
  function DigitStep(st: Scan, d: int): (r: Scan)
    requires Inv(st) && st.go && 0 <= d <= 9
    ensures Inv(r) && r.go && r.msign == st.msign && r.esign == st.esign
  {
    match st.mode
    case Begin => IntegerDigit(st.(mode := Integer), d)
    case Integer => IntegerDigit(st, d)
    case Fraction => FractionDigit(st, d)
    case Exponent => st.(exponent := 10 * st.exponent + d)
  }

  /** One pass of the flt_atof loop body on the character at i. */
  function Step(s: string, i: nat, st: Scan): (r: Scan)
    requires i < |s| && Inv(st) && st.go
    ensures Inv(r)
  {
    var ch := ToLower(s[i]);
    if ch == '+' then
      if st.mode == Integer || st.mode == Fraction then st.(go := false) else st
    else if ch == '-' then
      match st.mode
      case Begin => st.(msign := Xor(st.msign, 1))
      case Exponent => if !(i > 0 && IsDigit(s[i - 1])) then st.(esign := Xor(st.esign, 1)) else st.(go := false)
      case _ => st.(go := false)
    else if ch == '.' then
      if st.mode == Begin || st.mode == Integer then st.(mode := Fraction) else st.(go := false)
    else if ch == 'e' then
      if st.mode == Integer || st.mode == Fraction then st.(mode := Exponent) else st.(go := false)
    else if ch == 'i' then
      if st.mode == Begin && ToLower(CharAt(s, i + 1)) == 'n' && ToLower(CharAt(s, i + 2)) == 'f' then
        st.(t := Tmp(Infinite, st.msign, 0, 0), go := false)
      else st.(go := false)
    else if ch == 'n' then
      if st.mode == Begin && ToLower(CharAt(s, i + 1)) == 'a' && ToLower(CharAt(s, i + 2)) == 'n' then
        st.(t := Tmp(NaN, 0, 0, 0), go := false)
      else st.(go := false)
    else if IsDigit(s[i]) then DigitStep(st, s[i] as int - '0' as int)
    else if IsSpace(s[i]) then
      if st.mode == Begin then st else st.(go := false)
    else if st.mode == Begin then st.(t := Tmp(NaN, 0, 0, 0), go := false)
    else st.(go := false)
  }

  /** The loop from character i on: it stops at the terminator or when a step clears go. */
  function ScanFrom(s: string, i: nat, st: Scan): (r: Scan)
    requires i <= |s| && Inv(st)
    ensures Inv(r)
    decreases |s| - i
  {
    if !st.go || i == |s| || s[i] == '\0' then st else ScanFrom(s, i + 1, Step(s, i, st))
  }

  // ---------------------------------------------------------------- scaling

  /**
   * w scaled by 10^n the way flt_atof does it: by 1e-8 while n is negative,
   * by 1e8 while it is at least 8, then by 1e5, 1e3, 100 and 10 for what
   * is left, largest first and each at most once.
   */
  function Scale(w: Tmp, n: int): (r: Tmp)
    requires PosNormal(w)
    ensures PosNormal(r)
    decreases if n < 0 then 8 - n else n
  {
    if n < 0 then
      FltSqrt.ProductPositive(w, K1EN8);
      Scale(FltBasic.Product(w, K1EN8), n + 8)
    else if n >= 8 then
      FltSqrt.ProductPositive(w, K1E8);
      Scale(FltBasic.Product(w, K1E8), n - 8)
    else SmallScaled(w, n)
  }

  /** The four steps for an exponent left in [0, 8). */
  function SmallScaled(w: Tmp, n: int): (r: Tmp)
    requires PosNormal(w) && 0 <= n < 8
    ensures PosNormal(r)
    decreases n
  {
    if n >= 5 then
      FltSqrt.ProductPositive(w, K1E5);
      SmallScaled(FltBasic.Product(w, K1E5), n - 5)
    else if n >= 3 then
      FltSqrt.ProductPositive(w, K1E3);
      SmallScaled(FltBasic.Product(w, K1E3), n - 3)
    else if n >= 2 then
      FltSqrt.ProductPositive(w, K100);
      SmallScaled(FltBasic.Product(w, K100), n - 2)
    else if n == 1 then
      FltSqrt.ProductPositive(w, K10);
      FltBasic.Product(w, K10)
    else w
  }

  /** 10^n in the working arithmetic, as flt_atof builds it in w. */
  function Factor(n: int): (r: Tmp)
    ensures PosNormal(r)
  {
    Scale(K1, n)
  }

  /**
   * After the loop: NaN as it is; otherwise the mantissa sign is applied
   * (to a zero and an infinity as well) and a Normal is scaled by 10^exponent.
   */
  function Finish(st: Scan): (r: Flt)
    requires Inv(st)
  {
    Packed(Outcome(st))
  }

  /** The value that is packed: NaN as scanned, else the signed mantissa, times 10^exponent when Normal. */
  function Outcome(st: Scan): (y: Tmp)
    requires Inv(st)
    ensures Wf(y) && (y.c == NaN <==> st.t.c == NaN)
  {
    if st.t.c == NaN then st.t
    else
      var t := if st.msign == 1 then st.t.(s := 1) else st.t;
      if t.c == Normal then
        var n := if st.esign == 1 then -st.exponent else st.exponent;
        FltBasic.NormalProduct(t, Factor(n));
        FltBasic.Product(t, Factor(n))
      else t
  }

  /** flt_atof */
  function Atof(s: string): (r: Flt)
    ensures IsNaN(r) <==> ScanFrom(s, 0, START).t.c == NaN
    ensures !IsNaN(r) ==> SignField(r) == ScanFrom(s, 0, START).msign
  {
    var st := ScanFrom(s, 0, START);
    FinishSign(st);
    Finish(st)
  }

  // ----------------------------------------------------------- the methods

  /** flt_tmp_multiply by one of the shared constants. */
  method MultiplyBy(pt: FltTmp, x: Tmp)
    modifies pt
    ensures pt.Value() == FltBasic.Product(old(pt.Value()), x)
  {
    var k := new FltTmp();
    FltInit.Initialize(k, x.c, x.s, x.m, x.e);
    FltBasic.Multiply(pt, k);
  }

  /** The loop body of flt_atof on its local variables, for the character at i. */
  method ScanCharacter(s: string, i: nat, mode0: Mode, exponent0: int, msign0: Bit, esign0: Bit,
                       t: FltTmp, u: FltTmp, v: FltTmp)
    returns (mode: Mode, go: bool, exponent: int, msign: Bit, esign: Bit)
    requires i < |s| && t != v && Inv(Scan(mode0, true, exponent0, msign0, esign0, t.Value(), v.Value()))
    requires u != t && u != v
    modifies t, u, v
    ensures Scan(mode, go, exponent, msign, esign, t.Value(), v.Value())
            == Step(s, i, Scan(mode0, true, exponent0, msign0, esign0, old(t.Value()), old(v.Value())))
  {
    ghost var st := Scan(mode0, true, exponent0, msign0, esign0, t.Value(), v.Value());
    mode, go, exponent, msign, esign := mode0, true, exponent0, msign0, esign0;
    var ch := ToLower(s[i]);
    if ch == '+' {
      if mode == Integer || mode == Fraction {
        go := false;
      }
    } else if ch == '-' {
      if mode == Begin {
        msign := Xor(msign, 1);
      } else if mode == Exponent {
        if !(i > 0 && IsDigit(s[i - 1])) {
          esign := Xor(esign, 1);
        } else {
          go := false;
        }
      } else {
        go := false;
      }
    } else if ch == '.' {
      if mode == Begin || mode == Integer {
        mode := Fraction;
      } else {
        go := false;
      }
    } else if ch == 'e' {
      if mode == Integer || mode == Fraction {
        mode := Exponent;
      } else {
        go := false;
      }
    } else if ch == 'i' {
      if mode == Begin && ToLower(CharAt(s, i + 1)) == 'n' && ToLower(CharAt(s, i + 2)) == 'f' {
        FltInit.Initialize(t, Infinite, msign, 0, 0);
      }
      go := false;
    } else if ch == 'n' {
      if mode == Begin && ToLower(CharAt(s, i + 1)) == 'a' && ToLower(CharAt(s, i + 2)) == 'n' {
        FltInit.Initialize(t, NaN, 0, 0, 0);
      }
      go := false;
    } else if IsDigit(s[i]) {
      var d := s[i] as int - '0' as int;
      if mode == Begin || mode == Integer {
        mode := Integer;
        MultiplyBy(t, K10);
        if d > 0 {
          FltInit.Initialize(u, Normal, 0, d, TMP_1_BITS);
          FltBasic.Normalize(u);
          FltBasic.Add(t, u.Value());
        }
      } else if mode == Fraction {
        MultiplyBy(v, K1EN1);
        if d > 0 {
          FltInit.Initialize(u, Normal, 0, d, TMP_1_BITS);
          FltBasic.Normalize(u);
          FltBasic.Multiply(u, v);
          FltBasic.Add(t, u.Value());
        }
      } else {
        exponent := 10 * exponent + d;
      }
    } else if IsSpace(s[i]) {
      if mode != Begin {
        go := false;
      }
    } else {
      if mode == Begin {
        FltInit.Initialize(t, NaN, 0, 0, 0);
      }
      go := false;
    }
  }

  /**
   * The scaling loops of flt_atof on w: exponent is driven to 0 by steps
   * of -8, then 8, then 5, 3, 2 and 1, multiplying w by the matching power
   * of ten at each step.
   */
  method DecimalScale(w: FltTmp, exponent0: int) returns (exponent: int)
    requires PosNormal(w.Value())
    modifies w
    ensures exponent == 0
    ensures w.Value() == Scale(old(w.Value()), exponent0)
  {
    ghost var goal := Scale(w.Value(), exponent0);
    exponent := exponent0;
    while exponent < 0
      invariant PosNormal(w.Value()) && Scale(w.Value(), exponent) == goal
      decreases -exponent
    {
      ScaleStep(w.Value(), exponent, K1EN8);
      MultiplyBy(w, K1EN8);
      exponent := exponent + 8;
    }
    while exponent >= 8
      invariant PosNormal(w.Value()) && Scale(w.Value(), exponent) == goal && exponent >= 0
      decreases exponent
    {
      ScaleStep(w.Value(), exponent, K1E8);
      MultiplyBy(w, K1E8);
      exponent := exponent - 8;
    }
    exponent := SmallDecimalScale(w, exponent);
  }

  /** The last four steps of the flt_atof scaling, for an exponent left in [0, 8). */
  method SmallDecimalScale(w: FltTmp, exponent0: int) returns (exponent: int)
    requires PosNormal(w.Value()) && 0 <= exponent0 < 8
    modifies w
    ensures exponent == 0
    ensures w.Value() == SmallScaled(old(w.Value()), exponent0)
  {
    ghost var goal := SmallScaled(w.Value(), exponent0);
    exponent := exponent0;
    if exponent >= 5 {
      FltSqrt.ProductPositive(w.Value(), K1E5);
      MultiplyBy(w, K1E5);
      exponent := exponent - 5;
    }
    assert SmallScaled(w.Value(), exponent) == goal;
    if exponent >= 3 {
      FltSqrt.ProductPositive(w.Value(), K1E3);
      MultiplyBy(w, K1E3);
      exponent := exponent - 3;
    }
    assert SmallScaled(w.Value(), exponent) == goal;
    if exponent >= 2 {
      FltSqrt.ProductPositive(w.Value(), K100);
      MultiplyBy(w, K100);
      exponent := exponent - 2;
    }
    assert SmallScaled(w.Value(), exponent) == goal;
    if exponent >= 1 {
      FltSqrt.ProductPositive(w.Value(), K10);
      MultiplyBy(w, K10);
      exponent := exponent - 1;
    }
  }

  /** flt_atof: the scanning loop, then the sign and the scaling of a Normal. */
  method AtofText(s: string) returns (result: Flt)
    ensures result == Atof(s)
  {
    var mode := Begin;
    var go := true;
    var exponent, msign: Bit, esign: Bit := 0, 0, 0;
    var t := new FltTmp();
    var u := new FltTmp();
    var v := new FltTmp();
    FltInit.Initialize(t, Zero, 0, 0, 0);
    FltInit.Initialize(v, Normal, 0, TMP_1, 0);
    var i := 0;
    while go && i < |s| && s[i] != '\0'
      invariant 0 <= i <= |s|
      invariant Inv(Scan(mode, go, exponent, msign, esign, t.Value(), v.Value()))
      invariant ScanFrom(s, i, Scan(mode, go, exponent, msign, esign, t.Value(), v.Value())) == ScanFrom(s, 0, START)
      decreases |s| - i
    {
      ScanOn(s, i, Scan(mode, go, exponent, msign, esign, t.Value(), v.Value()));
      mode, go, exponent, msign, esign := ScanCharacter(s, i, mode, exponent, msign, esign, t, u, v);
      i := i + 1;
    }
    result := FinishText(t, exponent, msign, esign, Scan(mode, go, exponent, msign, esign, t.Value(), v.Value()));
  }

  /** The code after the flt_atof loop: the sign, then the scaling by w = 10^exponent for a Normal. */
  method FinishText(t: FltTmp, exponent0: int, msign: Bit, esign: Bit, ghost st: Scan) returns (result: Flt)
    requires Inv(st) && st.t == t.Value() && st.exponent == exponent0 && st.msign == msign && st.esign == esign
    modifies t
    ensures result == Finish(st)
  {
    var exponent := exponent0;
    var w := new FltTmp();
    FltInit.Initialize(w, Normal, 0, TMP_1, 0);
    if t.c != NaN {
      if msign == 1 {
        t.s := 1;
      }
      ghost var signed := t.Value();
      assert signed == if st.msign == 1 then st.t.(s := 1) else st.t;
      OutcomeOfSigned(st, signed);
      if t.c == Normal {
        if esign == 1 {
          exponent := -exponent;
        }
        ghost var n := if st.esign == 1 then -st.exponent else st.exponent;
        assert w.Value() == K1 && exponent == n;
        var rest := DecimalScale(w, exponent);
        assert w.Value() == Scale(K1, n) == Factor(n);
        FltBasic.Multiply(t, w);
        assert t.Value() == FltBasic.Product(signed, Factor(n)) == Outcome(st);
      } else {
        assert t.Value() == signed == Outcome(st);
      }
    } else {
      assert t.Value() == st.t == Outcome(st);
    }
    result := TmpToFlt(t);
  }

  // ------------------------------------------------------------------ lemmas

  /** The scanning loop goes on from i to i + 1 while go holds and the string has not ended. */
  lemma ScanOn(s: string, i: nat, st: Scan)
    requires i < |s| && Inv(st) && st.go && s[i] != '\0'
    ensures ScanFrom(s, i, st) == ScanFrom(s, i + 1, Step(s, i, st))
  {
  }

  /** One step of either scaling loop: what is left to do after multiplying by 1e-8 or 1e8. */
  lemma ScaleStep(w: Tmp, n: int, k: Tmp)
    requires PosNormal(w) && ((n < 0 && k == K1EN8) || (n >= 8 && k == K1E8))
    ensures PosNormal(FltBasic.Product(w, k))
    ensures Scale(w, n) == Scale(FltBasic.Product(w, k), if n < 0 then n + 8 else n - 8)
  {
    FltSqrt.ProductPositive(w, k);
  }

  /** A product with a positive Normal keeps a Normal or Zero left operand's class and sign. */
  lemma ProductKeepsSign(t: Tmp, k: Tmp)
    requires Wf(t) && (t.c == Normal || t.c == Zero) && PosNormal(k)
    ensures var p := FltBasic.Product(t, k); Wf(p) && p.c == t.c && p.s == t.s
  {
    if t.c == Normal {
      FltBasic.ProductOfNormals(t, k);
    }
  }

  /** A non-negative finite value plus a positive Normal is a positive Normal. */
  lemma SumOfNonNegatives(t: Tmp, u: Tmp)
    requires Wf(t) && (t.c == Normal || t.c == Zero) && t.s == 0 && PosNormal(u)
    ensures PosNormal(FltBasic.Sum(t, u))
  {
    if t.c == Normal {
      FltBasic.SumSameSign(t, u);
    } else {
      FltBasic.SumZero(u, t);
    }
  }

  /**
   * A non-negative decimal exponent n moves the binary exponent up by at
   * least 3n and at most 4n: every step of k decimal places changes it by
   * between 3k and 4k, since 2^3 < 10 < 2^4.
   */
  lemma {:induction false} ScaleExponent(w: Tmp, n: int)
    requires PosNormal(w) && n >= 0
    ensures w.e + 3 * n <= Scale(w, n).e <= w.e + 4 * n
    decreases n
  {
    if n >= 8 {
      FltBasic.ProductOfNormals(w, K1E8);
      ScaleExponent(FltBasic.Product(w, K1E8), n - 8);
    } else {
      SmallScaledExponent(w, n);
    }
  }

  lemma {:induction false} SmallScaledExponent(w: Tmp, n: int)
    requires PosNormal(w) && 0 <= n < 8
    ensures w.e + 3 * n <= SmallScaled(w, n).e <= w.e + 4 * n
    decreases n
  {
    if n >= 5 {
      FltBasic.ProductOfNormals(w, K1E5);
      SmallScaledExponent(FltBasic.Product(w, K1E5), n - 5);
    } else if n >= 3 {
      FltBasic.ProductOfNormals(w, K1E3);
      SmallScaledExponent(FltBasic.Product(w, K1E3), n - 3);
    } else if n >= 2 {
      FltBasic.ProductOfNormals(w, K100);
      SmallScaledExponent(FltBasic.Product(w, K100), n - 2);
    } else if n >= 1 {
      FltBasic.ProductOfNormals(w, K10);
      SmallScaledExponent(FltBasic.Product(w, K10), n - 1);
    }
  }

  /** The sign of the result is the mantissa sign, for every class but NaN. */
  lemma FinishSign(st: Scan)
    requires Inv(st)
    ensures IsNaN(Finish(st)) <==> st.t.c == NaN
    ensures st.t.c != NaN ==> SignField(Finish(st)) == st.msign
  {
    if st.t.c != NaN {
      var t := if st.msign == 1 then st.t.(s := 1) else st.t;
      assert t.s == st.msign;
      if t.c == Normal {
        var n := if st.esign == 1 then -st.exponent else st.exponent;
        FltBasic.ProductOfNormals(t, Factor(n));
      }
      assert Outcome(st).s == st.msign;
      PackedNotNaN(Outcome(st));
      PackedSign(Outcome(st));
    }
  }

  // ------------------------------------------------------ properties of atof

  /** A character before the string that is not a digit shifts the loop by one place and changes nothing else. */
  lemma StepShifted(c: char, s: string, i: nat, st: Scan)
    requires i < |s| && Inv(st) && st.go && !IsDigit(c)
    ensures Step([c] + s, i + 1, st) == Step(s, i, st)
  {
    var s' := [c] + s;
    assert s'[i + 1] == s[i];
    assert CharAt(s', i + 2) == CharAt(s, i + 1) && CharAt(s', i + 3) == CharAt(s, i + 2);
    assert i > 0 ==> s'[i] == s[i - 1];
  }

  lemma {:induction false} ScanShifted(c: char, s: string, i: nat, st: Scan)
    requires i <= |s| && Inv(st) && !IsDigit(c)
    ensures ScanFrom([c] + s, i + 1, st) == ScanFrom(s, i, st)
    decreases |s| - i
  {
    var s' := [c] + s;
    if st.go && i < |s| && s[i] != '\0' {
      assert s'[i + 1] == s[i];
      StepShifted(c, s, i, st);
      ScanShifted(c, s, i + 1, Step(s, i, st));
    }
  }

  /** Leading white space and a leading '+' are skipped: they leave the result unchanged. */
  lemma AtofSkipsLeading(c: char, s: string)
    requires IsSpace(c) || c == '+'
    ensures Atof([c] + s) == Atof(s)
  {
    assert Step([c] + s, 0, START) == START;
    ScanShifted(c, s, 0, START);
  }

  /**
   * Two scans that differ only in the mantissa sign, and in the sign of an
   * infinity already read.
   */
  predicate Mirrored(a: Scan, b: Scan) {
    a == b.(msign := Xor(b.msign, 1), t := if b.t.c == Infinite then FltBasic.Negated(b.t) else b.t)
  }

  lemma StepMirrored(s: string, i: nat, a: Scan, b: Scan)
    requires i < |s| && Inv(a) && Inv(b) && a.go && b.go && Mirrored(a, b)
    ensures Mirrored(Step(s, i, a), Step(s, i, b))
  {
    var ch := ToLower(s[i]);
    if ch != '-' && ch != 'i' {
      StepIgnoresSign(s, i, b, a.msign);
    }
  }

  lemma DigitIgnoresSign(st: Scan, d: int, m: Bit)
    requires Inv(st) && st.go && 0 <= d <= 9
    ensures Inv(st.(msign := m)) && DigitStep(st.(msign := m), d) == DigitStep(st, d).(msign := m)
  {
    if st.mode == Fraction {
      assert FractionDigit(st.(msign := m), d) == FractionDigit(st, d).(msign := m);
    } else if st.mode != Exponent {
      var st1 := st.(mode := Integer);
      assert IntegerDigit(st1.(msign := m), d) == IntegerDigit(st1, d).(msign := m);
    }
  }

  /** Only '-' and 'i' look at the mantissa sign. */
  lemma StepIgnoresSign(s: string, i: nat, st: Scan, m: Bit)
    requires i < |s| && Inv(st) && st.go && ToLower(s[i]) != '-' && ToLower(s[i]) != 'i'
    ensures Inv(st.(msign := m)) && Step(s, i, st.(msign := m)) == Step(s, i, st).(msign := m)
  {
    if IsDigit(s[i]) {
      DigitIgnoresSign(st, s[i] as int - '0' as int, m);
    }
  }

  lemma {:induction false} ScanMirrored(s: string, i: nat, a: Scan, b: Scan)
    requires i <= |s| && Inv(a) && Inv(b) && Mirrored(a, b)
    ensures Mirrored(ScanFrom(s, i, a), ScanFrom(s, i, b))
    decreases |s| - i
  {
    if a.go && i < |s| && s[i] != '\0' {
      StepMirrored(s, i, a, b);
      ScanMirrored(s, i + 1, Step(s, i, a), Step(s, i, b));
    }
  }

  /** Outside NaN, the value to pack is the signed mantissa, scaled by 10^exponent when it is Normal. */
  lemma OutcomeOfSigned(st: Scan, signed: Tmp)
    requires Inv(st) && st.t.c != NaN && signed == if st.msign == 1 then st.t.(s := 1) else st.t
    ensures Outcome(st) ==
      if signed.c == Normal then FltBasic.Product(signed, Factor(if st.esign == 1 then -st.exponent else st.exponent))
      else signed
  {
  }

  /** The result of mirrored scans: the same NaN, or the same value with the other sign. */
  lemma FinishMirrored(a: Scan, b: Scan)
    requires Inv(a) && Inv(b) && Mirrored(a, b)
    ensures Finish(a) == if b.t.c == NaN then FLT_NAN else FltArith.FlipSign(Finish(b))
  {
    if b.t.c != NaN {
      OutcomeMirrored(a, b);
      FltTrig.PackedNegated(Outcome(b));
    }
  }

  /** Mirrored scans that are not NaN lead to values to pack that are negations of each other. */
  lemma OutcomeMirrored(a: Scan, b: Scan)
    requires Inv(a) && Inv(b) && Mirrored(a, b) && b.t.c != NaN
    ensures Outcome(a) == FltBasic.Negated(Outcome(b))
  {
    var tb := if b.msign == 1 then b.t.(s := 1) else b.t;
    var ta := if a.msign == 1 then a.t.(s := 1) else a.t;
    assert ta == FltBasic.Negated(tb);
    if tb.c == Normal {
      var n := if b.esign == 1 then -b.exponent else b.exponent;
      FltTrig.ProductNegatedLeft(tb, Factor(n));
    }
  }

  /** A leading '-' negates the result: flt_atof("-" + s) is -flt_atof(s), and NaN stays NaN. */
  lemma AtofMinus(s: string)
    ensures Atof(['-'] + s) == if IsNaN(Atof(s)) then FLT_NAN else FltArith.FlipSign(Atof(s))
  {
    ScanMinus(s);
    FinishMirrored(ScanFrom(['-'] + s, 0, START), ScanFrom(s, 0, START));
  }

  /** Scanning "-" + s ends in the mirror image of scanning s. */
  lemma ScanMinus(s: string)
    ensures Mirrored(ScanFrom(['-'] + s, 0, START), ScanFrom(s, 0, START))
  {
    var a := START.(msign := 1);
    MinusFirst(['-'] + s, a);
    ScanShifted('-', s, 0, a);
    ScanMirrored(s, 0, a, START);
  }

  /** A leading '-' only flips the mantissa sign, and the scan goes on from the next character. */
  lemma MinusFirst(s: string, a: Scan)
    requires |s| > 0 && s[0] == '-' && a == START.(msign := 1)
    ensures Inv(a) && Mirrored(a, START) && ScanFrom(s, 0, START) == ScanFrom(s, 1, a)
  {
    assert Step(s, 0, START) == a;
  }

  /** "inf" in any case reads as an infinity carrying the mantissa sign. */
  lemma AtofInfinity()
    ensures Atof("inf") == FLT_POS_INF && Atof("InF") == FLT_POS_INF && Atof("-InF") == FLT_NEG_INF
  {
    var inf := START.(t := Tmp(Infinite, 0, 0, 0), go := false);
    assert Step("inf", 0, START) == inf;
    assert ScanFrom("inf", 0, START) == inf;
    assert Step("InF", 0, START) == inf;
    assert ScanFrom("InF", 0, START) == inf;
    AtofMinus("InF");
    assert ['-'] + "InF" == "-InF";
  }

  /** "nan" in any case reads as NaN, and so does a string starting with a character atof does not know. */
  lemma AtofNotANumber()
    ensures Atof("nan") == FLT_NAN && Atof("NaN") == FLT_NAN && Atof("x") == FLT_NAN
  {
    var nan := START.(t := Tmp(NaN, 0, 0, 0), go := false);
    assert Step("nan", 0, START) == nan;
    assert ScanFrom("nan", 0, START) == nan;
    assert Step("NaN", 0, START) == nan;
    assert ScanFrom("NaN", 0, START) == nan;
    assert Step("x", 0, START) == nan;
    assert ScanFrom("x", 0, START) == nan;
  }

  /**
   * An empty string, an "i" not followed by "nf" and a zero all read as a
   * zero, with the sign of a leading '-'.
   */
  lemma AtofZeros()
    ensures Atof("") == FLT_POS_0 && Atof("in") == FLT_POS_0
    ensures Atof("0") == FLT_POS_0 && Atof("-0") == FLT_NEG_0
  {
    assert ScanFrom("", 0, START) == START;
    assert Step("in", 0, START) == START.(go := false);
    assert ScanFrom("in", 0, START) == START.(go := false);
    var zero := START.(mode := Integer);
    assert Step("0", 0, START) == zero;
    assert ScanFrom("0", 0, START) == zero;
    AtofMinus("0");
    assert ['-'] + "0" == "-0";
  }

  /** One and minus one read back as the patterns of 1.0 and -1.0. */
  lemma AtofOne()
    ensures Atof("1") == FLT_POS_1 && Atof("-1") == FLT_NEG_1
  {
    ReadOne("1");
    MinusOne();
  }

  lemma ReadOne(s: string)
    requires s == "1"
    ensures Atof(s) == FLT_POS_1
  {
    var one := START.(mode := Integer, t := K1);
    ScanOne(s, one);
    OutcomeOne(one);
    PackedOne();
  }

  /** After reading "1" the value to pack is 1 itself: the scaling by 10^0 changes nothing. */
  lemma OutcomeOne(one: Scan)
    requires one == START.(mode := Integer, t := K1)
    ensures Inv(one) && Outcome(one) == K1
  {
    assert Inv(one);
    assert Factor(0) == K1;
    FltBasic.ProductByOne(K1);
  }

  lemma ScanOne(s: string, one: Scan)
    requires s == "1" && one == START.(mode := Integer, t := K1)
    ensures Inv(one) && ScanFrom(s, 0, START) == one
  {
    DigitOne();
    var zero := Tmp(Zero, 0, 0, 0);
    assert FltBasic.Product(zero, K10) == zero;
    FltBasic.SumZero(K1, zero);
    assert IntegerDigit(START.(mode := Integer), 1) == one;
    assert DigitStep(START, 1) == one;
    assert Step(s, 0, START) == one;
  }

  lemma DigitOne()
    ensures DigitTmp(1) == K1
  {
    Pow2Values();
    FltBasic.NormalizedScaled(0, 1, 30, 30);
    FltBasic.NormalizedFixed(K1);
  }

  lemma PackedOne()
    ensures Packed(K1) == FLT_POS_1
  {
    FieldsCompose(FLT_POS_1);
    assert Unpacked(FLT_POS_1) == K1;
    UnpackPackRoundTrip(FLT_POS_1);
  }

  lemma MinusOne()
    requires Atof("1") == FLT_POS_1
    ensures Atof("-1") == FLT_NEG_1
  {
    AtofMinus("1");
    assert ['-'] + "1" == "-1";
  }
}
