/**
 * flt/flt-io.c, writing: flt_ftoa and its three formatters. A Normal is
 * brought into [1, 10) by powers of ten while a decimal exponent is
 * counted, then its digits are peeled off one at a time; the text is
 * finally adjusted to the format (case, decimal point, plus sign).
 */
module FltFtoa {
  import opened FltTypes
  import opened FltClassify
  import opened FltConvert
  import FltInit
  import FltBasic
  import FltSqrt
  import opened FltCompare
  import opened FltAtof

  // ---------------------------------------------------------------- strings

  /** strchr: the first index of c in s, or -1. */
  function Find(s: string, c: char): (k: int)
    ensures -1 <= k < |s|
    ensures k >= 0 ==> s[k] == c
    ensures forall j :: 0 <= j < |s| && (k < 0 || j < k) ==> s[j] != c
  {
    if s == [] then -1
    else if s[0] == c then 0
    else
      var k := Find(s[1..], c);
      if k < 0 then -1 else k + 1
  }

  /** toupper in the C locale: only a to z change. */
  function ToUpper(ch: char): (r: char)
    ensures 'a' <= ch <= 'z' ==> 'A' <= r <= 'Z' && ch as int - r as int == 32
    ensures !('a' <= ch <= 'z') ==> r == ch
  {
    if 'a' <= ch <= 'z' then (ch as int - 32) as char else ch
  }

  /** The character of a decimal digit d. */
  function DigitChar(d: int): (r: char)
    requires 0 <= d <= 11
    ensures r as int - '0' as int == d
  {
    ('0' as int + d) as char
  }

  /** A character flt_tmp_get_next_digit can produce: '0' plus at most 5 + 3 + 2 + 1. */
  predicate IsDigitOut(ch: char) {
    '0' <= ch <= ';'
  }

  /** printf_precision: the digit after the first '.', or 6 when there is none. */
  function Precision(format: string): (p: nat)
    ensures p <= 9
  {
    var k := Find(format, '.');
    if k >= 0 && IsDigit(CharAt(format, k + 1)) then CharAt(format, k + 1) as int - '0' as int else 6
  }

  /** Every character through toupper. */
  function Uppercased(s: string): (r: string)
    ensures |r| == |s| && forall i :: 0 <= i < |s| ==> r[i] == ToUpper(s[i])
  {
    if s == [] then [] else [ToUpper(s[0])] + Uppercased(s[1..])
  }

  /** Any of E, F or G in the format asks for upper case. */
  predicate UpperFormat(format: string) {
    Find(format, 'E') >= 0 || Find(format, 'F') >= 0 || Find(format, 'G') >= 0
  }

  /** The first step of printf_post_process: upper case if the format asks for it. */
  function Cased(s: string, format: string): (r: string)
  {
    if UpperFormat(format) then Uppercased(s) else s
  }

  /** The second step: at precision 0 the first '.' is removed. */
  function Undotted(s: string, p: int): (r: string)
  {
    var k := Find(s, '.');
    if p == 0 && k >= 0 then s[..k] + s[k + 1..] else s
  }

  /** The third step: a leading '+' is removed unless the format has one. */
  function Unsigned(s: string, format: string): (r: string)
  {
    if Find(format, '+') < 0 && |s| > 0 && s[0] == '+' then s[1..] else s
  }

  /** printf_post_process */
  function PostProcessed(s: string, format: string, p: int): (r: string)
  {
    Unsigned(Undotted(Cased(s, format), p), format)
  }

  // ----------------------------------------------------------------- digits

  /** kn1, kn2, kn3 and kn5: the negated constants. */
  const KN1: Tmp := FltBasic.Negated(K1)
  const KN2: Tmp := FltBasic.Negated(K2)
  const KN3: Tmp := FltBasic.Negated(K3)
  const KN5: Tmp := FltBasic.Negated(K5)

  /** t - k once t is at least k, with the digit counted up by d. */
  function Peel(t: Tmp, digit: int, k: Tmp, d: int): (r: (Tmp, int))
    ensures Wf(t) && Wf(k) ==> Wf(r.0)
    ensures r.1 == digit || r.1 == digit + d
  {
    if TmpCompare(t, k, GreaterThanOrEqualTo) then (FltBasic.Sum(t, FltBasic.Negated(k)), digit + d)
    else (t, digit)
  }

  /**
   * flt_tmp_get_next_digit: '0' for a Zero, which is left alone; otherwise
   * 5, 3, 2 and 1 are taken off while the value is at least that much, and
   * what remains is multiplied by 10.
   */
  function NextDigit(t: Tmp): (r: (char, Tmp))
    ensures IsDigitOut(r.0) && (Wf(t) ==> Wf(r.1))
    ensures t.c == Zero ==> r == ('0', t)
  {
    if t.c == Zero then ('0', t)
    else
      var (t1, d1) := Peel(t, 0, K5, 5);
      var (t2, d2) := Peel(t1, d1, K3, 3);
      var (t3, d3) := Peel(t2, d2, K2, 2);
      var (t4, d4) := Peel(t3, d3, K1, 1);
      (DigitChar(d4), FltBasic.Product(t4, K10))
  }

  /** n successive applications of a digit step: the characters in order and the state left. */
  function Iterate(step: Tmp -> (char, Tmp), t: Tmp, n: nat): (r: (string, Tmp))
    ensures |r.0| == n
  {
    if n == 0 then ([], t)
    else
      var p := Iterate(step, t, n - 1);
      var q := step(p.1);
      (p.0 + [q.0], q.1)
  }

  /** n successive digits of t, and the value left after them. */
  function Digits(t: Tmp, n: nat): (r: (string, Tmp))
    ensures |r.0| == n
  {
    Iterate(NextDigit, t, n)
  }

  // --------------------------------------------------------- normalization

  /** E_ROUNDING: the half unit is added before or after the scaling. */
  datatype Rounding = Before | After

  /** t * k for positive Normals, with the exponent it gets. */
  function Times(t: Tmp, k: Tmp): (r: Tmp)
    requires PosNormal(t) && PosNormal(k)
    ensures PosNormal(r) && (r.e == t.e + k.e || r.e == t.e + k.e + 1)
  {
    FltBasic.ProductOfNormals(t, k);
    FltBasic.Product(t, k)
  }

  /** t + k for positive Normals. */
  function Plus(t: Tmp, k: Tmp): (r: Tmp)
    requires PosNormal(t) && PosNormal(k)
    ensures PosNormal(r)
  {
    FltBasic.SumSameSign(t, k);
    FltBasic.Sum(t, k)
  }

  /** One step of the rounding term: divide by 10^d when at least d digits are left. */
  function Divided(u: Tmp, p: int, k: Tmp, d: int): (r: (Tmp, int))
    requires PosNormal(u) && PosNormal(k)
    ensures PosNormal(r.0)
  {
    if p >= d then (Times(u, k), p - d) else (u, p)
  }

  /** The half unit in the last place to print: 0.5 divided by 10 for each of the p digits. */
  function RoundingTerm(p: int): (u: Tmp)
    ensures PosNormal(u)
  {
    ReciprocalConstants();
    var (u1, p1) := Divided(K5EN1, p, K1EN5, 5);
    var (u2, p2) := Divided(u1, p1, K1EN3, 3);
    var (u3, p3) := Divided(u2, p2, K1EN2, 2);
    Divided(u3, p3, K1EN1, 1).0
  }

  /** The first loop: multiply by 1e8 while below 1, counting the exponent down by 8. */
  function Raised(t: Tmp, b: int): (r: (Tmp, int))
    requires PosNormal(t)
    ensures PosNormal(r.0)
    decreases -t.e
  {
    if TmpCompare(t, K1, LessThan) then
      BelowOne(t);
      Raised(Times(t, K1E8), b - 8)
    else (t, b)
  }

  /** The second loop: multiply by 1e-8 while at least 1e8, counting the exponent up by 8. */
  function Lowered(t: Tmp, b: int): (r: (Tmp, int))
    requires PosNormal(t)
    ensures PosNormal(r.0)
    decreases t.e
  {
    ReciprocalConstants();
    if TmpCompare(t, K1E8, GreaterThanOrEqualTo) then
      NotBelowHundredMillion(t);
      Lowered(Times(t, K1EN8), b + 8)
    else (t, b)
  }

  /** One "bring into range" step: divide by 10^d when t is at least 10^d. */
  function Reduced(t: Tmp, b: int, k: Tmp, inverse: Tmp, d: int): (r: (Tmp, int))
    requires PosNormal(t) && PosNormal(k) && PosNormal(inverse)
    ensures PosNormal(r.0) && (r.1 == b || r.1 == b + d)
  {
    if TmpCompare(t, k, GreaterThanOrEqualTo) then (Times(t, inverse), b + d) else (t, b)
  }

  /** Both loops: the value brought into [1, 1e8) with the decimal exponent counted from 0. */
  function Loops(t: Tmp): (r: (Tmp, int))
    requires PosNormal(t)
    ensures PosNormal(r.0)
  {
    var (t1, b1) := Raised(t, 0);
    Lowered(t1, b1)
  }

  /** Dividing by 1e5 and 1e3 where the value is at least that. */
  function RangedHigh(t: Tmp, b: int): (r: (Tmp, int))
    requires PosNormal(t)
    ensures PosNormal(r.0) && b <= r.1 <= b + 8
  {
    ReciprocalConstants();
    var q := Reduced(t, b, K1E5, K1EN5, 5);
    Reduced(q.0, q.1, K1E3, K1EN3, 3)
  }

  /** Dividing by 100 and 10 where the value is at least that. */
  function RangedLow(t: Tmp, b: int): (r: (Tmp, int))
    requires PosNormal(t)
    ensures PosNormal(r.0) && b <= r.1 <= b + 3
  {
    ReciprocalConstants();
    var q := Reduced(t, b, K100, K1EN2, 2);
    Reduced(q.0, q.1, K10, K1EN1, 1)
  }

  /** Dividing by 1e5, 1e3, 100 and 10 where the value is at least that. */
  function Ranged(t: Tmp, b: int): (r: (Tmp, int))
    requires PosNormal(t)
    ensures PosNormal(r.0) && b <= r.1 <= b + 11
  {
    var q := RangedHigh(t, b);
    RangedLow(q.0, q.1)
  }

  /** The last check: a value that rounding left below 1 is multiplied back by 10. */
  function Lifted(t: Tmp, b: int): (r: (Tmp, int))
    requires PosNormal(t)
    ensures PosNormal(r.0) && (r.1 == b || r.1 == b - 1)
  {
    if TmpCompare(t, K1, LessThan) then (Times(t, K10), b - 1) else (t, b)
  }

  /** The half unit added to t when the rounding comes at this point. */
  function Rounded(t: Tmp, u: Tmp, now: bool): (r: Tmp)
    requires PosNormal(t) && PosNormal(u)
    ensures PosNormal(r)
  {
    if now then Plus(t, u) else t
  }

  /** The rounding added after scaling, and the last checks against 10 and 1. */
  function Settled(t: Tmp, b: int, u: Tmp, rounding: Rounding): (r: (Tmp, int))
    requires PosNormal(t) && PosNormal(u)
    ensures PosNormal(r.0) && b - 1 <= r.1 <= b + 1
  {
    ReciprocalConstants();
    var q := Reduced(Rounded(t, u, rounding == After), b, K10, K1EN1, 1);
    Lifted(q.0, q.1)
  }

  /**
   * flt_tmp_normalize_to_base_10 for a positive Normal: the value is
   * rounded, scaled towards [1, 10) and returned with the power of ten it
   * was divided by.
   */
  function Base10(t: Tmp, p: int, rounding: Rounding): (r: (Tmp, int))
    requires PosNormal(t)
    ensures PosNormal(r.0)
  {
    var u := RoundingTerm(p);
    var q := Loops(Rounded(t, u, rounding == Before));
    var q' := Ranged(q.0, q.1);
    Settled(q'.0, q'.1, u, rounding)
  }

  // ------------------------------------------------------------- formatters

  /** "+-"[s] */
  function SignChar(s: Bit): char {
    if s == 1 then '-' else '+'
  }

  /** The zero text: a signed "0." and p zeros. */
  function ZeroText(s: Bit, p: nat): (r: string)
    requires p <= 9
    ensures |r| == p + 3
  {
    [SignChar(s), '0', '.'] + "000000000"[..p]
  }

  /** The text of an infinity or a NaN, the same in both formats. */
  function SpecialText(t: Tmp): (r: string)
    requires t.c == Infinite || t.c == NaN
  {
    if t.c == NaN then "nan" else if t.s == 1 then "-inf" else "+inf"
  }

  /** 'e', the sign of the decimal exponent and its two digits. */
  function ExponentText(b: int): (r: string)
    requires -99 <= b <= 99
    ensures |r| == 4 && r[0] == 'e' && (r[1] == '-' <==> b < 0) && (r[1] == '+' <==> b >= 0)
    ensures IsDigit(r[2]) && IsDigit(r[3])
    ensures var a := if b < 0 then -b else b; (r[2] as int - '0' as int) * 10 + (r[3] as int - '0' as int) == a
  {
    var a := if b < 0 then -b else b;
    ['e', if b < 0 then '-' else '+', DigitChar(a / 10), DigitChar(a % 10)]
  }

  /** The Normal case of flt_tmp_e_format, from the normalized value u and its exponent b. */
  function ENormal(s: Bit, u: Tmp, b: int, p: nat): (r: string)
    requires -99 <= b <= 99
  {
    var (first, u1) := NextDigit(u);
    var (rest, _) := Digits(u1, p);
    [SignChar(s), first, '.'] + rest + ExponentText(b)
  }

  /**
   * flt_tmp_e_format before post-processing: sign, first digit, '.', p more
   * digits, 'e', the exponent sign and two exponent digits; or the text of
   * an infinity, a NaN or a zero.
   */
  function ERaw(t: Tmp, p: nat): (r: string)
    requires Wf(t) && p <= 9 && -160 <= t.e <= 128
  {
    if t.c == Normal then
      var (u, b) := Base10(t.(s := 0), p, After);
      Base10Bound(t.(s := 0), p);
      ENormal(t.s, u, b, p)
    else if t.c == Zero then ZeroText(t.s, p) + "e+00"
    else SpecialText(t)
  }

  /**
   * The Normal case of flt_tmp_f_format: for a value of at least one, b + 1
   * integer digits, '.' and p fraction digits; below one, "0.", -b - 1
   * zeros and the p + b + 1 digits that still fit.
   */
  function FNormal(s: Bit, u: Tmp, b: int, p: nat): (r: string)
  {
    if b >= 0 then
      var (whole, u1) := Digits(u, b + 1);
      var (fraction, _) := Digits(u1, p);
      [SignChar(s)] + whole + ['.'] + fraction
    else
      var (fraction, _) := Digits(u, if p + b + 1 > 0 then p + b + 1 else 0);
      [SignChar(s), '0', '.'] + Zeros(-b - 1) + fraction
  }

  /** flt_tmp_f_format before post-processing. */
  function FRaw(t: Tmp, p: nat): (r: string)
    requires Wf(t) && p <= 9
  {
    if t.c == Normal then
      var (u, b) := Base10(t.(s := 0), p, Before);
      FNormal(t.s, u, b, p)
    else if t.c == Zero then ZeroText(t.s, p)
    else SpecialText(t)
  }

  function Zeros(n: nat): (r: string)
    ensures |r| == n && forall i :: 0 <= i < n ==> r[i] == '0'
  {
    if n == 0 then [] else Zeros(n - 1) + ['0']
  }

  /** flt_tmp_e_format */
  function EFormat(t: Tmp, format: string): string
    requires Wf(t) && -160 <= t.e <= 128
  {
    PostProcessed(ERaw(t, Precision(format)), format, Precision(format))
  }

  /** flt_tmp_f_format */
  function FFormat(t: Tmp, format: string): string
    requires Wf(t)
  {
    PostProcessed(FRaw(t, Precision(format)), format, Precision(format))
  }

  /** flt_tmp_g_format: scientific when |t| >= 1e5 or |t| < 1e-5, fixed otherwise. */
  function GFormat(t: Tmp, format: string): string
    requires Wf(t) && -160 <= t.e <= 128
  {
    if Scientific(t) then EFormat(t, format) else FFormat(t, format)
  }

  predicate Scientific(t: Tmp)
    requires Wf(t)
  {
    var u := t.(s := 0);
    ReciprocalConstants();
    TmpCompare(u, K1E5, GreaterThanOrEqualTo) || TmpCompare(u, K1EN5, LessThan)
  }

  /** flt_ftoa: 'e' or 'E' in the format selects scientific, then 'f' or 'F' fixed, else the g choice. */
  function Ftoa(f: Flt, format: string): string
  {
    var t := Unpacked(f);
    UnpackedRange(f);
    if Find(format, 'e') >= 0 || Find(format, 'E') >= 0 then EFormat(t, format)
    else if Find(format, 'f') >= 0 || Find(format, 'F') >= 0 then FFormat(t, format)
    else GFormat(t, format)
  }

  // ---------------------------------------------------------------- methods

  /** One "if at least k, subtract k" step of flt_tmp_get_next_digit. */
  method PeelStep(pt: FltTmp, digit0: int, k: Tmp, d: int) returns (digit: int)
    modifies pt
    ensures (pt.Value(), digit) == Peel(old(pt.Value()), digit0, k, d)
  {
    digit := digit0;
    if TmpCompare(pt.Value(), k, GreaterThanOrEqualTo) {
      FltBasic.Add(pt, FltBasic.Negated(k));
      digit := digit + d;
    }
  }

  /** flt_tmp_get_next_digit on the working value in place. */
  method GetNextDigit(pt: FltTmp) returns (digit: char)
    modifies pt
    ensures (digit, pt.Value()) == NextDigit(old(pt.Value()))
  {
    if pt.c == Zero {
      return '0';
    }
    var d := PeelStep(pt, 0, K5, 5);
    d := PeelStep(pt, d, K3, 3);
    d := PeelStep(pt, d, K2, 2);
    d := PeelStep(pt, d, K1, 1);
    MultiplyBy(pt, K10);
    digit := DigitChar(d);
  }

  /** One "if (precision >= d)" step of the rounding term. */
  method DivideDown(pu: FltTmp, p0: int, k: Tmp, d: int) returns (p: int)
    requires PosNormal(pu.Value()) && PosNormal(k)
    modifies pu
    ensures (pu.Value(), p) == Divided(old(pu.Value()), p0, k, d)
  {
    p := p0;
    if p >= d {
      MultiplyBy(pu, k);
      p := p - d;
    }
  }

  /** The first part of flt_tmp_normalize_to_base_10: the half unit divided down by the precision. */
  method PrepareRounding(pu: FltTmp, precision: int)
    modifies pu
    ensures pu.Value() == RoundingTerm(precision)
  {
    ReciprocalConstants();
    FltInit.Initialize(pu, K5EN1.c, K5EN1.s, K5EN1.m, K5EN1.e);
    var p := DivideDown(pu, precision, K1EN5, 5);
    p := DivideDown(pu, p, K1EN3, 3);
    p := DivideDown(pu, p, K1EN2, 2);
    p := DivideDown(pu, p, K1EN1, 1);
  }

  /** The two loops of flt_tmp_normalize_to_base_10, by 1e8 up and by 1e-8 down. */
  method RaiseAndLower(pt: FltTmp) returns (b: int)
    requires PosNormal(pt.Value())
    modifies pt
    ensures (pt.Value(), b) == Loops(old(pt.Value()))
  {
    ghost var t0 := pt.Value();
    b := 0;
    while TmpCompare(pt.Value(), K1, LessThan)
      invariant PosNormal(pt.Value())
      invariant Raised(pt.Value(), b) == Raised(t0, 0)
      decreases -pt.e
    {
      BelowOne(pt.Value());
      ghost var t := pt.Value();
      MultiplyBy(pt, K1E8);
      assert pt.Value() == Times(t, K1E8);
      b := b - 8;
    }
    ReciprocalConstants();
    while TmpCompare(pt.Value(), K1E8, GreaterThanOrEqualTo)
      invariant PosNormal(pt.Value())
      invariant Lowered(pt.Value(), b) == Loops(t0)
      decreases pt.e
    {
      NotBelowHundredMillion(pt.Value());
      ghost var t := pt.Value();
      MultiplyBy(pt, K1EN8);
      assert pt.Value() == Times(t, K1EN8);
      b := b + 8;
    }
  }

  /** One of the "if at least 10^d, multiply by 10^-d" steps. */
  method Reduce(pt: FltTmp, b0: int, k: Tmp, inverse: Tmp, d: int) returns (b: int)
    requires PosNormal(pt.Value()) && PosNormal(k) && PosNormal(inverse)
    modifies pt
    ensures (pt.Value(), b) == Reduced(old(pt.Value()), b0, k, inverse, d)
  {
    b := b0;
    if TmpCompare(pt.Value(), k, GreaterThanOrEqualTo) {
      MultiplyBy(pt, inverse);
      b := b + d;
    }
  }

  /** The four steps that divide by 1e5, 1e3, 100 and 10. */
  method BringIntoRange(pt: FltTmp, b0: int) returns (b: int)
    requires PosNormal(pt.Value())
    modifies pt
    ensures (pt.Value(), b) == Ranged(old(pt.Value()), b0)
  {
    ReciprocalConstants();
    ghost var t := pt.Value();
    b := Reduce(pt, b0, K1E5, K1EN5, 5);
    b := Reduce(pt, b, K1E3, K1EN3, 3);
    assert (pt.Value(), b) == RangedHigh(t, b0);
    ghost var t1, b1 := pt.Value(), b;
    b := Reduce(pt, b, K100, K1EN2, 2);
    b := Reduce(pt, b, K10, K1EN1, 1);
    assert (pt.Value(), b) == RangedLow(t1, b1);
  }

  /** The last check of flt_tmp_normalize_to_base_10. */
  method Lift(pt: FltTmp, b0: int) returns (b: int)
    requires PosNormal(pt.Value())
    modifies pt
    ensures (pt.Value(), b) == Lifted(old(pt.Value()), b0)
  {
    b := b0;
    if TmpCompare(pt.Value(), K1, LessThan) {
      ghost var t := pt.Value();
      MultiplyBy(pt, K10);
      assert pt.Value() == Times(t, K10);
      b := b - 1;
    }
  }

  /** The rounding after scaling and the last two checks. */
  method Settle(pt: FltTmp, b0: int, u: Tmp, rounding: Rounding) returns (b: int)
    requires PosNormal(pt.Value()) && PosNormal(u)
    modifies pt
    ensures (pt.Value(), b) == Settled(old(pt.Value()), b0, u, rounding)
  {
    ReciprocalConstants();
    if rounding == After {
      FltBasic.Add(pt, u);
    }
    assert pt.Value() == Rounded(old(pt.Value()), u, rounding == After);
    b := Reduce(pt, b0, K10, K1EN1, 1);
    b := Lift(pt, b);
  }

  /**
   * flt_tmp_normalize_to_base_10. The source exits when the value is not a
   * positive Normal; here that is its precondition.
   */
  method NormalizeToBase10(pt: FltTmp, precision: int, rounding: Rounding) returns (b: int)
    requires PosNormal(pt.Value())
    modifies pt
    ensures (pt.Value(), b) == Base10(old(pt.Value()), precision, rounding)
  {
    ghost var t := pt.Value();
    var u := new FltTmp();
    PrepareRounding(u, precision);
    var half := u.Value();
    if rounding == Before {
      FltBasic.Add(pt, half);
    }
    assert pt.Value() == Rounded(t, half, rounding == Before);
    ghost var t0 := pt.Value();
    b := RaiseAndLower(pt);
    ghost var t2 := pt.Value();
    assert (t2, b) == Loops(t0);
    b := BringIntoRange(pt, b);
    b := Settle(pt, b, half, rounding);
  }

  /** n calls of flt_tmp_get_next_digit, the characters in order. */
  method NextDigits(pu: FltTmp, n: nat) returns (ds: string)
    modifies pu
    ensures (ds, pu.Value()) == Digits(old(pu.Value()), n)
  {
    ghost var t0 := pu.Value();
    ds := [];
    var j := 0;
    while j < n
      invariant j <= n
      invariant (ds, pu.Value()) == Digits(t0, j)
    {
      var d := GetNextDigit(pu);
      ds := ds + [d];
      j := j + 1;
    }
  }

  /** The upper-casing loop of printf_post_process. */
  method Uppercase(s: string) returns (r: string)
    ensures r == Uppercased(s)
  {
    r := s;
    var i := 0;
    while i < |r|
      invariant i <= |r| == |s|
      invariant forall j :: 0 <= j < i ==> r[j] == ToUpper(s[j])
      invariant forall j :: i <= j < |r| ==> r[j] == s[j]
    {
      r := r[i := ToUpper(r[i])];
      i := i + 1;
    }
  }

  /** printf_post_process on a copy of the text. */
  method PostProcess(s: string, format: string, precision: int) returns (r: string)
    ensures r == PostProcessed(s, format, precision)
  {
    r := s;
    if Find(format, 'E') >= 0 || Find(format, 'F') >= 0 || Find(format, 'G') >= 0 {
      r := Uppercase(s);
    }
    assert r == Cased(s, format);
    ghost var r1 := r;
    var k := Find(r, '.');
    if precision == 0 && k >= 0 {
      r := r[..k] + r[k + 1..];
    }
    assert r == Undotted(r1, precision);
    ghost var r2 := r;
    var plus := Find(format, '+');
    if plus < 0 && |r| > 0 && r[0] == '+' {
      r := r[1..];
    }
    assert r == Unsigned(r2, format);
  }

  /** The Normal case of flt_tmp_e_format on the normalized copy. */
  method ENormalText(s: Bit, pu: FltTmp, b: int, p: nat) returns (r: string)
    requires -99 <= b <= 99
    modifies pu
    ensures r == ENormal(s, old(pu.Value()), b, p)
  {
    var first := GetNextDigit(pu);
    var rest := NextDigits(pu, p);
    var a := if b < 0 then -b else b;
    r := [SignChar(s), first, '.'] + rest + ['e', if b < 0 then '-' else '+', DigitChar(a / 10), DigitChar(a % 10)];
  }

  /** The Normal branch of flt_tmp_e_format: copy with the sign cleared, normalize, print. */
  method ENormalRaw(pt: FltTmp, precision: nat) returns (raw: string)
    requires Wf(pt.Value()) && pt.c == Normal && -160 <= pt.e <= 128 && precision <= 9
    ensures raw == ERaw(pt.Value(), precision)
  {
    ghost var t := pt.Value();
    var u := new FltTmp();
    FltInit.Initialize(u, pt.c, 0, pt.m, pt.e);
    assert u.Value() == t.(s := 0);
    Base10Bound(u.Value(), precision);
    var b := NormalizeToBase10(u, precision, After);
    ghost var n := u.Value();
    raw := ENormalText(pt.s, u, b, precision);
    assert raw == ENormal(t.s, n, b, precision);
  }

  /** flt_tmp_e_format up to the post-processing, on a copy of the value. */
  method ERawText(pt: FltTmp, precision: nat) returns (raw: string)
    requires Wf(pt.Value()) && -160 <= pt.e <= 128 && precision <= 9
    ensures raw == ERaw(pt.Value(), precision)
  {
    if pt.c == Normal {
      raw := ENormalRaw(pt, precision);
    } else if pt.c == Zero {
      raw := ZeroText(pt.s, precision) + "e+00";
    } else {
      raw := SpecialText(pt.Value());
    }
  }

  /** flt_tmp_e_format; the value itself is left alone, the work is done on a copy. */
  method EFormatText(pt: FltTmp, format: string) returns (r: string)
    requires Wf(pt.Value()) && -160 <= pt.e <= 128
    ensures r == EFormat(pt.Value(), format)
  {
    var precision := Precision(format);
    var raw := ERawText(pt, precision);
    r := PostProcess(raw, format, precision);
  }

  /** The Normal case of flt_tmp_f_format on the normalized copy. */
  method FNormalText(s: Bit, pu: FltTmp, b: int, p: nat) returns (r: string)
    modifies pu
    ensures r == FNormal(s, old(pu.Value()), b, p)
  {
    if b >= 0 {
      var whole := NextDigits(pu, b + 1);
      var fraction := NextDigits(pu, p);
      r := [SignChar(s)] + whole + ['.'] + fraction;
    } else {
      var zeros := [];
      var j := 0;
      while j < -b - 1
        invariant 0 <= j <= -b - 1 && zeros == Zeros(j)
      {
        zeros := zeros + ['0'];
        j := j + 1;
      }
      var fraction := NextDigits(pu, if p + b + 1 > 0 then p + b + 1 else 0);
      r := [SignChar(s), '0', '.'] + zeros + fraction;
    }
  }

  /** flt_tmp_f_format up to the post-processing, on a copy of the value. */
  method FRawText(pt: FltTmp, precision: nat) returns (raw: string)
    requires Wf(pt.Value()) && precision <= 9
    ensures raw == FRaw(pt.Value(), precision)
  {
    if pt.c == Normal {
      var u := new FltTmp();
      FltInit.Initialize(u, pt.c, 0, pt.m, pt.e);
      var b := NormalizeToBase10(u, precision, Before);
      raw := FNormalText(pt.s, u, b, precision);
    } else if pt.c == Zero {
      raw := ZeroText(pt.s, precision);
    } else {
      raw := SpecialText(pt.Value());
    }
  }

  /** flt_tmp_f_format; the value itself is left alone. */
  method FFormatText(pt: FltTmp, format: string) returns (r: string)
    requires Wf(pt.Value())
    ensures r == FFormat(pt.Value(), format)
  {
    var precision := Precision(format);
    var raw := FRawText(pt, precision);
    r := PostProcess(raw, format, precision);
  }

  /** The test of flt_tmp_g_format, on a copy with the sign cleared. */
  method ChooseScientific(pt: FltTmp) returns (scientific: bool)
    requires Wf(pt.Value())
    ensures scientific == Scientific(pt.Value())
  {
    ReciprocalConstants();
    var u := new FltTmp();
    FltInit.Initialize(u, pt.c, 0, pt.m, pt.e);
    scientific := TmpCompare(u.Value(), K1E5, GreaterThanOrEqualTo) || TmpCompare(u.Value(), K1EN5, LessThan);
  }

  /** flt_tmp_g_format */
  method GFormatText(pt: FltTmp, format: string) returns (r: string)
    requires Wf(pt.Value()) && -160 <= pt.e <= 128
    ensures r == GFormat(pt.Value(), format)
  {
    var scientific := ChooseScientific(pt);
    if scientific {
      r := EFormatText(pt, format);
    } else {
      r := FFormatText(pt, format);
    }
  }

  /** flt_ftoa */
  method FtoaText(f: Flt, format: string) returns (r: string)
    ensures r == Ftoa(f, format)
  {
    var pt := new FltTmp();
    FltToTmp(f, pt);
    UnpackedRange(f);
    if Find(format, 'e') >= 0 || Find(format, 'E') >= 0 {
      r := EFormatText(pt, format);
    } else if Find(format, 'f') >= 0 || Find(format, 'F') >= 0 {
      r := FFormatText(pt, format);
    } else {
      r := GFormatText(pt, format);
    }
  }

  // ------------------------------------------------------------------ lemmas

  /** Every pattern unpacks to a well-formed value with an exponent in [-160, 128]. */
  lemma UnpackedRange(f: Flt)
    ensures Wf(Unpacked(f)) && -160 <= Unpacked(f).e <= 128
  {
    if Classify(f) == Subnormal {
      FieldsCompose(f);
      var t := Unpacked(f);
      var k := -119 - t.e;
      assert k >= 0 && t.m == FracField(f) * Pow2(k);
      if k >= 31 {
        Pow2Monotone(31, k);
        Pow2Values();
        MulLe(1, FracField(f), Pow2(k));
      }
    }
  }

  /** A positive Normal below 1 has a negative exponent. */
  lemma BelowOne(t: Tmp)
    requires PosNormal(t) && TmpCompare(t, K1, LessThan)
    ensures t.e < 0
  {
    if t.e >= 0 {
      ComparePositive(t, K1);
    }
  }

  /** A positive Normal of at least 1e8 has an exponent of at least 26. */
  lemma NotBelowHundredMillion(t: Tmp)
    requires PosNormal(t) && TmpCompare(t, K1E8, GreaterThanOrEqualTo)
    ensures t.e >= 26
  {
    if t.e < 26 {
      ComparePositive(t, K1E8);
    }
  }

  /**
   * The first loop: every pass moves the binary exponent up by at least 26
   * while the decimal one goes down by 8, and the loop leaves the exponent
   * at most 26 once it has run.
   */
  lemma {:induction false} RaisedBound(t: Tmp, b: int)
    requires PosNormal(t)
    ensures var (t1, b1) := Raised(t, b);
      b1 <= b && 13 * (b - b1) <= 4 * (t1.e - t.e) && (b1 < b ==> t1.e <= 26) && (b1 == b ==> t1 == t)
    decreases -t.e
  {
    if TmpCompare(t, K1, LessThan) {
      BelowOne(t);
      RaisedBound(Times(t, K1E8), b - 8);
    }
  }

  /** The second loop: every pass moves the binary exponent down by at least 26 and stops above -2. */
  lemma {:induction false} LoweredBound(t: Tmp, b: int)
    requires PosNormal(t)
    ensures var (t1, b1) := Lowered(t, b);
      b1 >= b && 13 * (b1 - b) <= 4 * (t.e - t1.e) && (b1 > b ==> t1.e >= -1) && (b1 == b ==> t1 == t)
    decreases t.e
  {
    ReciprocalConstants();
    if TmpCompare(t, K1E8, GreaterThanOrEqualTo) {
      NotBelowHundredMillion(t);
      var u := Times(t, K1EN8);
      assert -1 <= u.e <= t.e - 26;
      LoweredBound(u, b + 8);
      assert Lowered(t, b) == Lowered(u, b + 8);
    } else {
      assert Lowered(t, b) == (t, b);
    }
  }

  /**
   * For a value unpacked from a pattern the decimal exponent has at most
   * two digits: it lies in [-58, 51].
   */
  lemma Base10Bound(t: Tmp, p: int)
    requires PosNormal(t) && -160 <= t.e <= 128
    ensures -58 <= Base10(t, p, After).1 <= 51
  {
    LoopsBound(t);
  }

  /** The two loops leave the decimal exponent in [-57, 39]. */
  lemma LoopsBound(t: Tmp)
    requires PosNormal(t) && -160 <= t.e <= 128
    ensures -57 <= Loops(t).1 <= 39
  {
    var (t1, b1) := Raised(t, 0);
    RaisedBound(t, 0);
    LoweredBound(t1, b1);
  }

  /** Taking a + b steps is taking a steps and then b more from the state they leave. */
  lemma {:induction false} IterateSplit(step: Tmp -> (char, Tmp), t: Tmp, a: nat, b: nat)
    ensures Iterate(step, t, a + b).0 == Iterate(step, t, a).0 + Iterate(step, Iterate(step, t, a).1, b).0
    ensures Iterate(step, t, a + b).1 == Iterate(step, Iterate(step, t, a).1, b).1
  {
    var x := Iterate(step, t, a);
    if b == 0 {
      assert x.0 + [] == x.0;
    } else {
      IterateSplit(step, t, a, b - 1);
      var y := Iterate(step, x.1, b - 1);
      var d := step(y.1);
      assert (x.0 + y.0) + [d.0] == x.0 + (y.0 + [d.0]);
    }
  }

  /** Taking a + b digits is taking a digits and then b more from what is left. */
  lemma DigitsSplit(t: Tmp, a: nat, b: nat)
    ensures Digits(t, a + b).0 == Digits(t, a).0 + Digits(Digits(t, a).1, b).0
    ensures Digits(t, a + b).1 == Digits(Digits(t, a).1, b).1
  {
    IterateSplit(NextDigit, t, a, b);
  }

  /** One digit is one call of flt_tmp_get_next_digit. */
  lemma DigitsOne(t: Tmp)
    ensures Digits(t, 1) == ([NextDigit(t).0], NextDigit(t).1)
  {
    var d := NextDigit(t);
    assert Digits(t, 0) == ([], t);
    assert [] + [d.0] == [d.0];
  }

  /** Once the value is Zero every further digit is '0'. */
  lemma {:induction false} DigitsOfZero(t: Tmp, n: nat)
    requires t.c == Zero
    ensures Digits(t, n) == (Zeros(n), t)
  {
    if n > 0 {
      DigitsOfZero(t, n - 1);
      var p := Iterate(NextDigit, t, n - 1);
      assert p == (Zeros(n - 1), t);
      assert NextDigit(t) == ('0', t);
      assert Iterate(NextDigit, t, n) == (p.0 + ['0'], t);
    }
  }

  /**
   * The e format of a Normal, from its normalized value u and decimal
   * exponent b: sign, one digit, '.', p digits, then the exponent; the
   * p + 1 digits are the first p + 1 of the expansion of u.
   */
  lemma ELayout(s: Bit, u: Tmp, b: int, p: nat)
    requires -99 <= b <= 99
    ensures var r := ENormal(s, u, b, p);
      |r| == p + 7 && r[0] == SignChar(s) && r[2] == '.' && r[p + 3..] == ExponentText(b)
      && [r[1]] + r[3..p + 3] == Digits(u, p + 1).0
  {
    var (first, u1) := NextDigit(u);
    var (rest, _) := Digits(u1, p);
    DigitsSplit(u, 1, p);
    DigitsOne(u);
    var r := ENormal(s, u, b, p);
    assert r == [SignChar(s), first, '.'] + rest + ExponentText(b);
    assert r[3..p + 3] == rest;
  }

  /** A zero prints in the e format as "0." and p zeros with exponent +00, the same width as a Normal. */
  lemma EZeroLayout(t: Tmp, p: nat)
    requires t.c == Zero && p <= 9 && -160 <= t.e <= 128
    ensures var r := ERaw(t, p);
      |r| == p + 7 && r[0] == SignChar(t.s) && r[1] == '0' && r[2] == '.' && r[p + 3..] == "e+00"
      && forall i :: 3 <= i < p + 3 ==> r[i] == '0'
  {
    var r := ERaw(t, p);
    assert r == [SignChar(t.s), '0', '.'] + "000000000"[..p] + "e+00";
  }

  /**
   * The f format of a Normal of at least one: the b + 1 digits before the
   * point and the p after it are the first b + p + 1 of the expansion of u.
   */
  lemma FLayoutLarge(s: Bit, u: Tmp, b: int, p: nat)
    requires b >= 0
    ensures var r := FNormal(s, u, b, p);
      |r| == b + p + 3 && r[0] == SignChar(s) && r[b + 2] == '.'
      && r[1..b + 2] + r[b + 3..] == Digits(u, b + 1 + p).0
  {
    var whole := Digits(u, b + 1).0;
    var fraction := Digits(Digits(u, b + 1).1, p).0;
    DigitsSplit(u, b + 1, p);
    assert Digits(u, b + 1 + p).0 == whole + fraction;
    var r := FNormal(s, u, b, p);
    assert r == [SignChar(s)] + whole + ['.'] + fraction;
    assert r[1..b + 2] == whole && r[b + 3..] == fraction;
  }

  /**
   * The f format of a Normal below one: "0.", -b - 1 zeros, then as many
   * digits of the expansion as still fit in the precision.
   */
  lemma FLayoutSmall(s: Bit, u: Tmp, b: int, p: nat)
    requires b < 0
    ensures var r := FNormal(s, u, b, p);
      var n := if p + b + 1 > 0 then p + b + 1 else 0;
      |r| == 2 - b + n && r[..3] == [SignChar(s), '0', '.']
      && (forall i :: 3 <= i < 2 - b ==> r[i] == '0') && r[2 - b..] == Digits(u, n).0
  {
    var n := if p + b + 1 > 0 then p + b + 1 else 0;
    var r := FNormal(s, u, b, p);
    assert r == [SignChar(s), '0', '.'] + Zeros(-b - 1) + Digits(u, n).0;
  }

  /** A zero prints in the f format as "0." and p zeros. */
  lemma FZeroLayout(t: Tmp, p: nat)
    requires t.c == Zero && p <= 9
    ensures var r := FRaw(t, p);
      |r| == p + 3 && r[..3] == [SignChar(t.s), '0', '.'] && forall i :: 3 <= i < p + 3 ==> r[i] == '0'
  {
    var r := FRaw(t, p);
    assert r == [SignChar(t.s), '0', '.'] + "000000000"[..p];
  }

  /** The precision is the digit right after the first '.'; without one, or without a digit after it, 6. */
  lemma PrecisionCases(format: string, k: int)
    requires k == Find(format, '.')
    ensures k >= 0 && k + 1 < |format| && '0' <= format[k + 1] <= '9' ==> Precision(format) == format[k + 1] as int - '0' as int
    ensures k < 0 || k + 1 == |format| || !('0' <= format[k + 1] <= '9') ==> Precision(format) == 6
  {
  }

  /** The three precisions of the formats "%.3e", "%e" and "%.e". */
  lemma PrecisionExamples(a: string, b: string, c: string)
    requires a == "%.3e" && b == "%e" && c == "%.e"
    ensures Precision(a) == 3 && Precision(b) == 6 && Precision(c) == 6
  {
    assert Find(a, '.') == 1;
    assert Find(b, '.') == -1;
    assert Find(c, '.') == 1;
  }

  /** printf_post_process removes at most the first '.' and a leading '+'. */
  lemma PostProcessedLength(s: string, format: string, p: int)
    ensures |s| - 2 <= |PostProcessed(s, format, p)| <= |s|
  {
  }

  /** With E, F or G in the format no lower-case letter is left. */
  lemma PostProcessedUpper(s: string, format: string, p: int)
    requires UpperFormat(format)
    ensures forall i :: 0 <= i < |PostProcessed(s, format, p)| ==> !('a' <= PostProcessed(s, format, p)[i] <= 'z')
  {
    var s1 := Cased(s, format);
    assert forall i :: 0 <= i < |s1| ==> !('a' <= s1[i] <= 'z');
    var s2 := Undotted(s1, p);
    assert forall i :: 0 <= i < |s2| ==> !('a' <= s2[i] <= 'z') by {
      var k := Find(s1, '.');
      if p == 0 && k >= 0 {
        assert forall i :: 0 <= i < |s2| ==> s2[i] == (if i < k then s1[i] else s1[i + 1]);
      }
    }
  }

  /**
   * With a non-zero precision and lower-case letters only, the text is kept
   * as it is when the format has '+', and loses a leading '+' otherwise.
   */
  lemma PostProcessedPlain(s: string, format: string, p: int)
    requires p != 0 && !UpperFormat(format)
    ensures Find(format, '+') >= 0 ==> PostProcessed(s, format, p) == s
    ensures Find(format, '+') < 0 && |s| > 0 && s[0] == '+' ==> PostProcessed(s, format, p) == s[1..]
    ensures Find(format, '+') < 0 && (|s| == 0 || s[0] != '+') ==> PostProcessed(s, format, p) == s
  {
  }

  /** At precision 0 the point goes: a text with one '.' has none afterwards. */
  lemma PostProcessedNoPoint(s: string, format: string, k: nat)
    requires k < |s| && s[k] == '.' && '.' !in s[..k] && '.' !in s[k + 1..]
    ensures '.' !in PostProcessed(s, format, 0)
  {
    var s1 := Cased(s, format);
    assert |s1| == |s| && forall i :: 0 <= i < |s| ==> (s1[i] == '.' <==> s[i] == '.');
    assert s1[k] == '.' && '.' !in s1[..k];
    assert Find(s1, '.') == k;
    var s2 := Undotted(s1, 0);
    assert s2 == s1[..k] + s1[k + 1..];
    assert forall i :: 0 <= i < |s2| ==> s2[i] != '.';
  }

  /** The g choice for a zero: 0 is below 1e-5, so a zero prints in the e format. */
  lemma ScientificZero(t: Tmp)
    requires t.c == Zero
    ensures Scientific(t)
  {
    ReciprocalConstants();
    FltBasic.SumZero(FltBasic.Negated(K1EN5), t.(s := 0));
  }

  /** The g choice for an infinity: at least 1e5, so the e format. */
  lemma ScientificInfinite(t: Tmp)
    requires t.c == Infinite
    ensures Scientific(t)
  {
  }

  /** The g choice for a NaN: no comparison holds, so the f format. */
  lemma ScientificNaN(t: Tmp)
    requires t.c == NaN
    ensures !Scientific(t)
  {
  }

  /**
   * The g choice for a Normal: scientific from 2^17 up and below 2^-17,
   * fixed from 2^-16 to below 2^16; the binades either side of 1e5 and 1e-5
   * depend on the mantissa.
   */
  lemma ScientificNormal(t: Tmp)
    requires Wf(t) && t.c == Normal
    ensures t.e > 16 || t.e < -17 ==> Scientific(t)
    ensures -17 < t.e < 16 ==> !Scientific(t)
  {
    ReciprocalConstants();
    var u := t.(s := 0);
    ComparePositive(u, K1E5);
    ComparePositive(u, K1EN5);
  }

  /** The text of a special value after printf_post_process: upper case on request, a '+' only when asked for. */
  function Shown(text: string, format: string): (r: string)
  {
    var t := if Find(format, '+') < 0 && |text| > 0 && text[0] == '+' then text[1..] else text;
    if UpperFormat(format) then Uppercased(t) else t
  }

  /** Post-processing a text with no '.' only cases it and drops a plus; the order does not matter. */
  lemma PostProcessedNoDot(s: string, format: string, p: int)
    requires forall i :: 0 <= i < |s| ==> s[i] != '.'
    ensures PostProcessed(s, format, p) == Shown(s, format)
  {
    var s1 := Cased(s, format);
    assert forall i :: 0 <= i < |s1| ==> s1[i] != '.';
    assert Undotted(s1, p) == s1;
    if UpperFormat(format) && |s| > 0 {
      assert s1[0] == '+' <==> s[0] == '+';
      if Find(format, '+') < 0 && s[0] == '+' {
        assert Uppercased(s)[1..] == Uppercased(s[1..]);
      }
    }
  }

  /** Both formats print an infinity or a NaN the same way. */
  lemma SpecialFormats(t: Tmp, format: string)
    requires (t.c == Infinite || t.c == NaN) && -160 <= t.e <= 128
    ensures EFormat(t, format) == Shown(SpecialText(t), format)
    ensures FFormat(t, format) == Shown(SpecialText(t), format)
  {
    PostProcessedNoDot(SpecialText(t), format, Precision(format));
  }

  /** Every format prints a NaN as "nan", or "NAN" when the format asks for upper case. */
  lemma FtoaNaN(f: Flt, format: string)
    requires IsNaN(f)
    ensures Ftoa(f, format) == if UpperFormat(format) then "NAN" else "nan"
  {
    var t := Unpacked(f);
    ScientificNaN(t);
    SpecialFormats(t, format);
    assert Uppercased("nan") == "NAN";
  }

  /**
   * Every format prints an infinity as its sign and "inf": a '+' only when
   * the format has one, upper case when it asks for it.
   */
  lemma FtoaInfinity(f: Flt, format: string)
    requires IsInf(f)
    ensures Ftoa(f, format) == Shown(if SignField(f) == 1 then "-inf" else "+inf", format)
  {
    var t := Unpacked(f);
    ScientificInfinite(t);
    SpecialFormats(t, format);
  }

  /** "%e" prints +0 as 0.000000e+00. */
  lemma FtoaZeroE(format: string)
    requires format == "%e"
    ensures Ftoa(FLT_POS_0, format) == "0.000000e+00"
  {
    FltClassify.FieldsCompose(FLT_POS_0);
    assert format[0] == '%' && format[1] == 'e';
    assert Find(format, '.') == -1 && Find(format, 'e') == 1 && Find(format, '+') == -1;
    assert !UpperFormat(format);
  }

  /** "%g" picks the e format for a zero, so +0 prints as 0.000000e+00 there too. */
  lemma FtoaZeroG(f: Flt, format: string)
    requires f == FLT_POS_0 && format == "%g"
    ensures Ftoa(f, format) == "0.000000e+00"
  {
    FltClassify.FieldsCompose(f);
    var z := Unpacked(f);
    assert z == Tmp(Zero, 0, 0, 0);
    GeneralZero(z, format);
    assert format[0] == '%' && format[1] == 'g';
    assert Find(format, 'e') == -1 && Find(format, 'E') == -1;
    assert Find(format, 'f') == -1 && Find(format, 'F') == -1;
    assert Ftoa(f, format) == EFormat(z, format);
    assert Find(format, '.') == -1 && Find(format, '+') == -1;
    assert !UpperFormat(format);
    ZeroE(z, format);
  }

  /** The e format of +0 under a format with no '+', no upper case and the default precision. */
  lemma ZeroE(z: Tmp, format: string)
    requires z == Tmp(Zero, 0, 0, 0) && Find(format, '.') == -1 && Find(format, '+') == -1 && !UpperFormat(format)
    ensures EFormat(z, format) == "0.000000e+00"
  {
    assert Precision(format) == 6;
    assert ERaw(z, 6) == "+0.000000e+00";
  }

  /** The g choice prints every zero in the e format. */
  lemma GeneralZero(t: Tmp, format: string)
    requires t.c == Zero && -160 <= t.e <= 128
    ensures GFormat(t, format) == EFormat(t, format)
  {
    ScientificZero(t);
  }

  /** "%.2f" prints -0 as -0.00: the sign of a zero is kept. */
  lemma FtoaNegativeZeroF(format: string)
    requires format == "%.2f"
    ensures Ftoa(FLT_NEG_0, format) == "-0.00"
  {
    FltClassify.FieldsCompose(FLT_NEG_0);
    assert format[0] == '%' && format[1] == '.' && format[2] == '2' && format[3] == 'f';
    assert Find(format, '.') == 1 && Find(format, 'e') == -1 && Find(format, 'E') == -1;
    assert Find(format, 'f') == 3 && Find(format, '+') == -1;
    assert !UpperFormat(format);
  }

  /** "%+.0E" prints +0 as +0E+00: sign kept, point dropped, upper case. */
  lemma FtoaZeroUpper(format: string)
    requires format == "%+.0E"
    ensures Ftoa(FLT_POS_0, format) == "+0E+00"
  {
    FltClassify.FieldsCompose(FLT_POS_0);
    assert format[0] == '%' && format[1] == '+' && format[2] == '.' && format[3] == '0' && format[4] == 'E';
    assert Find(format, '.') == 2 && Find(format, 'e') == -1 && Find(format, 'E') == 4 && Find(format, '+') == 1;
    assert UpperFormat(format);
    var r := ZeroText(0, 0) + "e+00";
    assert r == "+0.e+00";
    var u := Uppercased(r);
    assert u[0] == '+' && u[1] == '0' && u[2] == '.';
    assert Find(u, '.') == 2;
    assert u == "+0.E+00";
  }
}
