/**
 * Shared vocabulary of the FLT library: the 32-bit pattern FLT, the class and
 * comparison enumerations of flt/flt.h, the working value flt_tmp of
 * flt/flt-tmp.h and the constants both headers define.
 */
module FltTypes {

  /** An IEEE 754 binary32 bit pattern (FLT is a uint32_t). */
  type Flt = x: int | 0 <= x < 0x1_0000_0000
  type U32 = x: int | 0 <= x < 0x1_0000_0000
  type U16 = x: int | 0 <= x < 0x1_0000
  type I32 = x: int | -0x8000_0000 <= x < 0x8000_0000
  /** A sign field: 0 for positive, 1 for negative. */
  type Bit = x: int | 0 <= x <= 1

  const TWO_32: int := 0x1_0000_0000

  const FLT_POS_INF: Flt := 0x7F80_0000
  const FLT_NEG_INF: Flt := 0xFF80_0000
  const FLT_NAN: Flt := 0x7FFF_FFFF
  const FLT_POS_0: Flt := 0x0000_0000
  const FLT_NEG_0: Flt := 0x8000_0000
  const FLT_POS_1: Flt := 0x3F80_0000
  const FLT_NEG_1: Flt := 0xBF80_0000
  const FLT_POS_PI_2: Flt := 0x3FC9_0FDB
  const FLT_NEG_PI_2: Flt := 0xBFC9_0FDB

  /** E_CLASS */
  datatype Class = Infinite | NaN | Normal | Subnormal | Zero

  /** E_COMPARE */
  datatype Relation =
    | EqualTo | LessThan | GreaterThan
    | LessThanOrEqualTo | GreaterThanOrEqualTo | NotEqualTo

  /** The working mantissa holds 1.0 as 2^30; a normalized one lies in [2^30, 2^31). */
  const TMP_1_BITS: nat := 30
  const TMP_1: U32 := 0x4000_0000
  const TMP_2_BITS: nat := 31
  const TMP_2: U32 := 0x8000_0000
  const TMP_U_SHFT: nat := 16
  const TMP_L_MASK: nat := 0xFFFF

  /** pi/2, 2 log 2 and 1/log 2 as working mantissas. */
  const TMP_PI_2: U32 := 0x6487_ED51
  const TMP_2LOG2: U32 := 0x58B9_0BFC
  const TMP_1_LOG2: U32 := 0x5C55_1D95

  /**
   * The value of flt_tmp: class, sign, 32-bit mantissa and signed exponent.
   * A Normal stands for (-1)^s * m * 2^(e - 30).
   */
  datatype Tmp = Tmp(c: Class, s: Bit, m: U32, e: int)

  /**
   * What every operation keeps: unpacking never produces the Subnormal
   * class, and a Normal always has its mantissa in [2^30, 2^31).
   */
  predicate Wf(t: Tmp) {
    t.c != Subnormal && (t.c == Normal ==> TMP_1 <= t.m < TMP_2)
  }

  /** A Normal working value with the sign bit clear. */
  predicate PosNormal(t: Tmp) {
    Wf(t) && t.c == Normal && t.s == 0
  }

  /**
   * Two working values that pack to the same pattern: same class, same sign
   * unless NaN, and the same mantissa and exponent when Normal (the fields a
   * class does not use are left over from earlier operations).
   */
  predicate Equivalent(a: Tmp, b: Tmp) {
    a.c == b.c && (a.c != NaN ==> a.s == b.s) && (a.c == Normal ==> a.m == b.m && a.e == b.e)
  }

  /** The C `^` on a sign field. */
  function Xor(a: Bit, b: Bit): (r: Bit)
    ensures (r == 1) <==> (a != b)
  {
    if a == b then 0 else 1
  }

  /** 2^n, the C shift `1 << n` without a width. */
  function Pow2(n: nat): (r: nat)
    ensures r >= 1
  {
    if n == 0 then 1 else 2 * Pow2(n - 1)
  }

  lemma {:induction false} Pow2Add(a: nat, b: nat)
    ensures Pow2(a + b) == Pow2(a) * Pow2(b)
  {
    if a > 0 {
      Pow2Add(a - 1, b);
      assert Pow2(a + b) == 2 * Pow2(a - 1 + b);
    }
  }

  lemma {:induction false} Pow2Monotone(a: nat, b: nat)
    requires a <= b
    ensures Pow2(a) <= Pow2(b)
  {
    if a < b {
      Pow2Monotone(a, b - 1);
    }
  }

  /** 2^a <= 2^b exactly when a <= b. */
  lemma Pow2Order(a: nat, b: nat)
    ensures a <= b <==> Pow2(a) <= Pow2(b)
  {
    if a <= b {
      Pow2Monotone(a, b);
    } else {
      Pow2Monotone(b + 1, a);
    }
  }

  /** From A < 2^a and 2^b <= A * 2^k: b < a + k. */
  lemma ProductExponentLower(A: nat, k: nat, a: nat, b: nat)
    requires A < Pow2(a) && Pow2(b) <= A * Pow2(k)
    ensures b < a + k
  {
    var P, K := Pow2(a), Pow2(k);
    MulLe(A + 1, P, K);
    assert A * K < (A + 1) * K;
    Pow2Add(a, k);
    assert Pow2(b) < Pow2(a + k);
    Pow2Order(a + k, b);
  }

  /** From 1 <= A and A * 2^k < 2^b: k < b. */
  lemma ProductExponentUpper(A: nat, k: nat, b: nat)
    requires 1 <= A && A * Pow2(k) < Pow2(b)
    ensures k < b
  {
    MulLe(1, A, Pow2(k));
    Pow2Order(b, k);
  }

  lemma Pow2Of31()
    ensures Pow2(31) == TMP_2
  {
    Pow2Values();
  }

  lemma Pow2Of30()
    ensures Pow2(30) == TMP_1
  {
    Pow2Values();
  }

  lemma Pow2Of24()
    ensures Pow2(24) == 0x100_0000
  {
    Pow2Values();
  }

  lemma Pow2Values()
    ensures Pow2(1) == 2 && Pow2(2) == 4 && Pow2(7) == 0x80 && Pow2(8) == 0x100
    ensures Pow2(14) == 0x4000 && Pow2(16) == 0x1_0000 && Pow2(23) == 0x80_0000
    ensures Pow2(24) == 0x100_0000
    ensures Pow2(30) == TMP_1 && Pow2(31) == TMP_2 && Pow2(32) == TWO_32
  {
    assert Pow2(8) == 0x100;
    assert Pow2(16) == 0x1_0000;
    assert Pow2(23) == 0x80_0000;
    assert Pow2(30) == TMP_1;
  }

  /** Dividing by 2^(a+b) is dividing by 2^a and then by 2^b. */
  lemma DivPow2Add(x: nat, a: nat, b: nat)
    ensures x / Pow2(a + b) == (x / Pow2(a)) / Pow2(b)
  {
    Pow2Add(a, b);
    DivDiv(x, Pow2(a), Pow2(b));
  }

  lemma DivDiv(x: nat, p: nat, q: nat)
    requires p > 0 && q > 0
    ensures x / (p * q) == (x / p) / q
  {
    var a := x / p;
    var b := a / q;
    var r := (a % q) * p + x % p;
    assert x == a * p + x % p;
    assert a == b * q + a % q;
    assert x == b * (p * q) + r by {
      assert a * p == (b * q + a % q) * p;
      assert (b * q + a % q) * p == b * (p * q) + (a % q) * p;
    }
    assert (a % q) * p <= (q - 1) * p by { MulLe(a % q, q - 1, p); }
    assert (q - 1) * p == p * q - p;
    DivUnique(x, p * q, b, r);
  }

  lemma MulLe(a: nat, b: nat, c: nat)
    requires a <= b
    ensures a * c <= b * c
  {
  }

  /** a <= b ==> a * c <= b * c, stated without a precondition. */
  lemma MulMono(a: int, b: int, c: nat)
    ensures a <= b ==> a * c <= b * c
  {
    if a <= b {
      var d := b - a;
      assert b * c == a * c + d * c;
    }
  }

  /** A non-zero multiple of d is at least d in magnitude. */
  lemma MulBound(k: int, d: int)
    requires d > 0
    ensures k >= 1 ==> k * d >= d
    ensures k <= -1 ==> k * d <= -d
  {
    MulMono(1, k, d);
    MulMono(k, -1, d);
  }

  /** The quotient is the unique q with x == q * d + r and 0 <= r < d. */
  lemma DivUnique(x: int, d: int, q: int, r: int)
    requires d > 0 && x == q * d + r && 0 <= r < d
    ensures x / d == q && x % d == r
  {
    var q0, r0 := x / d, x % d;
    var k := q0 - q;
    assert k * d == r - r0;
    MulBound(k, d);
  }

  /** q * d <= x means q does not exceed x / d. */
  lemma DivLowerBound(x: int, d: int, q: int)
    requires d > 0 && q * d <= x
    ensures q <= x / d
  {
    var k := q - x / d;
    assert k * d == q * d - (x / d) * d;
    MulBound(k, d);
  }

  /** Dividing by a larger divisor gives a smaller quotient. */
  lemma DivAntitone(x: nat, d1: nat, d2: nat)
    requires 0 < d1 <= d2
    ensures x / d2 <= x / d1
  {
    var q2 := x / d2;
    MulLe(d1, d2, q2);
    DivLowerBound(x, d1, q2);
  }

  /** The flt_tmp structure itself, updated in place by the flt_tmp_* functions. */
  class FltTmp {
    var c: Class
    var s: Bit
    var m: U32
    var e: int

    /** A fresh local; C leaves it uninitialized, every use initializes it first. */
    constructor ()
      ensures Value() == Tmp(Zero, 0, 0, 0)
    {
      c, s, m, e := Zero, 0, 0, 0;
    }

    function Value(): Tmp
      reads this
    {
      Tmp(c, s, m, e)
    }
  }

  /** A caller's FLT variable that the *_into functions read and overwrite through FLT *pf. */
  class FltBox {
    var value: Flt

    constructor (f: Flt)
      ensures value == f
    {
      value := f;
    }
  }

  /** A caller's int variable written through an int * out-parameter. */
  class IntBox {
    var value: int

    constructor (n: int)
      ensures value == n
    {
      value := n;
    }
  }
}
