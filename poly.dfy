/**
 * flt/flt-poly.c: Horner evaluation of a polynomial whose coefficients are
 * given as three parallel tables (signs, mantissas, exponents), highest
 * degree first.
 */
module FltPoly {
  import opened FltTypes
  import FltInit
  import FltBasic

  /** Coefficient i of the tables, as flt_tmp_evaluate initializes it. */
  function Coefficient(ps: seq<Bit>, pm: seq<U32>, pe: seq<int>, i: nat): (c: Tmp)
    requires i < |ps| && i < |pm| && i < |pe|
    ensures c.c == Normal && c.s == ps[i] && c.m == pm[i] && c.e == pe[i]
  {
    Tmp(Normal, ps[i], pm[i], pe[i])
  }

  /** Every coefficient in the first n entries is a normalized Normal. */
  predicate NormalizedTables(ps: seq<Bit>, pm: seq<U32>, pe: seq<int>, n: nat)
    requires n <= |ps| && n <= |pm| && n <= |pe|
  {
    forall i :: 0 <= i < n ==> TMP_1 <= pm[i] < TMP_2
  }

  /**
   * The accumulator after the first n coefficients: it starts at coefficient
   * 0, and each further coefficient i is folded in as u * t + c_i, with the
   * working multiply and add.
   */
  function Horner(t: Tmp, ps: seq<Bit>, pm: seq<U32>, pe: seq<int>, n: nat): (u: Tmp)
    requires 1 <= n <= |ps| && n <= |pm| && n <= |pe|
    ensures n == 1 ==> u == Coefficient(ps, pm, pe, 0)
    decreases n
  {
    if n == 1 then Coefficient(ps, pm, pe, 0)
    else FltBasic.Sum(FltBasic.Product(Horner(t, ps, pm, pe, n - 1), t), Coefficient(ps, pm, pe, n - 1))
  }

  /** The number of coefficients the loop uses: at least the first, then up to limit. */
  function Terms(limit: int): (n: nat)
    ensures n >= 1 && (limit >= 1 ==> n == limit)
  {
    if limit < 1 then 1 else limit
  }

  /**
   * flt_tmp_evaluate: *pt becomes the polynomial at *pt. The tables are
   * values, so they are only read; the ghost count is the number of
   * multiply-add steps, one per coefficient after the first.
   */
  method Evaluate(pt: FltTmp, limit: int, ps: seq<Bit>, pm: seq<U32>, pe: seq<int>) returns (ghost steps: nat)
    requires Terms(limit) <= |ps| && Terms(limit) <= |pm| && Terms(limit) <= |pe|
    modifies pt
    ensures pt.Value() == Horner(old(pt.Value()), ps, pm, pe, Terms(limit))
    ensures steps == Terms(limit) - 1
  {
    ghost var t := pt.Value();
    var u := new FltTmp();
    var v := new FltTmp();
    FltInit.Initialize(u, Normal, ps[0], pm[0], pe[0]);
    steps := 0;
    var i := 1;
    while i < limit
      invariant 1 <= i <= Terms(limit)
      invariant pt.Value() == t
      invariant u.Value() == Horner(t, ps, pm, pe, i)
      invariant steps == i - 1
      decreases limit - i
    {
      HornerPass(u, v, pt, ps, pm, pe, i);
      i := i + 1;
      steps := steps + 1;
    }
    assert i == Terms(limit);
    ghost var r := u.Value();
    assert r == Horner(t, ps, pm, pe, Terms(limit));
    FltInit.Copy(pt, u);
    assert pt.Value() == r;
  }

  /** One pass of the loop of flt_tmp_evaluate: u = u * t + coefficient i, with v as scratch. */
  method HornerPass(u: FltTmp, v: FltTmp, pt: FltTmp, ps: seq<Bit>, pm: seq<U32>, pe: seq<int>, i: nat)
    requires u != pt && v != pt && u != v
    requires 1 <= i < |ps| && i < |pm| && i < |pe|
    requires u.Value() == Horner(pt.Value(), ps, pm, pe, i)
    modifies u, v
    ensures u.Value() == Horner(pt.Value(), ps, pm, pe, i + 1)
  {
    ghost var w := u.Value();
    FltBasic.Multiply(u, pt);
    FltInit.Initialize(v, Normal, ps[i], pm[i], pe[i]);
    FltBasic.Add(u, v.Value());
    HornerNext(pt.Value(), ps, pm, pe, i, w, v.Value(), u.Value());
  }

  /** One loop step: the accumulator for n coefficients times t, plus coefficient n. */
  lemma HornerNext(t: Tmp, ps: seq<Bit>, pm: seq<U32>, pe: seq<int>, n: nat, w: Tmp, c: Tmp, u: Tmp)
    requires 1 <= n < |ps| && n < |pm| && n < |pe|
    requires w == Horner(t, ps, pm, pe, n) && c == Tmp(Normal, ps[n], pm[n], pe[n])
    requires u == FltBasic.Sum(FltBasic.Product(w, t), c)
    ensures u == Horner(t, ps, pm, pe, n + 1)
  {
  }

  // ------------------------------------------------------------------ lemmas

  /** With a single coefficient the result is that coefficient, whatever t is. */
  lemma EvaluateConstant(t: Tmp, t': Tmp, ps: seq<Bit>, pm: seq<U32>, pe: seq<int>)
    requires 1 <= |ps| && 1 <= |pm| && 1 <= |pe|
    ensures Horner(t, ps, pm, pe, 1) == Horner(t', ps, pm, pe, 1) == Tmp(Normal, ps[0], pm[0], pe[0])
  {
  }

  /** With normalized coefficients and a well-formed t, the result is well formed. */
  lemma {:induction false} HornerWf(t: Tmp, ps: seq<Bit>, pm: seq<U32>, pe: seq<int>, n: nat)
    requires 1 <= n <= |ps| && n <= |pm| && n <= |pe|
    requires Wf(t) && NormalizedTables(ps, pm, pe, n)
    ensures Wf(Horner(t, ps, pm, pe, n))
    decreases n
  {
    if n > 1 {
      HornerWf(t, ps, pm, pe, n - 1);
    }
  }

  /**
   * At a finite t the result is finite: products and sums of Normals and
   * Zeros are Normals and Zeros, so no NaN or infinity can arise.
   */
  lemma {:induction false} HornerFinite(t: Tmp, ps: seq<Bit>, pm: seq<U32>, pe: seq<int>, n: nat)
    requires 1 <= n <= |ps| && n <= |pm| && n <= |pe|
    requires t.c == Normal || t.c == Zero
    ensures Horner(t, ps, pm, pe, n).c == Normal || Horner(t, ps, pm, pe, n).c == Zero
    decreases n
  {
    if n > 1 {
      HornerFinite(t, ps, pm, pe, n - 1);
    }
  }

  /**
   * At t == 0 every product is a zero, so the sum keeps only the last
   * coefficient: the value of the polynomial at 0 is its constant term.
   */
  lemma {:induction false} HornerAtZero(s: Bit, e: int, ps: seq<Bit>, pm: seq<U32>, pe: seq<int>, n: nat)
    requires 1 <= n <= |ps| && n <= |pm| && n <= |pe|
    ensures Horner(Tmp(Zero, s, 0, e), ps, pm, pe, n) == Coefficient(ps, pm, pe, n - 1)
    decreases n
  {
    if n > 1 {
      HornerAtZero(s, e, ps, pm, pe, n - 1);
    }
  }

  /** A NaN argument gives NaN as soon as there is a multiply. */
  lemma {:induction false} HornerAtNaN(ps: seq<Bit>, pm: seq<U32>, pe: seq<int>, n: nat)
    requires 2 <= n <= |ps| && n <= |pm| && n <= |pe|
    ensures Horner(Tmp(NaN, 0, 0, 0), ps, pm, pe, n).c == NaN
    decreases n
  {
    if n > 2 {
      HornerAtNaN(ps, pm, pe, n - 1);
    }
  }

  /**
   * The argument is read only through the fields its class uses, so
   * equivalent arguments give the same polynomial value.
   */
  lemma {:induction false} HornerEquivalent(t: Tmp, t': Tmp, ps: seq<Bit>, pm: seq<U32>, pe: seq<int>, n: nat)
    requires 1 <= n <= |ps| && n <= |pm| && n <= |pe|
    requires Equivalent(t, t')
    ensures Horner(t, ps, pm, pe, n) == Horner(t', ps, pm, pe, n)
    decreases n
  {
    if n > 1 {
      HornerEquivalent(t, t', ps, pm, pe, n - 1);
      FltBasic.ProductRightEquivalent(Horner(t, ps, pm, pe, n - 1), t, t');
    }
  }

  /** Only the first n entries of the tables are read. */
  lemma {:induction false} HornerPrefix(t: Tmp, ps: seq<Bit>, pm: seq<U32>, pe: seq<int>, n: nat, k: nat)
    requires 1 <= n <= k && k <= |ps| && k <= |pm| && k <= |pe|
    ensures Horner(t, ps, pm, pe, n) == Horner(t, ps[..k], pm[..k], pe[..k], n)
    decreases n
  {
    CoefficientPrefix(ps, pm, pe, n - 1, k);
    if n > 1 {
      HornerPrefix(t, ps, pm, pe, n - 1, k);
      var a := Horner(t, ps, pm, pe, n - 1);
      assert Horner(t, ps, pm, pe, n) == FltBasic.Sum(FltBasic.Product(a, t), Coefficient(ps, pm, pe, n - 1));
      assert Horner(t, ps[..k], pm[..k], pe[..k], n) == FltBasic.Sum(FltBasic.Product(a, t), Coefficient(ps[..k], pm[..k], pe[..k], n - 1));
    }
  }

  /** A coefficient is unaffected by truncating the tables past it. */
  lemma CoefficientPrefix(ps: seq<Bit>, pm: seq<U32>, pe: seq<int>, i: nat, k: nat)
    requires i < k && k <= |ps| && k <= |pm| && k <= |pe|
    ensures Coefficient(ps, pm, pe, i) == Coefficient(ps[..k], pm[..k], pe[..k], i)
  {
    assert ps[..k][i] == ps[i] && pm[..k][i] == pm[i] && pe[..k][i] == pe[i];
  }
}
