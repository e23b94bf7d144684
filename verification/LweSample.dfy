/** Values behind the LWE accumulator: ciphertexts, lazy bounds, and sums of exact samples. */
module LweSample {
  import opened Arith
  import opened LweWords
  import Negacyclic

  /** Ring degree and the moduli of the first context level; a ciphertext of level L uses the first L. */
  datatype Context = Context(n: nat, q: seq<int>)
  {
    ghost predicate Valid()
    {
      n > 0 && |q| > 0 && forall l :: 0 <= l < |q| ==> 1 < q[l] && BitCount(q[l]) < 62
    }
  }

  /** An RLWE ciphertext: polynomials, then moduli, then coefficients. */
  datatype Rlwe = Rlwe(polys: seq<seq<seq<int>>>, ntt: bool)
  {
    predicate MetaOk(c: Context)
    {
      && |polys| > 0 && 0 < Level() <= |c.q|
      && forall i :: 0 <= i < |polys| ==>
           |polys[i]| == Level() && forall l :: 0 <= l < Level() ==> |polys[i][l]| == c.n
    }

    function Level(): nat
    {
      if |polys| == 0 then 0 else |polys[0]|
    }

    /** Coefficient k can be extracted; anything else throws. */
    predicate Extractable(k: nat, c: Context)
    {
      MetaOk(c) && !ntt && |polys| == 2 && k < c.n
    }

    /** Reduced words, the caller's obligation. */
    ghost predicate Reduced(c: Context)
    {
      MetaOk(c) ==>
        forall i, l :: 0 <= i < |polys| && 0 <= l < Level() ==> Words(polys[i][l], c.q[l])
    }

    function Extracted(k: nat, c: Context): (e: seq<Exact>)
      requires Extractable(k, c)
      ensures |e| == Level() && Shape(e, c.n)
    {
      seq(Level(), l requires 0 <= l < Level() => Extract(polys[0][l], polys[1][l], k))
    }
  }

  predicate Shape(e: seq<Exact>, n: nat)
  {
    forall l :: 0 <= l < |e| ==> |e[l].vec| == n
  }

  /** e + x * f, modulus by modulus. */
  function Sum(e: seq<Exact>, x: int, f: seq<Exact>, n: nat): (r: seq<Exact>)
    requires |e| == |f| && Shape(e, n) && Shape(f, n)
    ensures |r| == |e| && Shape(r, n)
  {
    seq(|e|, l requires 0 <= l < |e| => e[l].Plus(f[l].Times(x)))
  }

  function Negated(e: seq<Exact>, n: nat): (r: seq<Exact>)
    requires Shape(e, n)
    ensures |r| == |e| && Shape(r, n)
  {
    seq(|e|, l requires 0 <= l < |e| => e[l].Times(-1))
  }

  /** How many leading words of a plaintext are in range: the loop throws at the first that is not. */
  function Accepted(plain: seq<int>, q: seq<int>): (m: nat)
    requires |plain| <= |q|
    ensures m <= |plain| && (forall l :: 0 <= l < m ==> plain[l] < q[l])
    ensures m < |plain| ==> plain[m] >= q[m]
  {
    if |plain| == 0 || plain[0] >= q[0] then 0 else 1 + Accepted(plain[1..], q[1..])
  }

  /** x times the first m plaintext words added to the constants. */
  function PlainSum(e: seq<Exact>, x: int, plain: seq<int>, m: nat): (r: seq<Exact>)
    requires m <= |e| == |plain|
    ensures |r| == |e| && forall n :: Shape(e, n) ==> Shape(r, n)
  {
    seq(|e|, l requires 0 <= l < |e| => if l < m then Exact(e[l].vec, e[l].cnst + x * plain[l]) else e[l])
  }

  // ------------------------------------------------------------------ the lazy bound

  function MaxBits(q: seq<int>): (b: nat)
    ensures forall l :: 0 <= l < |q| ==> BitCount(q[l]) <= b
    ensures b == 0 || exists l :: 0 <= l < |q| && BitCount(q[l]) == b
  {
    if q == [] then 0 else
      var b := MaxBits(q[..|q| - 1]);
      if BitCount(q[|q| - 1]) > b then BitCount(q[|q| - 1]) else b
  }

  function MaximumLazy(q: seq<int>): int
  {
    var b := MaxBits(q);
    if b >= 62 then 0 else Pow(2, if 62 - b < 16 then 62 - b else 16)
  }

  method ComputeMaximumLazy(q: seq<int>) returns (m: int)
    ensures m == MaximumLazy(q)
  {
    var b := 0;
    for l := 0 to |q|
      invariant b == MaxBits(q[..l])
    {
      assert q[..l + 1][..l] == q[..l];
      b := if BitCount(q[l]) > b then BitCount(q[l]) else b;
    }
    assert q[..|q|] == q;
    m := if b >= 62 then 0 else Pow(2, if 62 - b < 16 then 62 - b else 16);
  }

  /** The budget: one more lazy addition below the maximum keeps every word under 2^64. */
  lemma BudgetFits(c: Context, l: nat, n: nat)
    requires c.Valid() && l < |c.q| && n < MaximumLazy(c.q)
    ensures Budget(n + 1, c.q[l]) <= Pow(2, 64)
  {
    hide Pow, BitCount, MaxBits;
    var b, q := MaxBits(c.q), c.q[l];
    PowMonotone(2, BitCount(q), b);
    PowMonotone(2, if 62 - b < 16 then 62 - b else 16, 62 - b);
    PowAdd(2, 62 - b, b);
    PowMonotone(2, b, 62);
    PowHalf(63);
    PowHalf(64);
    LazyProduct(n + 2, q, Pow(2, 62 - b), Pow(2, b));
  }

  /** The bound is the largest power of two up to 2^16 whose product with 2^b, for the longest modulus of b bits, stays
      within 2^62; there is none for moduli of 62 bits. */
  lemma MaximumExact(q: seq<int>)
    ensures MaxBits(q) >= 62 ==> MaximumLazy(q) == 0
    ensures var m, b := MaximumLazy(q), MaxBits(q);
            b < 62 ==> && (exists e: nat :: m == Pow(2, e)) && m <= Pow(2, 16) && m * Pow(2, b) <= Pow(2, 62)
                       && (m == Pow(2, 16) || 2 * (m * Pow(2, b)) > Pow(2, 62))
  {
    hide Pow, BitCount, MaxBits;
    var b := MaxBits(q);
    if b < 62 {
      var e: nat := if 62 - b < 16 then 62 - b else 16;
      PowMonotone(2, e, 16);
      PowAdd(2, e, b);
      PowMonotone(2, e + b, 62);
      assert Pow(2, 62) > 0;
    }
  }

  lemma LazyProduct(m: int, q: int, a: int, d: int)
    requires 0 <= m <= a + 1 && 0 <= q <= d
    ensures m * q <= a * d + d
  {
    MulBound(m, q, a + 1, d);
  }

  lemma MulBound(a: int, b: int, c: int, d: int)
    requires 0 <= a <= c && 0 <= b <= d
    ensures a * b <= c * d
  {
    assert (c - a) * b >= 0 && c * (d - b) >= 0;
  }

  lemma MaximumPositive(c: Context)
    requires c.Valid()
    ensures MaximumLazy(c.q) >= 1
  {
  }

  // ------------------------------------------------------------------ rows of words

  /** The rows from..to hold the exact samples e after n lazy additions. */
  ghost predicate RowsOk(vec: seq<seq<int>>, cnst: seq<int>, e: seq<Exact>, from: nat, to: nat, n: nat, q: seq<int>)
  {
    && |vec| == |cnst| == |e| <= |q| && to <= |e|
    && forall l :: from <= l < to ==> RowOk(vec[l], cnst[l], e[l], n, q[l])
  }

  /** Reduced sum or difference of two rows. */
  function CombineRow(u: seq<int>, x: int, v: seq<int>, q: int): (r: seq<int>)
    requires |u| == |v| && q > 0
    ensures |r| == |u| && forall i :: 0 <= i < |u| ==> r[i] == CombineWord(u[i], x, v[i], q)
  {
    seq(|u|, i requires 0 <= i < |u| => CombineWord(u[i], x, v[i], q))
  }

  /** Residue of u + x * v; x is 1 for add_uint_mod and -1 for sub_uint_mod. */
  function CombineWord(u: int, x: int, v: int, q: int): int
    requires q > 0
  {
    (u + x * v) % q
  }

  lemma CombineWordOk(u: int, e: int, x: int, v: int, f: int, q: int)
    requires q > 0 && Cong(u, e, q) && Cong(v, f, q)
    ensures WordOk(CombineWord(u, x, v, q), e + x * f, 0, q)
  {
    hide Cong, Budget;
    BudgetStep(0, q);
    CongRefl(x, q);
    CongMul(x, x, v, f, q);
    CongAdd(u, e, x * v, x * f, q);
    CongMod(u + x * v, q);
    CongTrans(CombineWord(u, x, v, q), u + x * v, e + x * f, q);
  }

  lemma CombineRowOk(u: seq<int>, c: int, e: Exact, x: int, v: seq<int>, d: int, f: Exact, q: int)
    requires q > 0 && RowOk(u, c, e, 0, q) && RowOk(v, d, f, 0, q) && |u| == |v|
    ensures RowOk(CombineRow(u, x, v, q), CombineWord(c, x, d, q), e.Plus(f.Times(x)), 0, q)
  {
    hide Cong, Budget;
    CombineWordOk(c, e.cnst, x, d, f.cnst, q);
    forall i | 0 <= i < |u|
      ensures WordOk(CombineWord(u[i], x, v[i], q), e.vec[i] + x * f.vec[i], 0, q)
    {
      CombineWordOk(u[i], e.vec[i], x, v[i], f.vec[i], q);
    }
  }

  lemma NegateWordOk(u: int, e: int, q: int)
    requires WordOk(u, e, 0, q)
    ensures WordOk(NegateWord(u, q), -1 * e, 0, q)
  {
    hide Cong, Budget;
    BudgetStep(0, q);
    CongIntro(NegateWord(u, q), -u, q, if u == 0 then 0 else 1);
    CongRefl(0, q);
    CongSub(0, 0, u, e, q);
    CongTrans(NegateWord(u, q), -u, -e, q);
  }

  lemma NegateRowOk(u: seq<int>, c: int, e: Exact, q: int)
    requires RowOk(u, c, e, 0, q)
    ensures RowOk(Map(u, w => NegateWord(w, q)), NegateWord(c, q), e.Times(-1), 0, q)
  {
    hide Cong, Budget, NegateWord;
    NegateWordOk(c, e.cnst, q);
    forall i | 0 <= i < |u|
      ensures WordOk(NegateWord(u[i], q), -1 * e.vec[i], 0, q)
    {
      NegateWordOk(u[i], e.vec[i], q);
    }
  }

  lemma PlainRowOk(u: seq<int>, c: int, e: Exact, x: int, p: int, q: int)
    requires q > 0 && RowOk(u, c, e, 0, q)
    ensures RowOk(u, CombineWord(c, x, p, q), Exact(e.vec, e.cnst + x * p), 0, q)
  {
    CongRefl(p, q);
    CombineWordOk(c, e.cnst, x, p, p, q);
  }
}
