/** Residue number systems: products of pairwise coprime moduli and the fast base conversion sum. */
module Rns {
  import opened Arith
  import opened NumberTheory

  function Prod(q: seq<int>): (r: int)
    ensures (forall i :: 0 <= i < |q| ==> q[i] > 0) ==> r > 0
  {
    if |q| == 0 then 1 else q[0] * Prod(q[1..])
  }

  /** The product of all moduli but the l-th. */
  function Punctured(q: seq<int>, l: nat): int
    requires l < |q|
  {
    Prod(q[..l]) * Prod(q[l + 1..])
  }

  ghost predicate Base(q: seq<int>)
  {
    && |q| > 0
    && (forall i :: 0 <= i < |q| ==> q[i] > 1)
    && (forall i, j :: 0 <= i < |q| && 0 <= j < |q| && i != j ==> Unit(q[i], q[j]))
  }

  /** x is any integer with these residues. */
  ghost predicate Represents(x: int, r: seq<int>, q: seq<int>)
  {
    |r| == |q| && forall l :: 0 <= l < |q| ==> Cong(x, r[l], q[l])
  }

  /** An integer is represented by its own remainders, modulus by modulus. */
  lemma OwnRemainders(x: int, q: seq<int>)
    requires forall l :: 0 <= l < |q| ==> q[l] > 1
    ensures Represents(x, seq(|q|, l requires 0 <= l < |q| => x % q[l]), q)
  {
    forall l | 0 <= l < |q| ensures Cong(x, x % q[l], q[l]) { CongMod(x, q[l]); }
  }

  lemma {:induction false} ProdAppend(a: seq<int>, b: seq<int>)
    ensures Prod(a + b) == Prod(a) * Prod(b)
  {
    if |a| == 0 {
      assert a + b == b;
    } else {
      ProdAppend(a[1..], b);
      assert (a + b)[1..] == a[1..] + b;
      assert a[0] * (Prod(a[1..]) * Prod(b)) == (a[0] * Prod(a[1..])) * Prod(b);
    }
  }

  lemma PuncturedTimes(q: seq<int>, l: nat)
    requires l < |q|
    ensures Punctured(q, l) * q[l] == Prod(q)
  {
    assert q == q[..l] + q[l..];
    ProdAppend(q[..l], q[l..]);
    assert q[l..][1..] == q[l + 1..];
    assert Prod(q[l..]) == q[l] * Prod(q[l + 1..]);
    Rotate(Prod(q[..l]), q[l], Prod(q[l + 1..]));
  }

  lemma Rotate(a: int, b: int, c: int)
    ensures a * (b * c) == (a * c) * b
  {
  }

  lemma {:induction false} ProdUnit(q: seq<int>, m: int)
    requires forall i :: 0 <= i < |q| ==> Unit(q[i], m)
    ensures Unit(Prod(q), m)
  {
    if |q| == 0 {
      CongIntro(1 * 1, 1, m, 0);
      UnitIntro(1, 1, m);
    } else {
      ProdUnit(q[1..], m);
      UnitMul(q[0], Prod(q[1..]), m);
    }
  }

  lemma PuncturedUnit(q: seq<int>, l: nat)
    requires Base(q) && l < |q|
    ensures Unit(Punctured(q, l), q[l]) && Punctured(q, l) > 0
  {
    ProdUnit(q[..l], q[l]);
    ProdUnit(q[l + 1..], q[l]);
    UnitMul(Prod(q[..l]), Prod(q[l + 1..]), q[l]);
  }

  lemma {:induction false} ProdMultiple(q: seq<int>, i: nat)
    requires i < |q|
    ensures Cong(Prod(q), 0, q[i])
  {
    PuncturedTimes(q, i);
    CongMultiple(q[i], Punctured(q, i));
  }

  lemma PuncturedZero(q: seq<int>, k: nat, l: nat)
    requires k < |q| && l < |q| && k != l
    ensures Cong(Punctured(q, k), 0, q[l])
  {
    hide Cong;
    if l < k {
      ProdMultiple(q[..k], l);
      CongRefl(Prod(q[k + 1..]), q[l]);
      CongMul(Prod(q[..k]), 0, Prod(q[k + 1..]), Prod(q[k + 1..]), q[l]);
    } else {
      ProdMultiple(q[k + 1..], l - k - 1);
      CongRefl(Prod(q[..k]), q[l]);
      CongMul(Prod(q[..k]), Prod(q[..k]), Prod(q[k + 1..]), 0, q[l]);
    }
  }

  /** Congruences modulo every modulus combine to one modulo the product. */
  lemma {:induction false} CrtAll(a: int, b: int, q: seq<int>, n: nat)
    requires Base(q) && n <= |q| && forall l :: 0 <= l < n ==> Cong(a, b, q[l])
    ensures Cong(a, b, Prod(q[..n]))
  {
    hide Cong, Unit;
    if n == 0 {
      CongIntro(a, b, 1, a - b);
      assert Prod(q[..0]) == 1;
    } else {
      CrtAll(a, b, q, n - 1);
      ProdUnit(q[..n - 1], q[n - 1]);
      Crt(a, b, Prod(q[..n - 1]), q[n - 1]);
      assert q[..n] == q[..n - 1] + [q[n - 1]];
      ProdAppend(q[..n - 1], [q[n - 1]]);
      assert Prod([q[n - 1]]) == q[n - 1] * Prod([]) == q[n - 1];
    }
  }

  /** The conversion sum of y over the first n moduli. */
  function ConvSum(y: seq<int>, q: seq<int>, n: nat): int
    requires n <= |q| && |y| == |q|
  {
    if n == 0 then 0 else ConvSum(y, q, n - 1) + y[n - 1] * Punctured(q, n - 1)
  }

  lemma {:induction false} ConvSumResidue(y: seq<int>, q: seq<int>, n: nat, l: nat)
    requires n <= |q| && |y| == |q| && l < |q|
    ensures Cong(ConvSum(y, q, n), if l < n then y[l] * Punctured(q, l) else 0, q[l])
  {
    hide Cong, Punctured;
    if n == 0 {
      CongRefl(0, q[l]);
    } else {
      ConvSumResidue(y, q, n - 1, l);
      var s, t := ConvSum(y, q, n - 1), y[n - 1] * Punctured(q, n - 1);
      if l == n - 1 {
        CongRefl(t, q[l]);
        CongAdd(s, 0, t, t, q[l]);
      } else {
        PuncturedZero(q, n - 1, l);
        CongRefl(y[n - 1], q[l]);
        CongMul(y[n - 1], y[n - 1], Punctured(q, n - 1), 0, q[l]);
        CongAdd(s, if l < n - 1 then y[l] * Punctured(q, l) else 0, t, 0, q[l]);
      }
    }
  }

  /** Fast base conversion overshoots by less than n multiples of the product. */
  lemma {:induction false} ConvSumBound(y: seq<int>, q: seq<int>, n: nat)
    requires Base(q) && n <= |q| && |y| == |q|
    requires forall l :: 0 <= l < |q| ==> 0 <= y[l] < q[l]
    ensures 0 <= ConvSum(y, q, n) <= n * Prod(q)
    ensures n > 0 ==> ConvSum(y, q, n) < n * Prod(q)
  {
    hide Unit;
    if n > 0 {
      ConvSumBound(y, q, n - 1);
      PuncturedUnit(q, n - 1);
      PuncturedTimes(q, n - 1);
      TermBound(y[n - 1], q[n - 1], Punctured(q, n - 1));
      assert n * Prod(q) == (n - 1) * Prod(q) + Prod(q);
    }
  }

  lemma TermBound(y: int, q: int, p: int)
    requires 0 <= y < q && p > 0
    ensures 0 <= y * p < p * q
  {
    assert y * p <= (q - 1) * p == p * q - p;
  }

  /** If y[l] inverts the l-th punctured product up to the factor g, the conversion sum is g*x modulo
      the product. */
  lemma ConvSumCong(y: seq<int>, r: seq<int>, q: seq<int>, g: int, x: int)
    requires Base(q) && |y| == |q| && Represents(x, r, q)
    requires forall l :: 0 <= l < |q| ==> Cong(y[l] * Punctured(q, l), r[l] * g, q[l])
    ensures Cong(ConvSum(y, q, |q|), g * x, Prod(q))
  {
    hide Cong, Unit, Punctured;
    var s := ConvSum(y, q, |q|);
    forall l | 0 <= l < |q|
      ensures Cong(s, g * x, q[l])
    {
      ConvSumResidue(y, q, |q|, l);
      CongTrans(s, y[l] * Punctured(q, l), r[l] * g, q[l]);
      CongRefl(g, q[l]);
      CongMul(x, r[l], g, g, q[l]);
      CongSym(x * g, r[l] * g, q[l]);
      CongTrans(s, r[l] * g, g * x, q[l]);
    }
    CrtAll(s, g * x, q, |q|);
    assert q[..|q|] == q;
  }
}
