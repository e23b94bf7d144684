/** Polynomials modulo X^N + 1 as coefficient sequences of length N. */
module Negacyclic {

  /** b[k], with indices below zero wrapped around with a change of sign: X^N == -1. */
  function At(b: seq<int>, k: int): int
    requires -|b| <= k < |b|
  {
    if k >= 0 then b[k] else -b[|b| + k]
  }

  /** The first j terms of coefficient k of a * b. */
  function MulTerms(a: seq<int>, b: seq<int>, k: nat, j: nat): int
    requires |a| == |b| && k < |b| && j <= |a|
  {
    if j == 0 then 0 else MulTerms(a, b, k, j - 1) + a[j - 1] * At(b, k - (j - 1))
  }

  /** The negacyclic product. */
  function Mul(a: seq<int>, b: seq<int>): (c: seq<int>)
    requires |a| == |b|
    ensures |c| == |a| && forall k :: 0 <= k < |a| ==> c[k] == MulTerms(a, b, k, |a|)
  {
    seq(|a|, k requires 0 <= k < |a| => MulTerms(a, b, k, |a|))
  }

  function Add(a: seq<int>, b: seq<int>): (c: seq<int>)
    requires |a| == |b|
    ensures |c| == |a| && forall k :: 0 <= k < |a| ==> c[k] == a[k] + b[k]
  {
    seq(|a|, k requires 0 <= k < |a| => a[k] + b[k])
  }

  function Zero(n: nat): (c: seq<int>)
    ensures |c| == n && forall k :: 0 <= k < n ==> c[k] == 0
  {
    seq(n, _ => 0)
  }

  function Scale(x: int, b: seq<int>): (c: seq<int>)
    ensures |c| == |b| && forall k :: 0 <= k < |b| ==> c[k] == x * b[k]
  {
    seq(|b|, k requires 0 <= k < |b| => x * b[k])
  }

  /** X^j * b. */
  function Shift(b: seq<int>, j: nat): (c: seq<int>)
    requires j <= |b|
    ensures |c| == |b| && forall k :: 0 <= k < |b| ==> c[k] == At(b, k - j)
  {
    seq(|b|, k requires 0 <= k < |b| => At(b, k - j))
  }

  // ------------------------------------------------------------------ linearity

  lemma {:induction false} MulTermsAdd(a: seq<int>, b: seq<int>, c: seq<int>, k: nat, j: nat)
    requires |a| == |b| == |c| && k < |b| && j <= |a|
    ensures MulTerms(a, Add(b, c), k, j) == MulTerms(a, b, k, j) + MulTerms(a, c, k, j)
    ensures MulTerms(Add(b, c), a, k, j) == MulTerms(b, a, k, j) + MulTerms(c, a, k, j)
  {
    if j > 0 {
      MulTermsAdd(a, b, c, k, j - 1);
      var i := k - (j - 1);
      assert At(Add(b, c), i) == At(b, i) + At(c, i);
      assert a[j - 1] * (At(b, i) + At(c, i)) == a[j - 1] * At(b, i) + a[j - 1] * At(c, i);
      assert (b[j - 1] + c[j - 1]) * At(a, i) == b[j - 1] * At(a, i) + c[j - 1] * At(a, i);
    }
  }

  /** The product distributes over sums on either side. */
  lemma MulAdd(a: seq<int>, b: seq<int>, c: seq<int>)
    requires |a| == |b| == |c|
    ensures Mul(a, Add(b, c)) == Add(Mul(a, b), Mul(a, c))
    ensures Mul(Add(b, c), a) == Add(Mul(b, a), Mul(c, a))
  {
    forall k | 0 <= k < |a|
      ensures Mul(a, Add(b, c))[k] == Add(Mul(a, b), Mul(a, c))[k]
      ensures Mul(Add(b, c), a)[k] == Add(Mul(b, a), Mul(c, a))[k]
    {
      MulTermsAdd(a, b, c, k, |a|);
    }
  }

  lemma {:induction false} MulTermsScale(a: seq<int>, x: int, b: seq<int>, k: nat, j: nat)
    requires |a| == |b| && k < |b| && j <= |a|
    ensures MulTerms(a, Scale(x, b), k, j) == x * MulTerms(a, b, k, j)
  {
    if j > 0 {
      MulTermsScale(a, x, b, k, j - 1);
      var i := k - (j - 1);
      assert At(Scale(x, b), i) == x * At(b, i);
      Distribute(x, MulTerms(a, b, k, j - 1), a[j - 1], At(b, i));
    }
  }

  lemma Distribute(x: int, s: int, a: int, b: int)
    ensures x * s + a * (x * b) == x * (s + a * b)
  {
  }

  lemma {:induction false} MulTermsShift(a: seq<int>, b: seq<int>, k: nat, j: nat)
    requires |a| == |b| && 0 < k < |b| && j <= |a|
    ensures MulTerms(a, Shift(b, 1), k, j) == MulTerms(a, b, k - 1, j)
  {
    if j > 0 {
      MulTermsShift(a, b, k, j - 1);
      var i := k - (j - 1);
      assert At(Shift(b, 1), i) == At(b, i - 1);
    }
  }

  lemma {:induction false} MulTermsShiftZero(a: seq<int>, b: seq<int>, j: nat)
    requires |a| == |b| && 0 < |b| && j <= |a|
    ensures MulTerms(a, Shift(b, 1), 0, j) == -MulTerms(a, b, |b| - 1, j)
  {
    if j > 0 {
      MulTermsShiftZero(a, b, j - 1);
      var i := -(j - 1);
      assert At(Shift(b, 1), i) == -At(b, |b| - 1 + i);
    }
  }

  /** Multiplication commutes with multiplication by X. */
  lemma MulShiftOne(a: seq<int>, b: seq<int>)
    requires |a| == |b| && |b| > 0
    ensures Mul(a, Shift(b, 1)) == Shift(Mul(a, b), 1)
  {
    forall k | 0 <= k < |a|
      ensures Mul(a, Shift(b, 1))[k] == Shift(Mul(a, b), 1)[k]
    {
      if k == 0 { MulTermsShiftZero(a, b, |a|); } else { MulTermsShift(a, b, k, |a|); }
    }
  }

  lemma {:induction false} MulShift(a: seq<int>, b: seq<int>, j: nat)
    requires |a| == |b| && j <= |b|
    ensures Mul(a, Shift(b, j)) == Shift(Mul(a, b), j)
  {
    hide Mul, Shift;
    if j == 0 {
      ShiftZero(b);
      ShiftZero(Mul(a, b));
    } else {
      MulShift(a, b, j - 1);
      MulShiftOne(a, Shift(b, j - 1));
      ShiftOne(b, j - 1);
      ShiftOne(Mul(a, b), j - 1);
    }
  }

  lemma ShiftZero(b: seq<int>)
    ensures Shift(b, 0) == b
  {
  }

  lemma ShiftOne(b: seq<int>, j: nat)
    requires j < |b|
    ensures Shift(Shift(b, j), 1) == Shift(b, j + 1)
  {
    forall k | 0 <= k < |b|
      ensures Shift(Shift(b, j), 1)[k] == Shift(b, j + 1)[k]
    {
    }
  }

  // ------------------------------------------------------------------ multiplication operators commute

  /** sum_{i < j} p[i] X^i b. */
  function Combination(p: seq<int>, b: seq<int>, j: nat): (c: seq<int>)
    requires |p| == |b| && j <= |p|
    ensures |c| == |b|
  {
    if j == 0 then Zero(|b|) else Add(Combination(p, b, j - 1), Scale(p[j - 1], Shift(b, j - 1)))
  }

  lemma {:induction false} CombinationTerms(p: seq<int>, b: seq<int>, k: nat, j: nat)
    requires |p| == |b| && k < |b| && j <= |p|
    ensures Combination(p, b, j)[k] == MulTerms(p, b, k, j)
  {
    if j > 0 { CombinationTerms(p, b, k, j - 1); }
  }

  lemma MulIsCombination(p: seq<int>, b: seq<int>)
    requires |p| == |b|
    ensures Mul(p, b) == Combination(p, b, |p|)
  {
    forall k | 0 <= k < |b|
      ensures Mul(p, b)[k] == Combination(p, b, |p|)[k]
    {
      CombinationTerms(p, b, k, |p|);
    }
  }

  lemma MulScale(a: seq<int>, x: int, b: seq<int>)
    requires |a| == |b|
    ensures Mul(a, Scale(x, b)) == Scale(x, Mul(a, b))
  {
    forall k | 0 <= k < |a|
      ensures Mul(a, Scale(x, b))[k] == Scale(x, Mul(a, b))[k]
    {
      MulTermsScale(a, x, b, k, |a|);
    }
  }

  lemma {:induction false} MulTermsZero(a: seq<int>, k: nat, j: nat)
    requires k < |a| && j <= |a|
    ensures MulTerms(a, Zero(|a|), k, j) == 0
  {
    if j > 0 {
      MulTermsZero(a, k, j - 1);
      assert At(Zero(|a|), k - (j - 1)) == 0;
    }
  }

  lemma {:induction false} MulCombination(s: seq<int>, p: seq<int>, a: seq<int>, j: nat)
    requires |s| == |p| == |a| && j <= |p|
    ensures Mul(s, Combination(p, a, j)) == Combination(p, Mul(s, a), j)
  {
    if j == 0 {
      forall k | 0 <= k < |s| ensures Mul(s, Zero(|a|))[k] == 0 { MulTermsZero(s, k, |s|); }
      assert Mul(s, Zero(|a|)) == Zero(|a|);
    } else {
      MulCombination(s, p, a, j - 1);
      MulAdd(s, Combination(p, a, j - 1), Scale(p[j - 1], Shift(a, j - 1)));
      MulScale(s, p[j - 1], Shift(a, j - 1));
      MulShift(s, a, j - 1);
    }
  }

  /** s * (p * a) == p * (s * a). */
  lemma MulCommutes(s: seq<int>, p: seq<int>, a: seq<int>)
    requires |s| == |p| == |a|
    ensures Mul(s, Mul(p, a)) == Mul(p, Mul(s, a))
  {
    MulIsCombination(p, a);
    MulIsCombination(p, Mul(s, a));
    MulCombination(s, p, a, |p|);
  }

  // ------------------------------------------------------------------ the product is commutative

  /** The unit polynomial 1. */
  function One(n: nat): (c: seq<int>)
    requires n > 0
    ensures |c| == n && c[0] == 1 && forall k :: 0 < k < n ==> c[k] == 0
  {
    seq(n, k => if k == 0 then 1 else 0)
  }

  lemma {:induction false} MulTermsOne(a: seq<int>, k: nat, j: nat)
    requires k < |a| && j <= |a|
    ensures MulTerms(a, One(|a|), k, j) == if k < j then a[k] else 0
  {
    if j > 0 {
      MulTermsOne(a, k, j - 1);
      var i := k - (j - 1);
      assert At(One(|a|), i) == if i == 0 then 1 else 0;
    }
  }

  lemma MulOne(a: seq<int>)
    requires |a| > 0
    ensures Mul(a, One(|a|)) == a
  {
    forall k | 0 <= k < |a| ensures Mul(a, One(|a|))[k] == a[k] { MulTermsOne(a, k, |a|); }
  }

  /** a * b == b * a, since multiplications by a and by b commute on 1. */
  lemma MulComm(a: seq<int>, b: seq<int>)
    requires |a| == |b|
    ensures Mul(a, b) == Mul(b, a)
  {
    if |a| > 0 {
      MulOne(a);
      MulOne(b);
      MulCommutes(a, b, One(|a|));
    }
  }
}
