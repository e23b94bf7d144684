/** LWE ciphertext words: extraction from RLWE, lazily reduced additions, and their overflow budget. */
module LweWords {
  import opened Arith
  import opened NumberTheory
  import opened TwoAdic
  import Negacyclic

  /** An exact (unreduced) LWE sample for one modulus. */
  datatype Exact = Exact(vec: seq<int>, cnst: int)
  {
    function Plus(o: Exact): Exact
      requires |vec| == |o.vec|
    {
      Exact(Negacyclic.Add(vec, o.vec), cnst + o.cnst)
    }

    function Times(x: int): (r: Exact)
      ensures |r.vec| == |vec|
    {
      Exact(Negacyclic.Scale(x, vec), x * cnst)
    }

    /** What the sample decrypts to under the secret s, before reduction. */
    function Phase(s: seq<int>): int
      requires |s| == |vec|
    {
      Dot(vec, s, |vec|) + cnst
    }
  }

  function Dot(a: seq<int>, b: seq<int>, j: nat): int
    requires |a| == |b| && j <= |a|
  {
    if j == 0 then 0 else Dot(a, b, j - 1) + b[j - 1] * a[j - 1]
  }

  // ------------------------------------------------------------------ extraction

  /** Coefficient k of b + a*s as a linear form in s. */
  function Extract(b: seq<int>, a: seq<int>, k: nat): (r: Exact)
    requires k < |a| == |b|
    ensures |r.vec| == |a|
  {
    Exact(seq(|a|, i requires 0 <= i < |a| => Negacyclic.At(a, k - i)), b[k])
  }

  lemma {:induction false} ExtractDot(b: seq<int>, a: seq<int>, k: nat, s: seq<int>, j: nat)
    requires k < |a| == |b| == |s| && j <= |a|
    ensures Dot(Extract(b, a, k).vec, s, j) == Negacyclic.MulTerms(s, a, k, j)
  {
    if j > 0 { ExtractDot(b, a, k, s, j - 1); }
  }

  /** Extraction is right for every coefficient index. */
  lemma ExtractCorrect(b: seq<int>, a: seq<int>, k: nat, s: seq<int>)
    requires k < |a| == |b| == |s|
    ensures Extract(b, a, k).Phase(s) == Negacyclic.Add(b, Negacyclic.Mul(a, s))[k]
  {
    ExtractDot(b, a, k, s, |a|);
    Negacyclic.MulComm(a, s);
  }

  /** Phases are linear. */
  lemma {:induction false} DotLinear(a: seq<int>, b: seq<int>, x: int, s: seq<int>, j: nat)
    requires |a| == |b| == |s| && j <= |a|
    ensures Dot(Negacyclic.Add(a, Negacyclic.Scale(x, b)), s, j) == Dot(a, s, j) + x * Dot(b, s, j)
  {
    if j > 0 {
      DotLinear(a, b, x, s, j - 1);
      Arrange(s[j - 1], a[j - 1], x, b[j - 1], Dot(b, s, j - 1));
    }
  }

  lemma Arrange(s: int, a: int, x: int, b: int, d: int)
    ensures s * (a + x * b) + x * d == s * a + x * (d + s * b)
  {
  }

  lemma PhaseLinear(e: Exact, f: Exact, x: int, s: seq<int>)
    requires |e.vec| == |f.vec| == |s|
    ensures e.Plus(f.Times(x)).Phase(s) == e.Phase(s) + x * f.Phase(s)
  {
    DotLinear(e.vec, f.vec, x, s, |s|);
    Arrange(1, e.cnst, x, f.cnst, Dot(f.vec, s, |s|));
  }

  lemma {:induction false} DotCong(a: seq<int>, b: seq<int>, s: seq<int>, j: nat, q: int)
    requires |a| == |b| == |s| && j <= |a| && forall i :: 0 <= i < |a| ==> Cong(a[i], b[i], q)
    ensures Cong(Dot(a, s, j), Dot(b, s, j), q)
  {
    hide Cong;
    if j == 0 {
      CongRefl(0, q);
    } else {
      DotCong(a, b, s, j - 1, q);
      CongRefl(s[j - 1], q);
      CongMul(s[j - 1], s[j - 1], a[j - 1], b[j - 1], q);
      CongAdd(Dot(a, s, j - 1), Dot(b, s, j - 1), s[j - 1] * a[j - 1], s[j - 1] * b[j - 1], q);
    }
  }

  // ------------------------------------------------------------------ word rows

  function Rev(s: seq<int>): (r: seq<int>)
    ensures |r| == |s| && forall i :: 0 <= i < |s| ==> r[i] == s[|s| - 1 - i]
  {
    seq(|s|, i requires 0 <= i < |s| => s[|s| - 1 - i])
  }

  function NegateWord(u: int, q: int): int
  {
    if u == 0 then 0 else q - u
  }

  /** The extraction constructor: the first k + 1 words reversed, the rest reversed and negated. */
  function ExtractRow(a: seq<int>, k: nat, q: int): (r: seq<int>)
    requires k < |a|
    ensures |r| == |a|
  {
    Rev(a[..k + 1]) + Map(Rev(a[k + 1..]), u => NegateWord(u, q))
  }

  function Map(s: seq<int>, f: int -> int): (r: seq<int>)
    ensures |r| == |s| && forall i :: 0 <= i < |s| ==> r[i] == f(s[i])
  {
    seq(|s|, i requires 0 <= i < |s| => f(s[i]))
  }

  function Zip(s: seq<int>, t: seq<int>, f: (int, int) -> int): (r: seq<int>)
    requires |s| == |t|
    ensures |r| == |s| && forall i :: 0 <= i < |s| ==> r[i] == f(s[i], t[i])
  {
    seq(|s|, i requires 0 <= i < |s| => f(s[i], t[i]))
  }

  /** u + v and u + q - v in 64-bit words. */
  function AddWord(u: int, v: int): int
  {
    Wrap(u + v, 64)
  }

  function SubWord(u: int, v: int, q: int): int
  {
    Wrap(Wrap(u + q, 64) - v, 64)
  }

  /** AddLazy's row: the reversed words are added, the reversed wrapped words subtracted. */
  function AddLazyRow(u: seq<int>, a: seq<int>, k: nat, q: int): (r: seq<int>)
    requires k < |a| == |u|
    ensures |r| == |u|
  {
    Zip(u[..k + 1], Rev(a[..k + 1]), AddWord) + Zip(u[k + 1..], Rev(a[k + 1..]), (x, y) => SubWord(x, y, q))
  }

  /** SubLazy's row, with the roles exchanged. */
  function SubLazyRow(u: seq<int>, a: seq<int>, k: nat, q: int): (r: seq<int>)
    requires k < |a| == |u|
    ensures |r| == |u|
  {
    Zip(u[..k + 1], Rev(a[..k + 1]), (x, y) => SubWord(x, y, q)) + Zip(u[k + 1..], Rev(a[k + 1..]), AddWord)
  }

  // ------------------------------------------------------------------ the budget

  /** The bound on words after n lazy additions. */
  function Budget(n: nat, q: int): int
  {
    (n + 1) * q
  }

  lemma BudgetStep(n: nat, q: int)
    ensures Budget(0, q) == q && Budget(n + 1, q) == Budget(n, q) + q
  {
  }

  lemma BudgetMonotone(m: nat, n: nat, q: int)
    requires m <= n && q >= 0
    ensures Budget(m, q) <= Budget(n, q)
  {
    assert (n - m) * q >= 0;
    assert (n + 1) * q == (m + 1) * q + (n - m) * q;
  }

  /** A word u standing for the exact value e after n lazy additions. */
  ghost predicate WordOk(u: int, e: int, n: nat, q: int)
  {
    0 <= u < Budget(n, q) && Cong(u, e, q)
  }

  lemma AddWordOk(u: int, e: int, v: int, f: int, n: nat, q: int)
    requires WordOk(u, e, n, q) && 0 <= v < q && Cong(v, f, q) && Budget(n + 1, q) <= Pow(2, 64)
    ensures WordOk(AddWord(u, v), e + f, n + 1, q)
  {
    hide Cong, Pow, Wrap, Budget;
    BudgetStep(n, q);
    ExactWord(u + v);
    CongAdd(u, e, v, f, q);
  }

  lemma SubWordOk(u: int, e: int, v: int, f: int, n: nat, q: int)
    requires WordOk(u, e, n, q) && 0 <= v < q && Cong(v, f, q) && Budget(n + 1, q) <= Pow(2, 64)
    ensures WordOk(SubWord(u, v, q), e - f, n + 1, q)
  {
    hide Cong, Pow, Wrap, Budget;
    BudgetStep(n, q);
    ExactWord(u + q);
    ExactWord(u + q - v);
    CongIntro(q, 0, q, 1);
    CongAdd(u, e, q, 0, q);
    CongSub(u + q, e, v, f, q);
  }

  lemma ExactWord(x: int)
    requires 0 <= x < Pow(2, 64)
    ensures Wrap(x, 64) == x
  {
    CongRefl(x, Pow(2, 64));
    ModIs(x, x, Pow(2, 64));
  }

  /** One modulus: vector and constant words with their exact values. */
  ghost predicate RowOk(u: seq<int>, c: int, e: Exact, n: nat, q: int)
  {
    |u| == |e.vec| && WordOk(c, e.cnst, n, q) && forall i :: 0 <= i < |u| ==> WordOk(u[i], e.vec[i], n, q)
  }

  ghost predicate Words(a: seq<int>, q: int)
  {
    forall i :: 0 <= i < |a| ==> 0 <= a[i] < q
  }

  lemma ExtractAt(b: seq<int>, a: seq<int>, k: nat, i: nat)
    requires k < |a| == |b| && i < |a|
    ensures Extract(b, a, k).vec[i] == if i <= k then a[k - i] else -a[|a| + k - i]
  {
    var x := Negacyclic.At(a, k - i);
    assert x == if i <= k then a[k - i] else -a[|a| + k - i];
    assert Extract(b, a, k).vec[i] == x;
  }

  /** The words and the exact entries that meet at index i. */
  lemma EntriesAt(u: seq<int>, b: seq<int>, a: seq<int>, k: nat, q: int, i: nat)
    requires k < |a| == |b| == |u| && i < |a|
    ensures if i <= k
            then Extract(b, a, k).vec[i] == a[k - i] && ExtractRow(a, k, q)[i] == a[k - i]
                 && AddLazyRow(u, a, k, q)[i] == AddWord(u[i], a[k - i])
                 && SubLazyRow(u, a, k, q)[i] == SubWord(u[i], a[k - i], q)
            else Extract(b, a, k).vec[i] == -a[|a| + k - i] && ExtractRow(a, k, q)[i] == NegateWord(a[|a| + k - i], q)
                 && AddLazyRow(u, a, k, q)[i] == SubWord(u[i], a[|a| + k - i], q)
                 && SubLazyRow(u, a, k, q)[i] == AddWord(u[i], a[|a| + k - i])
  {
    hide AddWord, SubWord, NegateWord;
    ExtractAt(b, a, k, i);
    hide Extract;
    if i <= k {
      assert Rev(a[..k + 1])[i] == a[k - i];
    } else {
      assert Rev(a[k + 1..])[i - k - 1] == a[|a| + k - i];
    }
  }

  lemma ExtractRowOk(b: seq<int>, a: seq<int>, k: nat, q: int)
    requires k < |a| == |b| && Words(a, q) && Words(b, q)
    ensures RowOk(ExtractRow(a, k, q), b[k], Extract(b, a, k), 0, q)
  {
    hide Cong, Budget, ExtractRow, NegateWord;
    BudgetStep(0, q);
    CongRefl(b[k], q);
    var r, e := ExtractRow(a, k, q), Extract(b, a, k);
    forall i | 0 <= i < |a|
      ensures WordOk(r[i], e.vec[i], 0, q)
    {
      EntriesAt(a, b, a, k, q, i);
      if i <= k {
        CongRefl(a[k - i], q);
      } else {
        NegatedWord(a[|a| + k - i], q);
      }
    }
  }

  lemma NegatedWord(v: int, q: int)
    requires 0 <= v < q
    ensures 0 <= NegateWord(v, q) < q && Cong(NegateWord(v, q), -v, q)
  {
    CongIntro(NegateWord(v, q), -v, q, if v == 0 then 0 else 1);
  }

  lemma AddLazyRowOk(u: seq<int>, c: int, e: Exact, b: seq<int>, a: seq<int>, k: nat, n: nat, q: int)
    requires RowOk(u, c, e, n, q) && k < |a| == |b| == |u| && Words(a, q) && Words(b, q)
    requires Budget(n + 1, q) <= Pow(2, 64)
    ensures RowOk(AddLazyRow(u, a, k, q), AddWord(c, b[k]), e.Plus(Extract(b, a, k)), n + 1, q)
  {
    hide Cong, Budget, Pow, WordOk, AddWord, SubWord;
    CongRefl(b[k], q);
    AddWordOk(c, e.cnst, b[k], b[k], n, q);
    var r, f := AddLazyRow(u, a, k, q), Extract(b, a, k);
    forall i | 0 <= i < |u|
      ensures WordOk(r[i], e.vec[i] + f.vec[i], n + 1, q)
    {
      EntriesAt(u, b, a, k, q, i);
      if i <= k {
        CongRefl(a[k - i], q);
        AddWordOk(u[i], e.vec[i], a[k - i], a[k - i], n, q);
      } else {
        var v := a[|a| + k - i];
        CongRefl(v, q);
        SubWordOk(u[i], e.vec[i], v, v, n, q);
      }
    }
  }

  lemma SubLazyRowOk(u: seq<int>, c: int, e: Exact, b: seq<int>, a: seq<int>, k: nat, n: nat, q: int)
    requires RowOk(u, c, e, n, q) && k < |a| == |b| == |u| && Words(a, q) && Words(b, q)
    requires Budget(n + 1, q) <= Pow(2, 64)
    ensures RowOk(SubLazyRow(u, a, k, q), SubConstant(c, b[k], q), e.Plus(Extract(b, a, k).Times(-1)), n + 1, q)
  {
    hide Cong, Budget, Pow, WordOk, AddWord, SubWord, SubConstant;
    SubConstantOk(c, e.cnst, b[k], n, q);
    var r, f := SubLazyRow(u, a, k, q), Extract(b, a, k);
    forall i | 0 <= i < |u|
      ensures WordOk(r[i], e.vec[i] + -1 * f.vec[i], n + 1, q)
    {
      EntriesAt(u, b, a, k, q, i);
      if i <= k {
        CongRefl(a[k - i], q);
        SubWordOk(u[i], e.vec[i], a[k - i], a[k - i], n, q);
      } else {
        var v := a[|a| + k - i];
        CongRefl(v, q);
        AddWordOk(u[i], e.vec[i], v, v, n, q);
      }
    }
  }

  /** cnst += q - b, the subtraction done first. */
  function SubConstant(c: int, b: int, q: int): int
  {
    Wrap(c + (q - b), 64)
  }

  lemma SubConstantOk(c: int, e: int, b: int, n: nat, q: int)
    requires WordOk(c, e, n, q) && 0 <= b < q && Budget(n + 1, q) <= Pow(2, 64)
    ensures WordOk(SubConstant(c, b, q), e + -1 * b, n + 1, q)
  {
    hide Cong, Budget, Pow, Wrap;
    BudgetStep(n, q);
    if c + (q - b) < Pow(2, 64) { ExactWord(c + (q - b)); }
    CongIntro(q - b, -b, q, 1);
    CongAdd(c, e, q - b, -b, q);
  }

  // ------------------------------------------------------------------ reduced operations

  /** A word operation modulo q applied to whole reduced rows. */
  lemma ReduceRowOk(u: seq<int>, c: int, e: Exact, n: nat, q: int)
    requires q > 0 && RowOk(u, c, e, n, q)
    ensures RowOk(Map(u, x requires q > 0 => x % q), c % q, e, 0, q)
  {
    hide Cong, Budget;
    BudgetStep(0, q);
    CongMod(c, q);
    CongTrans(c % q, c, e.cnst, q);
    forall i | 0 <= i < |u|
      ensures WordOk(u[i] % q, e.vec[i], 0, q)
    {
      CongMod(u[i], q);
      CongTrans(u[i] % q, u[i], e.vec[i], q);
    }
  }
}
