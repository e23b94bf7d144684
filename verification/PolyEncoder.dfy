/** Encoding word vectors as plaintext polynomials, forwards and reversed. */
module PolyEncoder {
  import opened Arith
  import opened Rns
  import opened Rounding
  import opened TwoAdic
  import opened ModSwitch
  import opened ModSwitchHelper
  import MatVec

  ghost predicate WordRange(v: seq<int>, w: nat)
  {
    forall i :: 0 <= i < |v| ==> 0 <= v[i] < Pow(2, w)
  }

  /** The residue modulo q_l a word is lifted to: scaled by Q/2^k, or read as a signed number. */
  function Lifted(h: Helper, x: int, l: nat, scale: bool, w: nat): int
    requires h.k > 0 && l < |h.q| == |h.qDivTModQi| && h.q[l] > 0
    reads h
  {
    if scale then Wrap(UpSum(x, h.q[l], h.qDivTModQi[l], h.qModT, h.k), if w == 128 then 128 else 64) % h.q[l]
    else SignedWord(x, h.k) % h.q[l]
  }

  /** Word i of a vector, lifted; zero above its end. */
  function ForwardEntry(h: Helper, v: seq<int>, i: nat, l: nat, scale: bool, w: nat): int
    requires h.k > 0 && l < |h.q| == |h.qDivTModQi| && h.q[l] > 0
    reads h
  {
    if i < |v| then Lifted(h, v[i], l, scale, w) else 0
  }

  lemma HelperShape(h: Helper)
    requires h.Valid()
    ensures h.k > 0 && |h.q| == |h.qDivTModQi| && |h.q| > 0 && forall l :: 0 <= l < |h.q| ==> h.q[l] > 1
  {
  }

  /** Lifts every word at one modulus. */
  method LiftRow(h: Helper, v: seq<int>, l: nat, scale: bool, w: nat) returns (row: seq<int>)
    requires h.Valid() && l < |h.q| && WordFits(h.k, w) && WordRange(v, w)
    ensures h.k > 0 && |h.qDivTModQi| == |h.q| && h.q[l] > 0
    ensures |row| == |v| && forall i :: 0 <= i < |v| ==> row[i] == Lifted(h, v[i], l, scale, w)
  {
    hide Tables, UpSum, Pow, Punctured, SignedWord;
    HelperShape(h);
    var wrap := new int[|v|];
    var lifted;
    if scale && w == 128 {
      lifted := h.ModulusUpAt128(v, l, wrap);
    } else if scale {
      lifted := h.ModulusUpAt(v, l, wrap, w);
    } else {
      lifted := h.CenteralizeAt(v, l, wrap, w);
    }
    row := wrap[..];
  }

  lemma ForwardIs(h: Helper, v: seq<int>, i: nat, l: nat, scale: bool, w: nat)
    requires h.k > 0 && l < |h.q| == |h.qDivTModQi| && h.q[l] > 0
    ensures ForwardEntry(h, v, i, l, scale, w) == if i < |v| then Lifted(h, v[i], l, scale, w) else 0
  {
  }

  /** A lifted word is congruent to the signed number, or scaled to round(Q * v[i] / 2^k) exactly when the word sum does
      not wrap. */
  lemma LiftedMeans(h: Helper, v: seq<int>, i: nat, l: nat, scale: bool, w: nat)
    requires h.Valid() && WordFits(h.k, w) && WordRange(v, w) && i < |v| && l < |h.q|
    ensures h.k > 0 && |h.qDivTModQi| == |h.q| && h.q[l] > 0
    ensures !scale ==> Cong(Lifted(h, v[i], l, scale, w), SignedWord(v[i], h.k), h.q[l])
    ensures scale ==> (Lifted(h, v[i], l, scale, w) == RoundDiv(Prod(h.q) * v[i], Pow(2, h.k)) % h.q[l] <==>
                       UpSum(v[i], h.q[l], h.qDivTModQi[l], h.qModT, h.k) < Pow(2, if w == 128 then 128 else 64))
  {
    hide Cong, Pow, Wrap, UpSum, RoundDiv, Tables, Punctured, SignedWord, Prod;
    HelperShape(h);
    var bits := if w == 128 then 128 else 64;
    PowMonotone(2, w, bits);
    if scale { h.UpExact(v[i], l, bits); } else { CongMod(SignedWord(v[i], h.k), h.q[l]); }
  }

  /** Coefficients in order, zero above them. */
  method DoForward(h: Helper, n: nat, v: seq<int>, scale: bool, w: nat) returns (ok: bool, rows: seq<seq<int>>)
    requires h.Valid() && WordRange(v, w)
    ensures h.k > 0 && |h.qDivTModQi| == |h.q| && forall l :: 0 <= l < |h.q| ==> h.q[l] > 0
    ensures ok == (0 < |v| <= n && WordFits(h.k, w))
    ensures ok ==> |rows| == |h.q|
    ensures ok ==> forall l :: 0 <= l < |rows| ==> |rows[l]| == n
    ensures ok ==> forall l, i :: 0 <= l < |rows| && 0 <= i < n ==>
                     rows[l][i] == ForwardEntry(h, v, i, l, scale, w)
    ensures ok ==> forall l, i :: 0 <= l < |rows| && |v| <= i < n ==> rows[l][i] == 0
    ensures ok && !scale ==> forall l, i :: 0 <= l < |rows| && 0 <= i < |v| ==>
                               Cong(rows[l][i], SignedWord(v[i], h.k), h.q[l])
    ensures ok && scale ==> forall l, i :: 0 <= l < |rows| && 0 <= i < |v| ==>
                              (rows[l][i] == RoundDiv(Prod(h.q) * v[i], Pow(2, h.k)) % h.q[l] <==>
                               UpSum(v[i], h.q[l], h.qDivTModQi[l], h.qModT, h.k) < Pow(2, if w == 128 then 128 else 64))
  {
    hide Tables, Lifted, Pow, WordRange, ForwardEntry, Cong, UpSum, RoundDiv, SignedWord, Prod;
    HelperShape(h);
    rows := [];
    ok := 0 < |v| <= n && WordFits(h.k, w);
    if !ok { return; }
    for l := 0 to |h.q|
      invariant |rows| == l
      invariant forall m :: 0 <= m < l ==> |rows[m]| == n
      invariant forall m, i :: 0 <= m < l && 0 <= i < n ==>
                  rows[m][i] == ForwardEntry(h, v, i, m, scale, w)
    {
      var row := LiftRow(h, v, l, scale, w);
      var padded := row + seq(n - |v|, _ => 0);
      forall i | 0 <= i < n
        ensures padded[i] == ForwardEntry(h, v, i, l, scale, w)
      {
        ForwardIs(h, v, i, l, scale, w);
      }
      rows := rows + [padded];
    }
    forall l, i | 0 <= l < |rows| && |v| <= i < n
      ensures rows[l][i] == 0
    {
      ForwardIs(h, v, i, l, scale, w);
    }
    forall l, i | 0 <= l < |rows| && 0 <= i < |v|
      ensures !scale ==> Cong(rows[l][i], SignedWord(v[i], h.k), h.q[l])
      ensures scale ==>
                (rows[l][i] == RoundDiv(Prod(h.q) * v[i], Pow(2, h.k)) % h.q[l] <==>
                 UpSum(v[i], h.q[l], h.qDivTModQi[l], h.qModT, h.k) < Pow(2, if w == 128 then 128 else 64))
    {
      ForwardIs(h, v, i, l, scale, w);
      LiftedMeans(h, v, i, l, scale, w);
    }
  }

  /** The reversed layout in words: v[0], then zeros, then -v[i] at n - i. */
  function BackwardWords(v: seq<int>, n: nat, w: nat): (b: seq<int>)
    requires 0 < |v| <= n
    ensures |b| == n
  {
    seq(n, i requires 0 <= i < n => if i == 0 then v[0] else if n - i < |v| then Wrap(-v[n - i], w) else 0)
  }

  lemma BackwardRange(v: seq<int>, n: nat, w: nat)
    requires 0 < |v| <= n && WordRange(v, w)
    ensures WordRange(BackwardWords(v, n, w), w)
  {
    hide Pow, Wrap;
    var b := BackwardWords(v, n, w);
    assert 0 <= Wrap(0, w) < Pow(2, w);
    forall i | 0 <= i < n
      ensures 0 <= b[i] < Pow(2, w)
    {
      assert 0 < i && n - i < |v| ==> b[i] == Wrap(-v[n - i], w);
    }
  }

  method DoBackward(h: Helper, n: nat, v: seq<int>, scale: bool, w: nat) returns (ok: bool, rows: seq<seq<int>>)
    requires h.Valid() && WordRange(v, w)
    ensures h.k > 0 && |h.qDivTModQi| == |h.q| && forall l :: 0 <= l < |h.q| ==> h.q[l] > 0
    ensures ok == (0 < |v| <= n && WordFits(h.k, w))
    ensures ok ==> |rows| == |h.q|
    ensures ok ==> forall l :: 0 <= l < |rows| ==> |rows[l]| == n
    ensures ok ==> forall l, i :: 0 <= l < |rows| && 0 <= i < n ==>
                     rows[l][i] == Lifted(h, BackwardWords(v, n, w)[i], l, scale, w)
  {
    hide Tables, Lifted, Pow, WordRange, Wrap;
    HelperShape(h);
    rows := [];
    ok := 0 < |v| <= n && WordFits(h.k, w);
    if !ok { return; }
    var backward := new int[n](_ => 0);
    backward[0] := v[0];
    for i := 1 to |v|
      invariant backward[0] == v[0]
      invariant forall j :: 0 < j < n ==> backward[j] == if n - j < i then Wrap(-v[n - j], w) else 0
    {
      backward[n - i] := Wrap(-v[i], w);
    }
    assert backward[..] == BackwardWords(v, n, w);
    BackwardRange(v, n, w);
    var words := backward[..];
    for l := 0 to |h.q|
      invariant |rows| == l
      invariant forall m :: 0 <= m < l ==> |rows[m]| == n
      invariant forall m, i :: 0 <= m < l && 0 <= i < n ==> rows[m][i] == Lifted(h, words[i], m, scale, w)
    {
      var row := LiftRow(h, words, l, scale, w);
      rows := rows + [row];
    }
  }

  // ------------------------------------------------------------------ meaning

  /** The words of the reversed layout are the reversed polynomial modulo 2^k. */
  lemma BackwardIsReversed(v: seq<int>, n: nat, w: nat, k: nat, i: nat)
    requires 0 < |v| <= n && k <= w && i < n
    ensures Cong(BackwardWords(v, n, w)[i], MatVec.Reversed(v, n)[i], Pow(2, k))
  {
    hide Cong, Pow, Wrap;
    if i > 0 && n - i < |v| {
      WrapWide(-v[n - i], k, w);
    } else {
      CongRefl(MatVec.Reversed(v, n)[i], Pow(2, k));
    }
  }

  /** Without scaling, words below 2^(k-1) come out as the reversed polynomial at every modulus. */
  lemma CentredBackward(h: Helper, v: seq<int>, n: nat, w: nat, i: nat, l: nat)
    requires h.Valid() && WordFits(h.k, w) && 0 < |v| <= n && i < n && l < |h.q|
    requires forall j :: 0 <= j < |v| ==> 0 <= v[j] < Pow(2, h.k - 1)
    ensures h.k > 0 && |h.qDivTModQi| == |h.q| && h.q[l] > 0
    ensures Cong(Lifted(h, BackwardWords(v, n, w)[i], l, false, w), MatVec.Reversed(v, n)[i], h.q[l])
  {
    hide Cong, Pow, Wrap, Tables, Punctured, SignedWord;
    HelperShape(h);
    var x, y := BackwardWords(v, n, w)[i], MatVec.Reversed(v, n)[i];
    assert Pow(2, h.k - 1) > 0;
    if i > 0 && n - i < |v| { SmallNegative(v[n - i], h.k, w); } else { SmallPositive(x, h.k); }
    CongMod(SignedWord(x, h.k), h.q[l]);
  }

  lemma SmallPositive(x: int, k: nat)
    requires k > 0 && 0 <= x < Pow(2, k - 1)
    ensures SignedWord(x, k) == x
  {
  }

  lemma SmallNegative(x: int, k: nat, w: nat)
    requires 0 < k <= w && 0 <= x < Pow(2, k - 1)
    ensures SignedWord(Wrap(-x, w), k) == -x
  {
    hide Cong, Pow, Wrap;
    var t, u := Pow(2, k), Wrap(-x, w);
    PowHalf(k);
    PowMonotone(2, k, w);
    if x == 0 {
      CongClose(u, 0, Pow(2, w));
    } else {
      WrappedNegative(u, x, Pow(2, w));
      WrapWide(-x, k, w);
      CongRefl(0, t);
      CongSub(0, 0, u, -x, t);
      ModIs(-u, x, t);
    }
  }

  lemma WrappedNegative(u: int, x: int, m: int)
    requires 0 <= u < m && 0 < x < m && Cong(u, -x, m)
    ensures u == m - x
  {
    hide Cong;
    CongIntro(-x, m - x, m, -1);
    CongTrans(u, -x, m - x, m);
    CongClose(u, m - x, m);
  }

  /** The three word sizes: the accepted one is the smallest power of two not below k. */
  lemma WordFitsIs(k: nat, w: nat)
    requires w == 32 || w == 64 || w == 128
    ensures WordFits(k, w) <==> MatVec.BitCeil(k) == w
  {
    var e := MatVec.BitCeilPower(k);
    PowersBetween(e, w);
    assert k <= 1 ==> MatVec.BitCeil(k) == 1;
  }

  /** No power of two lies strictly between w/2 and w. */
  lemma PowersBetween(e: nat, w: nat)
    requires w == 32 || w == 64 || w == 128
    ensures w < 2 * Pow(2, e) && Pow(2, e) < 2 * w ==> Pow(2, e) == w
  {
    hide Pow;
    assert Pow(2, 5) == 32 && Pow(2, 6) == 64 && Pow(2, 7) == 128 && Pow(2, 4) == 16 && Pow(2, 8) == 256 by { SmallPowers(); }
    if e <= 4 { PowMonotone(2, e, 4); }
    if e >= 8 { PowMonotone(2, 8, e); }
  }

  lemma SmallPowers()
    ensures Pow(2, 5) == 32 && Pow(2, 6) == 64 && Pow(2, 7) == 128 && Pow(2, 4) == 16 && Pow(2, 8) == 256
  {
    assert Pow(2, 4) == 16;
    assert Pow(2, 8) == 256;
  }

  /** Scaling depends on the word modulo 2^k only, up to multiples of Q. */
  lemma RoundShift(bigQ: int, x: int, y: int, t: int, j: int)
    requires t > 0 && x == y + j * t
    ensures RoundDiv(bigQ * x, t) == RoundDiv(bigQ * y, t) + bigQ * j
  {
    hide RoundDiv;
    RoundDivBounds(bigQ * y, t);
    ShiftProducts(bigQ, y, t, j, RoundDiv(bigQ * y, t));
    RoundDivUnique(bigQ * x, t, RoundDiv(bigQ * y, t) + bigQ * j);
  }

  lemma ShiftProducts(bigQ: int, y: int, t: int, j: int, r: int)
    ensures bigQ * (y + j * t) == bigQ * y + t * (bigQ * j)
    ensures 2 * t * (r + bigQ * j) == 2 * t * r + 2 * (t * (bigQ * j))
  {
    assert bigQ * (j * t) == t * (bigQ * j);
  }

  /** A scaled word of the reversed layout holds round(Q * p / 2^k) for the reversed polynomial's signed
      coefficient p, exactly when the word sum does not wrap. */
  lemma ScaledBackward(h: Helper, v: seq<int>, n: nat, w: nat, i: nat, l: nat)
    requires h.Valid() && WordFits(h.k, w) && 0 < |v| <= n && i < n && l < |h.q| && WordRange(v, w)
    ensures h.k > 0 && |h.qDivTModQi| == |h.q| && h.q[l] > 0
    ensures Lifted(h, BackwardWords(v, n, w)[i], l, true, w)
              == RoundDiv(Prod(h.q) * MatVec.Reversed(v, n)[i], Pow(2, h.k)) % h.q[l]
       <==> UpSum(BackwardWords(v, n, w)[i], h.q[l], h.qDivTModQi[l], h.qModT, h.k) < Pow(2, if w == 128 then 128 else 64)
  {
    hide Cong, Pow, Wrap, UpSum, RoundDiv, Tables, Punctured, MatVec.Reversed;
    HelperShape(h);
    BackwardRange(v, n, w);
    BackwardIsReversed(v, n, w, h.k, i);
    var x, y, bits := BackwardWords(v, n, w)[i], MatVec.Reversed(v, n)[i], if w == 128 then 128 else 64;
    PowMonotone(2, w, bits);
    h.UpExact(x, l, bits);
    RoundCong(h.q, x, y, Pow(2, h.k), l);
  }

  lemma RoundCong(q: seq<int>, x: int, y: int, t: int, l: nat)
    requires t > 0 && Cong(x, y, t) && l < |q| && q[l] > 0
    ensures RoundDiv(Prod(q) * x, t) % q[l] == RoundDiv(Prod(q) * y, t) % q[l]
  {
    hide RoundDiv;
    var j :| x == y + j * t;
    var bigQ, a := Prod(q), RoundDiv(Prod(q) * y, t);
    RoundShift(bigQ, x, y, t, j);
    hide Cong;
    ProdMultiple(q, l);
    CongRefl(j, q[l]);
    CongMul(bigQ, 0, j, j, q[l]);
    CongRefl(a, q[l]);
    CongAdd(a, a, bigQ * j, 0, q[l]);
    ModFromCong(a + bigQ * j, a, q[l]);
  }
}
