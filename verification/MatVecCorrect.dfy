/** From encoded vector to decrypted row: the matrix-vector protocol end to end. */
module MatVecCorrect {
  import opened Arith
  import opened Rns
  import opened Rounding
  import opened ModSwitch
  import opened ModSwitchHelper
  import opened LweWords
  import opened LweSample
  import opened MatVec
  import opened PolyEncoder
  import opened MatVecProtocol
  import opened Sharing
  import Negacyclic

  type Context = LweSample.Context

  /** Encodes the vector piece by piece, reversed and scaled. */
  method DoEncodeVector(meta: Meta, v: seq<int>, h: Helper, n: nat, w: nat) returns (ok: bool, out: seq<seq<seq<int>>>)
    requires h.Valid() && WordRange(v, w) && n > 0
    ensures h.k > 0 && |h.qDivTModQi| == |h.q| && forall l :: 0 <= l < |h.q| ==> h.q[l] > 0
    ensures ok == (meta.Valid() && |v| == meta.ncols && WordFits(h.k, w))
    ensures ok ==> |out| == CeilDiv(meta.ncols, SubCols(meta, n))
    ensures ok ==> forall b: nat :: b < |out| ==> Encodes(out[b], meta, v, h, n, w, b)
  {
    hide Tables, WordRange, Encodes, SubCols, Pow;
    HelperShape(h);
    ok, out := meta.Valid() && |v| == meta.ncols && WordFits(h.k, w), [];
    if !ok { return; }
    AllBlocksStart(meta, n);
    for idx := 0 to CeilDiv(meta.ncols, SubCols(meta, n))
      invariant |out| == idx
      invariant forall b: nat :: b < idx ==> Encodes(out[b], meta, v, h, n, w, b)
    {
      PieceFits(meta, n, v, idx, w);
      var bgn := idx * SubCols(meta, n);
      var end := if bgn + SubCols(meta, n) < meta.ncols then bgn + SubCols(meta, n) else meta.ncols;
      PieceIs(meta, n, v, idx, bgn, end);
      var good, rows := DoBackward(h, n, v[bgn..end], true, w);
      EncodesIntro(rows, meta, v, h, n, w, idx);
      out := out + [rows];
    }
  }

  lemma EncodesIntro(rows: seq<seq<int>>, meta: Meta, v: seq<int>, h: Helper, n: nat, w: nat, b: nat)
    requires h.Valid() && n > 0 && meta.Valid() && |v| == meta.ncols && b * SubCols(meta, n) < meta.ncols
    requires h.k > 0 && |h.qDivTModQi| == |h.q| && forall l :: 0 <= l < |h.q| ==> h.q[l] > 0
    requires |Piece(meta, n, v, b)| <= n && |rows| == |h.q| && forall l :: 0 <= l < |rows| ==> |rows[l]| == n
    requires forall l, i :: 0 <= l < |rows| && 0 <= i < n ==>
               rows[l][i] == Lifted(h, BackwardWords(Piece(meta, n, v, b), n, w)[i], l, true, w)
    ensures Encodes(rows, meta, v, h, n, w, b)
  {
  }

  lemma PieceFits(meta: Meta, n: nat, v: seq<int>, b: nat, w: nat)
    requires n > 0 && meta.Valid() && |v| == meta.ncols && b * SubCols(meta, n) < meta.ncols && WordRange(v, w)
    ensures |Piece(meta, n, v, b)| <= n && WordRange(Piece(meta, n, v, b), w)
  {
    hide Pow;
  }

  lemma PieceIs(meta: Meta, n: nat, v: seq<int>, b: nat, bgn: int, end: int)
    requires n > 0 && meta.Valid() && |v| == meta.ncols && b * SubCols(meta, n) < meta.ncols
    requires bgn == b * SubCols(meta, n)
    requires end == if bgn + SubCols(meta, n) < meta.ncols then bgn + SubCols(meta, n) else meta.ncols
    ensures 0 <= bgn <= end <= |v| && v[bgn..end] == Piece(meta, n, v, b)
  {
    PieceBounds(meta, n, b);
    assert (b + 1) * SubCols(meta, n) == bgn + SubCols(meta, n);
  }

  /** Plaintext b is the lifted reversed piece. */
  ghost predicate Encodes(rows: seq<seq<int>>, meta: Meta, v: seq<int>, h: Helper, n: nat, w: nat, b: nat)
    requires h.Valid() && n > 0 && meta.Valid() && |v| == meta.ncols
    requires h.k > 0 && |h.qDivTModQi| == |h.q| && forall l :: 0 <= l < |h.q| ==> h.q[l] > 0
    reads h
  {
    && b * SubCols(meta, n) < meta.ncols && |rows| == |h.q| && |Piece(meta, n, v, b)| <= n
    && (forall l :: 0 <= l < |rows| ==> |rows[l]| == n)
    && forall l, i :: 0 <= l < |rows| && 0 <= i < n ==>
         rows[l][i] == Lifted(h, BackwardWords(Piece(meta, n, v, b), n, w)[i], l, true, w)
  }

  // ------------------------------------------------------------------ decryption of a row

  /** The encrypted pieces decrypt to the reversed pieces of x plus the noise e, at every modulus. */
  ghost predicate PiecesHold(vec: seq<Rlwe>, meta: Meta, s: seq<int>, x: seq<int>, e: seq<seq<int>>, c: Context)
    requires meta.Valid() && c.Valid() && |x| == meta.ncols && |s| == c.n
    requires forall b :: 0 <= b < |vec| ==> Usable(vec[b], c)
  {
    && |e| == CeilDiv(meta.ncols, SubCols(meta, c.n)) && (forall b :: 0 <= b < |e| ==> |e[b]| == c.n)
    && forall l: nat, b: nat :: l < |c.q| && b < |e| ==>
         CongRow(Phases(vec, l, s, |e|, c)[b], NoisyPieces(meta, x, e, c)[b], c.q[l])
  }

  function NoisyPieces(meta: Meta, x: seq<int>, e: seq<seq<int>>, c: Context): (p: seq<seq<int>>)
    requires meta.Valid() && c.n > 0 && |x| == meta.ncols && |e| == CeilDiv(meta.ncols, SubCols(meta, c.n))
    requires forall b :: 0 <= b < |e| ==> |e[b]| == c.n
    ensures |p| == |e| && forall b :: 0 <= b < |p| ==> |p[b]| == c.n
  {
    AllBlocksStart(meta, c.n);
    seq(|e|, b requires 0 <= b < |e| => Negacyclic.Add(Reversed(Piece(meta, c.n, x, b), c.n), e[b]))
  }

  lemma {:induction false} StripSumCong(meta: Meta, mat: seq<int>, r0: nat, n: nat, p: seq<seq<int>>, r: seq<seq<int>>,
                                        b: nat, q: int)
    requires meta.Valid() && n > 0 && |mat| == meta.nrows * meta.ncols && b <= |p| == |r|
    requires forall i :: 0 <= i < |p| ==> |p[i]| == |r[i]| == n && CongRow(p[i], r[i], q)
    ensures CongRow(StripSum(meta, mat, r0, n, p, b), StripSum(meta, mat, r0, n, r, b), q)
  {
    hide Cong, Negacyclic.Mul, Block, CongRow;
    if b == 0 {
      CongRowRefl(Negacyclic.Zero(n), q);
    } else {
      StripSumCong(meta, mat, r0, n, p, r, b - 1, q);
      var m := Block(meta, mat, r0, (b - 1) * SubCols(meta, n), n);
      MulCong(p[b - 1], r[b - 1], m, q);
      Negacyclic.MulComm(p[b - 1], m);
      Negacyclic.MulComm(r[b - 1], m);
      AddCong(StripSum(meta, mat, r0, n, p, b - 1), StripSum(meta, mat, r0, n, r, b - 1),
              Negacyclic.Mul(m, p[b - 1]), Negacyclic.Mul(m, r[b - 1]), q);
    }
  }

  lemma CongRowRefl(a: seq<int>, q: int)
    ensures CongRow(a, a, q)
  {
    forall j | 0 <= j < |a| ensures Cong(a[j], a[j], q) { CongRefl(a[j], q); }
  }

  lemma PiecesShape(vec: seq<Rlwe>, meta: Meta, s: seq<int>, x: seq<int>, e: seq<seq<int>>, c: Context)
    requires meta.Valid() && c.Valid() && |x| == meta.ncols && |s| == c.n
    requires (forall b :: 0 <= b < |vec| ==> Usable(vec[b], c)) && PiecesHold(vec, meta, s, x, e, c)
    ensures forall b :: 0 <= b < |e| ==> |e[b]| == c.n
  {
  }

  /** The action of row i's tiles on the noise alone. */
  function RowNoise(i: nat, meta: Meta, mat: seq<int>, e: seq<seq<int>>, n: nat): int
    requires meta.Valid() && n > 0 && |mat| == meta.nrows * meta.ncols && i < meta.nrows
    requires forall b :: 0 <= b < |e| ==> |e[b]| == n
  {
    var r0 := StripStart(meta, n, i);
    RowFits(meta, n, i - r0);
    ShapeFits(meta, n);
    StripSum(meta, mat, r0, n, e, |e|)[(i - r0) * SubCols(meta, n)]
  }

  /** Row i's phase is the plain product of row i with x, plus noise. */
  lemma RowPhaseIs(i: nat, meta: Meta, mat: seq<int>, vec: seq<Rlwe>, k: nat, c: Context, s: seq<int>, x: seq<int>,
                   e: seq<seq<int>>, l: nat)
    requires meta.Valid() && c.Valid() && |x| == meta.ncols && |s| == c.n && k > 0 && |mat| == meta.nrows * meta.ncols
    requires forall b :: 0 <= b < |vec| ==> Usable(vec[b], c)
    requires PiecesHold(vec, meta, s, x, e, c) && i < meta.nrows && l < |c.q|
    ensures Cong(RowPhase(i, meta, mat, vec, k, c, l, s),
                 RowDot(meta, Signed(mat, k), i, x, meta.ncols) + RowNoise(i, meta, Signed(mat, k), e, c.n), c.q[l])
  {
    hide Cong, Usable, StripSum, Phases, SubCols, SubRows, CeilDiv, RowDot, Reversed, Piece;
    var m, ph, r0 := Signed(mat, k), NoisyPieces(meta, x, e, c), StripStart(meta, c.n, i);
    RowFits(meta, c.n, i - r0);
    ShapeFits(meta, c.n);
    StripSumCong(meta, m, r0, c.n, Phases(vec, l, s, |e|, c), ph, |e|, c.q[l]);
    TiledIsPlain(meta, m, r0, i - r0, c.n, x, ph);
    NoiseIs(meta, x, e, c);
  }

  lemma NoiseIs(meta: Meta, x: seq<int>, e: seq<seq<int>>, c: Context)
    requires meta.Valid() && c.n > 0 && |x| == meta.ncols && |e| == CeilDiv(meta.ncols, SubCols(meta, c.n))
    requires forall b :: 0 <= b < |e| ==> |e[b]| == c.n
    ensures Noise(meta, c.n, x, NoisyPieces(meta, x, e, c)) == e
  {
    hide SubCols, CeilDiv, Reversed, Piece;
    AllBlocksStart(meta, c.n);
    var d := Noise(meta, c.n, x, NoisyPieces(meta, x, e, c));
    forall b | 0 <= b < |e|
      ensures d[b] == e[b]
    {
      assert forall j :: 0 <= j < c.n ==> d[b][j] == e[b][j];
    }
  }

  // ------------------------------------------------------------------ scaled vectors

  /** The vector scaled up: round(Q * v / t). */
  function ScaledVector(v: seq<int>, bigQ: int, t: int): (x: seq<int>)
    requires t > 0
    ensures |x| == |v|
  {
    seq(|v|, i requires 0 <= i < |v| => RoundDiv(bigQ * v[i], t))
  }

  /** The sum of absolute values of row r. */
  function RowNorm(meta: Meta, mat: seq<int>, r: nat, j: nat): (s: int)
    requires |mat| == meta.nrows * meta.ncols && r < meta.nrows && j <= meta.ncols
    ensures s >= 0
  {
    if j == 0 then 0 else RowNorm(meta, mat, r, j - 1) + Abs(Entry(meta, mat, r, j - 1))
  }

  lemma TermError(a: int, v: int, bigQ: int, t: int)
    requires t > 0
    ensures -(t * Abs(a)) <= 2 * (t * (a * RoundDiv(bigQ * v, t))) - 2 * (bigQ * (a * v)) <= t * Abs(a)
  {
    hide RoundDiv;
    var x := RoundDiv(bigQ * v, t);
    RoundDivBounds(bigQ * v, t);
    var d := 2 * t * x - 2 * (bigQ * v);
    TermProducts(a, x, v, bigQ, t, d);
    if a >= 0 {
      MulLe(d, t, a);
      MulLe(-t, d, a);
    } else {
      MulLe(d, t, -a);
      MulLe(-t, d, -a);
    }
  }

  lemma TermProducts(a: int, x: int, v: int, bigQ: int, t: int, d: int)
    requires d == 2 * t * x - 2 * (bigQ * v)
    ensures 2 * (t * (a * x)) - 2 * (bigQ * (a * v)) == d * a
    ensures d * (-a) == -(d * a) && (-t) * a == -(t * a) && t * (-a) == -(t * a) && (-t) * (-a) == t * a
  {
    assert t * (a * x) == (t * x) * a;
    assert bigQ * (a * v) == (bigQ * v) * a;
    assert d * a == (2 * t * x) * a - (2 * (bigQ * v)) * a;
    assert (2 * t * x) * a == 2 * ((t * x) * a) && (2 * (bigQ * v)) * a == 2 * ((bigQ * v) * a);
  }

  /** Scaling the vector and the product differ by at most half a unit per unit of the row. */
  lemma {:induction false} ScaledRow(meta: Meta, mat: seq<int>, r: nat, v: seq<int>, bigQ: int, t: int, j: nat)
    requires |mat| == meta.nrows * meta.ncols && r < meta.nrows && j <= meta.ncols == |v| && t > 0
    ensures var d := 2 * (t * RowDot(meta, mat, r, ScaledVector(v, bigQ, t), j)) - 2 * (bigQ * RowDot(meta, mat, r, v, j));
            -(t * RowNorm(meta, mat, r, j)) <= d <= t * RowNorm(meta, mat, r, j)
  {
    hide RoundDiv, Entry, Abs;
    if j > 0 {
      ScaledRow(meta, mat, r, v, bigQ, t, j - 1);
      var a, x := Entry(meta, mat, r, j - 1), ScaledVector(v, bigQ, t);
      TermError(a, v[j - 1], bigQ, t);
      Spread2(t, RowDot(meta, mat, r, x, j - 1), a * x[j - 1]);
      Spread2(bigQ, RowDot(meta, mat, r, v, j - 1), a * v[j - 1]);
      Spread2(t, RowNorm(meta, mat, r, j - 1), Abs(a));
    }
  }

  lemma Spread2(t: int, a: int, b: int)
    ensures t * (a + b) == t * a + t * b
  {
  }

  /** Scaled products plus noise come down to the plain product. */
  lemma ProductComesDown(m: int, y: int, noise: int, norm: int, r: seq<int>, q: seq<int>, gamma: int, t: int,
                         g: seq<int>, inv: seq<int>)
    requires Tables(q, gamma, t, g, inv) && |r| == |q|
    requires -(t * norm) <= 2 * (t * y) - 2 * (Prod(q) * m) <= t * norm
    requires gamma * (t * (norm + 2 * Abs(noise))) <= gamma * Prod(q) - 2 * (|q| * Prod(q))
    ensures Down(y + noise, r, q, gamma, t, g, inv) == m
  {
    hide Cong, Unit, Scaled, Overshoot, RoundDiv, Punctured;
    OvershootRange(r, q, gamma, t, g, inv);
    var d, b := t * (y + noise) - m * Prod(q), t * (norm + 2 * Abs(noise));
    Spread2(t, y, noise);
    Spread2(t, norm, 2 * Abs(noise));
    MulLe(noise, Abs(noise), t);
    MulLe(-Abs(noise), noise, t);
    NoiseArith(t, y, noise, Abs(noise));
    assert t * (2 * Abs(noise)) == 2 * (Abs(noise) * t);
    assert -b <= 2 * d <= b;
    MulLe(2 * d, b, gamma);
    MulLe(-2 * d, b, gamma);
    Commute(d, gamma, b);
    RoundsTo(t * (y + noise), Prod(q), gamma, Overshoot(r, q, g, inv), |q|, m);
  }

  /** Decrypting output i gives row i of the matrix times v, modulo 2^k, whenever
      t (|row| + 2|noise|) gamma <= Q (gamma - 2L). */
  lemma MatVecDecrypts(ex: seq<Exact>, i: nat, meta: Meta, mat: seq<int>, vec: seq<Rlwe>, c: Context, h: Helper,
                       s: seq<int>, v: seq<int>, e: seq<seq<int>>, dot: seq<int>, out: int)
    requires c.Valid() && h.Valid() && h.q == c.q && meta.Valid() && |mat| == meta.nrows * meta.ncols && i < meta.nrows
    requires |s| == c.n && |v| == meta.ncols && forall b :: 0 <= b < |vec| ==> Usable(vec[b], c)
    requires RowResult(ex, i, meta, mat, vec, h.k, c)
    requires PiecesHold(vec, meta, s, ScaledVector(v, Prod(h.q), Pow(2, h.k)), e, c)
    requires var norm := RowNorm(meta, Signed(mat, h.k), i, meta.ncols);
             var noise := RowNoise(i, meta, Signed(mat, h.k), e, c.n);
             h.gamma * (Pow(2, h.k) * (norm + 2 * Abs(noise))) <= h.gamma * Prod(h.q) - 2 * (|h.q| * Prod(h.q))
    requires IsPhaseDown(ex, s, dot, out, h) && forall j :: 0 <= j < |mat| ==> mat[j] >= 0
    ensures 0 <= i * meta.ncols && i * meta.ncols + meta.ncols <= |mat|
    ensures out == Dot(mat[i * meta.ncols..i * meta.ncols + meta.ncols], v, meta.ncols) % Pow(2, h.k)
  {
    hide Cong, Unit, Pow, Usable, PiecesHold, RowPhase, RowDot, RowNorm, RowNoise, Signed, Punctured, Down, IsDown,
         Represents, ScaledVector, Abs;
    var m, q, t := Signed(mat, h.k), h.q, Pow(2, h.k);
    var x := ScaledVector(v, Prod(q), t);
    PiecesShape(vec, meta, s, x, e, c);
    var y, noise := RowDot(meta, m, i, x, meta.ncols), RowNoise(i, meta, m, e, c.n);
    forall l | 0 <= l < |q|
      ensures Cong(y + noise, ex[l].Phase(s), q[l])
    {
      RowPhaseIs(i, meta, mat, vec, h.k, c, s, x, e, l);
      CongTrans(ex[l].Phase(s), RowPhase(i, meta, mat, vec, h.k, c, l, s), y + noise, q[l]);
      CongSym(ex[l].Phase(s), y + noise, q[l]);
    }
    assert PhaseIs(ex, s, y + noise, q);
    ScaledRow(meta, m, i, v, Prod(q), t, meta.ncols);
    TablesPositive(q, h.gamma, t, h.gammaTModQ, h.invPunctured);
    ProductComesDown(RowDot(meta, m, i, v, meta.ncols), y, noise, RowNorm(meta, m, i, meta.ncols), dot, q, h.gamma, t,
                     h.gammaTModQ, h.invPunctured);
    DownAt(out, y + noise, dot, q, h.gamma, t, h.gammaTModQ, h.invPunctured);
    SignedRow(meta, mat, h.k, i, v, meta.ncols);
    RowDotIsSlice(meta, mat, i, v, meta.ncols);
    SliceDot(mat, i * meta.ncols, v, meta.ncols);
    ModFromCong(RowDot(meta, m, i, v, meta.ncols), RowDot(meta, mat, i, v, meta.ncols), t);
  }

  /** The product of a stretch of the matrix with v is the plain dot product of the slice. */
  lemma {:induction false} SliceDot(a: seq<int>, k: nat, v: seq<int>, j: nat)
    requires k + |v| <= |a| && j <= |v|
    ensures DotAt(a, k, v, j) == Dot(a[k..k + |v|], v, j)
  {
    if j > 0 { SliceDot(a, k, v, j - 1); }
  }

  /** Reading the matrix words as signed numbers does not change the product modulo 2^k. */
  lemma {:induction false} SignedRow(meta: Meta, mat: seq<int>, k: nat, r: nat, v: seq<int>, j: nat)
    requires |mat| == meta.nrows * meta.ncols && r < meta.nrows && j <= meta.ncols == |v| && k > 0
    requires forall i :: 0 <= i < |mat| ==> mat[i] >= 0
    ensures Cong(RowDot(meta, Signed(mat, k), r, v, j), RowDot(meta, mat, r, v, j), Pow(2, k))
  {
    hide Cong, Pow, SignedWord;
    var t := Pow(2, k);
    if j == 0 {
      CongRefl(0, t);
    } else {
      SignedRow(meta, mat, k, r, v, j - 1);
      MixedRadix(r, j - 1, meta.ncols, meta.nrows);
      SignedAt(meta, mat, k, r, j - 1);
      var a := Entry(meta, mat, r, j - 1);
      SignedWordIs(a, k);
      CongRefl(v[j - 1], t);
      CongMul(SignedWord(a, k), a, v[j - 1], v[j - 1], t);
      CongAdd(RowDot(meta, Signed(mat, k), r, v, j - 1), RowDot(meta, mat, r, v, j - 1),
              SignedWord(a, k) * v[j - 1], a * v[j - 1], t);
    }
  }

  // ------------------------------------------------------------------ from the encoder's output

  /** What rounding adds to the reversed piece b of the scaled vector when its signed words are scaled one by one. */
  function RoundingNoise(meta: Meta, n: nat, v: seq<int>, bigQ: int, t: int, b: nat): (d: seq<int>)
    requires meta.Valid() && n > 0 && |v| == meta.ncols && b * SubCols(meta, n) < meta.ncols && t > 0
    requires |Piece(meta, n, v, b)| <= n
    ensures |d| == n
  {
    PieceOfScaled(meta, n, v, bigQ, t, b);
    seq(n, i requires 0 <= i < n =>
      RoundDiv(bigQ * Reversed(Piece(meta, n, v, b), n)[i], t) - Reversed(Piece(meta, n, ScaledVector(v, bigQ, t), b), n)[i])
  }

  lemma PieceOfScaled(meta: Meta, n: nat, v: seq<int>, bigQ: int, t: int, b: nat)
    requires meta.Valid() && n > 0 && |v| == meta.ncols && b * SubCols(meta, n) < meta.ncols && t > 0
    ensures Piece(meta, n, ScaledVector(v, bigQ, t), b) == ScaledVector(Piece(meta, n, v, b), bigQ, t)
  {
    hide RoundDiv, SubCols;
    PieceBounds(meta, n, b);
  }

  /** It is 0 or 1 everywhere. */
  lemma RoundingNoiseSmall(meta: Meta, n: nat, v: seq<int>, bigQ: int, t: int, b: nat, i: nat)
    requires meta.Valid() && n > 0 && |v| == meta.ncols && b * SubCols(meta, n) < meta.ncols && t > 0 && i < n
    requires |Piece(meta, n, v, b)| <= n
    ensures 0 <= RoundingNoise(meta, n, v, bigQ, t, b)[i] <= 1
  {
    hide RoundDiv, SubCols, Piece, ScaledVector;
    var p := Piece(meta, n, v, b);
    PieceOfScaled(meta, n, v, bigQ, t, b);
    ReversedRounds(p, n, bigQ, t, i);
  }

  lemma ReversedRounds(p: seq<int>, n: nat, bigQ: int, t: int, i: nat)
    requires 0 < |p| <= n && i < n && t > 0
    ensures 0 <= RoundDiv(bigQ * Reversed(p, n)[i], t) - Reversed(ScaledVector(p, bigQ, t), n)[i] <= 1
  {
    hide RoundDiv;
    if i > 0 && n - i < |p| {
      assert bigQ * -p[n - i] == -(bigQ * p[n - i]);
      NegatedRound(bigQ * p[n - i], t);
    } else if i > 0 {
      RoundDivUnique(0, t, 0);
    }
  }

  /** No word sum wraps while piece b is scaled. */
  ghost predicate NoWraps(meta: Meta, v: seq<int>, h: Helper, n: nat, w: nat, b: nat)
    requires h.Valid() && n > 0 && meta.Valid() && |v| == meta.ncols && b * SubCols(meta, n) < meta.ncols
    requires |Piece(meta, n, v, b)| <= n
    reads h
  {
    HelperShape(h);
    forall l, i :: 0 <= l < |h.q| && 0 <= i < n ==> WordSum(h, BackwardWords(Piece(meta, n, v, b), n, w)[i], l) < WordEnd(w)
  }

  function WordSum(h: Helper, x: int, l: nat): int
    requires h.k > 0 && l < |h.q| == |h.qDivTModQi| && h.q[l] > 0
    reads h
  {
    UpSum(x, h.q[l], h.qDivTModQi[l], h.qModT, h.k)
  }

  function WordEnd(w: nat): int
  {
    Pow(2, if w == 128 then 128 else 64)
  }

  /** 32-bit words never wrap: their sums are formed in 64 bits. */
  lemma NarrowWordsFit(meta: Meta, v: seq<int>, h: Helper, n: nat, b: nat)
    requires h.Valid() && n > 0 && meta.Valid() && |v| == meta.ncols && b * SubCols(meta, n) < meta.ncols
    requires WordRange(v, 32)
    ensures |Piece(meta, n, v, b)| <= n && NoWraps(meta, v, h, n, 32, b)
  {
    hide Pow, SubCols, Piece, UpSum, Tables;
    PieceFits(meta, n, v, b, 32);
    HelperShape(h);
    var words := BackwardWords(Piece(meta, n, v, b), n, 32);
    BackwardRange(Piece(meta, n, v, b), n, 32);
    PowMonotone(2, 32, 63);
    PowHalf(64);
    assert Pow(2, h.k) > 0;
    forall l, i | 0 <= l < |h.q| && 0 <= i < n
      ensures WordSum(h, words[i], l) < WordEnd(32)
    {
      UpSumRange(words[i], h.q[l], h.qDivTModQi[l], h.qModT, h.k);
    }
  }

  /** The encoder's plaintext b is the reversed piece of the scaled vector plus that rounding, at every modulus. */
  lemma EncodedRows(rows: seq<seq<int>>, meta: Meta, v: seq<int>, h: Helper, n: nat, w: nat, b: nat, l: nat)
    requires h.Valid() && n > 0 && meta.Valid() && |v| == meta.ncols && WordFits(h.k, w) && WordRange(v, w)
    requires h.k > 0 && |h.qDivTModQi| == |h.q| && forall l :: 0 <= l < |h.q| ==> h.q[l] > 0
    requires Encodes(rows, meta, v, h, n, w, b) && NoWraps(meta, v, h, n, w, b) && l < |h.q|
    ensures CongRow(rows[l], Negacyclic.Add(Reversed(Piece(meta, n, ScaledVector(v, Prod(h.q), Pow(2, h.k)), b), n),
                                            RoundingNoise(meta, n, v, Prod(h.q), Pow(2, h.k), b)), h.q[l])
  {
    hide RoundDiv, SubCols, Piece, ScaledVector, Tables, Lifted, Cong, Pow, Prod, WordRange, UpSum, BackwardWords, Punctured;
    PieceFits(meta, n, v, b, w);
    var p := Piece(meta, n, v, b);
    forall i | 0 <= i < n
      ensures Cong(rows[l][i], RoundDiv(Prod(h.q) * Reversed(p, n)[i], Pow(2, h.k)), h.q[l])
    {
      ScaledBackward(h, p, n, w, i, l);
      assert WordSum(h, BackwardWords(p, n, w)[i], l) < WordEnd(w);
      CongMod(RoundDiv(Prod(h.q) * Reversed(p, n)[i], Pow(2, h.k)), h.q[l]);
    }
  }

  /** vec encrypts the plaintexts pts with noise: the phases are the plaintexts plus noise at every modulus. */
  ghost predicate EncryptsPieces(vec: seq<Rlwe>, pts: seq<seq<seq<int>>>, s: seq<int>, noise: seq<seq<int>>, c: Context)
    requires c.Valid() && |s| == c.n && forall b :: 0 <= b < |vec| ==> Usable(vec[b], c)
  {
    && |noise| == |pts| && (forall b :: 0 <= b < |pts| ==> Rows(pts[b], c) && |noise[b]| == c.n)
    && forall l: nat, b: nat :: l < |c.q| && b < |pts| ==>
         CongRow(Phases(vec, l, s, |pts|, c)[b], Negacyclic.Add(pts[b][l], noise[b]), c.q[l])
  }

  /** The encryption's noise and the encoder's rounding together. */
  function TotalNoise(noise: seq<seq<int>>, meta: Meta, v: seq<int>, bigQ: int, t: int, n: nat): (e: seq<seq<int>>)
    requires meta.Valid() && n > 0 && |v| == meta.ncols && t > 0
    requires |noise| == CeilDiv(meta.ncols, SubCols(meta, n)) && forall b :: 0 <= b < |noise| ==> |noise[b]| == n
    ensures |e| == |noise| && forall b :: 0 <= b < |e| ==> |e[b]| == n
  {
    AllBlocksStart(meta, n);
    PiecesFit(meta, n, v);
    seq(|noise|, b requires 0 <= b < |noise| => Negacyclic.Add(noise[b], RoundingNoise(meta, n, v, bigQ, t, b)))
  }

  lemma PiecesFit(meta: Meta, n: nat, v: seq<int>)
    requires meta.Valid() && n > 0 && |v| == meta.ncols
    ensures forall b: nat :: b * SubCols(meta, n) < meta.ncols ==> |Piece(meta, n, v, b)| <= n
  {
  }

  /** Encrypting what DoEncodeVector returns makes the pieces hold. */
  lemma EncodedPiecesHold(vec: seq<Rlwe>, pts: seq<seq<seq<int>>>, meta: Meta, v: seq<int>, h: Helper, c: Context, w: nat,
                          s: seq<int>, noise: seq<seq<int>>)
    requires c.Valid() && h.Valid() && h.q == c.q && meta.Valid() && |v| == meta.ncols && |s| == c.n
    requires WordFits(h.k, w) && WordRange(v, w) && forall b :: 0 <= b < |vec| ==> Usable(vec[b], c)
    requires h.k > 0 && |h.qDivTModQi| == |h.q| && forall l :: 0 <= l < |h.q| ==> h.q[l] > 0
    requires |pts| == CeilDiv(meta.ncols, SubCols(meta, c.n))
    requires forall b: nat :: b < |pts| ==> Encodes(pts[b], meta, v, h, c.n, w, b) && NoWraps(meta, v, h, c.n, w, b)
    requires EncryptsPieces(vec, pts, s, noise, c)
    ensures PiecesHold(vec, meta, s, ScaledVector(v, Prod(h.q), Pow(2, h.k)),
                       TotalNoise(noise, meta, v, Prod(h.q), Pow(2, h.k), c.n), c)
  {
    hide Cong, SubCols, Piece, ScaledVector, Pow, Prod, CongRow, Encodes, NoWraps, WordRange, Usable, Phases, Reversed;
    var bigQ, t := Prod(h.q), Pow(2, h.k);
    var x, e := ScaledVector(v, bigQ, t), TotalNoise(noise, meta, v, bigQ, t, c.n);
    AllBlocksStart(meta, c.n);
    PiecesFit(meta, c.n, v);
    forall l: nat, b: nat | l < |c.q| && b < |e|
      ensures CongRow(Phases(vec, l, s, |e|, c)[b], NoisyPieces(meta, x, e, c)[b], c.q[l])
    {
      EncodedRows(pts[b], meta, v, h, c.n, w, b, l);
      PiecesFit(meta, c.n, x);
      var r, d := Reversed(Piece(meta, c.n, x, b), c.n), RoundingNoise(meta, c.n, v, bigQ, t, b);
      CongRowRefl(noise[b], c.q[l]);
      AddCong(pts[b][l], Negacyclic.Add(r, d), noise[b], noise[b], c.q[l]);
      AddAssociates(r, d, noise[b]);
      CongRowTrans(Phases(vec, l, s, |e|, c)[b], Negacyclic.Add(pts[b][l], noise[b]),
                   Negacyclic.Add(r, Negacyclic.Add(noise[b], d)), c.q[l]);
    }
  }

  lemma AddAssociates(a: seq<int>, b: seq<int>, d: seq<int>)
    requires |a| == |b| == |d|
    ensures Negacyclic.Add(Negacyclic.Add(a, b), d) == Negacyclic.Add(a, Negacyclic.Add(d, b))
  {
  }

  lemma CongRowTrans(a: seq<int>, b: seq<int>, d: seq<int>, q: int)
    requires CongRow(a, b, q) && CongRow(b, d, q)
    ensures CongRow(a, d, q)
  {
    hide Cong;
    forall j | 0 <= j < |a| ensures Cong(a[j], d[j], q) { CongTrans(a[j], b[j], d[j], q); }
  }

  /** From the encoder's plaintexts to the decrypted row: if they are encrypted with noise and no word sum wrapped,
      output i is row i of the matrix times v modulo 2^k, under the bound for noise and rounding together. */
  lemma EncodedDecrypts(ex: seq<Exact>, i: nat, meta: Meta, mat: seq<int>, vec: seq<Rlwe>, c: Context, h: Helper, w: nat,
                        s: seq<int>, v: seq<int>, pts: seq<seq<seq<int>>>, noise: seq<seq<int>>, dot: seq<int>, out: int)
    requires c.Valid() && h.Valid() && h.q == c.q && meta.Valid() && |mat| == meta.nrows * meta.ncols && i < meta.nrows
    requires |s| == c.n && |v| == meta.ncols && forall b :: 0 <= b < |vec| ==> Usable(vec[b], c)
    requires WordFits(h.k, w) && WordRange(v, w)
    requires h.k > 0 && |h.qDivTModQi| == |h.q| && forall l :: 0 <= l < |h.q| ==> h.q[l] > 0
    requires |pts| == CeilDiv(meta.ncols, SubCols(meta, c.n))
    requires forall b: nat :: b < |pts| ==> Encodes(pts[b], meta, v, h, c.n, w, b) && NoWraps(meta, v, h, c.n, w, b)
    requires EncryptsPieces(vec, pts, s, noise, c)
    requires RowResult(ex, i, meta, mat, vec, h.k, c)
    requires var norm := RowNorm(meta, Signed(mat, h.k), i, meta.ncols);
             var e := TotalNoise(noise, meta, v, Prod(h.q), Pow(2, h.k), c.n);
             h.gamma * (Pow(2, h.k) * (norm + 2 * Abs(RowNoise(i, meta, Signed(mat, h.k), e, c.n))))
               <= h.gamma * Prod(h.q) - 2 * (|h.q| * Prod(h.q))
    requires IsPhaseDown(ex, s, dot, out, h) && forall j :: 0 <= j < |mat| ==> mat[j] >= 0
    ensures 0 <= i * meta.ncols && i * meta.ncols + meta.ncols <= |mat|
    ensures out == Dot(mat[i * meta.ncols..i * meta.ncols + meta.ncols], v, meta.ncols) % Pow(2, h.k)
  {
    hide Cong, Pow, Usable, PiecesHold, RowDot, RowNorm, RowNoise, Signed, IsPhaseDown, RowResult, ScaledVector, Abs,
         Encodes, NoWraps, WordRange, SubCols, CeilDiv, Prod, Helper.Valid;
    EncodedPiecesHold(vec, pts, meta, v, h, c, w, s, noise);
    MatVecDecrypts(ex, i, meta, mat, vec, c, h, s, v, TotalNoise(noise, meta, v, Prod(h.q), Pow(2, h.k), c.n), dot, out);
  }
}
