/** The matrix-vector protocol: tiling a word matrix, multiplying encrypted pieces, extracting the rows. */
module MatVecProtocol {
  import opened Arith
  import opened Rns
  import opened Rounding
  import opened ModSwitch
  import opened ModSwitchHelper
  import opened LweWords
  import opened LweSample
  import opened LweCt
  import opened MatVec
  import opened PolyEncoder
  import Negacyclic

  type Context = LweSample.Context

  // ------------------------------------------------------------------ values

  function Signed(mat: seq<int>, k: nat): (m: seq<int>)
    requires k > 0
    ensures |m| == |mat| && forall i :: 0 <= i < |m| ==> m[i] == SignedWord(mat[i], k)
  {
    seq(|mat|, i requires 0 <= i < |mat| => SignedWord(mat[i], k))
  }

  /** An encrypted piece: two polynomials at the first level, in transformed format. */
  ghost predicate Usable(ct: Rlwe, c: Context)
  {
    ct.MetaOk(c) && ct.ntt && |ct.polys| == 2 && ct.Level() == |c.q|
  }

  function PieceRow(ct: Rlwe, i: nat, l: nat, c: Context): (p: seq<int>)
    requires i < 2 && l < |c.q| && Usable(ct, c)
    ensures |p| == c.n
  {
    assert |ct.polys[i]| == ct.Level();
    ct.polys[i][l]
  }

  /** The pieces' polynomials at one modulus; a missing piece is only ever met by a zero tile. */
  function Polys(vec: seq<Rlwe>, i: nat, l: nat, nb: nat, c: Context): (p: seq<seq<int>>)
    requires i < 2 && l < |c.q| && forall b :: 0 <= b < |vec| ==> Usable(vec[b], c)
    ensures |p| == nb && forall b :: 0 <= b < nb ==> |p[b]| == c.n
  {
    seq(nb, b requires 0 <= b < nb => if b < |vec| then PieceRow(vec[b], i, l, c) else Negacyclic.Zero(c.n))
  }

  /** The pieces' phases under s at one modulus. */
  function Phases(vec: seq<Rlwe>, l: nat, s: seq<int>, nb: nat, c: Context): (p: seq<seq<int>>)
    requires l < |c.q| && |s| == c.n && forall b :: 0 <= b < |vec| ==> Usable(vec[b], c)
    ensures |p| == nb && forall b :: 0 <= b < nb ==> |p[b]| == c.n
  {
    seq(nb, b requires 0 <= b < nb =>
      Negacyclic.Add(Polys(vec, 0, l, nb, c)[b], Negacyclic.Mul(Polys(vec, 1, l, nb, c)[b], s)))
  }

  /** The phase of a strip's sums is the strip's sum of phases. */
  lemma {:induction false} StripPhase(meta: Meta, mat: seq<int>, r0: nat, vec: seq<Rlwe>, l: nat, s: seq<int>, nb: nat,
                                      c: Context, b: nat)
    requires meta.Valid() && c.n > 0 && |mat| == meta.nrows * meta.ncols && b <= nb
    requires l < |c.q| && |s| == c.n && forall i :: 0 <= i < |vec| ==> Usable(vec[i], c)
    ensures Negacyclic.Add(StripSum(meta, mat, r0, c.n, Polys(vec, 0, l, nb, c), b),
                           Negacyclic.Mul(StripSum(meta, mat, r0, c.n, Polys(vec, 1, l, nb, c), b), s))
         == StripSum(meta, mat, r0, c.n, Phases(vec, l, s, nb, c), b)
  {
    hide Negacyclic.Mul, Negacyclic.Add, Block, Usable, Polys, Phases, SubCols, Signed;
    PhaseAt(vec, l, s, nb, c);
    var p0, p1 := Polys(vec, 0, l, nb, c), Polys(vec, 1, l, nb, c);
    if b == 0 {
      ZeroTimes(s);
      AddZero(Negacyclic.Zero(|s|));
    } else {
      StripPhase(meta, mat, r0, vec, l, s, nb, c, b - 1);
      var m := Block(meta, mat, r0, (b - 1) * SubCols(meta, c.n), c.n);
      StepPhase(StripSum(meta, mat, r0, c.n, p0, b - 1), StripSum(meta, mat, r0, c.n, p1, b - 1), m, p0[b - 1], p1[b - 1], s);
    }
  }

  /** Phase b is that of ciphertext b itself, in the order of the pieces: c0 + c1 * s. */
  lemma PhasesAre(vec: seq<Rlwe>, l: nat, s: seq<int>, nb: nat, c: Context, b: nat)
    requires l < |c.q| && |s| == c.n && (forall i :: 0 <= i < |vec| ==> Usable(vec[i], c)) && b < nb && b < |vec|
    ensures |vec[b].polys| == 2 && |vec[b].polys[0]| == |vec[b].polys[1]| == |c.q|
    ensures |vec[b].polys[0][l]| == |vec[b].polys[1][l]| == c.n
    ensures Phases(vec, l, s, nb, c)[b] == Negacyclic.Add(vec[b].polys[0][l], Negacyclic.Mul(vec[b].polys[1][l], s))
  {
    hide Negacyclic.Add, Negacyclic.Mul;
    assert |vec[b].polys[0]| == vec[b].Level() && |vec[b].polys[1]| == vec[b].Level();
    PhaseAt(vec, l, s, nb, c);
  }

  lemma PhaseAt(vec: seq<Rlwe>, l: nat, s: seq<int>, nb: nat, c: Context)
    requires l < |c.q| && |s| == c.n && forall i :: 0 <= i < |vec| ==> Usable(vec[i], c)
    ensures forall b :: 0 <= b < nb ==>
              Phases(vec, l, s, nb, c)[b] == Negacyclic.Add(Polys(vec, 0, l, nb, c)[b], Negacyclic.Mul(Polys(vec, 1, l, nb, c)[b], s))
  {
  }

  lemma ZeroTimes(s: seq<int>)
    ensures Negacyclic.Mul(Negacyclic.Zero(|s|), s) == Negacyclic.Zero(|s|)
    ensures Negacyclic.Mul(s, Negacyclic.Zero(|s|)) == Negacyclic.Zero(|s|)
  {
    Negacyclic.MulComm(Negacyclic.Zero(|s|), s);
    forall k | 0 <= k < |s|
      ensures Negacyclic.Mul(s, Negacyclic.Zero(|s|))[k] == 0
    {
      Negacyclic.MulTermsZero(s, k, |s|);
    }
  }

  lemma StepPhase(a0: seq<int>, a1: seq<int>, m: seq<int>, p0: seq<int>, p1: seq<int>, s: seq<int>)
    requires |a0| == |a1| == |m| == |p0| == |p1| == |s|
    ensures Negacyclic.Add(Negacyclic.Add(a0, Negacyclic.Mul(m, p0)), Negacyclic.Mul(Negacyclic.Add(a1, Negacyclic.Mul(m, p1)), s))
         == Negacyclic.Add(Negacyclic.Add(a0, Negacyclic.Mul(a1, s)),
                           Negacyclic.Mul(m, Negacyclic.Add(p0, Negacyclic.Mul(p1, s))))
  {
    hide Negacyclic.Mul;
    Negacyclic.MulAdd(s, a1, Negacyclic.Mul(m, p1));
    Negacyclic.MulAdd(m, p0, Negacyclic.Mul(p1, s));
    Negacyclic.MulComm(Negacyclic.Mul(m, p1), s);
    Negacyclic.MulComm(p1, s);
    Negacyclic.MulCommutes(s, m, p1);
  }

  // ------------------------------------------------------------------ ciphertext arithmetic

  ghost predicate CongRow(a: seq<int>, b: seq<int>, q: int)
  {
    |a| == |b| && forall j :: 0 <= j < |a| ==> Cong(a[j], b[j], q)
  }

  function ModRow(a: seq<int>, q: int): (r: seq<int>)
    requires q > 0
    ensures |r| == |a| && forall j :: 0 <= j < |a| ==> r[j] == a[j] % q
  {
    seq(|a|, j requires 0 <= j < |a| => a[j] % q)
  }

  /** Product of a plaintext and one ciphertext polynomial, modulus by modulus. */
  function MultiplyRows(p: seq<seq<int>>, a: seq<seq<int>>, c: Context): (r: seq<seq<int>>)
    requires c.Valid() && Rows(p, c) && Rows(a, c)
    ensures Rows(r, c)
  {
    seq(|c.q|, l requires 0 <= l < |c.q| => ModRow(Negacyclic.Mul(p[l], a[l]), c.q[l]))
  }

  function AddRows(a: seq<seq<int>>, b: seq<seq<int>>, c: Context): (r: seq<seq<int>>)
    requires c.Valid() && Rows(a, c) && Rows(b, c)
    ensures Rows(r, c)
  {
    seq(|c.q|, l requires 0 <= l < |c.q| => ModRow(Negacyclic.Add(a[l], b[l]), c.q[l]))
  }

  predicate Rows(x: seq<seq<int>>, c: Context)
  {
    |x| == |c.q| && forall l :: 0 <= l < |c.q| ==> |x[l]| == c.n
  }

  lemma {:induction false} MulTermsCong(a: seq<int>, b: seq<int>, p: seq<int>, k: nat, j: nat, q: int)
    requires CongRow(a, b, q) && |p| == |a| && k < |a| && j <= |a|
    ensures Cong(Negacyclic.MulTerms(a, p, k, j), Negacyclic.MulTerms(b, p, k, j), q)
  {
    hide Cong;
    if j == 0 {
      CongRefl(0, q);
    } else {
      MulTermsCong(a, b, p, k, j - 1, q);
      var x := Negacyclic.At(p, k - (j - 1));
      CongRefl(x, q);
      CongMul(a[j - 1], b[j - 1], x, x, q);
      CongAdd(Negacyclic.MulTerms(a, p, k, j - 1), Negacyclic.MulTerms(b, p, k, j - 1), a[j - 1] * x, b[j - 1] * x, q);
    }
  }

  lemma MulCong(a: seq<int>, b: seq<int>, p: seq<int>, q: int)
    requires CongRow(a, b, q) && |p| == |a|
    ensures CongRow(Negacyclic.Mul(a, p), Negacyclic.Mul(b, p), q)
  {
    hide Cong;
    forall k | 0 <= k < |a|
      ensures Cong(Negacyclic.Mul(a, p)[k], Negacyclic.Mul(b, p)[k], q)
    {
      MulTermsCong(a, b, p, k, |a|, q);
    }
  }

  lemma ModRowCong(a: seq<int>, b: seq<int>, q: int)
    requires q > 0 && CongRow(a, b, q)
    ensures CongRow(ModRow(a, q), b, q) && Words(ModRow(a, q), q)
  {
    hide Cong;
    forall j | 0 <= j < |a|
      ensures Cong(a[j] % q, b[j], q)
    {
      CongMod(a[j], q);
      CongTrans(a[j] % q, a[j], b[j], q);
    }
  }

  lemma AddCong(a: seq<int>, b: seq<int>, d: seq<int>, e: seq<int>, q: int)
    requires CongRow(a, b, q) && CongRow(d, e, q) && |a| == |d|
    ensures CongRow(Negacyclic.Add(a, d), Negacyclic.Add(b, e), q)
  {
    hide Cong;
    forall j | 0 <= j < |a|
      ensures Cong(a[j] + d[j], b[j] + e[j], q)
    {
      CongAdd(a[j], b[j], d[j], e[j], q);
    }
  }

  // ------------------------------------------------------------------ tiles

  /** Copies a tile into a zeroed buffer, row after row. */
  method ConcatSubMatrix(mat: seq<int>, meta: Meta, r0: nat, c0: nat, ext0: nat, ext1: nat, n: nat) returns (buf: array<int>)
    requires meta.Valid() && n > 0 && |mat| == meta.nrows * meta.ncols && r0 < meta.nrows && c0 < meta.ncols
    requires ext0 == (if r0 + SubRows(meta, n) < meta.nrows then SubRows(meta, n) else meta.nrows - r0)
    requires ext1 == (if c0 + SubCols(meta, n) < meta.ncols then SubCols(meta, n) else meta.ncols - c0)
    ensures fresh(buf) && buf.Length == SubRows(meta, n) * SubCols(meta, n)
    ensures forall i :: 0 <= i < buf.Length ==> buf[i] == BlockEntry(meta, mat, r0, c0, n, i)
  {
    hide SubRows, SubCols, BlockEntry, Entry;
    var sr, sc := SubRows(meta, n), SubCols(meta, n);
    ShapeFits(meta, n);
    buf := new int[sr * sc](_ => 0);
    var re := 0;
    while re < ext0
      invariant 0 <= re <= ext0 && 0 <= re * sc <= sr * sc
      invariant forall i :: 0 <= i < re * sc ==> buf[i] == BlockEntry(meta, mat, r0, c0, n, i)
      invariant forall i :: re * sc <= i < sr * sc ==> buf[i] == 0
    {
      NextRow(re, sr, sc);
      CopyRow(mat, meta, r0, c0, ext1, n, re, buf);
      re := re + 1;
    }
    forall i | re * sc <= i < sr * sc
      ensures BlockEntry(meta, mat, r0, c0, n, i) == 0
    {
      BelowTile(meta, mat, r0, c0, n, ext0, i);
    }
  }

  lemma NextRow(re: nat, sr: nat, sc: nat)
    requires re < sr
    ensures 0 <= re * sc && re * sc + sc == (re + 1) * sc && re * sc + sc <= sr * sc
  {
    MulLe(re + 1, sr, sc);
    MulLe(0, re, sc);
    assert (re + 1) * sc == re * sc + sc;
  }

  /** copy_n of one tile row; the rest of the row stays zero, as it should. */
  method CopyRow(mat: seq<int>, meta: Meta, r0: nat, c0: nat, ext1: nat, n: nat, re: nat, buf: array<int>)
    requires meta.Valid() && n > 0 && |mat| == meta.nrows * meta.ncols && c0 < meta.ncols
    requires re < SubRows(meta, n) && r0 + re < meta.nrows
    requires ext1 == (if c0 + SubCols(meta, n) < meta.ncols then SubCols(meta, n) else meta.ncols - c0)
    requires 0 <= re * SubCols(meta, n) && re * SubCols(meta, n) + SubCols(meta, n) <= buf.Length
    requires forall i :: 0 <= i < re * SubCols(meta, n) ==> buf[i] == BlockEntry(meta, mat, r0, c0, n, i)
    requires forall i :: re * SubCols(meta, n) <= i < buf.Length ==> buf[i] == 0
    modifies buf
    ensures forall i :: 0 <= i < re * SubCols(meta, n) + SubCols(meta, n) ==> buf[i] == BlockEntry(meta, mat, r0, c0, n, i)
    ensures forall i :: re * SubCols(meta, n) + SubCols(meta, n) <= i < buf.Length ==> buf[i] == 0
  {
    hide SubRows, SubCols, BlockEntry, Entry;
    var sc := SubCols(meta, n);
    ghost var base := re * sc;
    for c := 0 to ext1
      invariant forall i :: 0 <= i < base + c ==> buf[i] == BlockEntry(meta, mat, r0, c0, n, i)
      invariant forall i :: base + c <= i < buf.Length ==> buf[i] == 0
    {
      BlockAt(meta, mat, r0, c0, n, re, c);
      buf[re * sc + c] := Entry(meta, mat, r0 + re, c0 + c);
    }
    forall i | base + ext1 <= i < base + sc
      ensures BlockEntry(meta, mat, r0, c0, n, i) == 0
    {
      BlockAt(meta, mat, r0, c0, n, re, i - base);
    }
  }

  /** Nothing of the matrix lies below the tile's last row. */
  lemma BelowTile(meta: Meta, mat: seq<int>, r0: nat, c0: nat, n: nat, ext0: nat, i: nat)
    requires meta.Valid() && n > 0 && |mat| == meta.nrows * meta.ncols
    requires r0 + ext0 >= meta.nrows || ext0 >= SubRows(meta, n)
    requires i >= ext0 * SubCols(meta, n)
    ensures BlockEntry(meta, mat, r0, c0, n, i) == 0
  {
    hide SubRows, Entry;
    var sc := SubCols(meta, n);
    DivMod(i, sc);
    if i / sc < ext0 { MulLe(i / sc + 1, ext0, sc); }
    assert (i / sc + 1) * sc == i / sc * sc + sc;
  }

  /** A tile of zeros; the test of the protocol reads the words. */
  ghost predicate ZeroTile(meta: Meta, mat: seq<int>, r0: nat, c0: nat, n: nat)
    requires meta.Valid() && n > 0 && |mat| == meta.nrows * meta.ncols
  {
    forall i :: 0 <= i < n ==> BlockEntry(meta, mat, r0, c0, n, i) == 0
  }

  lemma SignedZero(k: nat)
    requires k > 0
    ensures SignedWord(0, k) == 0
  {
    assert Pow(2, k - 1) > 0;
  }

  lemma SignedAt(meta: Meta, mat: seq<int>, k: nat, r: nat, c: nat)
    requires k > 0 && |mat| == meta.nrows * meta.ncols && r < meta.nrows && c < meta.ncols
    ensures Entry(meta, Signed(mat, k), r, c) == SignedWord(Entry(meta, mat, r, c), k)
  {
    hide SignedWord;
    MixedRadix(r, c, meta.ncols, meta.nrows);
  }

  lemma SignedEntry(meta: Meta, mat: seq<int>, r0: nat, c0: nat, n: nat, k: nat, i: nat)
    requires meta.Valid() && n > 0 && k > 0 && |mat| == meta.nrows * meta.ncols
    ensures BlockEntry(meta, Signed(mat, k), r0, c0, n, i) == SignedWord(BlockEntry(meta, mat, r0, c0, n, i), k)
  {
    hide SubRows, SubCols, SignedWord, Entry, Signed;
    SignedZero(k);
    ShapeFits(meta, n);
    var sc := SubCols(meta, n);
    DivMod(i, sc);
    NonNegative(i, sc);
    var r, c := i / sc, i % sc;
    if r < SubRows(meta, n) && r0 + r < meta.nrows && c0 + c < meta.ncols { SignedAt(meta, mat, k, r0 + r, c0 + c); }
  }

  lemma ZeroTileSum(meta: Meta, mat: seq<int>, r0: nat, n: nat, k: nat, ph: seq<seq<int>>, b: nat)
    requires meta.Valid() && n > 0 && k > 0 && |mat| == meta.nrows * meta.ncols && b < |ph|
    requires forall i :: 0 <= i < |ph| ==> |ph[i]| == n
    requires ZeroTile(meta, mat, r0, b * SubCols(meta, n), n)
    ensures StripSum(meta, Signed(mat, k), r0, n, ph, b + 1) == StripSum(meta, Signed(mat, k), r0, n, ph, b)
  {
    hide BlockEntry, SubCols, Negacyclic.Mul, SignedWord;
    var p := Block(meta, Signed(mat, k), r0, b * SubCols(meta, n), n);
    SignedZero(k);
    forall i | 0 <= i < n
      ensures p[i] == 0
    {
      SignedEntry(meta, mat, r0, b * SubCols(meta, n), n, k, i);
    }
    assert p == Negacyclic.Zero(n);
    ZeroTimes(ph[b]);
    AddZero(StripSum(meta, Signed(mat, k), r0, n, ph, b));
  }

  lemma AddZero(a: seq<int>)
    ensures Negacyclic.Add(a, Negacyclic.Zero(|a|)) == a
  {
  }

  // ------------------------------------------------------------------ one strip

  /** The accumulator after the tiles below b: congruent to the exact sums, or still empty. */
  ghost predicate Accumulated(a0: seq<seq<int>>, a1: seq<seq<int>>, some: bool, s: StripOf, b: nat)
    requires s.Valid() && b <= s.Tiles()
  {
    && (forall i :: 0 <= i < b ==> s.Zero(i) || (some && i < |s.vec|))
    && (some ==> exists i :: 0 <= i < b && !s.Zero(i))
    && (if some then RowsHold(a0, s, 0, b) && RowsHold(a1, s, 1, b) else s.NothingYet(b))
  }

  ghost predicate RowsHold(a: seq<seq<int>>, s: StripOf, i: nat, b: nat)
    requires s.Valid() && b <= s.Tiles() && i < 2
  {
    && Rows(a, s.c)
    && forall l :: 0 <= l < |a| ==> Words(a[l], s.c.q[l]) && CongRow(a[l], s.Sum(i, l, b), s.c.q[l])
  }

  /** The strip starting at row r0, with everything it is computed from. */
  datatype StripOf = StripOf(meta: Meta, mat: seq<int>, r0: nat, vec: seq<Rlwe>, k: nat, c: Context)
  {
    ghost predicate Valid()
    {
      && meta.Valid() && |mat| == meta.nrows * meta.ncols && k > 0 && c.Valid()
      && forall b :: 0 <= b < |vec| ==> Usable(vec[b], c)
    }

    function Tiles(): nat
      requires meta.Valid() && c.n > 0
    {
      CeilDiv(meta.ncols, SubCols(meta, c.n))
    }

    function Start(b: nat): int
    {
      b * SubCols(meta, c.n)
    }

    ghost predicate Zero(b: nat)
      requires Valid()
    {
      ZeroTile(meta, mat, r0, b * SubCols(meta, c.n), c.n)
    }

    function Tile(b: nat): (p: seq<int>)
      requires meta.Valid() && c.n > 0 && k > 0 && |mat| == meta.nrows * meta.ncols
      ensures |p| == c.n
    {
      Block(meta, Signed(mat, k), r0, b * SubCols(meta, c.n), c.n)
    }

    function Sum(i: nat, l: nat, b: nat): (p: seq<int>)
      requires Valid() && i < 2 && l < |c.q| && b <= Tiles()
      ensures |p| == c.n
    {
      StripSum(meta, Signed(mat, k), r0, c.n, Polys(vec, i, l, Tiles(), c), b)
    }

    ghost predicate NothingYet(b: nat)
      requires Valid() && b <= Tiles()
    {
      forall i, l :: 0 <= i < 2 && 0 <= l < |c.q| ==> Sum(i, l, b) == Negacyclic.Zero(c.n)
    }

    /** The strip is processed: some tile is not zero, and every such tile has its piece. */
    ghost predicate Possible()
      requires Valid()
    {
      && (exists b :: 0 <= b < Tiles() && !Zero(b))
      && forall b :: 0 <= b < Tiles() && !Zero(b) ==> b < |vec|
    }
  }

  lemma NextSum(s: StripOf, i: nat, l: nat, b: nat)
    requires s.Valid() && i < 2 && l < |s.c.q| && b < s.Tiles()
    ensures s.Zero(b) ==> s.Sum(i, l, b + 1) == s.Sum(i, l, b)
    ensures b < |s.vec| ==>
              s.Sum(i, l, b + 1) == Negacyclic.Add(s.Sum(i, l, b), Negacyclic.Mul(s.Tile(b), PieceRow(s.vec[b], i, l, s.c)))
  {
    hide Negacyclic.Mul, Block, ZeroTile, Usable, SubCols, CeilDiv;
    if s.Zero(b) { ZeroTileSum(s.meta, s.mat, s.r0, s.c.n, s.k, Polys(s.vec, i, l, s.Tiles(), s.c), b); }
  }

  /** Forwarded tile rows are the signed tile modulo each modulus. */
  ghost predicate TileRows(p: seq<seq<int>>, s: StripOf, b: nat)
    requires s.Valid()
  {
    Rows(p, s.c) && forall l :: 0 <= l < |p| ==> CongRow(p[l], s.Tile(b), s.c.q[l])
  }

  function PieceRows(ct: Rlwe, i: nat, c: Context): (p: seq<seq<int>>)
    requires i < 2 && Usable(ct, c)
    ensures Rows(p, c)
  {
    seq(|c.q|, l requires 0 <= l < |c.q| => PieceRow(ct, i, l, c))
  }

  lemma ProductRows(p: seq<seq<int>>, s: StripOf, i: nat, b: nat, a: seq<seq<int>>, some: bool)
    requires s.Valid() && i < 2 && b < s.Tiles() && b < |s.vec| && TileRows(p, s, b)
    requires if some then RowsHold(a, s, i, b) else s.NothingYet(b)
    ensures var m := MultiplyRows(p, PieceRows(s.vec[b], i, s.c), s.c);
            RowsHold(if some then AddRows(a, m, s.c) else m, s, i, b + 1)
  {
    hide Negacyclic.Mul, Negacyclic.Add, Block, ZeroTile, Usable, SubCols, CeilDiv, CongRow, Cong, Words, StripOf.Sum, StripOf.Tile;
    var m := MultiplyRows(p, PieceRows(s.vec[b], i, s.c), s.c);
    forall l | 0 <= l < |s.c.q|
      ensures Words(if some then AddRows(a, m, s.c)[l] else m[l], s.c.q[l])
      ensures CongRow(if some then AddRows(a, m, s.c)[l] else m[l], s.Sum(i, l, b + 1), s.c.q[l])
    {
      var q, x, t := s.c.q[l], PieceRow(s.vec[b], i, l, s.c), s.Tile(b);
      NextSum(s, i, l, b);
      MulCong(p[l], t, x, q);
      ModRowCong(Negacyclic.Mul(p[l], x), Negacyclic.Mul(t, x), q);
      if some {
        AddCong(a[l], s.Sum(i, l, b), m[l], Negacyclic.Mul(t, x), q);
        ModRowCong(Negacyclic.Add(a[l], m[l]), s.Sum(i, l, b + 1), q);
      } else {
        ZeroAdd(Negacyclic.Mul(t, x));
      }
    }
  }

  lemma ZeroAdd(a: seq<int>)
    ensures Negacyclic.Add(Negacyclic.Zero(|a|), a) == a
  {
  }

  lemma BlockInRange(meta: Meta, mat: seq<int>, r0: nat, c0: nat, n: nat, w: nat, i: nat)
    requires meta.Valid() && n > 0 && |mat| == meta.nrows * meta.ncols && WordRange(mat, w)
    ensures 0 <= BlockEntry(meta, mat, r0, c0, n, i) < Pow(2, w)
  {
    hide SubRows, SubCols, Pow;
    assert Pow(2, w) > 0;
    ShapeFits(meta, n);
    var sc := SubCols(meta, n);
    DivMod(i, sc);
    NonNegative(i, sc);
    var r, c := r0 + i / sc, c0 + i % sc;
    if r < meta.nrows && c < meta.ncols { MixedRadix(r, c, meta.ncols, meta.nrows); }
  }

  /** The words of a tile, forwarded without scaling, are the signed tile modulo each modulus. */
  lemma TileFromWords(s: StripOf, h: Helper, buf: seq<int>, p: seq<seq<int>>, b: nat, w: nat)
    requires s.Valid() && h.Valid() && h.q == s.c.q && h.k == s.k
    requires |buf| == SubRows(s.meta, s.c.n) * SubCols(s.meta, s.c.n)
    requires forall i :: 0 <= i < |buf| ==> buf[i] == BlockEntry(s.meta, s.mat, s.r0, b * SubCols(s.meta, s.c.n), s.c.n, i)
    requires |h.qDivTModQi| == |h.q| && (forall l :: 0 <= l < |h.q| ==> h.q[l] > 0)
    requires |p| == |h.q| && (forall l :: 0 <= l < |p| ==> |p[l]| == s.c.n)
    requires forall l, i :: 0 <= l < |p| && 0 <= i < s.c.n ==> p[l][i] == ForwardEntry(h, buf, i, l, false, w)
    ensures TileRows(p, s, b)
  {
    hide Cong, BlockEntry, SubRows, SubCols, SignedWord, Signed;
    ShapeFits(s.meta, s.c.n);
    SignedZero(s.k);
    forall l, i | 0 <= l < |p| && 0 <= i < s.c.n
      ensures Cong(p[l][i], s.Tile(b)[i], s.c.q[l])
    {
      SignedEntry(s.meta, s.mat, s.r0, b * SubCols(s.meta, s.c.n), s.c.n, s.k, i);
      if i < |buf| {
        CongMod(SignedWord(buf[i], s.k), s.c.q[l]);
      } else {
        BelowTile(s.meta, s.mat, s.r0, b * SubCols(s.meta, s.c.n), s.c.n, SubRows(s.meta, s.c.n), i);
        CongRefl(0, s.c.q[l]);
      }
    }
  }

  method AnyPositive(buf: array<int>) returns (any: bool)
    ensures any <==> exists i :: 0 <= i < buf.Length && buf[i] > 0
  {
    for i := 0 to buf.Length
      invariant forall j :: 0 <= j < i ==> buf[j] <= 0
    {
      if buf[i] > 0 { return true; }
    }
    any := false;
  }

  lemma ZeroIffNonePositive(s: StripOf, b: nat, w: nat)
    requires s.Valid() && WordRange(s.mat, w)
    ensures var m := SubRows(s.meta, s.c.n) * SubCols(s.meta, s.c.n);
            s.Zero(b) <==> forall i :: 0 <= i < m ==>
                             BlockEntry(s.meta, s.mat, s.r0, b * SubCols(s.meta, s.c.n), s.c.n, i) <= 0
  {
    hide BlockEntry, SubRows, SubCols, WordRange, Pow;
    ShapeFits(s.meta, s.c.n);
    forall i | 0 <= i < s.c.n
      ensures 0 <= BlockEntry(s.meta, s.mat, s.r0, b * SubCols(s.meta, s.c.n), s.c.n, i)
      ensures i >= SubRows(s.meta, s.c.n) * SubCols(s.meta, s.c.n) ==>
                BlockEntry(s.meta, s.mat, s.r0, b * SubCols(s.meta, s.c.n), s.c.n, i) == 0
    {
      BlockInRange(s.meta, s.mat, s.r0, b * SubCols(s.meta, s.c.n), s.c.n, w, i);
      if i >= SubRows(s.meta, s.c.n) * SubCols(s.meta, s.c.n) {
        BelowTile(s.meta, s.mat, s.r0, b * SubCols(s.meta, s.c.n), s.c.n, SubRows(s.meta, s.c.n), i);
      }
    }
  }

  /** The forwarded polynomial of tile b, unless the tile is zero. */
  method TilePoly(s: StripOf, h: Helper, w: nat, ghost b: nat, c0: nat) returns (any: bool, p: seq<seq<int>>)
    requires s.Valid() && h.Valid() && h.q == s.c.q && h.k == s.k && WordFits(h.k, w) && WordRange(s.mat, w)
    requires s.r0 < s.meta.nrows && c0 < s.meta.ncols && c0 == s.Start(b)
    ensures any == !s.Zero(b)
    ensures any ==> TileRows(p, s, b)
  {
    hide BlockEntry, SubRows, SubCols, Pow, WordRange, ZeroTile, Tables, TileRows, Usable;
    p := [];
    var sr, sc := SubRows(s.meta, s.c.n), SubCols(s.meta, s.c.n);
    ShapeFits(s.meta, s.c.n);
    var ext0 := if s.r0 + sr < s.meta.nrows then sr else s.meta.nrows - s.r0;
    var ext1 := if c0 + sc < s.meta.ncols then sc else s.meta.ncols - c0;
    var buf := ConcatSubMatrix(s.mat, s.meta, s.r0, c0, ext0, ext1, s.c.n);
    any := AnyPositive(buf);
    ZeroIffNonePositive(s, b, w);
    if any {
      BufferRange(s, b, buf[..], w);
      var ok;
      ok, p := DoForward(h, s.c.n, buf[..], false, w);
      TileFromWords(s, h, buf[..], p, b, w);
    }
  }

  lemma BufferRange(s: StripOf, b: nat, buf: seq<int>, w: nat)
    requires s.Valid() && WordRange(s.mat, w)
    requires forall i :: 0 <= i < |buf| ==> buf[i] == BlockEntry(s.meta, s.mat, s.r0, b * SubCols(s.meta, s.c.n), s.c.n, i)
    ensures WordRange(buf, w)
  {
    hide BlockEntry, SubCols, Pow;
    forall i | 0 <= i < |buf|
      ensures 0 <= buf[i] < Pow(2, w)
    {
      BlockInRange(s.meta, s.mat, s.r0, b * SubCols(s.meta, s.c.n), s.c.n, w, i);
    }
  }

  /** Accumulates one strip of tiles, skipping zero tiles; a strip of zeros throws. */
  method Strip(s: StripOf, h: Helper, w: nat) returns (ok: bool, a0: seq<seq<int>>, a1: seq<seq<int>>)
    requires s.Valid() && h.Valid() && h.q == s.c.q && h.k == s.k && WordFits(h.k, w) && WordRange(s.mat, w)
    requires s.r0 < s.meta.nrows
    ensures ok == s.Possible()
    ensures ok ==> RowsHold(a0, s, 0, s.Tiles()) && RowsHold(a1, s, 1, s.Tiles())
  {
    hide SubRows, SubCols, Pow, WordRange, StripOf.Zero, Tables, TileRows, Usable, RowsHold, CeilDiv, Accumulated,
         StripOf.Possible, MultiplyRows, AddRows, PieceRows, ZeroTile, StripOf.Start;
    a0, a1 := [], [];
    ShapeFits(s.meta, s.c.n);
    var sc := SubCols(s.meta, s.c.n);
    var some, cbgn := false, 0;
    ghost var b := 0;
    EmptyStart(s);
    while cbgn < s.meta.ncols
      invariant 0 <= cbgn == s.Start(b) && b <= s.Tiles() && Accumulated(a0, a1, some, s, b)
      decreases s.meta.ncols - cbgn
    {
      MoreTiles(s, b);
      var any, p := TilePoly(s, h, w, b, cbgn);
      if any {
        TileIndex(s, b);
        var idx := cbgn / sc;
        if idx >= |s.vec| {
          MissingPiece(s, b);
          return false, [], [];
        }
        TileAdds(s, b, p, a0, a1, some);
        var m0 := MultiplyRows(p, PieceRows(s.vec[idx], 0, s.c), s.c);
        var m1 := MultiplyRows(p, PieceRows(s.vec[idx], 1, s.c), s.c);
        a0, a1 := if some then AddRows(a0, m0, s.c) else m0, if some then AddRows(a1, m1, s.c) else m1;
        some := true;
      } else {
        ZeroSkips(s, b, a0, a1, some);
      }
      TileIndex(s, b);
      cbgn := cbgn + sc;
      b := b + 1;
    }
    AllTiles(s, b);
    StripEnd(s, a0, a1, some);
    ok := some;
  }

  /** A tile with a nonzero word is multiplied and added. */
  lemma TileAdds(s: StripOf, b: nat, p: seq<seq<int>>, a0: seq<seq<int>>, a1: seq<seq<int>>, some: bool)
    requires s.Valid() && b < s.Tiles() && b < |s.vec| && !s.Zero(b) && TileRows(p, s, b)
    requires Accumulated(a0, a1, some, s, b)
    ensures Rows(p, s.c) && (some ==> Rows(a0, s.c) && Rows(a1, s.c))
    ensures var m0, m1 := MultiplyRows(p, PieceRows(s.vec[b], 0, s.c), s.c), MultiplyRows(p, PieceRows(s.vec[b], 1, s.c), s.c);
            Accumulated(if some then AddRows(a0, m0, s.c) else m0, if some then AddRows(a1, m1, s.c) else m1, true, s, b + 1)
  {
    hide StripOf.Zero, Usable, SubCols, CeilDiv, StripOf.NothingYet, MultiplyRows, AddRows, PieceRows, Words, CongRow;
    ProductRows(p, s, 0, b, a0, some);
    ProductRows(p, s, 1, b, a1, some);
  }

  lemma StripEnd(s: StripOf, a0: seq<seq<int>>, a1: seq<seq<int>>, some: bool)
    requires s.Valid() && Accumulated(a0, a1, some, s, s.Tiles())
    ensures some == s.Possible()
    ensures some ==> RowsHold(a0, s, 0, s.Tiles()) && RowsHold(a1, s, 1, s.Tiles())
  {
    hide StripOf.Zero, RowsHold, StripOf.NothingYet, CeilDiv;
  }

  lemma TileIndex(s: StripOf, b: nat)
    requires s.Valid()
    ensures s.Start(b + 1) == s.Start(b) + SubCols(s.meta, s.c.n) && 0 <= s.Start(b)
    ensures SubCols(s.meta, s.c.n) > 0 && s.Start(b) / SubCols(s.meta, s.c.n) == b
  {
    FlatIndex(b, 0, SubCols(s.meta, s.c.n));
    NextRow(b, b + 1, SubCols(s.meta, s.c.n));
  }

  lemma EmptyStart(s: StripOf)
    requires s.Valid()
    ensures s.Start(0) == 0
    ensures Accumulated([], [], false, s, 0)
  {
  }

  lemma MoreTiles(s: StripOf, b: nat)
    requires s.Valid() && s.Start(b) < s.meta.ncols
    ensures b < s.Tiles()
  {
    var sc, k := SubCols(s.meta, s.c.n), s.Tiles();
    if b >= k { MulLe(k, b, sc); }
  }

  lemma AllTiles(s: StripOf, b: nat)
    requires s.Valid() && b <= s.Tiles() && s.Start(b) >= s.meta.ncols
    ensures b == s.Tiles()
  {
    hide CeilDiv;
    AllBlocksStart(s.meta, s.c.n);
  }

  lemma ZeroSkips(s: StripOf, b: nat, a0: seq<seq<int>>, a1: seq<seq<int>>, some: bool)
    requires s.Valid() && b < s.Tiles() && s.Zero(b) && Accumulated(a0, a1, some, s, b)
    ensures Accumulated(a0, a1, some, s, b + 1)
  {
    hide StripOf.Sum, Words, CongRow, StripOf.Zero, SubCols, CeilDiv, Usable;
    var next := b + 1;
    forall j: nat, l: nat | j < 2 && l < |s.c.q|
      ensures s.Sum(j, l, next) == s.Sum(j, l, b)
    {
      NextSum(s, j, l, b);
    }
    if some {
      SameRows(a0, s, 0, b, next);
      SameRows(a1, s, 1, b, next);
    }
  }

  lemma SameRows(a: seq<seq<int>>, s: StripOf, i: nat, b: nat, next: nat)
    requires s.Valid() && i < 2 && b <= next <= s.Tiles() && RowsHold(a, s, i, b)
    requires forall l: nat :: l < |s.c.q| ==> s.Sum(i, l, next) == s.Sum(i, l, b)
    ensures RowsHold(a, s, i, next)
  {
    hide StripOf.Sum, Words, CongRow, CeilDiv, SubCols, Usable;
  }

  /** A nonzero tile without its piece. */
  lemma MissingPiece(s: StripOf, b: nat)
    requires s.Valid() && b < s.Tiles() && !s.Zero(b) && b >= |s.vec|
    ensures !s.Possible()
  {
    hide StripOf.Zero, CeilDiv, SubCols;
  }

  // ------------------------------------------------------------------ the product

  /** What output i decrypts to, for every secret and modulus: its coefficient of its strip's sum of
      phases. */
  ghost predicate RowResult(e: seq<Exact>, i: nat, meta: Meta, mat: seq<int>, vec: seq<Rlwe>, k: nat, c: Context)
    requires StripOf(meta, mat, 0, vec, k, c).Valid() && i < meta.nrows
  {
    && |e| == |c.q| && Shape(e, c.n)
    && forall l: nat, s: seq<int> :: l < |c.q| && |s| == c.n ==>
         Cong(e[l].Phase(s), RowPhase(i, meta, mat, vec, k, c, l, s), c.q[l])
  }

  function StripStart(meta: Meta, n: nat, i: nat): (r0: nat)
    requires meta.Valid() && n > 0
    ensures r0 <= i && i - r0 < SubRows(meta, n)
  {
    ShapeFits(meta, n);
    var sr := SubRows(meta, n);
    DivMod(i, sr);
    NonNegative(i, sr);
    MulLe(0, i / sr, sr);
    i / sr * sr
  }

  function RowPhase(i: nat, meta: Meta, mat: seq<int>, vec: seq<Rlwe>, k: nat, c: Context, l: nat, s: seq<int>): int
    requires meta.Valid() && |mat| == meta.nrows * meta.ncols && k > 0 && c.n > 0
    requires forall b :: 0 <= b < |vec| ==> Usable(vec[b], c)
    requires i < meta.nrows && l < |c.q| && |s| == c.n
  {
    var r0, nb := StripStart(meta, c.n, i), CeilDiv(meta.ncols, SubCols(meta, c.n));
    RowFits(meta, c.n, i - r0);
    ShapeFits(meta, c.n);
    StripSum(meta, Signed(mat, k), r0, c.n, Phases(vec, l, s, nb, c), nb)[(i - r0) * SubCols(meta, c.n)]
  }

  /** Extracting coefficient j from the strip gives the coefficient of the sum of phases. */
  lemma ExtractedPhase(s: StripOf, a0: seq<seq<int>>, a1: seq<seq<int>>, j: nat, l: nat, sec: seq<int>)
    requires s.Valid() && RowsHold(a0, s, 0, s.Tiles()) && RowsHold(a1, s, 1, s.Tiles())
    requires j < s.c.n && l < |s.c.q| && |sec| == s.c.n
    ensures |a0| == |a1| == |s.c.q| && |a0[l]| == |a1[l]| == s.c.n
    ensures Cong(Extract(a0[l], a1[l], j).Phase(sec),
                 StripSum(s.meta, Signed(s.mat, s.k), s.r0, s.c.n, Phases(s.vec, l, sec, s.Tiles(), s.c), s.Tiles())[j], s.c.q[l])
  {
    hide Cong, Usable, Negacyclic.Mul, Block, StripSum, Polys, Phases, CeilDiv, SubCols, Words;
    var q, nb := s.c.q[l], s.Tiles();
    ExtractCorrect(a0[l], a1[l], j, sec);
    MulCong(a1[l], s.Sum(1, l, nb), sec, q);
    AddCong(a0[l], s.Sum(0, l, nb), Negacyclic.Mul(a1[l], sec), Negacyclic.Mul(s.Sum(1, l, nb), sec), q);
    StripPhase(s.meta, Signed(s.mat, s.k), s.r0, s.vec, l, sec, nb, s.c, nb);
  }

  lemma ExtractedRow(s: StripOf, a0: seq<seq<int>>, a1: seq<seq<int>>, r: nat, acc: Rlwe, t: nat)
    requires s.Valid() && RowsHold(a0, s, 0, s.Tiles()) && RowsHold(a1, s, 1, s.Tiles())
    requires r < SubRows(s.meta, s.c.n) && s.r0 + r < s.meta.nrows && acc == Rlwe([a0, a1], false)
    requires s.r0 == t * SubRows(s.meta, s.c.n)
    ensures 0 <= r * SubCols(s.meta, s.c.n) && acc.Extractable(r * SubCols(s.meta, s.c.n), s.c) && acc.Reduced(s.c)
    ensures StripStart(s.meta, s.c.n, s.r0 + r) == s.r0 && acc.Level() == |s.c.q|
    ensures RowResult(acc.Extracted(r * SubCols(s.meta, s.c.n), s.c), s.r0 + r, s.meta, s.mat, s.vec, s.k, s.c)
  {
    hide Cong, Usable, Words, StripSum, Phases, CeilDiv, SubCols, SubRows, Extract;
    var j := r * SubCols(s.meta, s.c.n);
    RowFits(s.meta, s.c.n, r);
    ShapeFits(s.meta, s.c.n);
    FlatIndex(t, r, SubRows(s.meta, s.c.n));
    var e := acc.Extracted(j, s.c);
    forall l: nat, sec: seq<int> | l < |s.c.q| && |sec| == s.c.n
      ensures Cong(e[l].Phase(sec), RowPhase(s.r0 + r, s.meta, s.mat, s.vec, s.k, s.c, l, sec), s.c.q[l])
    {
      ExtractedPhase(s, a0, a1, j, l, sec);
    }
  }

  /** Extracts the rows of one strip. */
  method ExtractRows(s: StripOf, a0: seq<seq<int>>, a1: seq<seq<int>>, ghost t: nat) returns (out: seq<LWECt>)
    requires s.Valid() && RowsHold(a0, s, 0, s.Tiles()) && RowsHold(a1, s, 1, s.Tiles())
    requires s.r0 == t * SubRows(s.meta, s.c.n) && s.r0 < s.meta.nrows
    ensures |out| == StripHeight(s.meta, s.c.n, s.r0)
    ensures forall r :: 0 <= r < |out| ==> fresh(out[r]) && out[r].Valid(s.c) && out[r].lazyCounter == 0
    ensures forall r :: 0 <= r < |out| ==> RowResult(out[r].exact, s.r0 + r, s.meta, s.mat, s.vec, s.k, s.c)
  {
    hide Usable, SubCols, SubRows, RowsHold, RowResult, Shape, RowsOk;
    out := [];
    var r := 0;
    var acc := Rlwe([a0, a1], false);
    while r < SubRows(s.meta, s.c.n)
      invariant |out| == r <= StripHeight(s.meta, s.c.n, s.r0)
      invariant forall j :: 0 <= j < r ==> fresh(out[j]) && out[j].Valid(s.c) && out[j].lazyCounter == 0
      invariant forall j :: 0 <= j < r ==> RowResult(out[j].exact, s.r0 + j, s.meta, s.mat, s.vec, s.k, s.c)
    {
      if s.r0 + r >= s.meta.nrows { break; }
      ExtractedRow(s, a0, a1, r, acc, t);
      var lwe := new LWECt();
      var ok := lwe.Extract(acc, r * SubCols(s.meta, s.c.n), s.c);
      out := out + [lwe];
      r := r + 1;
    }
  }

  function StripHeight(meta: Meta, n: nat, r0: nat): (e: nat)
    requires meta.Valid() && n > 0 && r0 <= meta.nrows
  {
    if r0 + SubRows(meta, n) < meta.nrows then SubRows(meta, n) else meta.nrows - r0
  }

  /** Row at which strip t starts. */
  function StripAt(meta: Meta, n: nat, t: nat): (r: nat)
    requires meta.Valid() && n > 0
  {
    ShapeFits(meta, n);
    MulLe(0, t, SubRows(meta, n));
    t * SubRows(meta, n)
  }

  lemma NextStrip(meta: Meta, n: nat, t: nat)
    requires meta.Valid() && n > 0
    ensures StripAt(meta, n, 0) == 0 && StripAt(meta, n, t + 1) == StripAt(meta, n, t) + SubRows(meta, n)
    ensures SubRows(meta, n) > 0 && forall u: nat :: u >= t ==> StripAt(meta, n, u) >= StripAt(meta, n, t)
  {
    ShapeFits(meta, n);
    var sr := SubRows(meta, n);
    NextRow(t, t + 1, sr);
    forall u: nat | u >= t
      ensures StripAt(meta, n, u) >= StripAt(meta, n, t)
    {
      MulLe(t, u, sr);
    }
  }

  /** The whole product: one LWE ciphertext for every row, or a refusal when some strip is all zero, lacks a
      piece, or the shapes disagree. */
  method DoMatVec(meta: Meta, mat: seq<int>, vec: seq<Rlwe>, h: Helper, c: Context, w: nat)
    returns (ok: bool, out: seq<LWECt>)
    requires c.Valid() && h.Valid() && h.q == c.q && WordRange(mat, w) && forall b :: 0 <= b < |vec| ==> Usable(vec[b], c)
    ensures ok == (meta.Valid() && |mat| == meta.nrows * meta.ncols && WordFits(h.k, w)
                   && forall t: nat :: StripAt(meta, c.n, t) < meta.nrows ==>
                        StripOf(meta, mat, StripAt(meta, c.n, t), vec, h.k, c).Possible())
    ensures ok ==> |out| == meta.nrows
    ensures ok ==> forall i :: 0 <= i < |out| ==> fresh(out[i]) && out[i].Valid(c) && out[i].lazyCounter == 0
    ensures ok ==> forall i :: 0 <= i < |out| ==> RowResult(out[i].exact, i, meta, mat, vec, h.k, c)
  {
    hide Usable, SubCols, SubRows, RowsHold, RowResult, Shape, RowsOk, Tables, WordRange, StripOf.Possible, StripAt, Pow;
    ok, out := false, [];
    HelperShape(h);
    if !meta.Valid() || |mat| != meta.nrows * meta.ncols || !WordFits(h.k, w) { return; }
    var rbgn := 0;
    ghost var t := 0;
    NextStrip(meta, c.n, 0);
    while rbgn < meta.nrows
      invariant rbgn == StripAt(meta, c.n, t)
      invariant |out| == if rbgn < meta.nrows then rbgn else meta.nrows
      invariant forall u: nat :: u < t ==> StripOf(meta, mat, StripAt(meta, c.n, u), vec, h.k, c).Possible()
      invariant forall i :: 0 <= i < |out| ==> fresh(out[i]) && out[i].Valid(c) && out[i].lazyCounter == 0
      invariant forall i :: 0 <= i < |out| ==> RowResult(out[i].exact, i, meta, mat, vec, h.k, c)
      decreases meta.nrows - rbgn
    {
      var s := StripOf(meta, mat, rbgn, vec, h.k, c);
      NextStrip(meta, c.n, t);
      var a0, a1;
      ok, a0, a1 := Strip(s, h, w);
      if !ok { return; }
      StripAtIs(meta, c.n, t);
      var rows := ExtractRows(s, a0, a1, t);
      out := out + rows;
      rbgn := rbgn + SubRows(meta, c.n);
      t := t + 1;
    }
    NextStrip(meta, c.n, t);
    ok := true;
  }

  lemma StripAtIs(meta: Meta, n: nat, t: nat)
    requires meta.Valid() && n > 0
    ensures StripAt(meta, n, t) == t * SubRows(meta, n)
  {
  }
}
