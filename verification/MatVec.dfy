/** Tiled matrix-vector products as negacyclic polynomial products: shapes, layout and correctness. */
module MatVec {
  import opened Arith
  import opened Rounding
  import opened Negacyclic

  datatype Meta = Meta(nrows: nat, ncols: nat)
  {
    predicate Valid()
    {
      nrows > 0 && ncols > 0
    }
  }

  // ------------------------------------------------------------------ shapes

  function CeilDiv(a: nat, b: nat): (r: nat)
    requires b > 0
    ensures r * b >= a && (r == 0 || (r - 1) * b < a)
  {
    CeilDivBounds(a, b, (a + b - 1) / b);
    (a + b - 1) / b
  }

  lemma CeilDivBounds(a: nat, b: nat, r: int)
    requires b > 0 && r == (a + b - 1) / b
    ensures r >= 0 && r * b >= a && (r == 0 || (r - 1) * b < a)
  {
    DivMod(a + b - 1, b);
    if r < 0 { MulLe(r, -1, b); }
    assert (r - 1) * b == r * b - b;
  }

  /** The smallest power of two not below x. */
  function BitCeil(x: nat): (r: nat)
    ensures x <= r && r >= 1 && (x <= 1 || r < 2 * x)
  {
    if x <= 1 then 1 else 2 * BitCeil((x + 1) / 2)
  }

  lemma {:induction false} BitCeilPower(x: nat) returns (e: nat)
    ensures BitCeil(x) == Pow(2, e)
  {
    if x <= 1 {
      e := 0;
    } else {
      e := BitCeilPower((x + 1) / 2);
      e := e + 1;
    }
  }

  function SubCols(meta: Meta, n: nat): nat
  {
    if n < meta.ncols then n else meta.ncols
  }

  function SubRows(meta: Meta, n: nat): nat
    requires meta.Valid() && n > 0
  {
    var nrows := BitCeil(meta.nrows);
    var log2 := BitCount(n / SubCols(meta, n)) - 1;
    BitCountPositive(n, SubCols(meta, n));
    if nrows < Pow(2, log2) then nrows else Pow(2, log2)
  }

  lemma BitCountPositive(n: nat, c: nat)
    requires 0 < c <= n
    ensures n / c >= 1 && BitCount(n / c) >= 1
  {
    DivMod(n, c);
    if n / c <= 0 { MulLe(n / c, 0, c); }
  }

  /** A tile is as wide as the matrix or the ring, whichever is less. It is a power of two high, the first that holds
      all rows if that fits the ring, and else the last that fits. */
  lemma ShapeExact(meta: Meta, n: nat) returns (e: nat)
    requires meta.Valid() && n > 0
    ensures var sr, sc := SubRows(meta, n), SubCols(meta, n);
            && sc <= meta.ncols && sc <= n && (sc == meta.ncols || sc == n)
            && sr == Pow(2, e) && sr < 2 * meta.nrows && sr * sc <= n && (meta.nrows <= sr || 2 * (sr * sc) > n)
  {
    hide SubRows;
    ShapeFits(meta, n);
    e := Height(meta, n);
  }

  lemma Height(meta: Meta, n: nat) returns (e: nat)
    requires meta.Valid() && n > 0
    ensures SubRows(meta, n) == Pow(2, e) && SubRows(meta, n) < 2 * meta.nrows
  {
    hide Pow, BitCount, BitCeil, SubCols;
    assert 0 < SubCols(meta, n) <= n by { ShapeFits(meta, n); }
    BitCountPositive(n, SubCols(meta, n));
    var log2 := BitCount(n / SubCols(meta, n)) - 1;
    e := BitCeilPower(meta.nrows);
    BitCeilBelow(meta.nrows);
    if BitCeil(meta.nrows) >= Pow(2, log2) { e := log2; }
  }

  lemma BitCeilBelow(x: nat)
    requires x > 0
    ensures BitCeil(x) < 2 * x
  {
  }

  /** A tile fits the ring, and either holds all rows or could not be twice as high. */
  lemma ShapeFits(meta: Meta, n: nat)
    requires meta.Valid() && n > 0
    ensures var sr, sc := SubRows(meta, n), SubCols(meta, n);
            1 <= sr && 1 <= sc <= n && 0 < sr * sc <= n && (meta.nrows <= sr || 2 * (sr * sc) > n)
  {
    hide Pow, BitCeil, BitCount;
    var sr, sc := SubRows(meta, n), SubCols(meta, n);
    BitCountPositive(n, sc);
    BitCountLow(n / sc);
    var log2 := BitCount(n / sc) - 1;
    PowHalf(log2 + 1);
    BitCeilPositive(meta.nrows);
    TileArea(sr, sc, n, n / sc);
  }

  lemma BitCeilPositive(x: nat)
    ensures x <= BitCeil(x) && BitCeil(x) >= 1
  {
  }

  lemma TileArea(sr: int, sc: int, n: int, d: int)
    requires sc > 0 && d == n / sc && 1 <= sr <= d
    ensures 0 < sr * sc <= n && (d < 2 * sr ==> 2 * (sr * sc) > n)
  {
    DivMod(n, sc);
    MulLe(sr, d, sc);
    MulLe(1, sr, sc);
    if d < 2 * sr { MulLe(d + 1, 2 * sr, sc); }
    Doubled(d, sr, sc);
  }

  lemma Doubled(d: int, sr: int, sc: int)
    ensures (d + 1) * sc == d * sc + sc && (2 * sr) * sc == 2 * (sr * sc)
  {
  }

  // ------------------------------------------------------------------ layout

  function Entry(meta: Meta, mat: seq<int>, r: nat, c: nat): int
    requires |mat| == meta.nrows * meta.ncols && r < meta.nrows && c < meta.ncols
  {
    MixedRadix(r, c, meta.ncols, meta.nrows);
    mat[r * meta.ncols + c]
  }

  /** Entry i of the tile at (r0, c0): rows concatenated, zero outside the matrix and below the tile. */
  function BlockEntry(meta: Meta, mat: seq<int>, r0: nat, c0: nat, n: nat, i: nat): int
    requires meta.Valid() && n > 0 && |mat| == meta.nrows * meta.ncols
  {
    var sc := SubCols(meta, n);
    DivMod(i, sc);
    NonNegative(i, sc);
    var r, c := i / sc, i % sc;
    if r < SubRows(meta, n) && r0 + r < meta.nrows && c0 + c < meta.ncols then Entry(meta, mat, r0 + r, c0 + c) else 0
  }

  lemma NonNegative(i: nat, d: int)
    requires d > 0
    ensures i / d >= 0
  {
    DivMod(i, d);
    if i / d < 0 { MulLe(i / d, -1, d); }
  }

  function Block(meta: Meta, mat: seq<int>, r0: nat, c0: nat, n: nat): (p: seq<int>)
    requires meta.Valid() && n > 0 && |mat| == meta.nrows * meta.ncols
    ensures |p| == n && forall i :: 0 <= i < n ==> p[i] == BlockEntry(meta, mat, r0, c0, n, i)
  {
    seq(n, i requires 0 <= i < n => BlockEntry(meta, mat, r0, c0, n, i))
  }

  lemma FlatIndex(r: nat, c: nat, sc: nat)
    requires c < sc
    ensures r * sc + c >= 0 && (r * sc + c) / sc == r && (r * sc + c) % sc == c
  {
    MulLe(0, r, sc);
    DivUnique(r * sc + c, sc, r);
    DivMod(r * sc + c, sc);
  }

  lemma BlockAt(meta: Meta, mat: seq<int>, r0: nat, c0: nat, n: nat, r: nat, c: nat)
    requires meta.Valid() && n > 0 && |mat| == meta.nrows * meta.ncols
    requires r < SubRows(meta, n) && c < SubCols(meta, n)
    ensures r * SubCols(meta, n) + c >= 0
    ensures BlockEntry(meta, mat, r0, c0, n, r * SubCols(meta, n) + c)
         == if r0 + r < meta.nrows && c0 + c < meta.ncols then Entry(meta, mat, r0 + r, c0 + c) else 0
  {
    FlatIndex(r, c, SubCols(meta, n));
  }

  /** v[0] - sum of v[i] X^(n-i). */
  function Reversed(v: seq<int>, n: nat): (p: seq<int>)
    requires 0 < |v| <= n
    ensures |p| == n
  {
    seq(n, i requires 0 <= i < n => if i == 0 then v[0] else if n - i < |v| then -v[n - i] else 0)
  }

  // ------------------------------------------------------------------ correctness

  function DotAt(a: seq<int>, k: nat, v: seq<int>, j: nat): int
    requires j <= |v| && k + j <= |a|
  {
    if j == 0 then 0 else DotAt(a, k, v, j - 1) + a[k + j - 1] * v[j - 1]
  }

  function Clamp(x: int, top: nat): (r: nat)
    ensures r <= top
  {
    if x < 0 then 0 else if x > top then top else x
  }

  lemma ReversedAt(v: seq<int>, n: nat, k: nat, j: nat)
    requires 0 < |v| && k + |v| <= n && j < n
    ensures At(Reversed(v, n), k - j) == if k <= j < k + |v| then v[j - k] else 0
  {
  }

  lemma {:induction false} TileTerms(a: seq<int>, v: seq<int>, k: nat, j: nat)
    requires 0 < |v| && k + |v| <= |a| && j <= |a|
    ensures MulTerms(a, Reversed(v, |a|), k, j) == DotAt(a, k, v, Clamp(j - k, |v|))
  {
    hide At, Reversed;
    if j > 0 {
      TileTerms(a, v, k, j - 1);
      ReversedAt(v, |a|, k, j - 1);
      TermIs(a[j - 1], At(Reversed(v, |a|), k - (j - 1)));
    }
  }

  lemma TermIs(x: int, y: int)
    ensures y == 0 ==> x * y == 0
  {
  }

  /** Coefficient k of a * reversed(v) is the plain product of a[k..k+|v|] and v: nothing wraps around. */
  lemma TileProduct(a: seq<int>, v: seq<int>, k: nat)
    requires 0 < |v| && k + |v| <= |a|
    ensures Mul(a, Reversed(v, |a|))[k] == DotAt(a, k, v, |v|)
  {
    TileTerms(a, v, k, |a|);
  }

  /** The plain product of row r with v, over the first j columns. */
  function RowDot(meta: Meta, mat: seq<int>, r: nat, v: seq<int>, j: nat): int
    requires |mat| == meta.nrows * meta.ncols && r < meta.nrows && j <= meta.ncols == |v|
  {
    if j == 0 then 0 else RowDot(meta, mat, r, v, j - 1) + Entry(meta, mat, r, j - 1) * v[j - 1]
  }

  /** The matrix is stored row by row: row r times v is the product of the slice at r * ncols with v. */
  lemma {:induction false} RowDotIsSlice(meta: Meta, mat: seq<int>, r: nat, v: seq<int>, j: nat)
    requires |mat| == meta.nrows * meta.ncols && r < meta.nrows && j <= meta.ncols == |v|
    ensures 0 <= r * meta.ncols && r * meta.ncols + meta.ncols <= |mat|
    ensures RowDot(meta, mat, r, v, j) == DotAt(mat, r * meta.ncols, v, j)
  {
    MulLe(0, r, meta.ncols);
    MulLe(r + 1, meta.nrows, meta.ncols);
    if j > 0 { RowDotIsSlice(meta, mat, r, v, j - 1); }
  }

  function BlockStart(meta: Meta, n: nat, b: nat): (c: nat)
    requires meta.Valid() && n > 0
  {
    var c := b * SubCols(meta, n);
    if c < meta.ncols then c else meta.ncols
  }

  /** The b-th piece of the vector. */
  function Piece(meta: Meta, n: nat, v: seq<int>, b: nat): (p: seq<int>)
    requires meta.Valid() && n > 0 && |v| == meta.ncols && b * SubCols(meta, n) < meta.ncols
    ensures 0 < |p| <= SubCols(meta, n) && |p| == BlockStart(meta, n, b + 1) - BlockStart(meta, n, b)
  {
    PieceBounds(meta, n, b);
    v[BlockStart(meta, n, b)..BlockStart(meta, n, b + 1)]
  }

  lemma PieceBounds(meta: Meta, n: nat, b: nat)
    requires meta.Valid() && n > 0 && b * SubCols(meta, n) < meta.ncols
    ensures BlockStart(meta, n, b) == b * SubCols(meta, n)
    ensures BlockStart(meta, n, b) < BlockStart(meta, n, b + 1) <= meta.ncols
    ensures BlockStart(meta, n, b + 1) <= BlockStart(meta, n, b) + SubCols(meta, n)
  {
    var sc := SubCols(meta, n);
    assert (b + 1) * sc == b * sc + sc;
  }

  lemma {:induction false} DotIsRow(meta: Meta, mat: seq<int>, r0: nat, r: nat, b: nat, n: nat, v: seq<int>, j: nat)
    requires meta.Valid() && n > 0 && |mat| == meta.nrows * meta.ncols && |v| == meta.ncols
    requires r < SubRows(meta, n) && r0 + r < meta.nrows && b * SubCols(meta, n) < meta.ncols
    requires j <= |Piece(meta, n, v, b)| && r * SubCols(meta, n) >= 0 && r * SubCols(meta, n) + SubCols(meta, n) <= n
    ensures BlockStart(meta, n, b) + j <= meta.ncols
    ensures DotAt(Block(meta, mat, r0, b * SubCols(meta, n), n), r * SubCols(meta, n), Piece(meta, n, v, b), j)
         == RowDot(meta, mat, r0 + r, v, BlockStart(meta, n, b) + j) - RowDot(meta, mat, r0 + r, v, BlockStart(meta, n, b))
  {
    hide SubRows, BlockEntry, Entry;
    PieceBounds(meta, n, b);
    if j > 0 {
      DotIsRow(meta, mat, r0, r, b, n, v, j - 1);
      BlockAt(meta, mat, r0, b * SubCols(meta, n), n, r, j - 1);
    }
  }

  lemma RowFits(meta: Meta, n: nat, r: nat)
    requires meta.Valid() && n > 0 && r < SubRows(meta, n)
    ensures r * SubCols(meta, n) >= 0 && r * SubCols(meta, n) + SubCols(meta, n) <= n
  {
    hide SubRows, SubCols;
    ShapeFits(meta, n);
    MulLe(0, r, SubCols(meta, n));
    MulLe(r + 1, SubRows(meta, n), SubCols(meta, n));
    assert (r + 1) * SubCols(meta, n) == r * SubCols(meta, n) + SubCols(meta, n);
  }

  /** One tile times one reversed piece: coefficient r * subcols is that piece of the row product. */
  lemma TileRow(meta: Meta, mat: seq<int>, r0: nat, r: nat, b: nat, n: nat, v: seq<int>)
    requires meta.Valid() && n > 0 && |mat| == meta.nrows * meta.ncols && |v| == meta.ncols
    requires r < SubRows(meta, n) && r0 + r < meta.nrows && b * SubCols(meta, n) < meta.ncols
    ensures 0 <= r * SubCols(meta, n) < n && |Piece(meta, n, v, b)| <= n
    ensures Mul(Block(meta, mat, r0, b * SubCols(meta, n), n), Reversed(Piece(meta, n, v, b), n))[r * SubCols(meta, n)]
         == RowDot(meta, mat, r0 + r, v, BlockStart(meta, n, b + 1)) - RowDot(meta, mat, r0 + r, v, BlockStart(meta, n, b))
  {
    hide Mul, Block, Reversed, SubRows, RowDot, DotAt;
    RowFits(meta, n, r);
    var p := Piece(meta, n, v, b);
    TileProduct(Block(meta, mat, r0, b * SubCols(meta, n), n), p, r * SubCols(meta, n));
    DotIsRow(meta, mat, r0, r, b, n, v, |p|);
  }

  // ------------------------------------------------------------------ a whole strip of tiles

  function Sub(a: seq<int>, b: seq<int>): (c: seq<int>)
    requires |a| == |b|
    ensures |c| == |a| && forall k :: 0 <= k < |a| ==> c[k] == a[k] - b[k]
  {
    seq(|a|, k requires 0 <= k < |a| => a[k] - b[k])
  }

  /** The polynomials ph[b] multiplied by the tiles of the strip at row r0 and added up, over blocks below b. */
  function StripSum(meta: Meta, mat: seq<int>, r0: nat, n: nat, ph: seq<seq<int>>, b: nat): (p: seq<int>)
    requires meta.Valid() && n > 0 && |mat| == meta.nrows * meta.ncols && b <= |ph|
    requires forall i :: 0 <= i < |ph| ==> |ph[i]| == n
    ensures |p| == n
  {
    if b == 0 then Zero(n) else
      Add(StripSum(meta, mat, r0, n, ph, b - 1), Mul(Block(meta, mat, r0, (b - 1) * SubCols(meta, n), n), ph[b - 1]))
  }

  /** What the pieces of v leave over: ph[b] - reversed(piece b). */
  function Noise(meta: Meta, n: nat, v: seq<int>, ph: seq<seq<int>>): (e: seq<seq<int>>)
    requires meta.Valid() && n > 0 && |v| == meta.ncols && |ph| == CeilDiv(meta.ncols, SubCols(meta, n))
    requires forall i :: 0 <= i < |ph| ==> |ph[i]| == n
    ensures |e| == |ph| && forall i :: 0 <= i < |e| ==> |e[i]| == n
  {
    AllBlocksStart(meta, n);
    seq(|ph|, b requires 0 <= b < |ph| => Sub(ph[b], Reversed(Piece(meta, n, v, b), n)))
  }

  lemma AllBlocksStart(meta: Meta, n: nat)
    requires meta.Valid() && n > 0
    ensures forall b: nat :: b < CeilDiv(meta.ncols, SubCols(meta, n)) ==> b * SubCols(meta, n) < meta.ncols
    ensures BlockStart(meta, n, CeilDiv(meta.ncols, SubCols(meta, n))) == meta.ncols
  {
    var k, sc := CeilDiv(meta.ncols, SubCols(meta, n)), SubCols(meta, n);
    forall b: nat | b < k
      ensures b * sc < meta.ncols
    {
      MulLe(b, k - 1, sc);
    }
  }

  lemma SplitProduct(a: seq<int>, p: seq<int>, q: seq<int>, k: nat)
    requires |a| == |p| == |q| && k < |a|
    ensures Mul(a, p)[k] == Mul(a, q)[k] + Mul(a, Sub(p, q))[k]
  {
    hide Mul;
    assert Add(q, Sub(p, q)) == p;
    MulAdd(a, q, Sub(p, q));
  }

  lemma StripNext(meta: Meta, mat: seq<int>, r0: nat, n: nat, ph: seq<seq<int>>, b: nat, k: nat)
    requires meta.Valid() && n > 0 && |mat| == meta.nrows * meta.ncols && b <= |ph| && k < n
    requires forall i :: 0 <= i < |ph| ==> |ph[i]| == n
    ensures b == 0 ==> StripSum(meta, mat, r0, n, ph, b)[k] == 0
    ensures b > 0 ==>
              StripSum(meta, mat, r0, n, ph, b)[k] == StripSum(meta, mat, r0, n, ph, b - 1)[k]
                + Mul(Block(meta, mat, r0, (b - 1) * SubCols(meta, n), n), ph[b - 1])[k]
  {
    hide Mul, Block, SubCols;
  }

  lemma {:induction false} StripRow(meta: Meta, mat: seq<int>, r0: nat, r: nat, n: nat, v: seq<int>, ph: seq<seq<int>>, b: nat)
    requires meta.Valid() && n > 0 && |mat| == meta.nrows * meta.ncols && |v| == meta.ncols
    requires r < SubRows(meta, n) && r0 + r < meta.nrows
    requires b <= |ph| == CeilDiv(meta.ncols, SubCols(meta, n)) && forall i :: 0 <= i < |ph| ==> |ph[i]| == n
    ensures 0 <= r * SubCols(meta, n) < n
    ensures StripSum(meta, mat, r0, n, ph, b)[r * SubCols(meta, n)]
         == RowDot(meta, mat, r0 + r, v, BlockStart(meta, n, b))
            + StripSum(meta, mat, r0, n, Noise(meta, n, v, ph), b)[r * SubCols(meta, n)]
  {
    hide Mul, Block, Reversed, SubRows, SubCols, CeilDiv, Sub, Piece, StripSum;
    ShapeFits(meta, n);
    RowFits(meta, n, r);
    AllBlocksStart(meta, n);
    StripNext(meta, mat, r0, n, ph, b, r * SubCols(meta, n));
    StripNext(meta, mat, r0, n, Noise(meta, n, v, ph), b, r * SubCols(meta, n));
    if b > 0 {
      StripRow(meta, mat, r0, r, n, v, ph, b - 1);
      TileRow(meta, mat, r0, r, b - 1, n, v);
      SplitProduct(Block(meta, mat, r0, (b - 1) * SubCols(meta, n), n), ph[b - 1],
                   Reversed(Piece(meta, n, v, b - 1), n), r * SubCols(meta, n));
    }
  }

  /** The tiled product is the plain product: coefficient r * subcols of the accumulated strip is row
      r0 + r of the matrix times v, plus the tiles' action on the noise alone. */
  lemma TiledIsPlain(meta: Meta, mat: seq<int>, r0: nat, r: nat, n: nat, v: seq<int>, ph: seq<seq<int>>)
    requires meta.Valid() && n > 0 && |mat| == meta.nrows * meta.ncols && |v| == meta.ncols
    requires r < SubRows(meta, n) && r0 + r < meta.nrows
    requires |ph| == CeilDiv(meta.ncols, SubCols(meta, n)) && forall i :: 0 <= i < |ph| ==> |ph[i]| == n
    ensures 0 <= r * SubCols(meta, n) < n
    ensures StripSum(meta, mat, r0, n, ph, |ph|)[r * SubCols(meta, n)]
         == RowDot(meta, mat, r0 + r, v, meta.ncols)
            + StripSum(meta, mat, r0, n, Noise(meta, n, v, ph), |ph|)[r * SubCols(meta, n)]
  {
    StripRow(meta, mat, r0, r, n, v, ph, |ph|);
    AllBlocksStart(meta, n);
  }
}
