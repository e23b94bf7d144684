/** Feature-wise bucket sums: chunked parallel reduction, prefix sums and subgroup filters. */
module BucketSum {
  import opened Arith
  import opened Rounding

  /** What the sums need of ciphertext or plaintext addition. */
  datatype Monoid<!T(!new)> = Monoid(zero: T, add: (T, T) -> T)
  {
    ghost predicate Valid()
    {
      && (forall a: T :: add(zero, a) == a)
      && (forall a: T, b: T :: add(a, b) == add(b, a))
      && (forall a: T, b: T, c: T :: add(add(a, b), c) == add(a, add(b, c)))
    }
  }

  lemma Exchange<T(!new)>(m: Monoid<T>, a: T, b: T, c: T, d: T)
    requires m.Valid()
    ensures m.add(m.add(a, b), m.add(c, d)) == m.add(m.add(a, c), m.add(b, d))
  {
    var add := m.add;
    assert add(add(a, b), add(c, d)) == add(a, add(b, add(c, d)));
    assert add(b, add(c, d)) == add(add(b, c), d);
    assert add(add(b, c), d) == add(add(c, b), d);
    assert add(add(c, b), d) == add(c, add(b, d));
    assert add(a, add(c, add(b, d))) == add(add(a, c), add(b, d));
  }

  lemma AddZero<T(!new)>(m: Monoid<T>, a: T)
    requires m.Valid()
    ensures m.add(a, m.zero) == a && m.add(m.zero, a) == a
  {
    assert m.add(a, m.zero) == m.add(m.zero, a);
  }

  // ------------------------------------------------------------------ specification

  /** The sum of the rows of [beg, end) that keep(i) selects. */
  function SumWhere<T(!new)>(m: Monoid<T>, x: seq<seq<T>>, col: nat, keep: nat -> bool, beg: nat, end: nat): T
    requires beg <= end <= |x| && forall i :: 0 <= i < |x| ==> col < |x[i]|
    decreases end - beg
  {
    if beg == end then m.zero
    else
      var s := SumWhere(m, x, col, keep, beg, end - 1);
      if keep(end - 1) then m.add(s, x[end - 1][col]) else s
  }

  ghost predicate Shaped<T(!new)>(x: seq<seq<T>>, cols: nat)
  {
    forall i :: 0 <= i < |x| ==> |x[i]| == cols
  }

  /** Row i falls into bucket b of feature f. */
  function InBucket(order: seq<seq<int>>, f: nat, b: int): nat -> bool
  {
    (i: nat) => i < |order| && f < |order[i]| && order[i][f] == b
  }

  /** Row i falls into bucket b of feature f or an earlier one. */
  function UpToBucket(order: seq<seq<int>>, f: nat, b: int): nat -> bool
  {
    (i: nat) => i < |order| && f < |order[i]| && order[i][f] <= b
  }

  lemma {:induction false} SumSplits<T(!new)>(m: Monoid<T>, x: seq<seq<T>>, col: nat, keep: nat -> bool, beg: nat, mid: nat, end: nat)
    requires m.Valid() && beg <= mid <= end <= |x| && forall i :: 0 <= i < |x| ==> col < |x[i]|
    ensures SumWhere(m, x, col, keep, beg, end)
         == m.add(SumWhere(m, x, col, keep, beg, mid), SumWhere(m, x, col, keep, mid, end))
    decreases end - mid
  {
    if mid == end {
      AddZero(m, SumWhere(m, x, col, keep, beg, mid));
    } else {
      SumSplits(m, x, col, keep, beg, mid, end - 1);
      var a, b := SumWhere(m, x, col, keep, beg, mid), SumWhere(m, x, col, keep, mid, end - 1);
      assert m.add(m.add(a, b), x[end - 1][col]) == m.add(a, m.add(b, x[end - 1][col]));
    }
  }

  /** Disjoint selections add up. */
  lemma {:induction false} SumUnion<T(!new)>(m: Monoid<T>, x: seq<seq<T>>, col: nat, p: nat -> bool, q: nat -> bool, r: nat -> bool,
                                       beg: nat, end: nat)
    requires m.Valid() && beg <= end <= |x| && forall i :: 0 <= i < |x| ==> col < |x[i]|
    requires forall i: nat :: r(i) <==> p(i) || q(i)
    requires forall i: nat :: !(p(i) && q(i))
    ensures m.add(SumWhere(m, x, col, p, beg, end), SumWhere(m, x, col, q, beg, end)) == SumWhere(m, x, col, r, beg, end)
    decreases end - beg
  {
    AddZero(m, m.zero);
    if beg < end {
      SumUnion(m, x, col, p, q, r, beg, end - 1);
      var a, b, v := SumWhere(m, x, col, p, beg, end - 1), SumWhere(m, x, col, q, beg, end - 1), x[end - 1][col];
      AddZero(m, v);
      Exchange(m, a, b, v, m.zero);
      Exchange(m, a, b, m.zero, v);
      AddZero(m, a);
      AddZero(m, b);
    }
  }

  /** Nothing selected. */
  lemma {:induction false} SumNone<T(!new)>(m: Monoid<T>, x: seq<seq<T>>, col: nat, keep: nat -> bool, beg: nat, end: nat)
    requires beg <= end <= |x| && (forall i :: 0 <= i < |x| ==> col < |x[i]|) && forall i: nat :: !keep(i)
    ensures SumWhere(m, x, col, keep, beg, end) == m.zero
    decreases end - beg
  {
    if beg < end { SumNone(m, x, col, keep, beg, end - 1); }
  }

  // ------------------------------------------------------------------ parallel reduction

  /** A way for parallel_reduce to split a range and to order each combination. */
  datatype Plan = Whole | Split(mid: nat, left: Plan, right: Plan, swap: bool)

  predicate Orders(order: seq<seq<int>>, features: nat, buckets: nat)
  {
    forall i :: 0 <= i < |order| ==> |order[i]| == features && forall f :: 0 <= f < features ==> 0 <= order[i][f] < buckets
  }

  /** The body of one chunk. */
  method ChunkSums<T(!new)>(m: Monoid<T>, x: seq<seq<T>>, order: seq<seq<int>>, col: nat, f: nat, features: nat, buckets: nat,
                      beg: nat, end: nat) returns (sums: seq<T>)
    requires m.Valid() && beg <= end <= |x| == |order| && Orders(order, features, buckets) && f < features
    requires forall i :: 0 <= i < |x| ==> col < |x[i]|
    ensures |sums| == buckets
    ensures forall b: nat :: b < buckets ==> sums[b] == SumWhere(m, x, col, InBucket(order, f, b), beg, end)
  {
    sums := seq(buckets, _ => m.zero);
    for i := beg to end
      invariant |sums| == buckets
      invariant forall b: nat :: b < buckets ==> sums[b] == SumWhere(m, x, col, InBucket(order, f, b), beg, i)
    {
      var bucket := order[i][f];
      sums := sums[bucket := m.add(sums[bucket], x[i][col])];
    }
  }

  /** The combiner. */
  method CombineSums<T(!new)>(m: Monoid<T>, a: seq<T>, b: seq<T>) returns (result: seq<T>)
    requires |a| == |b|
    ensures |result| == |a| && forall j :: 0 <= j < |a| ==> result[j] == m.add(a[j], b[j])
  {
    result := [];
    for j := 0 to |a|
      invariant |result| == j && forall k :: 0 <= k < j ==> result[k] == m.add(a[k], b[k])
    {
      result := result + [m.add(a[j], b[j])];
    }
  }

  /** However the range is split and combined, each bucket holds the sum of its rows. */
  method Reduce<T(!new)>(m: Monoid<T>, x: seq<seq<T>>, order: seq<seq<int>>, col: nat, f: nat, features: nat, buckets: nat,
                   beg: nat, end: nat, plan: Plan) returns (sums: seq<T>)
    requires m.Valid() && beg <= end <= |x| == |order| && Orders(order, features, buckets) && f < features
    requires forall i :: 0 <= i < |x| ==> col < |x[i]|
    ensures |sums| == buckets
    ensures forall b: nat :: b < buckets ==> sums[b] == SumWhere(m, x, col, InBucket(order, f, b), beg, end)
    decreases plan
  {
    if plan.Whole? || !(beg <= plan.mid <= end) {
      sums := ChunkSums(m, x, order, col, f, features, buckets, beg, end);
      return;
    }
    var a := Reduce(m, x, order, col, f, features, buckets, beg, plan.mid, plan.left);
    var b := Reduce(m, x, order, col, f, features, buckets, plan.mid, end, plan.right);
    if plan.swap { sums := CombineSums(m, b, a); } else { sums := CombineSums(m, a, b); }
    forall j: nat | j < buckets
      ensures sums[j] == SumWhere(m, x, col, InBucket(order, f, j), beg, end)
    {
      SumSplits(m, x, col, InBucket(order, f, j), beg, plan.mid, end);
      assert m.add(a[j], b[j]) == m.add(b[j], a[j]);
    }
  }

  // ------------------------------------------------------------------ one feature

  /** Entry of bucket b: its own rows, or with cumsum all rows up to it. */
  function Entry<T(!new)>(m: Monoid<T>, x: seq<seq<T>>, order: seq<seq<int>>, col: nat, f: nat, b: int, cumsum: bool): T
    requires forall i :: 0 <= i < |x| ==> col < |x[i]|
  {
    SumWhere(m, x, col, if cumsum then UpToBucket(order, f, b) else InBucket(order, f, b), 0, |x|)
  }

  /** One row: its own value in its bucket, or with cumsum in its bucket and all later ones, and zero elsewhere. */
  lemma EntryOfRow<T(!new)>(m: Monoid<T>, row: seq<T>, ord: seq<int>, col: nat, f: nat, b: int, cumsum: bool)
    requires m.Valid() && col < |row| && f < |ord|
    ensures Entry(m, [row], [ord], col, f, b, cumsum)
         == if (if cumsum then ord[f] <= b else ord[f] == b) then row[col] else m.zero
  {
    var keep := if cumsum then UpToBucket([ord], f, b) else InBucket([ord], f, b);
    assert SumWhere(m, [row], col, keep, 0, 0) == m.zero;
    AddZero(m, row[col]);
  }

  /** One row more adds its own value to the entries it counts for, and nothing to the others. With no rows every entry is
      zero, so this determines all entries. */
  lemma EntryOfNextRow<T(!new)>(m: Monoid<T>, x: seq<seq<T>>, o: seq<seq<int>>, row: seq<T>, ord: seq<int>, col: nat,
                                f: nat, b: int, cumsum: bool)
    requires |x| == |o| && (forall i :: 0 <= i < |x| ==> col < |x[i]|) && col < |row| && f < |ord|
    ensures Entry(m, [], [], col, f, b, cumsum) == m.zero
    ensures Entry(m, x + [row], o + [ord], col, f, b, cumsum)
         == if (if cumsum then ord[f] <= b else ord[f] == b) then m.add(Entry(m, x, o, col, f, b, cumsum), row[col])
            else Entry(m, x, o, col, f, b, cumsum)
  {
    if cumsum {
      SumPrefix(m, x + [row], x, col, UpToBucket(o + [ord], f, b), UpToBucket(o, f, b), |x|);
    } else {
      SumPrefix(m, x + [row], x, col, InBucket(o + [ord], f, b), InBucket(o, f, b), |x|);
    }
  }

  /** Sums over equal rows are equal. */
  lemma {:induction false} SumPrefix<T(!new)>(m: Monoid<T>, x: seq<seq<T>>, y: seq<seq<T>>, col: nat, keep: nat -> bool,
                                              kept: nat -> bool, n: nat)
    requires n <= |x| && n <= |y|
    requires (forall i :: 0 <= i < |x| ==> col < |x[i]|) && forall i :: 0 <= i < |y| ==> col < |y[i]|
    requires forall i: nat :: i < n ==> y[i] == x[i] && kept(i) == keep(i)
    ensures SumWhere(m, x, col, keep, 0, n) == SumWhere(m, y, col, kept, 0, n)
  {
    if n > 0 { SumPrefix(m, x, y, col, keep, kept, n - 1); }
  }

  lemma NextPrefix<T(!new)>(m: Monoid<T>, x: seq<seq<T>>, order: seq<seq<int>>, col: nat, f: nat, b: int)
    requires m.Valid() && forall i :: 0 <= i < |x| ==> col < |x[i]|
    ensures m.add(Entry(m, x, order, col, f, b - 1, true), Entry(m, x, order, col, f, b, false))
         == Entry(m, x, order, col, f, b, true)
  {
    SumUnion(m, x, col, UpToBucket(order, f, b - 1), InBucket(order, f, b), UpToBucket(order, f, b), 0, |x|);
  }

  lemma NoPrefix<T(!new)>(m: Monoid<T>, x: seq<seq<T>>, order: seq<seq<int>>, col: nat, f: nat, features: nat, buckets: nat)
    requires Orders(order, features, buckets) && forall i :: 0 <= i < |x| ==> col < |x[i]|
    ensures Entry(m, x, order, col, f, -1, true) == m.zero
  {
    forall i: nat
      ensures !UpToBucket(order, f, -1)(i)
    {
      if i < |order| { assert |order[i]| == features; }
    }
    SumNone(m, x, col, UpToBucket(order, f, -1), 0, |x|);
  }

  /** Row of the result for bucket b of feature f. */
  function RowAt(buckets: nat, f: nat, b: nat): int
  {
    f * buckets + b
  }

  lemma RowFits(buckets: nat, features: nat, f: nat, b: nat)
    requires f < features && b < buckets
    ensures 0 <= RowAt(buckets, f, b) < features * buckets
  {
    MixedRadix(f, b, buckets, features);
  }

  /** The result's row index, divided by bucket_num, gives the feature, and the remainder the bucket. */
  lemma RowIndex(buckets: nat, f: nat, b: nat)
    requires b < buckets
    ensures RowAt(buckets, f, b) / buckets == f && RowAt(buckets, f, b) % buckets == b
  {
    DivUnique(RowAt(buckets, f, b), buckets, f);
    DivMod(RowAt(buckets, f, b), buckets);
  }

  /** The features' rows are disjoint. */
  lemma RowsDisjoint(buckets: nat, f: nat, b: nat, g: nat, c: nat)
    requires b < buckets && c < buckets && RowAt(buckets, f, b) == RowAt(buckets, g, c)
    ensures f == g && b == c
  {
    DivUnique(RowAt(buckets, f, b), buckets, f);
    DivUnique(RowAt(buckets, g, c), buckets, g);
  }

  /** The features' rows cover the result. */
  lemma RowsCover(buckets: nat, features: nat, r: nat) returns (f: nat, b: nat)
    requires r < features * buckets
    ensures f < features && b < buckets && RowAt(buckets, f, b) == r
  {
    assert buckets == 0 ==> features * buckets == 0;
    DivMod(r, buckets);
    var d := r / buckets;
    if d < 0 { MulLe(d, -1, buckets); }
    if d >= features { MulLe(features, d, buckets); }
    f, b := d, r % buckets;
  }

  /** Row r belongs to another feature than f. */
  ghost predicate Elsewhere(buckets: nat, f: nat, r: int)
  {
    forall b: nat :: b < buckets ==> r != RowAt(buckets, f, b)
  }

  /** Writes the bucket_num rows of one feature, and nothing else. */
  method WriteFeature<T(!new)>(m: Monoid<T>, x: seq<seq<T>>, order: seq<seq<int>>, col: nat, f: nat, features: nat,
                               buckets: nat, res: array2<T>, cumsum: bool, plan: Plan)
    requires m.Valid() && |x| == |order| && Orders(order, features, buckets) && f < features && col < res.Length1
    requires features * buckets == res.Length0 && forall i :: 0 <= i < |x| ==> col < |x[i]|
    modifies res
    ensures forall r, c :: 0 <= r < res.Length0 && 0 <= c < res.Length1 && (c != col || Elsewhere(buckets, f, r)) ==>
              res[r, c] == old(res[r, c])
    ensures forall b: nat :: b < buckets ==> 0 <= RowAt(buckets, f, b) < res.Length0
    ensures forall b: nat :: b < buckets ==> res[RowAt(buckets, f, b), col] == Entry(m, x, order, col, f, b, cumsum)
  {
    hide Entry, Monoid.Valid, Orders, RowAt;
    var sums := FeatureSums(m, x, order, col, f, features, buckets, cumsum, plan);
    forall b: nat | b < buckets
      ensures 0 <= RowAt(buckets, f, b) < res.Length0
    {
      RowFits(buckets, features, f, b);
    }
    for i := 0 to buckets
      invariant forall r, c :: 0 <= r < res.Length0 && 0 <= c < res.Length1 && (c != col || Elsewhere(buckets, f, r)) ==>
                  res[r, c] == old(res[r, c])
      invariant forall b: nat :: b < i ==> res[RowAt(buckets, f, b), col] == Entry(m, x, order, col, f, b, cumsum)
    {
      forall b: nat | b < i
        ensures RowAt(buckets, f, b) != RowAt(buckets, f, i)
      {
        if RowAt(buckets, f, b) == RowAt(buckets, f, i) { RowsDisjoint(buckets, f, b, f, i); }
      }
      res[RowAt(buckets, f, i), col] := sums[i];
    }
  }

  /** The bucket sums of a feature, accumulated from the left with cumsum. */
  method FeatureSums<T(!new)>(m: Monoid<T>, x: seq<seq<T>>, order: seq<seq<int>>, col: nat, f: nat, features: nat,
                              buckets: nat, cumsum: bool, plan: Plan) returns (out: seq<T>)
    requires m.Valid() && |x| == |order| && Orders(order, features, buckets) && f < features
    requires forall i :: 0 <= i < |x| ==> col < |x[i]|
    ensures |out| == buckets
    ensures forall b: nat :: b < buckets ==> out[b] == Entry(m, x, order, col, f, b, cumsum)
  {
    hide Monoid.Valid, Orders;
    var sums := Reduce(m, x, order, col, f, features, buckets, 0, |x|, plan);
    if !cumsum { return sums; }
    var cache := m.zero;
    out := [];
    NoPrefix(m, x, order, col, f, features, buckets);
    for i := 0 to buckets
      invariant |out| == i && cache == Entry(m, x, order, col, f, i - 1, true)
      invariant forall b: nat :: b < i ==> out[b] == Entry(m, x, order, col, f, b, true)
    {
      NextPrefix(m, x, order, col, f, i);
      cache := m.add(cache, sums[i]);
      out := out + [cache];
    }
  }

  // ------------------------------------------------------------------ all features

  /** parallel_for visits every feature, in some order. */
  ghost predicate Covers(schedule: seq<nat>, features: nat)
  {
    (forall k :: 0 <= k < |schedule| ==> schedule[k] < features) && forall f: nat :: f < features ==> f in schedule
  }

  /** Column col holds the entries of the features in done. */
  ghost predicate Written<T(!new)>(m: Monoid<T>, x: seq<seq<T>>, order: seq<seq<int>>, buckets: nat, features: nat,
                                   col: nat, done: seq<nat>, cumsum: bool, res: array2<T>)
    requires (forall i :: 0 <= i < |x| ==> col < |x[i]|) && col < res.Length1 && res.Length0 == features * buckets
    reads res
  {
    forall f: nat, b: nat :: f in done && f < features && b < buckets ==>
      0 <= RowAt(buckets, f, b) < res.Length0
      && res[RowAt(buckets, f, b), col] == Entry(m, x, order, col, f, b, cumsum)
  }

  method WriteColumn<T(!new)>(m: Monoid<T>, x: seq<seq<T>>, order: seq<seq<int>>, col: nat, features: nat, buckets: nat,
                              res: array2<T>, cumsum: bool, schedule: seq<nat>, plan: nat -> Plan)
    requires m.Valid() && |x| == |order| && Orders(order, features, buckets) && col < res.Length1
    requires res.Length0 == features * buckets && Covers(schedule, features)
    requires forall i :: 0 <= i < |x| ==> col < |x[i]|
    modifies res
    ensures forall r, c :: 0 <= r < res.Length0 && 0 <= c < res.Length1 && c != col ==> res[r, c] == old(res[r, c])
    ensures Written(m, x, order, buckets, features, col, schedule, cumsum, res)
  {
    hide Orders, Entry, RowAt, Monoid.Valid, Elsewhere;
    for k := 0 to |schedule|
      invariant forall r, c :: 0 <= r < res.Length0 && 0 <= c < res.Length1 && c != col ==> res[r, c] == old(res[r, c])
      invariant Written(m, x, order, buckets, features, col, schedule[..k], cumsum, res)
    {
      var f := schedule[k];
      label before:
      WriteFeature(m, x, order, col, f, features, buckets, res, cumsum, plan(f));
      forall g: nat, b: nat | g in schedule[..k + 1] && g < features && b < buckets
        ensures 0 <= RowAt(buckets, g, b) < res.Length0
        ensures res[RowAt(buckets, g, b), col] == Entry(m, x, order, col, g, b, cumsum)
      {
        RowFits(buckets, features, g, b);
        if g != f {
          assert g in schedule[..k];
          ElsewhereFrom(buckets, f, g, b);
        }
      }
    }
    assert schedule[..|schedule|] == schedule;
  }

  lemma ElsewhereFrom(buckets: nat, f: nat, g: nat, b: nat)
    requires f != g && b < buckets
    ensures Elsewhere(buckets, f, RowAt(buckets, g, b))
  {
    hide RowAt;
    forall c: nat | c < buckets
      ensures RowAt(buckets, g, b) != RowAt(buckets, f, c)
    {
      if RowAt(buckets, g, b) == RowAt(buckets, f, c) { RowsDisjoint(buckets, g, b, f, c); }
    }
  }

  /** Every entry of column col is right. */
  ghost predicate ColumnRight<T(!new)>(m: Monoid<T>, x: seq<seq<T>>, order: seq<seq<int>>, buckets: nat, features: nat,
                                       col: nat, cumsum: bool, res: array2<T>)
    requires (forall i :: 0 <= i < |x| ==> col < |x[i]|) && col < res.Length1 && res.Length0 == features * buckets
    reads res
  {
    forall f: nat, b: nat :: f < features && b < buckets ==>
      0 <= RowAt(buckets, f, b) < res.Length0
      && res[RowAt(buckets, f, b), col] == Entry(m, x, order, col, f, b, cumsum)
  }

  /** Feature-wise bucket sums in place. Schedules and plans are whatever the thread pool chooses; the result
      does not depend on them. */
  method FeatureWiseBucketSumInplace<T(!new)>(m: Monoid<T>, x: seq<seq<T>>, cols: nat, order: seq<seq<int>>,
                                              features: nat, buckets: nat, res: array2<T>, cumsum: bool,
                                              schedule: nat -> seq<nat>, plan: (nat, nat) -> Plan) returns (ok: bool)
    requires m.Valid() && Shaped(x, cols) && Orders(order, features, buckets)
    requires forall col: nat :: Covers(schedule(col), features)
    modifies res
    ensures ok <==> cols > 0 && |x| > 0 && |order| == |x| && features * buckets == res.Length0 && cols == res.Length1
    ensures ok ==> forall col: nat :: col < cols ==>
                     ColumnRight(m, x, order, buckets, features, col, cumsum, res)
    ensures !ok ==> forall r, c :: 0 <= r < res.Length0 && 0 <= c < res.Length1 ==> res[r, c] == old(res[r, c])
  {
    hide Orders, Entry, RowAt, Monoid.Valid;
    ok := cols > 0 && |x| > 0 && |order| == |x| && features * buckets == res.Length0 && cols == res.Length1;
    if !ok { return; }
    for col := 0 to cols
      invariant forall c: nat :: c < col ==> ColumnRight(m, x, order, buckets, features, c, cumsum, res)
    {
      label before:
      WriteColumn(m, x, order, col, features, buckets, res, cumsum, schedule(col), (f: nat) => plan(col, f));
      forall c: nat | c < col
        ensures ColumnRight(m, x, order, buckets, features, c, cumsum, res)
      {
        assert old@before(ColumnRight(m, x, order, buckets, features, c, cumsum, res));
      }
    }
  }

  // ------------------------------------------------------------------ subgroups

  /** Indices of the rows in the subgroup. */
  function Selected(subgroup: seq<int>): (s: seq<nat>)
    ensures forall k :: 0 <= k < |s| ==> s[k] < |subgroup| && subgroup[s[k]] > 0
  {
    if subgroup == [] then []
    else
      var s := Selected(subgroup[..|subgroup| - 1]);
      if subgroup[|subgroup| - 1] > 0 then s + [|subgroup| - 1] else s
  }

  /** Exactly the positive positions, each once and in order. */
  lemma {:induction false} SelectedAll(subgroup: seq<int>)
    ensures forall j: nat :: j in Selected(subgroup) <==> j < |subgroup| && subgroup[j] > 0
    ensures forall k: nat, l: nat :: k < l < |Selected(subgroup)| ==> Selected(subgroup)[k] < Selected(subgroup)[l]
  {
    if subgroup != [] { SelectedAll(subgroup[..|subgroup| - 1]); }
  }

  lemma SelectedEmpty()
    ensures Selected([]) == []
  {
  }

  lemma SelectedNext(subgroup: seq<int>, j: nat)
    requires j < |subgroup|
    ensures Selected(subgroup[..j + 1]) == if subgroup[j] > 0 then Selected(subgroup[..j]) + [j] else Selected(subgroup[..j])
  {
    assert subgroup[..j + 1][..j] == subgroup[..j];
  }

  method SelectRows(subgroup: seq<int>) returns (indices: seq<nat>)
    ensures indices == Selected(subgroup)
  {
    hide Selected;
    SelectedEmpty();
    indices := [];
    assert subgroup[..0] == [];
    for j := 0 to |subgroup|
      invariant indices == Selected(subgroup[..j])
    {
      SelectedNext(subgroup, j);
      if subgroup[j] > 0 { indices := indices + [j]; }
    }
    assert subgroup[..|subgroup|] == subgroup;
  }

  /** The rows picked by a list of indices. */
  function Pick<T(!new)>(x: seq<T>, indices: seq<nat>): (y: seq<T>)
    requires forall k :: 0 <= k < |indices| ==> indices[k] < |x|
    ensures |y| == |indices| && forall k :: 0 <= k < |y| ==> y[k] == x[indices[k]]
  {
    seq(|indices|, k requires 0 <= k < |indices| => x[indices[k]])
  }

  /** Rows of the subgroup that keep selects. */
  function Restricted(subgroup: seq<int>, keep: nat -> bool): nat -> bool
  {
    (i: nat) => i < |subgroup| && subgroup[i] > 0 && keep(i)
  }

  /** Summing over the picked rows is summing over the subgroup's rows. */
  lemma {:induction false} PickedSum<T(!new)>(m: Monoid<T>, x: seq<seq<T>>, col: nat, subgroup: seq<int>, keep: nat -> bool,
                                        n: nat, y: seq<seq<T>>, kept: nat -> bool)
    requires n <= |subgroup| && n <= |x| && forall i :: 0 <= i < |x| ==> col < |x[i]|
    requires var s := Selected(subgroup[..n]);
             |y| >= |s| && forall k: nat :: k < |s| ==> y[k] == x[s[k]] && kept(k) == keep(s[k])
    requires forall i :: 0 <= i < |y| ==> col < |y[i]|
    ensures SumWhere(m, y, col, kept, 0, |Selected(subgroup[..n])|)
         == SumWhere(m, x, col, Restricted(subgroup, keep), 0, n)
  {
    if n > 0 {
      assert subgroup[..n][..n - 1] == subgroup[..n - 1];
      var s, t := Selected(subgroup[..n]), Selected(subgroup[..n - 1]);
      assert forall k: nat :: k < |t| ==> t[k] == s[k];
      PickedSum(m, x, col, subgroup, keep, n - 1, y, kept);
    }
  }

  /** The rows a subgroup map selects exist. The map itself may be shorter or longer than the matrix. */
  predicate InMatrix(subgroup: seq<int>, rows: nat, orders: nat)
  {
    forall j :: 0 <= j < |subgroup| && subgroup[j] > 0 ==> j < rows && j < orders
  }

  lemma {:induction false} SelectedTail(subgroup: seq<int>, n: nat)
    requires n <= |subgroup| && forall j :: n <= j < |subgroup| ==> subgroup[j] <= 0
    ensures Selected(subgroup) == Selected(subgroup[..n])
  {
    if n < |subgroup| {
      SelectedTail(subgroup[..|subgroup| - 1], n);
      assert subgroup[..|subgroup| - 1][..n] == subgroup[..n];
    } else {
      assert subgroup[..n] == subgroup;
    }
  }

  lemma {:induction false} SumTail<T(!new)>(m: Monoid<T>, x: seq<seq<T>>, col: nat, keep: nat -> bool, n: nat, end: nat)
    requires n <= end <= |x| && (forall i :: 0 <= i < |x| ==> col < |x[i]|) && forall i: nat :: n <= i < end ==> !keep(i)
    ensures SumWhere(m, x, col, keep, 0, end) == SumWhere(m, x, col, keep, 0, n)
  {
    if n < end { SumTail(m, x, col, keep, n, end - 1); }
  }

  /** Entry of a subgroup: only its rows count. */
  function SubgroupEntry<T(!new)>(m: Monoid<T>, x: seq<seq<T>>, order: seq<seq<int>>, col: nat, f: nat, b: int,
                                  cumsum: bool, subgroup: seq<int>): T
    requires forall i :: 0 <= i < |x| ==> col < |x[i]|
  {
    var keep := if cumsum then UpToBucket(order, f, b) else InBucket(order, f, b);
    SumWhere(m, x, col, Restricted(subgroup, keep), 0, |x|)
  }

  lemma PickedEntry<T(!new)>(m: Monoid<T>, x: seq<seq<T>>, order: seq<seq<int>>, col: nat, f: nat, b: int, cumsum: bool,
                             subgroup: seq<int>, features: nat, buckets: nat)
    requires InMatrix(subgroup, |x|, |order|) && Orders(order, features, buckets) && f < features
    requires forall i :: 0 <= i < |x| ==> col < |x[i]|
    ensures Entry(m, Pick(x, Selected(subgroup)), Pick(order, Selected(subgroup)), col, f, b, cumsum)
         == SubgroupEntry(m, x, order, col, f, b, cumsum, subgroup)
  {
    hide Selected;
    var s := Selected(subgroup);
    var y, o := Pick(x, s), Pick(order, s);
    var keep := if cumsum then UpToBucket(order, f, b) else InBucket(order, f, b);
    var kept := if cumsum then UpToBucket(o, f, b) else InBucket(o, f, b);
    var n := if |subgroup| < |x| then |subgroup| else |x|;
    SelectedTail(subgroup, n);
    PickedSum(m, x, col, subgroup, keep, n, y, kept);
    SumTail(m, x, col, Restricted(subgroup, keep), n, |x|);
  }

  lemma NoneSelected<T(!new)>(m: Monoid<T>, x: seq<seq<T>>, order: seq<seq<int>>, col: nat, f: nat, b: int, cumsum: bool,
                              subgroup: seq<int>)
    requires Selected(subgroup) == [] && forall i :: 0 <= i < |x| ==> col < |x[i]|
    ensures SubgroupEntry(m, x, order, col, f, b, cumsum, subgroup) == m.zero
  {
    NotSelected(subgroup);
    var keep := if cumsum then UpToBucket(order, f, b) else InBucket(order, f, b);
    SumNone(m, x, col, Restricted(subgroup, keep), 0, |x|);
  }

  lemma {:induction false} NotSelected(subgroup: seq<int>)
    requires Selected(subgroup) == []
    ensures forall i :: 0 <= i < |subgroup| ==> subgroup[i] <= 0
  {
    if subgroup != [] { NotSelected(subgroup[..|subgroup| - 1]); }
  }

  /** Every entry is the subgroup's sum. */
  ghost predicate SubgroupRight<T(!new)>(m: Monoid<T>, x: seq<seq<T>>, cols: nat, order: seq<seq<int>>, features: nat,
                                         buckets: nat, cumsum: bool, subgroup: seq<int>, res: array2<T>)
    requires Shaped(x, cols)
    reads res
  {
    && res.Length0 == features * buckets && res.Length1 == cols
    && (forall f: nat, b: nat :: f < features && b < buckets ==> 0 <= RowAt(buckets, f, b) < res.Length0)
    && forall col: nat, f: nat, b: nat :: col < cols && f < features && b < buckets ==>
         res[RowAt(buckets, f, b), col] == SubgroupEntry(m, x, order, col, f, b, cumsum, subgroup)
  }

  /** The bucket sums of one subgroup; an empty selection throws. */
  method FeatureWiseBucketSum<T(!new)>(m: Monoid<T>, x: seq<seq<T>>, cols: nat, order: seq<seq<int>>, features: nat,
                                       buckets: nat, cumsum: bool, subgroup: seq<int>, schedule: nat -> seq<nat>,
                                       plan: (nat, nat) -> Plan) returns (ok: bool, res: array2<T>)
    requires m.Valid() && Shaped(x, cols) && Orders(order, features, buckets) && InMatrix(subgroup, |x|, |order|)
    requires forall col: nat :: Covers(schedule(col), features)
    ensures fresh(res) && (ok <==> cols > 0 && Selected(subgroup) != [])
    ensures ok ==> SubgroupRight(m, x, cols, order, features, buckets, cumsum, subgroup, res)
  {
    hide Selected, Entry, RowAt, Monoid.Valid, SubgroupEntry, Covers;
    RowCount(features, buckets);
    AllRowsFit(features, buckets);
    res := new T[features * buckets, cols]((_, _) => m.zero);
    var indices := SelectRows(subgroup);
    var y, o := Pick(x, indices), Pick(order, indices);
    ok := FeatureWiseBucketSumInplace(m, y, cols, o, features, buckets, res, cumsum, schedule, plan);
    if ok {
      forall col: nat, f: nat, b: nat | col < cols && f < features && b < buckets
        ensures res[RowAt(buckets, f, b), col] == SubgroupEntry(m, x, order, col, f, b, cumsum, subgroup)
      {
        assert ColumnRight(m, y, o, buckets, features, col, cumsum, res);
        PickedEntry(m, x, order, col, f, b, cumsum, subgroup, features, buckets);
      }
    }
  }

  lemma AllRowsFit(features: nat, buckets: nat)
    ensures forall f: nat, b: nat :: f < features && b < buckets ==> 0 <= RowAt(buckets, f, b) < features * buckets
  {
    forall f: nat, b: nat | f < features && b < buckets
      ensures 0 <= RowAt(buckets, f, b) < features * buckets
    {
      RowFits(buckets, features, f, b);
    }
  }

  lemma RowCount(features: nat, buckets: nat)
    ensures features * buckets >= 0
  {
  }

  /** The bucket sums of many subgroups; an empty selection gives zeros. */
  method BatchFeatureWiseBucketSum<T(!new)>(m: Monoid<T>, x: seq<seq<T>>, cols: nat, order: seq<seq<int>>, features: nat,
                                            buckets: nat, cumsum: bool, subgroups: seq<seq<int>>,
                                            schedule: nat -> seq<nat>, plan: (nat, nat) -> Plan)
    returns (ok: bool, res: seq<array2<T>>)
    requires m.Valid() && Shaped(x, cols) && Orders(order, features, buckets)
    requires forall g :: 0 <= g < |subgroups| ==> InMatrix(subgroups[g], |x|, |order|)
    requires forall col: nat :: Covers(schedule(col), features)
    ensures ok <==> cols > 0 || forall g :: 0 <= g < |subgroups| ==> Selected(subgroups[g]) == []
    ensures ok ==> |res| == |subgroups|
    ensures ok ==> forall g :: 0 <= g < |subgroups| ==>
                     SubgroupRight(m, x, cols, order, features, buckets, cumsum, subgroups[g], res[g])
  {
    hide Selected, Entry, RowAt, Monoid.Valid, SubgroupEntry, Covers, Orders;
    ok, res := true, [];
    for g := 0 to |subgroups|
      invariant |res| == g
      invariant cols > 0 || forall h :: 0 <= h < g ==> Selected(subgroups[h]) == []
      invariant forall h :: 0 <= h < g ==>
                  SubgroupRight(m, x, cols, order, features, buckets, cumsum, subgroups[h], res[h])
    {
      var indices := SelectRows(subgroups[g]);
      var sums;
      if |indices| > 0 {
        ok, sums := FeatureWiseBucketSum(m, x, cols, order, features, buckets, cumsum, subgroups[g], schedule, plan);
        if !ok { return; }
      } else {
        sums := ZeroSums(m, x, cols, order, features, buckets, cumsum, subgroups[g]);
      }
      res := res + [sums];
    }
  }

  method ZeroSums<T(!new)>(m: Monoid<T>, x: seq<seq<T>>, cols: nat, order: seq<seq<int>>, features: nat, buckets: nat,
                           cumsum: bool, subgroup: seq<int>) returns (res: array2<T>)
    requires Shaped(x, cols) && Selected(subgroup) == []
    ensures fresh(res) && SubgroupRight(m, x, cols, order, features, buckets, cumsum, subgroup, res)
  {
    hide Selected, RowAt, SubgroupEntry;
    RowCount(features, buckets);
    AllRowsFit(features, buckets);
    res := new T[features * buckets, cols]((_, _) => m.zero);
    forall col: nat, f: nat, b: nat | col < cols && f < features && b < buckets
      ensures res[RowAt(buckets, f, b), col] == SubgroupEntry(m, x, order, col, f, b, cumsum, subgroup)
    {
      NoneSelected(m, x, order, col, f, b, cumsum, subgroup);
    }
  }
}
