/** The LWE accumulator: extraction, lazy and eager in-place operations, and whole runs of them. */
module LweCt {
  import opened Arith
  import opened LweWords
  import opened LweSample
  import Negacyclic

  class LWECt {
    var maximumLazy: int
    var lazyCounter: nat
    var polyDeg: nat
    var cnst: seq<int>
    var vec: seq<seq<int>>
    ghost var exact: seq<Exact> // the unreduced signed sum of everything added

    constructor ()
      ensures polyDeg == 0 && exact == [] && forall c: Context :: Valid(c)
    {
      maximumLazy, lazyCounter, polyDeg, cnst, vec, exact := 0, 0, 0, [], [], [];
    }

    predicate IsValid()
      reads this
    {
      polyDeg > 0
    }

    /** Words stay within the lazy budget and congruent to the exact samples. */
    ghost predicate Valid(c: Context)
      reads this
    {
      if polyDeg == 0 then lazyCounter == 0 && exact == [] && cnst == [] && vec == [] else
      && polyDeg == c.n && 0 < |exact| <= |c.q| && Shape(exact, c.n)
      && maximumLazy == MaximumLazy(c.q) && lazyCounter <= maximumLazy
      && RowsOk(vec, cnst, exact, 0, |exact|, lazyCounter, c.q)
    }

    /** Fresh extraction of coefficient k, assigned to this object. */
    method Extract(r: Rlwe, k: nat, c: Context) returns (ok: bool)
      requires c.Valid() && Valid(c) && r.Reduced(c)
      modifies this
      ensures Valid(c) && ok == r.Extractable(k, c)
      ensures ok <==> r.MetaOk(c) && !r.ntt && |r.polys| == 2 && k < c.n
      ensures !ok ==> unchanged(this)
      ensures exact == if ok then r.Extracted(k, c) else old(exact)
      ensures ok ==> lazyCounter == 0 && polyDeg == c.n
    {
      hide Cong, Budget, RowOk, ExtractRow, LweWords.Extract, Words;
      ok := r.Extractable(k, c);
      if !ok { return; }
      var level := r.Level();
      cnst, vec := [], [];
      for l := 0 to level
        invariant |cnst| == |vec| == l
        invariant forall m :: 0 <= m < l ==> RowOk(vec[m], cnst[m], r.Extracted(k, c)[m], 0, c.q[m])
      {
        ExtractRowOk(r.polys[0][l], r.polys[1][l], k, c.q[l]);
        vec := vec + [ExtractRow(r.polys[1][l], k, c.q[l])];
        cnst := cnst + [r.polys[0][l][k]];
      }
      maximumLazy := ComputeMaximumLazy(c.q);
      lazyCounter, polyDeg, exact := 0, c.n, r.Extracted(k, c);
      MaximumPositive(c);
    }

    /** *this = oth. */
    method Assign(oth: LWECt, ghost c: Context)
      requires oth.Valid(c)
      modifies this
      ensures Valid(c) && exact == old(oth.exact) && polyDeg == old(oth.polyDeg)
      ensures lazyCounter == old(oth.lazyCounter) && cnst == old(oth.cnst) && vec == old(oth.vec)
    {
      maximumLazy, lazyCounter, polyDeg := oth.maximumLazy, oth.lazyCounter, oth.polyDeg;
      cnst, vec, exact := oth.cnst, oth.vec, oth.exact;
    }

    /** Brings every word below its modulus. The check on the counter never throws. */
    method Reduce(c: Context)
      requires c.Valid() && Valid(c)
      modifies this
      ensures Valid(c) && lazyCounter == 0 && exact == old(exact) && polyDeg == old(polyDeg)
    {
      hide Cong, Budget, RowOk, Map;
      if !IsValid() || lazyCounter == 0 { return; }
      assert lazyCounter <= maximumLazy;
      for l := 0 to |cnst|
        invariant unchanged(this`lazyCounter) && unchanged(this`maximumLazy) && unchanged(this`polyDeg)
        invariant unchanged(this`exact)
        invariant RowsOk(vec, cnst, exact, 0, l, 0, c.q)
        invariant RowsOk(vec, cnst, exact, l, |exact|, lazyCounter, c.q)
      {
        var q := c.q[l];
        ReduceRowOk(vec[l], cnst[l], exact[l], lazyCounter, q);
        vec := vec[l := Map(vec[l], x requires q > 0 => x % q)];
        cnst := cnst[l := cnst[l] % q];
      }
      lazyCounter := 0;
    }

    method NegateInplace(c: Context) returns (ok: bool)
      requires c.Valid() && Valid(c)
      modifies this
      ensures Valid(c) && ok == old(IsValid()) && polyDeg == old(polyDeg)
      ensures exact == Negated(old(exact), c.n) && lazyCounter == 0
    {
      hide Cong, Budget, RowOk, Map, NegateWord;
      ok := IsValid();
      if !ok { return; }
      if lazyCounter > 0 { Reduce(c); }
      ghost var e := exact;
      exact := Negated(e, c.n);
      for l := 0 to |cnst|
        invariant lazyCounter == 0 && unchanged(this`polyDeg) && maximumLazy == MaximumLazy(c.q)
        invariant exact == Negated(e, c.n)
        invariant RowsOk(vec, cnst, exact, 0, l, 0, c.q)
        invariant RowsOk(vec, cnst, e, l, |e|, 0, c.q)
      {
        var q := c.q[l];
        NegateRowOk(vec[l], cnst[l], e[l], q);
        vec := vec[l := Map(vec[l], u => NegateWord(u, q))];
        cnst := cnst[l := NegateWord(cnst[l], q)];
      }
    }

    /** The shared loop of the eager operations: add x times the reduced operand. */
    method Combine(x: int, oth: LWECt, c: Context)
      requires c.Valid() && Valid(c) && oth.Valid(c) && IsValid() && lazyCounter == 0
      requires oth.lazyCounter == 0 && |oth.exact| == |exact|
      modifies this
      ensures Valid(c) && exact == Sum(old(exact), x, old(oth.exact), c.n) && polyDeg == old(polyDeg)
      ensures lazyCounter == 0
    {
      hide Cong, Budget, RowOk, CombineRow, CombineWord;
      ghost var e, f := exact, oth.exact;
      ghost var d, w := oth.cnst, oth.vec;
      exact := Sum(e, x, f, c.n);
      for l := 0 to |cnst|
        invariant lazyCounter == 0 && unchanged(this`polyDeg) && maximumLazy == MaximumLazy(c.q)
        invariant exact == Sum(e, x, f, c.n)
        invariant |oth.vec| == |oth.cnst| == |e|
        invariant forall m :: l <= m < |e| ==> oth.vec[m] == w[m] && oth.cnst[m] == d[m]
        invariant RowsOk(vec, cnst, exact, 0, l, 0, c.q)
        invariant RowsOk(vec, cnst, e, l, |e|, 0, c.q)
      {
        CombineRowLengths(vec[l], cnst[l], e[l], w[l], d[l], f[l], c.q[l]);
        CombineRowOk(vec[l], cnst[l], e[l], x, oth.vec[l], oth.cnst[l], f[l], c.q[l]);
        vec := vec[l := CombineRow(vec[l], x, oth.vec[l], c.q[l])];
        cnst := cnst[l := CombineWord(cnst[l], x, oth.cnst[l], c.q[l])];
      }
    }

    /** The operand is accepted; adding an object to itself reduces both sides first. */
    predicate Accepts(oth: LWECt)
      reads this, oth
    {
      oth.IsValid() && (oth == this || oth.lazyCounter == 0) && |oth.cnst| == |cnst|
    }

    method AddInplace(oth: LWECt, c: Context) returns (ok: bool)
      requires c.Valid() && Valid(c) && oth.Valid(c)
      modifies this
      ensures Valid(c) && ok == old(!IsValid() || Accepts(oth))
      ensures ok ==> exact == if old(IsValid()) then Sum(old(exact), 1, old(oth.exact), c.n) else old(oth.exact)
      ensures old(IsValid()) ==> lazyCounter == 0 && polyDeg == old(polyDeg)
      ensures !old(IsValid()) ==> lazyCounter == old(oth.lazyCounter) && polyDeg == old(oth.polyDeg)
      ensures !old(IsValid()) ==> cnst == old(oth.cnst) && vec == old(oth.vec)
      ensures !ok ==> exact == old(exact)
    {
      if !IsValid() {
        Assign(oth, c);
        return true;
      }
      if lazyCounter > 0 { Reduce(c); }
      if oth.lazyCounter != 0 || !oth.IsValid() || |oth.cnst| != |cnst| { return false; }
      Combine(1, oth, c);
      ok := true;
    }

    method SubInplace(oth: LWECt, c: Context) returns (ok: bool)
      requires c.Valid() && Valid(c) && oth.Valid(c)
      modifies this
      ensures Valid(c) && ok == old(if IsValid() then Accepts(oth) else oth.IsValid())
      ensures ok ==> exact == if old(IsValid()) then Sum(old(exact), -1, old(oth.exact), c.n)
                              else Negated(old(oth.exact), c.n)
      ensures lazyCounter == 0 && polyDeg == if old(IsValid()) then old(polyDeg) else old(oth.polyDeg)
      ensures !ok ==> exact == old(exact)
    {
      if !IsValid() {
        Assign(oth, c);
        ok := NegateInplace(c);
        return;
      }
      if lazyCounter > 0 { Reduce(c); }
      if oth.lazyCounter != 0 || !oth.IsValid() || |oth.cnst| != |cnst| { return false; }
      Combine(-1, oth, c);
      ok := true;
    }

    /** The shared loop of the plaintext operations. It throws at the first word out of range, having
        already changed the constants before it. */
    method CombinePlain(x: int, plain: seq<int>, c: Context) returns (ok: bool)
      requires c.Valid() && Valid(c) && IsValid() && lazyCounter == 0 && |plain| == |cnst|
      modifies this
      ensures Valid(c) && polyDeg == old(polyDeg) && ok == (Accepted(plain, c.q) == |plain|) && lazyCounter == 0
      ensures exact == PlainSum(old(exact), x, plain, Accepted(plain, c.q))
    {
      hide Cong, Budget, RowOk, CombineWord;
      ghost var e := exact;
      for l := 0 to |cnst|
        invariant lazyCounter == 0 && unchanged(this`polyDeg) && maximumLazy == MaximumLazy(c.q)
        invariant l <= Accepted(plain, c.q) && exact == PlainSum(e, x, plain, l)
        invariant RowsOk(vec, cnst, exact, 0, |e|, 0, c.q)
      {
        AcceptedMore(plain, c.q, l);
        if plain[l] >= c.q[l] { return false; }
        PlainStep(vec, cnst, e, x, plain, l, c.q);
        cnst := cnst[l := CombineWord(cnst[l], x, plain[l], c.q[l])];
        exact := PlainSum(e, x, plain, l + 1);
      }
      ok := true;
    }

    predicate TakesPlain(plain: seq<int>, c: Context)
      reads this
    {
      IsValid() && |plain| == |cnst| == |c.q|
    }

    method AddPlainInplace(plain: seq<int>, c: Context) returns (ok: bool)
      requires c.Valid() && Valid(c)
      modifies this
      ensures Valid(c) && ok == old(TakesPlain(plain, c) && Accepted(plain, c.q) == |plain|)
      ensures exact == if old(TakesPlain(plain, c)) then PlainSum(old(exact), 1, plain, Accepted(plain, c.q))
                       else old(exact)
      ensures old(TakesPlain(plain, c)) ==> lazyCounter == 0 && polyDeg == old(polyDeg)
    {
      if !IsValid() || |plain| != |cnst| { return false; }
      if lazyCounter > 0 { Reduce(c); }
      if |cnst| != |c.q| { return false; }
      ok := CombinePlain(1, plain, c);
    }

    method SubPlainInplace(plain: seq<int>, c: Context) returns (ok: bool)
      requires c.Valid() && Valid(c)
      modifies this
      ensures Valid(c) && ok == old(TakesPlain(plain, c) && Accepted(plain, c.q) == |plain|)
      ensures exact == if old(TakesPlain(plain, c)) then PlainSum(old(exact), -1, plain, Accepted(plain, c.q))
                       else old(exact)
      ensures old(TakesPlain(plain, c)) ==> lazyCounter == 0 && polyDeg == old(polyDeg)
    {
      if !IsValid() || |plain| != |cnst| { return false; }
      if lazyCounter > 0 { Reduce(c); }
      if |cnst| != |c.q| { return false; }
      ok := CombinePlain(-1, plain, c);
    }

    method AddLazyInplace(r: Rlwe, k: nat, c: Context) returns (ok: bool)
      requires c.Valid() && Valid(c) && r.Reduced(c)
      modifies this
      ensures Valid(c) && ok == (r.Extractable(k, c) && (old(IsValid()) ==> r.Level() == old(|cnst|)))
      ensures ok ==> exact == if old(IsValid()) then Sum(old(exact), 1, r.Extracted(k, c), c.n)
                              else r.Extracted(k, c)
      ensures ok ==> lazyCounter == if !old(IsValid()) then 0 else if old(lazyCounter >= maximumLazy) then 1
                                    else old(lazyCounter) + 1
      ensures ok ==> polyDeg == c.n
      ensures !ok ==> exact == old(exact) && polyDeg == old(polyDeg)
      ensures !ok ==> lazyCounter == if old(IsValid() && lazyCounter >= maximumLazy) then 0 else old(lazyCounter)
    {
      if !IsValid() {
        ok := Extract(r, k, c);
        return;
      }
      if lazyCounter >= maximumLazy { Reduce(c); }
      if !r.Extractable(k, c) || r.Level() != |cnst| { return false; }
      AddLazyRows(r, k, c);
      ok := true;
    }

    method AddLazyRows(r: Rlwe, k: nat, c: Context)
      requires c.Valid() && Valid(c) && r.Reduced(c) && IsValid() && r.Extractable(k, c) && r.Level() == |cnst|
      requires lazyCounter < maximumLazy || lazyCounter == 0
      modifies this
      ensures Valid(c) && lazyCounter == old(lazyCounter) + 1 && exact == Sum(old(exact), 1, r.Extracted(k, c), c.n)
    {
      hide Cong, Budget, RowOk, AddLazyRow, LweWords.Extract, Words, AddWord;
      MaximumPositive(c);
      ghost var e, n := exact, lazyCounter;
      exact := Sum(e, 1, r.Extracted(k, c), c.n);
      for l := 0 to |cnst|
        invariant unchanged(this`lazyCounter) && unchanged(this`maximumLazy) && unchanged(this`polyDeg)
        invariant exact == Sum(e, 1, r.Extracted(k, c), c.n)
        invariant RowsOk(vec, cnst, exact, 0, l, n + 1, c.q)
        invariant RowsOk(vec, cnst, e, l, |e|, n, c.q)
      {
        AddLazyStep(vec[l], cnst[l], e, r, k, l, n, c);
        RowsStep(vec, cnst, e, exact, l, n, n + 1, c.q, AddLazyRow(vec[l], r.polys[1][l], k, c.q[l]),
                 AddWord(cnst[l], r.polys[0][l][k]));
        vec := vec[l := AddLazyRow(vec[l], r.polys[1][l], k, c.q[l])];
        cnst := cnst[l := AddWord(cnst[l], r.polys[0][l][k])];
      }
      lazyCounter := lazyCounter + 1;
    }

    method SubLazyInplace(r: Rlwe, k: nat, c: Context) returns (ok: bool)
      requires c.Valid() && Valid(c) && r.Reduced(c)
      modifies this
      ensures Valid(c) && ok == (r.Extractable(k, c) && (old(IsValid()) ==> r.Level() == old(|cnst|)))
      ensures ok ==> exact == if old(IsValid()) then Sum(old(exact), -1, r.Extracted(k, c), c.n)
                              else Negated(r.Extracted(k, c), c.n)
      ensures ok ==> lazyCounter == if !old(IsValid()) then 0 else if old(lazyCounter >= maximumLazy) then 1
                                    else old(lazyCounter) + 1
      ensures ok ==> polyDeg == c.n
      ensures !ok ==> exact == old(exact) && polyDeg == old(polyDeg)
      ensures !ok ==> lazyCounter == if old(IsValid() && lazyCounter >= maximumLazy) then 0 else old(lazyCounter)
    {
      if !IsValid() {
        ok := Extract(r, k, c);
        if ok { ok := NegateInplace(c); }
        return;
      }
      if lazyCounter >= maximumLazy { Reduce(c); }
      if !r.Extractable(k, c) || r.Level() != |cnst| { return false; }
      SubLazyRows(r, k, c);
      ok := true;
    }

    method SubLazyRows(r: Rlwe, k: nat, c: Context)
      requires c.Valid() && Valid(c) && r.Reduced(c) && IsValid() && r.Extractable(k, c) && r.Level() == |cnst|
      requires lazyCounter < maximumLazy || lazyCounter == 0
      modifies this
      ensures Valid(c) && lazyCounter == old(lazyCounter) + 1 && exact == Sum(old(exact), -1, r.Extracted(k, c), c.n)
    {
      hide Cong, Budget, RowOk, SubLazyRow, LweWords.Extract, Words, SubConstant;
      MaximumPositive(c);
      ghost var e, n := exact, lazyCounter;
      exact := Sum(e, -1, r.Extracted(k, c), c.n);
      for l := 0 to |cnst|
        invariant unchanged(this`lazyCounter) && unchanged(this`maximumLazy) && unchanged(this`polyDeg)
        invariant exact == Sum(e, -1, r.Extracted(k, c), c.n)
        invariant RowsOk(vec, cnst, exact, 0, l, n + 1, c.q)
        invariant RowsOk(vec, cnst, e, l, |e|, n, c.q)
      {
        SubLazyStep(vec[l], cnst[l], e, r, k, l, n, c);
        RowsStep(vec, cnst, e, exact, l, n, n + 1, c.q, SubLazyRow(vec[l], r.polys[1][l], k, c.q[l]),
                 SubConstant(cnst[l], r.polys[0][l][k], c.q[l]));
        vec := vec[l := SubLazyRow(vec[l], r.polys[1][l], k, c.q[l])];
        cnst := cnst[l := SubConstant(cnst[l], r.polys[0][l][k], c.q[l])];
      }
      lazyCounter := lazyCounter + 1;
    }
  }

  lemma AddLazyStep(u: seq<int>, d: int, e: seq<Exact>, r: Rlwe, k: nat, l: nat, n: nat, c: Context)
    requires c.Valid() && r.Reduced(c) && r.Extractable(k, c) && l < r.Level() == |e| && Shape(e, c.n)
    requires (n < MaximumLazy(c.q) || n == 0) && RowOk(u, d, e[l], n, c.q[l])
    ensures |u| == c.n
    ensures RowOk(AddLazyRow(u, r.polys[1][l], k, c.q[l]), AddWord(d, r.polys[0][l][k]),
                  Sum(e, 1, r.Extracted(k, c), c.n)[l], n + 1, c.q[l])
  {
    hide Cong, Budget, Words, AddLazyRow, AddWord, WordOk, LweWords.Extract;
    MaximumPositive(c);
    BudgetFits(c, l, n);
    AddLazyRowOk(u, d, e[l], r.polys[0][l], r.polys[1][l], k, n, c.q[l]);
    TimesOne(LweWords.Extract(r.polys[0][l], r.polys[1][l], k));
  }

  lemma SubLazyStep(u: seq<int>, d: int, e: seq<Exact>, r: Rlwe, k: nat, l: nat, n: nat, c: Context)
    requires c.Valid() && r.Reduced(c) && r.Extractable(k, c) && l < r.Level() == |e| && Shape(e, c.n)
    requires (n < MaximumLazy(c.q) || n == 0) && RowOk(u, d, e[l], n, c.q[l])
    ensures |u| == c.n
    ensures RowOk(SubLazyRow(u, r.polys[1][l], k, c.q[l]), SubConstant(d, r.polys[0][l][k], c.q[l]),
                  Sum(e, -1, r.Extracted(k, c), c.n)[l], n + 1, c.q[l])
  {
    hide Cong, Budget, Words, SubLazyRow, SubConstant, WordOk, LweWords.Extract;
    MaximumPositive(c);
    BudgetFits(c, l, n);
    SubLazyRowOk(u, d, e[l], r.polys[0][l], r.polys[1][l], k, n, c.q[l]);
  }

  /** One row of the loop: rows before l hold the new samples f, rows from l on the old samples e. */
  lemma RowsStep(vec: seq<seq<int>>, cnst: seq<int>, e: seq<Exact>, f: seq<Exact>, l: nat, m: nat, n: nat,
                 q: seq<int>, u: seq<int>, d: int)
    requires l < |e| == |f| && RowsOk(vec, cnst, f, 0, l, n, q) && RowsOk(vec, cnst, e, l, |e|, m, q)
    requires RowOk(u, d, f[l], n, q[l])
    ensures RowsOk(vec[l := u], cnst[l := d], f, 0, l + 1, n, q)
    ensures RowsOk(vec[l := u], cnst[l := d], e, l + 1, |e|, m, q)
  {
    hide RowOk;
  }

  lemma ExactShape(acc: LWECt, c: Context)
    requires acc.Valid(c)
    ensures Shape(acc.exact, c.n) && |acc.exact| <= |c.q| && (acc.exact == [] <==> acc.polyDeg == 0)
    ensures |acc.cnst| == |acc.exact|
  {
  }

  lemma CombineRowLengths(u: seq<int>, c: int, e: Exact, v: seq<int>, d: int, f: Exact, q: int)
    requires RowOk(u, c, e, 0, q) && RowOk(v, d, f, 0, q)
    ensures |u| == |e.vec| && |v| == |f.vec|
  {
  }

  lemma PlainStep(vec: seq<seq<int>>, cnst: seq<int>, e: seq<Exact>, x: int, plain: seq<int>, l: nat, q: seq<int>)
    requires l < |e| == |plain| <= |q| && q[l] > 0 && RowsOk(vec, cnst, PlainSum(e, x, plain, l), 0, |e|, 0, q)
    ensures RowsOk(vec, cnst[l := CombineWord(cnst[l], x, plain[l], q[l])], PlainSum(e, x, plain, l + 1), 0, |e|, 0, q)
  {
    hide RowOk, CombineWord;
    var f, g := PlainSum(e, x, plain, l), PlainSum(e, x, plain, l + 1);
    PlainRowOk(vec[l], cnst[l], f[l], x, plain[l], q[l]);
    assert forall m :: 0 <= m < |e| && m != l ==> f[m] == g[m];
  }

  lemma TimesOne(e: Exact)
    ensures e.Times(1) == e
  {
    assert Negacyclic.Scale(1, e.vec) == e.vec;
  }

  lemma AcceptedMore(plain: seq<int>, q: seq<int>, l: nat)
    requires l < |plain| <= |q| && l <= Accepted(plain, q)
    ensures if plain[l] >= q[l] then Accepted(plain, q) == l else l + 1 <= Accepted(plain, q)
  {
  }
}
