/** Whole runs of accumulator operations, and what the result decrypts to. */
module LweRun {
  import opened Arith
  import opened LweWords
  import opened LweSample
  import opened LweCt
  import Negacyclic

  datatype Op =
    | AddLazy(r: Rlwe, k: nat)
    | SubLazy(r: Rlwe, k: nat)
    | Add(ct: LWECt)
    | Sub(ct: LWECt)
    | Negate
    | AddPlain(plain: seq<int>)
    | SubPlain(plain: seq<int>)
    | Reduce

  ghost function Operands(op: Op, acc: LWECt): set<LWECt>
  {
    if (op.Add? || op.Sub?) && op.ct != acc then {op.ct} else {}
  }

  /** What callers must supply: reduced RLWE words, and operands of the same context. */
  ghost predicate Callable(op: Op, acc: LWECt, c: Context)
    reads Operands(op, acc)
  {
    match op
    case AddLazy(r, _) => r.Reduced(c)
    case SubLazy(r, _) => r.Reduced(c)
    case Add(o) => o == acc || o.Valid(c)
    case Sub(o) => o == acc || o.Valid(c)
    case _ => true
  }

  function Signed(x: int, e: seq<Exact>, n: nat): (r: seq<Exact>)
    requires Shape(e, n)
    ensures |r| == |e| && Shape(r, n)
  {
    if x == 1 then e else Negated(e, n)
  }

  /** The exact samples after a lazy operation; a refused call changes nothing. */
  function NextLazy(e: seq<Exact>, x: int, r: Rlwe, k: nat, c: Context): (f: seq<Exact>)
    requires Shape(e, c.n) && |e| <= |c.q|
    ensures Shape(f, c.n) && |f| <= |c.q|
  {
    if !r.Extractable(k, c) then e
    else if e == [] then Signed(x, r.Extracted(k, c), c.n)
    else if r.Level() != |e| then e
    else Sum(e, x, r.Extracted(k, c), c.n)
  }

  function NextEager(e: seq<Exact>, x: int, o: seq<Exact>, reduced: bool, c: Context): (f: seq<Exact>)
    requires Shape(e, c.n) && |e| <= |c.q| && Shape(o, c.n) && |o| <= |c.q|
    ensures Shape(f, c.n) && |f| <= |c.q|
  {
    if e == [] then Signed(x, o, c.n)
    else if !reduced || |o| != |e| then e
    else Sum(e, x, o, c.n)
  }

  function NextPlain(e: seq<Exact>, x: int, plain: seq<int>, c: Context): (f: seq<Exact>)
    requires Shape(e, c.n) && |e| <= |c.q|
    ensures Shape(f, c.n) && |f| <= |c.q|
  {
    if e == [] || |plain| != |e| || |e| != |c.q| then e else PlainSum(e, x, plain, Accepted(plain, c.q))
  }

  ghost function Next(e: seq<Exact>, op: Op, acc: LWECt, c: Context): (f: seq<Exact>)
    requires Shape(e, c.n) && |e| <= |c.q| && Callable(op, acc, c)
    reads Operands(op, acc)
    ensures Shape(f, c.n) && |f| <= |c.q|
  {
    match op
    case AddLazy(r, k) => NextLazy(e, 1, r, k, c)
    case SubLazy(r, k) => NextLazy(e, -1, r, k, c)
    case Add(o) => if o == acc then NextEager(e, 1, e, true, c) else NextEager(e, 1, o.exact, o.lazyCounter == 0, c)
    case Sub(o) => if o == acc then NextEager(e, -1, e, true, c) else NextEager(e, -1, o.exact, o.lazyCounter == 0, c)
    case Negate => Negated(e, c.n)
    case AddPlain(plain) => NextPlain(e, 1, plain, c)
    case SubPlain(plain) => NextPlain(e, -1, plain, c)
    case Reduce => e
  }

  ghost function Run(e: seq<Exact>, ops: seq<Op>, acc: LWECt, c: Context): (f: seq<Exact>)
    requires Shape(e, c.n) && |e| <= |c.q| && forall op :: op in ops ==> Callable(op, acc, c)
    reads set op, o | op in ops && o in Operands(op, acc) :: o
    ensures Shape(f, c.n) && |f| <= |c.q|
  {
    if ops == [] then e else Next(Run(e, ops[..|ops| - 1], acc, c), ops[|ops| - 1], acc, c)
  }

  /** One operation, whether it succeeds or throws. */
  method Step(acc: LWECt, op: Op, c: Context)
    requires c.Valid() && acc.Valid(c) && Callable(op, acc, c)
    modifies acc
    ensures acc.Valid(c) && |old(acc.exact)| <= |c.q| && Shape(old(acc.exact), c.n)
    ensures acc.exact == old(Next(acc.exact, op, acc, c))
  {
    hide RowsOk, Sum, Negated, PlainSum, Accepted, Shape;
    ExactShape(acc, c);
    if (op.Add? || op.Sub?) && op.ct != acc { ExactShape(op.ct, c); }
    var ok;
    match op
    case AddLazy(r, k) => ok := acc.AddLazyInplace(r, k, c);
    case SubLazy(r, k) => ok := acc.SubLazyInplace(r, k, c);
    case Add(o) => ok := acc.AddInplace(o, c);
    case Sub(o) => ok := acc.SubInplace(o, c);
    case Negate => ok := acc.NegateInplace(c);
    case AddPlain(plain) => ok := acc.AddPlainInplace(plain, c);
    case SubPlain(plain) => ok := acc.SubPlainInplace(plain, c);
    case Reduce => acc.Reduce(c);
  }

  /** Every run, including calls that throw, keeps the invariant and computes the exact signed sum. */
  method Execute(acc: LWECt, ops: seq<Op>, c: Context)
    requires c.Valid() && acc.Valid(c) && forall op :: op in ops ==> Callable(op, acc, c)
    modifies acc
    ensures acc.Valid(c) && |old(acc.exact)| <= |c.q| && Shape(old(acc.exact), c.n)
    ensures acc.exact == old(Run(acc.exact, ops, acc, c))
  {
    hide RowsOk, Shape;
    ExactShape(acc, c);
    assert ops[..0] == [];
    for i := 0 to |ops|
      invariant acc.Valid(c) && acc.exact == old(Run(acc.exact, ops[..i], acc, c))
    {
      assert ops[i] in ops;
      assert ops[..i + 1][..i] == ops[..i] && ops[..i + 1][i] == ops[i];
      ghost var e := acc.exact;
      ExactShape(acc, c);
      assert Next(e, ops[i], acc, c) == old(Next(e, ops[i], acc, c));
      Step(acc, ops[i], c);
      assert old(Run(acc.exact, ops[..i + 1], acc, c)) == old(Next(e, ops[i], acc, c));
    }
    assert ops[..|ops|] == ops;
  }

  // ------------------------------------------------------------------ meaning

  /** Every word of a valid accumulator fits 64 bits, is within its budget, and is right modulo q. */
  lemma WordsFit(acc: LWECt, c: Context, l: nat)
    requires c.Valid() && acc.Valid(c) && l < |acc.exact|
    ensures acc.lazyCounter <= acc.maximumLazy && acc.cnst[l] < Budget(acc.lazyCounter, c.q[l]) <= Pow(2, 64)
    ensures forall i :: 0 <= i < c.n ==> 0 <= acc.vec[l][i] < Budget(acc.lazyCounter, c.q[l])
  {
    hide Cong, Budget, Pow;
    MaximumPositive(c);
    BudgetFits(c, l, MaximumLazy(c.q) - 1);
    BudgetMonotone(acc.lazyCounter, MaximumLazy(c.q), c.q[l]);
  }

  /** The stored words decrypt to the phase of the exact samples. */
  lemma WordsPhase(acc: LWECt, c: Context, l: nat, s: seq<int>)
    requires acc.Valid(c) && l < |acc.exact| && |s| == c.n
    ensures |acc.vec[l]| == c.n
    ensures Cong(Dot(acc.vec[l], s, c.n) + acc.cnst[l], acc.exact[l].Phase(s), c.q[l])
  {
    hide Cong, Budget;
    var q, e := c.q[l], acc.exact[l];
    assert RowOk(acc.vec[l], acc.cnst[l], e, acc.lazyCounter, q);
    DotCong(acc.vec[l], e.vec, s, c.n, q);
    CongAdd(Dot(acc.vec[l], s, c.n), Dot(e.vec, s, c.n), acc.cnst[l], e.cnst, q);
  }

  /** What an accumulator means at modulus l for secret s: its level, 0 when empty, and its phase. */
  datatype Total = Total(level: nat, phase: int)

  function Meaning(e: seq<Exact>, l: nat, s: seq<int>): Total
    requires Shape(e, |s|)
  {
    Total(|e|, if l < |e| then e[l].Phase(s) else 0)
  }

  /** Coefficient k of the phase polynomial b + a*s. */
  function Coefficient(r: Rlwe, k: nat, l: nat, s: seq<int>, c: Context): Total
    requires r.Extractable(k, c) && |s| == c.n
  {
    Total(r.Level(),
          if l < r.Level() then Negacyclic.Add(r.polys[0][l], Negacyclic.Mul(r.polys[1][l], s))[k] else 0)
  }

  /** x times o joins t: an empty accumulator takes o's level, any other refuses a different one. */
  function Joined(t: Total, x: int, o: Total): Total
  {
    if t.level == 0 || o.level == t.level then Total(o.level, t.phase + x * o.phase) else t
  }

  function WithPlain(t: Total, x: int, plain: seq<int>, l: nat, c: Context): Total
  {
    if t.level == 0 || |plain| != t.level || t.level != |c.q| || l >= Accepted(plain, c.q) then t
    else Total(t.level, t.phase + x * plain[l])
  }

  /** An operation on meanings: numbers instead of samples. */
  ghost function NextTotal(t: Total, op: Op, acc: LWECt, c: Context, l: nat, s: seq<int>): Total
    requires |s| == c.n && Callable(op, acc, c)
    reads Operands(op, acc)
  {
    match op
    case AddLazy(r, k) => if r.Extractable(k, c) then Joined(t, 1, Coefficient(r, k, l, s, c)) else t
    case SubLazy(r, k) => if r.Extractable(k, c) then Joined(t, -1, Coefficient(r, k, l, s, c)) else t
    case Add(o) => NextEagerTotal(t, 1, o, acc, c, l, s)
    case Sub(o) => NextEagerTotal(t, -1, o, acc, c, l, s)
    case Negate => Total(t.level, -t.phase)
    case AddPlain(plain) => WithPlain(t, 1, plain, l, c)
    case SubPlain(plain) => WithPlain(t, -1, plain, l, c)
    case Reduce => t
  }

  ghost function NextEagerTotal(t: Total, x: int, o: LWECt, acc: LWECt, c: Context, l: nat, s: seq<int>): Total
    requires |s| == c.n && (o == acc || o.Valid(c))
    reads if o == acc then {} else {o}
  {
    if o == acc then Joined(t, x, t)
    else if t.level == 0 || o.lazyCounter == 0 then
      ExactShape(o, c);
      Joined(t, x, Meaning(o.exact, l, s))
    else t
  }

  lemma SumPhase(e: seq<Exact>, x: int, f: seq<Exact>, n: nat, l: nat, s: seq<int>)
    requires |e| == |f| && Shape(e, n) && Shape(f, n) && l < |e| && |s| == n
    ensures Sum(e, x, f, n)[l].Phase(s) == e[l].Phase(s) + x * f[l].Phase(s)
  {
    PhaseLinear(e[l], f[l], x, s);
  }

  lemma {:induction false} DotNegated(a: seq<int>, s: seq<int>, j: nat)
    requires |a| == |s| && j <= |a|
    ensures Dot(Negacyclic.Scale(-1, a), s, j) == -Dot(a, s, j)
  {
    if j > 0 { DotNegated(a, s, j - 1); }
  }

  lemma NegatedMeaning(e: seq<Exact>, l: nat, s: seq<int>)
    requires Shape(e, |s|)
    ensures Meaning(Negated(e, |s|), l, s) == Total(|e|, -Meaning(e, l, s).phase)
  {
    if l < |e| { DotNegated(e[l].vec, s, |s|); }
  }

  /** Signed copies and sums of samples mean what Joined says. */
  lemma JoinedMeaning(e: seq<Exact>, x: int, f: seq<Exact>, l: nat, s: seq<int>)
    requires Shape(e, |s|) && Shape(f, |s|) && (x == 1 || x == -1) && (e == [] || |e| == |f|)
    ensures Meaning(if e == [] then Signed(x, f, |s|) else Sum(e, x, f, |s|), l, s)
         == Joined(Meaning(e, l, s), x, Meaning(f, l, s))
  {
    if e == [] {
      if x == -1 { NegatedMeaning(f, l, s); }
    } else if l < |e| {
      SumPhase(e, x, f, |s|, l, s);
    }
  }

  lemma ExtractedMeaning(r: Rlwe, k: nat, l: nat, s: seq<int>, c: Context)
    requires r.Extractable(k, c) && |s| == c.n
    ensures Meaning(r.Extracted(k, c), l, s) == Coefficient(r, k, l, s, c)
  {
    if l < r.Level() { ExtractCorrect(r.polys[0][l], r.polys[1][l], k, s); }
  }

  lemma EagerMeaning(e: seq<Exact>, x: int, o: LWECt, acc: LWECt, c: Context, l: nat, s: seq<int>)
    requires Shape(e, c.n) && |e| <= |c.q| && |s| == c.n && (o == acc || o.Valid(c)) && (x == 1 || x == -1)
    ensures o != acc ==> Shape(o.exact, c.n) && |o.exact| <= |c.q|
    ensures Meaning(if o == acc then NextEager(e, x, e, true, c)
                    else NextEager(e, x, o.exact, o.lazyCounter == 0, c), l, s)
         == NextEagerTotal(Meaning(e, l, s), x, o, acc, c, l, s)
  {
    if o != acc { ExactShape(o, c); }
    hide LWECt.Valid, Signed, Sum, Joined;
    var f := if o == acc then e else o.exact;
    if e == [] || |e| == |f| { JoinedMeaning(e, x, f, l, s); }
    JoinedRefuses(Meaning(e, l, s), x, Meaning(f, l, s));
  }

  lemma JoinedRefuses(t: Total, x: int, o: Total)
    ensures t.level != 0 && o.level != t.level ==> Joined(t, x, o) == t
  {
  }

  lemma LazyMeaning(e: seq<Exact>, x: int, r: Rlwe, k: nat, c: Context, l: nat, s: seq<int>)
    requires Shape(e, c.n) && |e| <= |c.q| && |s| == c.n && (x == 1 || x == -1) && r.Extractable(k, c)
    ensures Meaning(NextLazy(e, x, r, k, c), l, s) == Joined(Meaning(e, l, s), x, Coefficient(r, k, l, s, c))
  {
    hide Signed, Sum, Rlwe.Extracted;
    ExtractedMeaning(r, k, l, s, c);
    if e == [] || |e| == r.Level() { JoinedMeaning(e, x, r.Extracted(k, c), l, s); }
  }

  lemma PlainMeaning(e: seq<Exact>, x: int, plain: seq<int>, c: Context, l: nat, s: seq<int>)
    requires Shape(e, c.n) && |e| <= |c.q| && |s| == c.n
    ensures Meaning(NextPlain(e, x, plain, c), l, s) == WithPlain(Meaning(e, l, s), x, plain, l, c)
  {
  }

  /** Every operation, refused calls and self-addition included, acts on the meaning as NextTotal says. */
  lemma NextMeaning(e: seq<Exact>, op: Op, acc: LWECt, c: Context, l: nat, s: seq<int>)
    requires Shape(e, c.n) && |e| <= |c.q| && |s| == c.n && Callable(op, acc, c)
    ensures Meaning(Next(e, op, acc, c), l, s) == NextTotal(Meaning(e, l, s), op, acc, c, l, s)
  {
    hide NextLazy, NextEager, NextPlain, WithPlain, NextEagerTotal, Coefficient, LWECt.Valid, Rlwe.Reduced;
    match op
    case AddLazy(r, k) =>
      if r.Extractable(k, c) { LazyMeaning(e, 1, r, k, c, l, s); } else { LazyRefused(e, 1, r, k, c); }
    case SubLazy(r, k) =>
      if r.Extractable(k, c) { LazyMeaning(e, -1, r, k, c, l, s); } else { LazyRefused(e, -1, r, k, c); }
    case Add(o) => EagerMeaning(e, 1, o, acc, c, l, s);
    case Sub(o) => EagerMeaning(e, -1, o, acc, c, l, s);
    case Negate => NegatedMeaning(e, l, s);
    case AddPlain(plain) => PlainMeaning(e, 1, plain, c, l, s);
    case SubPlain(plain) => PlainMeaning(e, -1, plain, c, l, s);
    case Reduce =>
  }

  lemma LazyRefused(e: seq<Exact>, x: int, r: Rlwe, k: nat, c: Context)
    requires Shape(e, c.n) && |e| <= |c.q|
    ensures !r.Extractable(k, c) ==> NextLazy(e, x, r, k, c) == e
  {
  }

  lemma PlainPhase(e: seq<Exact>, x: int, plain: seq<int>, m: nat, l: nat, s: seq<int>)
    requires m <= |e| == |plain| && Shape(e, |s|) && l < |e|
    ensures |PlainSum(e, x, plain, m)[l].vec| == |s|
    ensures PlainSum(e, x, plain, m)[l].Phase(s) == e[l].Phase(s) + if l < m then x * plain[l] else 0
  {
  }

  /** What one accepted call does to the phase at modulus l, in plain terms. */
  lemma OperationMeans(e: seq<Exact>, op: Op, acc: LWECt, c: Context, l: nat, s: seq<int>)
    requires Shape(e, c.n) && l < |e| <= |c.q| && |s| == c.n && Callable(op, acc, c)
    ensures |Next(e, op, acc, c)| == |e|
    ensures var f := Next(e, op, acc, c);
            match op
            case AddLazy(r, k) => r.Extractable(k, c) && r.Level() == |e| ==>
              f[l].Phase(s) == e[l].Phase(s) + Negacyclic.Add(r.polys[0][l], Negacyclic.Mul(r.polys[1][l], s))[k]
            case SubLazy(r, k) => r.Extractable(k, c) && r.Level() == |e| ==>
              f[l].Phase(s) == e[l].Phase(s) - Negacyclic.Add(r.polys[0][l], Negacyclic.Mul(r.polys[1][l], s))[k]
            case Add(o) =>
              if o == acc then f[l].Phase(s) == 2 * e[l].Phase(s)
              else o.lazyCounter == 0 && |o.exact| == |e| ==>
                |o.exact[l].vec| == |s| && f[l].Phase(s) == e[l].Phase(s) + o.exact[l].Phase(s)
            case Sub(o) =>
              if o == acc then f[l].Phase(s) == 0
              else o.lazyCounter == 0 && |o.exact| == |e| ==>
                |o.exact[l].vec| == |s| && f[l].Phase(s) == e[l].Phase(s) - o.exact[l].Phase(s)
            case Negate => f[l].Phase(s) == -e[l].Phase(s)
            case AddPlain(plain) => |plain| == |e| == |c.q| && Accepted(plain, c.q) == |plain| ==>
              f[l].Phase(s) == e[l].Phase(s) + plain[l]
            case SubPlain(plain) => |plain| == |e| == |c.q| && Accepted(plain, c.q) == |plain| ==>
              f[l].Phase(s) == e[l].Phase(s) - plain[l]
            case Reduce => f[l].Phase(s) == e[l].Phase(s)
  {
    hide Negacyclic.Add, Negacyclic.Mul, PlainSum, Sum, Negated, Rlwe.Extracted;
    match op
    case AddLazy(r, k) => LazyStep(e, 1, r, k, c, l, s);
    case SubLazy(r, k) => LazyStep(e, -1, r, k, c, l, s);
    case Add(o) => EagerStep(e, 1, o, acc, c, l, s);
    case Sub(o) => EagerStep(e, -1, o, acc, c, l, s);
    case Negate => NegatedPhase(e, l, s);
    case AddPlain(plain) => PlainStep(e, 1, plain, c, l, s);
    case SubPlain(plain) => PlainStep(e, -1, plain, c, l, s);
    case Reduce =>
  }

  lemma NegatedPhase(e: seq<Exact>, l: nat, s: seq<int>)
    requires Shape(e, |s|) && l < |e|
    ensures Negated(e, |s|)[l].Phase(s) == -e[l].Phase(s)
  {
    DotNegated(e[l].vec, s, |s|);
  }

  lemma LazyStep(e: seq<Exact>, x: int, r: Rlwe, k: nat, c: Context, l: nat, s: seq<int>)
    requires Shape(e, c.n) && l < |e| <= |c.q| && |s| == c.n
    ensures |NextLazy(e, x, r, k, c)| == |e|
    ensures r.Extractable(k, c) && r.Level() == |e| ==>
              NextLazy(e, x, r, k, c)[l].Phase(s)
                == e[l].Phase(s) + x * Negacyclic.Add(r.polys[0][l], Negacyclic.Mul(r.polys[1][l], s))[k]
  {
    hide Negacyclic.Add, Negacyclic.Mul;
    if r.Extractable(k, c) && r.Level() == |e| {
      SumPhase(e, x, r.Extracted(k, c), c.n, l, s);
      ExtractCorrect(r.polys[0][l], r.polys[1][l], k, s);
    }
  }

  lemma EagerStep(e: seq<Exact>, x: int, o: LWECt, acc: LWECt, c: Context, l: nat, s: seq<int>)
    requires Shape(e, c.n) && l < |e| <= |c.q| && |s| == c.n && (o == acc || o.Valid(c))
    ensures |NextEager(e, x, e, true, c)| == |e|
    ensures NextEager(e, x, e, true, c)[l].Phase(s) == e[l].Phase(s) + x * e[l].Phase(s)
    ensures o != acc ==> Shape(o.exact, c.n) && |o.exact| <= |c.q|
                         && |NextEager(e, x, o.exact, o.lazyCounter == 0, c)| == |e|
    ensures o != acc && o.lazyCounter == 0 && |o.exact| == |e| ==>
              |o.exact[l].vec| == |s|
              && NextEager(e, x, o.exact, true, c)[l].Phase(s) == e[l].Phase(s) + x * o.exact[l].Phase(s)
  {
    SumPhase(e, x, e, c.n, l, s);
    if o != acc {
      ExactShape(o, c);
      if o.lazyCounter == 0 && |o.exact| == |e| { SumPhase(e, x, o.exact, c.n, l, s); }
    }
  }

  lemma PlainStep(e: seq<Exact>, x: int, plain: seq<int>, c: Context, l: nat, s: seq<int>)
    requires Shape(e, c.n) && l < |e| <= |c.q| && |s| == c.n
    ensures |NextPlain(e, x, plain, c)| == |e|
    ensures |plain| == |e| == |c.q| && Accepted(plain, c.q) == |plain| ==>
              NextPlain(e, x, plain, c)[l].Phase(s) == e[l].Phase(s) + x * plain[l]
  {
    if |plain| == |e| == |c.q| { PlainPhase(e, x, plain, Accepted(plain, c.q), l, s); }
  }

  ghost function RunTotal(t: Total, ops: seq<Op>, acc: LWECt, c: Context, l: nat, s: seq<int>): Total
    requires |s| == c.n && forall op :: op in ops ==> Callable(op, acc, c)
    reads set op, o | op in ops && o in Operands(op, acc) :: o
  {
    if ops == [] then t else NextTotal(RunTotal(t, ops[..|ops| - 1], acc, c, l, s), ops[|ops| - 1], acc, c, l, s)
  }

  /** What any run decrypts to: the signed sum, in order, of the coefficients, ciphertexts and plaintexts that its
      calls accepted. */
  lemma {:induction false} RunPhase(e: seq<Exact>, ops: seq<Op>, acc: LWECt, c: Context, l: nat, s: seq<int>)
    requires Shape(e, c.n) && |e| <= |c.q| && |s| == c.n && forall op :: op in ops ==> Callable(op, acc, c)
    ensures Meaning(Run(e, ops, acc, c), l, s) == RunTotal(Meaning(e, l, s), ops, acc, c, l, s)
  {
    hide Next, NextTotal, Callable;
    if ops != [] {
      var last, rest := ops[|ops| - 1], ops[..|ops| - 1];
      assert forall op :: op in rest ==> op in ops;
      assert last in ops;
      RunPhase(e, rest, acc, c, l, s);
      NextMeaning(Run(e, rest, acc, c), last, acc, c, l, s);
    }
  }
}
