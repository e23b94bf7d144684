/** The p-adic lifting step of Damgard-Jurik decryption, one prime at a time.

    LogSeries(n, x, s) is ((1+n)^x - 1) / n truncated at s terms.  Given its residue ls modulo p^s,
    the decryptor recovers x one power of p at a time. */
module Lifting {
  import opened Arith
  import opened NumberTheory
  import opened BigNum

  function LogSeries(n: int, x: int, s: nat): int
  {
    if s == 0 then 0 else LogSeries(n, x, s - 1) + Binom(x, s) * Pow(n, s - 1)
  }

  lemma {:induction false} SeriesLog(n: int, x: int, s: nat)
    ensures Series(n, x, s) == 1 + n * LogSeries(n, x, s)
  {
    if s > 0 {
      SeriesLog(n, x, s - 1);
      assert Pow(n, s) == n * Pow(n, s - 1);
      LogArith(n, LogSeries(n, x, s - 1), Binom(x, s), Pow(n, s - 1));
    }
  }

  lemma LogArith(n: int, l: int, b: int, y: int)
    ensures 1 + n * l + b * (n * y) == 1 + n * (l + b * y)
  {
  }

  lemma LogSeriesOne(n: int, x: int)
    ensures LogSeries(n, x, 1) == x
  {
    BinomAbsorb(x, 1);
    assert Pow(n, 0) == 1;
    assert LogSeries(n, x, 0) == 0;
  }

  /** Terms beyond the j-th vanish modulo n^j. */
  lemma {:induction false} LogTruncate(n: int, x: int, s: nat, j: nat)
    requires j <= s
    ensures Cong(LogSeries(n, x, s), LogSeries(n, x, j), Pow(n, j))
  {
    hide Cong;
    var m := Pow(n, j);
    if s == j {
      CongRefl(LogSeries(n, x, j), m);
    } else {
      LogTruncate(n, x, s - 1, j);
      PowAdd(n, s - 1 - j, j);
      var t := Binom(x, s) * Pow(n, s - 1 - j);
      assert Binom(x, s) * Pow(n, s - 1) == t * m;
      CongMultiple(m, t);
      CongAdd(LogSeries(n, x, s - 1), LogSeries(n, x, j), t * m, 0, m);
    }
  }

  /** Dividing z - 1 by p exactly and multiplying by q^-1 turns the series into its logarithm. */
  lemma TakeLog(z: int, x: int, n: int, p: int, q: int, i: int, s: nat)
    requires n == p * q && p > 0 && Cong(q * i, 1, Pow(p, s))
    requires Cong(z, Series(n, x, s), Pow(p, s + 1))
    ensures Cong(i * TruncDiv(z - 1, p), LogSeries(n, x, s), Pow(p, s))
  {
    SeriesLog(n, x, s);
    var l, m := LogSeries(n, x, s), Pow(p, s);
    var k :| z == Series(n, x, s) + k * Pow(p, s + 1);
    var a := q * l + k * m;
    assert z - 1 == a * p by { LogSplit(p, q, l, k, m); }
    TruncDivExact(a, p);
    CongIntro(a, q * l, m, k);
    UndoFactor(a, l, q, i, m);
  }

  lemma LogSplit(p: int, q: int, l: int, k: int, m: int)
    ensures (p * q) * l + k * (p * m) == (q * l + k * m) * p
  {
  }

  lemma UndoFactor(a: int, l: int, q: int, i: int, m: int)
    requires Cong(a, q * l, m) && Cong(q * i, 1, m)
    ensures Cong(i * a, l, m)
  {
    hide Cong;
    CongRefl(i, m);
    CongMul(i, i, a, q * l, m);
    CongRefl(l, m);
    CongMul(q * i, 1, l, l, m);
    assert i * (q * l) == (q * i) * l;
    CongTrans(i * a, i * (q * l), l, m);
  }

  lemma {:induction false} CongFalling(a: int, x: int, k: nat, m: int)
    requires Cong(a, x, m)
    ensures Cong(Falling(a, k), Falling(x, k), m)
  {
    hide Cong;
    if k == 0 {
      CongRefl(1, m);
    } else {
      CongFalling(a, x, k - 1, m);
      CongRefl(k - 1, m);
      CongSub(a, x, k - 1, k - 1, m);
      CongMul(Falling(a, k - 1), Falling(x, k - 1), a - (k - 1), x - (k - 1), m);
    }
  }

  lemma {:induction false} FactUnit(i: nat, m: int)
    requires forall k :: 1 <= k <= i ==> Unit(k, m)
    ensures Unit(Fact(i), m)
  {
    if i == 0 {
      CongIntro(1 * 1, 1, m, 0);
      UnitIntro(1, 1, m);
    } else {
      FactUnit(i - 1, m);
      UnitMul(i, Fact(i - 1), m);
    }
  }

  /** A falling factorial known modulo p^e only, times n^d/i!, is a binomial term modulo p^(e+d). */
  lemma TermLifts(t: int, x: int, pre: int, i: nat, n: int, p: int, q: int, d: nat, e: nat)
    requires n == p * q && Unit(Fact(i), Pow(p, e + d))
    requires Cong(t, Falling(x, i), Pow(p, e))
    requires Cong(pre * Fact(i), Pow(n, d), Pow(p, e + d))
    ensures Cong(t * pre, Binom(x, i) * Pow(n, d), Pow(p, e + d))
  {
    hide Cong, Pow, Fact, Falling, Binom, Unit;
    FactBinom(x, i);
    PowOfProduct(p, q, d);
    PowAdd(p, e, d);
    Swap3(Pow(p, d), Pow(q, d), Pow(p, e));
    TermArith(t, Fact(i), Binom(x, i), pre, Pow(n, d), Pow(p, e), Pow(q, d), Pow(p, e + d));
  }

  lemma TermArith(t: int, f: int, b: int, pre: int, y: int, pe: int, qd: int, m: int)
    requires Unit(f, m) && y * pe == qd * m
    requires Cong(t, f * b, pe) && Cong(pre * f, y, m)
    ensures Cong(t * pre, b * y, m)
  {
    hide Cong, Unit;
    CongRefl(t, m);
    CongMul(t, t, pre * f, y, m);
    CongScale(t, f * b, pe, y);
    CongWeaken(y * t, y * (f * b), m, qd);
    Swap(t, pre, f);
    Swap(y, f, b);
    CongTrans(t * (pre * f), y * t, y * (f * b), m);
    assert t * (pre * f) == f * (t * pre);
    CongCancel(f, t * pre, b * y, m);
  }

  lemma Swap3(a: int, b: int, c: int)
    ensures (a * b) * c == b * (c * a)
  {
  }

  // ------------------------------------------------------------------ loop invariants

  /** n is the product of the two positive numbers p and q. */
  ghost predicate Splits(n: int, p: int, q: int)
  {
    n == p * q && p > 0 && q > 0
  }

  /** ind agrees modulo p^e with every x whose logarithm is ls. */
  ghost predicate Recovered(ls: int, n: int, p: int, s: nat, ind: int, e: nat)
  {
    forall x: int :: Cong(ls, LogSeries(n, x, s), Pow(p, s)) ==> Cong(ind, x, Pow(p, e))
  }

  /** The state of the inner loop before term i of round j. */
  ghost predicate InRound(ls: int, n: int, p: int, s: nat, tmp: int, l: int, i: nat, j: nat)
    requires 1 <= i <= j + 1
  {
    forall x: int :: Cong(ls, LogSeries(n, x, s), Pow(p, s)) ==>
      && Cong(tmp, Falling(x, i - 1), Pow(p, j - i + 1))
      && Cong(l + LogSeries(n, x, i - 1), x + LogSeries(n, x, j), Pow(p, j))
  }

  /** The table entry n^(i-1)/i! modulo p^s. */
  ghost predicate TermFactor(pre: int, i: nat, n: int, p: int, s: nat)
    requires i > 0
  {
    Cong(pre * Fact(i), Pow(n, i - 1), Pow(p, s))
  }

  lemma LogAt(ls: int, x: int, n: int, p: int, q: int, s: nat, j: nat)
    requires n == p * q && j <= s && Cong(ls, LogSeries(n, x, s), Pow(p, s))
    ensures Cong(ls, LogSeries(n, x, j), Pow(p, j))
  {
    hide Cong;
    CongPowWeaken(ls, LogSeries(n, x, s), p, j, s);
    LogTruncate(n, x, s, j);
    ModPrimePower(LogSeries(n, x, s), LogSeries(n, x, j), n, p, q, j);
    CongTrans(ls, LogSeries(n, x, s), LogSeries(n, x, j), Pow(p, j));
  }

  lemma FirstDigit(ls: int, n: int, p: int, q: int, s: nat)
    requires Splits(n, p, q) && s >= 1
    ensures Recovered(ls, n, p, s, ls % p, 1)
  {
    hide Cong;
    forall x: int | Cong(ls, LogSeries(n, x, s), Pow(p, s))
      ensures Cong(ls % p, x, Pow(p, 1))
    {
      LogAt(ls, x, n, p, q, s, 1);
      LogSeriesOne(n, x);
      assert Pow(p, 1) == p * Pow(p, 0) == p;
      CongMod(ls, p);
      CongTrans(ls % p, ls, x, p);
    }
  }

  lemma RoundStart(ls: int, n: int, p: int, q: int, s: nat, ind: int, j: nat)
    requires Splits(n, p, q) && 2 <= j <= s && Recovered(ls, n, p, s, ind, j - 1)
    ensures InRound(ls, n, p, s, ind, ls % Pow(p, j), 2, j)
  {
    hide Cong;
    forall x: int | Cong(ls, LogSeries(n, x, s), Pow(p, s))
      ensures Cong(ind, Falling(x, 1), Pow(p, j - 1))
      ensures Cong(ls % Pow(p, j) + LogSeries(n, x, 1), x + LogSeries(n, x, j), Pow(p, j))
    {
      assert Falling(x, 1) == Falling(x, 0) * x == x;
      LogSeriesOne(n, x);
      var m := Pow(p, j);
      LogAt(ls, x, n, p, q, s, j);
      CongMod(ls, m);
      CongTrans(ls % m, ls, LogSeries(n, x, j), m);
      CongRefl(x, m);
      CongAdd(ls % m, LogSeries(n, x, j), x, x, m);
    }
  }

  /** One pass of the inner loop body. */
  lemma RoundStep(ls: int, n: int, p: int, q: int, s: nat, ind: int, tmp: int, l: int, pre: int, i: nat, j: nat,
                  tmp': int, l': int)
    requires Splits(n, p, q) && 2 <= i <= j <= s
    requires forall k :: 1 <= k <= s ==> Unit(k, p)
    requires Recovered(ls, n, p, s, ind, j - 1) && InRound(ls, n, p, s, tmp, l, i, j)
    requires TermFactor(pre, i, n, p, s)
    requires tmp' == ModMul(tmp, ind - (i - 1), Pow(p, j - i + 1))
    requires l' == l - ModMul(tmp', pre, Pow(p, j))
    ensures InRound(ls, n, p, s, tmp', l', i + 1, j)
  {
    hide Cong;
    forall x: int | Cong(ls, LogSeries(n, x, s), Pow(p, s))
      ensures Cong(tmp', Falling(x, i), Pow(p, j - i))
      ensures Cong(l' + LogSeries(n, x, i), x + LogSeries(n, x, j), Pow(p, j))
    {
      TermStep(x, n, p, q, s, ind, tmp, pre, i, j, tmp');
      var m, d, t := Pow(p, j), ModMul(tmp', pre, Pow(p, j)), Binom(x, i) * Pow(n, i - 1);
      CongTrans(d, tmp' * pre, t, m);
      CongSub(l + LogSeries(n, x, i - 1), x + LogSeries(n, x, j), d, t, m);
      CongRefl(t, m);
      CongAdd(l + LogSeries(n, x, i - 1) - d, x + LogSeries(n, x, j) - t, t, t, m);
    }
  }

  lemma TermStep(x: int, n: int, p: int, q: int, s: nat, ind: int, tmp: int, pre: int, i: nat, j: nat, tmp': int)
    requires Splits(n, p, q) && 2 <= i <= j <= s
    requires forall k :: 1 <= k <= s ==> Unit(k, p)
    requires Cong(ind, x, Pow(p, j - 1)) && Cong(tmp, Falling(x, i - 1), Pow(p, j - i + 1))
    requires TermFactor(pre, i, n, p, s)
    requires tmp' == ModMul(tmp, ind - (i - 1), Pow(p, j - i + 1))
    ensures Cong(tmp', Falling(x, i), Pow(p, j - i))
    ensures Cong(tmp' * pre, Binom(x, i) * Pow(n, i - 1), Pow(p, j))
  {
    hide Cong;
    var e := j - i + 1;
    var m := Pow(p, e);
    CongPowWeaken(ind, x, p, e, j - 1);
    CongRefl(i - 1, m);
    CongSub(ind, x, i - 1, i - 1, m);
    CongMul(tmp, Falling(x, i - 1), ind - (i - 1), x - (i - 1), m);
    CongTrans(tmp', tmp * (ind - (i - 1)), Falling(x, i), m);
    CongPowWeaken(tmp', Falling(x, i), p, j - i, e);
    CongPowWeaken(pre * Fact(i), Pow(n, i - 1), p, j, s);
    FactUnit(i, p);
    UnitModPow(Fact(i), p, j);
    TermLifts(tmp', x, pre, i, n, p, q, i - 1, e);
  }

  lemma RoundEnd(ls: int, n: int, p: int, s: nat, tmp: int, l: int, j: nat)
    requires p > 0 && InRound(ls, n, p, s, tmp, l, j + 1, j)
    ensures Recovered(ls, n, p, s, l % Pow(p, j), j)
  {
    hide Cong;
    forall x: int | Cong(ls, LogSeries(n, x, s), Pow(p, s))
      ensures Cong(l % Pow(p, j), x, Pow(p, j))
    {
      var m, g := Pow(p, j), LogSeries(n, x, j);
      CongRefl(g, m);
      CongSub(l + g, x + g, g, g, m);
      CongMod(l, m);
      CongTrans(l % m, l, x, m);
    }
  }
}
