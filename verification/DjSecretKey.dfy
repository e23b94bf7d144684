/** The Damgard-Jurik secret key: its tables, and decryption by p-adic lifting and remaindering. */
module DjSecretKey {
  import opened Arith
  import opened NumberTheory
  import opened BigNum
  import opened Lifting
  import Encryption

  datatype MPInt2 = MPInt2(P: int, Q: int)

  function Modulus(n: MPInt2): int
  {
    n.P * n.Q
  }

  function Lambda(n: MPInt2): int
  {
    (n.P - 1) * (n.Q - 1) / 2
  }

  /** What key generation provides: distinct odd primes above s, lambda invertible modulo n. */
  ghost predicate GoodPrimes(n: MPInt2, s: nat)
  {
    && IsPrime(n.P) && IsPrime(n.Q) && n.P != n.Q && n.P % 2 == 1 && n.Q % 2 == 1
    && 1 <= s && s < n.P && s < n.Q
    && Unit(Lambda(n), Modulus(n))
  }

  ghost predicate Shaped(table: seq<seq<MPInt2>>, s: nat)
  {
    |table| == s + 1 && forall j :: 2 <= j <= s ==> |table[j]| == j + 1
  }

  class SecretKey {
    var n: MPInt2 // (p, q)
    var lambda: int
    var mu: int
    var pmod: int
    var s: nat
    var pp: int
    var invPQ: MPInt2
    var pqPow: seq<MPInt2>
    var precomp: seq<seq<MPInt2>>

    constructor () {}

    /** Everything but the table of n^(i-1)/i!. */
    ghost predicate Keyed()
      reads this
    {
      && GoodPrimes(n, s) && n.P > 0 && n.Q > 0 && s >= 1
      && Modulus(n) > 1
      && lambda == Lambda(n) >= 0
      && pmod == Pow(Modulus(n), s) > 0
      && Cong(lambda * mu, 1, pmod)
      && Cong(n.Q * invPQ.P, 1, Pow(n.P, s)) && Cong(n.P * invPQ.Q, 1, Pow(n.Q, s))
      && Cong(pp, 0, Pow(n.P, s)) && Cong(pp, 1, Pow(n.Q, s))
      && |pqPow| == s + 2
      && (forall j :: 1 <= j <= s + 1 ==> pqPow[j] == MPInt2(Pow(n.P, j), Pow(n.Q, j)))
    }

    /** Only the entries 2 <= i <= j are read by Decrypt. */
    ghost predicate Valid()
      reads this
    {
      && Keyed()
      && Shaped(precomp, s)
      && (forall j, i :: 2 <= i <= j <= s ==> FactorPair(precomp[j][i], i, n, s))
    }

    method Init(p: int, q: int, s: nat)
      requires GoodPrimes(MPInt2(p, q), s)
      modifies this
      ensures Valid()
      ensures n == MPInt2(p, q) && this.s == s
    {
      hide Cong, Unit, Pow, IsPrime, FactorPair, Fact, ModMul, InvMod, GoodPrimes, Modulus, Lambda;
      n := MPInt2(p, q);
      this.s := s;
      PrimeFacts(n, s);
      var m := Modulus(n);
      pmod := Pow(m, s);
      lambda := Lambda(n);
      UnitModPow(lambda, m, s);
      mu := InvMod(lambda, pmod);

      pqPow := seq(s + 2, _ => MPInt2(0, 0));
      pqPow := pqPow[1 := MPInt2(p, q)];
      PowFirst(p);
      PowFirst(q);
      var i := 2;
      while i <= s + 1
        invariant 2 <= i <= s + 2 && |pqPow| == s + 2
        invariant forall j :: 1 <= j < i ==> pqPow[j] == MPInt2(Pow(p, j), Pow(q, j))
        invariant n == MPInt2(p, q) && this.s == s && pmod == Pow(m, s)
        invariant lambda == Lambda(n) && Cong(lambda * mu, 1, pmod)
      {
        PowLast(p, i - 1);
        PowLast(q, i - 1);
        pqPow := pqPow[i := MPInt2(pqPow[i - 1].P * p, pqPow[i - 1].Q * q)];
        i := i + 1;
      }
      var ps, qs := pqPow[s].P, pqPow[s].Q;
      PrimePowersCoprime(n, s);
      pp := ps * InvMod(ps, qs);
      CongMultiple(ps, InvMod(ps, qs));
      invPQ := MPInt2(InvMod(q, ps), InvMod(p, qs));

      InitFactors(m, ps, qs);
    }

    /** The last part of Init: the table of n^(i-1)/i! modulo p^s and q^s. */
    method InitFactors(m: int, ps: int, qs: int)
      requires Keyed() && m == Modulus(n) && ps == Pow(n.P, s) && qs == Pow(n.Q, s)
      modifies this`precomp
      ensures Valid()
    {
      hide Cong, Unit, Pow, IsPrime, FactorPair, Fact, ModMul, InvMod, GoodPrimes, Modulus, Lambda;
      PrimeFacts(n, s);
      precomp := seq(s + 1, _ => []);
      var j := 2;
      while j <= s
        invariant 2 <= j
        invariant |precomp| == s + 1 && forall k :: 2 <= k < j && k <= s ==> |precomp[k]| == k + 1
      {
        precomp := precomp[j := seq(j + 1, _ => MPInt2(0, 0))];
        j := j + 1;
      }
      if s > 1 {
        precomp := precomp[s := precomp[s][1 := MPInt2(1, 1)]];
        FirstFactor(n, s);
      }
      var i := 2;
      while i <= s
        invariant 2 <= i && Shaped(precomp, s)
        invariant i <= s + 1 && s > 1 ==> FactorPair(precomp[s][i - 1], i - 1, n, s)
        invariant forall k, l :: 2 <= l <= k <= s && l < i ==> FactorPair(precomp[k][l], l, n, s)
      {
        j := i;
        while j <= s
          invariant i <= j <= s + 1 && Shaped(precomp, s)
          invariant FactorPair(precomp[s][i - 1], i - 1, n, s)
          invariant forall k, l :: 2 <= l <= k <= s && l < i ==> FactorPair(precomp[k][l], l, n, s)
          invariant forall k :: i <= k < j ==> FactorPair(precomp[k][i], i, n, s)
        {
          UnitModPow(i, n.P, s);
          UnitModPow(i, n.Q, s);
          var prev := precomp[s][i - 1];
          var entry := MPInt2(ModMul(ModMul(prev.P, m, ps), InvMod(i, ps), ps),
                              ModMul(ModMul(prev.Q, m, qs), InvMod(i, qs), qs));
          NextFactorPair(prev, entry, i, n, s);
          precomp := precomp[j := precomp[j][i := entry]];
          j := j + 1;
        }
        i := i + 1;
      }
    }

    /** z = ct^lambda, then (z - 1)/n, modulo p^s and q^s: for a ciphertext of x the logarithm series of
        x * lambda. */
    method LogResidues(ct: int) returns (ls: MPInt2)
      requires Valid()
      ensures forall x: int :: Encryption.EncryptionOf(ct, x, Modulus(n), s) ==>
                Cong(ls.P, LogSeries(Modulus(n), x * lambda, s), Pow(n.P, s))
                && Cong(ls.Q, LogSeries(Modulus(n), x * lambda, s), Pow(n.Q, s))
    {
      hide Cong, Unit, Pow, IsPrime, TermFactor, ModMul, PowMod, TruncDiv, GoodPrimes, Modulus, Lambda,
        Encryption.EncryptionOf, Splits;
      var ps1, qs1 := pqPow[s + 1].P, pqPow[s + 1].Q;
      var z := MPInt2(PowMod(ct % ps1, lambda, ps1), PowMod(ct % qs1, lambda, qs1));
      var ps, qs := pqPow[s].P, pqPow[s].Q;
      ls := MPInt2(ModMul(invPQ.P, TruncDiv(z.P - 1, n.P), ps),
                   ModMul(invPQ.Q, TruncDiv(z.Q - 1, n.Q), qs));
      PrimeFacts(n, s);
      LambdaSplits(n, s);
      forall x: int | Encryption.EncryptionOf(ct, x, Modulus(n), s)
        ensures Cong(ls.P, LogSeries(Modulus(n), x * lambda, s), Pow(n.P, s))
        ensures Cong(ls.Q, LogSeries(Modulus(n), x * lambda, s), Pow(n.Q, s))
      {
        LogOfCiphertext(ct, x, Modulus(n), n.P, n.Q, s, lambda, invPQ.P, z.P, ls.P);
        LogOfCiphertext(ct, x, Modulus(n), n.Q, n.P, s, lambda, invPQ.Q, z.Q, ls.Q);
      }
    }

    /** Round j of the lifting loop: one more power of p and of q. */
    method LiftRound(ls: MPInt2, ind: MPInt2, j: nat) returns (next: MPInt2)
      requires Valid() && 2 <= j <= s
      requires Recovered(ls.P, Modulus(n), n.P, s, ind.P, j - 1)
      requires Recovered(ls.Q, Modulus(n), n.Q, s, ind.Q, j - 1)
      ensures Recovered(ls.P, Modulus(n), n.P, s, next.P, j)
      ensures Recovered(ls.Q, Modulus(n), n.Q, s, next.Q, j)
    {
      hide Cong, Recovered, InRound, Unit, Pow, IsPrime, TermFactor, ModMul, GoodPrimes, Modulus, Lambda, Splits;
      PrimeFacts(n, s);
      ghost var nn := Modulus(n);
      var l := MPInt2(ls.P % pqPow[j].P, ls.Q % pqPow[j].Q);
      var tmp := ind;
      RoundStart(ls.P, nn, n.P, n.Q, s, ind.P, j);
      RoundStart(ls.Q, nn, n.Q, n.P, s, ind.Q, j);
      var i := 2;
      while i <= j
        invariant 2 <= i <= j + 1
        invariant InRound(ls.P, nn, n.P, s, tmp.P, l.P, i, j)
        invariant InRound(ls.Q, nn, n.Q, s, tmp.Q, l.Q, i, j)
      {
        ghost var t0, l0 := tmp, l;
        var c, f, m := pqPow[j - i + 1], precomp[j][i], pqPow[j];
        assert FactorPair(f, i, n, s);
        tmp := MPInt2(ModMul(tmp.P, ind.P - (i - 1), c.P), ModMul(tmp.Q, ind.Q - (i - 1), c.Q));
        l := MPInt2(l.P - ModMul(tmp.P, f.P, m.P), l.Q - ModMul(tmp.Q, f.Q, m.Q));
        RoundStep(ls.P, nn, n.P, n.Q, s, ind.P, t0.P, l0.P, f.P, i, j, tmp.P, l.P);
        RoundStep(ls.Q, nn, n.Q, n.P, s, ind.Q, t0.Q, l0.Q, f.Q, i, j, tmp.Q, l.Q);
        i := i + 1;
      }
      next := MPInt2(l.P % pqPow[j].P, l.Q % pqPow[j].Q);
      RoundEnd(ls.P, nn, n.P, s, tmp.P, l.P, j);
      RoundEnd(ls.Q, nn, n.Q, s, tmp.Q, l.Q, j);
    }

    /** Decrypts to the plaintext modulo n^s, for every plaintext ct is an encryption of. */
    method Decrypt(ct: int) returns (m: int)
      requires Valid()
      ensures 0 <= m < pmod
      ensures forall x: int :: Encryption.EncryptionOf(ct, x, Modulus(n), s) ==> m == x % pmod
    {
      hide Cong, Unit, Pow, IsPrime, TermFactor, Encryption.EncryptionOf, ModMul,
        GoodPrimes, Modulus, Lambda, Splits, FactorPair;
      PrimeFacts(n, s);
      ghost var nn := Modulus(n);
      var ls := LogResidues(ct);
      var ind := MPInt2(ls.P % pqPow[1].P, ls.Q % pqPow[1].Q);
      PowFirst(n.P);
      PowFirst(n.Q);
      FirstDigit(ls.P, nn, n.P, n.Q, s);
      FirstDigit(ls.Q, nn, n.Q, n.P, s);
      var j := 2;
      while j <= s
        invariant 2 <= j <= s + 1
        invariant Recovered(ls.P, nn, n.P, s, ind.P, j - 1)
        invariant Recovered(ls.Q, nn, n.Q, s, ind.Q, j - 1)
      {
        ind := LiftRound(ls, ind, j);
        j := j + 1;
      }
      var mLambda := (ind.P + (ind.Q - ind.P) * pp) % pmod;
      m := ModMul(mLambda, mu, pmod);
      forall x: int | Encryption.EncryptionOf(ct, x, nn, s)
        ensures m == x % pmod
      {
        assert Cong(ind.P, x * lambda, Pow(n.P, s)) && Cong(ind.Q, x * lambda, Pow(n.Q, s));
        PrimePowersCoprime(n, s);
        Recombine(x, nn, n.P, n.Q, s, lambda, mu, pp, ind.P, ind.Q, mLambda, m);
      }
    }
  }

  // ------------------------------------------------------------------ table entries

  ghost predicate FactorPair(f: MPInt2, i: nat, n: MPInt2, s: nat)
    requires i > 0
  {
    TermFactor(f.P, i, Modulus(n), n.P, s) && TermFactor(f.Q, i, Modulus(n), n.Q, s)
  }

  lemma PowLast(p: int, e: nat)
    ensures Pow(p, e + 1) == Pow(p, e) * p
  {
  }

  lemma PowFirst(p: int)
    ensures Pow(p, 1) == p
  {
    assert Pow(p, 0) == 1;
  }

  /** What the rest of the proofs use of the key's primes. */
  lemma PrimeFacts(n: MPInt2, s: nat)
    requires GoodPrimes(n, s)
    ensures IsPrime(n.P) && IsPrime(n.Q)
    ensures s >= 1 && n.P > 1 && n.Q > 1 && Modulus(n) > 1 && Lambda(n) >= 0 && Unit(Lambda(n), Modulus(n))
    ensures Splits(Modulus(n), n.P, n.Q) && Splits(Modulus(n), n.Q, n.P)
    ensures forall k :: 1 <= k <= s ==> Unit(k, n.P) && Unit(k, n.Q)
  {
    hide Unit;
    assert n.P > 1 && n.Q > 1;
    hide IsPrime;
    forall k | 1 <= k <= s
      ensures Unit(k, n.P) && Unit(k, n.Q)
    {
      SmallUnit(k, n.P);
      SmallUnit(k, n.Q);
    }
    ProductFacts(n.P, n.Q);
  }

  lemma ProductFacts(p: int, q: int)
    requires p > 1 && q > 1
    ensures p * q > 1 && (p - 1) * (q - 1) >= 0 && p * q == q * p
  {
    assert p * q >= p * 1;
  }

  lemma PrimePowersCoprime(n: MPInt2, s: nat)
    requires GoodPrimes(n, s)
    ensures Unit(n.Q, Pow(n.P, s)) && Unit(n.P, Pow(n.Q, s)) && Unit(Pow(n.P, s), Pow(n.Q, s))
  {
    PrimesCoprime(n.P, n.Q);
    UnitModPow(n.Q, n.P, s);
    UnitModPow(n.P, n.Q, s);
    UnitPow(n.P, s, Pow(n.Q, s));
  }

  lemma FirstFactor(n: MPInt2, s: nat)
    ensures FactorPair(MPInt2(1, 1), 1, n, s)
  {
    hide Cong;
    assert Fact(1) == 1 * Fact(0) == 1;
    CongRefl(1, Pow(n.P, s));
    CongRefl(1, Pow(n.Q, s));
  }

  lemma NextFactorPair(prev: MPInt2, f: MPInt2, i: nat, n: MPInt2, s: nat)
    requires i >= 2 && n.P > 0 && n.Q > 0 && Unit(i, Pow(n.P, s)) && Unit(i, Pow(n.Q, s))
    requires FactorPair(prev, i - 1, n, s)
    requires f.P == ModMul(ModMul(prev.P, Modulus(n), Pow(n.P, s)), InvMod(i, Pow(n.P, s)), Pow(n.P, s))
    requires f.Q == ModMul(ModMul(prev.Q, Modulus(n), Pow(n.Q, s)), InvMod(i, Pow(n.Q, s)), Pow(n.Q, s))
    ensures FactorPair(f, i, n, s)
  {
    NextFactor(prev.P, i, Modulus(n), n.P, s);
    NextFactor(prev.Q, i, Modulus(n), n.Q, s);
  }

  lemma NextFactor(prev: int, i: nat, n: int, p: int, s: nat)
    requires i >= 2 && p > 0 && Unit(i, Pow(p, s)) && TermFactor(prev, i - 1, n, p, s)
    ensures TermFactor(ModMul(ModMul(prev, n, Pow(p, s)), InvMod(i, Pow(p, s)), Pow(p, s)), i, n, p, s)
  {
    hide Cong;
    var m := Pow(p, s);
    var v := InvMod(i, m);
    var b := ModMul(prev, n, m);
    var c := ModMul(b, v, m);
    var f := Fact(i - 1);
    CongRefl(v, m);
    CongMul(b, prev * n, v, v, m);
    CongTrans(c, b * v, prev * n * v, m);
    CongRefl(i * f, m);
    CongMul(c, prev * n * v, i * f, i * f, m);
    CongRefl(n, m);
    CongMul(prev * f, Pow(n, i - 2), n, n, m);
    CongMul(prev * f * n, Pow(n, i - 2) * n, i * v, 1, m);
    assert (prev * n * v) * (i * f) == prev * f * n * (i * v) by { Reorder(prev, n, v, i, f); }
    assert Pow(n, i - 1) == n * Pow(n, i - 2);
    CongTrans(c * (i * f), (prev * n * v) * (i * f), Pow(n, i - 1), m);
  }

  lemma Reorder(w: int, n: int, v: int, i: int, f: int)
    ensures (w * n * v) * (i * f) == w * f * n * (i * v)
  {
    Regroup(w * n, v, f, i);
    assert (w * n) * f == w * f * n;
  }

  // ------------------------------------------------------------------ decryption

  lemma LambdaSplits(n: MPInt2, s: nat)
    requires GoodPrimes(n, s)
    ensures Cong(Lambda(n), 0, n.P - 1) && Cong(Lambda(n), 0, n.Q - 1)
  {
    assert n.P % 2 == 1 && n.Q % 2 == 1;
    HalvesDivide(n.P, n.Q);
  }

  lemma HalvesDivide(p: int, q: int)
    requires p % 2 == 1 && q % 2 == 1
    ensures Cong((p - 1) * (q - 1) / 2, 0, p - 1) && Cong((p - 1) * (q - 1) / 2, 0, q - 1)
  {
    hide Cong;
    var a, b := p / 2, q / 2;
    assert p - 1 == 2 * a && q - 1 == 2 * b;
    HalfProduct(a, b);
    CongIntro((p - 1) * (q - 1) / 2, 0, p - 1, b);
    CongIntro((p - 1) * (q - 1) / 2, 0, q - 1, a);
  }

  lemma HalfProduct(a: int, b: int)
    ensures (2 * a) * (2 * b) / 2 == (2 * a) * b == b * (2 * a) == a * (2 * b)
  {
    assert (2 * a) * (2 * b) == 2 * ((2 * a) * b);
  }

  lemma Cofactor(lambda: nat, p: int) returns (h: nat)
    requires p > 1 && Cong(lambda, 0, p - 1)
    ensures lambda == (p - 1) * h
  {
    var k :| lambda == 0 + k * (p - 1);
    assert k < 0 ==> k * (p - 1) < 0;
    h := k;
  }

  /** One prime's half of the logarithm: ls == log(x * lambda) modulo p^s, whatever the noise. */
  lemma LogOfCiphertext(ct: int, x: int, n: int, p: int, q: int, s: nat, lambda: nat, inv: int, z: int, ls: int)
    requires IsPrime(p) && Splits(n, p, q) && n > 1 && Cong(lambda, 0, p - 1)
    requires Encryption.EncryptionOf(ct, x, n, s) && Cong(q * inv, 1, Pow(p, s))
    requires z == PowMod(ct % Pow(p, s + 1), lambda, Pow(p, s + 1))
    requires ls == ModMul(inv, TruncDiv(z - 1, p), Pow(p, s))
    ensures Cong(ls, LogSeries(n, x * lambda, s), Pow(p, s))
  {
    hide Cong;
    var m := Pow(p, s + 1);
    var h := Cofactor(lambda, p);
    CongMod(ct, m);
    CongPow(ct % m, ct, lambda, m);
    CongTrans(z, Pow(ct % m, lambda), Pow(ct, lambda), m);
    Encryption.NoiseVanishes(ct, x, n, p, q, s, lambda, h);
    CongTrans(z, Pow(ct, lambda), Series(n, x * lambda, s), m);
    TakeLog(z, x * lambda, n, p, q, inv, s);
    CongTrans(ls, inv * TruncDiv(z - 1, p), LogSeries(n, x * lambda, s), Pow(p, s));
  }

  /** Remaindering and the final multiplication by mu. */
  lemma Recombine(x: int, n: int, p: int, q: int, s: nat, lambda: int, mu: int, pp: int, a: int, b: int,
                  mLambda: int, m: int)
    requires Splits(n, p, q) && Unit(Pow(p, s), Pow(q, s))
    requires Cong(lambda * mu, 1, Pow(n, s))
    requires Cong(pp, 0, Pow(p, s)) && Cong(pp, 1, Pow(q, s))
    requires Cong(a, x * lambda, Pow(p, s)) && Cong(b, x * lambda, Pow(q, s))
    requires mLambda == (a + (b - a) * pp) % Pow(n, s) && m == ModMul(mLambda, mu, Pow(n, s))
    ensures m == x % Pow(n, s)
  {
    hide Cong;
    var ps, qs, ns, t := Pow(p, s), Pow(q, s), Pow(n, s), a + (b - a) * pp;
    PowOfProduct(p, q, s);
    CongRefl(b - a, ps);
    CongMul(b - a, b - a, pp, 0, ps);
    CongRefl(a, ps);
    CongAdd(a, a, (b - a) * pp, 0, ps);
    CongTrans(t, a, x * lambda, ps);
    CongRefl(b - a, qs);
    CongMul(b - a, b - a, pp, 1, qs);
    CongRefl(a, qs);
    CongAdd(a, a, (b - a) * pp, b - a, qs);
    CongTrans(t, b, x * lambda, qs);
    Crt(t, x * lambda, ps, qs);
    CongMod(t, ns);
    CongTrans(mLambda, t, x * lambda, ns);
    CongRefl(mu, ns);
    CongMul(mLambda, x * lambda, mu, mu, ns);
    CongRefl(x, ns);
    CongMul(x, x, lambda * mu, 1, ns);
    assert (x * lambda) * mu == x * (lambda * mu);
    CongTrans(mLambda * mu, (x * lambda) * mu, x, ns);
    CongTrans(m, mLambda * mu, x, ns);
    CongSym(m, x, ns);
    ModIs(x, m, ns);
  }
}
