/** Paillier keys: the CRT constants of the secret key, exponentiation modulo n^2 by remaindering,
    and key generation from accepted candidates. */
module PaillierKeys {
  import opened Arith
  import opened NumberTheory
  import opened BigNum
  import Encryption

  function Square(x: int): int
  {
    x * x
  }

  /** The order p(p-1) of the units modulo p^2. */
  function PhiSquare(p: int): int
  {
    p * (p - 1)
  }

  ghost predicate GoodPrimes(p: int, q: int)
  {
    IsPrime(p) && IsPrime(q) && p != q && p % 2 == 1 && q % 2 == 1
  }

  /** The precomputation of hp, and with the primes exchanged of hq. */
  method ComputeScale(g: int, phi: int, square: int, p: int, ghost q: int) returns (h: int)
    requires GoodPrimes(p, q) && g == p * q + 1 && phi == p - 1 && square == Square(p)
    ensures IsLogScale(h, p, q)
  {
    hide Cong, Unit, PowMod, InvMod, TruncDiv, IsLogScale, Square;
    LogScale(p, q);
    h := PowMod(g, phi, square);
    h := TruncDiv(h - 1, p);
    h := InvMod(h, p);
  }

  class SecretKey {
    var p: int
    var q: int
    var pSquare: int
    var qSquare: int
    var nSquare: int
    var qSquareInvMulQSquare: int // (q^2)^-1 mod p^2, times q^2
    var pInvModQ: int
    var phiPSquare: int           // p(p-1)
    var phiQSquare: int           // q(q-1)
    var phiP: int
    var phiQ: int
    var hp: int
    var hq: int
    var lambda: int
    var mu: int                   // lambda^-1 mod n

    constructor (p: int, q: int, lambda: int, mu: int)
      ensures this.p == p && this.q == q && this.lambda == lambda && this.mu == mu
    {
      this.p, this.q, this.lambda, this.mu := p, q, lambda, mu;
    }

    ghost predicate Valid()
      reads this
    {
      && GoodPrimes(p, q)
      && pSquare == Square(p) > 0 && qSquare == Square(q) > 0 && nSquare == pSquare * qSquare > 0
      && Cong(qSquareInvMulQSquare, 1, pSquare) && Cong(qSquareInvMulQSquare, 0, qSquare)
      && Cong(p * pInvModQ, 1, q)
      && phiPSquare == PhiSquare(p) > 0 && phiQSquare == PhiSquare(q) > 0
      && phiP == p - 1 && phiQ == q - 1
      && IsLogScale(hp, p, q) && IsLogScale(hq, q, p)
    }

    method Init()
      requires GoodPrimes(p, q)
      modifies this
      ensures Valid() && p == old(p) && q == old(q) && lambda == old(lambda) && mu == old(mu)
    {
      hide Cong, GoodPrimes, Unit, PowMod, InvMod, TruncDiv, IsLogScale, Square, PhiSquare;
      SquareFacts(p, q);
      pSquare := Square(p);
      qSquare := Square(q);
      nSquare := pSquare * qSquare;
      var qSquareInv := InvMod(qSquare, pSquare);
      qSquareInvMulQSquare := qSquareInv * qSquare;
      CongMultiple(qSquare, qSquareInv);
      pInvModQ := InvMod(p, q);
      phiPSquare := PhiSquare(p);
      phiQSquare := PhiSquare(q);
      phiP := p - 1;
      phiQ := q - 1;
      var n := p * q;
      var g := n + 1;
      hp := ComputeScale(g, phiP, pSquare, p, q);
      hq := ComputeScale(g, phiQ, qSquare, q, p);
    }

    /** base^exp mod n^2 with both exponents and bases reduced per prime. */
    function PowModNSquareCrt(base: int, exp: int): (r: int)
      requires Valid()
      reads this
      ensures 0 <= r < nSquare
    {
      var pexp, qexp := exp % phiPSquare, exp % phiQSquare;
      var pbase, qbase := base % pSquare, base % qSquare;
      var pbaseExp, qbaseExp := PowMod(pbase, pexp, pSquare), PowMod(qbase, qexp, qSquare);
      ((pbaseExp - qbaseExp) * qSquareInvMulQSquare + qbaseExp) % nSquare
    }

    /** Reducing the exponents loses nothing for a base coprime to n, whatever the exponent. */
    lemma PowModNSquareCrtCorrect(base: int, exp: int)
      requires Valid() && Unit(base, p * q)
      ensures Unit(base, nSquare)
      ensures PowModNSquareCrt(base, exp) == PowMod(base, exp, nSquare)
    {
      hide Cong, Unit, IsPrime, PowMod, IsLogScale, Square, PhiSquare;
      SquareFacts(p, q);
      UnitModFactor(base, p, q);
      SquareUnit(base, p);
      SquareUnit(base, q);
      UnitModProduct(base, pSquare, qSquare);
      var a := PowMod(base % pSquare, exp % phiPSquare, pSquare);
      var b := PowMod(base % qSquare, exp % phiQSquare, qSquare);
      ReducedPower(base, exp, p, a);
      ReducedPower(base, exp, q, b);
      ZPowModulus(base, exp, pSquare, qSquare);
      JoinSquares(a, b, ZPow(base, exp, nSquare), qSquareInvMulQSquare, pSquare, qSquare,
                  ZPow(base, exp, pSquare), ZPow(base, exp, qSquare));
      CongSym(PowMod(base, exp, nSquare), ZPow(base, exp, nSquare), nSquare);
      CongTrans((a - b) * qSquareInvMulQSquare + b, ZPow(base, exp, nSquare), PowMod(base, exp, nSquare), nSquare);
      ModIs((a - b) * qSquareInvMulQSquare + b, PowMod(base, exp, nSquare), nSquare);
    }

    /** At the exponent p(p-1) q(q-1) the shortcut answers 1 for every base. */
    lemma CrtAtOrder(base: int)
      requires Valid()
      ensures phiPSquare * phiQSquare > 0
      ensures PowModNSquareCrt(base, phiPSquare * phiQSquare) == 1
    {
      hide Cong, GoodPrimes, IsLogScale, Square, PhiSquare, Pow;
      MultipleMod(phiQSquare, phiPSquare);
      MultipleMod(phiPSquare, phiQSquare);
      SquareFacts(p, q);
      PowModZero(base % pSquare, pSquare);
      PowModZero(base % qSquare, qSquare);
      CongRefl(1, nSquare);
      ModIs(1, 1, nSquare);
    }

    /** The shortcut is right for all natural exponents exactly when the base is coprime to n. */
    lemma PowModNSquareCrtDomain(base: int)
      requires Valid()
      ensures (forall e: nat :: PowModNSquareCrt(base, e) == PowMod(base, e, nSquare)) <==> Unit(base, p * q)
    {
      hide Cong, Unit, GoodPrimes, PowMod, IsLogScale, Square, PhiSquare, PowModNSquareCrt;
      SquareFacts(p, q);
      if Unit(base, p * q) {
        forall e: nat
          ensures PowModNSquareCrt(base, e) == PowMod(base, e, nSquare)
        {
          PowModNSquareCrtCorrect(base, e);
        }
      } else {
        CrtAtOrder(base);
        var e: nat := phiPSquare * phiQSquare;
        if PowModNSquareCrt(base, e) == PowMod(base, e, nSquare) { PowOneIsUnit(base, e, p, q); }
      }
    }
  }

  /** h inverts the residue (g^(p-1) mod p^2 - 1)/p that g == n + 1 leaves: -h*q == 1 mod p. */
  ghost predicate IsLogScale(h: int, p: int, q: int)
  {
    Cong(((p - 1) * q) * h, 1, p)
  }

  lemma SquareFacts(p: int, q: int)
    requires GoodPrimes(p, q)
    ensures p > 2 && q > 2 && Square(p) > 1 && Square(q) > 1 && Square(p) * Square(q) > 1
    ensures PhiSquare(p) > 0 && PhiSquare(q) > 0 && GoodPrimes(q, p)
    ensures Unit(p, q) && Unit(q, p) && Unit(Square(p), Square(q)) && Unit(Square(q), Square(p))
  {
    hide Cong;
    PrimesCoprime(p, q);
    UnitMul(p, p, q);
    UnitModProduct(p * p, q, q);
    UnitSwap(p * p, q * q);
    assert (p * p) * (q * q) > p * p;
  }

  lemma SquareUnit(b: int, p: int)
    requires Unit(b, p)
    ensures Unit(b, Square(p))
  {
    UnitModProduct(b, p, p);
  }

  /** (1 + k*p)^e == 1 + e*k*p modulo p^2. */
  lemma LinearPower(k: int, e: nat, p: int)
    ensures Cong(Pow(1 + k * p, e), 1 + (e * k) * p, Square(p))
  {
    var x := k * p;
    var w := OnePlusPow(x, e);
    SquareArith(k, p, w);
    assert e * (k * p) == (e * k) * p;
    CongIntro(Pow(1 + x, e), 1 + e * x, Square(p), k * k * w);
  }

  lemma SquareArith(k: int, p: int, w: int)
    ensures (k * p) * (k * p) * w == (k * k * w) * Square(p)
  {
    Regroup(k, p, k, p);
    assert ((k * k) * (p * p)) * w == (k * k * w) * (p * p);
  }

  /** The decryptor's L function: z == 1 + u*p modulo p^2 gives (z - 1)/p == u modulo p. */
  lemma TakeL(z: int, u: int, p: int)
    requires p > 0 && Cong(z, 1 + u * p, Square(p))
    ensures Cong(TruncDiv(z - 1, p), u, p)
  {
    var k :| z == 1 + u * p + k * Square(p);
    assert u * p + k * (p * p) == (u + k * p) * p;
    TruncDivExact(u + k * p, p);
    CongIntro(u + k * p, u, p, k);
  }

  /** The steps of Init that compute hp are defined and give the scale. */
  lemma LogScale(p: int, q: int)
    requires GoodPrimes(p, q)
    ensures Square(p) > 0
    ensures var l := TruncDiv(PowMod(p * q + 1, p - 1, Square(p)) - 1, p);
            Unit(l, p) && IsLogScale(InvMod(l, p), p, q)
  {
    hide Cong, Unit, PowMod, InvMod, TruncDiv, Square, IsPrime;
    SquareFacts(p, q);
    var m := Square(p);
    var z := PowMod(p * q + 1, p - 1, m);
    LinearPower(q, p - 1, p);
    CongTrans(z, Pow(1 + q * p, p - 1), 1 + ((p - 1) * q) * p, m);
    TakeL(z, (p - 1) * q, p);
    InverseScale(TruncDiv(z - 1, p), p, q);
  }

  lemma InverseScale(l: int, p: int, q: int)
    requires p > 0 && Unit(q, p) && Cong(l, (p - 1) * q, p)
    ensures Unit(l, p) && IsLogScale(InvMod(l, p), p, q)
  {
    hide Cong, Unit, InvMod;
    var u := (p - 1) * q;
    MinusOneUnit(p);
    UnitMul(p - 1, q, p);
    CongSym(l, u, p);
    UnitCong(u, l, p);
    CongRefl(InvMod(l, p), p);
    CongMul(u, l, InvMod(l, p), InvMod(l, p), p);
    CongTrans(u * InvMod(l, p), l * InvMod(l, p), 1, p);
  }

  // ------------------------------------------------------------------ exponents modulo p(p-1)

  /** Euler modulo p^2: exponents only matter modulo p(p-1). */
  lemma EulerReduce(b: int, e: int, p: int)
    requires IsPrime(p) && Unit(b, p)
    ensures Square(p) > 0 && PhiSquare(p) > 0 && Unit(b, Square(p))
    ensures Cong(Pow(b, e % PhiSquare(p)), ZPow(b, e, Square(p)), Square(p))
  {
    hide Cong, IsPrime;
    PrimeAboveOne(p);
    SquareUnit(b, p);
    FermatPower(b, p, 1, 1);
    PowTwo(p);
    assert (p - 1) * Pow(p, 1) * 1 == PhiSquare(p);
    assert p * (p - 1) > 0;
    ReduceExponent(b, e, PhiSquare(p), Square(p));
  }

  /** If b^f == 1 modulo m then exponents of b only matter modulo f. */
  lemma ReduceExponent(b: int, e: int, f: int, m: int)
    requires f > 0 && m > 0 && Unit(b, m) && Cong(Pow(b, f), 1, m)
    ensures Cong(Pow(b, e % f), ZPow(b, e, m), m)
  {
    hide Cong, Pow, Unit;
    DivMod(e, f);
    var k, r := e / f, e % f;
    ZPowAdd(b, k * f, r, m);
    ZPowOfZPow(b, f, k, m);
    assert Pow(b, f) == ZPow(b, f, m);
    UnitOne(m);
    CongSym(Pow(b, f), 1, m);
    ZPowCong(1, Pow(b, f), k, m);
    ZPowOfOne(k, m);
    CongSym(ZPow(1, k, m), ZPow(Pow(b, f), k, m), m);
    CongTrans(ZPow(Pow(b, f), k, m), ZPow(1, k, m), 1, m);
    assert f * k == k * f;
    CongSym(ZPow(ZPow(b, f, m), k, m), ZPow(b, f * k, m), m);
    CongTrans(ZPow(b, k * f, m), ZPow(Pow(b, f), k, m), 1, m);
    CongRefl(Pow(b, r), m);
    CongMul(ZPow(b, k * f, m), 1, Pow(b, r), Pow(b, r), m);
    assert ZPow(b, r, m) == Pow(b, r);
    CongTrans(ZPow(b, e, m), ZPow(b, k * f, m) * Pow(b, r), Pow(b, r), m);
    CongSym(ZPow(b, e, m), Pow(b, r), m);
  }

  lemma PrimeAboveOne(p: int)
    requires IsPrime(p)
    ensures p > 1
  {
  }

  lemma PowTwo(p: int)
    ensures Pow(p, 1) == p && Pow(p, 2) == p * p
  {
    assert Pow(p, 0) == 1;
  }

  lemma UnitOne(m: int)
    ensures Unit(1, m)
  {
    CongIntro(1 * 1, 1, m, 0);
    UnitIntro(1, 1, m);
  }

  lemma ZPowOfOne(k: int, m: int)
    requires m > 0 && Unit(1, m)
    ensures Cong(ZPow(1, k, m), 1, m)
  {
    hide Cong;
    if k >= 0 {
      PowOne(k);
      CongRefl(1, m);
    } else {
      ZPowNegative(1, -k, m);
      PowOne(-k);
    }
  }

  lemma ReducedPower(base: int, exp: int, p: int, a: int)
    requires IsPrime(p) && Unit(base, p) && Square(p) > 0 && PhiSquare(p) > 0
    requires a == PowMod(base % Square(p), exp % PhiSquare(p), Square(p))
    ensures Unit(base, Square(p))
    ensures Cong(a, ZPow(base, exp, Square(p)), Square(p))
  {
    hide Cong, IsPrime, PowMod, Square, PhiSquare, Pow, ZPow;
    var m, e := Square(p), exp % PhiSquare(p);
    EulerReduce(base, exp, p);
    CongMod(base, m);
    CongPow(base % m, base, e, m);
    CongTrans(a, Pow(base % m, e), Pow(base, e), m);
    CongTrans(a, Pow(base, e), ZPow(base, exp, m), m);
  }

  /** A power modulo m*k is one modulo m. */
  lemma ZPowModulus(b: int, e: int, m: int, k: int)
    requires m > 0 && k > 0 && m * k > 0 && Unit(b, m) && Unit(b, k) && Unit(b, m * k)
    ensures Cong(ZPow(b, e, m * k), ZPow(b, e, m), m)
    ensures Cong(ZPow(b, e, m * k), ZPow(b, e, k), k)
  {
    ZPowFactor(b, e, m, k);
    assert m * k == k * m;
    ZPowFactor(b, e, k, m);
  }

  lemma ZPowFactor(b: int, e: int, m: int, k: int)
    requires m > 0 && k > 0 && m * k > 0 && Unit(b, m) && Unit(b, m * k)
    ensures Cong(ZPow(b, e, m * k), ZPow(b, e, m), m)
  {
    hide Cong, InvMod;
    if e >= 0 {
      CongRefl(Pow(b, e), m);
    } else {
      var i, j := InvMod(b, m * k), InvMod(b, m);
      assert m * k == k * m;
      CongWeaken(b * i, 1, m, k);
      InverseUnique(b, i, j, m);
      CongPow(i, j, -e, m);
    }
  }

  /** Joining the two halves with the precomputed (q^2)^-1 q^2. */
  lemma JoinSquares(a: int, b: int, z: int, w: int, m: int, k: int, zm: int, zk: int)
    requires Unit(m, k) && Cong(w, 1, m) && Cong(w, 0, k)
    requires Cong(a, zm, m) && Cong(b, zk, k) && Cong(z, zm, m) && Cong(z, zk, k)
    ensures Cong((a - b) * w + b, z, m * k)
  {
    hide Cong;
    var t := (a - b) * w + b;
    CongSym(z, zm, m);
    CongSym(z, zk, k);
    CongRefl(a - b, m);
    CongMul(a - b, a - b, w, 1, m);
    CongRefl(b, m);
    CongAdd((a - b) * w, a - b, b, b, m);
    CongTrans(t, a, zm, m);
    CongTrans(t, zm, z, m);
    CongRefl(a - b, k);
    CongMul(a - b, a - b, w, 0, k);
    CongRefl(b, k);
    CongAdd((a - b) * w, 0, b, b, k);
    CongTrans(t, b, zk, k);
    CongTrans(t, zk, z, k);
    Crt(t, z, m, k);
  }

  lemma MultipleMod(k: int, m: int)
    requires m > 0
    ensures (k * m) % m == 0
  {
    CongMultiple(m, k);
    ModIs(k * m, 0, m);
  }

  lemma PowModZero(b: int, m: int)
    requires m > 1
    ensures PowMod(b, 0, m) == 1
  {
  }

  /** If some positive power of b is 1 modulo n^2 then b is coprime to n. */
  lemma PowOneIsUnit(b: int, e: nat, p: int, q: int)
    requires e > 0 && p > 0 && q > 0 && Square(p) * Square(q) > 0
    requires PowMod(b, e, Square(p) * Square(q)) == 1
    ensures Unit(b, p * q)
  {
    hide Cong, PowMod;
    var m := Square(p) * Square(q);
    Regroup(p, p, q, q);
    CongSym(1, Pow(b, e), m);
    CongWeaken(Pow(b, e), 1, p * q, p * q);
    assert Pow(b, e) == b * Pow(b, e - 1);
    UnitIntro(b, Pow(b, e - 1), p * q);
  }
}
