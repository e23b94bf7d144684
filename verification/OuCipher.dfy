/** Okamoto-Uchiyama at the level of integers: what a ciphertext holds, and why decryption reads it. */
module OuCipher {
  import opened Arith
  import opened NumberTheory
  import opened BigNum
  import opened PaillierKeys

  /** p = t*u + 1 prime, n = p^2 * q, g^(p-1) == 1 + l*p modulo p^2, and whether H, hence every ciphertext, is
      invertible modulo n. */
  datatype Params = Params(p: int, t: nat, u: nat, q: int, l: int, units: bool)
  {
    ghost predicate Valid()
    {
      IsPrime(p) && p % 2 == 1 && p == t * u + 1 && q > 1 && Unit(l, p)
    }

    function N(): int
    {
      Square(p) * q
    }
  }

  /** The t-th power of c is 1 + x*l*p modulo p^2: a ciphertext of x. */
  ghost predicate Holds(c: int, x: int, k: Params)
  {
    (k.units ==> Unit(c, k.N())) && Cong(Pow(c, k.t), 1 + (x * k.l) * k.p, Square(k.p))
  }

  lemma ModuliPositive(k: Params)
    requires k.Valid()
    ensures k.p > 2 && Square(k.p) > 1 && k.N() > 1
  {
    assert k.p >= 3;
    assert k.p * k.p >= 3 * 3;
    assert Square(k.p) * k.q >= Square(k.p) * 1;
  }

  lemma HoldsSame(c: int, d: int, x: int, k: Params)
    requires Holds(d, x, k) && Cong(c, d, k.N())
    ensures Holds(c, x, k)
  {
    hide Cong, Pow;
    CongSym(c, d, k.N());
    if k.units { UnitCong(d, c, k.N()); }
    ToSquare(c, d, k);
    CongPow(c, d, k.t, Square(k.p));
    CongTrans(Pow(c, k.t), Pow(d, k.t), 1 + (x * k.l) * k.p, Square(k.p));
  }

  lemma ToSquare(a: int, b: int, k: Params)
    requires Cong(a, b, k.N())
    ensures Cong(a, b, Square(k.p))
  {
    CongWeaken(a, b, Square(k.p), k.q);
  }

  lemma HoldsProduct(c: int, x: int, d: int, y: int, k: Params)
    requires Holds(c, x, k) && Holds(d, y, k)
    ensures Holds(c * d, x + y, k)
  {
    hide Cong, Pow;
    if k.units { UnitMul(c, d, k.N()); }
    PowOfProduct(c, d, k.t);
    CongMul(Pow(c, k.t), 1 + (x * k.l) * k.p, Pow(d, k.t), 1 + (y * k.l) * k.p, Square(k.p));
    LinearProduct(x, y, k.l, k.p);
    CongTrans(Pow(c * d, k.t), (1 + (x * k.l) * k.p) * (1 + (y * k.l) * k.p), 1 + ((x + y) * k.l) * k.p, Square(k.p));
  }

  lemma LinearProduct(x: int, y: int, l: int, p: int)
    ensures Cong((1 + (x * l) * p) * (1 + (y * l) * p), 1 + ((x + y) * l) * p, Square(p))
  {
    hide Cong;
    var a, b := x * l, y * l;
    assert (a * p) * (b * p) == (a * b) * (p * p);
    assert (1 + a * p) * (1 + b * p) == 1 + a * p + b * p + (a * p) * (b * p);
    assert (x + y) * l == a + b && (a + b) * p == a * p + b * p;
    CongIntro((1 + a * p) * (1 + b * p), 1 + ((x + y) * l) * p, Square(p), a * b);
  }

  lemma HoldsPower(c: int, x: int, e: nat, k: Params)
    requires Holds(c, x, k)
    ensures Holds(Pow(c, e), x * e, k)
  {
    hide Cong, Pow;
    if k.units { UnitPow(c, e, k.N()); }
    PowOfPow(c, e, k.t);
    PowOfPow(c, k.t, e);
    assert e * k.t == k.t * e;
    CongPow(Pow(c, k.t), 1 + (x * k.l) * k.p, e, Square(k.p));
    LinearPower(x * k.l, e, k.p);
    assert e * (x * k.l) == (x * e) * k.l by { Regroup(1, e, x, k.l); }
    CongTrans(Pow(c, e * k.t), Pow(1 + (x * k.l) * k.p, e), 1 + ((x * e) * k.l) * k.p, Square(k.p));
  }

  /** Inverses hold the negation. */
  lemma HoldsInverse(c: int, i: int, x: int, k: Params)
    requires Holds(c, x, k) && Cong(c * i, 1, k.N())
    ensures Holds(i, -x, k)
  {
    hide Cong, Pow;
    assert c * i == i * c;
    UnitIntro(i, c, k.N());
    ToSquare(c * i, 1, k);
    CongPow(c * i, 1, k.t, Square(k.p));
    PowOne(k.t);
    PowOfProduct(c, i, k.t);
    var a, b, z, m := Pow(c, k.t), Pow(i, k.t), 1 + (x * k.l) * k.p, Square(k.p);
    CongRefl(b, m);
    CongMul(a, z, b, b, m);
    CongSym(a * b, z * b, m);
    CongTrans(z * b, a * b, 1, m);
    LinearProduct(x, -x, k.l, k.p);
    assert (x + -x) * k.l == 0;
    InverseUnique(z, b, 1 + (-x * k.l) * k.p, m);
  }

  /** Every integer power. */
  lemma HoldsZPow(c: int, x: int, e: int, k: Params)
    requires k.N() > 0 && Holds(c, x, k) && Unit(c, k.N())
    ensures Holds(ZPow(c, e, k.N()), x * e, k)
  {
    hide Cong, Pow, Holds;
    if e >= 0 {
      HoldsPower(c, x, e, k);
    } else {
      HoldsInverse(c, InvMod(c, k.N()), x, k);
      HoldsPower(InvMod(c, k.N()), -x, -e, k);
      assert (-x) * (-e) == x * e;
    }
  }

  // ------------------------------------------------------------------ generator and noise

  /** G = g^u holds 1. */
  lemma HoldsGenerator(g: int, gCap: int, k: Params)
    requires k.Valid() && Unit(g, k.N()) && Cong(Pow(g, k.p - 1), 1 + k.l * k.p, Square(k.p))
    requires Cong(gCap, Pow(g, k.u), k.N())
    ensures Holds(gCap, 1, k)
  {
    hide Cong, Pow;
    UnitPow(g, k.u, k.N());
    PowOfPow(g, k.u, k.t);
    assert k.u * k.t == k.p - 1;
    HoldsSame(gCap, Pow(g, k.u), 1, k);
  }

  /** H = h^(n*u) holds 0, whatever h prime to p it is made from. */
  lemma HoldsNoise(h: int, hCap: int, k: Params)
    requires k.Valid() && k.N() > 0 && Unit(h, k.p) && k.N() * k.u >= 0
    requires Cong(hCap, Pow(h, k.N() * k.u), k.N()) && (k.units ==> Unit(hCap, k.N()))
    ensures Holds(hCap, 0, k)
  {
    hide Cong, Pow, Unit, IsPrime;
    ModuliPositive(k);
    var e := k.N() * k.u;
    PowOfPow(h, e, k.t);
    FermatPower(h, k.p, 1, k.p * k.q);
    PowTwo(k.p);
    NoiseExponent(k);
    ToSquare(hCap, Pow(h, e), k);
    CongPow(hCap, Pow(h, e), k.t, Square(k.p));
    CongTrans(Pow(hCap, k.t), Pow(Pow(h, e), k.t), 1, Square(k.p));
  }

  lemma NoiseExponent(k: Params)
    requires k.p == k.t * k.u + 1
    ensures (k.N() * k.u) * k.t == (k.p - 1) * k.p * (k.p * k.q)
  {
    Regroup(k.N(), k.u, k.t, 1);
    assert (k.N() * k.u) * k.t == k.N() * (k.t * k.u);
    assert k.N() == (k.p * k.p) * k.q;
    assert ((k.p * k.p) * k.q) * (k.p - 1) == (k.p - 1) * k.p * (k.p * k.q);
  }

  // ------------------------------------------------------------------ decryption

  /** L(c^t mod p^2) times the inverse of l is the plaintext modulo p. */
  lemma ReadsPlaintext(c: int, x: int, k: Params, z: int, gpInv: int, m: int)
    requires k.Valid() && Square(k.p) > 0 && Holds(c, x, k) && Cong(k.l * gpInv, 1, k.p)
    requires z == PowMod(c % Square(k.p), k.t, Square(k.p)) && m == ModMul(TruncDiv(z - 1, k.p), gpInv, k.p)
    ensures m == x % k.p
  {
    hide Cong, Pow, PowMod, ModMul, TruncDiv, IsPrime, Square, Unit;
    var s := Square(k.p);
    CongMod(c, s);
    CongPow(c % s, c, k.t, s);
    CongTrans(z, Pow(c % s, k.t), Pow(c, k.t), s);
    CongTrans(z, Pow(c, k.t), 1 + (x * k.l) * k.p, s);
    TakeL(z, x * k.l, k.p);
    var d := TruncDiv(z - 1, k.p);
    CongRefl(gpInv, k.p);
    CongMul(d, x * k.l, gpInv, gpInv, k.p);
    CongRefl(x, k.p);
    CongMul(x, x, k.l * gpInv, 1, k.p);
    MulAssoc(x, k.l, gpInv);
    CongTrans(d * gpInv, (x * k.l) * gpInv, x, k.p);
    CongTrans(m, d * gpInv, x, k.p);
    CongSym(m, x, k.p);
    ModIs(x, m, k.p);
  }

  // ------------------------------------------------------------------ key generation

  /** The loop condition check == 1 holds for every g prime to p, so it rejects nothing. */
  lemma CheckAlwaysOne(g: int, p: int)
    requires IsPrime(p) && Unit(g, p) && Square(p) > 1
    ensures PowMod(PowMod(g % Square(p), p - 1, Square(p)), p, Square(p)) == 1
  {
    hide Cong, Pow, PowMod, IsPrime, Unit;
    var s := Square(p);
    assert p > 1 by { PrimeAboveOne(p); }
    var gp := PowMod(g % s, p - 1, s);
    CongMod(g, s);
    CongPow(g % s, g, p - 1, s);
    CongTrans(gp, Pow(g % s, p - 1), Pow(g, p - 1), s);
    CongPow(gp, Pow(g, p - 1), p, s);
    PowOfPow(g, p - 1, p);
    FermatPower(g, p, 1, 1);
    PowTwo(p);
    CongTrans(Pow(gp, p), Pow(g, (p - 1) * p), 1, s);
    CongTrans(PowMod(gp, p, s), Pow(gp, p), 1, s);
    CongClose(PowMod(gp, p, s), 1, s);
  }

  /** gp = g^(p-1) mod p^2 is 1 + l*p with 0 <= l < p, and l is invertible exactly when gp is not 1. */
  lemma LogOfGenerator(g: int, p: int, gp: int, l: int)
    requires IsPrime(p) && Unit(g, p) && Square(p) > 1
    requires gp == PowMod(g % Square(p), p - 1, Square(p)) && l == TruncDiv(gp - 1, p)
    ensures gp == 1 + l * p && 0 <= l < p && Cong(Pow(g, p - 1), 1 + l * p, Square(p))
    ensures Unit(l, p) <==> gp != 1
  {
    hide Cong, Pow, PowMod, IsPrime, Unit, TruncDiv;
    var s := Square(p);
    assert p > 1 by { PrimeAboveOne(p); }
    CongMod(g, s);
    CongPow(g % s, g, p - 1, s);
    CongTrans(gp, Pow(g % s, p - 1), Pow(g, p - 1), s);
    Fermat(g, p);
    CongWeaken(gp, Pow(g, p - 1), p, p);
    CongTrans(gp, Pow(g, p - 1), 1, p);
    Quotient(gp, p, l);
    CongSym(gp, Pow(g, p - 1), s);
    if l == 0 {
      if Unit(l, p) {
        CongRefl(0, p);
        UnitNotMultiple(0, p);
      }
    } else {
      SmallUnit(l, p);
    }
  }

  lemma Quotient(gp: int, p: int, l: int)
    requires p > 1 && 0 <= gp < Square(p) && Cong(gp, 1, p) && l == TruncDiv(gp - 1, p)
    ensures gp == 1 + l * p && 0 <= l < p && (l == 0 <==> gp == 1)
  {
    var k :| gp == 1 + k * p;
    MultipleBounds(k, p);
    TruncDivExact(k, p);
  }

  /** A generator the loop accepts and key generation then cannot use: g = 1. */
  lemma CheckAcceptsOne(p: int)
    requires IsPrime(p) && Square(p) > 1
    ensures Unit(1, p)
    ensures var gp := PowMod(1 % Square(p), p - 1, Square(p));
            PowMod(gp, p, Square(p)) == 1 && !Unit(TruncDiv(gp - 1, p), p)
  {
    hide Cong, PowMod, IsPrime, Unit, TruncDiv;
    UnitOne(p);
    CheckAlwaysOne(1, p);
    assert p > 1 by { PrimeAboveOne(p); }
    var s := Square(p);
    var gp := PowMod(1 % s, p - 1, s);
    LogOfGenerator(1, p, gp, TruncDiv(gp - 1, p));
    OnePower(p - 1, s, gp);
  }

  lemma OnePower(e: nat, s: int, gp: int)
    requires s > 1 && gp == PowMod(1 % s, e, s)
    ensures gp == 1
  {
    hide Cong, PowMod;
    PowOne(e);
    CongMod(1, s);
    CongPow(1 % s, 1, e, s);
    CongTrans(gp, Pow(1 % s, e), 1, s);
    CongClose(gp, 1, s);
  }
}
