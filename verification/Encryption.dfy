/** What Paillier and Damgard-Jurik ciphertexts mean: c encrypts x under (n, s) when
    c == (1+n)^x * y^(n^s) mod n^(s+1) for a unit y.  Paillier is the case s = 1. */
module Encryption {
  import opened Arith
  import opened NumberTheory

  ghost predicate EncryptedWith(c: int, x: int, y: int, n: int, s: nat)
    requires n > 1
  {
    var m := Pow(n, s + 1);
    Unit(y, n) && Unit(1 + n, m) && Cong(c, ZPow(1 + n, x, m) * Pow(y, Pow(n, s)), m)
  }

  ghost predicate EncryptionOf(c: int, x: int, n: int, s: nat)
    requires n > 1
  {
    exists y: int :: EncryptedWith(c, x, y, n, s)
  }

  lemma Noise(y: int, n: int, s: nat)
    requires n > 1 && Unit(y, n)
    ensures EncryptionOf(Pow(y, Pow(n, s)), 0, n, s)
  {
    OnePlusUnit(n, s + 1);
    CongRefl(Pow(y, Pow(n, s)), Pow(n, s + 1));
    assert EncryptedWith(Pow(y, Pow(n, s)), 0, y, n, s);
  }

  lemma Plain(x: int, n: int, s: nat)
    requires n > 1
    ensures Unit(1 + n, Pow(n, s + 1))
    ensures EncryptionOf(ZPow(1 + n, x, Pow(n, s + 1)), x, n, s)
  {
    hide Cong;
    var m := Pow(n, s + 1);
    OnePlusUnit(n, s + 1);
    PowOne(Pow(n, s));
    CongRefl(ZPow(1 + n, x, m), m);
    CongIntro(1 * 1, 1, n, 0);
    UnitIntro(1, 1, n);
    assert EncryptedWith(ZPow(1 + n, x, m), x, 1, n, s);
  }

  lemma Same(c: int, d: int, x: int, n: int, s: nat)
    requires n > 1 && EncryptionOf(d, x, n, s) && Cong(c, d, Pow(n, s + 1))
    ensures EncryptionOf(c, x, n, s)
  {
    hide Cong;
    var m := Pow(n, s + 1);
    var y :| EncryptedWith(d, x, y, n, s);
    CongTrans(c, d, ZPow(1 + n, x, m) * Pow(y, Pow(n, s)), m);
    assert EncryptedWith(c, x, y, n, s);
  }

  lemma Product(c: int, x: int, d: int, z: int, n: int, s: nat)
    requires n > 1 && EncryptionOf(c, x, n, s) && EncryptionOf(d, z, n, s)
    ensures EncryptionOf(c * d, x + z, n, s)
  {
    hide Cong;
    var m, e, g := Pow(n, s + 1), Pow(n, s), 1 + n;
    var y :| EncryptedWith(c, x, y, n, s);
    var w :| EncryptedWith(d, z, w, n, s);
    var gx, gz, ye, we := ZPow(g, x, m), ZPow(g, z, m), Pow(y, e), Pow(w, e);
    CongMul(c, gx * ye, d, gz * we, m);
    Regroup(gx, ye, gz, we);
    PowOfProduct(y, w, e);
    ZPowAdd(g, x, z, m);
    CongSym(ZPow(g, x + z, m), gx * gz, m);
    CongRefl(ye * we, m);
    CongMul(gx * gz, ZPow(g, x + z, m), ye * we, ye * we, m);
    CongTrans(c * d, (gx * gz) * (ye * we), ZPow(g, x + z, m) * (ye * we), m);
    UnitMul(y, w, n);
    assert EncryptedWith(c * d, x + z, y * w, n, s);
  }

  lemma CiphertextUnit(c: int, x: int, n: int, s: nat)
    requires n > 1 && EncryptionOf(c, x, n, s)
    ensures Unit(c, Pow(n, s + 1))
  {
    hide Cong;
    var m, e, g := Pow(n, s + 1), Pow(n, s), 1 + n;
    var y :| EncryptedWith(c, x, y, n, s);
    ZPowUnit(g, x, m);
    UnitPow(y, e, n);
    UnitModPow(Pow(y, e), n, s + 1);
    UnitMul(ZPow(g, x, m), Pow(y, e), m);
    CongSym(c, ZPow(g, x, m) * Pow(y, e), m);
    UnitCong(ZPow(g, x, m) * Pow(y, e), c, m);
  }

  /** Scaling: c^k encrypts x*k, for negative k through the inverse. */
  lemma Power(c: int, x: int, k: int, n: int, s: nat)
    requires n > 1 && EncryptionOf(c, x, n, s)
    ensures Unit(c, Pow(n, s + 1))
    ensures EncryptionOf(ZPow(c, k, Pow(n, s + 1)), x * k, n, s)
  {
    hide Cong;
    var m, e, g := Pow(n, s + 1), Pow(n, s), 1 + n;
    CiphertextUnit(c, x, n, s);
    var y :| EncryptedWith(c, x, y, n, s);
    var gx := ZPow(g, x, m);
    UnitModPow(y, n, s + 1);
    UnitPow(y, e, m);
    ZPowUnit(g, x, m);
    ZPowCong(c, gx * Pow(y, e), k, m);
    ZPowProduct(gx, Pow(y, e), k, m);
    ZPowOfZPow(g, x, k, m);
    var w := ZPow(y, k, m);
    PowZPowSwap(y, e, k, m);
    CongMul(ZPow(gx, k, m), ZPow(g, x * k, m), ZPow(Pow(y, e), k, m), Pow(w, e), m);
    CongTrans(ZPow(c, k, m), ZPow(gx * Pow(y, e), k, m), ZPow(gx, k, m) * ZPow(Pow(y, e), k, m), m);
    CongTrans(ZPow(c, k, m), ZPow(gx, k, m) * ZPow(Pow(y, e), k, m), ZPow(g, x * k, m) * Pow(w, e), m);
    ZPowUnit(y, k, m);
    UnitModFactor(w, n, Pow(n, s));
    assert EncryptedWith(ZPow(c, k, m), x * k, w, n, s);
  }

  /** (y^e)^k == (y^k)^e. */
  lemma PowZPowSwap(y: int, e: nat, k: int, m: int)
    requires m > 0 && Unit(y, m)
    ensures Unit(Pow(y, e), m)
    ensures Cong(ZPow(Pow(y, e), k, m), Pow(ZPow(y, k, m), e), m)
  {
    hide Cong;
    ZPowOfZPow(y, e, k, m);
    PowOfZPow(y, k, e, m);
    assert ZPow(y, e, m) == Pow(y, e);
    assert e * k == k * e;
    CongSym(Pow(ZPow(y, k, m), e), ZPow(y, k * e, m), m);
    CongTrans(ZPow(Pow(y, e), k, m), ZPow(y, e * k, m), Pow(ZPow(y, k, m), e), m);
  }

  /** Raising a ciphertext to l multiplies both exponents. */
  lemma PowerSeries(c: int, x: int, y: int, n: int, s: nat, l: nat)
    requires n > 1 && EncryptedWith(c, x, y, n, s)
    ensures Cong(Pow(c, l), Series(n, x * l, s) * Pow(y, Pow(n, s) * l), Pow(n, s + 1))
  {
    hide Cong;
    var m, e, g := Pow(n, s + 1), Pow(n, s), 1 + n;
    var gx, ye := ZPow(g, x, m), Pow(y, e);
    CongPow(c, gx * ye, l, m);
    PowOfProduct(gx, ye, l);
    PowOfZPow(g, x, l, m);
    SeriesIsPower(n, x * l, s);
    CongSym(Series(n, x * l, s), ZPow(g, x * l, m), m);
    CongTrans(Pow(gx, l), ZPow(g, x * l, m), Series(n, x * l, s), m);
    PowOfPow(y, e, l);
    CongRefl(Pow(ye, l), m);
    CongMul(Pow(gx, l), Series(n, x * l, s), Pow(ye, l), Pow(ye, l), m);
    CongTrans(Pow(c, l), Pow(gx, l) * Pow(ye, l), Series(n, x * l, s) * Pow(ye, l), m);
  }

  /** An exponent (n^s)(p-1)h sends every unit to 1 modulo p^(s+1). */
  lemma NoisePower(y: int, n: int, p: int, q: int, s: nat, l: nat, h: nat)
    requires IsPrime(p) && q > 0 && n == p * q && l == (p - 1) * h && Unit(y, n)
    ensures Cong(Pow(y, Pow(n, s) * l), 1, Pow(p, s + 1))
  {
    hide Cong;
    UnitModFactor(y, p, q);
    PowOfProduct(p, q, s);
    FermatPower(y, p, s, Pow(q, s) * h);
    ExponentArith(p, h, Pow(p, s), Pow(q, s));
  }

  /** Raising to a multiple l of p-1 removes the noise modulo p^(s+1): what is left is the truncated
      series of (1+n)^(x*l). */
  lemma NoiseVanishes(c: int, x: int, n: int, p: int, q: int, s: nat, l: nat, h: nat)
    requires IsPrime(p) && q > 0 && n == p * q && l == (p - 1) * h
    requires n > 1 && EncryptionOf(c, x, n, s)
    ensures Cong(Pow(c, l), Series(n, x * l, s), Pow(p, s + 1))
  {
    hide Cong;
    var y :| EncryptedWith(c, x, y, n, s);
    NoisePower(y, n, p, q, s, l, h);
    PowerSeries(c, x, y, n, s, l);
    DropNoise(Pow(c, l), Series(n, x * l, s), Pow(y, Pow(n, s) * l), n, p, q, s + 1);
  }

  lemma DropNoise(c: int, g: int, w: int, n: int, p: int, q: int, e: nat)
    requires n == p * q && Cong(c, g * w, Pow(n, e)) && Cong(w, 1, Pow(p, e))
    ensures Cong(c, g, Pow(p, e))
  {
    hide Cong, Pow;
    var m := Pow(p, e);
    ModPrimePower(c, g * w, n, p, q, e);
    CongRefl(g, m);
    CongMul(g, g, w, 1, m);
    CongTrans(c, g * w, g, m);
  }

  lemma ExponentArith(p: int, h: int, a: int, b: int)
    ensures (a * b) * ((p - 1) * h) == (p - 1) * a * (b * h)
  {
    Regroup(a, b, p - 1, h);
  }
}
