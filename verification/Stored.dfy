/** Ciphertexts as they are kept: encryptions stored in a Montgomery space modulo n^(s+1). */
module Stored {
  import opened Arith
  import opened NumberTheory
  import opened BigNum
  import opened Encryption

  /** c is a stored encryption of x. */
  ghost predicate Encrypts(c: int, x: int, n: int, s: nat, ms: MSpace)
    requires n > 1 && ms.Valid()
  {
    0 <= c < ms.m && EncryptionOf(ms.MapBackToZSpace(c), x, n, s)
  }

  lemma Sum(a: int, x: int, b: int, y: int, n: int, s: nat, ms: MSpace)
    requires n > 1 && ms.Valid() && ms.m == Pow(n, s + 1)
    requires Encrypts(a, x, n, s, ms) && Encrypts(b, y, n, s, ms)
    ensures Encrypts(ms.MulMod(a, b), x + y, n, s, ms)
  {
    hide Cong, EncryptionOf, MSpace.MapBackToZSpace;
    var u, v := ms.MapBackToZSpace(a), ms.MapBackToZSpace(b);
    ms.StoresOwn(a);
    ms.StoresOwn(b);
    ms.StoresMul(a, u, b, v);
    ms.StoresBack(ms.MulMod(a, b), u * v);
    Product(u, x, v, y, n, s);
    Same(ms.MapBackToZSpace(ms.MulMod(a, b)), u * v, x + y, n, s);
  }

  /** Storing an encryption, or anything congruent to one, gives a stored encryption. */
  lemma Store(z: int, d: int, x: int, n: int, s: nat, ms: MSpace)
    requires n > 1 && ms.Valid() && ms.m == Pow(n, s + 1)
    requires EncryptionOf(d, x, n, s) && Cong(z, d, ms.m)
    ensures Encrypts(ms.MapIntoMSpace(z), x, n, s, ms)
  {
    hide Cong, EncryptionOf, MSpace.MapBackToZSpace;
    var c := ms.MapIntoMSpace(z);
    ms.StoresBack(c, z);
    CongTrans(ms.MapBackToZSpace(c), z, d, ms.m);
    Same(ms.MapBackToZSpace(c), d, x, n, s);
  }

  lemma Invertible(a: int, x: int, n: int, s: nat, ms: MSpace)
    requires n > 1 && ms.Valid() && ms.m == Pow(n, s + 1) && Encrypts(a, x, n, s, ms)
    ensures Unit(ms.MapBackToZSpace(a), ms.m)
  {
    CiphertextUnit(ms.MapBackToZSpace(a), x, n, s);
  }

  lemma Scaled(a: int, x: int, k: int, n: int, s: nat, ms: MSpace)
    requires n > 1 && ms.Valid() && ms.m == Pow(n, s + 1) && Encrypts(a, x, n, s, ms)
    ensures Unit(ms.MapBackToZSpace(a), ms.m)
    ensures Encrypts(ms.MapIntoMSpace(PowMod(ms.MapBackToZSpace(a), k, ms.m)), x * k, n, s, ms)
  {
    hide Cong, EncryptionOf, MSpace.MapBackToZSpace;
    var u := ms.MapBackToZSpace(a);
    Power(u, x, k, n, s);
    Store(PowMod(u, k, ms.m), ZPow(u, k, ms.m), x * k, n, s, ms);
  }

  /** Powers of noise are noise. */
  lemma NoisePower(hs: int, r: nat, n: int, s: nat, ms: MSpace)
    requires n > 1 && ms.Valid() && ms.m == Pow(n, s + 1) && EncryptionOf(hs, 0, n, s)
    ensures Encrypts(ms.PowMod(hs, r), 0, n, s, ms)
  {
    hide Cong, EncryptionOf, MSpace.MapBackToZSpace;
    Power(hs, 0, r, n, s);
    CongRefl(Pow(hs, r), ms.m);
    Store(Pow(hs, r), Pow(hs, r), 0, n, s, ms);
  }

  /** The key generators' h == -x^2 mod n is a unit. */
  lemma MinusSquareUnit(x: int, n: int)
    requires n > 1 && Unit(x, n)
    ensures Unit(-ModMul(x, x, n), n)
  {
    hide Cong;
    UnitMul(x, x, n);
    CongSym(ModMul(x, x, n), x * x, n);
    UnitCong(x * x, ModMul(x, x, n), n);
    CongIntro((-1) * (-1), 1, n, 0);
    UnitIntro(-1, -1, n);
    UnitMul(-1, ModMul(x, x, n), n);
  }
}
