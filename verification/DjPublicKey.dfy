/** The Damgard-Jurik public key: its tables, and encryption without exponentiation. */
module DjPublicKey {
  import opened Arith
  import opened NumberTheory
  import opened BigNum
  import Encryption
  import Stored
  import Powers
  import opened Lifting

  class PublicKey {
    var n: int
    var s: nat
    var hs: int
    var pmod: int      // n^s
    var cmod: int      // n^(s+1)
    var bound: int     // largest plaintext
    var mSpace: MSpace // Montgomery space modulo n^(s+1)
    var nPow: seq<int>
    var precomp: seq<int> // n^i/i!, stored in the Montgomery space

    constructor () {}

    /** The tables are those of n and s. */
    ghost predicate Tabled()
      reads this
    {
      && n > 1
      && pmod == Pow(n, s) && cmod == Pow(n, s + 1) && bound == pmod / 2
      && mSpace.Valid() && mSpace.m == cmod
      && Unit(1 + n, cmod)
      && (forall i :: 1 <= i <= s ==> Unit(i, n))
      && |nPow| == s + 1 && (forall j :: 0 <= j <= s ==> nPow[j] == Pow(n, j))
      && |precomp| == s + 1 && (forall i :: 0 <= i <= s ==> Entry(precomp[i], i, n, s, mSpace))
    }

    ghost predicate Valid()
      reads this
    {
      Tabled() && Encryption.EncryptionOf(hs, 0, n, s)
    }

    /** The Montgomery-form ciphertext c encrypts x. */
    ghost predicate Encrypts(c: int, x: int)
      requires Valid()
      reads this
    {
      Stored.Encrypts(c, x, n, s, mSpace)
    }

    /** The stored word c is (1+n)^x * hs^z. */
    ghost predicate Carries(c: int, x: int, z: int)
      requires Valid()
      reads this
    {
      Powers.Combines(mSpace.MapBackToZSpace(c), x, z, 1 + n, hs, cmod)
    }

    /** x is the random unit the key generator settled on; r the Montgomery constant. Fails exactly when some
        index up to s has no inverse. A given hs is taken as it is: the key works exactly when it encrypts zero. */
    method Init(n: int, s: nat, hs: int, x: int, r: int) returns (ok: bool)
      requires n > 1 && (hs == 0 ==> Unit(x, n)) && Unit(r, Pow(n, s + 1))
      modifies this
      ensures ok <==> forall i :: 1 <= i <= s ==> Unit(i, n)
      ensures ok ==> Tabled() && (Valid() <==> hs == 0 || Encryption.EncryptionOf(hs, 0, n, s))
      ensures ok ==> this.n == n && this.s == s && (hs != 0 ==> this.hs == hs)
      ensures ok && hs == 0 ==> Cong(this.hs, Pow(-(x * x), Pow(n, s)), Pow(n, s + 1))
      ensures ok ==> mSpace == MSpace(Pow(n, s + 1), r)
    {
      hide Cong, Unit, Entry, Encryption.EncryptionOf, Pow, Bezout, ModMul, InvMod, PowMod, MSpace.Identity;
      this.n := n;
      this.s := s;
      this.hs := hs;
      pmod := Pow(n, s);
      cmod := pmod * n;
      bound := pmod / 2;
      PowLast(n, s);
      OnePlusUnit(n, s + 1);
      if hs == 0 {
        var h := -ModMul(x, x, n);
        this.hs := PowMod(h, pmod, cmod);
        FreshNoise(x, h, n, s, this.hs);
        FreshValue(x, h, n, s, this.hs);
      }
      ghost var fixed := this.hs;
      mSpace := MSpace(cmod, r);
      nPow := seq(s + 1, _ => 0);
      nPow := nPow[0 := 1];
      precomp := seq(s + 1, _ => 0);
      precomp := precomp[0 := mSpace.Identity()];
      FirstEntry(precomp[0], n, s, mSpace);
      var i := 1;
      while i <= s
        invariant 1 <= i <= s + 1 && forall j :: 1 <= j < i ==> Unit(j, n)
        invariant this.n == n && this.s == s && pmod == Pow(n, s) && cmod == Pow(n, s + 1) && bound == pmod / 2
        invariant mSpace == MSpace(cmod, r) && this.hs == fixed
        invariant |nPow| == s + 1 && forall j :: 0 <= j < i ==> nPow[j] == Pow(n, j)
        invariant |precomp| == s + 1 && forall j :: 0 <= j < i ==> Entry(precomp[j], j, n, s, mSpace)
      {
        PowLast(n, i - 1);
        nPow := nPow[i := nPow[i - 1] * n];
        IndexUnit(i, n, s);
        if Bezout(i % cmod, cmod).0 != 1 { return false; }
        NextEntry(precomp[i - 1], i, n, s, mSpace);
        precomp := precomp[i := ModMul(ModMul(precomp[i - 1], n, cmod), InvMod(i, cmod), cmod)];
        i := i + 1;
      }
      ok := true;
    }

    /** hs^r, in stored form. */
    function RandomHsR(r: nat): (c: int)
      requires Valid()
      reads this
      ensures Encrypts(c, 0)
      ensures Cong(mSpace.MapBackToZSpace(c), Pow(hs, r), cmod)
    {
      Stored.NoisePower(hs, r, n, s, mSpace);
      mSpace.StoresBack(mSpace.PowMod(hs, r), Pow(hs, r));
      mSpace.PowMod(hs, r)
    }

    /** (1+n)^m without an exponentiation: falling factorials modulo shrinking powers of n. */
    method Encrypt(m: int) returns (c: int)
      requires Valid()
      ensures c == mSpace.MapIntoMSpace(ZPow(1 + n, m, cmod))
      ensures Encrypts(c, m)
    {
      hide Cong;
      var ctR, tmp, prodR := mSpace.Identity(), 1, 0;
      var i := 1;
      CongRefl(1, Pow(n, s));
      while i <= s
        invariant 1 <= i <= s + 1
        invariant Cong(tmp, Falling(m, i - 1), Pow(n, s - i + 1))
        invariant Cong(ctR, Series(n, m, i - 1) * mSpace.r, cmod)
      {
        ghost var t0 := tmp;
        tmp := ModMul(tmp, m - (i - 1), nPow[s - i + 1]);
        prodR := mSpace.MulMod(mSpace.MapIntoMSpace(tmp), precomp[i]);
        FallingStep(m, n, s, i, t0, tmp);
        TermStored(m, n, s, i, tmp, precomp[i], mSpace);
        SumStep(ctR, prodR, m, n, i, mSpace);
        ctR := ctR + prodR;
        i := i + 1;
      }
      c := ctR % cmod;
      EncryptEnd(ctR, m, n, s, mSpace);
    }

    /** The product of two stored ciphertexts. */
    function MulMod(a: int, b: int): (c: int)
      requires Valid() && 0 <= a < cmod && 0 <= b < cmod
      reads this
      ensures 0 <= c < cmod
      ensures Cong(mSpace.MapBackToZSpace(c), mSpace.MapBackToZSpace(a) * mSpace.MapBackToZSpace(b), cmod)
    {
      Powers.BackMul(mSpace, a, b);
      mSpace.MulMod(a, b)
    }
  }

  // ------------------------------------------------------------------ the public table

  ghost predicate Entry(a: int, i: nat, n: int, s: nat, ms: MSpace)
  {
    exists w: int :: ms.Stores(a, w) && Cong(w * Fact(i), Pow(n, i), Pow(n, s + 1))
  }

  lemma PowLast(n: int, e: nat)
    ensures Pow(n, 0) == 1 && Pow(n, e + 1) == Pow(n, e) * n
  {
  }

  lemma FirstEntry(a: int, n: int, s: nat, ms: MSpace)
    requires ms.Stores(a, 1)
    ensures Entry(a, 0, n, s, ms)
  {
    hide Cong;
    CongRefl(1, Pow(n, s + 1));
    assert ms.Stores(a, 1) && Cong(1 * Fact(0), Pow(n, 0), Pow(n, s + 1));
  }

  lemma NextEntry(a: int, i: nat, n: int, s: nat, ms: MSpace)
    requires n > 1 && i > 0 && ms.Valid() && ms.m == Pow(n, s + 1) && Unit(i, ms.m)
    requires Entry(a, i - 1, n, s, ms)
    ensures Entry(ModMul(ModMul(a, n, ms.m), InvMod(i, ms.m), ms.m), i, n, s, ms)
  {
    hide Cong;
    var m, v := ms.m, InvMod(i, ms.m);
    var w :| ms.Stores(a, w) && Cong(w * Fact(i - 1), Pow(n, i - 1), m);
    var b := ModMul(a, n, m);
    var c := ModMul(b, v, m);
    CongRefl(n, m);
    CongRefl(v, m);
    CongMul(a, w * ms.r, n, n, m);
    CongTrans(b, a * n, (w * ms.r) * n, m);
    CongMul(b, (w * ms.r) * n, v, v, m);
    CongTrans(c, b * v, (w * ms.r) * n * v, m);
    var w' := w * n * v;
    assert (w * ms.r) * n * v == w' * ms.r by { Reorder(w, ms.r, n, v); }
    CongMul(w * Fact(i - 1), Pow(n, i - 1), n, n, m);
    CongMul(w * Fact(i - 1) * n, Pow(n, i - 1) * n, i * v, 1, m);
    assert w' * Fact(i) == w * Fact(i - 1) * n * (i * v) by { Reorder2(w, n, v, i, Fact(i - 1)); }
    assert ms.Stores(c, w') && Cong(w' * Fact(i), Pow(n, i), m);
  }

  lemma Reorder(w: int, r: int, n: int, v: int)
    ensures (w * r) * n * v == (w * n * v) * r
  {
  }

  lemma Reorder2(w: int, n: int, v: int, i: int, f: int)
    ensures (w * n * v) * (i * f) == w * f * n * (i * v)
  {
    Regroup(w * n, v, f, i);
    assert (w * n) * f == w * f * n;
  }

  /** h == -x^2 is a unit, so h^(n^s) is pure noise. */
  lemma FreshNoise(x: int, h: int, n: int, s: nat, hs: int)
    requires n > 1 && Unit(x, n) && h == -ModMul(x, x, n)
    requires hs == PowMod(h, Pow(n, s), Pow(n, s + 1))
    ensures Encryption.EncryptionOf(hs, 0, n, s)
  {
    hide Cong;
    Stored.MinusSquareUnit(x, n);
    Encryption.Noise(h, n, s);
    Encryption.Same(hs, Pow(h, Pow(n, s)), 0, n, s);
  }

  /** The generated hs is (-x^2)^(n^s), although x^2 was reduced modulo n first. */
  lemma FreshValue(x: int, h: int, n: int, s: nat, hs: int)
    requires n > 1 && h == -ModMul(x, x, n) && Pow(n, s) >= 0 && hs == PowMod(h, Pow(n, s), Pow(n, s + 1))
    ensures Cong(hs, Pow(-(x * x), Pow(n, s)), Pow(n, s + 1))
  {
    hide Cong, ModMul, PowMod;
    CongRefl(0, n);
    CongSub(0, 0, ModMul(x, x, n), x * x, n);
    Powers.PowLift(h, -(x * x), n, s);
    CongTrans(hs, Pow(h, Pow(n, s)), Pow(-(x * x), Pow(n, s)), Pow(n, s + 1));
  }

  /** An index is invertible modulo n^(s+1) exactly when it is modulo n, and the gcd tells. */
  lemma IndexUnit(i: int, n: int, s: nat)
    requires n > 1
    ensures Pow(n, s + 1) > 1
    ensures Bezout(i % Pow(n, s + 1), Pow(n, s + 1)).0 == 1 <==> Unit(i, n)
    ensures Unit(i, n) ==> Unit(i, Pow(n, s + 1))
  {
    hide Unit, Bezout;
    var m := Pow(n, s + 1);
    PowAtLeastBase(n, s + 1);
    GcdTest(i, m);
    if Unit(i, n) { UnitModPow(i, n, s + 1); }
    if Unit(i, m) { UnitModFactor(i, n, Pow(n, s)); }
  }

  lemma FallingStep(m: int, n: int, s: nat, i: nat, t0: int, t: int)
    requires n > 1 && 1 <= i <= s
    requires Cong(t0, Falling(m, i - 1), Pow(n, s - i + 1))
    requires t == ModMul(t0, m - (i - 1), Pow(n, s - i + 1))
    ensures Cong(t, Falling(m, i), Pow(n, s - i + 1)) && Cong(t, Falling(m, i), Pow(n, s - i))
  {
    hide Cong;
    var e := s - i + 1;
    CongRefl(m - (i - 1), Pow(n, e));
    CongMul(t0, Falling(m, i - 1), m - (i - 1), m - (i - 1), Pow(n, e));
    CongTrans(t, t0 * (m - (i - 1)), Falling(m, i), Pow(n, e));
    CongPowWeaken(t, Falling(m, i), n, s - i, e);
  }

  /** A falling factorial known only modulo n^(s-i+1) gives the exact term modulo n^(s+1). */
  lemma TermStored(m: int, n: int, s: nat, i: nat, t: int, entry: int, ms: MSpace)
    requires n > 1 && 1 <= i <= s && ms.Valid() && ms.m == Pow(n, s + 1)
    requires forall k :: 1 <= k <= s ==> Unit(k, n)
    requires Cong(t, Falling(m, i), Pow(n, s - i + 1)) && Entry(entry, i, n, s, ms)
    ensures ms.Stores(ms.MulMod(ms.MapIntoMSpace(t), entry), Binom(m, i) * Pow(n, i))
  {
    hide Cong;
    var w :| ms.Stores(entry, w) && Cong(w * Fact(i), Pow(n, i), ms.m);
    FactUnit(i, n);
    UnitModPow(Fact(i), n, s + 1);
    TermLifts(t, m, w, i, n, n, 1, i, s - i + 1);
    ms.StoresMul(ms.MapIntoMSpace(t), t, entry, w);
    ms.StoresCong(ms.MulMod(ms.MapIntoMSpace(t), entry), t * w, Binom(m, i) * Pow(n, i));
  }

  lemma SumStep(acc: int, prod: int, m: int, n: int, i: nat, ms: MSpace)
    requires i > 0 && Cong(acc, Series(n, m, i - 1) * ms.r, ms.m)
    requires Cong(prod, (Binom(m, i) * Pow(n, i)) * ms.r, ms.m)
    ensures Cong(acc + prod, Series(n, m, i) * ms.r, ms.m)
  {
    hide Cong, Pow, Binom;
    var b, g := Binom(m, i) * Pow(n, i), Series(n, m, i - 1);
    CongAdd(acc, g * ms.r, prod, b * ms.r, ms.m);
    assert g * ms.r + b * ms.r == (g + b) * ms.r;
  }

  lemma EncryptEnd(acc: int, m: int, n: int, s: nat, ms: MSpace)
    requires n > 1 && ms.Valid() && ms.m == Pow(n, s + 1)
    requires Cong(acc, Series(n, m, s) * ms.r, ms.m)
    ensures Unit(1 + n, ms.m)
    ensures acc % ms.m == ms.MapIntoMSpace(ZPow(1 + n, m, ms.m))
    ensures Encryption.EncryptionOf(ms.MapBackToZSpace(acc % ms.m), m, n, s)
  {
    hide Cong;
    SeriesIsPower(n, m, s);
    var z, g := ZPow(1 + n, m, ms.m), Series(n, m, s);
    CongRefl(ms.r, ms.m);
    CongMul(g, z, ms.r, ms.r, ms.m);
    CongTrans(acc, g * ms.r, z * ms.r, ms.m);
    ModFromCong(acc, z * ms.r, ms.m);
    CongMod(z * ms.r, ms.m);
    ms.StoresBack(acc % ms.m, z);
    Encryption.Plain(m, n, s);
    Encryption.Same(ms.MapBackToZSpace(acc % ms.m), z, m, n, s);
  }
}
