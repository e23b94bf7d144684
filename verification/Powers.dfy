/** What a word of a computation is made of: g^x * h^z, value and noise exponents together. */
module Powers {
  import opened Arith
  import opened NumberTheory
  import opened BigNum

  /** b == g^x * h^z modulo m. */
  ghost predicate Combines(b: int, x: int, z: int, g: int, h: int, m: int)
  {
    m > 0 && Unit(g, m) && Unit(h, m) && Cong(b, ZPow(g, x, m) * ZPow(h, z, m), m)
  }

  /** b == a^k modulo m, for negative k without naming an inverse. */
  ghost predicate PowerOf(b: int, a: int, k: int, m: int)
  {
    if k >= 0 then Cong(b, Pow(a, k), m) else Cong(b * Pow(a, -k), 1, m)
  }

  lemma Fresh(b: int, x: int, r: nat, g: int, h: int, m: int)
    requires m > 0 && Unit(g, m) && Unit(h, m) && Cong(b, ZPow(g, x, m) * Pow(h, r), m)
    ensures Combines(b, x, r, g, h, m)
  {
  }

  lemma Product(c: int, a: int, x: int, z: int, b: int, y: int, w: int, g: int, h: int, m: int)
    requires Combines(a, x, z, g, h, m) && Combines(b, y, w, g, h, m) && Cong(c, a * b, m)
    ensures Combines(c, x + y, z + w, g, h, m)
  {
    hide Cong, ZPow, Unit;
    var gx, gy, hz, hw := ZPow(g, x, m), ZPow(g, y, m), ZPow(h, z, m), ZPow(h, w, m);
    CongMul(a, gx * hz, b, gy * hw, m);
    Regroup(gx, hz, gy, hw);
    ZPowAdd(g, x, y, m);
    ZPowAdd(h, z, w, m);
    CongSym(ZPow(g, x + y, m), gx * gy, m);
    CongSym(ZPow(h, z + w, m), hz * hw, m);
    CongMul(gx * gy, ZPow(g, x + y, m), hz * hw, ZPow(h, z + w, m), m);
    CongTrans(a * b, (gx * gy) * (hz * hw), ZPow(g, x + y, m) * ZPow(h, z + w, m), m);
    CongTrans(c, a * b, ZPow(g, x + y, m) * ZPow(h, z + w, m), m);
  }

  lemma CombinesUnit(a: int, x: int, z: int, g: int, h: int, m: int)
    requires Combines(a, x, z, g, h, m)
    ensures Unit(a, m)
  {
    hide Cong, ZPow, Unit;
    ZPowUnit(g, x, m);
    ZPowUnit(h, z, m);
    UnitMul(ZPow(g, x, m), ZPow(h, z, m), m);
    CongSym(a, ZPow(g, x, m) * ZPow(h, z, m), m);
    UnitCong(ZPow(g, x, m) * ZPow(h, z, m), a, m);
  }

  lemma Power(b: int, a: int, k: int, x: int, z: int, g: int, h: int, m: int)
    requires Combines(a, x, z, g, h, m) && PowerOf(b, a, k, m)
    ensures Combines(b, x * k, z * k, g, h, m)
  {
    CombinesUnit(a, x, z, g, h, m);
    PowerIsZPow(b, a, k, m);
    hide Cong, ZPow, Unit;
    var gx, hz := ZPow(g, x, m), ZPow(h, z, m);
    ZPowCong(a, gx * hz, k, m);
    ZPowUnit(g, x, m);
    ZPowUnit(h, z, m);
    ZPowProduct(gx, hz, k, m);
    ZPowOfZPow(g, x, k, m);
    ZPowOfZPow(h, z, k, m);
    CongMul(ZPow(gx, k, m), ZPow(g, x * k, m), ZPow(hz, k, m), ZPow(h, z * k, m), m);
    CongTrans(b, ZPow(a, k, m), ZPow(gx * hz, k, m), m);
    CongTrans(b, ZPow(gx * hz, k, m), ZPow(gx, k, m) * ZPow(hz, k, m), m);
    CongTrans(b, ZPow(gx, k, m) * ZPow(hz, k, m), ZPow(g, x * k, m) * ZPow(h, z * k, m), m);
  }

  lemma PowerIsZPow(b: int, a: int, k: int, m: int)
    requires m > 0 && Unit(a, m) && PowerOf(b, a, k, m)
    ensures Cong(b, ZPow(a, k, m), m)
  {
    hide Cong, Unit;
    if k < 0 {
      ZPowNegative(a, -k, m);
      assert b * Pow(a, -k) == Pow(a, -k) * b;
      InverseUnique(Pow(a, -k), b, ZPow(a, k, m), m);
    }
  }

  /** Big-integer exponentiation is the power, for negative exponents of a unit too. */
  lemma PowModIs(a: int, k: int, m: int, b: int)
    requires m > 0 && (k < 0 ==> Unit(a, m)) && Cong(b, PowMod(a, k, m), m)
    ensures PowerOf(b, a, k, m)
  {
    hide Cong, Unit, PowMod;
    var z := PowMod(a, k, m);
    if k >= 0 {
      CongTrans(b, z, Pow(a, k), m);
    } else {
      CongTrans(b, z, ZPow(a, k, m), m);
      ZPowNegative(a, -k, m);
      CongRefl(Pow(a, -k), m);
      CongMul(b, ZPow(a, k, m), Pow(a, -k), Pow(a, -k), m);
      CongTrans(b * Pow(a, -k), ZPow(a, k, m) * Pow(a, -k), 1, m);
    }
  }

  // ------------------------------------------------------------------ stored words

  /** Multiplying stored words multiplies what they stand for. */
  lemma BackMul(ms: MSpace, a: int, b: int)
    requires ms.Valid() && 0 <= a < ms.m && 0 <= b < ms.m
    ensures Cong(ms.MapBackToZSpace(ms.MulMod(a, b)), ms.MapBackToZSpace(a) * ms.MapBackToZSpace(b), ms.m)
  {
    hide Cong, MSpace.MapBackToZSpace;
    ms.StoresOwn(a);
    ms.StoresOwn(b);
    ms.StoresMul(a, ms.MapBackToZSpace(a), b, ms.MapBackToZSpace(b));
    ms.StoresBack(ms.MulMod(a, b), ms.MapBackToZSpace(a) * ms.MapBackToZSpace(b));
  }

  /** The same, factors exchanged, for words known by what they stand for. */
  lemma SwappedProduct(ms: MSpace, a: int, x: int, b: int, y: int)
    requires ms.Valid() && 0 <= a < ms.m && 0 <= b < ms.m
    requires Cong(ms.MapBackToZSpace(a), x, ms.m) && Cong(ms.MapBackToZSpace(b), y, ms.m)
    ensures Cong(ms.MapBackToZSpace(ms.MulMod(a, b)), y * x, ms.m)
  {
    hide Cong, MSpace.MapBackToZSpace;
    var u, v := ms.MapBackToZSpace(a), ms.MapBackToZSpace(b);
    BackMul(ms, a, b);
    CongMul(u, x, v, y, ms.m);
    assert x * y == y * x;
    CongTrans(ms.MapBackToZSpace(ms.MulMod(a, b)), u * v, y * x, ms.m);
  }

  /** A table power of g or of its inverse. */
  lemma TablePower(ms: MSpace, g: int, i: int, e: int)
    requires ms.Valid() && Cong(g * i, 1, ms.m) && Unit(g, ms.m)
    ensures Cong(ms.MapBackToZSpace(if e < 0 then ms.PowMod(i, -e) else ms.PowMod(g, e)), ZPow(g, e, ms.m), ms.m)
  {
    hide Cong, MSpace.MapBackToZSpace, Unit;
    if e < 0 {
      ms.StoresBack(ms.PowMod(i, -e), Pow(i, -e));
      InverseUnique(g, i, InvMod(g, ms.m), ms.m);
      CongPow(i, InvMod(g, ms.m), -e, ms.m);
      CongTrans(ms.MapBackToZSpace(ms.PowMod(i, -e)), Pow(i, -e), ZPow(g, e, ms.m), ms.m);
    } else {
      ms.StoresBack(ms.PowMod(g, e), Pow(g, e));
    }
  }

  /** The same for words known to store x and y. */
  lemma BackProduct(ms: MSpace, a: int, x: int, b: int, y: int)
    requires ms.Valid() && ms.Stores(a, x) && ms.Stores(b, y)
    ensures Cong(ms.MapBackToZSpace(ms.MulMod(a, b)), x * y, ms.m)
  {
    hide Cong, MSpace.MapBackToZSpace;
    ms.StoresMul(a, x, b, y);
    ms.StoresBack(ms.MulMod(a, b), x * y);
  }

  /** What the evaluators' scaling words stand for: 1, the word itself, or the stored power. */
  lemma PowerWord(ms: MSpace, a: int, k: int)
    requires ms.Valid()
    ensures k == 0 ==> PowerOf(ms.MapBackToZSpace(ms.Identity()), ms.MapBackToZSpace(a), 0, ms.m)
    ensures k == 1 ==> PowerOf(ms.MapBackToZSpace(a), ms.MapBackToZSpace(a), 1, ms.m)
    ensures k >= 0 || Unit(ms.MapBackToZSpace(a), ms.m) ==>
              PowerOf(ms.MapBackToZSpace(ms.MapIntoMSpace(PowMod(ms.MapBackToZSpace(a), k, ms.m))),
                      ms.MapBackToZSpace(a), k, ms.m)
  {
    hide Cong, MSpace.MapBackToZSpace, Unit, PowMod;
    var v := ms.MapBackToZSpace(a);
    assert Pow(v, 0) == 1 && Pow(v, 1) == v * Pow(v, 0);
    ms.StoresBack(ms.Identity(), 1);
    CongRefl(v, ms.m);
    if k >= 0 || Unit(v, ms.m) {
      var c := ms.MapIntoMSpace(PowMod(v, k, ms.m));
      ms.StoresBack(c, PowMod(v, k, ms.m));
      PowModIs(v, k, ms.m, ms.MapBackToZSpace(c));
    }
  }

  lemma InverseWord(ms: MSpace, a: int)
    requires ms.Valid() && Unit(ms.MapBackToZSpace(a), ms.m)
    ensures PowerOf(ms.MapBackToZSpace(ms.MapIntoMSpace(InvMod(ms.MapBackToZSpace(a), ms.m))), ms.MapBackToZSpace(a), -1,
                    ms.m)
  {
    hide Cong, MSpace.MapBackToZSpace, Unit, InvMod;
    var v := ms.MapBackToZSpace(a);
    var i := InvMod(v, ms.m);
    var b := ms.MapBackToZSpace(ms.MapIntoMSpace(i));
    ms.StoresBack(ms.MapIntoMSpace(i), i);
    assert Pow(v, 1) == v * Pow(v, 0);
    CongRefl(v, ms.m);
    CongMul(b, i, v, v, ms.m);
    assert i * v == v * i;
    CongTrans(b * v, v * i, 1, ms.m);
  }

  // ------------------------------------------------------------------ powers of congruent bases

  lemma {:induction false} PowOfSum(b: int, y: int, m: nat) returns (w: int)
    requires m > 0
    ensures Pow(b + y, m) == Pow(b, m) + m * (Pow(b, m - 1) * y) + y * (y * w)
  {
    if m == 1 {
      w := 0;
      assert Pow(b + y, 1) == (b + y) * Pow(b + y, 0) && Pow(b, 1) == b * Pow(b, 0);
    } else {
      var v := PowOfSum(b, y, m - 1);
      w := (m - 1) * Pow(b, m - 2) + (b + y) * v;
      assert Pow(b, m - 1) == b * Pow(b, m - 2) && Pow(b, m) == b * Pow(b, m - 1);
      SumArith(b, y, m, Pow(b, m - 2), v);
    }
  }

  lemma SumArith(b: int, y: int, m: int, p: int, v: int)
    ensures (b + y) * (b * p + (m - 1) * (p * y) + y * (y * v))
         == b * (b * p) + m * ((b * p) * y) + y * (y * ((m - 1) * p + (b + y) * v))
  {
  }

  /** Bases equal modulo n have powers to the n^s equal modulo n^(s+1). */
  lemma {:induction false} PowLift(a: int, b: int, n: nat, s: nat)
    requires n > 0 && Cong(a, b, n)
    ensures Cong(Pow(a, Pow(n, s)), Pow(b, Pow(n, s)), Pow(n, s + 1))
  {
    if s == 0 {
      assert Pow(n, 0) == 1 && Pow(n, 1) == n && Pow(a, 1) == a * Pow(a, 0) && Pow(b, 1) == b * Pow(b, 0);
    } else {
      PowLift(a, b, n, s - 1);
      var e, m := Pow(n, s - 1), Pow(n, s);
      var p, q := Pow(a, e), Pow(b, e);
      var k :| p == q + k * m;
      var w := PowOfSum(q, k * m, n);
      PowOfPow(a, e, n);
      PowOfPow(b, e, n);
      assert Pow(n, s) == n * e && e * n == n * e && Pow(n, s + 1) == n * m;
      LiftTerms(n, m, e, k, Pow(q, n - 1), w);
      CongIntro(Pow(p, n), Pow(q, n), Pow(n, s + 1), Pow(q, n - 1) * k + k * (k * (e * w)));
    }
  }

  lemma LiftTerms(n: int, m: int, e: int, k: int, p: int, w: int)
    requires m == n * e
    ensures n * (p * (k * m)) + (k * m) * ((k * m) * w) == (p * k + k * (k * (e * w))) * (n * m)
  {
    assert n * (p * (k * m)) == (p * k) * (n * m);
    assert (k * m) * ((k * m) * w) == (k * (k * (e * w))) * (n * m) by {
      assert (k * m) * ((k * m) * w) == (k * k * w) * (m * m);
      assert (k * (k * (e * w))) * (n * m) == (k * k * w) * ((e * n) * m);
    }
  }
}
