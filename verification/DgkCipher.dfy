/** Damgard-Geisler-Kroigaard at the level of integers: orders, the logarithm table, what a ciphertext
    holds, and when generated keys work. */
module DgkCipher {
  import opened Arith
  import opened NumberTheory
  import opened BigNum
  import opened PaillierKeys

  /** Powers modulo p as residues. */
  function Power(b: int, e: nat, p: int): (r: int)
    requires p > 0
    ensures 0 <= r < p && Cong(r, Pow(b, e), p)
  {
    CongMod(Pow(b, e), p);
    Pow(b, e) % p
  }

  /** table maps every one of the first u powers of qm to its least exponent, and nothing else. */
  ghost predicate IsLogTable(table: map<int, int>, qm: int, p: int, u: int)
    requires p > 0
  {
    && (forall i: nat :: i < u ==> Power(qm, i, p) in table)
    && forall c :: c in table ==> 0 <= table[c] < u && c == Power(qm, table[c], p)
                                  && forall j: nat :: j < table[c] ==> Power(qm, j, p) != c
  }

  // ------------------------------------------------------------------ elements of prime order

  lemma PowersEqual(a: int, i: nat, j: nat, p: int)
    requires p > 0 && Power(a, i, p) == Power(a, j, p)
    ensures Cong(Pow(a, i), Pow(a, j), p)
  {
    hide Cong;
    CongSym(Power(a, i, p), Pow(a, i), p);
    CongTrans(Pow(a, i), Power(a, i, p), Pow(a, j), p);
  }

  /** If a^u == 1 for a prime u and a is not 1, the first u powers of a are distinct. */
  lemma PrimeOrder(a: int, u: int, p: int, i: nat, j: nat)
    requires p > 1 && IsPrime(u) && Unit(a, p) && Cong(Pow(a, u), 1, p) && !Cong(a, 1, p)
    requires i < j < u
    ensures Power(a, i, p) != Power(a, j, p)
  {
    hide Cong, Pow, Unit, IsPrime;
    if Power(a, i, p) == Power(a, j, p) {
      PowersEqual(a, i, j, p);
      PowAdd(a, i, j - i);
      UnitPow(a, i, p);
      CongSym(Pow(a, i), Pow(a, j), p);
      CongCancel(Pow(a, i), Pow(a, j - i), 1, p);
      SmallUnit(j - i, u);
      OrderOne(a, j - i, u, p);
    }
  }

  /** a^d == 1 and a^u == 1 with d invertible modulo u force a == 1. */
  lemma OrderOne(a: int, d: nat, u: nat, p: int)
    requires u > 0 && p > 1 && Cong(Pow(a, d), 1, p) && Cong(Pow(a, u), 1, p) && Unit(d, u)
    ensures Cong(a, 1, p)
  {
    hide Pow, Unit;
    var e := InvMod(d, u);
    var k :| d * e == 1 + k * u;
    hide Cong;
    NonNegativeQuotient(d, e, k, u);
    PowOfPow(a, d, e);
    CongPow(Pow(a, d), 1, e, p);
    PowOne(e);
    if k >= 0 {
      PowOfPow(a, u, k);
      CongPow(Pow(a, u), 1, k, p);
      PowOne(k);
      PowAdd(a, 1, k * u);
      PowTwo(a);
      assert u * k == k * u;
      CongRefl(a, p);
      CongMul(a, a, Pow(a, k * u), 1, p);
      CongSym(Pow(a, d * e), a, p);
      CongTrans(a, Pow(a, d * e), 1, p);
    } else {
      // u == 1
      PowTwo(a);
    }
  }

  lemma NonNegativeQuotient(d: nat, e: nat, k: int, u: nat)
    requires u > 0 && d * e == 1 + k * u
    ensures k >= 0 || (k == -1 && u == 1)
    ensures k >= 0 ==> k * u >= 0
  {
    assert d * e >= 0;
    if k < 0 {
      assert k * u <= -1 * u;
    } else {
      assert k * u >= 0;
    }
  }

  // ------------------------------------------------------------------ ciphertexts

  /** n = p * q, qm = g^vp modulo p, and whether g, hence every ciphertext, is invertible modulo n. */
  datatype Params = Params(p: int, q: int, vp: nat, u: int, qm: int, units: bool)
  {
    ghost predicate Valid()
    {
      p > 1 && q > 1 && IsPrime(u) && u % 2 == 1 && Unit(qm, p) && Cong(Pow(qm, u), 1, p)
    }

    function N(): int
    {
      p * q
    }
  }

  /** The vp-th power of c is qm^x modulo p: a ciphertext of x. */
  ghost predicate Holds(c: int, x: int, k: Params)
    requires k.Valid()
  {
    (k.units ==> Unit(c, k.N())) && Cong(Pow(c, k.vp), ZPow(k.qm, x, k.p), k.p)
  }

  lemma HoldsSame(c: int, d: int, x: int, k: Params)
    requires k.Valid() && Holds(d, x, k) && Cong(c, d, k.N())
    ensures Holds(c, x, k)
  {
    hide Cong, Pow, IsPrime, ZPow;
    CongSym(c, d, k.N());
    if k.units { UnitCong(d, c, k.N()); }
    CongWeaken(c, d, k.p, k.q);
    CongPow(c, d, k.vp, k.p);
    CongTrans(Pow(c, k.vp), Pow(d, k.vp), ZPow(k.qm, x, k.p), k.p);
  }

  lemma HoldsProduct(c: int, x: int, d: int, y: int, k: Params)
    requires k.Valid() && Holds(c, x, k) && Holds(d, y, k)
    ensures Holds(c * d, x + y, k)
  {
    hide Cong, Pow, IsPrime, ZPow;
    if k.units { UnitMul(c, d, k.N()); }
    PowOfProduct(c, d, k.vp);
    CongMul(Pow(c, k.vp), ZPow(k.qm, x, k.p), Pow(d, k.vp), ZPow(k.qm, y, k.p), k.p);
    ZPowAdd(k.qm, x, y, k.p);
    CongSym(ZPow(k.qm, x + y, k.p), ZPow(k.qm, x, k.p) * ZPow(k.qm, y, k.p), k.p);
    CongTrans(Pow(c * d, k.vp), ZPow(k.qm, x, k.p) * ZPow(k.qm, y, k.p), ZPow(k.qm, x + y, k.p), k.p);
  }

  lemma HoldsPower(c: int, x: int, e: nat, k: Params)
    requires k.Valid() && Holds(c, x, k)
    ensures Holds(Pow(c, e), x * e, k)
  {
    hide Cong, Pow, IsPrime, ZPow;
    if k.units { UnitPow(c, e, k.N()); }
    PowOfPow(c, e, k.vp);
    PowOfPow(c, k.vp, e);
    assert e * k.vp == k.vp * e;
    CongPow(Pow(c, k.vp), ZPow(k.qm, x, k.p), e, k.p);
    PowOfZPow(k.qm, x, e, k.p);
    CongTrans(Pow(c, e * k.vp), Pow(ZPow(k.qm, x, k.p), e), ZPow(k.qm, x * e, k.p), k.p);
  }

  lemma HoldsInverse(c: int, i: int, x: int, k: Params)
    requires k.Valid() && Holds(c, x, k) && Cong(c * i, 1, k.N())
    ensures Holds(i, -x, k)
  {
    hide Cong, Pow, IsPrime;
    assert c * i == i * c;
    UnitIntro(i, c, k.N());
    CongWeaken(c * i, 1, k.p, k.q);
    CongPow(c * i, 1, k.vp, k.p);
    PowOne(k.vp);
    PowOfProduct(c, i, k.vp);
    ZPowAdd(k.qm, x, -x, k.p);
    assert ZPow(k.qm, 0, k.p) == 1 by { PowZero(k.qm); }
    hide ZPow;
    var a, b, z := Pow(c, k.vp), Pow(i, k.vp), ZPow(k.qm, x, k.p);
    CongRefl(b, k.p);
    CongMul(a, z, b, b, k.p);
    CongSym(a * b, z * b, k.p);
    CongTrans(z * b, a * b, 1, k.p);
    CongSym(ZPow(k.qm, 0, k.p), z * ZPow(k.qm, -x, k.p), k.p);
    InverseUnique(z, b, ZPow(k.qm, -x, k.p), k.p);
  }

  lemma PowZero(b: int)
    ensures Pow(b, 0) == 1
  {
  }

  lemma HoldsZPow(c: int, x: int, e: int, k: Params)
    requires k.Valid() && k.N() > 0 && Holds(c, x, k) && Unit(c, k.N())
    ensures Holds(ZPow(c, e, k.N()), x * e, k)
  {
    hide Cong, Pow, Holds, IsPrime;
    if e >= 0 {
      HoldsPower(c, x, e, k);
    } else {
      HoldsInverse(c, InvMod(c, k.N()), x, k);
      HoldsPower(InvMod(c, k.N()), -x, -e, k);
      assert (-x) * (-e) == x * e;
    }
  }

  /** g holds 1 and h = g^u holds 0. */
  lemma HoldsGenerators(g: int, h: int, k: Params)
    requires k.Valid() && (k.units ==> Unit(g, k.N())) && Cong(k.qm, Pow(g, k.vp), k.p) && Cong(h, Pow(g, k.u), k.N())
    ensures Holds(g, 1, k) && Holds(h, 0, k)
  {
    hide Cong, Pow, IsPrime;
    assert k.u > 0 by { PrimeAboveOne(k.u); }
    assert ZPow(k.qm, 1, k.p) == k.qm by { PowTwo(k.qm); }
    assert ZPow(k.qm, 0, k.p) == 1 by { PowZero(k.qm); }
    CongSym(k.qm, Pow(g, k.vp), k.p);
    var a := Pow(g, k.u);
    if k.units { UnitPow(g, k.u, k.N()); }
    PowOfPow(g, k.u, k.vp);
    PowOfPow(g, k.vp, k.u);
    assert k.u * k.vp == k.vp * k.u;
    CongPow(Pow(g, k.vp), k.qm, k.u, k.p);
    CongTrans(Pow(a, k.vp), Pow(k.qm, k.u), 1, k.p);
    HoldsSame(h, a, 0, k);
  }

  // ------------------------------------------------------------------ decryption

  /** The key looked up for a ciphertext of x is the power of qm with exponent x mod u. */
  lemma LookupKey(c: int, x: int, k: Params, z: int)
    requires k.Valid() && Holds(c, x, k) && z == PowMod(c % k.p, k.vp, k.p)
    ensures 0 <= x % k.u && z == Power(k.qm, x % k.u, k.p)
  {
    hide Cong, Pow, IsPrime, ZPow, PowMod, Unit, Power;
    assert k.u > 0 by { PrimeAboveOne(k.u); }
    CongMod(c, k.p);
    CongPow(c % k.p, c, k.vp, k.p);
    CongTrans(z, Pow(c % k.p, k.vp), Pow(c, k.vp), k.p);
    CongTrans(z, Pow(c, k.vp), ZPow(k.qm, x, k.p), k.p);
    ReduceExponent(k.qm, x, k.u, k.p);
    var w := Pow(k.qm, x % k.u);
    CongSym(w, ZPow(k.qm, x, k.p), k.p);
    CongTrans(z, ZPow(k.qm, x, k.p), w, k.p);
    CongSym(Power(k.qm, x % k.u, k.p), w, k.p);
    CongTrans(z, w, Power(k.qm, x % k.u, k.p), k.p);
    CongClose(z, Power(k.qm, x % k.u, k.p), k.p);
  }

  /** With qm of order u the table is the discrete logarithm: every exponent below u comes back. */
  lemma TableInverts(table: map<int, int>, k: Params, i: nat)
    requires k.Valid() && IsLogTable(table, k.qm, k.p, k.u) && !Cong(k.qm, 1, k.p) && i < k.u
    ensures Power(k.qm, i, k.p) in table && table[Power(k.qm, i, k.p)] == i
  {
    hide Cong, Pow, IsPrime, Unit, Power;
    var c := Power(k.qm, i, k.p);
    var j := table[c];
    if j < i { PrimeOrder(k.qm, k.u, k.p, j, i); }
  }

  /** With qm == 1 every lookup that succeeds answers 0. */
  lemma DegenerateTable(table: map<int, int>, k: Params, i: nat)
    requires k.Valid() && IsLogTable(table, k.qm, k.p, k.u) && Cong(k.qm, 1, k.p) && i < k.u
    ensures Power(k.qm, i, k.p) in table && table[Power(k.qm, i, k.p)] == 0
  {
    hide Cong, Pow, IsPrime, Unit;
    assert k.u > 0 by { PrimeAboveOne(k.u); }
    CongPow(k.qm, 1, i, k.p);
    PowOne(i);
    PowZero(k.qm);
    ModFromCong(Pow(k.qm, i), 1, k.p);
    assert Power(k.qm, i, k.p) == Power(k.qm, 0, k.p);
  }

  // ------------------------------------------------------------------ key generation

  /** The generator's qm = (gp^(wp*wq))^vp has order u exactly when u does not divide wq: the loops
      check wq against vp only. */
  lemma GeneratorOrder(p: int, u: int, vp: nat, wp: nat, wq: nat, gp: int, g: int, qm: int)
    requires IsPrime(p) && IsPrime(u) && p == u * vp * wp + 1 && Unit(gp, p) && vp * wp >= 0 && wp * wq >= 0
    requires !Cong(Pow(gp, vp * wp), 1, p)
    requires Cong(g, Pow(gp, wp * wq), p) && Cong(qm, Pow(g, vp), p)
    ensures Unit(qm, p) && Cong(Pow(qm, u), 1, p)
    ensures Cong(qm, 1, p) <==> Cong(wq, 0, u)
  {
    Reorder(u, vp, wp);
    Reorder2(vp, wp, wq);
    OrderFromExponents(p, u, vp, vp * wp, wp * wq, wq, gp, g, qm);
  }

  /** The same with the exponents e = vp*wp and f = wp*wq abstracted. */
  lemma OrderFromExponents(p: int, u: int, vp: nat, e: nat, f: nat, wq: nat, gp: int, g: int, qm: int)
    requires IsPrime(p) && IsPrime(u) && e * u == p - 1 && f * vp == e * wq && Unit(gp, p)
    requires !Cong(Pow(gp, e), 1, p) && Cong(g, Pow(gp, f), p) && Cong(qm, Pow(g, vp), p)
    ensures Unit(qm, p) && Cong(Pow(qm, u), 1, p)
    ensures Cong(qm, 1, p) <==> Cong(wq, 0, u)
  {
    hide Cong, Pow, IsPrime, Unit;
    assert p > 1 && u > 0 by { PrimeAboveOne(p); PrimeAboveOne(u); }
    var a := Pow(gp, e);
    UnitPow(gp, e, p);
    Fermat(gp, p);
    PowOfPow(gp, e, u);
    PowOfPow(gp, f, vp);
    PowOfPow(gp, e, wq);
    CongPow(g, Pow(gp, f), vp, p);
    CongTrans(qm, Pow(g, vp), Pow(a, wq), p);
    UnitPow(a, wq, p);
    CongSym(qm, Pow(a, wq), p);
    UnitCong(Pow(a, wq), qm, p);
    PowerOfOrder(a, qm, wq, u, p);
    OrderDivides(a, wq, u, p);
    if Cong(wq, 0, u) { CongTrans(qm, Pow(a, wq), 1, p); }
    if Cong(qm, 1, p) { CongTrans(Pow(a, wq), qm, 1, p); }
  }

  lemma PowerOfOrder(a: int, b: int, w: nat, u: nat, p: int)
    requires Cong(Pow(a, u), 1, p) && Cong(b, Pow(a, w), p)
    ensures Cong(Pow(b, u), 1, p)
  {
    hide Cong, Pow;
    CongPow(b, Pow(a, w), u, p);
    PowOfPow(a, w, u);
    PowOfPow(a, u, w);
    CongPow(Pow(a, u), 1, w, p);
    PowOne(w);
    assert w * u == u * w;
    CongTrans(Pow(b, u), Pow(a, w * u), 1, p);
  }

  lemma Reorder(u: int, v: int, w: int)
    ensures (v * w) * u == u * v * w
  {
  }

  lemma Reorder2(v: int, w: int, x: int)
    ensures (w * x) * v == (v * w) * x
  {
  }

  /** For a of prime order u: a^e == 1 exactly when u divides e. */
  lemma OrderDivides(a: int, e: nat, u: int, p: int)
    requires p > 1 && IsPrime(u) && Cong(Pow(a, u), 1, p) && !Cong(a, 1, p)
    ensures Cong(Pow(a, e), 1, p) <==> Cong(e, 0, u)
  {
    hide Pow, Unit, IsPrime;
    assert u > 1 by { PrimeAboveOne(u); }
    if Cong(e, 0, u) {
      var k :| e == 0 + k * u;
      hide Cong;
      MultipleBounds(k, u);
      PowOfPow(a, u, k);
      CongPow(Pow(a, u), 1, k, p);
      PowOne(k);
      assert u * k == k * u;
    } else {
      hide Cong;
      PrimeUnit(e, u);
      if Cong(Pow(a, e), 1, p) { OrderOne(a, e, u, p); }
    }
  }
}
