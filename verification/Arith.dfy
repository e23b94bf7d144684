/** Integer powers, congruences with an explicit quotient, and units of Z/m.

    A congruence is an existential over its quotient, so a proof combines the quotients of its
    premises by hand and leaves the solver polynomial identities only.  Proofs elsewhere `hide`
    the definition and combine congruences through the lemmas below. */
module Arith {

  // ------------------------------------------------------------------ powers

  function Pow(b: int, e: nat): (r: int)
    ensures b >= 0 ==> r >= 0
    ensures b > 0 ==> r > 0
  {
    if e == 0 then 1 else b * Pow(b, e - 1)
  }

  lemma PowHalf(k: nat)
    requires k > 0
    ensures Pow(2, k) == 2 * Pow(2, k - 1)
  {
  }

  lemma {:induction false} PowAdd(b: int, d: nat, e: nat)
    ensures Pow(b, d + e) == Pow(b, d) * Pow(b, e)
  {
    if d > 0 {
      PowAdd(b, d - 1, e);
      assert Pow(b, d + e) == b * Pow(b, d - 1 + e);
    }
  }

  lemma Regroup(a: int, b: int, x: int, y: int)
    ensures (a * b) * (x * y) == (a * x) * (b * y)
  {
    assert (a * b) * (x * y) == a * (b * x) * y;
  }

  lemma MulAssoc(a: int, b: int, c: int)
    ensures (a * b) * c == a * (b * c)
  {
  }

  lemma {:induction false} PowOfProduct(a: int, b: int, e: nat)
    ensures Pow(a * b, e) == Pow(a, e) * Pow(b, e)
  {
    if e > 0 {
      PowOfProduct(a, b, e - 1);
      Regroup(a, b, Pow(a, e - 1), Pow(b, e - 1));
    }
  }

  lemma {:induction false} PowOfPow(b: int, d: nat, e: nat)
    ensures d * e >= 0
    ensures Pow(Pow(b, d), e) == Pow(b, d * e)
  {
    if e > 0 {
      PowOfPow(b, d, e - 1);
      assert d * e == d + d * (e - 1);
      PowAdd(b, d, d * (e - 1));
    }
  }

  lemma {:induction false} PowOne(e: nat)
    ensures Pow(1, e) == 1
  {
    if e > 0 { PowOne(e - 1); }
  }

  lemma PowAtLeastBase(b: int, e: nat)
    requires b > 0 && e > 0
    ensures Pow(b, e) >= b
  {
    assert b * Pow(b, e - 1) >= b * 1;
  }

  lemma {:induction false} PowMonotone(b: int, d: nat, e: nat)
    requires b > 0 && d <= e
    ensures Pow(b, d) <= Pow(b, e)
  {
    PowAdd(b, d, e - d);
    assert Pow(b, d) * 1 <= Pow(b, d) * Pow(b, e - d);
  }

  /** Bit length of a non-negative number. */
  function BitCount(x: int): (b: nat)
    ensures x < Pow(2, b)
  {
    if x <= 0 then 0 else 1 + BitCount(x / 2)
  }

  lemma {:induction false} BitCountLow(x: int)
    requires x > 0
    ensures BitCount(x) >= 1 && Pow(2, BitCount(x) - 1) <= x < Pow(2, BitCount(x))
  {
    if x > 1 {
      BitCountLow(x / 2);
      PowHalf(BitCount(x) - 1);
    }
  }

  // ------------------------------------------------------------------ congruences

  ghost predicate Cong(a: int, b: int, m: int)
  {
    exists k: int :: a == b + k * m
  }

  lemma CongIntro(a: int, b: int, m: int, k: int)
    requires a == b + k * m
    ensures Cong(a, b, m)
  {
  }

  lemma CongRefl(a: int, m: int)
    ensures Cong(a, a, m)
  {
    CongIntro(a, a, m, 0);
  }

  lemma CongSym(a: int, b: int, m: int)
    requires Cong(a, b, m)
    ensures Cong(b, a, m)
  {
    var k :| a == b + k * m;
    CongIntro(b, a, m, -k);
  }

  lemma CongTrans(a: int, b: int, c: int, m: int)
    requires Cong(a, b, m) && Cong(b, c, m)
    ensures Cong(a, c, m)
  {
    var k :| a == b + k * m;
    var l :| b == c + l * m;
    CongIntro(a, c, m, k + l);
  }

  lemma CongAdd(a: int, b: int, c: int, d: int, m: int)
    requires Cong(a, b, m) && Cong(c, d, m)
    ensures Cong(a + c, b + d, m)
  {
    var k :| a == b + k * m;
    var l :| c == d + l * m;
    CongIntro(a + c, b + d, m, k + l);
  }

  lemma CongSub(a: int, b: int, c: int, d: int, m: int)
    requires Cong(a, b, m) && Cong(c, d, m)
    ensures Cong(a - c, b - d, m)
  {
    var k :| a == b + k * m;
    var l :| c == d + l * m;
    CongIntro(a - c, b - d, m, k - l);
  }

  lemma CongMul(a: int, b: int, c: int, d: int, m: int)
    requires Cong(a, b, m) && Cong(c, d, m)
    ensures Cong(a * c, b * d, m)
  {
    var k :| a == b + k * m;
    var l :| c == d + l * m;
    CongIntro(a * c, b * d, m, k * d + l * b + k * l * m);
  }

  lemma {:induction false} CongPow(a: int, b: int, e: nat, m: int)
    requires Cong(a, b, m)
    ensures Cong(Pow(a, e), Pow(b, e), m)
  {
    if e == 0 {
      CongRefl(1, m);
    } else {
      CongPow(a, b, e - 1, m);
      CongMul(a, b, Pow(a, e - 1), Pow(b, e - 1), m);
    }
  }

  /** A congruence survives multiplication of both sides and the modulus. */
  lemma CongScale(a: int, b: int, m: int, c: int)
    requires Cong(a, b, m)
    ensures Cong(c * a, c * b, c * m)
  {
    var k :| a == b + k * m;
    CongIntro(c * a, c * b, c * m, k);
  }

  /** A congruence mod a multiple of m is one mod m. */
  lemma CongWeaken(a: int, b: int, m: int, c: int)
    requires Cong(a, b, c * m)
    ensures Cong(a, b, m)
  {
    var k :| a == b + k * (c * m);
    CongIntro(a, b, m, k * c);
  }

  lemma CongPowWeaken(a: int, b: int, p: int, d: nat, e: nat)
    requires d <= e && Cong(a, b, Pow(p, e))
    ensures Cong(a, b, Pow(p, d))
  {
    PowAdd(p, e - d, d);
    CongWeaken(a, b, Pow(p, d), Pow(p, e - d));
  }

  lemma CongMultiple(m: int, k: int)
    ensures Cong(k * m, 0, m)
  {
    CongIntro(k * m, 0, m, k);
  }

  lemma DivMod(a: int, m: int)
    requires m > 0
    ensures a == (a / m) * m + a % m && 0 <= a % m < m
  {
  }

  lemma CongMod(a: int, m: int)
    requires m > 0
    ensures Cong(a % m, a, m) && Cong(a, a % m, m)
  {
    CongIntro(a % m, a, m, -(a / m));
    CongIntro(a, a % m, m, a / m);
  }

  lemma SmallMultiple(k: int, m: int)
    requires -m < k * m < m
    ensures k == 0
  {
    assert m > 0;
    assert k >= 1 ==> k * m >= m;
    assert k <= -1 ==> k * m <= -m;
  }

  /** Two congruent numbers closer than the modulus are equal. */
  lemma CongClose(a: int, b: int, m: int)
    requires Cong(a, b, m) && -m < a - b < m
    ensures a == b
  {
    var k :| a == b + k * m;
    SmallMultiple(k, m);
  }

  lemma ModFromCong(a: int, b: int, m: int)
    requires m > 0 && Cong(a, b, m)
    ensures a % m == b % m
  {
    CongMod(a, m);
    CongMod(b, m);
    CongTrans(a % m, a, b, m);
    CongTrans(a % m, b, b % m, m);
    CongClose(a % m, b % m, m);
  }

  lemma CongFromMod(a: int, b: int, m: int)
    requires m > 0 && a % m == b % m
    ensures Cong(a, b, m)
  {
    CongIntro(a, b, m, a / m - b / m);
  }

  /** The residue is the only number of [0, m) in its class. */
  lemma ModIs(a: int, r: int, m: int)
    requires 0 <= r < m && Cong(a, r, m)
    ensures a % m == r
  {
    CongMod(a, m);
    CongTrans(a % m, a, r, m);
    CongClose(a % m, r, m);
  }

  lemma MultipleTest(a: int, m: int)
    requires m > 0
    ensures Cong(a, 0, m) <==> a % m == 0
  {
    if Cong(a, 0, m) { ModIs(a, 0, m); }
    if a % m == 0 { CongMod(a, m); }
  }

  lemma OddProduct(a: int, b: int)
    requires a % 2 == 1 && b % 2 == 1
    ensures (a * b) % 2 == 1
  {
    var k, l := a / 2, b / 2;
    assert a * b == (2 * k + 1) * b == 2 * (k * b) + b;
  }

  lemma MultipleBounds(k: int, p: int)
    requires p > 0
    ensures (k < 0 ==> k * p <= -p) && (k >= p ==> k * p >= p * p)
  {
    if k < 0 { assert (-1 - k) * p >= 0; }
    if k >= p { assert (k - p) * p >= 0; }
  }

  /** A two-digit number in mixed radix. */
  lemma MixedRadix(t: int, d: int, p: int, q: int)
    requires 0 <= t < q && 0 <= d < p
    ensures 0 <= t * p + d < p * q
  {
    assert 0 <= t * p;
    assert t * p <= (q - 1) * p == p * q - p;
  }

  // ------------------------------------------------------------------ units

  ghost predicate Unit(a: int, m: int)
  {
    exists u: int :: Cong(a * u, 1, m)
  }

  lemma UnitIntro(a: int, u: int, m: int)
    requires Cong(a * u, 1, m)
    ensures Unit(a, m)
  {
  }

  lemma MinusOneUnit(p: int)
    ensures Unit(p - 1, p)
  {
    CongIntro((p - 1) * (p - 1), 1, p, p - 2);
    UnitIntro(p - 1, p - 1, p);
  }

  lemma UnitCong(a: int, b: int, m: int)
    requires Unit(a, m) && Cong(a, b, m)
    ensures Unit(b, m)
  {
    var u :| Cong(a * u, 1, m);
    CongRefl(u, m);
    CongMul(a, b, u, u, m);
    CongSym(a * u, b * u, m);
    CongTrans(b * u, a * u, 1, m);
    UnitIntro(b, u, m);
  }

  lemma UnitMul(a: int, b: int, m: int)
    requires Unit(a, m) && Unit(b, m)
    ensures Unit(a * b, m)
  {
    var u :| Cong(a * u, 1, m);
    var v :| Cong(b * v, 1, m);
    CongMul(a * u, 1, b * v, 1, m);
    Regroup(a, b, u, v);
    UnitIntro(a * b, u * v, m);
  }

  lemma UnitFactor(a: int, b: int, m: int)
    requires Unit(a * b, m)
    ensures Unit(a, m) && Unit(b, m)
  {
    var u :| Cong((a * b) * u, 1, m);
    assert (a * b) * u == a * (b * u) && (a * b) * u == b * (a * u);
    UnitIntro(a, b * u, m);
    UnitIntro(b, a * u, m);
  }

  lemma {:induction false} UnitPow(a: int, e: nat, m: int)
    requires Unit(a, m)
    ensures Unit(Pow(a, e), m)
  {
    if e == 0 {
      CongRefl(1, m);
      UnitIntro(1, 1, m);
    } else {
      UnitPow(a, e - 1, m);
      UnitMul(a, Pow(a, e - 1), m);
    }
  }

  /** Being a unit is symmetric in the number and the modulus (both say: coprime). */
  lemma UnitSwap(a: int, m: int)
    requires Unit(a, m)
    ensures Unit(m, a)
  {
    var u :| Cong(a * u, 1, m);
    var k :| a * u == 1 + k * m;
    CongIntro(m * (-k), 1, a, -u);
    UnitIntro(m, -k, a);
  }

  lemma UnitModProduct(a: int, m: int, n: int)
    requires Unit(a, m) && Unit(a, n)
    ensures Unit(a, m * n)
  {
    UnitSwap(a, m);
    UnitSwap(a, n);
    UnitMul(m, n, a);
    UnitSwap(m * n, a);
  }

  lemma UnitModFactor(a: int, m: int, n: int)
    requires Unit(a, m * n)
    ensures Unit(a, m) && Unit(a, n)
  {
    UnitSwap(a, m * n);
    UnitFactor(m, n, a);
    UnitSwap(m, a);
    UnitSwap(n, a);
  }

  lemma UnitModPow(a: int, m: int, e: nat)
    requires Unit(a, m)
    ensures Unit(a, Pow(m, e))
  {
    UnitSwap(a, m);
    UnitPow(m, e, a);
    UnitSwap(Pow(m, e), a);
  }

  lemma CongCancel(a: int, x: int, y: int, m: int)
    requires Unit(a, m) && Cong(a * x, a * y, m)
    ensures Cong(x, y, m)
  {
    hide Cong;
    var u :| Cong(a * u, 1, m);
    CongRefl(u, m);
    CongMul(a * x, a * y, u, u, m);
    CongRefl(x, m);
    CongMul(a * u, 1, x, x, m);
    CongRefl(y, m);
    CongMul(a * u, 1, y, y, m);
    assert a * x * u == a * u * x && a * y * u == a * u * y;
    CongSym(a * u * x, x, m);
    CongTrans(x, a * u * x, a * u * y, m);
    CongTrans(x, a * u * y, y, m);
  }

  /** Chinese remaindering: congruences modulo coprime m and n combine. */
  lemma Crt(a: int, b: int, m: int, n: int)
    requires Unit(m, n) && Cong(a, b, m) && Cong(a, b, n)
    ensures Cong(a, b, m * n)
  {
    var k :| a == b + k * m;
    var l :| a == b + l * n;
    CongIntro(m * k, m * 0, n, l);
    CongCancel(m, k, 0, n);
    var j :| k == 0 + j * n;
    assert k * m == j * (m * n);
    CongIntro(a, b, m * n, j);
  }
}
