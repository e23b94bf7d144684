/** The number theory behind the decryptors: Bezout, primes, generalised binomial coefficients,
    the truncated binomial series of (1 + x)^m for every integer m, and Fermat modulo prime powers. */
module NumberTheory {
  import opened Arith

  // ------------------------------------------------------------------ Bezout and inverses

  /** Extended Euclid: (g, x, y) with g == a*x + b*y dividing both a and b. */
  function Bezout(a: nat, b: nat): (r: (nat, int, int))
    ensures r.0 == a * r.1 + b * r.2
    ensures a > 0 || b > 0 ==> r.0 > 0
    ensures Cong(a, 0, r.0) && Cong(b, 0, r.0)
    decreases b
  {
    if b == 0 then
      CongIntro(a, 0, a, 1);
      CongIntro(0, 0, a, 0);
      (a, 1, 0)
    else
      var (g, x, y) := Bezout(b, a % b);
      BezoutStep(a, b, g, x, y);
      (g, y, x - (a / b) * y)
  }

  lemma BezoutStep(a: nat, b: nat, g: int, x: int, y: int)
    requires b > 0 && g == b * x + (a % b) * y
    requires Cong(b, 0, g) && Cong(a % b, 0, g)
    ensures g == a * y + b * (x - (a / b) * y)
    ensures Cong(a, 0, g)
  {
    DivMod(a, b);
    var q := a / b;
    assert a % b == a - q * b;
    assert (a - q * b) * y == a * y - b * (q * y);
    var k :| b == 0 + k * g;
    var l :| a % b == 0 + l * g;
    assert q * (k * g) == (q * k) * g;
    CongIntro(a, 0, g, q * k + l);
  }

  /** The inverse of a modulo m, in [0, m). */
  function InvMod(a: int, m: int): (r: int)
    requires m > 0 && Unit(a, m)
    ensures 0 <= r < m && Cong(a * r, 1, m)
  {
    var (g, x, y) := Bezout(a % m, m);
    InvModCorrect(a, m, g, x, y);
    x % m
  }

  lemma InvModCorrect(a: int, m: int, g: int, x: int, y: int)
    requires m > 0 && Unit(a, m) && g > 0 && g == (a % m) * x + m * y
    requires Cong(a % m, 0, g) && Cong(m, 0, g)
    ensures Cong(a * (x % m), 1, m)
  {
    hide Cong;
    CongMod(a, m);
    UnitCong(a, a % m, m);
    UnitGcd(a % m, m, g);
    CongMod(x, m);
    CongMul(a, a % m, x % m, x, m);
    assert Cong((a % m) * x, 1, m) by {
      CongIntro((a % m) * x, 1, m, -y);
    }
    CongTrans(a * (x % m), (a % m) * x, 1, m);
  }

  /** Common divisors of a unit and its modulus are 1. */
  lemma UnitGcd(a: int, m: int, g: int)
    requires Unit(a, m) && g > 0 && Cong(a, 0, g) && Cong(m, 0, g)
    ensures g == 1
  {
    hide Cong;
    var u :| Cong(a * u, 1, m);
    assert Cong(1, 0, g) by {
      CongRefl(u, g);
      CongMul(a, 0, u, u, g);
      DividesModulus(a * u, 1, m, g);
      CongSym(a * u, 1, g);
      CongTrans(1, a * u, 0, g);
    }
    if g > 1 { CongClose(1, 0, g); }
  }

  /** The test behind InvMod: a is invertible modulo m exactly when their gcd is 1. */
  lemma GcdTest(a: int, m: int)
    requires m > 1
    ensures Bezout(a % m, m).0 == 1 <==> Unit(a, m)
  {
    hide Cong, Bezout;
    var (g, x, y) := Bezout(a % m, m);
    CongMod(a, m);
    if g == 1 {
      CongIntro((a % m) * x, 1, m, -y);
      UnitIntro(a % m, x, m);
      UnitCong(a % m, a, m);
    }
    if Unit(a, m) {
      UnitCong(a, a % m, m);
      UnitGcd(a % m, m, g);
    }
  }

  /** A congruence mod m is one modulo every divisor of m. */
  lemma DividesModulus(a: int, b: int, m: int, d: int)
    requires Cong(a, b, m) && Cong(m, 0, d)
    ensures Cong(a, b, d)
  {
    var k :| a == b + k * m;
    var l :| m == 0 + l * d;
    CongIntro(a, b, d, k * l);
  }

  // ------------------------------------------------------------------ powers with any exponent

  /** b^e modulo m, where a negative exponent means the inverse of b. */
  function ZPow(b: int, e: int, m: int): int
    requires m > 0 && Unit(b, m)
  {
    if e >= 0 then Pow(b, e) else Pow(InvMod(b, m), -e)
  }

  lemma InverseUnique(a: int, x: int, y: int, m: int)
    requires Cong(a * x, 1, m) && Cong(a * y, 1, m)
    ensures Cong(x, y, m)
  {
    hide Cong;
    UnitIntro(a, x, m);
    CongSym(a * y, 1, m);
    CongTrans(a * x, 1, a * y, m);
    CongCancel(a, x, y, m);
  }

  lemma MulComm(a: int, b: int)
    ensures a * b == b * a
  {
  }

  lemma ZPowNegative(b: int, e: int, m: int)
    requires e >= 0 && m > 0 && Unit(b, m)
    ensures Cong(Pow(b, e) * ZPow(b, -e, m), 1, m)
    ensures Cong(ZPow(b, -e, m) * Pow(b, e), 1, m)
  {
    hide Cong, InvMod;
    if e == 0 {
      CongRefl(1, m);
    } else {
      hide Pow, Unit;
      var i := InvMod(b, m);
      PowOfProduct(b, i, e);
      CongPow(b * i, 1, e, m);
      PowOne(e);
      MulComm(Pow(b, e), Pow(i, e));
    }
  }

  lemma ZPowStep(b: int, e: int, m: int)
    requires m > 0 && Unit(b, m)
    ensures Cong(ZPow(b, e + 1, m), b * ZPow(b, e, m), m)
  {
    hide Cong;
    if e >= 0 {
      CongRefl(Pow(b, e + 1), m);
    } else {
      var i := InvMod(b, m);
      var w := Pow(i, -e - 1);
      assert Pow(i, -e) == i * w && b * (i * w) == (b * i) * w;
      CongRefl(w, m);
      CongMul(b * i, 1, w, w, m);
      CongSym((b * i) * w, 1 * w, m);
    }
  }

  lemma Swap(a: int, b: int, c: int)
    ensures a * (b * c) == b * (a * c)
  {
  }

  /** b^(d+e) == b^d * b^e for all integer exponents. */
  lemma {:induction false} ZPowAdd(b: int, d: int, e: int, m: int)
    requires m > 0 && Unit(b, m)
    ensures Cong(ZPow(b, d + e, m), ZPow(b, d, m) * ZPow(b, e, m), m)
    decreases if e < 0 then -e else e
  {
    hide Cong;
    var z := ZPow(b, d, m);
    CongRefl(z, m);
    CongRefl(b, m);
    if e == 0 {
    } else if e > 0 {
      ZPowAdd(b, d, e - 1, m);
      var w := ZPow(b, e - 1, m);
      ZPowStep(b, d + e - 1, m);
      CongMul(b, b, ZPow(b, d + e - 1, m), z * w, m);
      CongTrans(ZPow(b, d + e, m), b * ZPow(b, d + e - 1, m), b * (z * w), m);
      Swap(b, z, w);
    } else {
      ZPowAdd(b, d, e + 1, m);
      var w := ZPow(b, e, m);
      ZPowStep(b, d + e, m);
      ZPowStep(b, e, m);
      CongMul(z, z, ZPow(b, e + 1, m), b * w, m);
      CongSym(ZPow(b, d + e + 1, m), b * ZPow(b, d + e, m), m);
      CongTrans(b * ZPow(b, d + e, m), ZPow(b, d + e + 1, m), z * ZPow(b, e + 1, m), m);
      CongTrans(b * ZPow(b, d + e, m), z * ZPow(b, e + 1, m), z * (b * w), m);
      Swap(z, b, w);
      CongCancel(b, ZPow(b, d + e, m), z * w, m);
    }
  }

  lemma ZPowUnit(b: int, e: int, m: int)
    requires m > 0 && Unit(b, m)
    ensures Unit(ZPow(b, e, m), m)
  {
    hide Cong;
    if e >= 0 {
      UnitPow(b, e, m);
    } else {
      ZPowNegative(b, -e, m);
      UnitIntro(ZPow(b, e, m), Pow(b, -e), m);
    }
  }

  lemma ZPowCong(a: int, b: int, e: int, m: int)
    requires m > 0 && Unit(a, m) && Cong(a, b, m)
    ensures Unit(b, m)
    ensures Cong(ZPow(a, e, m), ZPow(b, e, m), m)
  {
    hide Cong;
    UnitCong(a, b, m);
    if e >= 0 {
      CongPow(a, b, e, m);
    } else {
      var i, j := InvMod(a, m), InvMod(b, m);
      CongRefl(j, m);
      CongMul(a, b, j, j, m);
      CongTrans(a * j, b * j, 1, m);
      InverseUnique(a, i, j, m);
      CongPow(i, j, -e, m);
    }
  }

  /** (a*b)^e == a^e * b^e. */
  lemma ZPowProduct(a: int, b: int, e: int, m: int)
    requires m > 0 && Unit(a, m) && Unit(b, m)
    ensures Unit(a * b, m)
    ensures Cong(ZPow(a * b, e, m), ZPow(a, e, m) * ZPow(b, e, m), m)
  {
    hide Cong;
    UnitMul(a, b, m);
    if e >= 0 {
      PowOfProduct(a, b, e);
      CongRefl(Pow(a * b, e), m);
    } else {
      var k := -e;
      ZPowNegative(a, k, m);
      ZPowNegative(b, k, m);
      ZPowNegative(a * b, k, m);
      PowOfProduct(a, b, k);
      var x, y := ZPow(a, e, m), ZPow(b, e, m);
      CongMul(Pow(a, k) * x, 1, Pow(b, k) * y, 1, m);
      Regroup(Pow(a, k), x, Pow(b, k), y);
      InverseUnique(Pow(a * b, k), ZPow(a * b, e, m), x * y, m);
    }
  }

  /** (b^d)^e == b^(d*e), for a natural outer exponent. */
  lemma {:induction false} PowOfZPow(b: int, d: int, e: nat, m: int)
    requires m > 0 && Unit(b, m)
    ensures Cong(Pow(ZPow(b, d, m), e), ZPow(b, d * e, m), m)
  {
    hide Cong;
    if e == 0 {
      CongRefl(1, m);
    } else {
      PowOfZPow(b, d, e - 1, m);
      var z := ZPow(b, d, m);
      CongRefl(z, m);
      CongMul(z, z, Pow(z, e - 1), ZPow(b, d * (e - 1), m), m);
      ZPowAdd(b, d, d * (e - 1), m);
      assert d + d * (e - 1) == d * e;
      CongSym(ZPow(b, d * e, m), z * ZPow(b, d * (e - 1), m), m);
      CongTrans(Pow(z, e), z * ZPow(b, d * (e - 1), m), ZPow(b, d * e, m), m);
    }
  }

  /** (b^d)^e == b^(d*e), for any integer exponents. */
  lemma ZPowOfZPow(b: int, d: int, e: int, m: int)
    requires m > 0 && Unit(b, m)
    ensures Unit(ZPow(b, d, m), m)
    ensures Cong(ZPow(ZPow(b, d, m), e, m), ZPow(b, d * e, m), m)
  {
    hide Cong;
    ZPowUnit(b, d, m);
    var z := ZPow(b, d, m);
    if e >= 0 {
      PowOfZPow(b, d, e, m);
    } else {
      var k := -e;
      ZPowNegative(z, k, m);
      PowOfZPow(b, d, k, m);
      var w := ZPow(b, d * e, m);
      CongRefl(w, m);
      CongMul(Pow(z, k), ZPow(b, d * k, m), w, w, m);
      ZPowAdd(b, d * k, d * e, m);
      assert d * k + d * e == 0;
      CongSym(ZPow(b, 0, m), ZPow(b, d * k, m) * w, m);
      CongTrans(Pow(z, k) * w, ZPow(b, d * k, m) * w, 1, m);
      InverseUnique(Pow(z, k), ZPow(z, e, m), w, m);
    }
  }

  // ------------------------------------------------------------------ primes

  ghost predicate IsPrime(p: int)
  {
    p >= 2 && forall d :: 2 <= d < p ==> p % d != 0
  }

  /** A prime that does not divide a leaves a invertible. */
  lemma PrimeUnit(a: int, p: int)
    requires IsPrime(p) && !Cong(a, 0, p)
    ensures Unit(a, p)
  {
    hide Cong;
    var (g, x, y) := Bezout(a % p, p);
    CongMod(a, p);
    if g == 1 {
      CongIntro((a % p) * x, 1, p, -y);
      UnitIntro(a % p, x, p);
      UnitCong(a % p, a, p);
    } else {
      if g > p { CongClose(p, 0, g); }
      if g < p {
        ModIs(p, 0, g);
      } else {
        CongTrans(a, a % p, 0, p);
      }
    }
  }

  lemma UnitNotMultiple(a: int, p: int)
    requires p >= 2 && Unit(a, p)
    ensures !Cong(a, 0, p)
  {
    hide Cong;
    if Cong(a, 0, p) {
      var u :| Cong(a * u, 1, p);
      CongRefl(u, p);
      CongMul(a, 0, u, u, p);
      CongSym(a * u, 1, p);
      CongTrans(1, a * u, 0, p);
      CongClose(1, 0, p);
    }
  }

  /** Numbers strictly between 0 and p are units modulo the prime p. */
  lemma SmallUnit(i: int, p: int)
    requires IsPrime(p) && 0 < i < p
    ensures Unit(i, p)
  {
    if Cong(i, 0, p) { CongClose(i, 0, p); }
    PrimeUnit(i, p);
  }

  /** Distinct primes are coprime. */
  lemma PrimesCoprime(p: int, q: int)
    requires IsPrime(p) && IsPrime(q) && p != q
    ensures Unit(p, q) && Unit(q, p)
  {
    if p < q {
      SmallUnit(p, q);
      UnitSwap(p, q);
    } else {
      SmallUnit(q, p);
      UnitSwap(q, p);
    }
  }

  /** A congruence mod n^e, n == p*q, is one mod p^e. */
  lemma ModPrimePower(a: int, b: int, n: int, p: int, q: int, e: nat)
    requires n == p * q && Cong(a, b, Pow(n, e))
    ensures Cong(a, b, Pow(p, e))
  {
    hide Cong, Pow;
    assert q * p == n;
    PowOfProduct(q, p, e);
    CongWeaken(a, b, Pow(p, e), Pow(q, e));
  }

  // ------------------------------------------------------------------ binomial coefficients

  /** m over k for every integer m: the polynomial m(m-1)...(m-k+1)/k!, by Pascal's rule read
      upwards for positive m and downwards for negative m. */
  function Binom(m: int, k: nat): int
    decreases if m < 0 then -m else m, k
  {
    if k == 0 then 1
    else if m == 0 then 0
    else if m > 0 then Binom(m - 1, k) + Binom(m - 1, k - 1)
    else Binom(m + 1, k) - Binom(m, k - 1)
  }

  lemma Pascal(m: int, k: nat)
    requires k > 0
    ensures Binom(m + 1, k) == Binom(m, k) + Binom(m, k - 1)
  {
  }

  /** k * (m over k) == (m - k + 1) * (m over k-1), for every integer m. */
  lemma {:induction false} BinomAbsorb(m: int, k: nat)
    requires k > 0
    ensures k * Binom(m, k) == (m - k + 1) * Binom(m, k - 1)
    decreases if m < 0 then -m else m, k
  {
    if m > 0 {
      BinomAbsorb(m - 1, k);
      if k > 1 {
        BinomAbsorb(m - 1, k - 1);
        Pascal(m - 1, k);
        Pascal(m - 1, k - 1);
        hide Binom;
        AbsorbUp(m, k, Binom(m - 1, k), Binom(m - 1, k - 1), Binom(m - 1, k - 2));
      }
    } else if m < 0 {
      BinomAbsorb(m + 1, k);
      if k > 1 {
        BinomAbsorb(m, k - 1);
        Pascal(m, k);
        Pascal(m, k - 1);
        hide Binom;
        AbsorbDown(m, k, Binom(m + 1, k), Binom(m, k - 1), Binom(m, k - 2));
      }
    }
  }

  lemma AbsorbUp(m: int, k: int, a: int, b: int, c: int)
    requires k * a == (m - k) * b && (k - 1) * b == (m - k + 1) * c
    ensures k * (a + b) == (m - k + 1) * (b + c)
  {
  }

  lemma AbsorbDown(m: int, k: int, a: int, b: int, c: int)
    requires k * a == (m - k + 2) * (b + c) && (k - 1) * b == (m - k + 2) * c
    ensures k * (a - b) == (m - k + 1) * b
  {
  }

  function Fact(k: nat): int
  {
    if k == 0 then 1 else k * Fact(k - 1)
  }

  /** The falling factorial m(m-1)...(m-k+1). */
  function Falling(m: int, k: nat): int
  {
    if k == 0 then 1 else Falling(m, k - 1) * (m - (k - 1))
  }

  lemma {:induction false} FactBinom(m: int, k: nat)
    ensures Fact(k) * Binom(m, k) == Falling(m, k)
  {
    if k > 0 {
      FactBinom(m, k - 1);
      BinomAbsorb(m, k);
      FactArith(k, Fact(k - 1), Binom(m, k), m - k + 1, Binom(m, k - 1));
    }
  }

  lemma FactArith(k: int, f: int, b: int, c: int, d: int)
    requires k * b == c * d
    ensures (k * f) * b == (f * d) * c
  {
    assert (k * f) * b == f * (k * b);
    assert f * (c * d) == (f * d) * c;
  }

  lemma {:induction false} BinomVanishes(m: nat, k: nat)
    requires m < k
    ensures Binom(m, k) == 0
  {
    if m > 0 {
      BinomVanishes(m - 1, k);
      BinomVanishes(m - 1, k - 1);
    }
  }

  // ------------------------------------------------------------------ the truncated series

  /** The terms of degree at most s of (1 + x)^m, for any integer m. */
  function Series(x: int, m: int, s: nat): int
  {
    if s == 0 then 1 else Series(x, m, s - 1) + Binom(m, s) * Pow(x, s)
  }

  /** Raising m by one multiplies the series by 1 + x, up to the term of degree s + 1. */
  lemma {:induction false} SeriesStep(x: int, m: int, s: nat)
    ensures Series(x, m + 1, s) == (1 + x) * Series(x, m, s) - Binom(m, s) * Pow(x, s + 1)
  {
    if s == 0 {
      assert Pow(x, 1) == x * Pow(x, 0) == x;
    } else {
      SeriesStep(x, m, s - 1);
      Pascal(m, s);
      assert Pow(x, s + 1) == x * Pow(x, s);
      StepArith(x, Series(x, m, s - 1), Binom(m, s), Binom(m, s - 1), Pow(x, s));
    }
  }

  lemma StepArith(x: int, g: int, b: int, c: int, y: int)
    ensures ((1 + x) * g - c * y) + (b + c) * y == (1 + x) * (g + b * y) - b * (x * y)
  {
  }

  lemma SeriesStepCong(x: int, m: int, s: nat)
    ensures Cong(Series(x, m + 1, s), (1 + x) * Series(x, m, s), Pow(x, s + 1))
  {
    SeriesStep(x, m, s);
    CongIntro(Series(x, m + 1, s), (1 + x) * Series(x, m, s), Pow(x, s + 1), -Binom(m, s));
  }

  lemma {:induction false} SeriesZero(x: int, s: nat)
    ensures Series(x, 0, s) == 1
  {
    if s > 0 { SeriesZero(x, s - 1); }
  }

  lemma OnePlusUnit(x: int, e: nat)
    ensures Unit(1 + x, Pow(x, e))
  {
    CongIntro((1 + x) * 1, 1, x, 1);
    UnitIntro(1 + x, 1, x);
    UnitModPow(1 + x, x, e);
  }

  /** Modulo x^(s+1) the truncated series is (1 + x)^m, negative m included. */
  lemma {:induction false} SeriesIsPower(x: int, m: int, s: nat)
    requires x > 0
    ensures Unit(1 + x, Pow(x, s + 1))
    ensures Cong(Series(x, m, s), ZPow(1 + x, m, Pow(x, s + 1)), Pow(x, s + 1))
    decreases if m < 0 then -m else m
  {
    hide Cong;
    var q, b := Pow(x, s + 1), 1 + x;
    OnePlusUnit(x, s + 1);
    CongRefl(b, q);
    if m == 0 {
      SeriesZero(x, s);
      CongRefl(1, q);
    } else if m > 0 {
      SeriesIsPower(x, m - 1, s);
      SeriesStepCong(x, m - 1, s);
      CongMul(b, b, Series(x, m - 1, s), ZPow(b, m - 1, q), q);
      CongTrans(Series(x, m, s), b * Series(x, m - 1, s), ZPow(b, m, q), q);
    } else {
      SeriesIsPower(x, m + 1, s);
      SeriesStepCong(x, m, s);
      ZPowStep(b, m, q);
      CongSym(Series(x, m + 1, s), b * Series(x, m, s), q);
      CongTrans(b * Series(x, m, s), Series(x, m + 1, s), ZPow(b, m + 1, q), q);
      CongTrans(b * Series(x, m, s), ZPow(b, m + 1, q), b * ZPow(b, m, q), q);
      CongCancel(b, Series(x, m, s), ZPow(b, m, q), q);
    }
  }

  /** The series is exact once s reaches a natural exponent: the binomial theorem. */
  lemma {:induction false} BinomialTheorem(x: int, m: nat, s: nat)
    requires m <= s
    ensures Series(x, m, s) == Pow(1 + x, m)
  {
    if m == 0 {
      SeriesZero(x, s);
    } else {
      BinomialTheorem(x, m - 1, s);
      SeriesStep(x, m - 1, s);
      BinomVanishes(m - 1, s);
    }
  }

  // ------------------------------------------------------------------ Fermat

  lemma PrimeDividesBinom(p: int, k: nat)
    requires IsPrime(p) && 0 < k < p
    ensures Cong(Binom(p, k), 0, p)
  {
    hide Cong;
    BinomAbsorb(p, k);
    BinomAbsorbTop(p, k);
    SmallUnit(k, p);
    CongIntro(k * Binom(p, k), k * 0, p, Binom(p - 1, k - 1));
    CongCancel(k, Binom(p, k), 0, p);
  }

  /** k * (m over k) == m * (m-1 over k-1). */
  lemma BinomAbsorbTop(m: int, k: nat)
    requires k > 0
    ensures k * Binom(m, k) == m * Binom(m - 1, k - 1)
  {
    Pascal(m - 1, k);
    BinomAbsorb(m - 1, k);
    assert k * (Binom(m - 1, k) + Binom(m - 1, k - 1)) == k * Binom(m - 1, k) + k * Binom(m - 1, k - 1);
    assert (m - 1 - k + 1) * Binom(m - 1, k - 1) + k * Binom(m - 1, k - 1) == m * Binom(m - 1, k - 1);
  }

  lemma {:induction false} SeriesModPrime(x: int, p: int, s: nat)
    requires IsPrime(p) && s < p
    ensures Cong(Series(x, p, s), 1, p)
  {
    hide Cong;
    if s == 0 {
      CongRefl(1, p);
    } else {
      SeriesModPrime(x, p, s - 1);
      PrimeDividesBinom(p, s);
      CongRefl(Pow(x, s), p);
      CongMul(Binom(p, s), 0, Pow(x, s), Pow(x, s), p);
      CongAdd(Series(x, p, s - 1), 1, Binom(p, s) * Pow(x, s), 0, p);
    }
  }

  lemma BinomSelf(m: nat)
    ensures Binom(m, m) == 1
  {
    if m > 0 {
      BinomSelf(m - 1);
      BinomVanishes(m - 1, m);
    }
  }

  /** (1 + x)^p == 1 + x^p modulo a prime p. */
  lemma FreshmansDream(x: int, p: int)
    requires IsPrime(p)
    ensures Cong(Pow(1 + x, p), 1 + Pow(x, p), p)
  {
    hide Cong;
    BinomialTheorem(x, p, p);
    BinomSelf(p);
    SeriesModPrime(x, p, p - 1);
    CongRefl(Pow(x, p), p);
    CongAdd(Series(x, p, p - 1), 1, Pow(x, p), Pow(x, p), p);
  }

  lemma {:induction false} FermatNat(a: nat, p: int)
    requires IsPrime(p)
    ensures Cong(Pow(a, p), a, p)
  {
    hide Cong;
    if a == 0 {
      assert Pow(0, p) == 0 * Pow(0, p - 1) == 0;
      CongRefl(0, p);
    } else {
      FermatNat(a - 1, p);
      FreshmansDream(a - 1, p);
      CongRefl(1, p);
      CongAdd(1, 1, Pow(a - 1, p), a - 1, p);
      CongTrans(Pow(a, p), 1 + Pow(a - 1, p), a, p);
    }
  }

  /** Fermat's little theorem. */
  lemma Fermat(a: int, p: int)
    requires IsPrime(p) && Unit(a, p)
    ensures Cong(Pow(a, p - 1), 1, p)
  {
    hide Cong;
    CongMod(a, p);
    FermatNat(a % p, p);
    CongPow(a, a % p, p, p);
    CongTrans(Pow(a, p), Pow(a % p, p), a % p, p);
    CongTrans(Pow(a, p), a % p, a, p);
    CongCancel(a, Pow(a, p - 1), 1, p);
  }

  // ------------------------------------------------------------------ lifting to prime powers

  /** (1 + x)^m == 1 + m*x modulo x^2, with the quotient made explicit. */
  lemma {:induction false} OnePlusPow(x: int, m: nat) returns (w: int)
    ensures Pow(1 + x, m) == 1 + m * x + x * x * w
  {
    if m == 0 {
      w := 0;
    } else {
      var v := OnePlusPow(x, m - 1);
      w := v + (m - 1) + x * v;
      OnePlusArith(x, m, v);
    }
  }

  lemma OnePlusArith(x: int, m: int, v: int)
    ensures (1 + x) * (1 + (m - 1) * x + x * x * v) == 1 + m * x + x * x * (v + (m - 1) + x * v)
  {
  }

  /** If a == 1 mod p^i (i > 0) then a^p == 1 mod p^(i+1). */
  lemma LiftOne(a: int, p: nat, i: nat)
    requires i > 0 && Cong(a, 1, Pow(p, i))
    ensures Cong(Pow(a, p), 1, Pow(p, i + 1))
  {
    var k :| a == 1 + k * Pow(p, i);
    var x := k * Pow(p, i);
    var w := OnePlusPow(x, p);
    assert Pow(p, i + 1) == p * Pow(p, i);
    var y := Pow(p, i - 1);
    assert Pow(p, i) == p * y;
    LiftArith(p, y, k, w);
    CongIntro(Pow(a, p), 1, Pow(p, i + 1), k + k * k * y * w);
  }

  lemma LiftArith(p: int, y: int, k: int, w: int)
    ensures 1 + p * (k * (p * y)) + (k * (p * y)) * (k * (p * y)) * w == 1 + (k + k * k * y * w) * (p * (p * y))
  {
    var z := p * y;
    assert (k * z) * (k * z) * w == (k * k * y * w) * (p * z) by {
      assert (k * z) * (k * z) * w == k * k * w * (z * z);
      assert z * z == y * (p * z);
    }
  }

  lemma {:induction false} LiftOneTimes(a: int, p: nat, i: nat)
    requires Cong(a, 1, p)
    ensures Cong(Pow(a, Pow(p, i)), 1, Pow(p, i + 1))
  {
    hide Cong;
    if i == 0 {
      assert Pow(p, 1) == p * Pow(p, 0) == p;
      assert Pow(a, 1) == a * Pow(a, 0) == a;
    } else {
      LiftOneTimes(a, p, i - 1);
      LiftOne(Pow(a, Pow(p, i - 1)), p, i);
      PowOfPow(a, Pow(p, i - 1), p);
      assert Pow(p, i - 1) * p == Pow(p, i);
    }
  }

  /** a^((p-1) p^i c) == 1 modulo p^(i+1): Fermat and Euler for prime powers. */
  lemma FermatPower(a: int, p: int, i: nat, c: nat)
    requires IsPrime(p) && Unit(a, p)
    ensures (p - 1) * Pow(p, i) * c >= 0
    ensures Cong(Pow(a, (p - 1) * Pow(p, i) * c), 1, Pow(p, i + 1))
  {
    hide Cong;
    Fermat(a, p);
    LiftOneTimes(Pow(a, p - 1), p, i);
    PowOfPow(a, p - 1, Pow(p, i));
    var e := (p - 1) * Pow(p, i);
    PowOfPow(a, e, c);
    CongPow(Pow(a, e), 1, c, Pow(p, i + 1));
    PowOne(c);
  }
}
