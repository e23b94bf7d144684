/** Which Damgard-Jurik primes have an invertible lambda. The generator checks gcd(p - 1, q - 1) == 2 and draws both
    primes at one size; it is the size that makes lambda invertible. */
module DjKeys {
  import opened Arith
  import opened NumberTheory
  import opened DjSecretKey

  lemma TwoUnit(p: int)
    requires p % 2 == 1
    ensures Unit(2, p)
  {
    CongIntro(2 * ((p + 1) / 2), 1, p, 1);
    UnitIntro(2, (p + 1) / 2, p);
  }

  /** Modulo one prime only the other prime's residue matters. */
  lemma LambdaModPrime(l: int, p: int, q: int)
    requires IsPrime(p) && p % 2 == 1 && 2 * l == (p - 1) * (q - 1)
    ensures Unit(l, p) <==> !Cong(q, 1, p)
  {
    hide Cong, Unit, IsPrime;
    TwoUnit(p);
    MinusOneUnit(p);
    CongRefl(1, p);
    if Unit(l, p) {
      UnitMul(2, l, p);
      UnitFactor(p - 1, q - 1, p);
      if Cong(q, 1, p) {
        CongSub(q, 1, 1, 1, p);
        UnitNotMultiple(q - 1, p) by { assert p >= 2 by { PrimeAtLeastTwo(p); } }
      }
    }
    if !Cong(q, 1, p) {
      if Cong(q - 1, 0, p) { CongAdd(q - 1, 0, 1, 1, p); }
      PrimeUnit(q - 1, p);
      UnitMul(p - 1, q - 1, p);
      UnitFactor(2, l, p);
    }
  }

  lemma PrimeAtLeastTwo(p: int)
    requires IsPrime(p)
    ensures p >= 2
  {
  }

  lemma HalfProduct(p: int, q: int)
    requires p % 2 == 1
    ensures 2 * Lambda(MPInt2(p, q)) == (p - 1) * (q - 1) == (q - 1) * (p - 1)
  {
    var k := p / 2;
    assert (p - 1) * (q - 1) == 2 * (k * (q - 1));
  }

  /** lambda is invertible modulo p*q exactly when neither prime is 1 modulo the other. */
  lemma LambdaInvertible(p: int, q: int)
    requires IsPrime(p) && IsPrime(q) && p % 2 == 1 && q % 2 == 1
    ensures Unit(Lambda(MPInt2(p, q)), Modulus(MPInt2(p, q))) <==> !Cong(q, 1, p) && !Cong(p, 1, q)
  {
    hide Cong, Unit, IsPrime, Lambda;
    var l := Lambda(MPInt2(p, q));
    HalfProduct(p, q);
    LambdaModPrime(l, p, q);
    LambdaModPrime(l, q, p);
    if Unit(l, p * q) { UnitModFactor(l, p, q); }
    if Unit(l, p) && Unit(l, q) { UnitModProduct(l, p, q); }
  }

  /** Distinct odd primes, neither twice the other, are good. */
  lemma SameSizeGood(p: int, q: int, s: nat)
    requires IsPrime(p) && IsPrime(q) && p != q && p % 2 == 1 && q % 2 == 1 && p < 2 * q && q < 2 * p
    requires 1 <= s < p && s < q
    ensures GoodPrimes(MPInt2(p, q), s)
  {
    NotOneModulo(p, q);
    NotOneModulo(q, p);
    LambdaInvertible(p, q);
  }

  lemma FarMultiples(k: int, p: int)
    requires p > 0
    ensures (k < 0 ==> k * p <= -p) && (k >= 2 ==> k * p >= 2 * p)
  {
    if k >= 2 { assert (k - 2) * p >= 0; }
    if k < 0 { assert (-1 - k) * p >= 0; }
  }

  lemma NotOneModulo(p: int, q: int)
    requires p >= 2 && q >= 2 && p % 2 == 1 && q % 2 == 1 && q < 2 * p
    ensures !Cong(q, 1, p)
  {
    if Cong(q, 1, p) {
      var k :| q == 1 + k * p;
      FarMultiples(k, p);
    }
  }

  /** What the generator accepts, two odd primes of one size with gcd(p - 1, q - 1) == 2, gives a working key. */
  lemma GeneratedKeysWork(p: int, q: int, s: nat)
    requires IsPrime(p) && IsPrime(q) && p % 2 == 1 && q % 2 == 1 && p > 3
    requires BitCount(p) == BitCount(q) && Bezout(p - 1, q - 1).0 == 2
    requires 1 <= s < p && s < q
    ensures GoodPrimes(MPInt2(p, q), s)
  {
    hide Cong, Unit, IsPrime, Lambda, GoodPrimes, BitCount;
    PrimeAtLeastTwo(q);
    SameBits(p, q);
    if p == q { GcdSelf(p - 1); }
    SameSizeGood(p, q, s);
  }

  /** Numbers of one bit size are within a factor of two. */
  lemma SameBits(p: int, q: int)
    requires p >= 2 && q >= 2 && BitCount(p) == BitCount(q)
    ensures p < 2 * q && q < 2 * p
    ensures p % 2 == 1 && q % 2 == 1 ==> !Cong(q, 1, p) && !Cong(p, 1, q)
  {
    hide Cong, BitCount, Pow;
    BitCountLow(p);
    BitCountLow(q);
    PowHalf(BitCount(p));
    if p % 2 == 1 && q % 2 == 1 {
      NotOneModulo(p, q);
      NotOneModulo(q, p);
    }
  }

  lemma GcdSelf(a: nat)
    requires a > 0
    ensures Bezout(a, a).0 == a
  {
    assert Bezout(a, a).0 == Bezout(a, 0).0 == a;
  }

  /** The gcd test alone would not do: 3 and 7, which differ in size, pass it, yet 6 has no inverse modulo 21. */
  lemma GcdTestAlone()
    ensures IsPrime(3) && IsPrime(7) && Bezout(3 - 1, 7 - 1).0 == 2 && BitCount(3) != BitCount(7)
    ensures !Unit(Lambda(MPInt2(3, 7)), Modulus(MPInt2(3, 7)))
  {
    assert IsPrime(3) && IsPrime(7);
    assert Bezout(2, 6).0 == Bezout(6, 2).0 == Bezout(2, 0).0 == 2;
    CongIntro(7, 1, 3, 2);
    LambdaInvertible(3, 7);
  }
}
