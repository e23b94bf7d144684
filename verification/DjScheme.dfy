/** Damgard-Jurik end to end: encryptor, homomorphic evaluator, decryptor, and whole computations. */
module DjScheme {
  import opened Arith
  import opened NumberTheory
  import opened BigNum
  import opened Centring
  import opened DjPublicKey
  import opened DjSecretKey
  import Encryption
  import Stored
  import Powers

  datatype Result<T> = Ok(value: T) | Err

  /** A computation over ciphertexts; r is the randomness drawn at that step. */
  datatype Expr =
    | Encrypt(m: int, r: nat)
    | Add(a: Expr, b: Expr)
    | AddPlain(a: Expr, m: int)
    | Sub(a: Expr, b: Expr)
    | PlainSub(m: int, b: Expr)
    | Mul(a: Expr, k: int, r: nat)
    | Randomize(a: Expr, r: nat)
  {
    /** What the computation means on plaintexts. */
    function Value(): int
    {
      match this
      case Encrypt(m, _) => m
      case Add(a, b) => a.Value() + b.Value()
      case AddPlain(a, m) => a.Value() + m
      case Sub(a, b) => a.Value() - b.Value()
      case PlainSub(m, b) => m - b.Value()
      case Mul(a, k, _) => a.Value() * k
      case Randomize(a, _) => a.Value()
    }

    /** The exponent of hs that the computation ends with. */
    function Noise(): int
    {
      match this
      case Encrypt(_, r) => r
      case Add(a, b) => a.Noise() + b.Noise()
      case AddPlain(a, _) => a.Noise()
      case Sub(a, b) => a.Noise() - b.Noise()
      case PlainSub(_, b) => -b.Noise()
      case Mul(a, k, r) => if k == 0 then r else a.Noise() * k
      case Randomize(a, r) => a.Noise() + r
    }

    /** Only Encrypt checks the plaintext bound. */
    predicate InRange(bound: int)
    {
      match this
      case Encrypt(m, _) => -bound <= m <= bound
      case Add(a, b) => a.InRange(bound) && b.InRange(bound)
      case AddPlain(a, _) => a.InRange(bound)
      case Sub(a, b) => a.InRange(bound) && b.InRange(bound)
      case PlainSub(_, b) => b.InRange(bound)
      case Mul(a, _, _) => a.InRange(bound)
      case Randomize(a, _) => a.InRange(bound)
    }
  }

  // ------------------------------------------------------------------ encryptor and evaluator

  /** The word is exactly (1+n)^m * hs^r: neither factor is dropped. */
  method EncryptMessage(pk: PublicKey, m: int, r: nat) returns (c: Result<int>)
    requires pk.Valid()
    ensures c.Ok? <==> -pk.bound <= m <= pk.bound
    ensures c.Ok? ==> pk.Encrypts(c.value, m)
    ensures c.Ok? ==> Cong(pk.mSpace.MapBackToZSpace(c.value), ZPow(1 + pk.n, m, pk.cmod) * Pow(pk.hs, r), pk.cmod)
  {
    if !(-pk.bound <= m <= pk.bound) { return Err; }
    var gm := pk.Encrypt(m);
    var hsr := pk.RandomHsR(r);
    Stored.Sum(gm, m, hsr, 0, pk.n, pk.s, pk.mSpace);
    Powers.BackProduct(pk.mSpace, gm, ZPow(1 + pk.n, m, pk.cmod), hsr, Pow(pk.hs, r));
    c := Ok(pk.MulMod(gm, hsr));
  }

  /** The evaluator's and decryptor's VALIDATE check. */
  predicate InCipherRange(pk: PublicKey, c: int)
    reads pk
  {
    0 <= c < pk.cmod
  }

  method AddCiphertexts(pk: PublicKey, a: int, b: int) returns (c: Result<int>)
    requires pk.Valid()
    ensures c.Ok? <==> InCipherRange(pk, a) && InCipherRange(pk, b)
    ensures c.Ok? ==> forall x, y :: pk.Encrypts(a, x) && pk.Encrypts(b, y) ==> pk.Encrypts(c.value, x + y)
    ensures c.Ok? ==> Cong(pk.mSpace.MapBackToZSpace(c.value),
                           pk.mSpace.MapBackToZSpace(a) * pk.mSpace.MapBackToZSpace(b), pk.cmod)
  {
    if !InCipherRange(pk, a) || !InCipherRange(pk, b) { return Err; }
    c := Ok(pk.MulMod(a, b));
    forall x, y | pk.Encrypts(a, x) && pk.Encrypts(b, y)
      ensures pk.Encrypts(c.value, x + y)
    {
      Stored.Sum(a, x, b, y, pk.n, pk.s, pk.mSpace);
    }
  }

  /** Scaling by k: a fresh encryption of zero for k == 0, the argument itself for k == 1, else a power,
      whose negative exponents need an invertible ciphertext. */
  method MulPlain(pk: PublicKey, a: int, k: int, r: nat) returns (c: Result<int>)
    requires pk.Valid()
    ensures c.Ok? <==> InCipherRange(pk, a) && (k >= 0 || Unit(pk.mSpace.MapBackToZSpace(a), pk.cmod))
    ensures c.Ok? ==> forall x :: pk.Encrypts(a, x) ==> pk.Encrypts(c.value, x * k)
    ensures c.Ok? && k == 0 ==> Cong(pk.mSpace.MapBackToZSpace(c.value), Pow(pk.hs, r), pk.cmod)
    ensures c.Ok? && k != 0 ==>
              Powers.PowerOf(pk.mSpace.MapBackToZSpace(c.value), pk.mSpace.MapBackToZSpace(a), k, pk.cmod)
  {
    if !InCipherRange(pk, a) { return Err; }
    if k == 0 {
      c := Ok(pk.RandomHsR(r));
    } else if k == 1 {
      c := Ok(a);
      FirstPower(pk.mSpace.MapBackToZSpace(a), pk.cmod);
    } else {
      var b := pk.mSpace.MapBackToZSpace(a);
      PowAtLeastBase(pk.n, pk.s + 1);
      GcdTest(b, pk.cmod);
      if k < 0 && Bezout(b % pk.cmod, pk.cmod).0 != 1 { return Err; }
      var z := PowMod(b, k, pk.cmod);
      c := Ok(pk.mSpace.MapIntoMSpace(z));
      pk.mSpace.StoresBack(c.value, z);
      Powers.PowModIs(b, k, pk.cmod, pk.mSpace.MapBackToZSpace(c.value));
      forall x | pk.Encrypts(a, x)
        ensures pk.Encrypts(c.value, x * k)
      {
        Stored.Scaled(a, x, k, pk.n, pk.s, pk.mSpace);
      }
    }
  }

  lemma FirstPower(a: int, m: int)
    ensures Powers.PowerOf(a, a, 1, m)
  {
    assert Pow(a, 1) == a * Pow(a, 0);
    CongRefl(a, m);
  }

  /** A ciphertext of x made of (1+n)^x and hs^z. */
  ghost predicate Made(pk: PublicKey, c: int, x: int, z: int)
    requires pk.Valid()
    reads pk
  {
    pk.Encrypts(c, x) && pk.Carries(c, x, z)
  }

  /** Every computation whose encryptions are in range yields an encryption of its value, with exactly its noise. */
  method Eval(pk: PublicKey, e: Expr) returns (c: Result<int>)
    requires pk.Valid()
    ensures c.Ok? <==> e.InRange(pk.bound)
    ensures c.Ok? ==> Made(pk, c.value, e.Value(), e.Noise())
    decreases e
  {
    hide PublicKey.Valid, Made;
    match e
    case Encrypt(m, r) =>
      c := Fresh(pk, m, r);
    case Add(a, b) =>
      var ca := Eval(pk, a);
      var cb := Eval(pk, b);
      if ca.Err? || cb.Err? { return Err; }
      c := Combine(pk, ca.value, a.Value(), a.Noise(), cb.value, b.Value(), b.Noise());
    case AddPlain(a, m) =>
      var ca := Eval(pk, a);
      if ca.Err? { return Err; }
      var gm := Plain(pk, m);
      c := Combine(pk, ca.value, a.Value(), a.Noise(), gm, m, 0);
    case Sub(a, b) =>
      var ca := Eval(pk, a);
      var cb := Eval(pk, b);
      if ca.Err? || cb.Err? { return Err; }
      var nb := Scale(pk, cb.value, b.Value(), b.Noise(), -1, 0);
      c := Combine(pk, ca.value, a.Value(), a.Noise(), nb.value, -b.Value(), -b.Noise());
    case PlainSub(m, b) =>
      var cb := Eval(pk, b);
      if cb.Err? { return Err; }
      var nb := Scale(pk, cb.value, b.Value(), b.Noise(), -1, 0);
      var gm := Plain(pk, m);
      c := Combine(pk, nb.value, -b.Value(), -b.Noise(), gm, m, 0);
    case Mul(a, k, r) =>
      var ca := Eval(pk, a);
      if ca.Err? { return Err; }
      c := Scale(pk, ca.value, a.Value(), a.Noise(), k, r);
    case Randomize(a, r) =>
      var ca := Eval(pk, a);
      if ca.Err? { return Err; }
      var hsr := Zero(pk, r);
      c := Combine(pk, ca.value, a.Value(), a.Noise(), hsr, 0, r);
  }

  lemma BasesUnits(pk: PublicKey)
    requires pk.Valid()
    ensures pk.cmod > 0 && Unit(1 + pk.n, pk.cmod) && Unit(pk.hs, pk.cmod)
  {
    Encryption.CiphertextUnit(pk.hs, 0, pk.n, pk.s);
  }

  method Fresh(pk: PublicKey, m: int, r: nat) returns (c: Result<int>)
    requires pk.Valid()
    ensures c.Ok? <==> -pk.bound <= m <= pk.bound
    ensures c.Ok? ==> Made(pk, c.value, m, r)
  {
    hide Cong, Pow, Unit, Encryption.EncryptionOf, ZPow;
    BasesUnits(pk);
    c := EncryptMessage(pk, m, r);
    if c.Ok? { Powers.Fresh(pk.mSpace.MapBackToZSpace(c.value), m, r, 1 + pk.n, pk.hs, pk.cmod); }
  }

  /** (1+n)^m without noise. */
  method Plain(pk: PublicKey, m: int) returns (c: int)
    requires pk.Valid()
    ensures Made(pk, c, m, 0)
  {
    hide Cong, Unit, Encryption.EncryptionOf, ZPow;
    BasesUnits(pk);
    c := pk.Encrypt(m);
    pk.mSpace.StoresBack(c, ZPow(1 + pk.n, m, pk.cmod));
    assert ZPow(1 + pk.n, m, pk.cmod) * Pow(pk.hs, 0) == ZPow(1 + pk.n, m, pk.cmod);
    Powers.Fresh(pk.mSpace.MapBackToZSpace(c), m, 0, 1 + pk.n, pk.hs, pk.cmod);
  }

  /** hs^r alone. */
  method Zero(pk: PublicKey, r: nat) returns (c: int)
    requires pk.Valid()
    ensures Made(pk, c, 0, r)
  {
    c := pk.RandomHsR(r);
    BasesUnits(pk);
    hide Cong, Unit, Encryption.EncryptionOf;
    assert ZPow(1 + pk.n, 0, pk.cmod) * Pow(pk.hs, r) == Pow(pk.hs, r);
    Powers.Fresh(pk.mSpace.MapBackToZSpace(c), 0, r, 1 + pk.n, pk.hs, pk.cmod);
  }

  /** Addition of ciphertexts already known. */
  method Combine(pk: PublicKey, a: int, ghost x: int, ghost z: int, b: int, ghost y: int, ghost w: int)
    returns (c: Result<int>)
    requires pk.Valid() && Made(pk, a, x, z) && Made(pk, b, y, w)
    ensures c.Ok? && Made(pk, c.value, x + y, z + w)
  {
    hide Cong, Pow, Unit, Encryption.EncryptionOf, Powers.Combines;
    c := AddCiphertexts(pk, a, b);
    assert pk.Encrypts(a, x) && pk.Encrypts(b, y);
    Powers.Product(pk.mSpace.MapBackToZSpace(c.value), pk.mSpace.MapBackToZSpace(a), x, z,
                   pk.mSpace.MapBackToZSpace(b), y, w, 1 + pk.n, pk.hs, pk.cmod);
  }

  method Scale(pk: PublicKey, a: int, ghost x: int, ghost z: int, k: int, r: nat) returns (c: Result<int>)
    requires pk.Valid() && Made(pk, a, x, z)
    ensures c.Ok? && Made(pk, c.value, x * k, if k == 0 then r else z * k)
  {
    hide Cong, Unit, Encryption.EncryptionOf, Powers.Combines, Powers.PowerOf;
    Stored.Invertible(a, x, pk.n, pk.s, pk.mSpace);
    c := MulPlain(pk, a, k, r);
    assert pk.Encrypts(a, x);
    if k == 0 {
      BasesUnits(pk);
      assert ZPow(1 + pk.n, 0, pk.cmod) * Pow(pk.hs, r) == Pow(pk.hs, r);
      Powers.Fresh(pk.mSpace.MapBackToZSpace(c.value), 0, r, 1 + pk.n, pk.hs, pk.cmod);
    } else {
      Powers.Power(pk.mSpace.MapBackToZSpace(c.value), pk.mSpace.MapBackToZSpace(a), k, x, z, 1 + pk.n, pk.hs, pk.cmod);
    }
  }

  // ------------------------------------------------------------------ decryptor

  ghost predicate Paired(pk: PublicKey, sk: SecretKey)
    reads pk, sk
  {
    pk.Valid() && sk.Valid() && pk.n == Modulus(sk.n) && pk.s == sk.s
  }

  method Decrypt(pk: PublicKey, sk: SecretKey, c: int) returns (m: Result<int>)
    requires Paired(pk, sk)
    ensures m.Ok? <==> InCipherRange(pk, c)
    ensures m.Ok? ==> forall x :: pk.Encrypts(c, x) ==> m.value == Centre(x % pk.pmod, pk.pmod)
  {
    if !InCipherRange(pk, c) { return Err; }
    var d := sk.Decrypt(pk.mSpace.MapBackToZSpace(c));
    m := Ok(if d > pk.bound then d - pk.pmod else d);
  }

  lemma {:induction false} OddPower(n: int, s: nat)
    requires n % 2 == 1
    ensures Pow(n, s) % 2 == 1
  {
    if s > 0 {
      OddPower(n, s - 1);
      OddProduct(n, Pow(n, s - 1));
    }
  }

  lemma OddModulus(n: MPInt2, s: nat)
    requires GoodPrimes(n, s)
    ensures Modulus(n) % 2 == 1
  {
    OddProduct(n.P, n.Q);
  }

  /** Decryption of any whole computation: the centred residue of its value, hence the value itself
      when that is in the plaintext range. */
  method DecryptEval(pk: PublicKey, sk: SecretKey, e: Expr) returns (m: Result<int>)
    requires Paired(pk, sk)
    ensures m.Ok? <==> e.InRange(pk.bound)
    ensures m.Ok? ==> m.value == Centre(e.Value() % pk.pmod, pk.pmod)
    ensures m.Ok? && -pk.bound <= e.Value() <= pk.bound ==> m.value == e.Value()
  {
    var c := Eval(pk, e);
    if c.Err? { return Err; }
    m := Decrypt(pk, sk, c.value);
    OddModulus(sk.n, sk.s);
    OddPower(pk.n, pk.s);
    if -pk.bound <= e.Value() <= pk.bound { CentreResidue(e.Value(), pk.pmod); }
  }

  /** Keys made by Init from good primes: encrypting and decrypting any message in range gives it
      back, whatever the randomness. */
  method RoundTrip(p: int, q: int, s: nat, x: int, r0: int, m: int, r: nat) returns (out: Result<int>)
    requires GoodPrimes(MPInt2(p, q), s) && Unit(x, p * q) && Unit(r0, Pow(p * q, s + 1))
    ensures out == if -(Pow(p * q, s) / 2) <= m <= Pow(p * q, s) / 2 then Ok(m) else Err
  {
    var sk := new SecretKey();
    sk.Init(p, q, s);
    var pk := new PublicKey();
    PrimeFacts(sk.n, s);
    ModulusUnits(sk.n, s);
    var ok := pk.Init(p * q, s, 0, x, r0);
    out := DecryptEval(pk, sk, Encrypt(m, r));
  }

  function Formula(m1: int, k: int, m2: int, m3: int, m4: int, m5: int, r: seq<nat>): Expr
    requires |r| == 5
  {
    var sum := Add(Mul(Encrypt(m1, r[0]), k, r[1]), AddPlain(Encrypt(m2, r[2]), m3));
    PlainSub(m5, Sub(Randomize(sum, r[3]), Encrypt(m4, r[4])))
  }

  lemma SubMeans(a: Expr, b: Expr, bound: int)
    ensures Sub(a, b).InRange(bound) == (a.InRange(bound) && b.InRange(bound))
    ensures Sub(a, b).Value() == a.Value() - b.Value() && Sub(a, b).Noise() == a.Noise() - b.Noise()
  {
  }

  lemma FormulaMeans(m1: int, k: int, m2: int, m3: int, m4: int, m5: int, r: seq<nat>, bound: int)
    requires |r| == 5
    ensures var e := Formula(m1, k, m2, m3, m4, m5, r);
            && e.Value() == m5 - (m1 * k + m2 + m3 - m4)
            && e.Noise() == -((if k == 0 then r[1] else r[0] * k) + r[2] + r[3] - r[4])
            && (e.InRange(bound) <==> -bound <= m1 <= bound && -bound <= m2 <= bound && -bound <= m4 <= bound)
  {
    var e1, e2, e4 := Encrypt(m1, r[0]), Encrypt(m2, r[2]), Encrypt(m4, r[4]);
    assert e1.InRange(bound) == (-bound <= m1 <= bound) && e2.InRange(bound) == (-bound <= m2 <= bound);
    assert e4.InRange(bound) == (-bound <= m4 <= bound);
    var a, b := Mul(e1, k, r[1]), AddPlain(e2, m3);
    assert a.Value() == m1 * k && a.InRange(bound) == e1.InRange(bound);
    assert a.Noise() == if k == 0 then r[1] else r[0] * k;
    assert b.Value() == m2 + m3 && b.InRange(bound) == e2.InRange(bound) && b.Noise() == r[2];
    var c := Add(a, b);
    assert c.Value() == a.Value() + b.Value() && c.InRange(bound) == (a.InRange(bound) && b.InRange(bound));
    assert c.Noise() == a.Noise() + b.Noise();
    var d := Randomize(c, r[3]);
    assert d.Value() == c.Value() && d.InRange(bound) == c.InRange(bound) && d.Noise() == c.Noise() + r[3];
    var f := Sub(d, e4);
    SubMeans(d, e4, bound);
    assert f.Value() == d.Value() - m4;
    assert f.Noise() == d.Noise() - r[4];
    var e := PlainSub(m5, f);
    assert e.Value() == m5 - f.Value() && e.InRange(bound) == f.InRange(bound) && e.Noise() == -f.Noise();
  }

  /** All evaluator operations in one formula: m5 - (((m1 * k) + (m2 + m3)) - m4) comes back whenever it is in range,
      whatever is drawn. */
  method DecryptsFormula(pk: PublicKey, sk: SecretKey, m1: int, k: int, m2: int, m3: int, m4: int, m5: int, r: seq<nat>)
    returns (out: Result<int>)
    requires Paired(pk, sk) && |r| == 5
    ensures out.Ok? <==> -pk.bound <= m1 <= pk.bound && -pk.bound <= m2 <= pk.bound && -pk.bound <= m4 <= pk.bound
    ensures out.Ok? && -pk.bound <= m5 - (m1 * k + m2 + m3 - m4) <= pk.bound ==> out.value == m5 - (m1 * k + m2 + m3 - m4)
  {
    hide PublicKey.Valid, SecretKey.Valid, Expr.Value, Expr.InRange;
    var e := Formula(m1, k, m2, m3, m4, m5, r);
    FormulaMeans(m1, k, m2, m3, m4, m5, r, pk.bound);
    out := DecryptEval(pk, sk, e);
  }

  lemma ModulusUnits(n: MPInt2, s: nat)
    requires GoodPrimes(n, s)
    ensures forall i :: 1 <= i <= s ==> Unit(i, Modulus(n))
  {
    PrimeFacts(n, s);
    forall i | 1 <= i <= s
      ensures Unit(i, Modulus(n))
    {
      UnitModProduct(i, n.P, n.Q);
    }
  }
}
