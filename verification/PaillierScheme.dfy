/** Paillier over the integers: encryption by the 1 + n*m shortcut, the homomorphic evaluator, CRT
    decryption, and whole computations. */
module PaillierScheme {
  import opened Arith
  import opened NumberTheory
  import opened BigNum
  import opened Centring
  import opened PaillierKeys
  import Encryption
  import Stored
  import Powers
  import DjKeys
  import DjSecretKey

  datatype Result<T> = Ok(value: T) | Err

  class PublicKey {
    var n: int
    var nSquare: int
    var nHalf: int
    var hs: int        // h^n mod n^2
    var mSpace: MSpace // Montgomery space modulo n^2

    constructor (n: int, hs: int)
      ensures this.n == n && this.hs == hs
    {
      this.n, this.hs := n, hs;
    }

    ghost predicate Tabled()
      reads this
    {
      n > 1 && nSquare == Pow(n, 2) && nHalf == n / 2 && mSpace.Valid() && mSpace.m == nSquare
    }

    ghost predicate Valid()
      reads this
    {
      Tabled() && Encryption.EncryptionOf(hs, 0, n, 1)
    }

    /** The stored ciphertext c encrypts x. */
    ghost predicate Encrypts(c: int, x: int)
      requires Valid()
      reads this
    {
      Stored.Encrypts(c, x, n, 1, mSpace)
    }

    /** The stored word c is (1+n)^x * hs^z. */
    ghost predicate Carries(c: int, x: int, z: int)
      requires Valid()
      reads this
    {
      Powers.Combines(mSpace.MapBackToZSpace(c), x, z, 1 + n, hs, nSquare)
    }

    /** Takes hs as it is; the key works exactly when that is an encryption of zero. */
    method Init(r: int)
      requires n > 1 && Unit(r, Pow(n, 2))
      modifies this
      ensures Tabled() && (Valid() <==> Encryption.EncryptionOf(hs, 0, n, 1)) && n == old(n) && hs == old(hs) && mSpace.r == r
    {
      PowTwo(n);
      nSquare := n * n;
      nHalf := n / 2;
      mSpace := MSpace(nSquare, r);
    }

    /** hs^r, in stored form. */
    function GetRn(r: nat): (c: int)
      requires Valid()
      reads this
      ensures Encrypts(c, 0)
      ensures Cong(mSpace.MapBackToZSpace(c), Pow(hs, r), nSquare)
    {
      Stored.NoisePower(hs, r, n, 1, mSpace);
      mSpace.StoresBack(mSpace.PowMod(hs, r), Pow(hs, r));
      mSpace.PowMod(hs, r)
    }

    /** The range of ciphertexts that evaluator and decryptor accept. */
    predicate InCipherRange(c: int)
      reads this
    {
      0 <= c < nSquare
    }

    /** (1 + n)^m as 1 + n*m, in stored form; m may be negative and out of the plaintext range. */
    function Shortcut(m: int): (c: int)
      requires Valid()
      reads this
      ensures Encrypts(c, m)
      ensures mSpace.Stores(c, 1 + n * m)
    {
      ShortcutIsPower(n, m);
      Encryption.Plain(m, n, 1);
      Stored.Store(n * m + 1, ZPow(1 + n, m, Pow(n, 2)), m, n, 1, mSpace);
      mSpace.MapIntoMSpace(n * m + 1)
    }

    function Encrypt(m: int, r: nat): (c: Result<int>)
      requires Valid()
      reads this
      ensures c.Ok? <==> -nHalf <= m <= nHalf
      ensures c.Ok? ==> Encrypts(c.value, m)
      ensures c.Ok? ==> Cong(mSpace.MapBackToZSpace(c.value), (1 + n * m) * Pow(hs, r), nSquare)
    {
      if !(-nHalf <= m <= nHalf) then Err
      else
        Powers.BackProduct(mSpace, Shortcut(m), 1 + n * m, GetRn(r), Pow(hs, r));
        Stored.Sum(Shortcut(m), m, GetRn(r), 0, n, 1, mSpace);
        Ok(mSpace.MulMod(Shortcut(m), GetRn(r)))
    }

    // ---------------------------------------------------------------- evaluator

    /** Fails exactly when the word is out of range or has no inverse. */
    function Negate(a: int): (c: Result<int>)
      requires Valid()
      reads this
      ensures c.Ok? <==> InCipherRange(a) && Unit(mSpace.MapBackToZSpace(a), nSquare)
      ensures c.Ok? ==> forall x :: Encrypts(a, x) ==> Encrypts(c.value, -x)
      ensures c.Ok? ==> Powers.PowerOf(mSpace.MapBackToZSpace(c.value), mSpace.MapBackToZSpace(a), -1, nSquare)
    {
      Invertible(a);
      NegateWord(a);
      if !InCipherRange(a) || Bezout(mSpace.MapBackToZSpace(a) % nSquare, nSquare).0 != 1 then Err
      else
        var c := mSpace.MapIntoMSpace(InvMod(mSpace.MapBackToZSpace(a), nSquare));
        assert forall x :: Encrypts(a, x) ==> Encrypts(c, -x) by {
          forall x | Encrypts(a, x) ensures Encrypts(c, -x) { NegateCorrect(a, x); }
        }
        Ok(c)
    }

    lemma NegateWord(a: int)
      requires Valid()
      ensures Unit(mSpace.MapBackToZSpace(a), nSquare) ==>
                var c := mSpace.MapIntoMSpace(InvMod(mSpace.MapBackToZSpace(a), nSquare));
                Powers.PowerOf(mSpace.MapBackToZSpace(c), mSpace.MapBackToZSpace(a), -1, nSquare)
    {
      hide MSpace.MapBackToZSpace, InvMod;
      if Unit(mSpace.MapBackToZSpace(a), nSquare) { Powers.InverseWord(mSpace, a); }
    }

    lemma Invertible(a: int)
      requires Valid()
      ensures nSquare > 1
      ensures Bezout(mSpace.MapBackToZSpace(a) % nSquare, nSquare).0 == 1 <==> Unit(mSpace.MapBackToZSpace(a), nSquare)
    {
      hide Unit, Bezout, MSpace.MapBackToZSpace;
      PowAtLeastBase(n, 2);
      GcdTest(mSpace.MapBackToZSpace(a), nSquare);
    }

    lemma NegateCorrect(a: int, x: int)
      requires Valid() && Encrypts(a, x)
      ensures Unit(mSpace.MapBackToZSpace(a), nSquare)
      ensures Encrypts(mSpace.MapIntoMSpace(InvMod(mSpace.MapBackToZSpace(a), nSquare)), -x)
    {
      hide Cong, Encryption.EncryptionOf, InvMod, MSpace.MapBackToZSpace;
      var u := mSpace.MapBackToZSpace(a);
      Encryption.Power(u, x, -1, n, 1);
      assert Pow(InvMod(u, nSquare), 1) == InvMod(u, nSquare) * Pow(InvMod(u, nSquare), 0);
      CongRefl(InvMod(u, nSquare), nSquare);
      Stored.Store(InvMod(u, nSquare), ZPow(u, -1, nSquare), -x, n, 1, mSpace);
    }

    function AddPlain(a: int, m: int): (c: Result<int>)
      requires Valid()
      reads this
      ensures c.Ok? <==> InCipherRange(a) && -nHalf <= m <= nHalf
      ensures c.Ok? ==> forall x :: Encrypts(a, x) ==> Encrypts(c.value, x + m)
      ensures c.Ok? ==> Cong(mSpace.MapBackToZSpace(c.value), mSpace.MapBackToZSpace(a) * (1 + n * m), nSquare)
    {
      if !InCipherRange(a) || !(-nHalf <= m <= nHalf) then Err
      else
        mSpace.StoresOwn(a);
        Powers.BackProduct(mSpace, a, mSpace.MapBackToZSpace(a), Shortcut(m), 1 + n * m);
        assert forall x :: Encrypts(a, x) ==> Encrypts(mSpace.MulMod(a, Shortcut(m)), x + m) by {
          forall x | Encrypts(a, x) ensures Encrypts(mSpace.MulMod(a, Shortcut(m)), x + m) {
            Stored.Sum(a, x, Shortcut(m), m, n, 1, mSpace);
          }
        }
        Ok(mSpace.MulMod(a, Shortcut(m)))
    }

    function Add(a: int, b: int): (c: Result<int>)
      requires Valid()
      reads this
      ensures c.Ok? <==> InCipherRange(a) && InCipherRange(b)
      ensures c.Ok? ==> forall x, y :: Encrypts(a, x) && Encrypts(b, y) ==> Encrypts(c.value, x + y)
      ensures c.Ok? ==> Cong(mSpace.MapBackToZSpace(c.value), mSpace.MapBackToZSpace(a) * mSpace.MapBackToZSpace(b), nSquare)
    {
      if !InCipherRange(a) || !InCipherRange(b) then Err
      else
        Powers.BackMul(mSpace, a, b);
        assert forall x, y :: Encrypts(a, x) && Encrypts(b, y) ==> Encrypts(mSpace.MulMod(a, b), x + y) by {
          forall x, y | Encrypts(a, x) && Encrypts(b, y) ensures Encrypts(mSpace.MulMod(a, b), x + y) {
            Stored.Sum(a, x, b, y, n, 1, mSpace);
          }
        }
        Ok(mSpace.MulMod(a, b))
    }

    /** Scaling, with the shortcuts for 0, 1 and -1; a negative factor needs an inverse. */
    function Mul(a: int, k: int): (c: Result<int>)
      requires Valid()
      reads this
      ensures c.Ok? <==> InCipherRange(a) && (k >= 0 || Unit(mSpace.MapBackToZSpace(a), nSquare))
      ensures c.Ok? ==> forall x :: Encrypts(a, x) ==> Encrypts(c.value, x * k)
      ensures c.Ok? ==> Powers.PowerOf(mSpace.MapBackToZSpace(c.value), mSpace.MapBackToZSpace(a), k, nSquare)
    {
      Invertible(a);
      MulWord(a, k);
      if !InCipherRange(a) then Err
      else if k == 0 then
        IdentityEncryptsZero();
        Ok(mSpace.Identity())
      else if k == -1 then Negate(a)
      else if k == 1 then Ok(a)
      else if k < 0 && Bezout(mSpace.MapBackToZSpace(a) % nSquare, nSquare).0 != 1 then Err
      else
        var c := mSpace.MapIntoMSpace(PowMod(mSpace.MapBackToZSpace(a), k, nSquare));
        assert forall x :: Encrypts(a, x) ==> Encrypts(c, x * k) by {
          forall x | Encrypts(a, x) ensures Encrypts(c, x * k) { Stored.Scaled(a, x, k, n, 1, mSpace); }
        }
        Ok(c)
    }

    lemma MulWord(a: int, k: int)
      requires Valid()
      ensures k == 0 ==> Powers.PowerOf(mSpace.MapBackToZSpace(mSpace.Identity()), mSpace.MapBackToZSpace(a), 0, nSquare)
      ensures k == 1 ==> Powers.PowerOf(mSpace.MapBackToZSpace(a), mSpace.MapBackToZSpace(a), 1, nSquare)
      ensures k >= 0 || Unit(mSpace.MapBackToZSpace(a), nSquare) ==>
                var c := mSpace.MapIntoMSpace(PowMod(mSpace.MapBackToZSpace(a), k, nSquare));
                Powers.PowerOf(mSpace.MapBackToZSpace(c), mSpace.MapBackToZSpace(a), k, nSquare)
    {
      hide MSpace.MapBackToZSpace;
      Powers.PowerWord(mSpace, a, k);
    }

    lemma IdentityEncryptsZero()
      requires Valid()
      ensures Encrypts(mSpace.Identity(), 0)
    {
      Encryption.Plain(0, n, 1);
      CongRefl(1, nSquare);
      Stored.Store(1, ZPow(1 + n, 0, nSquare), 0, n, 1, mSpace);
    }

    method Randomize(ct: int, r: nat) returns (c: Result<int>)
      requires Valid()
      ensures c == Add(ct, GetRn(r))
    {
      if !InCipherRange(ct) { return Err; }
      c := Ok(mSpace.MulMod(ct, GetRn(r)));
    }
  }

  /** 1 + n*m == (1 + n)^m modulo n^2 for every integer m. */
  lemma ShortcutIsPower(n: int, m: int)
    requires n > 0
    ensures Unit(1 + n, Pow(n, 2))
    ensures Cong(n * m + 1, ZPow(1 + n, m, Pow(n, 2)), Pow(n, 2))
  {
    SeriesIsPower(n, m, 1);
    BinomAbsorb(m, 1);
    PowTwo(n);
    assert Series(n, m, 0) == 1;
    assert Series(n, m, 1) == 1 + m * n;
  }

  // ------------------------------------------------------------------ whole computations

  /** A computation over ciphertexts; r is the randomness drawn at that step. */
  datatype Expr =
    | Encrypt(m: int, r: nat)
    | Add(a: Expr, b: Expr)
    | AddPlain(a: Expr, m: int)
    | Mul(a: Expr, k: int)
    | Negate(a: Expr)
    | Randomize(a: Expr, r: nat)
  {
    function Value(): int
    {
      match this
      case Encrypt(m, _) => m
      case Add(a, b) => a.Value() + b.Value()
      case AddPlain(a, m) => a.Value() + m
      case Mul(a, k) => a.Value() * k
      case Negate(a) => -a.Value()
      case Randomize(a, _) => a.Value()
    }

    /** The exponent of hs that the computation ends with. */
    function Noise(): int
    {
      match this
      case Encrypt(_, r) => r
      case Add(a, b) => a.Noise() + b.Noise()
      case AddPlain(a, _) => a.Noise()
      case Mul(a, k) => a.Noise() * k
      case Negate(a) => -a.Noise()
      case Randomize(a, r) => a.Noise() + r
    }

    /** Encrypt and AddPlain check the plaintext bound; nothing else fails. */
    predicate InRange(bound: int)
    {
      match this
      case Encrypt(m, _) => -bound <= m <= bound
      case Add(a, b) => a.InRange(bound) && b.InRange(bound)
      case AddPlain(a, m) => a.InRange(bound) && -bound <= m <= bound
      case Mul(a, _) => a.InRange(bound)
      case Negate(a) => a.InRange(bound)
      case Randomize(a, _) => a.InRange(bound)
    }
  }

  /** A ciphertext of x made of (1+n)^x and hs^z. */
  ghost predicate Made(pk: PublicKey, c: int, x: int, z: int)
    requires pk.Valid()
    reads pk
  {
    pk.Encrypts(c, x) && pk.Carries(c, x, z)
  }

  /** Every computation whose plaintexts are in range succeeds, with an encryption of its value that has exactly its
      noise. */
  method Eval(pk: PublicKey, e: Expr) returns (c: Result<int>)
    requires pk.Valid()
    ensures c.Ok? <==> e.InRange(pk.nHalf)
    ensures c.Ok? ==> Made(pk, c.value, e.Value(), e.Noise())
    decreases e
  {
    hide PublicKey.Valid, Made, Fresh, Zero, Scaled, Negated, Sum, AddedPlain;
    match e
    case Encrypt(m, r) =>
      c := Fresh(pk, m, r);
    case Add(a, b) =>
      var ca := Eval(pk, a);
      var cb := Eval(pk, b);
      if ca.Err? || cb.Err? { return Err; }
      c := Ok(Sum(pk, ca.value, cb.value, a.Value(), a.Noise(), b.Value(), b.Noise()));
    case AddPlain(a, m) =>
      var ca := Eval(pk, a);
      if ca.Err? { return Err; }
      c := AddedPlain(pk, ca.value, m, a.Value(), a.Noise());
    case Mul(a, k) =>
      var ca := Eval(pk, a);
      if ca.Err? { return Err; }
      c := Ok(Scaled(pk, ca.value, k, a.Value(), a.Noise()));
    case Negate(a) =>
      var ca := Eval(pk, a);
      if ca.Err? { return Err; }
      c := Ok(Negated(pk, ca.value, a.Value(), a.Noise()));
    case Randomize(a, r) =>
      var ca := Eval(pk, a);
      if ca.Err? { return Err; }
      c := Ok(Sum(pk, ca.value, Zero(pk, r), a.Value(), a.Noise(), 0, r));
  }

  lemma BasesUnits(pk: PublicKey)
    requires pk.Valid()
    ensures pk.nSquare > 0 && Unit(1 + pk.n, pk.nSquare) && Unit(pk.hs, pk.nSquare)
  {
    OnePlusUnit(pk.n, 2);
    Encryption.CiphertextUnit(pk.hs, 0, pk.n, 1);
  }

  /** A word that is (1+n*m) * hs^r carries m and r. */
  lemma FreshCarries(pk: PublicKey, c: int, m: int, r: nat)
    requires pk.Valid() && Cong(pk.mSpace.MapBackToZSpace(c), (1 + pk.n * m) * Pow(pk.hs, r), pk.nSquare)
    ensures pk.Carries(c, m, r)
  {
    hide MSpace.MapBackToZSpace, Encryption.EncryptionOf;
    BasesUnits(pk);
    ShortcutIsPower(pk.n, m);
    hide Cong, Unit, ZPow, Pow;
    var b, p, z, q := pk.mSpace.MapBackToZSpace(c), Pow(pk.hs, r), ZPow(1 + pk.n, m, pk.nSquare), pk.nSquare;
    CongRefl(p, q);
    CongMul(1 + pk.n * m, z, p, p, q);
    CongTrans(b, (1 + pk.n * m) * p, z * p, q);
    Powers.Fresh(b, m, r, 1 + pk.n, pk.hs, q);
  }

  function Fresh(pk: PublicKey, m: int, r: nat): (c: Result<int>)
    requires pk.Valid()
    reads pk
    ensures c.Ok? <==> -pk.nHalf <= m <= pk.nHalf
    ensures c.Ok? ==> Made(pk, c.value, m, r)
  {
    var c := pk.Encrypt(m, r);
    if c.Ok? then
      FreshCarries(pk, c.value, m, r);
      c
    else c
  }

  /** hs^r alone. */
  function Zero(pk: PublicKey, r: nat): (c: int)
    requires pk.Valid()
    reads pk
    ensures Made(pk, c, 0, r)
  {
    FreshCarries(pk, pk.GetRn(r), 0, r);
    pk.GetRn(r)
  }

  /** Scaling a ciphertext known to be made of x and z. */
  function Scaled(pk: PublicKey, a: int, k: int, ghost x: int, ghost z: int): (c: int)
    requires pk.Valid() && Made(pk, a, x, z)
    reads pk
    ensures Made(pk, c, x * k, z * k)
  {
    Stored.Invertible(a, x, pk.n, 1, pk.mSpace);
    PowerCarries(pk, pk.Mul(a, k).value, a, k, x, z);
    pk.Mul(a, k).value
  }

  lemma PowerCarries(pk: PublicKey, c: int, a: int, k: int, x: int, z: int)
    requires pk.Valid() && pk.Carries(a, x, z)
    requires Powers.PowerOf(pk.mSpace.MapBackToZSpace(c), pk.mSpace.MapBackToZSpace(a), k, pk.nSquare)
    ensures pk.Carries(c, x * k, z * k)
  {
    hide Powers.PowerOf, Powers.Combines, MSpace.MapBackToZSpace;
    Powers.Power(pk.mSpace.MapBackToZSpace(c), pk.mSpace.MapBackToZSpace(a), k, x, z, 1 + pk.n, pk.hs, pk.nSquare);
  }

  function Negated(pk: PublicKey, a: int, ghost x: int, ghost z: int): (c: int)
    requires pk.Valid() && Made(pk, a, x, z)
    reads pk
    ensures Made(pk, c, -x, -z)
  {
    Stored.Invertible(a, x, pk.n, 1, pk.mSpace);
    PowerCarries(pk, pk.Negate(a).value, a, -1, x, z);
    pk.Negate(a).value
  }

  lemma ProductCarries(pk: PublicKey, c: int, a: int, b: int, x: int, z: int, y: int, w: int)
    requires pk.Valid() && pk.Carries(a, x, z) && pk.Carries(b, y, w)
    requires Cong(pk.mSpace.MapBackToZSpace(c), pk.mSpace.MapBackToZSpace(a) * pk.mSpace.MapBackToZSpace(b), pk.nSquare)
    ensures pk.Carries(c, x + y, z + w)
  {
    hide Powers.Combines, MSpace.MapBackToZSpace, Cong;
    Powers.Product(pk.mSpace.MapBackToZSpace(c), pk.mSpace.MapBackToZSpace(a), x, z, pk.mSpace.MapBackToZSpace(b), y, w,
                   1 + pk.n, pk.hs, pk.nSquare);
  }

  function Sum(pk: PublicKey, a: int, b: int, ghost x: int, ghost z: int, ghost y: int, ghost w: int): (c: int)
    requires pk.Valid() && Made(pk, a, x, z) && Made(pk, b, y, w)
    reads pk
    ensures Made(pk, c, x + y, z + w)
  {
    ProductCarries(pk, pk.Add(a, b).value, a, b, x, z, y, w);
    pk.Add(a, b).value
  }

  function AddedPlain(pk: PublicKey, a: int, m: int, ghost x: int, ghost z: int): (c: Result<int>)
    requires pk.Valid() && Made(pk, a, x, z)
    reads pk
    ensures c.Ok? <==> -pk.nHalf <= m <= pk.nHalf
    ensures c.Ok? ==> Made(pk, c.value, x + m, z)
  {
    var c := pk.AddPlain(a, m);
    if c.Ok? then
      PlainCarries(pk, c.value, a, m, x, z);
      c
    else c
  }

  lemma PlainCarries(pk: PublicKey, c: int, a: int, m: int, x: int, z: int)
    requires pk.Valid() && pk.Carries(a, x, z)
    requires Cong(pk.mSpace.MapBackToZSpace(c), pk.mSpace.MapBackToZSpace(a) * (1 + pk.n * m), pk.nSquare)
    ensures pk.Carries(c, x + m, z)
  {
    hide Powers.Combines, MSpace.MapBackToZSpace;
    var b := pk.Shortcut(m);
    pk.mSpace.StoresBack(b, 1 + pk.n * m);
    hide Cong;
    var u, v, w, q := pk.mSpace.MapBackToZSpace(c), pk.mSpace.MapBackToZSpace(a), pk.mSpace.MapBackToZSpace(b), pk.nSquare;
    assert (1 + pk.n * m) * Pow(pk.hs, 0) == 1 + pk.n * m;
    FreshCarries(pk, b, m, 0);
    CongRefl(v, q);
    CongSym(w, 1 + pk.n * m, q);
    CongMul(v, v, 1 + pk.n * m, w, q);
    CongTrans(u, v * (1 + pk.n * m), v * w, q);
    ProductCarries(pk, c, a, b, x, z, m, 0);
  }

  // ------------------------------------------------------------------ decryptor

  ghost predicate Paired(pk: PublicKey, sk: SecretKey)
    reads pk, sk
  {
    pk.Valid() && sk.Valid() && pk.n == sk.p * sk.q
  }

  /** One prime's half: ((c^(p-1) mod p^2 - 1)/p) * hp mod p is the plaintext modulo p. */
  lemma HalfDecrypt(c: int, x: int, n: int, p: int, q: int, hp: int, z: int, mp: int)
    requires IsPrime(p) && q > 0 && n == p * q && n > 1 && Square(p) > 0
    requires Encryption.EncryptionOf(c, x, n, 1) && IsLogScale(hp, p, q)
    requires z == PowMod(c, p - 1, Square(p)) && mp == ModMul(TruncDiv(z - 1, p), hp, p)
    ensures Cong(mp, x, p)
  {
    hide Cong, PowMod, ModMul, TruncDiv, Encryption.EncryptionOf, Square;
    var u := ((p - 1) * q) * x;
    PowTwo(p);
    assert Square(p) == Pow(p, 2) by { SquareIs(p); }
    Encryption.NoiseVanishes(c, x, n, p, q, 1, p - 1, 1);
    CongTrans(z, Pow(c, p - 1), Series(n, x * (p - 1), 1), Square(p));
    SeriesOne(p, q, x, n);
    TakeL(z, u, p);
    UndoScale(TruncDiv(z - 1, p), x, (p - 1) * q, hp, p);
    CongTrans(mp, TruncDiv(z - 1, p) * hp, x, p);
  }

  lemma SquareIs(p: int)
    ensures Square(p) == p * p
  {
  }

  lemma SeriesOne(p: int, q: int, x: int, n: int)
    requires n == p * q
    ensures Series(n, x * (p - 1), 1) == 1 + (((p - 1) * q) * x) * p
  {
    var m := x * (p - 1);
    BinomAbsorb(m, 1);
    assert Series(n, m, 0) == 1 && Pow(n, 0) == 1;
    assert Series(n, m, 1) == 1 + m * n;
    assert (x * (p - 1)) * (p * q) == (((p - 1) * q) * x) * p by {
      Regroup(x, p - 1, q, p);
      Regroup(p - 1, q, x, p);
    }
  }

  lemma UndoScale(l: int, x: int, u: int, h: int, p: int)
    requires Cong(l, u * x, p) && Cong(u * h, 1, p)
    ensures Cong(l * h, x, p)
  {
    hide Cong;
    CongRefl(h, p);
    CongMul(l, u * x, h, h, p);
    CongRefl(x, p);
    CongMul(u * h, 1, x, x, p);
    assert (u * x) * h == (u * h) * x;
    CongTrans(l * h, (u * h) * x, x, p);
  }

  /** Remaindering mp and mq lands in [0, n) on the plaintext's residue. */
  lemma JoinHalves(mp: int, mq: int, x: int, p: int, q: int, pInv: int, t: int)
    requires p > 0 && q > 0 && Unit(p, q) && Cong(p * pInv, 1, q)
    requires 0 <= mp < p && Cong(mp, x, p) && Cong(mq, x, q)
    requires t == ModMul(mq - mp, pInv, q)
    ensures p * q > 0 && t * p + mp == x % (p * q)
  {
    hide Cong, ModMul;
    var out := t * p + mp;
    CongIntro(out, mp, p, t);
    CongTrans(out, mp, x, p);
    SecondDigit(mp, mq, p, q, pInv, t);
    CongTrans(out, mq, x, q);
    Crt(out, x, p, q);
    MixedRadix(t, mp, p, q);
    CongSym(out, x, p * q);
    ModIs(x, out, p * q);
  }

  lemma SecondDigit(mp: int, mq: int, p: int, q: int, pInv: int, t: int)
    requires q > 0 && Cong(p * pInv, 1, q) && Cong(t, (mq - mp) * pInv, q)
    ensures Cong(t * p + mp, mq, q)
  {
    hide Cong;
    CongRefl(p, q);
    CongMul(t, (mq - mp) * pInv, p, p, q);
    CongRefl(mq - mp, q);
    CongMul(mq - mp, mq - mp, p * pInv, 1, q);
    assert ((mq - mp) * pInv) * p == (mq - mp) * (p * pInv);
    CongTrans(t * p, ((mq - mp) * pInv) * p, mq - mp, q);
    CongRefl(mp, q);
    CongAdd(t * p, mq - mp, mp, mp, q);
  }

  method Decrypt(pk: PublicKey, sk: SecretKey, ct: int) returns (out: Result<int>)
    requires Paired(pk, sk)
    ensures out.Ok? <==> pk.InCipherRange(ct)
    ensures out.Ok? ==> forall x :: pk.Encrypts(ct, x) ==> out.value == Centre(x % pk.n, pk.n)
  {
    hide Cong, GoodPrimes, PowMod, ModMul, TruncDiv, IsLogScale, Encryption.EncryptionOf, Square, PhiSquare, Pow, Unit,
      MSpace.MapBackToZSpace;
    if !pk.InCipherRange(ct) { return Err; }
    SquareFacts(sk.p, sk.q);
    var c := pk.mSpace.MapBackToZSpace(ct);
    var zp := PowMod(c, sk.phiP, sk.pSquare);
    var mp := ModMul(TruncDiv(zp - 1, sk.p), sk.hp, sk.p);
    var zq := PowMod(c, sk.phiQ, sk.qSquare);
    var mq := ModMul(TruncDiv(zq - 1, sk.q), sk.hq, sk.q);
    var t := ModMul(mq - mp, sk.pInvModQ, sk.q);
    var m := t;
    m := m * sk.p;
    m := m + mp;
    ghost var joined := m;
    if m > pk.nHalf { m := m - pk.n; }
    out := Ok(m);
    forall x | pk.Encrypts(ct, x)
      ensures out.value == Centre(x % pk.n, pk.n)
    {
      PrimesOf(sk.p, sk.q);
      HalfDecrypt(c, x, pk.n, sk.p, sk.q, sk.hp, zp, mp);
      HalfDecrypt(c, x, pk.n, sk.q, sk.p, sk.hq, zq, mq);
      JoinHalves(mp, mq, x, sk.p, sk.q, sk.pInvModQ, t);
    }
  }

  lemma PrimesOf(p: int, q: int)
    requires GoodPrimes(p, q)
    ensures IsPrime(p) && IsPrime(q) && p * q == q * p && (p * q) % 2 == 1
  {
    OddProduct(p, q);
  }

  /** Any computation decrypts to the centred representative of its value modulo n, hence to the
      value itself when that is in the plaintext range. */
  method DecryptEval(pk: PublicKey, sk: SecretKey, e: Expr) returns (m: Result<int>)
    requires Paired(pk, sk)
    ensures m.Ok? <==> e.InRange(pk.nHalf)
    ensures m.Ok? ==> m.value == Centre(e.Value() % pk.n, pk.n)
    ensures m.Ok? && -pk.nHalf <= e.Value() <= pk.nHalf ==> m.value == e.Value()
  {
    hide Cong, GoodPrimes, IsLogScale, Encryption.EncryptionOf, Square, PhiSquare, Pow, Unit;
    var c := Eval(pk, e);
    if c.Err? { return Err; }
    m := Decrypt(pk, sk, c.value);
    PrimesOf(sk.p, sk.q);
    if -pk.nHalf <= e.Value() <= pk.nHalf { CentreResidue(e.Value(), pk.n); }
  }

  function Formula(m1: int, k: int, m2: int, m3: int, m4: int, r: seq<nat>): Expr
    requires |r| == 4
  {
    Add(Mul(Encrypt(m1, r[0]), k), Add(Randomize(AddPlain(Encrypt(m2, r[1]), m3), r[2]), Negate(Encrypt(m4, r[3]))))
  }

  lemma FormulaMeans(m1: int, k: int, m2: int, m3: int, m4: int, r: seq<nat>, bound: int)
    requires |r| == 4
    ensures var e := Formula(m1, k, m2, m3, m4, r);
            && e.Value() == m1 * k + m2 + m3 - m4 && e.Noise() == r[0] * k + r[1] + r[2] - r[3]
            && (e.InRange(bound) <==> -bound <= m1 <= bound && -bound <= m2 <= bound && -bound <= m3 <= bound
                                      && -bound <= m4 <= bound)
  {
    var a, b := Mul(Encrypt(m1, r[0]), k), AddPlain(Encrypt(m2, r[1]), m3);
    assert a.Value() == m1 * k && (a.InRange(bound) <==> -bound <= m1 <= bound);
    assert b.Value() == m2 + m3;
    assert b.InRange(bound) <==> -bound <= m2 <= bound && -bound <= m3 <= bound;
    var c, d := Randomize(b, r[2]), Negate(Encrypt(m4, r[3]));
    assert c.Value() == b.Value() && (c.InRange(bound) <==> b.InRange(bound));
    assert d.Value() == -m4 && (d.InRange(bound) <==> -bound <= m4 <= bound);
    assert a.Noise() == r[0] * k && b.Noise() == r[1] && c.Noise() == r[1] + r[2] && d.Noise() + r[3] == 0;
    assert Add(c, d).Noise() == c.Noise() + d.Noise();
    assert Add(c, d).Value() == c.Value() + d.Value();
    assert Add(c, d).InRange(bound) <==> c.InRange(bound) && d.InRange(bound);
  }

  /** All evaluator operations in one formula: it comes back whenever it is in range, whatever is drawn. */
  method DecryptsFormula(pk: PublicKey, sk: SecretKey, m1: int, k: int, m2: int, m3: int, m4: int, r: seq<nat>)
    returns (out: Result<int>)
    requires Paired(pk, sk) && |r| == 4
    ensures out.Ok? <==> -pk.nHalf <= m1 <= pk.nHalf && -pk.nHalf <= m2 <= pk.nHalf && -pk.nHalf <= m3 <= pk.nHalf
                         && -pk.nHalf <= m4 <= pk.nHalf
    ensures out.Ok? && -pk.nHalf <= m1 * k + m2 + m3 - m4 <= pk.nHalf ==> out.value == m1 * k + m2 + m3 - m4
  {
    hide PublicKey.Valid, SecretKey.Valid, Expr.Value, Expr.InRange;
    var e := Formula(m1, k, m2, m3, m4, r);
    FormulaMeans(m1, k, m2, m3, m4, r, pk.nHalf);
    out := DecryptEval(pk, sk, e);
  }

  /** Key generation from the candidates its rejection loops accept: distinct odd primes p and q, a unit x modulo
      n; r is the Montgomery constant. Inverting lambda fails exactly when one prime is 1 modulo the other, which
      primes of one bit size, as drawn, never are. */
  method GenPkSk(p: int, q: int, x: int, r: int) returns (ok: bool, sk: SecretKey, pk: PublicKey)
    requires GoodPrimes(p, q) && Unit(x, p * q) && Unit(r, Pow(p * q, 2))
    ensures ok <==> !Cong(q, 1, p) && !Cong(p, 1, q)
    ensures BitCount(p) == BitCount(q) ==> ok
    ensures ok ==> Paired(pk, sk) && sk.p == p && sk.q == q && pk.n == p * q
    ensures ok ==> Cong(pk.hs, Pow(-(x * x), p * q), Pow(p * q, 2))
    ensures ok ==> sk.lambda == (p - 1) * (q - 1) / 2 && Cong(sk.lambda * sk.mu, 1, p * q)
  {
    hide Cong, IsLogScale, Square, PhiSquare, Unit, IsPrime, Bezout, BitCount;
    SquareFacts(p, q);
    var n := p * q;
    assert n >= p * 1;
    var h := -ModMul(x, x, n);
    var lambda := (p - 1) * (q - 1) / 2;
    if BitCount(p) == BitCount(q) { DjKeys.SameBits(p, q); }
    DjKeys.LambdaInvertible(p, q);
    assert DjSecretKey.Lambda(DjSecretKey.MPInt2(p, q)) == lambda;
    assert DjSecretKey.Modulus(DjSecretKey.MPInt2(p, q)) == n;
    GcdTest(lambda, n);
    ok := Bezout(lambda % n, n).0 == 1;
    sk := new SecretKey(p, q, lambda, 0);
    pk := new PublicKey(n, 0);
    if !ok { return; }
    sk := new SecretKey(p, q, lambda, InvMod(lambda, n));
    sk.Init();
    var hs := sk.PowModNSquareCrt(h, n);
    HsIsNoise(sk, x, h, hs);
    pk := new PublicKey(n, hs);
    pk.Init(r);
  }

  lemma HsIsNoise(sk: SecretKey, x: int, h: int, hs: int)
    requires sk.Valid() && sk.p * sk.q > 1 && Unit(x, sk.p * sk.q)
    requires h == -ModMul(x, x, sk.p * sk.q) && hs == sk.PowModNSquareCrt(h, sk.p * sk.q)
    ensures Encryption.EncryptionOf(hs, 0, sk.p * sk.q, 1)
    ensures Cong(hs, Pow(-(x * x), sk.p * sk.q), Pow(sk.p * sk.q, 2))
  {
    hide Cong, IsLogScale, Unit, IsPrime, GoodPrimes, PhiSquare, SecretKey.PowModNSquareCrt;
    var n := sk.p * sk.q;
    Stored.MinusSquareUnit(x, n);
    sk.PowModNSquareCrtCorrect(h, n);
    PowTwo(n);
    Regroup(sk.p, sk.p, sk.q, sk.q);
    Encryption.Noise(h, n, 1);
    Encryption.Same(hs, Pow(h, Pow(n, 1)), 0, n, 1);
    CongRefl(0, n);
    CongSub(0, 0, ModMul(x, x, n), x * x, n);
    Powers.PowLift(h, -(x * x), n, 1);
    CongTrans(hs, Pow(h, n), Pow(-(x * x), n), Pow(n, 2));
  }
}
