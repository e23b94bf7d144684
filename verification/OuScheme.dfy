/** Okamoto-Uchiyama keys, encryptor, evaluator and decryptor over a Montgomery space, and whole
    computations. */
module OuScheme {
  import opened Arith
  import opened NumberTheory
  import opened BigNum
  import opened Centring
  import opened PaillierKeys
  import opened OuCipher
  import Powers

  datatype Result<T> = Ok(value: T) | Err

  class PublicKey {
    var n: int
    var capitalG: int
    var capitalH: int
    var capitalGInv: int
    var maxPlaintext: int
    var mSpace: MSpace

    constructor (n: int, capitalG: int, capitalH: int, maxPlaintext: int)
      ensures this.n == n && this.capitalG == capitalG && this.capitalH == capitalH && this.maxPlaintext == maxPlaintext
    {
      this.n, this.capitalG, this.capitalH, this.maxPlaintext := n, capitalG, capitalH, maxPlaintext;
    }

    /** G holds 1 and is invertible, H holds 0 and is invertible if k says so. */
    ghost predicate Valid(k: Params)
      reads this
    {
      && k.Valid() && n == k.N() && Holds(capitalG, 1, k) && Holds(capitalH, 0, k)
      && (k.units <==> Unit(capitalH, n)) && Cong(capitalG * capitalGInv, 1, n) && mSpace.Valid() && mSpace.m == n
      && 0 <= maxPlaintext <= k.p / 2
    }

    method Init(r: int, ghost k: Params)
      requires k.Valid() && n == k.N() && Holds(capitalG, 1, k) && Holds(capitalH, 0, k) && Unit(r, n)
      requires Unit(capitalG, n) && (k.units <==> Unit(capitalH, n))
      requires 0 <= maxPlaintext <= k.p / 2
      modifies this`capitalGInv, this`mSpace
      ensures Valid(k) && mSpace.r == r
    {
      hide Cong, IsPrime;
      ModuliPositive(k);
      capitalGInv := InvMod(capitalG, n);
      mSpace := MSpace(n, r);
    }

    predicate InCipherRange(c: int)
      reads this
    {
      0 <= c < n
    }

    /** The stored ciphertext c encrypts x. */
    ghost predicate Encrypts(c: int, x: int, k: Params)
      requires Valid(k)
      reads this
    {
      InCipherRange(c) && Holds(mSpace.MapBackToZSpace(c), x, k)
    }

    /** The stored word c is G^x * H^z. */
    ghost predicate Carries(c: int, x: int, z: int, k: Params)
      requires Valid(k)
      reads this
    {
      Powers.Combines(mSpace.MapBackToZSpace(c), x, z, capitalG, capitalH, n)
    }

    /** Storing anything congruent to a ciphertext. */
    lemma Store(z: int, d: int, x: int, k: Params)
      requires Valid(k) && Holds(d, x, k) && Cong(z, d, n)
      ensures Encrypts(mSpace.MapIntoMSpace(z), x, k)
    {
      hide Cong, Holds, MSpace.MapBackToZSpace;
      var c := mSpace.MapIntoMSpace(z);
      mSpace.StoresBack(c, z);
      CongTrans(mSpace.MapBackToZSpace(c), z, d, n);
      HoldsSame(mSpace.MapBackToZSpace(c), d, x, k);
    }

    lemma Sum(a: int, x: int, b: int, y: int, k: Params)
      requires Valid(k) && Encrypts(a, x, k) && Encrypts(b, y, k)
      ensures Encrypts(mSpace.MulMod(a, b), x + y, k)
    {
      hide Cong, Holds, MSpace.MapBackToZSpace;
      var u, v := mSpace.MapBackToZSpace(a), mSpace.MapBackToZSpace(b);
      mSpace.StoresOwn(a);
      mSpace.StoresOwn(b);
      mSpace.StoresMul(a, u, b, v);
      mSpace.StoresBack(mSpace.MulMod(a, b), u * v);
      HoldsProduct(u, x, v, y, k);
      HoldsSame(mSpace.MapBackToZSpace(mSpace.MulMod(a, b)), u * v, x + y, k);
    }

    /** Table power of G or of its inverse, by the sign of m. */
    function PlainPower(m: int, ghost k: Params): (c: int)
      requires Valid(k)
      reads this
      ensures Encrypts(c, m, k)
      ensures Unit(capitalG, n) && Cong(mSpace.MapBackToZSpace(c), ZPow(capitalG, m, n), n)
    {
      PlainPowerOk(m, k);
      PlainPowerWord(m, k);
      if m < 0 then mSpace.PowMod(capitalGInv, -m) else mSpace.PowMod(capitalG, m)
    }

    lemma PlainPowerWord(m: int, k: Params)
      requires Valid(k)
      ensures Unit(capitalG, n)
      ensures Cong(mSpace.MapBackToZSpace(if m < 0 then mSpace.PowMod(capitalGInv, -m) else mSpace.PowMod(capitalG, m)),
                   ZPow(capitalG, m, n), n)
    {
      hide MSpace.MapBackToZSpace, Holds, Params.Valid;
      UnitIntro(capitalG, capitalGInv, n);
      Powers.TablePower(mSpace, capitalG, capitalGInv, m);
    }

    lemma PlainPowerOk(m: int, k: Params)
      requires Valid(k)
      ensures Encrypts(if m < 0 then mSpace.PowMod(capitalGInv, -m) else mSpace.PowMod(capitalG, m), m, k)
    {
      hide Cong, Holds, Pow;
      if m < 0 {
        HoldsInverse(capitalG, capitalGInv, 1, k);
        HoldsPower(capitalGInv, -1, -m, k);
        CongRefl(Pow(capitalGInv, -m), n);
        Store(Pow(capitalGInv, -m), Pow(capitalGInv, -m), m, k);
      } else {
        HoldsPower(capitalG, 1, m, k);
        CongRefl(Pow(capitalG, m), n);
        Store(Pow(capitalG, m), Pow(capitalG, m), m, k);
      }
    }

    /** H^r in stored form: an encryption of zero. */
    function GetHr(r: nat, ghost k: Params): (c: int)
      requires Valid(k)
      reads this
      ensures Encrypts(c, 0, k)
      ensures Cong(mSpace.MapBackToZSpace(c), Pow(capitalH, r), n)
    {
      GetHrOk(r, k);
      mSpace.StoresBack(mSpace.PowMod(capitalH, r), Pow(capitalH, r));
      mSpace.PowMod(capitalH, r)
    }

    lemma GetHrOk(r: nat, k: Params)
      requires Valid(k)
      ensures Encrypts(mSpace.PowMod(capitalH, r), 0, k)
    {
      hide Cong, Holds, Pow;
      HoldsPower(capitalH, 0, r, k);
      CongRefl(Pow(capitalH, r), n);
      Store(Pow(capitalH, r), Pow(capitalH, r), 0, k);
    }

    function Encrypt(m: int, r: nat, ghost k: Params): (c: Result<int>)
      requires Valid(k)
      reads this
      ensures c.Ok? <==> -maxPlaintext <= m <= maxPlaintext
      ensures c.Ok? ==> Encrypts(c.value, m, k)
      ensures Unit(capitalG, n)
      ensures c.Ok? ==> Cong(mSpace.MapBackToZSpace(c.value), ZPow(capitalG, m, n) * Pow(capitalH, r), n)
    {
      UnitIntro(capitalG, capitalGInv, n);
      if !(-maxPlaintext <= m <= maxPlaintext) then Err
      else
        Powers.SwappedProduct(mSpace, GetHr(r, k), Pow(capitalH, r), PlainPower(m, k), ZPow(capitalG, m, n));
        Sum(GetHr(r, k), 0, PlainPower(m, k), m, k);
        Ok(mSpace.MulMod(GetHr(r, k), PlainPower(m, k)))
    }

    // ---------------------------------------------------------------- evaluator

    /** Fails exactly when the word is out of range or has no inverse. */
    function Negate(a: int, ghost k: Params): (c: Result<int>)
      requires Valid(k)
      reads this
      ensures c.Ok? <==> InCipherRange(a) && Unit(mSpace.MapBackToZSpace(a), n)
      ensures c.Ok? ==> forall x :: Encrypts(a, x, k) ==> Encrypts(c.value, -x, k)
      ensures c.Ok? ==> Powers.PowerOf(mSpace.MapBackToZSpace(c.value), mSpace.MapBackToZSpace(a), -1, n)
    {
      Invertible(a, k);
      NegateWord(a, k);
      if !InCipherRange(a) || Bezout(mSpace.MapBackToZSpace(a) % n, n).0 != 1 then Err
      else
        var c := mSpace.MapIntoMSpace(InvMod(mSpace.MapBackToZSpace(a), n));
        assert forall x :: Encrypts(a, x, k) ==> Encrypts(c, -x, k) by {
          forall x | Encrypts(a, x, k) ensures Encrypts(c, -x, k) { NegateOk(a, x, k); }
        }
        Ok(c)
    }

    lemma NegateWord(a: int, k: Params)
      requires Valid(k)
      ensures n > 0 && (Unit(mSpace.MapBackToZSpace(a), n) ==>
                var c := mSpace.MapIntoMSpace(InvMod(mSpace.MapBackToZSpace(a), n));
                Powers.PowerOf(mSpace.MapBackToZSpace(c), mSpace.MapBackToZSpace(a), -1, n))
    {
      hide MSpace.MapBackToZSpace, InvMod, Holds, Params.Valid;
      if Unit(mSpace.MapBackToZSpace(a), n) { Powers.InverseWord(mSpace, a); }
    }

    lemma Invertible(a: int, k: Params)
      requires Valid(k)
      ensures n > 1 && (Bezout(mSpace.MapBackToZSpace(a) % n, n).0 == 1 <==> Unit(mSpace.MapBackToZSpace(a), n))
    {
      hide Unit, Bezout, MSpace.MapBackToZSpace;
      ModuliPositive(k);
      GcdTest(mSpace.MapBackToZSpace(a), n);
    }

    lemma NegateOk(a: int, x: int, k: Params)
      requires Valid(k) && Encrypts(a, x, k) && Unit(mSpace.MapBackToZSpace(a), n)
      ensures Encrypts(mSpace.MapIntoMSpace(InvMod(mSpace.MapBackToZSpace(a), n)), -x, k)
    {
      hide Cong, Holds, InvMod, MSpace.MapBackToZSpace;
      var u := mSpace.MapBackToZSpace(a);
      HoldsInverse(u, InvMod(u, n), x, k);
      CongRefl(InvMod(u, n), n);
      Store(InvMod(u, n), InvMod(u, n), -x, k);
    }

    function AddPlain(a: int, m: int, ghost k: Params): (c: Result<int>)
      requires Valid(k)
      reads this
      ensures c.Ok? <==> InCipherRange(a) && -maxPlaintext <= m <= maxPlaintext
      ensures c.Ok? ==> forall x :: Encrypts(a, x, k) ==> Encrypts(c.value, x + m, k)
      ensures Unit(capitalG, n)
      ensures c.Ok? ==> Cong(mSpace.MapBackToZSpace(c.value), mSpace.MapBackToZSpace(a) * ZPow(capitalG, m, n), n)
    {
      UnitIntro(capitalG, capitalGInv, n);
      AddPlainWord(a, m, k);
      if !InCipherRange(a) || !(-maxPlaintext <= m <= maxPlaintext) then Err
      else
        assert forall x :: Encrypts(a, x, k) ==> Encrypts(mSpace.MulMod(a, PlainPower(m, k)), x + m, k) by {
          forall x | Encrypts(a, x, k) ensures Encrypts(mSpace.MulMod(a, PlainPower(m, k)), x + m, k) {
            Sum(a, x, PlainPower(m, k), m, k);
          }
        }
        Ok(mSpace.MulMod(a, PlainPower(m, k)))
    }

    lemma AddPlainWord(a: int, m: int, k: Params)
      requires Valid(k)
      ensures Unit(capitalG, n)
      ensures InCipherRange(a) ==>
                Cong(mSpace.MapBackToZSpace(mSpace.MulMod(a, PlainPower(m, k))),
                     mSpace.MapBackToZSpace(a) * ZPow(capitalG, m, n), n)
    {
      hide Cong, MSpace.MapBackToZSpace, Holds, Params.Valid, ZPow, PublicKey.PlainPower;
      UnitIntro(capitalG, capitalGInv, n);
      if InCipherRange(a) {
        var p := PlainPower(m, k);
        var u, v, w := mSpace.MapBackToZSpace(a), mSpace.MapBackToZSpace(p), mSpace.MapBackToZSpace(mSpace.MulMod(a, p));
        Powers.BackMul(mSpace, a, p);
        CongRefl(u, n);
        CongMul(u, u, v, ZPow(capitalG, m, n), n);
        CongTrans(w, u * v, u * ZPow(capitalG, m, n), n);
      }
    }

    function Add(a: int, b: int, ghost k: Params): (c: Result<int>)
      requires Valid(k)
      reads this
      ensures c.Ok? <==> InCipherRange(a) && InCipherRange(b)
      ensures c.Ok? ==> forall x, y :: Encrypts(a, x, k) && Encrypts(b, y, k) ==> Encrypts(c.value, x + y, k)
      ensures c.Ok? ==> Cong(mSpace.MapBackToZSpace(c.value), mSpace.MapBackToZSpace(a) * mSpace.MapBackToZSpace(b), n)
    {
      if !InCipherRange(a) || !InCipherRange(b) then Err
      else
        Powers.BackMul(mSpace, a, b);
        assert forall x, y :: Encrypts(a, x, k) && Encrypts(b, y, k) ==> Encrypts(mSpace.MulMod(a, b), x + y, k) by {
          forall x, y | Encrypts(a, x, k) && Encrypts(b, y, k) ensures Encrypts(mSpace.MulMod(a, b), x + y, k) {
            Sum(a, x, b, y, k);
          }
        }
        Ok(mSpace.MulMod(a, b))
    }

    /** Scaling, with the shortcuts for 0, 1 and -1; a negative factor needs an inverse. */
    function Mul(a: int, e: int, ghost k: Params): (c: Result<int>)
      requires Valid(k)
      reads this
      ensures c.Ok? <==> InCipherRange(a) && (e >= 0 || Unit(mSpace.MapBackToZSpace(a), n))
      ensures c.Ok? ==> forall x :: Encrypts(a, x, k) ==> Encrypts(c.value, x * e, k)
      ensures c.Ok? ==> Powers.PowerOf(mSpace.MapBackToZSpace(c.value), mSpace.MapBackToZSpace(a), e, n)
    {
      Invertible(a, k);
      MulWord(a, e, k);
      if !InCipherRange(a) then Err
      else if e == 0 then
        IdentityOk(k);
        Ok(mSpace.Identity())
      else if e == -1 then Negate(a, k)
      else if e == 1 then Ok(a)
      else if e < 0 && Bezout(mSpace.MapBackToZSpace(a) % n, n).0 != 1 then Err
      else
        var c := mSpace.MapIntoMSpace(PowMod(mSpace.MapBackToZSpace(a), e, n));
        assert forall x :: Encrypts(a, x, k) ==> Encrypts(c, x * e, k) by {
          forall x | Encrypts(a, x, k) ensures Encrypts(c, x * e, k) { ScaledOk(a, x, e, k); }
        }
        Ok(c)
    }

    lemma MulWord(a: int, e: int, k: Params)
      requires Valid(k)
      ensures n > 0
      ensures e == 0 ==> Powers.PowerOf(mSpace.MapBackToZSpace(mSpace.Identity()), mSpace.MapBackToZSpace(a), 0, n)
      ensures e == 1 ==> Powers.PowerOf(mSpace.MapBackToZSpace(a), mSpace.MapBackToZSpace(a), 1, n)
      ensures e >= 0 || Unit(mSpace.MapBackToZSpace(a), n) ==>
                var c := mSpace.MapIntoMSpace(PowMod(mSpace.MapBackToZSpace(a), e, n));
                Powers.PowerOf(mSpace.MapBackToZSpace(c), mSpace.MapBackToZSpace(a), e, n)
    {
      hide MSpace.MapBackToZSpace, Holds, Params.Valid;
      Powers.PowerWord(mSpace, a, e);
    }

    lemma ScaledOk(a: int, x: int, e: int, k: Params)
      requires Valid(k) && Encrypts(a, x, k) && (e < 0 ==> Unit(mSpace.MapBackToZSpace(a), n))
      ensures Encrypts(mSpace.MapIntoMSpace(PowMod(mSpace.MapBackToZSpace(a), e, n)), x * e, k)
    {
      hide Cong, Holds, MSpace.MapBackToZSpace, Unit, Pow;
      var u := mSpace.MapBackToZSpace(a);
      if e >= 0 {
        HoldsPower(u, x, e, k);
        Store(PowMod(u, e, n), Pow(u, e), x * e, k);
      } else {
        HoldsZPow(u, x, e, k);
        Store(PowMod(u, e, n), ZPow(u, e, n), x * e, k);
      }
    }

    lemma IdentityOk(k: Params)
      requires Valid(k)
      ensures Encrypts(mSpace.Identity(), 0, k)
    {
      hide Cong, Pow, Holds;
      HoldsPower(capitalG, 1, 0, k);
      assert Pow(capitalG, 0) == 1 by { PowZero(capitalG); }
      CongRefl(1, n);
      Store(1, 1, 0, k);
    }

    method Randomize(ct: int, r: nat, ghost k: Params) returns (c: Result<int>)
      requires Valid(k)
      ensures c == Add(ct, GetHr(r, k), k)
    {
      if !InCipherRange(ct) { return Err; }
      c := Ok(mSpace.MulMod(ct, mSpace.PowMod(capitalH, r)));
    }
  }

  lemma PowZero(b: int)
    ensures Pow(b, 0) == 1
  {
  }

  // ------------------------------------------------------------------ whole computations

  /** A computation over ciphertexts; r is the randomness drawn at that step. */
  datatype Expr =
    | Encrypt(m: int, r: nat)
    | Add(a: Expr, b: Expr)
    | AddPlain(a: Expr, m: int)
    | Mul(a: Expr, e: int)
    | Negate(a: Expr)
    | Randomize(a: Expr, r: nat)
  {
    function Value(): int
    {
      match this
      case Encrypt(m, _) => m
      case Add(a, b) => a.Value() + b.Value()
      case AddPlain(a, m) => a.Value() + m
      case Mul(a, e) => a.Value() * e
      case Negate(a) => -a.Value()
      case Randomize(a, _) => a.Value()
    }

    /** The exponent of H that the computation ends with. */
    function Noise(): int
    {
      match this
      case Encrypt(_, r) => r
      case Add(a, b) => a.Noise() + b.Noise()
      case AddPlain(a, _) => a.Noise()
      case Mul(a, e) => a.Noise() * e
      case Negate(a) => -a.Noise()
      case Randomize(a, r) => a.Noise() + r
    }

    predicate InRange(bound: int)
    {
      match this
      case Encrypt(m, _) => -bound <= m <= bound
      case Add(a, b) => a.InRange(bound) && b.InRange(bound)
      case AddPlain(a, m) => a.InRange(bound) && -bound <= m <= bound
      case Mul(a, _) => a.InRange(bound)
      case Negate(a) => a.InRange(bound)
      case Randomize(a, _) => a.InRange(bound)
    }

    /** Some step negates or scales by a negative number, which inverts a ciphertext. */
    predicate Inverts()
    {
      match this
      case Encrypt(_, _) => false
      case Add(a, b) => a.Inverts() || b.Inverts()
      case AddPlain(a, _) => a.Inverts()
      case Mul(a, e) => e < 0 || a.Inverts()
      case Negate(a) => true
      case Randomize(a, _) => a.Inverts()
    }
  }

  lemma Known(pk: PublicKey, a: int, x: int, k: Params)
    requires pk.Valid(k) && pk.Encrypts(a, x, k)
    ensures pk.InCipherRange(a) && (k.units ==> Unit(pk.mSpace.MapBackToZSpace(a), pk.n))
  {
  }

  /** A ciphertext of x, made of G^x and H^z when H is invertible. */
  ghost predicate Made(pk: PublicKey, c: int, x: int, z: int, k: Params)
    requires pk.Valid(k)
    reads pk
  {
    pk.Encrypts(c, x, k) && (k.units ==> pk.Carries(c, x, z, k))
  }

  /** A computation that succeeds has its plaintexts in range and encrypts its value, with exactly its noise when H is
      invertible; one whose plaintexts are in range succeeds, unless it inverts a ciphertext while H is not. */
  method Eval(pk: PublicKey, e: Expr, ghost k: Params) returns (c: Result<int>)
    requires pk.Valid(k)
    ensures c.Ok? ==> e.InRange(pk.maxPlaintext) && Made(pk, c.value, e.Value(), e.Noise(), k)
    ensures e.InRange(pk.maxPlaintext) && (e.Inverts() ==> k.units) ==> c.Ok?
    decreases e
  {
    hide PublicKey.Valid, Made, Fresh, Zero, Scaled, Negated, Sum, AddedPlain;
    match e
    case Encrypt(m, r) =>
      c := Fresh(pk, m, r, k);
    case Add(a, b) =>
      var ca := Eval(pk, a, k);
      if ca.Err? { return Err; }
      var cb := Eval(pk, b, k);
      if cb.Err? { return Err; }
      c := Ok(Sum(pk, ca.value, cb.value, k, a.Value(), a.Noise(), b.Value(), b.Noise()));
    case AddPlain(a, m) =>
      var ca := Eval(pk, a, k);
      if ca.Err? { return Err; }
      c := AddedPlain(pk, ca.value, m, k, a.Value(), a.Noise());
    case Mul(a, f) =>
      var ca := Eval(pk, a, k);
      if ca.Err? { return Err; }
      c := Scaled(pk, ca.value, f, k, a.Value(), a.Noise());
    case Negate(a) =>
      var ca := Eval(pk, a, k);
      if ca.Err? { return Err; }
      c := Negated(pk, ca.value, k, a.Value(), a.Noise());
    case Randomize(a, r) =>
      var ca := Eval(pk, a, k);
      if ca.Err? { return Err; }
      c := Ok(Sum(pk, ca.value, Zero(pk, r, k), k, a.Value(), a.Noise(), 0, r));
  }

  lemma FreshCarries(pk: PublicKey, c: int, m: int, r: nat, k: Params)
    requires pk.Valid(k) && Unit(pk.capitalG, pk.n)
    requires Cong(pk.mSpace.MapBackToZSpace(c), ZPow(pk.capitalG, m, pk.n) * Pow(pk.capitalH, r), pk.n)
    ensures k.units ==> pk.Carries(c, m, r, k)
  {
    hide Cong, Unit, ZPow, Holds, MSpace.MapBackToZSpace;
    if k.units { Powers.Fresh(pk.mSpace.MapBackToZSpace(c), m, r, pk.capitalG, pk.capitalH, pk.n); }
  }

  function Fresh(pk: PublicKey, m: int, r: nat, ghost k: Params): (c: Result<int>)
    requires pk.Valid(k)
    reads pk
    ensures c.Ok? <==> -pk.maxPlaintext <= m <= pk.maxPlaintext
    ensures c.Ok? ==> Made(pk, c.value, m, r, k)
  {
    var c := pk.Encrypt(m, r, k);
    if c.Ok? then
      FreshCarries(pk, c.value, m, r, k);
      c
    else c
  }

  /** H^r alone. */
  function Zero(pk: PublicKey, r: nat, ghost k: Params): (c: int)
    requires pk.Valid(k)
    reads pk
    ensures Made(pk, c, 0, r, k)
  {
    ZeroCarries(pk, r, k);
    pk.GetHr(r, k)
  }

  lemma ZeroCarries(pk: PublicKey, r: nat, k: Params)
    requires pk.Valid(k)
    ensures k.units ==> pk.Carries(pk.GetHr(r, k), 0, r, k)
  {
    hide Cong, Unit, Holds, MSpace.MapBackToZSpace;
    UnitIntro(pk.capitalG, pk.capitalGInv, pk.n);
    assert ZPow(pk.capitalG, 0, pk.n) * Pow(pk.capitalH, r) == Pow(pk.capitalH, r) by { PowZero(pk.capitalG); }
    FreshCarries(pk, pk.GetHr(r, k), 0, r, k);
  }

  /** Scaling a ciphertext known to be made of x and z. */
  function Scaled(pk: PublicKey, a: int, e: int, ghost k: Params, ghost x: int, ghost z: int): (c: Result<int>)
    requires pk.Valid(k) && Made(pk, a, x, z, k)
    reads pk
    ensures (e < 0 ==> k.units) ==> c.Ok?
    ensures c.Ok? ==> Made(pk, c.value, x * e, z * e, k)
  {
    var c := pk.Mul(a, e, k);
    if c.Ok? then
      PowerCarries(pk, c.value, a, e, x, z, k);
      c
    else c
  }

  lemma PowerCarries(pk: PublicKey, c: int, a: int, e: int, x: int, z: int, k: Params)
    requires pk.Valid(k) && (k.units ==> pk.Carries(a, x, z, k))
    requires Powers.PowerOf(pk.mSpace.MapBackToZSpace(c), pk.mSpace.MapBackToZSpace(a), e, pk.n)
    ensures k.units ==> pk.Carries(c, x * e, z * e, k)
  {
    hide Powers.PowerOf, Powers.Combines, MSpace.MapBackToZSpace, Holds;
    if k.units {
      Powers.Power(pk.mSpace.MapBackToZSpace(c), pk.mSpace.MapBackToZSpace(a), e, x, z, pk.capitalG, pk.capitalH, pk.n);
    }
  }

  function Negated(pk: PublicKey, a: int, ghost k: Params, ghost x: int, ghost z: int): (c: Result<int>)
    requires pk.Valid(k) && Made(pk, a, x, z, k)
    reads pk
    ensures k.units ==> c.Ok?
    ensures c.Ok? ==> Made(pk, c.value, -x, -z, k)
  {
    var c := pk.Negate(a, k);
    if c.Ok? then
      PowerCarries(pk, c.value, a, -1, x, z, k);
      c
    else c
  }

  lemma ProductCarries(pk: PublicKey, c: int, a: int, b: int, x: int, z: int, y: int, w: int, k: Params)
    requires pk.Valid(k) && (k.units ==> pk.Carries(a, x, z, k) && pk.Carries(b, y, w, k))
    requires Cong(pk.mSpace.MapBackToZSpace(c), pk.mSpace.MapBackToZSpace(a) * pk.mSpace.MapBackToZSpace(b), pk.n)
    ensures k.units ==> pk.Carries(c, x + y, z + w, k)
  {
    hide Powers.Combines, MSpace.MapBackToZSpace, Cong, Holds;
    if k.units {
      Powers.Product(pk.mSpace.MapBackToZSpace(c), pk.mSpace.MapBackToZSpace(a), x, z, pk.mSpace.MapBackToZSpace(b), y, w,
                     pk.capitalG, pk.capitalH, pk.n);
    }
  }

  function Sum(pk: PublicKey, a: int, b: int, ghost k: Params, ghost x: int, ghost z: int, ghost y: int, ghost w: int)
    : (c: int)
    requires pk.Valid(k) && Made(pk, a, x, z, k) && Made(pk, b, y, w, k)
    reads pk
    ensures Made(pk, c, x + y, z + w, k)
  {
    ProductCarries(pk, pk.Add(a, b, k).value, a, b, x, z, y, w, k);
    pk.Add(a, b, k).value
  }

  function AddedPlain(pk: PublicKey, a: int, m: int, ghost k: Params, ghost x: int, ghost z: int): (c: Result<int>)
    requires pk.Valid(k) && Made(pk, a, x, z, k)
    reads pk
    ensures c.Ok? <==> -pk.maxPlaintext <= m <= pk.maxPlaintext
    ensures c.Ok? ==> Made(pk, c.value, x + m, z, k)
  {
    var c := pk.AddPlain(a, m, k);
    if c.Ok? then
      PlainCarries(pk, c.value, a, m, x, z, k);
      c
    else c
  }

  lemma PlainCarries(pk: PublicKey, c: int, a: int, m: int, x: int, z: int, k: Params)
    requires pk.Valid(k) && (k.units ==> pk.Carries(a, x, z, k)) && Unit(pk.capitalG, pk.n)
    requires Cong(pk.mSpace.MapBackToZSpace(c), pk.mSpace.MapBackToZSpace(a) * ZPow(pk.capitalG, m, pk.n), pk.n)
    ensures k.units ==> pk.Carries(c, x + m, z, k)
  {
    hide Powers.Combines, MSpace.MapBackToZSpace, Cong, Holds, ZPow, Unit, PublicKey.PlainPower;
    var b := ZPow(pk.capitalG, m, pk.n);
    if k.units {
      assert b * Pow(pk.capitalH, 0) == b by { PowZero(pk.capitalH); }
      CongRefl(b, pk.n);
      Powers.Fresh(b, m, 0, pk.capitalG, pk.capitalH, pk.n);
      Powers.Product(pk.mSpace.MapBackToZSpace(c), pk.mSpace.MapBackToZSpace(a), x, z, b, m, 0, pk.capitalG, pk.capitalH,
                     pk.n);
    }
  }

  /** When H is not invertible, a fresh ciphertext can be negated only if no power of H went into it. */
  lemma FreshUnit(pk: PublicKey, m: int, r: nat, k: Params)
    requires pk.Valid(k) && -pk.maxPlaintext <= m <= pk.maxPlaintext
    ensures pk.Negate(pk.Encrypt(m, r, k).value, k).Ok? <==> Unit(pk.capitalH, pk.n) || r == 0
  {
    hide Cong, Pow, Unit, Holds, MSpace.MapBackToZSpace, PublicKey.Negate, IsPrime;
    var b := if m < 0 then pk.capitalGInv else pk.capitalG;
    var d: nat := if m < 0 then -m else m;
    var u, v, ms := pk.mSpace.PowMod(pk.capitalH, r), pk.mSpace.PowMod(b, d), pk.mSpace;
    assert pk.Encrypt(m, r, k).value == ms.MulMod(u, v);
    ms.StoresMul(u, Pow(pk.capitalH, r), v, Pow(b, d));
    ms.StoresBack(ms.MulMod(u, v), Pow(pk.capitalH, r) * Pow(b, d));
    TableUnit(pk.capitalG, pk.capitalGInv, m < 0, pk.n);
    ProductUnit(ms.MapBackToZSpace(ms.MulMod(u, v)), pk.capitalH, b, r, d, pk.n);
    assert pk.InCipherRange(ms.MulMod(u, v));
  }

  lemma TableUnit(g: int, gInv: int, negative: bool, n: int)
    requires Cong(g * gInv, 1, n)
    ensures Unit(if negative then gInv else g, n)
  {
    hide Cong;
    assert g * gInv == gInv * g;
    UnitIntro(g, gInv, n);
    UnitIntro(gInv, g, n);
  }

  lemma ProductUnit(c: int, h: int, b: int, r: nat, d: nat, n: int)
    requires Cong(c, Pow(h, r) * Pow(b, d), n) && Unit(b, n)
    ensures Unit(c, n) <==> Unit(h, n) || r == 0
  {
    hide Cong, Unit;
    var w := Pow(h, r) * Pow(b, d);
    CongSym(c, w, n);
    UnitPow(b, d, n);
    if Unit(c, n) {
      UnitCong(c, w, n);
      UnitFactor(Pow(h, r), Pow(b, d), n);
      if r > 0 { UnitFactor(h, Pow(h, r - 1), n); }
    }
    if Unit(h, n) || r == 0 {
      if r == 0 { UnitOne(n); } else { UnitPow(h, r, n); }
      UnitMul(Pow(h, r), Pow(b, d), n);
      UnitCong(w, c, n);
    }
  }

  // ------------------------------------------------------------------ secret key and decryptor

  datatype SecretKey = SecretKey(p: int, q: int, t: nat, gpInv: int, p2: int, pHalf: int, n: int)
  {
    ghost predicate Valid(k: Params)
    {
      && k.Valid() && p == k.p && q == k.q && t == k.t && p2 == Square(p) && pHalf == p / 2 && n == p2 * q
      && Cong(k.l * gpInv, 1, p)
    }
  }

  /** The t-th power modulo p^2, its logarithm, and the sign. */
  method Decrypt(pk: PublicKey, sk: SecretKey, ct: int, ghost k: Params) returns (out: Result<int>)
    requires pk.Valid(k) && sk.Valid(k)
    ensures out.Ok? <==> pk.InCipherRange(ct)
    ensures out.Ok? ==> forall x :: pk.Encrypts(ct, x, k) ==> out.value == Centre(x % sk.p, sk.p)
  {
    hide Cong, IsPrime, PowMod, ModMul, TruncDiv, Holds, Square, Pow, Unit, MSpace.MapBackToZSpace;
    if !pk.InCipherRange(ct) { return Err; }
    ModuliPositive(k);
    var c := pk.mSpace.MapBackToZSpace(ct);
    ghost var c0 := c;
    c := PowMod(c % sk.p2, sk.t, sk.p2);
    ghost var z := c;
    c := c - 1;
    var m := ModMul(TruncDiv(c, sk.p), sk.gpInv, sk.p);
    ghost var m0 := m;
    if m > sk.pHalf { m := m - sk.p; }
    out := Ok(m);
    forall x | pk.Encrypts(ct, x, k)
      ensures out.value == Centre(x % sk.p, sk.p)
    {
      ReadsPlaintext(c0, x, k, z, sk.gpInv, m0);
    }
  }

  /** Every computation that succeeds decrypts to the centred residue of its value modulo p, hence to the value
      itself when that is within the plaintext bound. */
  method DecryptEval(pk: PublicKey, sk: SecretKey, e: Expr, ghost k: Params) returns (m: Result<int>)
    requires pk.Valid(k) && sk.Valid(k)
    ensures m.Ok? ==> e.InRange(pk.maxPlaintext)
    ensures e.InRange(pk.maxPlaintext) && (e.Inverts() ==> k.units) ==> m.Ok?
    ensures m.Ok? ==> m.value == Centre(e.Value() % sk.p, sk.p)
    ensures m.Ok? && -(sk.p / 2) <= e.Value() <= sk.p / 2 ==> m.value == e.Value()
  {
    hide Cong, IsPrime, Holds, Square, Pow, Unit;
    ModuliPositive(k);
    var c := Eval(pk, e, k);
    if c.Err? { return Err; }
    m := Decrypt(pk, sk, c.value, k);
    if -(sk.p / 2) <= e.Value() <= sk.p / 2 { CentreResidue(e.Value(), sk.p); }
  }

  function Formula(m1: int, f: int, m2: int, m3: int, m4: int, r: seq<nat>): Expr
    requires |r| == 4
  {
    Add(Mul(Encrypt(m1, r[0]), f), Add(Randomize(AddPlain(Encrypt(m2, r[1]), m3), r[2]), Negate(Encrypt(m4, r[3]))))
  }

  lemma FormulaMeans(m1: int, f: int, m2: int, m3: int, m4: int, r: seq<nat>, bound: int)
    requires |r| == 4
    ensures var e := Formula(m1, f, m2, m3, m4, r);
            && e.Value() == m1 * f + m2 + m3 - m4 && e.Noise() == r[0] * f + r[1] + r[2] - r[3]
            && (e.InRange(bound) <==> -bound <= m1 <= bound && -bound <= m2 <= bound && -bound <= m3 <= bound
                                      && -bound <= m4 <= bound)
  {
    var a, b := Mul(Encrypt(m1, r[0]), f), AddPlain(Encrypt(m2, r[1]), m3);
    assert a.Value() == m1 * f && (a.InRange(bound) <==> -bound <= m1 <= bound);
    assert b.Value() == m2 + m3;
    assert b.InRange(bound) <==> -bound <= m2 <= bound && -bound <= m3 <= bound;
    var c, d := Randomize(b, r[2]), Negate(Encrypt(m4, r[3]));
    assert c.Value() == b.Value() && (c.InRange(bound) <==> b.InRange(bound));
    assert d.Value() == -m4 && (d.InRange(bound) <==> -bound <= m4 <= bound);
    assert a.Noise() == r[0] * f && b.Noise() == r[1] && c.Noise() == r[1] + r[2] && d.Noise() + r[3] == 0;
    assert Add(c, d).Noise() == c.Noise() + d.Noise();
    assert Add(c, d).Value() == c.Value() + d.Value();
    assert Add(c, d).InRange(bound) <==> c.InRange(bound) && d.InRange(bound);
  }

  /** All evaluator operations in one formula: with H invertible it comes back whenever it is in range, whatever is
      drawn. */
  method DecryptsFormula(pk: PublicKey, sk: SecretKey, m1: int, f: int, m2: int, m3: int, m4: int, r: seq<nat>,
                         ghost k: Params) returns (out: Result<int>)
    requires pk.Valid(k) && sk.Valid(k) && k.units && |r| == 4
    ensures out.Ok? <==> -pk.maxPlaintext <= m1 <= pk.maxPlaintext && -pk.maxPlaintext <= m2 <= pk.maxPlaintext
                         && -pk.maxPlaintext <= m3 <= pk.maxPlaintext && -pk.maxPlaintext <= m4 <= pk.maxPlaintext
    ensures out.Ok? && -(sk.p / 2) <= m1 * f + m2 + m3 - m4 <= sk.p / 2 ==> out.value == m1 * f + m2 + m3 - m4
  {
    hide PublicKey.Valid, SecretKey.Valid, Expr.Value, Expr.InRange, Expr.Inverts;
    var e := Formula(m1, f, m2, m3, m4, r);
    FormulaMeans(m1, f, m2, m3, m4, r, pk.maxPlaintext);
    out := DecryptEval(pk, sk, e, k);
  }

  /** Every message the encryptor accepts, either sign, decrypts to itself whatever H^r is used. */
  method RoundTrip(pk: PublicKey, sk: SecretKey, m: int, r: nat, ghost k: Params) returns (out: Result<int>)
    requires pk.Valid(k) && sk.Valid(k) && -pk.maxPlaintext <= m <= pk.maxPlaintext
    ensures out == Ok(m)
  {
    out := DecryptEval(pk, sk, Encrypt(m, r), k);
  }

  // ------------------------------------------------------------------ key generation

  /** Key generation from the candidates its loops accept: p = t*u + 1 an odd prime, g and h not multiples of p.
      It fails exactly when g^(p-1) is 1 modulo p^2 or g is a multiple of q. An h that is a multiple of q is
      accepted, and then H has no inverse. */
  method GenPkSk(t: nat, u: nat, q: int, g: int, h: int, r: int)
    returns (ok: bool, sk: SecretKey, pk: PublicKey, ghost k: Params)
    requires var p := t * u + 1; IsPrime(p) && p % 2 == 1 && q > 1 && Unit(g, p) && Unit(h, p)
                                 && Unit(r, Square(p) * q)
    ensures var p := t * u + 1; ok <==> !Cong(Pow(g, p - 1), 1, Square(p)) && Unit(g, q)
    ensures ok ==> pk.Valid(k) && sk.Valid(k) && sk.p == t * u + 1 && pk.maxPlaintext == Pow(2, BitCount(sk.p / 2) - 1)
    ensures ok ==> (k.units <==> Unit(h, q))
    ensures var n := Square(t * u + 1) * q;
            ok ==> pk.n == n && n * u >= 0 && Cong(pk.capitalG, Pow(g, u), n) && Cong(pk.capitalH, Pow(h, n * u), n)
  {
    hide Cong, IsPrime, PowMod, TruncDiv, Square, Pow, Unit, Holds, BitCount, Bezout;
    var p := t * u + 1;
    var p2 := Square(p);
    var n := p2 * q;
    k := Params(p, t, u, q, 1, false);
    GenFacts(p, t, u, q);
    var gp := PowMod(g % p2, p - 1, p2);
    var l := TruncDiv(gp - 1, p);
    LogOfGenerator(g, p, gp, l);
    FailsAtOne(g, p, gp, l);
    pk := new PublicKey(n, 0, 0, 0);
    sk := SecretKey(p, q, t, 0, p2, p / 2, n);
    ok := gp != 1;
    if !ok { return; }
    sk := SecretKey(p, q, t, InvMod(l, p), p2, p / 2, n);
    var capG := PowMod(g, u, n);
    var capH := PowMod(h, n * u, n);
    k := Params(p, t, u, q, l, Unit(capH, n));
    GeneratorUnit(g, u, p, q, capG);
    GeneratorUnit(h, n * u, p, q, capH);
    GcdTest(capG, n);
    ok := Bezout(capG % n, n).0 == 1;
    if !ok { return; }
    HoldsGenerator(g, capG, k);
    HoldsNoise(h, capH, k);
    BitCountLow(p / 2);
    pk := new PublicKey(n, capG, capH, Pow(2, BitCount(p / 2) - 1));
    pk.Init(r, k);
  }

  /** A power of g is invertible modulo n exactly when g is invertible modulo q. */
  lemma GeneratorUnit(g: int, u: nat, p: int, q: int, capG: int)
    requires u > 0 && Unit(g, p) && Cong(capG, Pow(g, u), Square(p) * q)
    ensures Unit(capG, Square(p) * q) <==> Unit(g, q)
    ensures Unit(g, q) ==> Unit(g, Square(p) * q)
  {
    hide Cong, Unit;
    var n := Square(p) * q;
    if Unit(g, q) {
      SquareUnit(g, p);
      UnitModProduct(g, Square(p), q);
      UnitPow(g, u, n);
      CongSym(capG, Pow(g, u), n);
      UnitCong(Pow(g, u), capG, n);
    }
    if Unit(capG, n) {
      UnitCong(capG, Pow(g, u), n);
      assert Pow(g, u) == g * Pow(g, u - 1);
      UnitFactor(g, Pow(g, u - 1), n);
      UnitModFactor(g, Square(p), q);
    }
  }

  lemma GenFacts(p: int, t: nat, u: nat, q: int)
    requires IsPrime(p) && p % 2 == 1 && p == t * u + 1 && q > 1
    ensures p > 2 && Square(p) > 1 && Square(p) * q > 1 && (Square(p) * q) * u > 0 && u > 0
  {
    UnitOne(p);
    ModuliPositive(Params(p, t, u, q, 1, false));
    PrimeAboveOne(p);
    assert u == 0 ==> t * u == 0;
  }

  lemma FailsAtOne(g: int, p: int, gp: int, l: int)
    requires p > 1 && 1 < Square(p) && 0 <= gp < Square(p) && gp == 1 + l * p && Cong(Pow(g, p - 1), 1 + l * p, Square(p))
    ensures gp == 1 <==> Cong(Pow(g, p - 1), 1, Square(p))
  {
    hide Cong, Pow, Square;
    if Cong(Pow(g, p - 1), 1, Square(p)) {
      CongSym(Pow(g, p - 1), 1 + l * p, Square(p));
      CongTrans(gp, Pow(g, p - 1), 1, Square(p));
      CongClose(gp, 1, Square(p));
    }
    CongSym(Pow(g, p - 1), gp, Square(p));
    CongSym(gp, Pow(g, p - 1), Square(p));
  }
}
