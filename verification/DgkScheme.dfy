/** Damgard-Geisler-Kroigaard keys with the logarithm table, encryption, evaluation and decryption. */
module DgkScheme {
  import opened Arith
  import opened NumberTheory
  import opened BigNum
  import opened Centring
  import opened PaillierKeys
  import opened DgkCipher
  import Powers

  datatype Result<T> = Ok(value: T) | Err

  class SecretKey {
    var p: int
    var q: int
    var vp: nat
    var vq: nat
    var u: int
    var g: int
    var logTable: map<int, int>

    constructor () {}

    /** The fields are those of k, whose qm has been tabulated; qm need not have order u. */
    ghost predicate Matches(k: Params)
      reads this
    {
      k.p > 1 && k.u > 1 && p == k.p && q == k.q && vp == k.vp && u == k.u && IsLogTable(logTable, k.qm, k.p, k.u)
    }

    /** Tabulates the powers of g^vp modulo p; emplace keeps the first exponent of a repeated power. */
    method Init(p: int, q: int, vp: nat, vq: nat, u: int, g: int)
      requires p > 1 && u > 0
      modifies this
      ensures this.p == p && this.q == q && this.vp == vp && this.vq == vq && this.u == u && this.g == g
      ensures IsLogTable(logTable, PowMod(g, vp, p), p, u)
    {
      hide Cong, Pow, Power;
      this.p, this.q, this.vp, this.vq, this.u, this.g := p, q, vp, vq, u, g;
      var qm, ct := PowMod(g, vp, p), 1;
      PowerStart(qm, p);
      logTable := map[ct := 0];
      var i := 1;
      while i < u
        invariant 1 <= i <= u && ct == Power(qm, i - 1, p) && IsLogTable(logTable, qm, p, i)
        invariant this.p == p && this.q == q && this.vp == vp && this.vq == vq && this.u == u && this.g == g
      {
        PowerNext(qm, i - 1, p);
        ct := ModMul(ct, qm, p);
        TableNext(logTable, qm, p, i, ct);
        if ct !in logTable { logTable := logTable[ct := i]; }
        i := i + 1;
      }
    }

    /** Throws exactly when the vp-th power modulo p is no power of qm, and otherwise returns its least
        exponent: for a ciphertext of x that is x modulo u, or 0 when qm is 1. */
    method Decrypt(ct: int, ghost k: Params) returns (m: Result<int>)
      requires Matches(k)
      ensures m.Err? <==> forall i: nat :: i < k.u ==> Power(k.qm, i, k.p) != PowMod(ct % k.p, k.vp, k.p)
      ensures m.Ok? ==> LeastExponent(m.value, PowMod(ct % k.p, k.vp, k.p), k)
      ensures forall x :: k.Valid() && Holds(ct, x, k) ==> m == Ok(if Cong(k.qm, 1, k.p) then 0 else x % k.u)
    {
      hide Cong, Pow, Power, PowMod, IsPrime, Unit, Holds;
      var z := PowMod(ct % p, vp, p);
      forall x | k.Valid() && Holds(ct, x, k)
        ensures z in logTable && logTable[z] == if Cong(k.qm, 1, k.p) then 0 else x % k.u
      {
        LookupKey(ct, x, k, z);
        if Cong(k.qm, 1, k.p) {
          DegenerateTable(logTable, k, x % k.u);
        } else {
          TableInverts(logTable, k, x % k.u);
        }
      }
      if z !in logTable { return Err; }
      m := Ok(logTable[z]);
    }
  }

  /** i is the least exponent whose power of qm is z. */
  ghost predicate LeastExponent(i: int, z: int, k: Params)
    requires k.p > 0
  {
    0 <= i < k.u && Power(k.qm, i, k.p) == z && forall j: nat :: j < i ==> Power(k.qm, j, k.p) != z
  }

  lemma PowerStart(qm: int, p: int)
    requires p > 1
    ensures IsLogTable(map[1 := 0], qm, p, 1) && Power(qm, 0, p) == 1
  {
  }

  lemma PowerNext(qm: int, i: nat, p: int)
    requires p > 1
    ensures ModMul(Power(qm, i, p), qm, p) == Power(qm, i + 1, p)
  {
    hide Cong, ModMul, Power;
    var a := Power(qm, i, p);
    CongRefl(qm, p);
    CongMul(a, Pow(qm, i), qm, qm, p);
    CongTrans(ModMul(a, qm, p), a * qm, Pow(qm, i) * qm, p);
    assert Pow(qm, i) * qm == Pow(qm, i + 1);
    var b := Power(qm, i + 1, p);
    CongSym(b, Pow(qm, i + 1), p);
    CongTrans(ModMul(a, qm, p), Pow(qm, i + 1), b, p);
    CongClose(ModMul(a, qm, p), b, p);
  }

  lemma TableNext(table: map<int, int>, qm: int, p: int, i: nat, ct: int)
    requires p > 1 && IsLogTable(table, qm, p, i) && ct == Power(qm, i, p)
    ensures IsLogTable(if ct in table then table else table[ct := i], qm, p, i + 1)
  {
    hide Power;
    var t := if ct in table then table else table[ct := i];
    forall j: nat | j < i + 1
      ensures Power(qm, j, p) in t
    {
      if j < i { assert Power(qm, j, p) in table; }
    }
    if ct !in table {
      forall j: nat | j < i
        ensures Power(qm, j, p) != ct
      {
        assert Power(qm, j, p) in table;
      }
    }
  }

  // ------------------------------------------------------------------ public key

  class PublicKey {
    var n: int
    var g: int
    var h: int
    var u: int
    var mSpace: MSpace

    constructor () {}

    ghost predicate Shaped()
      reads this
    {
      n > 1 && u > 1 && mSpace.Valid() && mSpace.m == n
    }

    ghost predicate Valid(k: Params)
      reads this
    {
      && Shaped() && k.Valid() && n == k.N() && u == k.u && Holds(g, 1, k) && Holds(h, 0, k)
      && Cong(h, Pow(g, u), n) && (k.units <==> Unit(g, n))
    }

    method Init(n: int, g: int, h: int, u: int, r: int)
      requires n > 1 && u > 1 && Unit(r, n)
      modifies this
      ensures Shaped() && this.n == n && this.g == g && this.h == h && this.u == u && mSpace.r == r
    {
      this.n, this.g, this.h, this.u := n, g, h, u;
      mSpace := MSpace(n, r);
    }

    predicate InCipherRange(c: int)
      reads this
    {
      0 <= c < n
    }

    ghost predicate Encrypts(c: int, x: int, k: Params)
      requires Valid(k)
      reads this
    {
      InCipherRange(c) && Holds(mSpace.MapBackToZSpace(c), x, k)
    }

    /** The stored word c is g^x * h^z. */
    ghost predicate Carries(c: int, x: int, z: int)
      requires Shaped()
      reads this
    {
      Powers.Combines(mSpace.MapBackToZSpace(c), x, z, g, h, n)
    }

    lemma Store(z: int, d: int, x: int, k: Params)
      requires Valid(k) && Holds(d, x, k) && Cong(z, d, n)
      ensures Encrypts(mSpace.MapIntoMSpace(z), x, k)
    {
      hide Cong, Holds, MSpace.MapBackToZSpace;
      var c := mSpace.MapIntoMSpace(z);
      mSpace.StoresBack(c, z);
      CongTrans(mSpace.MapBackToZSpace(c), z, d, n);
      HoldsSame(mSpace.MapBackToZSpace(c), d, x, k);
    }

    lemma Sum(a: int, x: int, b: int, y: int, k: Params)
      requires Valid(k) && Encrypts(a, x, k) && Encrypts(b, y, k)
      ensures Encrypts(mSpace.MulMod(a, b), x + y, k)
    {
      hide Cong, Holds, MSpace.MapBackToZSpace;
      var v, w := mSpace.MapBackToZSpace(a), mSpace.MapBackToZSpace(b);
      mSpace.StoresOwn(a);
      mSpace.StoresOwn(b);
      mSpace.StoresMul(a, v, b, w);
      mSpace.StoresBack(mSpace.MulMod(a, b), v * w);
      HoldsProduct(v, x, w, y, k);
      HoldsSame(mSpace.MapBackToZSpace(mSpace.MulMod(a, b)), v * w, x + y, k);
    }

    lemma PowerStored(b: int, x: int, e: nat, k: Params)
      requires Valid(k) && Holds(b, x, k)
      ensures Encrypts(mSpace.PowMod(b, e), x * e, k)
    {
      hide Cong, Holds, Pow;
      HoldsPower(b, x, e, k);
      CongRefl(Pow(b, e), n);
      Store(Pow(b, e), Pow(b, e), x * e, k);
    }

    /** h^r. */
    function RandomHr(r: nat, ghost k: Params): (c: int)
      requires Shaped()
      reads this
      ensures Valid(k) ==> Encrypts(c, 0, k)
      ensures Cong(mSpace.MapBackToZSpace(c), Pow(h, r), n)
    {
      HrOk(r, k);
      mSpace.StoresBack(mSpace.PowMod(h, r), Pow(h, r));
      mSpace.PowMod(h, r)
    }

    lemma HrOk(r: nat, k: Params)
      ensures Valid(k) ==> Encrypts(mSpace.PowMod(h, r), 0, k)
    {
      if Valid(k) { PowerStored(h, 0, r, k); }
    }

    /** g^(m mod u): negative messages wrap around. */
    function Encrypt(m: int, ghost k: Params): (c: int)
      requires Shaped()
      reads this
      ensures Valid(k) ==> Encrypts(c, m % u, k)
      ensures Cong(mSpace.MapBackToZSpace(c), Pow(g, m % u), n)
    {
      GOk(m % u, k);
      mSpace.StoresBack(mSpace.PowMod(g, m % u), Pow(g, m % u));
      mSpace.PowMod(g, m % u)
    }

    lemma GOk(e: nat, k: Params)
      ensures Valid(k) ==> Encrypts(mSpace.PowMod(g, e), e, k)
    {
      if Valid(k) { PowerStored(g, 1, e, k); }
    }
  }

  // ------------------------------------------------------------------ whole computations

  /** A computation over ciphertexts; r is the randomness drawn at that step, used by Mul for k == 0. */
  datatype Expr =
    | Encrypt(m: int, r: nat)
    | Add(a: Expr, b: Expr)
    | Mul(a: Expr, e: int, r: nat)
    | Randomize(a: Expr, r: nat)
  {
    function Value(): int
    {
      match this
      case Encrypt(m, _) => m
      case Add(a, b) => a.Value() + b.Value()
      case Mul(a, e, _) => a.Value() * e
      case Randomize(a, _) => a.Value()
    }

    /** The exponents of g and of h that the computation ends with. */
    function GPower(u: int): int
      requires u > 0
    {
      match this
      case Encrypt(m, _) => m % u
      case Add(a, b) => a.GPower(u) + b.GPower(u)
      case Mul(a, e, _) => a.GPower(u) * e
      case Randomize(a, _) => a.GPower(u)
    }

    function HPower(): int
    {
      match this
      case Encrypt(_, r) => r
      case Add(a, b) => a.HPower() + b.HPower()
      case Mul(a, e, r) => if e == 0 then r else a.HPower() * e
      case Randomize(a, r) => a.HPower() + r
    }

    predicate InRange(bound: int)
    {
      match this
      case Encrypt(m, _) => -bound <= m <= bound
      case Add(a, b) => a.InRange(bound) && b.InRange(bound)
      case Mul(a, _, _) => a.InRange(bound)
      case Randomize(a, _) => a.InRange(bound)
    }

    /** Some step scales by a negative number, which inverts a ciphertext. */
    predicate Inverts()
    {
      match this
      case Encrypt(_, _) => false
      case Add(a, b) => a.Inverts() || b.Inverts()
      case Mul(a, e, _) => e < 0 || a.Inverts()
      case Randomize(a, _) => a.Inverts()
    }
  }

  /** A ciphertext of x is one of everything congruent to x modulo u. */
  lemma HoldsModulo(c: int, x: int, y: int, k: Params)
    requires k.Valid() && Holds(c, x, k) && Cong(x, y, k.u)
    ensures Holds(c, y, k)
  {
    hide Cong, Pow, IsPrime;
    assert k.u > 0 by { PrimeAboveOne(k.u); }
    ModFromCong(x, y, k.u);
    ReduceExponent(k.qm, x, k.u, k.p);
    ReduceExponent(k.qm, y, k.u, k.p);
    hide ZPow;
    var w := Pow(k.qm, x % k.u);
    CongSym(w, ZPow(k.qm, x, k.p), k.p);
    CongTrans(ZPow(k.qm, x, k.p), w, ZPow(k.qm, y, k.p), k.p);
    CongTrans(Pow(c, k.vp), ZPow(k.qm, x, k.p), ZPow(k.qm, y, k.p), k.p);
  }

  function EncryptMessage(pk: PublicKey, m: int, r: nat, ghost k: Params): (c: Result<int>)
    requires pk.Shaped()
    reads pk
    ensures c.Ok? <==> -(pk.u / 2) <= m <= pk.u / 2
    ensures c.Ok? && pk.Valid(k) ==> pk.Encrypts(c.value, m, k)
    ensures c.Ok? ==> Cong(pk.mSpace.MapBackToZSpace(c.value), Pow(pk.g, m % pk.u) * Pow(pk.h, r), pk.n)
  {
    if !(-(pk.u / 2) <= m <= pk.u / 2) then Err
    else
      Powers.SwappedProduct(pk.mSpace, pk.Encrypt(m, k), Pow(pk.g, m % pk.u), pk.RandomHr(r, k), Pow(pk.h, r));
      assert Pow(pk.h, r) * Pow(pk.g, m % pk.u) == Pow(pk.g, m % pk.u) * Pow(pk.h, r);
      EncryptOk(pk, m, r, k);
      Ok(pk.mSpace.MulMod(pk.Encrypt(m, k), pk.RandomHr(r, k)))
  }

  lemma EncryptOk(pk: PublicKey, m: int, r: nat, k: Params)
    requires pk.Shaped()
    ensures pk.Valid(k) ==> pk.Encrypts(pk.mSpace.MulMod(pk.Encrypt(m, k), pk.RandomHr(r, k)), m, k)
  {
    hide Cong, Holds, Unit, Pow, IsPrime, MSpace.MapBackToZSpace, MSpace.MulMod, PublicKey.Encrypt, PublicKey.RandomHr;
    if pk.Valid(k) {
      var c := pk.mSpace.MulMod(pk.Encrypt(m, k), pk.RandomHr(r, k));
      pk.Sum(pk.Encrypt(m, k), m % pk.u, pk.RandomHr(r, k), 0, k);
      CongMod(m, pk.u);
      HoldsModulo(pk.mSpace.MapBackToZSpace(c), m % pk.u, m, k);
    }
  }

  /** Scaling, with fresh zero for 0 and the ciphertext itself for 1; a negative factor needs an inverse. */
  function MulPlain(pk: PublicKey, a: int, e: int, r: nat, ghost k: Params): (c: Result<int>)
    requires pk.Shaped()
    reads pk
    ensures c.Ok? <==> pk.InCipherRange(a) && (e >= 0 || Unit(pk.mSpace.MapBackToZSpace(a), pk.n))
    ensures c.Ok? && pk.Valid(k) ==> forall x :: pk.Encrypts(a, x, k) ==> pk.Encrypts(c.value, x * e, k)
    ensures c.Ok? && e == 0 ==> Cong(pk.mSpace.MapBackToZSpace(c.value), Pow(pk.h, r), pk.n)
    ensures c.Ok? && e != 0 ==>
              Powers.PowerOf(pk.mSpace.MapBackToZSpace(c.value), pk.mSpace.MapBackToZSpace(a), e, pk.n)
  {
    MulWord(pk, a, e);
    GcdTest(pk.mSpace.MapBackToZSpace(a), pk.n);
    ScaledOk(pk, a, e, k);
    if !pk.InCipherRange(a) then Err
    else if e == 0 then Ok(pk.RandomHr(r, k))
    else if e == 1 then Ok(a)
    else if e < 0 && Bezout(pk.mSpace.MapBackToZSpace(a) % pk.n, pk.n).0 != 1 then Err
    else Ok(pk.mSpace.MapIntoMSpace(PowMod(pk.mSpace.MapBackToZSpace(a), e, pk.n)))
  }

  lemma MulWord(pk: PublicKey, a: int, e: int)
    requires pk.Shaped()
    ensures e == 1 ==> Powers.PowerOf(pk.mSpace.MapBackToZSpace(a), pk.mSpace.MapBackToZSpace(a), 1, pk.n)
    ensures e >= 0 || Unit(pk.mSpace.MapBackToZSpace(a), pk.n) ==>
              var c := pk.mSpace.MapIntoMSpace(PowMod(pk.mSpace.MapBackToZSpace(a), e, pk.n));
              Powers.PowerOf(pk.mSpace.MapBackToZSpace(c), pk.mSpace.MapBackToZSpace(a), e, pk.n)
  {
    hide MSpace.MapBackToZSpace;
    Powers.PowerWord(pk.mSpace, a, e);
  }

  lemma ScaledOk(pk: PublicKey, a: int, e: int, k: Params)
    requires pk.Shaped()
    ensures pk.Valid(k) && (e < 0 ==> Unit(pk.mSpace.MapBackToZSpace(a), pk.n)) ==>
              forall x :: pk.Encrypts(a, x, k) ==>
                pk.Encrypts(pk.mSpace.MapIntoMSpace(PowMod(pk.mSpace.MapBackToZSpace(a), e, pk.n)), x * e, k)
  {
    hide Cong, IsPrime, MSpace.MapBackToZSpace, Pow, Unit, Holds;
    var v := pk.mSpace.MapBackToZSpace(a);
    if pk.Valid(k) && (e < 0 ==> Unit(v, pk.n)) {
      forall x | pk.Encrypts(a, x, k)
        ensures pk.Encrypts(pk.mSpace.MapIntoMSpace(PowMod(v, e, pk.n)), x * e, k)
      {
        if e >= 0 {
          HoldsPower(v, x, e, k);
          pk.Store(PowMod(v, e, pk.n), Pow(v, e), x * e, k);
        } else {
          HoldsZPow(v, x, e, k);
          pk.Store(PowMod(v, e, pk.n), ZPow(v, e, pk.n), x * e, k);
        }
      }
    }
  }

  function AddCiphertexts(pk: PublicKey, a: int, b: int, ghost k: Params): (c: Result<int>)
    requires pk.Shaped()
    reads pk
    ensures c.Ok? <==> pk.InCipherRange(a) && pk.InCipherRange(b)
    ensures c.Ok? && pk.Valid(k) ==>
              forall x, y :: pk.Encrypts(a, x, k) && pk.Encrypts(b, y, k) ==> pk.Encrypts(c.value, x + y, k)
    ensures c.Ok? ==> Cong(pk.mSpace.MapBackToZSpace(c.value),
                           pk.mSpace.MapBackToZSpace(a) * pk.mSpace.MapBackToZSpace(b), pk.n)
  {
    SumOk(pk, a, b, k);
    if !pk.InCipherRange(a) || !pk.InCipherRange(b) then Err
    else
      Powers.BackMul(pk.mSpace, a, b);
      Ok(pk.mSpace.MulMod(a, b))
  }

  lemma SumOk(pk: PublicKey, a: int, b: int, k: Params)
    requires pk.Shaped()
    ensures pk.Valid(k) ==> forall x, y :: pk.Encrypts(a, x, k) && pk.Encrypts(b, y, k) ==>
                              pk.Encrypts(pk.mSpace.MulMod(a, b), x + y, k)
  {
    hide PublicKey.Encrypts;
    if pk.Valid(k) {
      forall x, y | pk.Encrypts(a, x, k) && pk.Encrypts(b, y, k)
        ensures pk.Encrypts(pk.mSpace.MulMod(a, b), x + y, k)
      {
        pk.Sum(a, x, b, y, k);
      }
    }
  }

  /** A ciphertext of x, made of g^y and h^z when g is invertible. */
  ghost predicate Made(pk: PublicKey, c: int, x: int, y: int, z: int, k: Params)
    requires pk.Valid(k)
    reads pk
  {
    pk.Encrypts(c, x, k) && (k.units ==> pk.Carries(c, y, z))
  }

  lemma Known(pk: PublicKey, a: int, x: int, k: Params)
    requires pk.Valid(k) && pk.Encrypts(a, x, k)
    ensures pk.InCipherRange(a) && (k.units ==> Unit(pk.mSpace.MapBackToZSpace(a), pk.n))
  {
  }

  lemma HUnit(pk: PublicKey, k: Params)
    requires pk.Valid(k) && k.units
    ensures Unit(pk.g, pk.n) && Unit(pk.h, pk.n)
  {
    hide Cong, Pow, IsPrime, Unit;
    UnitPow(pk.g, pk.u, pk.n);
    CongSym(pk.h, Pow(pk.g, pk.u), pk.n);
    UnitCong(Pow(pk.g, pk.u), pk.h, pk.n);
  }

  /** A word that is g^d * h^r carries d and r. */
  lemma FreshCarries(pk: PublicKey, c: int, d: nat, r: nat, k: Params)
    requires pk.Valid(k) && Cong(pk.mSpace.MapBackToZSpace(c), Pow(pk.g, d) * Pow(pk.h, r), pk.n)
    ensures k.units ==> pk.Carries(c, d, r)
  {
    hide Cong, Unit, Pow, IsPrime, Holds, MSpace.MapBackToZSpace;
    if k.units {
      HUnit(pk, k);
      Powers.Fresh(pk.mSpace.MapBackToZSpace(c), d, r, pk.g, pk.h, pk.n);
    }
  }

  method Fresh(pk: PublicKey, m: int, r: nat, ghost k: Params) returns (c: Result<int>)
    requires pk.Valid(k)
    ensures pk.u > 0 && (c.Ok? <==> -(pk.u / 2) <= m <= pk.u / 2)
    ensures c.Ok? ==> Made(pk, c.value, m, m % pk.u, r, k)
  {
    hide Cong, Unit, Pow, IsPrime, Holds, MSpace.MapBackToZSpace, EncryptMessage;
    c := EncryptMessage(pk, m, r, k);
    if c.Ok? { FreshCarries(pk, c.value, m % pk.u, r, k); }
  }

  /** h^r alone. */
  method Zero(pk: PublicKey, r: nat, ghost k: Params) returns (c: int)
    requires pk.Valid(k)
    ensures Made(pk, c, 0, 0, r, k)
  {
    hide Cong, Unit, IsPrime, Holds, MSpace.MapBackToZSpace;
    c := pk.RandomHr(r, k);
    assert Pow(pk.g, 0) * Pow(pk.h, r) == Pow(pk.h, r);
    FreshCarries(pk, c, 0, r, k);
  }

  method Scaled(pk: PublicKey, a: int, e: int, r: nat, ghost k: Params, ghost x: int, ghost y: int, ghost z: int)
    returns (c: Result<int>)
    requires pk.Valid(k) && Made(pk, a, x, y, z, k)
    ensures (e < 0 ==> k.units) ==> c.Ok?
    ensures c.Ok? ==> Made(pk, c.value, x * e, y * e, if e == 0 then r else z * e, k)
  {
    hide Cong, Unit, IsPrime, Holds, MSpace.MapBackToZSpace, MulPlain, Powers.PowerOf, Powers.Combines;
    Known(pk, a, x, k);
    c := MulPlain(pk, a, e, r, k);
    if c.Ok? && k.units {
      if e == 0 {
        assert Pow(pk.g, 0) * Pow(pk.h, r) == Pow(pk.h, r);
        FreshCarries(pk, c.value, 0, r, k);
      } else {
        Powers.Power(pk.mSpace.MapBackToZSpace(c.value), pk.mSpace.MapBackToZSpace(a), e, y, z, pk.g, pk.h, pk.n);
      }
    }
  }

  method Sum(pk: PublicKey, a: int, b: int, ghost k: Params, ghost x: int, ghost y: int, ghost z: int, ghost x': int,
             ghost y': int, ghost z': int) returns (c: Result<int>)
    requires pk.Valid(k) && Made(pk, a, x, y, z, k) && Made(pk, b, x', y', z', k)
    ensures c.Ok? && Made(pk, c.value, x + x', y + y', z + z', k)
  {
    hide Cong, Unit, IsPrime, Holds, MSpace.MapBackToZSpace, AddCiphertexts, Powers.Combines, Pow;
    c := AddCiphertexts(pk, a, b, k);
    if k.units {
      Powers.Product(pk.mSpace.MapBackToZSpace(c.value), pk.mSpace.MapBackToZSpace(a), y, z,
                     pk.mSpace.MapBackToZSpace(b), y', z', pk.g, pk.h, pk.n);
    }
  }

  /** A computation that succeeds has its messages in range and encrypts its value, with exactly its powers of g and h
      when g is invertible; one whose messages are in range succeeds, unless it inverts a ciphertext while g is not. */
  method Eval(pk: PublicKey, e: Expr, ghost k: Params) returns (c: Result<int>)
    requires pk.Valid(k)
    ensures pk.u > 0
    ensures c.Ok? ==> e.InRange(pk.u / 2) && Made(pk, c.value, e.Value(), e.GPower(pk.u), e.HPower(), k)
    ensures e.InRange(pk.u / 2) && (e.Inverts() ==> k.units) ==> c.Ok?
    decreases e
  {
    hide PublicKey.Valid, Made;
    assert pk.Shaped() by { ValidShape(pk, k); }
    match e
    case Encrypt(m, r) =>
      c := Fresh(pk, m, r, k);
    case Add(a, b) =>
      var ca := Eval(pk, a, k);
      if ca.Err? { return Err; }
      var cb := Eval(pk, b, k);
      if cb.Err? { return Err; }
      c := Sum(pk, ca.value, cb.value, k, a.Value(), a.GPower(pk.u), a.HPower(), b.Value(), b.GPower(pk.u), b.HPower());
    case Mul(a, f, r) =>
      var ca := Eval(pk, a, k);
      if ca.Err? { return Err; }
      c := Scaled(pk, ca.value, f, r, k, a.Value(), a.GPower(pk.u), a.HPower());
    case Randomize(a, r) =>
      var ca := Eval(pk, a, k);
      if ca.Err? { return Err; }
      var z := Zero(pk, r, k);
      c := Sum(pk, ca.value, z, k, a.Value(), a.GPower(pk.u), a.HPower(), 0, 0, r);
  }

  lemma ValidShape(pk: PublicKey, k: Params)
    requires pk.Valid(k)
    ensures pk.Shaped()
  {
  }

  // ------------------------------------------------------------------ what a key without units breaks

  /** What a fresh ciphertext is, whatever the key. */
  lemma FreshValue(pk: PublicKey, m: int, r: nat, k: Params)
    requires pk.Shaped() && -(pk.u / 2) <= m <= pk.u / 2
    ensures var c := EncryptMessage(pk, m, r, k).value;
            pk.InCipherRange(c) && Cong(pk.mSpace.MapBackToZSpace(c), Pow(pk.g, m % pk.u) * Pow(pk.h, r), pk.n)
  {
    hide Cong, Pow, MSpace.MapBackToZSpace;
    var a, b, ms := pk.mSpace.PowMod(pk.g, m % pk.u), pk.mSpace.PowMod(pk.h, r), pk.mSpace;
    ms.StoresMul(a, Pow(pk.g, m % pk.u), b, Pow(pk.h, r));
    ms.StoresBack(ms.MulMod(a, b), Pow(pk.g, m % pk.u) * Pow(pk.h, r));
  }

  /** Without an invertible g a fresh ciphertext can be scaled by a negative number only if it is the 1 that
      message zero gives without noise. */
  lemma FreshUnit(pk: PublicKey, m: int, r: nat, k: Params)
    requires pk.Valid(k) && -(pk.u / 2) <= m <= pk.u / 2
    ensures Unit(pk.mSpace.MapBackToZSpace(EncryptMessage(pk, m, r, k).value), pk.n) <==> k.units || (m == 0 && r == 0)
  {
    hide Cong, Pow, Unit, Holds, MSpace.MapBackToZSpace, EncryptMessage, IsPrime;
    FreshValue(pk, m, r, k);
    ProductUnit(pk.mSpace.MapBackToZSpace(EncryptMessage(pk, m, r, k).value), pk.g, pk.h, pk.u, m % pk.u, r, pk.n);
    SmallResidue(m, pk.u);
  }

  lemma ProductUnit(c: int, g: int, h: int, u: nat, d: nat, e: nat, n: int)
    requires Cong(c, Pow(g, d) * Pow(h, e), n) && Cong(h, Pow(g, u), n) && u > 0
    ensures Unit(c, n) <==> Unit(g, n) || (d == 0 && e == 0)
  {
    hide Cong, Unit;
    var w := Pow(g, d) * Pow(h, e);
    CongSym(c, w, n);
    if Unit(c, n) {
      UnitCong(c, w, n);
      UnitFactor(Pow(g, d), Pow(h, e), n);
      if d > 0 { UnitFactor(g, Pow(g, d - 1), n); }
      if e > 0 {
        UnitFactor(h, Pow(h, e - 1), n);
        UnitCong(h, Pow(g, u), n);
        UnitFactor(g, Pow(g, u - 1), n);
      }
    }
    if Unit(g, n) {
      UnitPow(g, u, n);
      CongSym(h, Pow(g, u), n);
      UnitCong(Pow(g, u), h, n);
      UnitPow(g, d, n);
      UnitPow(h, e, n);
      UnitMul(Pow(g, d), Pow(h, e), n);
      UnitCong(w, c, n);
    }
    if d == 0 && e == 0 {
      CongIntro(1 * 1, 1, n, 0);
      UnitIntro(1, 1, n);
      UnitCong(w, c, n);
    }
  }

  // ------------------------------------------------------------------ decryption

  /** Lookup, then the sign. What an encryption of x comes back as depends on whether qm has order u. */
  method Decrypt(pk: PublicKey, sk: SecretKey, ct: int, ghost k: Params) returns (out: Result<int>)
    requires pk.Shaped() && sk.Matches(k) && pk.u == k.u
    ensures !pk.InCipherRange(ct) ==> out.Err?
    ensures pk.InCipherRange(ct) ==>
              forall i: int :: LeastExponent(i, PowMod(pk.mSpace.MapBackToZSpace(ct) % k.p, k.vp, k.p), k) ==>
                out == Ok(Centre(i, pk.u))
    ensures pk.Valid(k) ==> forall x :: pk.Encrypts(ct, x, k) ==>
              out == Ok(if Cong(k.qm, 1, k.p) then 0 else Centre(x % pk.u, pk.u))
  {
    hide Cong, IsPrime, Holds, Pow, Unit, IsLogTable, MSpace.MapBackToZSpace, PowMod, Power;
    if !pk.InCipherRange(ct) { return Err; }
    var c := pk.mSpace.MapBackToZSpace(ct);
    var m := sk.Decrypt(c, k);
    if m.Err? { return Err; }
    out := Ok(if m.value > pk.u / 2 then m.value - pk.u else m.value);
  }

  /** Every computation that succeeds decrypts to the centred residue of its value modulo u when qm has order u,
      and to zero when qm is 1. */
  method DecryptEval(pk: PublicKey, sk: SecretKey, e: Expr, ghost k: Params) returns (m: Result<int>)
    requires pk.Valid(k) && sk.Matches(k)
    ensures m.Ok? ==> e.InRange(pk.u / 2)
    ensures e.InRange(pk.u / 2) && (e.Inverts() ==> k.units) ==> m.Ok?
    ensures m.Ok? ==> m.value == if Cong(k.qm, 1, k.p) then 0 else Centre(e.Value() % pk.u, pk.u)
    ensures m.Ok? && !Cong(k.qm, 1, k.p) && -(pk.u / 2) <= e.Value() <= pk.u / 2 ==> m.value == e.Value()
  {
    hide Cong, IsPrime, Holds, Pow, Unit, IsLogTable;
    var c := Eval(pk, e, k);
    if c.Err? { return Err; }
    m := Decrypt(pk, sk, c.value, k);
    assert pk.Encrypts(c.value, e.Value(), k);
    if -(pk.u / 2) <= e.Value() <= pk.u / 2 { CentreResidue(e.Value(), pk.u); }
  }

  function Formula(m1: int, f: int, m2: int, r: seq<nat>): Expr
    requires |r| == 4
  {
    Add(Mul(Encrypt(m1, r[0]), f, r[1]), Randomize(Encrypt(m2, r[2]), r[3]))
  }

  lemma FormulaMeans(m1: int, f: int, m2: int, r: seq<nat>, bound: int, u: int)
    requires |r| == 4 && u > 0
    ensures var e := Formula(m1, f, m2, r);
            && e.Value() == m1 * f + m2 && (f < 0 || !e.Inverts())
            && e.GPower(u) == m1 % u * f + m2 % u
            && e.HPower() == (if f == 0 then r[1] else r[0] * f) + r[2] + r[3]
            && (e.InRange(bound) <==> -bound <= m1 <= bound && -bound <= m2 <= bound)
  {
    var d, e := Encrypt(m1, r[0]), Encrypt(m2, r[2]);
    assert !d.Inverts() && !e.Inverts();
    assert d.InRange(bound) == (-bound <= m1 <= bound) && e.InRange(bound) == (-bound <= m2 <= bound);
    var a, b := Mul(d, f, r[1]), Randomize(e, r[3]);
    assert a.Value() == m1 * f && a.InRange(bound) == d.InRange(bound) && a.Inverts() == (f < 0 || d.Inverts());
    assert b.Value() == m2 && b.InRange(bound) == e.InRange(bound) && b.Inverts() == e.Inverts();
    assert a.GPower(u) == m1 % u * f && a.HPower() == if f == 0 then r[1] else r[0] * f;
    assert b.GPower(u) == m2 % u && b.HPower() == e.HPower() + r[3];
    var c := Add(a, b);
    assert c.Value() == a.Value() + b.Value() && c.InRange(bound) == (a.InRange(bound) && b.InRange(bound));
    assert c.GPower(u) == a.GPower(u) + b.GPower(u) && c.HPower() == a.HPower() + b.HPower();
    assert c.Inverts() == (a.Inverts() || b.Inverts());
  }

  /** All evaluator operations in one formula: with qm of order u it comes back whenever it is in range, whatever is
      drawn; a negative factor needs an invertible g. */
  method DecryptsFormula(pk: PublicKey, sk: SecretKey, m1: int, f: int, m2: int, r: seq<nat>, ghost k: Params)
    returns (out: Result<int>)
    requires pk.Valid(k) && sk.Matches(k) && |r| == 4 && !Cong(k.qm, 1, k.p) && (f < 0 ==> k.units)
    ensures pk.u > 0 && (out.Ok? <==> -(pk.u / 2) <= m1 <= pk.u / 2 && -(pk.u / 2) <= m2 <= pk.u / 2)
    ensures out.Ok? && -(pk.u / 2) <= m1 * f + m2 <= pk.u / 2 ==> out.value == m1 * f + m2
  {
    hide Cong, PublicKey.Valid, SecretKey.Matches, Expr.Value, Expr.InRange, Expr.Inverts;
    var e := Formula(m1, f, m2, r);
    assert pk.Shaped() by { ValidShape(pk, k); }
    FormulaMeans(m1, f, m2, r, pk.u / 2, pk.u);
    out := DecryptEval(pk, sk, e, k);
  }

  // ------------------------------------------------------------------ key generation

  /** The generator of Z_n assembled from one modulo each prime. */
  lemma JoinGenerators(p: int, q: int, gp: int, gq: int, pp: int, gn: int)
    requires p > 0 && q > 0 && p * q > 0 && Cong(pp, 0, p) && Cong(pp, 1, q) && gn == (gp + (gq - gp) * pp) % (p * q)
    ensures Cong(gn, gp, p) && Cong(gn, gq, q)
  {
    hide Cong;
    var v := gp + (gq - gp) * pp;
    CongMod(v, p * q);
    CongWeaken(gn, v, p, q);
    CongWeaken(gn, v, q, p);
    CongRefl(gq - gp, p);
    CongRefl(gq - gp, q);
    CongMul(gq - gp, gq - gp, pp, 0, p);
    CongMul(gq - gp, gq - gp, pp, 1, q);
    CongRefl(gp, p);
    CongRefl(gp, q);
    CongAdd(gp, gp, (gq - gp) * pp, 0, p);
    CongAdd(gp, gp, (gq - gp) * pp, gq - gp, q);
    CongTrans(gn, v, gp, p);
    CongTrans(gn, v, gq, q);
  }

  /** Key generation from any draws its loops accept (wp and wq after doubling). If p divides gp, qm is 0 and g
      vanishes modulo p. Otherwise qm has order u exactly when u does not divide wq, and g is invertible exactly
      when q does not divide gq; the loops check neither. */
  method Generate(u: int, vp: nat, vq: nat, wp: nat, wq: nat, gp: int, gq: int, r: int)
    returns (sk: SecretKey, pk: PublicKey, ghost k: Params)
    requires IsPrime(u) && u % 2 == 1
    requires var p, q := u * vp * wp + 1, vq * wq + 1;
             IsPrime(p) && IsPrime(q) && p != q && Unit(r, p * q) && vp * wp >= 0 && !Cong(Pow(gp, vp * wp), 1, p)
    ensures pk.Shaped() && sk.Matches(k) && pk.u == k.u == u && k.p == u * vp * wp + 1 && k.q == vq * wq + 1
    ensures Cong(gp, 0, k.p) ==> ZeroKey(pk, k)
    ensures !Cong(gp, 0, k.p) ==> pk.Valid(k) && (Cong(k.qm, 1, k.p) <==> Cong(wq, 0, u))
                                  && (k.units <==> !Cong(gq, 0, k.q))
    ensures wp * wq >= 0 && pk.n == k.p * k.q && Cong(pk.h, Pow(pk.g, u), pk.n)
    ensures Cong(pk.g, Pow(gp, wp * wq), k.p) && Cong(pk.g, Pow(gq, wp * wq), k.q)
  {
    hide Cong, IsPrime, Holds, Pow, Unit, IsLogTable, PowMod;
    var p, q := u * vp * wp + 1, vq * wq + 1;
    PrimeAboveOne(u);
    PrimeAboveOne(p);
    PrimeAboveOne(q);
    PrimesCoprime(p, q);
    var n := p * q;
    Nonnegatives(u, p, q, vp, vq, wp, wq);
    var pp := p * InvMod(p, q);
    assert Cong(pp, 0, p) by { CongIntro(pp, 0, p, InvMod(p, q)); }
    var gn := (gp + (gq - gp) * pp) % n;
    JoinGenerators(p, q, gp, gq, pp, gn);
    var g := PowMod(gn, wp * wq, n);
    var h := PowMod(g, u, n);
    GeneratorValue(p, q, gp, gq, gn, wp * wq, g);
    sk := new SecretKey();
    sk.Init(p, q, vp, vq, u, g);
    k := Params(p, q, vp, u, PowMod(g, vp, p), Unit(g, n));
    if Cong(gp, 0, p) {
      ZeroKeys(u, vp, wp * wq, p, q, gp, gn, g, h, k.qm);
    } else {
      PrimeUnit(gp, p);
      GeneratedKeys(u, vp, wp, wq, p, q, gp, gq, gn, g, h, k);
    }
    pk := new PublicKey();
    pk.Init(n, g, h, u, r);
  }

  lemma GeneratorValue(p: int, q: int, gp: int, gq: int, gn: int, e: nat, g: int)
    requires Cong(gn, gp, p) && Cong(gn, gq, q) && Cong(g, Pow(gn, e), p * q)
    ensures Cong(g, Pow(gp, e), p) && Cong(g, Pow(gq, e), q)
  {
    hide Cong, Pow;
    CongWeaken(g, Pow(gn, e), p, q);
    CongPow(gn, gp, e, p);
    CongTrans(g, Pow(gn, e), Pow(gp, e), p);
    CongWeaken(g, Pow(gn, e), q, p);
    CongPow(gn, gq, e, q);
    CongTrans(g, Pow(gn, e), Pow(gq, e), q);
  }

  /** g and h vanish modulo p. */
  ghost predicate ZeroKey(pk: PublicKey, k: Params)
    reads pk
  {
    k.vp > 0 && k.qm == 0 && pk.n == k.p * k.q && Cong(pk.g, 0, k.p) && Cong(pk.h, 0, k.p)
  }

  lemma Nonnegatives(u: int, p: int, q: int, vp: nat, vq: nat, wp: nat, wq: nat)
    requires p > 1 && q > 1 && p == u * vp * wp + 1 && q == vq * wq + 1
    ensures p * q > 1 && wp * wq > 0 && vp > 0
  {
    FactorsNonzero(u * vp, wp);
    FactorsNonzero(u, vp);
    FactorsNonzero(vq, wq);
    Positive(wp, wq);
    Positive(p - 1, q);
    assert p * q == (p - 1) * q + q;
  }

  lemma FactorsNonzero(a: int, b: int)
    requires a * b != 0
    ensures a != 0 && b != 0
  {
  }

  lemma Positive(a: int, b: int)
    requires a > 0 && b > 0
    ensures a * b > 0
  {
  }

  lemma PowOfZero(a: int, e: nat, p: int)
    requires e > 0 && Cong(a, 0, p)
    ensures Cong(Pow(a, e), 0, p)
  {
    hide Cong;
    CongPow(a, 0, e, p);
    assert Pow(0, e) == 0 * Pow(0, e - 1);
  }

  lemma ZeroKeys(u: nat, vp: nat, e: nat, p: int, q: int, gp: int, gn: int, g: int, h: int, qm: int)
    requires u > 0 && vp > 0 && e > 0 && p > 1 && p * q > 0
    requires Cong(gp, 0, p) && Cong(gn, gp, p) && g == PowMod(gn, e, p * q) && h == PowMod(g, u, p * q)
    requires qm == PowMod(g, vp, p)
    ensures Cong(g, 0, p) && Cong(h, 0, p) && qm == 0
  {
    hide Cong, Pow, PowMod;
    CongTrans(gn, gp, 0, p);
    CongWeaken(g, Pow(gn, e), p, q);
    PowOfZero(gn, e, p);
    CongTrans(g, Pow(gn, e), 0, p);
    CongWeaken(h, Pow(g, u), p, q);
    PowOfZero(g, u, p);
    CongTrans(h, Pow(g, u), 0, p);
    PowOfZero(g, vp, p);
    CongTrans(qm, Pow(g, vp), 0, p);
    CongClose(qm, 0, p);
  }

  lemma GeneratedKeys(u: int, vp: nat, wp: nat, wq: nat, p: int, q: int, gp: int, gq: int, gn: int, g: int, h: int,
                      k: Params)
    requires IsPrime(u) && u % 2 == 1 && u > 1 && p > 1 && q > 1 && p == u * vp * wp + 1 && p * q > 1
    requires IsPrime(p) && IsPrime(q) && Unit(gp, p) && vp * wp >= 0 && wp * wq > 0
    requires !Cong(Pow(gp, vp * wp), 1, p) && Cong(gn, gp, p) && Cong(gn, gq, q)
    requires g == PowMod(gn, wp * wq, p * q) && h == PowMod(g, u, p * q)
    requires k == Params(p, q, vp, u, PowMod(g, vp, p), Unit(g, p * q))
    ensures k.Valid() && Holds(g, 1, k) && Holds(h, 0, k)
    ensures Cong(k.qm, 1, k.p) <==> Cong(wq, 0, u)
    ensures k.units <==> !Cong(gq, 0, q)
  {
    hide Cong, IsPrime, Holds, Pow, Unit, PowMod;
    QmOrder(u, vp, wp, wq, p, q, gp, gn, g, k.qm);
    GeneratorUnit(p, q, gp, gq, gn, wp * wq, g);
    HoldsGenerators(g, h, k);
  }

  lemma QmOrder(u: int, vp: nat, wp: nat, wq: nat, p: int, q: int, gp: int, gn: int, g: int, qm: int)
    requires IsPrime(u) && IsPrime(p) && p == u * vp * wp + 1 && Unit(gp, p) && vp * wp >= 0 && wp * wq >= 0
    requires !Cong(Pow(gp, vp * wp), 1, p) && Cong(gn, gp, p)
    requires Cong(g, Pow(gn, wp * wq), p * q) && Cong(qm, Pow(g, vp), p)
    ensures u > 0 && Unit(qm, p) && Cong(Pow(qm, u), 1, p)
    ensures Cong(qm, 1, p) <==> Cong(wq, 0, u)
  {
    hide Cong, IsPrime, Pow, Unit;
    PrimeAboveOne(u);
    CongWeaken(g, Pow(gn, wp * wq), p, q);
    CongPow(gn, gp, wp * wq, p);
    CongTrans(g, Pow(gn, wp * wq), Pow(gp, wp * wq), p);
    GeneratorOrder(p, u, vp, wp, wq, gp, g, qm);
  }

  lemma GeneratorUnit(p: int, q: int, gp: int, gq: int, gn: int, e: nat, g: int)
    requires p * q > 0 && IsPrime(q) && e > 0 && Unit(gp, p) && Cong(gn, gp, p) && Cong(gn, gq, q)
    requires Cong(g, Pow(gn, e), p * q)
    ensures Unit(g, p * q) <==> !Cong(gq, 0, q)
  {
    hide Cong, Unit, IsPrime;
    CongSym(gn, gp, p);
    UnitCong(gp, gn, p);
    CongSym(g, Pow(gn, e), p * q);
    if !Cong(gq, 0, q) {
      PrimeUnit(gq, q);
      CongSym(gn, gq, q);
      UnitCong(gq, gn, q);
      UnitModProduct(gn, p, q);
      UnitPow(gn, e, p * q);
      UnitCong(Pow(gn, e), g, p * q);
    }
    if Unit(g, p * q) {
      UnitCong(g, Pow(gn, e), p * q);
      UnitFactor(gn, Pow(gn, e - 1), p * q);
      UnitModFactor(gn, p, q);
      UnitCong(gn, gq, q);
      PrimeAboveOne(q);
      UnitNotMultiple(gq, q);
    }
  }

  /** With g and h vanishing modulo p every fresh ciphertext but the 1 of message zero without noise is looked up
      as exponent 1. */
  lemma ZeroKeyExponent(pk: PublicKey, m: int, r: nat, k: Params)
    requires pk.Shaped() && k.p > 1 && k.u > 1 && pk.u == k.u && ZeroKey(pk, k)
    requires -(pk.u / 2) <= m <= pk.u / 2 && pk.u % 2 == 1
    ensures pk.InCipherRange(EncryptMessage(pk, m, r, k).value)
    ensures var c := pk.mSpace.MapBackToZSpace(EncryptMessage(pk, m, r, k).value);
            LeastExponent(if m == 0 && r == 0 then 0 else 1, PowMod(c % k.p, k.vp, k.p), k)
  {
    hide Cong, Pow, PowMod, Power, LeastExponent, MSpace.MapBackToZSpace, EncryptMessage;
    var c := pk.mSpace.MapBackToZSpace(EncryptMessage(pk, m, r, k).value);
    FreshValue(pk, m, r, k);
    CongWeaken(c, Pow(pk.g, m % pk.u) * Pow(pk.h, r), k.p, k.q);
    SmallResidue(m, pk.u);
    ZeroProduct(c, pk.g, pk.h, m % pk.u, r, k.p);
    ZeroExponent(c, if m == 0 && r == 0 then 1 else 0, k, PowMod(c % k.p, k.vp, k.p));
  }

  lemma ZeroProduct(c: int, g: int, h: int, d: nat, e: nat, p: int)
    requires Cong(g, 0, p) && Cong(h, 0, p) && Cong(c, Pow(g, d) * Pow(h, e), p)
    ensures Cong(c, if d == 0 && e == 0 then 1 else 0, p)
  {
    hide Cong;
    var a, b := Pow(g, d), Pow(h, e);
    if d > 0 {
      PowOfZero(g, d, p);
      CongRefl(b, p);
      CongMul(a, 0, b, b, p);
      CongTrans(c, a * b, 0, p);
    } else if e > 0 {
      PowOfZero(h, e, p);
      CongRefl(a, p);
      CongMul(a, a, b, 0, p);
      CongTrans(c, a * b, 0, p);
    }
  }

  lemma ZeroExponent(c: int, b: int, k: Params, z: int)
    requires k.p > 1 && k.u > 1 && k.vp > 0 && k.qm == 0 && Cong(c, b, k.p) && (b == 0 || b == 1)
    requires z == PowMod(c % k.p, k.vp, k.p)
    ensures LeastExponent(1 - b, z, k)
  {
    hide Cong, PowMod, Pow;
    PowOfZeroIs(k.p);
    CongMod(c, k.p);
    CongTrans(c % k.p, c, b, k.p);
    if b == 1 {
      CongPow(c % k.p, 1, k.vp, k.p);
      PowOne(k.vp);
    } else {
      PowOfZero(c % k.p, k.vp, k.p);
    }
    CongTrans(z, Pow(c % k.p, k.vp), b, k.p);
    CongClose(z, b, k.p);
  }

  lemma PowOfZeroIs(p: int)
    requires p > 1
    ensures Power(0, 0, p) == 1 && Power(0, 1, p) == 0
  {
    assert Pow(0, 0) == 1;
    assert Pow(0, 1) == 0 * Pow(0, 0);
  }

  /** What generated keys make of a message, for every draw the loops accept. Beyond 0 and 1, which come back by
      accident, a message comes back exactly when p does not divide gp and u does not divide wq. */
  method GeneratedRoundTrip(u: int, vp: nat, vq: nat, wp: nat, wq: nat, gp: int, gq: int, r: int, m: int, noise: nat)
    returns (out: Result<int>)
    requires IsPrime(u) && u % 2 == 1 && -(u / 2) <= m <= u / 2
    requires var p, q := u * vp * wp + 1, vq * wq + 1;
             IsPrime(p) && IsPrime(q) && p != q && Unit(r, p * q) && vp * wp >= 0 && !Cong(Pow(gp, vp * wp), 1, p)
    ensures var p := u * vp * wp + 1;
            out == Ok(if gp % p == 0 then if m == 0 && noise == 0 then 0 else 1 else if wq % u == 0 then 0 else m)
    ensures m != 0 && m != 1 ==> (out == Ok(m) <==> gp % (u * vp * wp + 1) != 0 && wq % u != 0)
  {
    hide Cong, IsPrime, Holds, Pow, Unit, IsLogTable, PublicKey.Encrypts, EncryptMessage, LeastExponent, PowMod;
    hide PublicKey.Valid, SecretKey.Matches, ZeroKey, Params.Valid;
    PrimeAboveOne(u);
    PrimeAboveOne(u * vp * wp + 1);
    MultipleTest(gp, u * vp * wp + 1);
    MultipleTest(wq, u);
    SmallResidue(m, u);
    CentreResidue(m, u);
    var sk, pk, k := Generate(u, vp, vq, wp, wq, gp, gq, r);
    var c := EncryptMessage(pk, m, noise, k);
    if Cong(gp, 0, k.p) { ZeroKeyExponent(pk, m, noise, k); }
    assert !Cong(gp, 0, k.p) ==> pk.Encrypts(c.value, m, k);
    out := Decrypt(pk, sk, c.value, k);
  }

  lemma SmallResidue(m: int, u: int)
    requires u > 1 && -(u / 2) <= m <= u / 2 && u % 2 == 1
    ensures m % u == 0 <==> m == 0
    ensures Centre(0, u) == 0 && Centre(1, u) == 1
  {
    hide Cong;
    if m < 0 {
      CongIntro(m, m + u, u, -1);
      ModIs(m, m + u, u);
    } else {
      CongRefl(m, u);
      ModIs(m, m, u);
    }
  }
}
