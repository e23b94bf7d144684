/** The big-number library as its callers see it: non-negative residues, truncated division, powers
    with signed exponents, and Montgomery spaces. */
module BigNum {
  import opened Arith
  import opened NumberTheory

  function ModMul(a: int, b: int, m: int): (r: int)
    requires m > 0
    ensures 0 <= r < m && Cong(r, a * b, m)
  {
    CongMod(a * b, m);
    (a * b) % m
  }

  /** b^e mod m; a negative exponent stands for the inverse of b. */
  function PowMod(b: int, e: int, m: int): (r: int)
    requires m > 0 && (e < 0 ==> Unit(b, m))
    ensures 0 <= r < m
    ensures e >= 0 ==> Cong(r, Pow(b, e), m)
    ensures Unit(b, m) ==> Cong(r, ZPow(b, e, m), m)
  {
    var z := if e >= 0 then Pow(b, e) else Pow(InvMod(b, m), -e);
    CongMod(z, m);
    z % m
  }

  /** Division rounding toward zero, as the library's operator does. */
  function TruncDiv(a: int, b: int): int
    requires b > 0
  {
    if a >= 0 then a / b else -((-a) / b)
  }

  lemma TruncDivExact(k: int, b: int)
    requires b > 0
    ensures TruncDiv(k * b, b) == k
  {
    if k >= 0 {
      DivExact(k, b);
      assert k * b >= 0;
    } else {
      DivExact(-k, b);
      assert (-k) * b == -(k * b) && k * b < 0;
    }
  }

  lemma DivExact(k: int, b: int)
    requires b > 0
    ensures (k * b) / b == k
  {
    DivMod(k * b, b);
    var q := (k * b) / b;
    assert (k - q) * b == (k * b) % b;
    SmallMultiple(k - q, b);
  }

  /** A Montgomery space modulo m: x is stored as x * r mod m. */
  datatype MSpace = MSpace(m: int, r: int) {

    ghost predicate Valid()
    {
      m > 0 && Unit(r, m)
    }

    /** a is the stored form of the class of x. */
    ghost predicate Stores(a: int, x: int)
    {
      0 <= a < m && Cong(a, x * r, m)
    }

    function MapIntoMSpace(x: int): (a: int)
      requires Valid()
      ensures Stores(a, x)
    {
      ModMul(x, r, m)
    }

    function MapBackToZSpace(a: int): (x: int)
      requires Valid()
      ensures 0 <= x < m
    {
      ModMul(a, InvMod(r, m), m)
    }

    function Identity(): (a: int)
      requires Valid()
      ensures Stores(a, 1)
    {
      MapIntoMSpace(1)
    }

    function MulMod(a: int, b: int): (c: int)
      requires Valid()
      ensures 0 <= c < m
    {
      ModMul(a * b, InvMod(r, m), m)
    }

    /** The power of a base table entry, in stored form. */
    function PowMod(base: int, e: nat): (a: int)
      requires Valid()
      ensures Stores(a, Pow(base, e))
    {
      MapIntoMSpace(Pow(base, e))
    }

    lemma StoresBack(a: int, x: int)
      requires Valid() && Stores(a, x)
      ensures Cong(MapBackToZSpace(a), x, m)
    {
      hide Cong;
      var i := InvMod(r, m);
      CongRefl(i, m);
      CongMul(a, x * r, i, i, m);
      CongRefl(x, m);
      CongMul(x, x, r * i, 1, m);
      assert x * (r * i) == (x * r) * i;
      CongTrans(a * i, (x * r) * i, x, m);
      CongTrans(MapBackToZSpace(a), a * i, x, m);
    }

    lemma StoresOwn(a: int)
      requires Valid() && 0 <= a < m
      ensures Stores(a, MapBackToZSpace(a))
    {
      hide Cong;
      var i, b := InvMod(r, m), MapBackToZSpace(a);
      CongRefl(r, m);
      CongMul(b, a * i, r, r, m);
      CongRefl(a, m);
      CongMul(a, a, r * i, 1, m);
      assert (a * i) * r == a * (r * i);
      CongTrans(b * r, (a * i) * r, a, m);
      CongSym(b * r, a, m);
    }

    /** Stored forms are unique, and only the class of x matters. */
    lemma StoresCong(a: int, x: int, y: int)
      requires Valid() && Stores(a, x) && Cong(x, y, m)
      ensures Stores(a, y)
    {
      hide Cong;
      CongRefl(r, m);
      CongMul(x, y, r, r, m);
      CongTrans(a, x * r, y * r, m);
    }

    lemma StoresMul(a: int, x: int, b: int, y: int)
      requires Valid() && Stores(a, x) && Stores(b, y)
      ensures Stores(MulMod(a, b), x * y)
    {
      hide Cong;
      var i := InvMod(r, m);
      CongMul(a, x * r, b, y * r, m);
      CongRefl(i, m);
      CongMul(a * b, (x * r) * (y * r), i, i, m);
      CongRefl(x * y * r, m);
      CongMul(x * y * r, x * y * r, r * i, 1, m);
      Rearrange(x, y, r, i);
      CongTrans(a * b * i, (x * r) * (y * r) * i, x * y * r, m);
      CongTrans(MulMod(a, b), a * b * i, x * y * r, m);
    }

    static lemma Rearrange(x: int, y: int, r: int, i: int)
      ensures (x * r) * (y * r) * i == (x * y * r) * (r * i)
    {
      Regroup(x, r, y, r);
      assert (x * r) * (y * r) == (x * y) * (r * r);
      assert (x * y) * (r * r) * i == (x * y * r) * (r * i);
    }
  }
}
