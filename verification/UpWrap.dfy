/** A modulus-up that goes wrong: two 60-bit primes that SEAL accepts at ring degree 4096, 64-bit plaintexts, and the
    largest word. */
module UpWrap {
  import opened Arith
  import opened NumberTheory
  import opened BigNum
  import opened Rns
  import opened Rounding
  import opened TwoAdic
  import opened ModSwitch
  import opened ModSwitchHelper

  // Both are 1 modulo 8192, and gamma is the largest 61-bit prime that is.
  const Q0 := 816286092460892161
  const Q1 := 989927860681203713
  const Gamma := 2305843009213554689
  const Moduli := [Q0, Q1]

  lemma Coprime(a: int, b: int, x: int, k: int)
    requires a * x == 1 + k * b
    ensures Unit(a, b)
  {
    CongIntro(a * x, 1, b, k);
    UnitIntro(a, x, b);
  }

  lemma Coprimes()
    ensures Unit(Q0, Q1) && Unit(Q1, Q0) && Unit(Q0, Gamma) && Unit(Q1, Gamma)
  {
    Coprime(Q0, Q1, 373891591107905320, 308307825278740263);
    Coprime(Q1, Q0, 507978267182151898, 616036269573298393);
    Coprime(Q0, Gamma, 1099219599760479853, 389132160454817388);
    Coprime(Q1, Gamma, 1467065701085418756, 629830047037584643);
  }

  lemma Products()
    ensures Prod(Moduli) == Q0 * Q1 && Punctured(Moduli, 0) == Q1 && Punctured(Moduli, 1) == Q0
  {
    var q := Moduli;
    assert q[1..] == [Q1] && q[..0] == [] && q[..1] == [Q0] && q[2..] == [];
    assert Prod([Q1]) == Q1 * Prod([]) && Prod([Q0]) == Q0 * Prod([]) && Prod(q) == Q0 * Prod([Q1]);
  }

  lemma OneLimb(a: int)
    ensures LimbValue([a]) == a
  {
    assert [a][1..] == [];
    assert LimbValue([]) == 0;
  }

  lemma TwoLimbs(a: int, b: int)
    ensures LimbValue([a, b]) == a + Pow(2, 64) * b
  {
    OneLimb(b);
    assert [a, b][1..] == [b];
  }

  function ExampleContext(): (c: Context)
    ensures c.q == Moduli && c.gamma == Gamma
  {
    Context(Moduli, Gamma, [17915967591275528193, 43805255929434725], [[Q1], [Q0]])
  }

  lemma ExampleValid()
    ensures ExampleContext().Valid()
  {
    var c := ExampleContext();
    Pow64();
    Products();
    Coprimes();
    hide Pow, Unit, Prod, Punctured;
    OneLimb(Q0);
    OneLimb(Q1);
    TwoLimbs(17915967591275528193, 43805255929434725);
  }

  lemma ModMulCong(a: int, b: int, c: int, q: int)
    requires q > 0 && Cong(b, c, q)
    ensures ModMul(a, b, q) == ModMul(a, c, q)
  {
    hide Cong;
    CongRefl(a, q);
    CongMul(a, a, b, c, q);
    ModFromCong(a * b, a * c, q);
  }

  /** For any helper over these moduli and k = 64, modulus-up of the word 2^64 - 1 is wrong for both primes. */
  lemma UpWraps(h: Helper, l: nat)
    requires h.Valid() && h.k == 64 && h.q == Moduli && l < 2
    ensures var x := Pow(2, 64) - 1;
            Wrap(UpSum(x, h.q[l], h.qDivTModQi[l], h.qModT, 64), 64) % h.q[l] != RoundDiv(Prod(h.q) * x, Pow(2, 64)) % h.q[l]
  {
    Pow64();
    Products();
    hide Pow, Prod, Cong, Tables, Wrap, RoundDiv, Punctured;
    var x, q, t := Pow(2, 64) - 1, h.q[l], Pow(2, 64);
    assert Q0 * Q1 / t == 43805255929434725 && h.qModT == 17915967591275528193;
    ModMulCong(x % q, h.qDivTModQi[l], 43805255929434725, q);
    assert ModMul(x % q, 43805255929434725, q) >= 530776482434023424;
    h.UpExact(x, l, 64);
  }

  /** The helper exists: Init builds it, and its modulus-up gives the wrong residues. */
  method WrongWords() returns (h: Helper, out0: array<int>, out1: array<int>)
    ensures h.Valid() && h.k == 64 && h.q == Moduli && out0.Length == out1.Length == 1
    ensures out0[0] != RoundDiv(Prod(h.q) * (Pow(2, 64) - 1), Pow(2, 64)) % Q0
    ensures out1[0] != RoundDiv(Prod(h.q) * (Pow(2, 64) - 1), Pow(2, 64)) % Q1
  {
    hide Pow, Prod, Cong, Wrap, RoundDiv, Punctured, UpSum;
    ExampleValid();
    h := new Helper();
    h.Init(64, ExampleContext());
    UpWraps(h, 0);
    UpWraps(h, 1);
    out0 := new int[1];
    out1 := new int[1];
    PowAtLeastBase(2, 64);
    var a := h.ModulusUpAt([Pow(2, 64) - 1], 0, out0, 64);
    var b := h.ModulusUpAt([Pow(2, 64) - 1], 1, out1, 64);
  }
}
