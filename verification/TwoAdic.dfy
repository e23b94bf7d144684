/** Arithmetic modulo powers of two: wrap-around words, limb vectors, 2-adic inverses. */
module TwoAdic {
  import opened Arith
  import opened NumberTheory
  import opened BigNum

  /** The value of a word of the given width after wrap-around. */
  function Wrap(x: int, bits: nat): (r: int)
    ensures 0 <= r < Pow(2, bits) && Cong(r, x, Pow(2, bits))
  {
    CongMod(x, Pow(2, bits));
    x % Pow(2, bits)
  }

  /** Wrapping at a wider word does not change a residue modulo 2^k. */
  lemma WrapWide(x: int, k: nat, bits: nat)
    requires k <= bits
    ensures Cong(Wrap(x, bits), x, Pow(2, k))
  {
    CongPowWeaken(Wrap(x, bits), x, 2, k, bits);
  }

  // ------------------------------------------------------------------ inverses

  /** One squaring round: inv * x == p and p == 1 modulo twice the power. */
  lemma InverseRound(x: int, inv: int, p: int, i: nat, bits: nat)
    requires i + 2 <= bits && Cong(inv * x, p, Pow(2, bits)) && Cong(p, 1, Pow(2, i + 1))
    ensures Cong(Wrap(inv * p, bits) * x, Wrap(p * p, bits), Pow(2, bits))
    ensures Cong(Wrap(p * p, bits), 1, Pow(2, i + 2))
  {
    hide Cong, Pow, Wrap;
    var m := Pow(2, bits);
    var a, b := Wrap(inv * p, bits), Wrap(p * p, bits);
    CongRefl(x, m);
    CongMul(a, inv * p, x, x, m);
    CongRefl(p, m);
    CongMul(inv * x, p, p, p, m);
    assert (inv * p) * x == (inv * x) * p;
    CongTrans(a * x, (inv * x) * p, p * p, m);
    CongSym(b, p * p, m);
    CongTrans(a * x, p * p, b, m);
    LiftOne(p, 2, i + 1);
    PowSquare(p);
    CongPowWeaken(b, p * p, 2, i + 2, bits);
    CongTrans(b, p * p, 1, Pow(2, i + 2));
  }

  lemma PowSquare(p: int)
    ensures Pow(p, 2) == p * p && Pow(2, 1) == 2 && Pow(p, 1) == p
  {
    assert Pow(p, 0) == 1 && Pow(2, 0) == 1;
  }

  /** The inverse of an odd word modulo 2^64. */
  method InvU64(x: int) returns (inv: int)
    requires 0 <= x < Pow(2, 64) && x % 2 == 1
    ensures 0 <= inv < Pow(2, 64) && Cong(inv * x, 1, Pow(2, 64))
  {
    hide Cong, Pow, Wrap;
    inv := 1;
    var p := x;
    InverseStart(x, 64);
    var i := 0;
    while i < 63
      invariant 0 <= i <= 63 && 0 <= inv < Pow(2, 64)
      invariant Cong(inv * x, p, Pow(2, 64)) && Cong(p, 1, Pow(2, i + 1))
    {
      InverseRound(x, inv, p, i, 64);
      inv := Wrap(inv * p, 64);
      p := Wrap(p * p, 64);
      i := i + 1;
    }
    CongTrans(inv * x, p, 1, Pow(2, 64));
  }

  /** The inverse of an odd word modulo 2^128. */
  method InvU128(x: int) returns (inv: int)
    requires 0 <= x < Pow(2, 128) && x % 2 == 1
    ensures 0 <= inv < Pow(2, 128) && Cong(inv * x, 1, Pow(2, 128))
  {
    hide Cong, Pow, Wrap;
    inv := 1;
    var p := x;
    InverseStart(x, 128);
    var i := 0;
    while i < 127
      invariant 0 <= i <= 127 && 0 <= inv < Pow(2, 128)
      invariant Cong(inv * x, p, Pow(2, 128)) && Cong(p, 1, Pow(2, i + 1))
    {
      InverseRound(x, inv, p, i, 128);
      inv := Wrap(inv * p, 128);
      p := Wrap(p * p, 128);
      i := i + 1;
    }
    CongTrans(inv * x, p, 1, Pow(2, 128));
  }

  lemma InverseStart(x: int, bits: nat)
    requires x % 2 == 1 && bits > 0
    ensures 1 < Pow(2, bits) && Cong(1 * x, x, Pow(2, bits)) && Cong(x, 1, Pow(2, 1))
  {
    PowAtLeastBase(2, bits);
    CongRefl(x, Pow(2, bits));
    PowSquare(2);
    CongIntro(x, 1, 2, x / 2);
  }

  // ------------------------------------------------------------------ limbs

  /** The value of a little-endian vector of 64-bit limbs. */
  function LimbValue(limbs: seq<int>): int
  {
    if |limbs| == 0 then 0 else limbs[0] + Pow(2, 64) * LimbValue(limbs[1..])
  }

  ghost predicate IsLimbs(limbs: seq<int>)
  {
    forall i :: 0 <= i < |limbs| ==> 0 <= limbs[i] < Pow(2, 64)
  }

  /** The value of a limb vector modulo 2^bits, read off its first two limbs. */
  function ModLimbsRing2k(limbs: seq<int>, bits: nat): (r: int)
    requires |limbs| > 0 && IsLimbs(limbs) && 2 <= bits <= 128
    ensures r == LimbValue(limbs) % Pow(2, bits)
  {
    var numLimbs := (bits + 63) / 64;
    var msb := bits - 64 * (numLimbs - 1);
    var lo := limbs[0];
    var hi := if |limbs| > 1 then limbs[1] else 0;
    if numLimbs > 1 then
      LimbsTwo(limbs, lo, hi, msb);
      lo + Pow(2, 64) * (hi % Pow(2, msb))
    else
      LimbsOne(limbs, lo, msb);
      lo % Pow(2, msb)
  }

  lemma LimbsOne(limbs: seq<int>, lo: int, msb: nat)
    requires |limbs| > 0 && lo == limbs[0] && msb <= 64
    ensures LimbValue(limbs) % Pow(2, msb) == lo % Pow(2, msb)
  {
    hide Pow;
    CongIntro(LimbValue(limbs), lo, Pow(2, 64), LimbValue(limbs[1..]));
    CongPowWeaken(LimbValue(limbs), lo, 2, msb, 64);
    ModFromCong(LimbValue(limbs), lo, Pow(2, msb));
  }

  lemma FirstTwo(limbs: seq<int>, lo: int, hi: int) returns (rest: int)
    requires |limbs| > 0 && lo == limbs[0] && hi == if |limbs| > 1 then limbs[1] else 0
    ensures LimbValue(limbs) == lo + Pow(2, 64) * (hi + Pow(2, 64) * rest)
  {
    hide Pow;
    if |limbs| > 1 {
      rest := LimbValue(limbs[2..]);
      assert limbs[1..][1..] == limbs[2..];
    } else {
      rest := 0;
      assert LimbValue(limbs[1..]) == 0;
    }
  }

  lemma LimbsTwo(limbs: seq<int>, lo: int, hi: int, msb: nat)
    requires |limbs| > 0 && IsLimbs(limbs) && msb <= 64
    requires lo == limbs[0] && hi == if |limbs| > 1 then limbs[1] else 0
    ensures LimbValue(limbs) % Pow(2, 64 + msb) == lo + Pow(2, 64) * (hi % Pow(2, msb))
  {
    hide Pow;
    var b, m := Pow(2, 64), Pow(2, msb);
    var rest := FirstTwo(limbs, lo, hi);
    hide LimbValue;
    CongIntro(hi + b * rest, hi, b, rest);
    CongPowWeaken(hi + b * rest, hi, 2, msb, 64);
    CongMod(hi, m);
    CongTrans(hi + b * rest, hi, hi % m, m);
    CongScale(hi + b * rest, hi % m, m, b);
    PowAdd(2, 64, msb);
    CongRefl(lo, b * m);
    CongAdd(lo, lo, b * (hi + b * rest), b * (hi % m), b * m);
    MixedRadix(hi % m, lo, b, m);
    assert (hi % m) * b == b * (hi % m);
    ModIs(LimbValue(limbs), lo + b * (hi % m), b * m);
  }
}
