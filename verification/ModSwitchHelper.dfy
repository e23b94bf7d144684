/** The modulus-switch helper: its constants, and the buffer-by-buffer algorithms that use them. */
module ModSwitchHelper {
  import opened Arith
  import opened NumberTheory
  import opened BigNum
  import opened Rns
  import opened Rounding
  import opened TwoAdic
  import opened ModSwitch

  /** What the helper reads from the SEAL context: coefficient moduli, auxiliary prime, limb vectors. */
  datatype Context = Context(q: seq<int>, gamma: int, prodLimbs: seq<int>, puncturedLimbs: seq<seq<int>>)
  {
    ghost predicate Valid()
    {
      && Base(q) && (forall l :: 0 <= l < |q| ==> q[l] % 2 == 1 && q[l] < Pow(2, 63) && Unit(q[l], gamma))
      && gamma > 2 * |q| && gamma % 2 == 1 && gamma < Pow(2, 64)
      && |prodLimbs| > 0 && IsLimbs(prodLimbs) && LimbValue(prodLimbs) == Prod(q)
      && |puncturedLimbs| == |q|
      && (forall l :: 0 <= l < |q| ==>
            |puncturedLimbs[l]| > 0 && IsLimbs(puncturedLimbs[l]) && LimbValue(puncturedLimbs[l]) == Punctured(q, l))
    }
  }

  // ------------------------------------------------------------------ constants

  /** gamma * 2^k mod q, with 2^k multiplied up from two halves. */
  function GammaT(k: nat, gamma: int, q: int): (r: int)
    requires q > 0
    ensures 0 <= r < q && Cong(r, gamma * Pow(2, k), q)
  {
    var t := ModMul(Pow(2, k / 2) % q, Pow(2, k - k / 2) % q, q);
    GammaTCorrect(k, gamma, q, t);
    ModMul(gamma % q, t, q)
  }

  lemma GammaTCorrect(k: nat, gamma: int, q: int, t: int)
    requires q > 0 && t == ModMul(Pow(2, k / 2) % q, Pow(2, k - k / 2) % q, q)
    ensures Cong(ModMul(gamma % q, t, q), gamma * Pow(2, k), q)
  {
    hide Cong, ModMul, Pow;
    var a, b := Pow(2, k / 2), Pow(2, k - k / 2);
    PowAdd(2, k / 2, k - k / 2);
    CongMod(a, q);
    CongMod(b, q);
    CongMod(gamma, q);
    CongMul(a % q, a, b % q, b, q);
    CongTrans(t, (a % q) * (b % q), a * b, q);
    CongMul(gamma % q, gamma, t, a * b, q);
    CongTrans(ModMul(gamma % q, t, q), (gamma % q) * t, gamma * (a * b), q);
  }

  /** -Q^-1 modulo gamma. */
  function NegInverse(bigQ: int, gamma: int): (r: int)
    requires gamma > 0 && Unit(bigQ % gamma, gamma)
    ensures 0 <= r < gamma && Cong(r * bigQ, -1, gamma)
  {
    var inv := InvMod(bigQ % gamma, gamma);
    NegInverseCorrect(bigQ, gamma, inv, if inv == 0 then 0 else gamma - inv);
    if inv == 0 then 0 else gamma - inv
  }

  lemma NegInverseCorrect(bigQ: int, gamma: int, inv: int, neg: int)
    requires gamma > 0 && Cong((bigQ % gamma) * inv, 1, gamma)
    requires neg == if inv == 0 then 0 else gamma - inv
    ensures Cong(neg * bigQ, -1, gamma)
  {
    hide Cong;
    CongIntro(neg, -inv, gamma, if inv == 0 then 0 else 1);
    CongMod(bigQ, gamma);
    CongMul(neg, -inv, bigQ, bigQ % gamma, gamma);
    CongRefl(-1, gamma);
    CongMul((bigQ % gamma) * inv, 1, -1, -1, gamma);
    assert (-inv) * (bigQ % gamma) == ((bigQ % gamma) * inv) * (-1);
    CongTrans(neg * bigQ, (-inv) * (bigQ % gamma), -1, gamma);
  }

  lemma {:induction false} ProdOdd(q: seq<int>)
    requires forall l :: 0 <= l < |q| ==> q[l] % 2 == 1
    ensures Prod(q) % 2 == 1
  {
    if |q| > 0 {
      ProdOdd(q[1..]);
      OddProduct(q[0], Prod(q[1..]));
    }
  }

  /** The low word of an odd limb vector is odd and congruent to it. */
  lemma LowWord(limbs: seq<int>, lo: int)
    requires |limbs| > 0 && IsLimbs(limbs) && lo == limbs[0] && LimbValue(limbs) % 2 == 1
    ensures 0 <= lo < Pow(2, 64) && lo % 2 == 1 && Cong(lo, LimbValue(limbs), Pow(2, 64))
  {
    hide Pow;
    CongIntro(lo, LimbValue(limbs), Pow(2, 64), -LimbValue(limbs[1..]));
    PowSquare(2);
    CongPowWeaken(lo, LimbValue(limbs), 2, 1, 64);
    ModFromCong(lo, LimbValue(limbs), 2);
  }

  lemma LowTwoWords(limbs: seq<int>, lo: int)
    requires |limbs| > 0 && IsLimbs(limbs) && LimbValue(limbs) % 2 == 1
    requires lo == limbs[0] + Pow(2, 64) * (if |limbs| > 1 then limbs[1] else 0)
    ensures 0 <= lo < Pow(2, 128) && lo % 2 == 1 && Cong(lo, LimbValue(limbs), Pow(2, 128))
  {
    hide Pow;
    var b, hi := Pow(2, 64), if |limbs| > 1 then limbs[1] else 0;
    LimbsTwo(limbs, limbs[0], hi, 64);
    CongRefl(hi, b);
    ModIs(hi, hi, b);
    PowSquare(2);
    CongMod(LimbValue(limbs), Pow(2, 128));
    CongPowWeaken(lo, LimbValue(limbs), 2, 1, 128);
    ModFromCong(lo, LimbValue(limbs), 2);
  }

  /** From an inverse of the low word to the masked inverse, and its negative, modulo 2^k. */
  lemma MaskedInverse(inv: int, lo: int, bigQ: int, k: nat, bits: nat)
    requires k <= bits && Cong(inv * lo, 1, Pow(2, bits)) && Cong(lo, bigQ, Pow(2, bits))
    ensures Cong(bigQ * (inv % Pow(2, k)), 1, Pow(2, k))
    ensures Cong((Wrap(-inv, bits) % Pow(2, k)) * bigQ, -1, Pow(2, k))
  {
    hide Cong, Pow, Wrap;
    var m, t := Pow(2, bits), Pow(2, k);
    CongRefl(inv, m);
    CongSym(lo, bigQ, m);
    CongMul(inv, inv, bigQ, lo, m);
    CongTrans(inv * bigQ, inv * lo, 1, m);
    CongPowWeaken(inv * bigQ, 1, 2, k, bits);
    CongMod(inv, t);
    CongRefl(bigQ, t);
    CongMul(bigQ, bigQ, inv % t, inv, t);
    CongTrans(bigQ * (inv % t), inv * bigQ, 1, t);
    var n := Wrap(-inv, bits);
    WrapWide(-inv, k, bits);
    CongMod(n, t);
    CongTrans(n % t, n, -inv, t);
    CongMul(n % t, -inv, bigQ, bigQ, t);
    CongRefl(-1, t);
    CongMul(inv * bigQ, 1, -1, -1, t);
    assert (-inv) * bigQ == (inv * bigQ) * (-1);
    CongTrans((n % t) * bigQ, (-inv) * bigQ, -1, t);
  }

  /** The j-th coefficient's residues. */
  function Column(src: seq<seq<int>>, j: nat): (r: seq<int>)
    requires forall l :: 0 <= l < |src| ==> j < |src[l]|
    ensures |r| == |src| && forall l :: 0 <= l < |src| ==> r[l] == src[l][j]
  {
    seq(|src|, l requires 0 <= l < |src| => src[l][j])
  }

  /** The word size whose bit_ceil check accepts base_mod_bitlen k. */
  predicate WordFits(k: nat, w: nat)
  {
    (w == 32 || w == 64 || w == 128) && w < 2 * k <= 2 * w
  }

  // ------------------------------------------------------------------ the helper

  class Helper {
    var k: nat // base_mod_bitlen
    var q: seq<int>
    var gamma: int
    var negInvQModT: int
    var invGammaModT: int
    var negInvQModGamma: int
    var puncturedModT: seq<int>
    var gammaTModQ: seq<int>
    var invPunctured: seq<int>
    var tHalf: int
    var qModT: int
    var qDivTModQi: seq<int>

    constructor () {}

    ghost predicate Valid()
      reads this
    {
      && 2 <= k <= 128
      && Tables(q, gamma, Pow(2, k), gammaTModQ, invPunctured)
      && (forall l :: 0 <= l < |q| ==> q[l] % 2 == 1 && q[l] < Pow(2, 63))
      && Cong(negInvQModT * Prod(q), -1, Pow(2, k)) && Cong(gamma * invGammaModT, 1, Pow(2, k))
      && Cong(negInvQModGamma * Prod(q), -1, gamma)
      && |puncturedModT| == |q| && (forall l :: 0 <= l < |q| ==> puncturedModT[l] == Punctured(q, l) % Pow(2, k))
      && tHalf == Pow(2, k - 1) && qModT == Prod(q) % Pow(2, k)
      && |qDivTModQi| == |q| && (forall l :: 0 <= l < |q| ==> Cong(qDivTModQi[l], Prod(q) / Pow(2, k), q[l]))
    }

    method Init(bitlen: nat, c: Context)
      requires c.Valid() && 2 <= bitlen <= 128
      modifies this
      ensures Valid() && k == bitlen && q == c.q && gamma == c.gamma
    {
      hide Cong, Unit, Pow, Punctured, Prod, IsLimbs, Tables;
      k, q, gamma := bitlen, c.q, c.gamma;
      var t, bigQ := Pow(2, k), Prod(q);
      tHalf := Pow(2, k - 1);
      ProdPositive(q);
      var qDivT := if bigQ >= t then bigQ / t else 0;
      SmallQuotient(bigQ, t);
      qModT := ModLimbsRing2k(c.prodLimbs, k);
      negInvQModT, invGammaModT := InverseModT(c, k);
      UnitResidue(c);
      negInvQModGamma := NegInverse(bigQ, gamma);
      InitVectors(c, qDivT);
    }

    /** The per-modulus constants. */
    method InitVectors(c: Context, qDivT: int)
      requires c.Valid() && 2 <= k <= 128 && q == c.q && gamma == c.gamma && qDivT == Prod(q) / Pow(2, k)
      modifies this`puncturedModT, this`gammaTModQ, this`invPunctured, this`qDivTModQi
      ensures Tables(q, gamma, Pow(2, k), gammaTModQ, invPunctured)
      ensures |puncturedModT| == |q| && forall l :: 0 <= l < |q| ==> puncturedModT[l] == Punctured(q, l) % Pow(2, k)
      ensures |qDivTModQi| == |q| && forall l :: 0 <= l < |q| ==> Cong(qDivTModQi[l], Prod(q) / Pow(2, k), q[l])
    {
      hide Cong, Unit, Pow, Punctured, Prod, IsLimbs;
      puncturedModT := PuncturedTable(c, k);
      var bits := k;
      gammaTModQ := seq(|c.q|, l requires 0 <= l < |c.q| => GammaT(bits, c.gamma, c.q[l]));
      PuncturedUnits(q);
      invPunctured := seq(|c.q|, l requires 0 <= l < |c.q| => InvMod(Punctured(c.q, l), c.q[l]));
      qDivTModQi := seq(|c.q|, l requires 0 <= l < |c.q| => qDivT % c.q[l]);
      forall l | 0 <= l < |q|
        ensures Cong(qDivTModQi[l], qDivT, q[l])
      {
        CongMod(qDivT, q[l]);
      }
    }

    /** Input rows, one per modulus, of n coefficients each. */
    predicate Rows(src: seq<seq<int>>, n: nat)
      reads this
    {
      |src| == |q| && forall l :: 0 <= l < |src| ==> |src[l]| == n
    }

    /** The digits of coefficient j before base conversion. */
    ghost function ColumnDigits(src: seq<seq<int>>, n: nat, j: nat): seq<int>
      requires Valid() && Rows(src, n) && j < n
      reads this
    {
      Digits(Column(src, j), gammaTModQ, invPunctured, q)
    }

    /** Step 1: multiply every row by gamma*t. */
    method ScaleRows(src: seq<seq<int>>, n: nat) returns (tmp: array2<int>)
      requires Valid() && Rows(src, n)
      ensures fresh(tmp) && tmp.Length0 == |q| && tmp.Length1 == n
      ensures forall l, j :: 0 <= l < |q| && 0 <= j < n ==> tmp[l, j] == ModMul(src[l][j], gammaTModQ[l], q[l])
    {
      hide Cong, Unit, ModMul, Punctured;
      tmp := new int[|q|, n];
      for l := 0 to |q|
        invariant forall a, j :: 0 <= a < l && 0 <= j < n ==> tmp[a, j] == ModMul(src[a][j], gammaTModQ[a], q[a])
      {
        for j := 0 to n
          invariant forall a, b :: 0 <= a < l && 0 <= b < n ==> tmp[a, b] == ModMul(src[a][b], gammaTModQ[a], q[a])
          invariant forall b :: 0 <= b < j ==> tmp[l, b] == ModMul(src[l][b], gammaTModQ[l], q[l])
        {
          tmp[l, j] := ModMul(src[l][j], gammaTModQ[l], q[l]);
        }
      }
    }

    /** Fast base conversion of every column to gamma. */
    method FastConvert(tmp: array2<int>, ghost src: seq<seq<int>>, n: nat) returns (onGamma: array<int>)
      requires Valid() && Rows(src, n) && tmp.Length0 == |q| && tmp.Length1 == n
      requires forall l, j :: 0 <= l < |q| && 0 <= j < n ==> tmp[l, j] == ModMul(src[l][j], gammaTModQ[l], q[l])
      ensures fresh(onGamma) && onGamma.Length == n
      ensures forall j :: 0 <= j < n ==> onGamma[j] == ConvSum(ColumnDigits(src, n, j), q, |q|) % gamma
    {
      hide Cong, Unit, ModMul, Punctured, ConvSum;
      onGamma := new int[n];
      for j := 0 to n
        invariant forall b :: 0 <= b < j ==> onGamma[b] == ConvSum(ColumnDigits(src, n, b), q, |q|) % gamma
      {
        var y := seq(|q|, l requires 0 <= l < |q| && Valid() && tmp.Length0 == |q| && tmp.Length1 == n && j < n
                            reads this, tmp => ModMul(tmp[l, j], invPunctured[l], q[l]));
        assert y == ColumnDigits(src, n, j);
        onGamma[j] := ConvSum(y, q, |q|) % gamma;
      }
    }

    /** Step 2: fast base conversion to gamma, then times -Q^-1. */
    method ConvertToGamma(tmp: array2<int>, ghost src: seq<seq<int>>, n: nat) returns (onGamma: array<int>)
      requires Valid() && Rows(src, n) && tmp.Length0 == |q| && tmp.Length1 == n
      requires forall l, j :: 0 <= l < |q| && 0 <= j < n ==> tmp[l, j] == ModMul(src[l][j], gammaTModQ[l], q[l])
      ensures fresh(onGamma) && onGamma.Length == n
      ensures forall j :: 0 <= j < n ==> onGamma[j] == GammaWord(ColumnDigits(src, n, j))
    {
      hide Cong, Unit, ModMul, Punctured, ConvSum, Digits;
      onGamma := FastConvert(tmp, src, n);
      for j := 0 to n
        invariant forall b :: j <= b < n ==> onGamma[b] == ConvSum(ColumnDigits(src, n, b), q, |q|) % gamma
        invariant forall b :: 0 <= b < j ==> onGamma[b] == GammaWord(ColumnDigits(src, n, b))
      {
        onGamma[j] := ModMul(onGamma[j], negInvQModGamma, gamma);
      }
    }

    /** The gamma residue left for digits y: -Q^-1 times their conversion sum. */
    function GammaWord(y: seq<int>): int
      requires |y| == |q| && gamma > 0
      reads this
    {
      ModMul(ConvSum(y, q, |q|) % gamma, negInvQModGamma, gamma)
    }

    /** The rows become digits, in place. */
    method DigitRows(tmp: array2<int>, ghost src: seq<seq<int>>, n: nat)
      requires Valid() && Rows(src, n) && tmp.Length0 == |q| && tmp.Length1 == n
      requires forall l, j :: 0 <= l < |q| && 0 <= j < n ==> tmp[l, j] == ModMul(src[l][j], gammaTModQ[l], q[l])
      modifies tmp
      ensures forall l, j :: 0 <= l < |q| && 0 <= j < n ==> tmp[l, j] == ColumnDigits(src, n, j)[l]
    {
      hide Cong, Unit, ModMul, Punctured, ConvSum, Pow, Wrap;
      for l := 0 to |q|
        invariant forall a, j :: l <= a < |q| && 0 <= j < n ==> tmp[a, j] == ModMul(src[a][j], gammaTModQ[a], q[a])
        invariant forall a, j :: 0 <= a < l && 0 <= j < n ==> tmp[a, j] == ColumnDigits(src, n, j)[a]
      {
        for j := 0 to n
          invariant forall a, b :: l < a < |q| && 0 <= b < n ==> tmp[a, b] == ModMul(src[a][b], gammaTModQ[a], q[a])
          invariant forall b :: j <= b < n ==> tmp[l, b] == ModMul(src[l][b], gammaTModQ[l], q[l])
          invariant forall a, b :: 0 <= a < l && 0 <= b < n ==> tmp[a, b] == ColumnDigits(src, n, b)[a]
          invariant forall b :: 0 <= b < j ==> tmp[l, b] == ColumnDigits(src, n, b)[l]
        {
          tmp[l, j] := ModMul(tmp[l, j], invPunctured[l], q[l]);
        }
      }
    }

    /** Step 3: the rows become digits in place, are summed modulo the word size, and the sum is
        multiplied by -Q^-1 modulo t. */
    method ConvertToT(tmp: array2<int>, ghost src: seq<seq<int>>, n: nat, w: nat) returns (onT: array<int>)
      requires Valid() && Rows(src, n) && tmp.Length0 == |q| && tmp.Length1 == n && WordFits(k, w)
      requires forall l, j :: 0 <= l < |q| && 0 <= j < n ==> tmp[l, j] == ModMul(src[l][j], gammaTModQ[l], q[l])
      modifies tmp
      ensures fresh(onT) && onT.Length == n
      ensures forall j :: 0 <= j < n ==>
                Cong(onT[j], ConvSum(ColumnDigits(src, n, j), q, |q|) * negInvQModT, Pow(2, k))
    {
      hide Cong, Unit, ModMul, Punctured, ConvSum, Pow, Wrap, Digits;
      DigitRows(tmp, src, n);
      onT := Accumulate(tmp, src, n, w);
      for j := 0 to n
        invariant forall b :: j <= b < n ==> Cong(onT[b], ConvSum(ColumnDigits(src, n, b), q, |q|), Pow(2, k))
        invariant forall b :: 0 <= b < j ==>
                    Cong(onT[b], ConvSum(ColumnDigits(src, n, b), q, |q|) * negInvQModT, Pow(2, k))
      {
        MaskedProduct(onT[j], ConvSum(ColumnDigits(src, n, j), q, |q|), negInvQModT, k);
        onT[j] := Wrap(onT[j] * negInvQModT, 128) % Pow(2, k);
      }
    }

    /** sum_l digit * (Q/q_l) modulo t, accumulated in words of w bits. */
    method Accumulate(tmp: array2<int>, ghost src: seq<seq<int>>, n: nat, w: nat) returns (onT: array<int>)
      requires Valid() && Rows(src, n) && tmp.Length0 == |q| && tmp.Length1 == n && WordFits(k, w)
      requires forall l, j :: 0 <= l < |q| && 0 <= j < n ==> tmp[l, j] == ColumnDigits(src, n, j)[l]
      ensures fresh(onT) && onT.Length == n
      ensures forall j :: 0 <= j < n ==> Cong(onT[j], ConvSum(ColumnDigits(src, n, j), q, |q|), Pow(2, k))
    {
      hide Cong, Unit, ModMul, Punctured, ConvSum, Pow, Wrap, Tables, Digits;
      onT := new int[n](_ => 0);
      forall j | 0 <= j < n
        ensures Cong(onT[j], ConvSum(ColumnDigits(src, n, j), q, 0), Pow(2, k))
      {
        EmptySum(ColumnDigits(src, n, j), q, Pow(2, k));
      }
      for l := 0 to |q|
        invariant forall j :: 0 <= j < n ==> Cong(onT[j], ConvSum(ColumnDigits(src, n, j), q, l), Pow(2, k))
      {
        var factor := Wrap(puncturedModT[l], w);
        for j := 0 to n
          invariant forall b :: j <= b < n ==> Cong(onT[b], ConvSum(ColumnDigits(src, n, b), q, l), Pow(2, k))
          invariant forall b :: 0 <= b < j ==> Cong(onT[b], ConvSum(ColumnDigits(src, n, b), q, l + 1), Pow(2, k))
        {
          AccumulateStep(onT[j], ColumnDigits(src, n, j), q, l, tmp[l, j], puncturedModT[l], k, w);
          onT[j] := Wrap(onT[j] + Wrap(tmp[l, j], w) * factor, w);
        }
      }
    }

    /** Step 4: subtract the centred gamma residue and divide by gamma, modulo t. */
    method Correct(onGamma: array<int>, onT: array<int>, ghost src: seq<seq<int>>, n: nat, w: nat, out: array<int>)
      requires Valid() && Rows(src, n) && WordFits(k, w)
      requires onGamma.Length == onT.Length == out.Length == n && onGamma != out && onT != out
      requires forall j :: 0 <= j < n ==> onGamma[j] == GammaWord(ColumnDigits(src, n, j))
      requires forall j :: 0 <= j < n ==>
                 Cong(onT[j], ConvSum(ColumnDigits(src, n, j), q, |q|) * negInvQModT, Pow(2, k))
      modifies out
      ensures forall j :: 0 <= j < n ==>
                IsDown(out[j], Column(src, j), q, gamma, Pow(2, k), gammaTModQ, invPunctured)
    {
      hide Cong, Unit, ModMul, Punctured, ConvSum, Pow, Wrap, IsDown, Digits;
      var wide := if w == 128 then 128 else 64;
      for j := 0 to n
        invariant forall b :: 0 <= b < j ==>
                    IsDown(out[b], Column(src, b), q, gamma, Pow(2, k), gammaTModQ, invPunctured)
      {
        if onGamma[j] > gamma / 2 {
          out[j] := Wrap(Wrap(onT[j] + gamma - onGamma[j], wide) * invGammaModT, 128) % Pow(2, k);
        } else {
          out[j] := Wrap(Wrap(onT[j] - onGamma[j], wide) * invGammaModT, 128) % Pow(2, k);
        }
        CorrectWord(Column(src, j), q, gamma, k, gammaTModQ, invPunctured, negInvQModGamma, negInvQModT, invGammaModT,
                    onGamma[j], onT[j], wide, out[j]);
      }
    }

    /** Refuses exactly a wrong word size or wrong row lengths; otherwise every coefficient is modulus-down of every
        integer with the given residues. */
    method ModulusDownRNS(src: seq<seq<int>>, out: array<int>, w: nat) returns (ok: bool)
      requires Valid()
      modifies out
      ensures ok <==> WordFits(k, w) && Rows(src, out.Length)
      ensures !ok ==> out[..] == old(out[..])
      ensures ok ==> forall j :: 0 <= j < out.Length ==>
                       IsDown(out[j], Column(src, j), q, gamma, Pow(2, k), gammaTModQ, invPunctured)
    {
      hide Cong, Unit, ModMul, Punctured, ConvSum, Pow, IsDown, Digits;
      var n := out.Length;
      ok := WordFits(k, w) && Rows(src, n);
      if !ok { return; }
      var tmp := ScaleRows(src, n);
      var onGamma := ConvertToGamma(tmp, src, n);
      var onT := ConvertToT(tmp, src, n, w);
      Correct(onGamma, onT, src, n, w, out);
    }

    /** Step x -> round(Q*x/t) mod q_l for 32-bit and 64-bit words. Like the two methods below it refuses exactly
        a length mismatch, a wrong word size and a modulus that does not exist. */
    method ModulusUpAt(src: seq<int>, l: nat, out: array<int>, w: nat) returns (ok: bool)
      requires Valid() && w < 128
      requires forall j :: 0 <= j < |src| ==> 0 <= src[j] < Pow(2, w)
      modifies out
      ensures ok <==> |src| == out.Length && WordFits(k, w) && l < |q|
      ensures !ok ==> out[..] == old(out[..])
      ensures ok ==> forall j :: 0 <= j < |src| ==>
                       out[j] == Wrap(UpSum(src[j], q[l], qDivTModQi[l], qModT, k), 64) % q[l]
    {
      hide Cong, Unit, ModMul, Punctured, Pow, Wrap, Tables, UpSum, ScalarShift;
      ok := |src| == out.Length && WordFits(k, w) && l < |q|;
      if !ok { return; }
      TablesPositive(q, gamma, Pow(2, k), gammaTModQ, invPunctured);
      for j := 0 to |src|
        invariant forall b :: 0 <= b < j ==>
                    out[b] == Wrap(UpSum(src[b], q[l], qDivTModQi[l], qModT, k), 64) % q[l]
      {
        var x := src[j];
        var u := ModMul(x % q[l], qDivTModQi[l], q[l]);
        var v := ScalarShift(x, qModT, tHalf, k, w);
        ScalarPath(x, qModT, k, w, u, v, q[l], qDivTModQi[l]);
        out[j] := Wrap(u + v, 64) % q[l];
      }
    }

    /** The same step for 128-bit words, through 256-bit limb arithmetic. */
    method ModulusUpAt128(src: seq<int>, l: nat, out: array<int>) returns (ok: bool)
      requires Valid()
      requires forall j :: 0 <= j < |src| ==> 0 <= src[j] < Pow(2, 128)
      modifies out
      ensures ok <==> |src| == out.Length && WordFits(k, 128) && l < |q|
      ensures !ok ==> out[..] == old(out[..])
      ensures ok ==> forall j :: 0 <= j < |src| ==>
                       out[j] == Wrap(UpSum(src[j], q[l], qDivTModQi[l], qModT, k), 128) % q[l]
    {
      hide Cong, Unit, ModMul, Punctured, Pow, Wrap, Tables, UpSum, LimbShift;
      ok := |src| == out.Length && WordFits(k, 128) && l < |q|;
      if !ok { return; }
      TablesPositive(q, gamma, Pow(2, k), gammaTModQ, invPunctured);
      for j := 0 to |src|
        invariant forall b :: 0 <= b < j ==>
                    out[b] == Wrap(UpSum(src[b], q[l], qDivTModQi[l], qModT, k), 128) % q[l]
      {
        var x := src[j];
        var u := ModMul(x % q[l], qDivTModQi[l], q[l]);
        var rs := LimbShift(x, qModT, tHalf, k);
        LimbPath(x, qModT, k, u, rs, q[l], qDivTModQi[l]);
        out[j] := Wrap(u + rs, 128) % q[l];
      }
    }

    /** Residues modulo q_l of the signed value of every word: above t/2 stands for negative. Words need
        not be below t. */
    method CenteralizeAt(src: seq<int>, l: nat, out: array<int>, w: nat) returns (ok: bool)
      requires Valid()
      requires forall j :: 0 <= j < |src| ==> 0 <= src[j]
      modifies out
      ensures ok <==> |src| == out.Length && WordFits(k, w) && l < |q|
      ensures !ok ==> out[..] == old(out[..])
      ensures ok ==> forall j :: 0 <= j < |src| ==> out[j] == SignedWord(src[j], k) % q[l]
    {
      hide Cong, Unit, Punctured, Pow, Wrap, Tables;
      ok := |src| == out.Length && WordFits(k, w) && l < |q|;
      if !ok { return; }
      TablesPositive(q, gamma, Pow(2, k), gammaTModQ, invPunctured);
      for j := 0 to |src|
        invariant forall b :: 0 <= b < j ==> out[b] == SignedWord(src[b], k) % q[l]
      {
        var x := src[j];
        if x > tHalf {
          var u := Wrap(-x, 128) % Pow(2, k) % q[l];
          out[j] := if u == 0 then 0 else q[l] - u;
          NegatedWord(x, k, q[l], u);
        } else {
          out[j] := x % q[l];
        }
      }
    }

    /** The modulus-up word is right exactly when its final sum fits the word. */
    lemma UpExact(x: int, l: nat, bits: nat)
      requires Valid() && l < |q| && 63 <= bits && k <= bits && 0 <= x < Pow(2, bits)
      ensures Wrap(UpSum(x, q[l], qDivTModQi[l], qModT, k), bits) % q[l] == RoundDiv(Prod(q) * x, Pow(2, k)) % q[l]
         <==> UpSum(x, q[l], qDivTModQi[l], qModT, k) < Pow(2, bits)
    {
      hide Cong, Unit, ModMul, Punctured, Pow, Wrap, UpSum, RoundDiv;
      UpSumRange(x, q[l], qDivTModQi[l], qModT, k);
      PowMonotone(2, 63, bits);
      UpSumCong(x, Prod(q), q[l], qDivTModQi[l], k);
      UpWrapExact(UpSum(x, q[l], qDivTModQi[l], qModT, k), RoundDiv(Prod(q) * x, Pow(2, k)), q[l], bits);
    }

    /** With a bit to spare in the word it always fits. */
    lemma UpFits(x: int, l: nat, bits: nat)
      requires Valid() && l < |q| && 64 <= bits && k < bits && 0 <= x < Pow(2, k)
      ensures UpSum(x, q[l], qDivTModQi[l], qModT, k) < Pow(2, bits)
    {
      hide Cong, Unit, ModMul, Punctured, Pow, UpSum;
      UpSumRange(x, q[l], qDivTModQi[l], qModT, k);
      PowMonotone(2, 63, bits - 1);
      PowMonotone(2, k, bits - 1);
      PowHalf(bits);
    }

    /** Up, noise, down: if the residues are those of round(Q*m/t) + e for small noise e then
        modulus-down answers m. */
    lemma UpThenDown(m: int, e: int, r: seq<int>, o: int)
      requires Valid() && 0 <= m < Pow(2, k) && |r| == |q|
      requires Represents(RoundDiv(Prod(q) * m, Pow(2, k)) + e, r, q)
      requires gamma * (Pow(2, k) * (2 * Abs(e) + 1)) <= gamma * Prod(q) - 2 * (|q| * Prod(q))
      requires IsDown(o, r, q, gamma, Pow(2, k), gammaTModQ, invPunctured)
      ensures o == m
    {
      hide Cong, Unit, Punctured, Pow, RoundDiv, Represents, Down;
      PowHalf(k);
      UpDownTolerates(m, e, RoundDiv(Prod(q) * m, Pow(2, k)) + e, r, q, gamma, Pow(2, k - 1), gammaTModQ, invPunctured);
      CongRefl(m, Pow(2, k));
      ModIs(m, m, Pow(2, k));
    }
  }

  /** o is the modulus-down of every integer with residues r. */
  ghost predicate IsDown(o: int, r: seq<int>, q: seq<int>, gamma: int, t: int, g: seq<int>, inv: seq<int>)
    requires |r| == |g| == |inv| == |q| && gamma > 0 && t > 0 && forall l :: 0 <= l < |q| ==> q[l] > 1
  {
    forall x: int :: Represents(x, r, q) ==> o == Down(x, r, q, gamma, t, g, inv) % t
  }

  /** Q/q_l modulo 2^k, from limbs. */
  function PuncturedTable(c: Context, k: nat): (r: seq<int>)
    requires c.Valid() && 2 <= k <= 128
    ensures |r| == |c.q| && forall l :: 0 <= l < |r| ==> r[l] == Punctured(c.q, l) % Pow(2, k)
  {
    seq(|c.q|, l requires 0 <= l < |c.q| => ModLimbsRing2k(c.puncturedLimbs[l], k))
  }

  lemma UnitResidue(c: Context)
    requires c.Valid()
    ensures Unit(Prod(c.q) % c.gamma, c.gamma)
  {
    hide Cong;
    ProdUnit(c.q, c.gamma);
    CongMod(Prod(c.q), c.gamma);
    UnitCong(Prod(c.q), Prod(c.q) % c.gamma, c.gamma);
  }

  lemma ProdPositive(q: seq<int>)
    requires Base(q)
    ensures Prod(q) > 0
  {
  }

  lemma SmallQuotient(a: int, t: int)
    requires a >= 0 && t > 0
    ensures a < t ==> a / t == 0
  {
    if a < t { DivUnique(a, t, 0); }
  }

  lemma PuncturedUnits(q: seq<int>)
    requires Base(q)
    ensures forall l :: 0 <= l < |q| ==> Unit(Punctured(q, l), q[l])
  {
    forall l | 0 <= l < |q| ensures Unit(Punctured(q, l), q[l]) { PuncturedUnit(q, l); }
  }

  /** -Q^-1 and gamma^-1 modulo 2^k, from 64-bit or 128-bit inverses of the low words. */
  method InverseModT(c: Context, k: nat) returns (negInvQ: int, invGamma: int)
    requires c.Valid() && 2 <= k <= 128
    ensures Cong(negInvQ * Prod(c.q), -1, Pow(2, k)) && Cong(c.gamma * invGamma, 1, Pow(2, k))
  {
    hide Cong, Unit, Pow, Punctured, Prod, IsLimbs, Wrap;
    var t := Pow(2, k);
    ProdOdd(c.q);
    ghost var bigQ := Prod(c.q);
    if k <= 64 {
      var lo := c.prodLimbs[0];
      LowWord(c.prodLimbs, lo);
      var inv := InvU64(lo);
      negInvQ := Wrap(-inv, 64) % t;
      var invG := InvU64(c.gamma);
      invGamma := invG % t;
      MaskedInverse(inv, lo, bigQ, k, 64);
      CongRefl(c.gamma, Pow(2, 64));
      MaskedInverse(invG, c.gamma, c.gamma, k, 64);
    } else {
      var lo := c.prodLimbs[0] + Pow(2, 64) * (if |c.prodLimbs| > 1 then c.prodLimbs[1] else 0);
      LowTwoWords(c.prodLimbs, lo);
      var inv := InvU128(lo);
      negInvQ := Wrap(-inv, 128) % t;
      PowMonotone(2, 64, 128);
      var invG := InvU128(c.gamma);
      invGamma := invG % t;
      MaskedInverse(inv, lo, bigQ, k, 128);
      CongRefl(c.gamma, Pow(2, 128));
      MaskedInverse(invG, c.gamma, c.gamma, k, 128);
    }
  }

  lemma EmptySum(y: seq<int>, q: seq<int>, t: int)
    requires |y| == |q|
    ensures Cong(0, ConvSum(y, q, 0), t)
  {
    CongRefl(0, t);
  }

  /** Adding digit times wrapped factor in w-bit words advances the conversion sum modulo 2^k. */
  lemma AccumulateStep(acc: int, y: seq<int>, q: seq<int>, l: nat, d: int, punctured: int, k: nat, w: nat)
    requires |y| == |q| && l < |q| && k <= w && d == y[l] && punctured == Punctured(q, l) % Pow(2, k)
    requires Cong(acc, ConvSum(y, q, l), Pow(2, k))
    ensures Cong(Wrap(acc + Wrap(d, w) * Wrap(punctured, w), w), ConvSum(y, q, l + 1), Pow(2, k))
  {
    hide Cong, Punctured, Pow, Wrap;
    var t, p := Pow(2, k), Punctured(q, l);
    WrapWide(d, k, w);
    WrapWide(punctured, k, w);
    CongMod(p, t);
    CongTrans(Wrap(punctured, w), punctured, p, t);
    CongMul(Wrap(d, w), d, Wrap(punctured, w), p, t);
    CongAdd(acc, ConvSum(y, q, l), Wrap(d, w) * Wrap(punctured, w), d * p, t);
    var s := acc + Wrap(d, w) * Wrap(punctured, w);
    WrapWide(s, k, w);
    CongTrans(Wrap(s, w), s, ConvSum(y, q, l + 1), t);
  }

  lemma MaskedProduct(a: int, s: int, neg: int, k: nat)
    requires k <= 128 && Cong(a, s, Pow(2, k))
    ensures Cong(Wrap(a * neg, 128) % Pow(2, k), s * neg, Pow(2, k))
  {
    hide Cong, Pow, Wrap;
    var t := Pow(2, k);
    CongRefl(neg, t);
    CongMul(a, s, neg, neg, t);
    WrapWide(a * neg, k, 128);
    CongMod(Wrap(a * neg, 128), t);
    CongTrans(Wrap(a * neg, 128) % t, Wrap(a * neg, 128), a * neg, t);
    CongTrans(Wrap(a * neg, 128) % t, a * neg, s * neg, t);
  }

  lemma CorrectWord(r: seq<int>, q: seq<int>, gamma: int, k: nat, g: seq<int>, inv: seq<int>, negGamma: int, negT: int,
                    invGamma: int, onGamma: int, onT: int, wide: nat, o: int)
    requires Tables(q, gamma, Pow(2, k), g, inv) && |r| == |q| && k <= wide && k <= 128
    requires Cong(negGamma * Prod(q), -1, gamma) && Cong(negT * Prod(q), -1, Pow(2, k))
    requires Cong(gamma * invGamma, 1, Pow(2, k))
    requires onGamma == ModMul(ConvSum(Digits(r, g, inv, q), q, |q|) % gamma, negGamma, gamma)
    requires Cong(onT, ConvSum(Digits(r, g, inv, q), q, |q|) * negT, Pow(2, k))
    requires o == Wrap(Wrap(onT - (if onGamma > gamma / 2 then onGamma - gamma else onGamma), wide) * invGamma, 128)
                  % Pow(2, k)
    ensures IsDown(o, r, q, gamma, Pow(2, k), g, inv)
  {
    hide Cong, Unit, ModMul, Punctured, ConvSum, Pow, Wrap, Digits, Down;
    var t, s := Pow(2, k), ConvSum(Digits(r, g, inv, q), q, |q|);
    CongMod(s, gamma);
    CongRefl(negGamma, gamma);
    CongMul(s % gamma, s, negGamma, negGamma, gamma);
    CongTrans(onGamma, (s % gamma) * negGamma, s * negGamma, gamma);
    var d := onT - (if onGamma > gamma / 2 then onGamma - gamma else onGamma);
    WrapWide(d, k, wide);
    MaskedProduct(Wrap(d, wide), d, invGamma, k);
    forall x: int | Represents(x, r, q)
      ensures o == Down(x, r, q, gamma, t, g, inv) % t
    {
      DownWord(x, r, q, gamma, t, g, inv, negGamma, negT, invGamma, onGamma, onT, o);
    }
  }

  // ------------------------------------------------------------------ modulus up

  lemma TablesPositive(q: seq<int>, gamma: int, t: int, g: seq<int>, inv: seq<int>)
    requires Tables(q, gamma, t, g, inv)
    ensures |g| == |inv| == |q| && gamma > 0 && t > 0 && forall l :: 0 <= l < |q| ==> q[l] > 1
  {
  }

  /** The signed number a word stands for; 2^(k-1) itself stays positive. */
  function SignedWord(x: int, k: nat): int
    requires k > 0
  {
    if x > Pow(2, k - 1) then -((-x) % Pow(2, k)) else x
  }

  /** It is the word modulo 2^k, and for words below 2^k the representative in (-2^(k-1), 2^(k-1)]. */
  lemma SignedWordIs(x: int, k: nat)
    requires k > 0 && x >= 0
    ensures Cong(SignedWord(x, k), x, Pow(2, k))
    ensures x < Pow(2, k) ==> -Pow(2, k - 1) < SignedWord(x, k) <= Pow(2, k - 1)
    ensures Pow(2, k - 1) < x < Pow(2, k) ==> SignedWord(x, k) == x - Pow(2, k)
    ensures if x <= Pow(2, k - 1) then SignedWord(x, k) == x else -Pow(2, k) < SignedWord(x, k) <= 0
  {
    hide Cong, Pow;
    var t := Pow(2, k);
    PowHalf(k);
    CongRefl(x, t);
    CongMod(-x, t);
    CongRefl(0, t);
    CongSub(0, 0, (-x) % t, -x, t);
    if Pow(2, k - 1) < x < t {
      CongIntro(-x, t - x, t, -1);
      ModIs(-x, t - x, t);
    }
  }

  lemma NegatedWord(x: int, k: nat, q: int, u: int)
    requires 0 < k <= 128 && q > 0 && x >= 0 && u == Wrap(-x, 128) % Pow(2, k) % q
    ensures (if u == 0 then 0 else q - u) == (-((-x) % Pow(2, k))) % q
  {
    hide Cong, Pow, Wrap;
    var t, n := Pow(2, k), Wrap(-x, 128);
    WrapWide(-x, k, 128);
    ModFromCong(n, -x, t);
    var v := n % t;
    CongMod(v, q);
    CongSub(0, 0, v, u, q) by { CongRefl(0, q); }
    var o := if u == 0 then 0 else q - u;
    CongIntro(-u, o, q, if u == 0 then 0 else -1);
    CongTrans(-v, -u, o, q);
    ModIs(-v, o, q);
  }

  /** The rounded low part never exceeds x. */
  lemma LowPart(x: int, m: int, h: int)
    requires x >= 0 && h > 0 && 0 <= m < 2 * h
    ensures 0 <= (m * x + h) / (2 * h) <= x
    ensures 0 <= m * x <= (2 * h - 1) * x
  {
    MulLe(m, 2 * h - 1, x);
    MulLe(0, m, x);
    DivMod(m * x + h, 2 * h);
    var v := (m * x + h) / (2 * h);
    assert (2 * h - 1) * x == 2 * h * x - x;
    assert (x + 1) * (2 * h) == 2 * h * x + 2 * h;
    if v > x { MulLe(x + 1, v, 2 * h); }
    if v < 0 { MulLe(v, -1, 2 * h); }
  }

  lemma UpSumRange(x: int, q: int, qDivT: int, qModT: int, k: nat)
    requires q > 0 && k > 0 && x >= 0 && 0 <= qModT < Pow(2, k)
    ensures 0 <= UpSum(x, q, qDivT, qModT, k) < q + x
  {
    hide Pow, ModMul;
    PowHalf(k);
    LowPart(x, qModT, Pow(2, k - 1));
  }

  lemma WrapSmall(x: int, bits: nat)
    requires 0 <= x < Pow(2, bits)
    ensures Wrap(x, bits) == x
  {
    CongRefl(x, Pow(2, bits));
    ModIs(x, x, Pow(2, bits));
  }

  lemma ProductFits(m: int, x: int, h: int, k: nat, w: nat, bits: nat)
    requires k > 0 && 0 <= m < Pow(2, k) && 0 <= x < Pow(2, w) && h == Pow(2, k - 1) && k + w <= bits && w > 0
    ensures 0 <= m * x && m * x + h < Pow(2, bits)
  {
    hide Pow;
    var t, b := Pow(2, k), Pow(2, w);
    PowHalf(k);
    PowAtLeastBase(2, w);
    MulLe(0, m, x);
    MulLe(m, t - 1, x);
    MulLe(x, b - 1, t - 1);
    assert (t - 1) * x == x * (t - 1);
    assert (b - 1) * (t - 1) == t * b - t - b + 1;
    PowAdd(2, k, w);
    PowMonotone(2, k + w, bits);
  }

  /** (Q mod t) x + t/2 in a 128-bit word, shifted and cast to a w-bit word. */
  function ScalarShift(x: int, qModT: int, tHalf: int, k: nat, w: nat): int
  {
    Wrap(Wrap(qModT * x + tHalf, 128) / Pow(2, k), w)
  }

  /** The same in four limbs: multiply, add, drop the low limb, shift by k - 64, keep two limbs. */
  function LimbShift(x: int, qModT: int, tHalf: int, k: nat): int
    requires k >= 64
  {
    var mul := Wrap(qModT * x, 256);
    var sum := Wrap(mul + tHalf, 256);
    Wrap(sum / Pow(2, 64) / Pow(2, k - 64), 128)
  }

  lemma ScalarPath(x: int, qModT: int, k: nat, w: nat, u: int, v: int, q: int, qDivT: int)
    requires q > 0 && 0 < k <= w <= 64 && 0 <= x < Pow(2, w) && 0 <= qModT < Pow(2, k)
    requires u == ModMul(x % q, qDivT, q)
    requires v == ScalarShift(x, qModT, Pow(2, k - 1), k, w)
    ensures u + v == UpSum(x, q, qDivT, qModT, k)
  {
    hide Pow, ModMul, Wrap;
    ProductFits(qModT, x, Pow(2, k - 1), k, w, 128);
    WrapSmall(qModT * x + Pow(2, k - 1), 128);
    PowHalf(k);
    LowPart(x, qModT, Pow(2, k - 1));
    WrapSmall((qModT * x + Pow(2, k - 1)) / Pow(2, k), w);
  }

  lemma DivDiv(a: int, b: int, c: int)
    requires b > 0 && c > 0
    ensures b * c > 0 && a / b / c == a / (b * c)
  {
    var p := a / b;
    DivMod(a, b);
    DivMod(p, c);
    var d := p / c;
    MixedRadix(p % c, a % b, b, c);
    assert (d * c + p % c) * b == d * (b * c) + p % c * b;
    DivUnique(a, b * c, d);
  }

  /** Dropping the low limb and shifting the remaining 192 bits by k - 64 divides by 2^k. */
  lemma LimbPath(x: int, qModT: int, k: nat, u: int, rs: int, q: int, qDivT: int)
    requires q > 0 && 64 < k <= 128 && 0 <= x < Pow(2, 128) && 0 <= qModT < Pow(2, k)
    requires u == ModMul(x % q, qDivT, q)
    requires rs == LimbShift(x, qModT, Pow(2, k - 1), k)
    ensures u + rs == UpSum(x, q, qDivT, qModT, k)
  {
    hide Pow, ModMul, Wrap;
    var h := Pow(2, k - 1);
    ProductFits(qModT, x, h, k, 128, 256);
    WrapSmall(qModT * x, 256);
    WrapSmall(qModT * x + h, 256);
    DivDiv(qModT * x + h, Pow(2, 64), Pow(2, k - 64));
    PowAdd(2, 64, k - 64);
    PowHalf(k);
    LowPart(x, qModT, h);
    WrapSmall((qModT * x + h) / Pow(2, k), 128);
  }

  lemma Pow64()
    ensures Pow(2, 64) == 0x1_0000_0000_0000_0000 && Pow(2, 63) == 0x8000_0000_0000_0000
  {
    assert Pow(2, 8) == 256;
    assert Pow(2, 7) == 128;
    PowAdd(2, 8, 8);
    PowAdd(2, 8, 7);
    PowAdd(2, 16, 16);
    PowAdd(2, 16, 15);
    PowAdd(2, 32, 32);
    PowAdd(2, 32, 31);
  }
}
