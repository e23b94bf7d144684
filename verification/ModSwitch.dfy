/** Modulus switching between Z_Q in residue form and Z_2^k. */
module ModSwitch {
  import opened Arith
  import opened NumberTheory
  import opened BigNum
  import opened Rns
  import opened Rounding
  import opened TwoAdic

  // ------------------------------------------------------------------ specification

  /** The digits of fast base conversion after scaling by g: r[l] * g * inv[l] modulo q[l]. */
  function Digits(r: seq<int>, g: seq<int>, inv: seq<int>, q: seq<int>): (y: seq<int>)
    requires |r| == |g| == |inv| == |q| && forall l :: 0 <= l < |q| ==> q[l] > 1
    ensures |y| == |q| && forall l :: 0 <= l < |q| ==> 0 <= y[l] < q[l]
  {
    seq(|q|, l requires 0 <= l < |q| => ModMul(ModMul(r[l], g[l], q[l]), inv[l], q[l]))
  }

  /** The constants SEAL and Init provide for moduli q, auxiliary prime gamma and plain modulus t. */
  ghost predicate Tables(q: seq<int>, gamma: int, t: int, g: seq<int>, inv: seq<int>)
  {
    && Base(q) && gamma > 2 * |q| && gamma % 2 == 1 && t > 0
    && |g| == |q| && (forall l :: 0 <= l < |q| ==> Cong(g[l], gamma * t, q[l]))
    && |inv| == |q| && (forall l :: 0 <= l < |q| ==> Cong(Punctured(q, l) * inv[l], 1, q[l]))
  }

  /** How many multiples of Q the conversion of r overshoots by. */
  function Overshoot(r: seq<int>, q: seq<int>, g: seq<int>, inv: seq<int>): int
    requires |r| == |g| == |inv| == |q| && forall l :: 0 <= l < |q| ==> q[l] > 1
  {
    ConvSum(Digits(r, g, inv, q), q, |q|) / Prod(q)
  }

  /** The integer that modulus-down computes, before reduction modulo t, for x with residues r. */
  function Down(x: int, r: seq<int>, q: seq<int>, gamma: int, t: int, g: seq<int>, inv: seq<int>): int
    requires |r| == |g| == |inv| == |q| && gamma > 0 && forall l :: 0 <= l < |q| ==> q[l] > 1
  {
    RoundDiv(Scaled(t * x, Prod(q), gamma, Overshoot(r, q, g, inv)), gamma)
  }

  // ------------------------------------------------------------------ modulus down

  lemma OvershootRange(r: seq<int>, q: seq<int>, gamma: int, t: int, g: seq<int>, inv: seq<int>)
    requires Tables(q, gamma, t, g, inv) && |r| == |q|
    ensures 0 <= Overshoot(r, q, g, inv) < |q|
  {
    hide Cong, Unit, Punctured;
    var s, bigQ := ConvSum(Digits(r, g, inv, q), q, |q|), Prod(q);
    ConvSumBound(Digits(r, g, inv, q), q, |q|);
    DivRange(s, bigQ, |q|);
  }

  lemma DivRange(s: int, m: int, l: int)
    requires m > 0 && 0 <= s < l * m
    ensures 0 <= s / m < l
  {
    DivMod(s, m);
    if s / m >= l { MulLe(l, s / m, m); }
    if s / m < 0 { MulLe(s / m, -1, m); }
  }

  lemma DigitTimes(r: int, g: int, inv: int, p: int, c: int, q: int)
    requires q > 0 && Cong(g, c, q) && Cong(p * inv, 1, q)
    ensures Cong(ModMul(ModMul(r, g, q), inv, q) * p, r * c, q)
  {
    hide Cong, ModMul;
    var a := ModMul(r, g, q);
    var b := ModMul(a, inv, q);
    CongRefl(r, q);
    CongMul(r, r, g, c, q);
    CongTrans(a, r * g, r * c, q);
    CongRefl(p, q);
    CongMul(b, a * inv, p, p, q);
    CongMul(a, r * c, p * inv, 1, q);
    assert (a * inv) * p == a * (p * inv);
    CongTrans(b * p, a * (p * inv), r * c, q);
  }

  /** Scaled by residues of c, the conversion sum is c*x modulo Q. */
  lemma ScaledSum(x: int, r: seq<int>, q: seq<int>, c: int, g: seq<int>, inv: seq<int>)
    requires Base(q) && Represents(x, r, q) && |r| == |g| == |inv| == |q|
    requires forall l :: 0 <= l < |q| ==> Cong(g[l], c, q[l])
    requires forall l :: 0 <= l < |q| ==> Cong(Punctured(q, l) * inv[l], 1, q[l])
    ensures Cong(ConvSum(Digits(r, g, inv, q), q, |q|), c * x, Prod(q))
  {
    hide Cong, Unit, Punctured, ModMul, Prod;
    var y := Digits(r, g, inv, q);
    forall l | 0 <= l < |q|
      ensures Cong(y[l] * Punctured(q, l), r[l] * c, q[l])
    {
      DigitTimes(r[l], g[l], inv[l], Punctured(q, l), c, q[l]);
    }
    ConvSumCong(y, r, q, c, x);
  }

  /** The conversion sum is gamma*t*x - Q*v, with v the overshot floor of gamma*t*x/Q. */
  lemma ConvSumIs(x: int, r: seq<int>, q: seq<int>, gamma: int, t: int, g: seq<int>, inv: seq<int>)
    requires Tables(q, gamma, t, g, inv) && Represents(x, r, q) && |r| == |q|
    ensures ConvSum(Digits(r, g, inv, q), q, |q|)
         == gamma * (t * x) - Prod(q) * Scaled(t * x, Prod(q), gamma, Overshoot(r, q, g, inv))
  {
    hide Cong, Unit, Punctured, Digits, Represents, ConvSum;
    ScaledSum(x, r, q, gamma * t, g, inv);
    MulAssoc(gamma, t, x);
    SplitSum(ConvSum(Digits(r, g, inv, q), q, |q|), gamma * (t * x), Prod(q));
  }

  lemma SplitSum(s: int, n: int, m: int)
    requires m > 0 && Cong(s, n, m)
    ensures s == n - m * (n / m - s / m)
  {
    ModFromCong(s, n, m);
    DivMod(s, m);
    DivMod(n, m);
    assert m * (n / m - s / m) == (n / m) * m - (s / m) * m;
  }

  /** Multiplying the converted sum by -Q^-1 leaves v, modulo any divisor-free modulus. */
  lemma CancelQ(s: int, w: int, v: int, bigQ: int, neg: int, c: int, m: int)
    requires m > 0 && s == w - bigQ * v && Cong(w, 0, m) && Cong(neg * bigQ, -1, m) && Cong(c, s * neg, m)
    ensures Cong(c, v, m)
  {
    hide Cong;
    CongRefl(neg, m);
    CongMul(w, 0, neg, neg, m);
    CongRefl(v, m);
    CongMul(neg * bigQ, -1, v, v, m);
    CongSub(w * neg, 0, (neg * bigQ) * v, -v, m);
    CancelArith(w, bigQ, v, neg);
    CongTrans(c, s * neg, v, m);
  }

  lemma CancelArith(w: int, bigQ: int, v: int, neg: int)
    ensures (w - bigQ * v) * neg == w * neg - (neg * bigQ) * v
  {
    assert (bigQ * v) * neg == (neg * bigQ) * v;
    assert (w - bigQ * v) * neg == w * neg - (bigQ * v) * neg;
  }

  /** From the gamma and t residues of v to the rounded result modulo t. */
  lemma Correction(onGamma: int, onT: int, v: int, gamma: int, t: int, invGamma: int, o: int)
    requires gamma > 0 && gamma % 2 == 1 && t > 0 && 0 <= o < t
    requires 0 <= onGamma < gamma && Cong(onGamma, v, gamma) && Cong(onT, v, t)
    requires Cong(gamma * invGamma, 1, t)
    requires Cong(o, (onT - (if onGamma > gamma / 2 then onGamma - gamma else onGamma)) * invGamma, t)
    ensures o == RoundDiv(v, gamma) % t
  {
    hide Cong, RoundDiv;
    CongSym(onGamma, v, gamma);
    ModIs(v, onGamma, gamma);
    CentredResidue(v, gamma);
    var c, k := if onGamma > gamma / 2 then onGamma - gamma else onGamma, RoundDiv(v, gamma);
    CongRefl(c, t);
    CongSub(onT, v, c, c, t);
    CongRefl(invGamma, t);
    CongMul(onT - c, v - c, invGamma, invGamma, t);
    CongRefl(k, t);
    CongMul(k, k, gamma * invGamma, 1, t);
    assert (gamma * k) * invGamma == k * (gamma * invGamma);
    CongTrans(o, (onT - c) * invGamma, k * (gamma * invGamma), t);
    CongTrans(o, k * (gamma * invGamma), k, t);
    CongSym(o, k, t);
    ModIs(k, o, t);
  }

  /** One output word: the two converted residues of the same sum, corrected. */
  lemma DownWord(x: int, r: seq<int>, q: seq<int>, gamma: int, t: int, g: seq<int>, inv: seq<int>,
                 negGamma: int, negT: int, invGamma: int, onGamma: int, onT: int, o: int)
    requires Tables(q, gamma, t, g, inv) && Represents(x, r, q) && |r| == |q|
    requires Cong(negGamma * Prod(q), -1, gamma) && Cong(negT * Prod(q), -1, t) && Cong(gamma * invGamma, 1, t)
    requires 0 <= onGamma < gamma && 0 <= o < t
    requires Cong(onGamma, ConvSum(Digits(r, g, inv, q), q, |q|) * negGamma, gamma)
    requires Cong(onT, ConvSum(Digits(r, g, inv, q), q, |q|) * negT, t)
    requires Cong(o, (onT - (if onGamma > gamma / 2 then onGamma - gamma else onGamma)) * invGamma, t)
    ensures o == Down(x, r, q, gamma, t, g, inv) % t
  {
    hide Cong, Unit, Punctured, RoundDiv, Scaled, Overshoot, Digits, Represents, ConvSum;
    ConvSumIs(x, r, q, gamma, t, g, inv);
    FromSum(ConvSum(Digits(r, g, inv, q), q, |q|), t, x, Scaled(t * x, Prod(q), gamma, Overshoot(r, q, g, inv)),
            Prod(q), gamma, negGamma, negT, invGamma, onGamma, onT, o);
  }

  lemma FromSum(s: int, t: int, x: int, v: int, bigQ: int, gamma: int, negGamma: int, negT: int, invGamma: int,
                onGamma: int, onT: int, o: int)
    requires gamma > 0 && gamma % 2 == 1 && t > 0 && s == gamma * (t * x) - bigQ * v
    requires Cong(negGamma * bigQ, -1, gamma) && Cong(negT * bigQ, -1, t) && Cong(gamma * invGamma, 1, t)
    requires 0 <= onGamma < gamma && 0 <= o < t
    requires Cong(onGamma, s * negGamma, gamma) && Cong(onT, s * negT, t)
    requires Cong(o, (onT - (if onGamma > gamma / 2 then onGamma - gamma else onGamma)) * invGamma, t)
    ensures o == RoundDiv(v, gamma) % t
  {
    hide Cong, RoundDiv;
    var w := gamma * (t * x);
    BothDivide(gamma, t, x);
    CancelQ(s, w, v, bigQ, negGamma, onGamma, gamma);
    CancelQ(s, w, v, bigQ, negT, onT, t);
    Correction(onGamma, onT, v, gamma, t, invGamma, o);
  }

  lemma BothDivide(gamma: int, t: int, x: int)
    ensures Cong(gamma * (t * x), 0, gamma) && Cong(gamma * (t * x), 0, t)
  {
    CongIntro(gamma * (t * x), 0, gamma, t * x);
    assert gamma * (t * x) == (gamma * x) * t;
    CongIntro(gamma * (t * x), 0, t, gamma * x);
  }

  /** Modulus-down is the nearest integer to t*x/Q, or one less. With f the fraction of t*x/Q times Q, it is the
      nearest integer exactly when f is below Q/2 or when floor(gamma*f/Q) less the overshoot still exceeds
      gamma/2; so it is right whenever f is not within L/gamma above a half. */
  lemma DownNearest(x: int, r: seq<int>, q: seq<int>, gamma: int, t: int, g: seq<int>, inv: seq<int>)
    requires Tables(q, gamma, t, g, inv) && Represents(x, r, q) && |r| == |q|
    ensures var k, n, f := Down(x, r, q, gamma, t, g, inv), RoundDiv(t * x, Prod(q)), (t * x) % Prod(q);
            && (k == n || k == n - 1)
            && (k == n <==> 2 * f < Prod(q) || 2 * ((gamma * f) / Prod(q) - Overshoot(r, q, g, inv)) > gamma)
            && (2 * f < Prod(q) || 2 * (gamma * f) >= gamma * Prod(q) + 2 * (|q| * Prod(q)) ==> k == n)
  {
    hide Cong, Unit, RoundDiv, Scaled, Overshoot;
    OvershootRange(r, q, gamma, t, g, inv);
    var a, f := Overshoot(r, q, g, inv), (t * x) % Prod(q);
    RoundingExact(t * x, Prod(q), gamma, a, |q|);
    if 2 * (gamma * f) >= gamma * Prod(q) + 2 * (|q| * Prod(q)) {
      NearestOutsideWindow(f, Prod(q), gamma, a, |q|);
    }
  }

  /** With odd moduli whose product exceeds gamma there is always an integer that comes out one too small: the one
      whose fraction is (Q + 1)/2Q. */
  lemma DownMisses(q: seq<int>, gamma: int, k: nat, g: seq<int>, inv: seq<int>) returns (x: int, r: seq<int>)
    requires Tables(q, gamma, Pow(2, k), g, inv) && Prod(q) % 2 == 1 && gamma < Prod(q)
    ensures 0 <= x < Prod(q) && Represents(x, r, q) && |r| == |q|
    ensures Down(x, r, q, gamma, Pow(2, k), g, inv) == RoundDiv(Pow(2, k) * x, Prod(q)) - 1
  {
    hide Cong, Unit, RoundDiv, Scaled, Overshoot, Pow, Down;
    var t, bigQ := Pow(2, k), Prod(q);
    var f := (bigQ + 1) / 2;
    OddUnit(bigQ);
    UnitPow(2, k, bigQ);
    x := ModMul(InvMod(t, bigQ), f, bigQ);
    SolvesFor(t, InvMod(t, bigQ), f, bigQ, x);
    r := Residues(x, q);
    OvershootRange(r, q, gamma, t, g, inv);
    JustAboveHalf(f, gamma);
    DownNearest(x, r, q, gamma, t, g, inv);
  }

  /** The smallest case: 4*2/15 is nearest to 1 and comes out 0. */
  lemma DownExample()
    ensures var q, g, inv, r := [3, 5], [1, 3], [2, 2], [2, 2];
            && Tables(q, 7, 4, g, inv) && Represents(2, r, q)
            && Down(2, r, q, 7, 4, g, inv) == 0 && RoundDiv(4 * 2, Prod(q)) == 1
  {
    var q, g, inv, r := [3, 5], [1, 3], [2, 2], [2, 2];
    ExampleTables();
    assert Represents(2, r, q) by { CongRefl(2, 3); CongRefl(2, 5); }
    hide Cong, Tables;
    assert Digits(r, g, inv, q) == [1, 2];
    assert ConvSum([1, 2], q, 2) == ConvSum([1, 2], q, 1) + 2 * 3 == 0 + 1 * 5 + 2 * 3;
  }

  lemma ExampleTables()
    ensures var q := [3, 5];
            Tables(q, 7, 4, [1, 3], [2, 2]) && Punctured(q, 0) == 5 && Punctured(q, 1) == 3 && Prod(q) == 15
  {
    hide Cong;
    var q := [3, 5];
    assert q[1..] == [5] && q[..0] == [] && q[..1] == [3] && q[2..] == [];
    assert Prod([5]) == 5 * Prod([]) && Prod([3]) == 3 * Prod([]) && Prod(q) == 3 * Prod([5]);
    CongIntro(3 * 2, 1, 5, 1);
    UnitIntro(3, 2, 5);
    CongIntro(5 * 2, 1, 3, 3);
    UnitIntro(5, 2, 3);
    hide Unit;
    CongIntro(1, 7 * 4, 3, -9);
    CongIntro(3, 7 * 4, 5, -5);
  }

  lemma SolvesFor(t: int, i: int, f: int, m: int, x: int)
    requires m > 0 && Cong(t * i, 1, m) && 0 <= f < m && Cong(x, i * f, m)
    ensures (t * x) % m == f
  {
    hide Cong;
    CongRefl(t, m);
    CongMul(t, t, x, i * f, m);
    CongRefl(f, m);
    CongMul(t * i, 1, f, f, m);
    MulAssoc(t, i, f);
    CongTrans(t * x, t * (i * f), f, m);
    ModIs(t * x, f, m);
  }

  function Residues(x: int, q: seq<int>): (r: seq<int>)
    requires forall l :: 0 <= l < |q| ==> q[l] > 1
    ensures Represents(x, r, q)
  {
    OwnRemainders(x, q);
    seq(|q|, l requires 0 <= l < |q| => x % q[l])
  }

  /** Scaling up, adding noise and scaling down gives the message back:
      t (2|e| + 1) gamma <= Q (gamma - 2L) is enough. */
  lemma UpDownTolerates(m: int, e: int, x: int, r: seq<int>, q: seq<int>, gamma: int, h: int, g: seq<int>, inv: seq<int>)
    requires h > 0 && Tables(q, gamma, 2 * h, g, inv) && Represents(x, r, q) && |r| == |q|
    requires x == RoundDiv(Prod(q) * m, 2 * h) + e
    requires gamma * (2 * h * (2 * Abs(e) + 1)) <= gamma * Prod(q) - 2 * (|q| * Prod(q))
    ensures Down(x, r, q, gamma, 2 * h, g, inv) == m
  {
    hide Cong, Unit, RoundDiv, Scaled, Overshoot, Represents;
    var t, bigQ := 2 * h, Prod(q);
    OvershootRange(r, q, gamma, t, g, inv);
    NoiseBound(m, e, x, bigQ, h);
    var d := t * x - m * bigQ;
    MulLe(2 * d, t * (2 * Abs(e) + 1), gamma);
    MulLe(-2 * d, t * (2 * Abs(e) + 1), gamma);
    Commute(d, gamma, t * (2 * Abs(e) + 1));
    RoundsTo(t * x, bigQ, gamma, Overshoot(r, q, g, inv), |q|, m);
  }

  function Abs(e: int): int
  {
    if e < 0 then -e else e
  }

  lemma Commute(d: int, gamma: int, b: int)
    ensures (2 * d) * gamma == 2 * (gamma * d) && (-2 * d) * gamma == -2 * (gamma * d) && b * gamma == gamma * b
  {
  }

  /** |t*x - m*Q| <= t(|e| + 1/2) for x = round(Q*m/t) + e. */
  lemma NoiseBound(m: int, e: int, x: int, bigQ: int, h: int)
    requires h > 0 && x == RoundDiv(bigQ * m, 2 * h) + e
    ensures var d := 2 * h * x - m * bigQ; -(2 * h * (2 * Abs(e) + 1)) <= 2 * d <= 2 * h * (2 * Abs(e) + 1)
  {
    hide RoundDiv;
    var t, u := 2 * h, RoundDiv(bigQ * m, 2 * h);
    RoundDivBounds(bigQ * m, t);
    NoiseArith(t, u, e, Abs(e));
    MulLe(e, Abs(e), t);
    MulLe(-Abs(e), e, t);
  }

  lemma NoiseArith(t: int, u: int, e: int, a: int)
    ensures t * (u + e) == t * u + e * t && 2 * t * u == 2 * (t * u)
    ensures t * (2 * a + 1) == 2 * (a * t) + t && (-a) * t == -(a * t)
  {
  }

  // ------------------------------------------------------------------ modulus up

  /** u + v of the modulus-up step: (x mod q)(Q div t) mod q plus round((Q mod t) x / t). */
  function UpSum(x: int, q: int, qDivT: int, qModT: int, k: nat): int
    requires q > 0 && k > 0
  {
    ModMul(x % q, qDivT, q) + (qModT * x + Pow(2, k - 1)) / Pow(2, k)
  }

  lemma HalfUp(a: int, h: int)
    requires h > 0
    ensures RoundDiv(a, 2 * h) == (a + h) / (2 * h)
  {
    var k := (a + h) / (2 * h);
    DivMod(a + h, 2 * h);
    assert 2 * (2 * h) * k == 2 * (k * (2 * h));
    RoundDivUnique(a, 2 * h, k);
  }

  /** Splitting Q as (Q div t) t + (Q mod t) loses nothing: the sum is round(Q*x/t) modulo q. */
  lemma UpSumCong(x: int, bigQ: int, q: int, qDivT: int, k: nat)
    requires q > 0 && k > 0 && Cong(qDivT, bigQ / Pow(2, k), q)
    ensures Cong(UpSum(x, q, qDivT, bigQ % Pow(2, k), k), RoundDiv(bigQ * x, Pow(2, k)), q)
  {
    hide Cong, Pow, RoundDiv, ModMul;
    var t, h := Pow(2, k), Pow(2, k - 1);
    PowHalf(k);
    ReducedProduct(x, qDivT, bigQ / t, q);
    SplitQuotient(bigQ, x, h, t);
    var v := (bigQ % t * x + h) / t;
    CongRefl(v, q);
    CongAdd(ModMul(x % q, qDivT, q), x * (bigQ / t), v, v, q);
  }

  lemma ReducedProduct(x: int, a: int, d: int, q: int)
    requires q > 0 && Cong(a, d, q)
    ensures Cong(ModMul(x % q, a, q), x * d, q)
  {
    hide Cong, ModMul;
    CongMod(x, q);
    CongMul(x % q, x, a, d, q);
    CongTrans(ModMul(x % q, a, q), (x % q) * a, x * d, q);
  }

  lemma SplitQuotient(bigQ: int, x: int, h: int, t: int)
    requires h > 0 && t == 2 * h
    ensures RoundDiv(bigQ * x, t) == (bigQ % t * x + h) / t + x * (bigQ / t)
  {
    hide RoundDiv;
    var d, m := bigQ / t, bigQ % t;
    DivMod(bigQ, t);
    SplitProduct(d, t, m, x, h);
    HalfUp(bigQ * x, h);
    AddMultiple(m * x + h, x * d, t);
  }

  lemma SplitProduct(d: int, t: int, m: int, x: int, h: int)
    ensures (d * t + m) * x + h == (m * x + h) + (x * d) * t
  {
    assert (d * t) * x == (x * d) * t;
    assert (d * t + m) * x == (d * t) * x + m * x;
  }

  lemma AddMultiple(a: int, k: int, t: int)
    requires t > 0
    ensures (a + k * t) / t == a / t + k
  {
    DivMod(a, t);
    assert (a / t + k) * t == (a / t) * t + k * t;
    DivUnique(a + k * t, t, a / t + k);
  }

  /** The word sum is right exactly when it does not wrap: an odd q never divides 2^bits. */
  lemma UpWrapExact(s: int, n: int, q: int, bits: nat)
    requires q > 1 && q % 2 == 1 && Cong(s, n, q) && 0 <= s < 2 * Pow(2, bits)
    ensures Wrap(s, bits) % q == n % q <==> s < Pow(2, bits)
  {
    hide Cong, Pow, Wrap;
    var w := Pow(2, bits);
    if s < w {
      CongClose(Wrap(s, bits), s, w);
      ModFromCong(s, n, q);
    } else {
      assert Cong(Wrap(s, bits), s - w, w) by {
        CongIntro(s, s - w, w, 1);
        CongTrans(Wrap(s, bits), s, s - w, w);
      }
      CongClose(Wrap(s, bits), s - w, w);
      if (s - w) % q == n % q {
        CongFromMod(s - w, n, q);
        CongSub(s, n, s - w, n, q);
        OddUnit(q);
        UnitPow(2, bits, q);
        UnitNotMultiple(w, q);
      }
    }
  }

  lemma OddUnit(q: int)
    requires q % 2 == 1
    ensures Unit(2, q)
  {
    CongIntro(2 * (q / 2 + 1), 1, q, 1);
    UnitIntro(2, q / 2 + 1, q);
  }
}
