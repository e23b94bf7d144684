/** LWE decryption and conversion of an LWE ciphertext to additive shares. */
module Sharing {
  import opened Arith
  import opened NumberTheory
  import opened Rns
  import opened Rounding
  import opened ModSwitch
  import opened ModSwitchHelper
  import opened LweWords
  import opened LweSample
  import opened LweCt

  /** The secret key rows: residues of the secret s. */
  ghost predicate SecretRows(sk: seq<seq<int>>, s: seq<int>, c: Context)
  {
    && |sk| == |c.q| && |s| == c.n
    && forall l :: 0 <= l < |sk| ==> |sk[l]| == c.n && forall i :: 0 <= i < c.n ==> Cong(sk[l][i], s[i], c.q[l])
  }

  /** The secret reduced at every modulus is such a key. */
  lemma ReducedSecret(s: seq<int>, c: Context)
    requires c.Valid() && |s| == c.n
    ensures SecretRows(seq(|c.q|, l requires 0 <= l < |c.q| => seq(c.n, i requires 0 <= i < c.n => s[i] % c.q[l])), s, c)
  {
    hide Cong;
    var sk := seq(|c.q|, l requires 0 <= l < |c.q| => seq(c.n, i requires 0 <= i < c.n => s[i] % c.q[l]));
    forall l, i | 0 <= l < |c.q| && 0 <= i < c.n
      ensures Cong(sk[l][i], s[i], c.q[l])
    {
      CongMod(s[i], c.q[l]);
    }
  }

  type Context = LweSample.Context

  /** x is the ciphertext's phase under s, up to multiples of each modulus. */
  ghost predicate PhaseIs(e: seq<Exact>, s: seq<int>, x: int, q: seq<int>)
  {
    |e| == |q| && forall l :: 0 <= l < |q| ==> |e[l].vec| == |s| && Cong(x, e[l].Phase(s), q[l])
  }

  predicate Decryptable(lwe: LWECt, h: Helper, w: nat)
    reads lwe, h
  {
    WordFits(h.k, w) && lwe.lazyCounter == 0 && lwe.IsValid() && |lwe.cnst| == |h.q|
  }

  /** One coordinate of the phase, modulo q. */
  function DotWord(s: seq<int>, u: seq<int>, d: int, q: int): int
    requires |s| == |u| && q > 0
  {
    (Dot(s, u, |s|) % q + d) % q
  }

  lemma {:induction false} DotCong2(a: seq<int>, b: seq<int>, s: seq<int>, t: seq<int>, j: nat, q: int)
    requires |a| == |b| == |s| == |t| && j <= |a|
    requires forall i :: 0 <= i < |a| ==> Cong(a[i], b[i], q)
    requires forall i :: 0 <= i < |a| ==> Cong(s[i], t[i], q)
    ensures Cong(Dot(s, a, j), Dot(b, t, j), q)
  {
    hide Cong;
    if j == 0 {
      CongRefl(0, q);
    } else {
      DotCong2(a, b, s, t, j - 1, q);
      CongMul(a[j - 1], b[j - 1], s[j - 1], t[j - 1], q);
      assert b[j - 1] * t[j - 1] == t[j - 1] * b[j - 1];
      CongAdd(Dot(s, a, j - 1), Dot(b, t, j - 1), a[j - 1] * s[j - 1], t[j - 1] * b[j - 1], q);
    }
  }

  lemma DotWordOk(sk: seq<int>, s: seq<int>, u: seq<int>, d: int, e: Exact, x: int, n: nat, q: int)
    requires q > 0 && RowOk(u, d, e, n, q) && |sk| == |s| == |u|
    requires forall i :: 0 <= i < |s| ==> Cong(sk[i], s[i], q)
    requires Cong(x, e.Phase(s), q)
    ensures Cong(x, DotWord(sk, u, d, q), q)
  {
    hide Cong, Budget;
    DotCong2(u, e.vec, sk, s, |s|, q);
    var v := Dot(sk, u, |sk|);
    CongMod(v, q);
    CongTrans(v % q, v, Dot(e.vec, s, |s|), q);
    CongAdd(v % q, Dot(e.vec, s, |s|), d, e.cnst, q);
    CongMod(v % q + d, q);
    CongTrans(DotWord(sk, u, d, q), v % q + d, e.Phase(s), q);
    CongSym(DotWord(sk, u, d, q), e.Phase(s), q);
    CongTrans(x, e.Phase(s), DotWord(sk, u, d, q), q);
  }

  /** The residues of the phase. */
  method PhaseResidues(lwe: LWECt, sk: seq<seq<int>>, ghost s: seq<int>, c: Context) returns (dot: seq<int>)
    requires c.Valid() && lwe.Valid(c) && lwe.IsValid() && |lwe.cnst| == |c.q| && SecretRows(sk, s, c)
    ensures |dot| == |c.q|
    ensures forall x :: PhaseIs(lwe.exact, s, x, c.q) ==> Represents(x, dot, c.q)
  {
    hide Cong, Budget, DotWord;
    dot := [];
    for l := 0 to |c.q|
      invariant |dot| == l
      invariant forall m, x :: 0 <= m < l && PhaseIs(lwe.exact, s, x, c.q) ==> Cong(x, dot[m], c.q[m])
    {
      assert RowOk(lwe.vec[l], lwe.cnst[l], lwe.exact[l], lwe.lazyCounter, c.q[l]);
      var d := DotWord(sk[l], lwe.vec[l], lwe.cnst[l], c.q[l]);
      forall x | PhaseIs(lwe.exact, s, x, c.q)
        ensures Cong(x, d, c.q[l])
      {
        DotWordOk(sk[l], s, lwe.vec[l], lwe.cnst[l], lwe.exact[l], x, lwe.lazyCounter, c.q[l]);
      }
      dot := dot + [d];
    }
  }

  /** Phase, then modulus-down. */
  method Decrypt(lwe: LWECt, sk: seq<seq<int>>, ghost s: seq<int>, h: Helper, c: Context, w: nat)
    returns (ok: bool, out: int, ghost dot: seq<int>)
    requires c.Valid() && lwe.Valid(c) && h.Valid() && h.q == c.q && SecretRows(sk, s, c)
    ensures ok == Decryptable(lwe, h, w)
    ensures ok ==> IsPhaseDown(lwe.exact, s, dot, out, h)
  {
    hide Cong, Pow, IsDown, PhaseIs, SecretRows;
    dot := [];
    if !WordFits(h.k, w) || lwe.lazyCounter != 0 || !lwe.IsValid() || |lwe.cnst| != |h.q| { return false, 0, []; }
    var r := PhaseResidues(lwe, sk, s, c);
    dot := r;
    out := DownOne(r, h, w);
    ok := true;
  }

  /** dot are residues of every integer phase, and out is their modulus-down. */
  ghost predicate IsPhaseDown(e: seq<Exact>, s: seq<int>, dot: seq<int>, out: int, h: Helper)
    requires h.Valid()
    reads h
  {
    && |dot| == |h.q| && (forall x :: PhaseIs(e, s, x, h.q) ==> Represents(x, dot, h.q))
    && IsDown(out, dot, h.q, h.gamma, Pow(2, h.k), h.gammaTModQ, h.invPunctured)
  }

  /** Modulus-down of a single coefficient. */
  method DownOne(r: seq<int>, h: Helper, w: nat) returns (out: int)
    requires h.Valid() && |r| == |h.q| && WordFits(h.k, w)
    ensures IsDown(out, r, h.q, h.gamma, Pow(2, h.k), h.gammaTModQ, h.invPunctured)
  {
    hide Cong, Pow, IsDown;
    var buffer := new int[1];
    var rows := seq(|r|, l requires 0 <= l < |r| => [r[l]]);
    var switched := h.ModulusDownRNS(rows, buffer, w);
    assert Column(rows, 0) == r;
    out := buffer[0];
  }

  /** Masks the ciphertext by random residues and returns minus their modulus-down. The call throws, after
      masking, when the modulus-down is 2^k - 1. */
  method H2A(lwe: LWECt, random: seq<int>, h: Helper, c: Context, w: nat) returns (ok: bool, share: int, ghost tmp: int)
    requires c.Valid() && lwe.Valid(c) && h.Valid() && h.q == c.q
    requires |random| == |c.q| && forall l :: 0 <= l < |c.q| ==> 0 <= random[l] < c.q[l]
    modifies lwe
    ensures lwe.Valid(c) && |lwe.exact| == |old(lwe.exact)|
    ensures old(lwe.TakesPlain(random, c)) ==> lwe.exact == PlainSum(old(lwe.exact), 1, random, |random|)
    ensures old(lwe.TakesPlain(random, c)) ==> lwe.lazyCounter == 0 && lwe.polyDeg == old(lwe.polyDeg)
    ensures !old(lwe.TakesPlain(random, c)) ==> lwe.exact == old(lwe.exact)
    ensures ok ==> old(lwe.TakesPlain(random, c)) && WordFits(h.k, w)
    ensures old(lwe.TakesPlain(random, c)) && WordFits(h.k, w) ==>
              IsDown(tmp, random, h.q, h.gamma, Pow(2, h.k), h.gammaTModQ, h.invPunctured)
              && ok == (tmp < Pow(2, h.k) - 1) && (ok ==> share == (-tmp) % Pow(2, h.k))
  {
    hide Cong, Pow, IsDown, RowsOk, PlainSum;
    tmp, share := 0, 0;
    if !lwe.IsValid() || |lwe.cnst| != |c.q| {
      return false, 0, 0;
    }
    AllAccepted(random, c.q);
    var added := lwe.AddPlainInplace(random, c);
    if !WordFits(h.k, w) { return false, 0, 0; }
    var down := DownOne(random, h, w);
    tmp := down;
    ok := down < Pow(2, h.k) - 1;
    share := if ok then (-down) % Pow(2, h.k) else 0;
  }

  lemma {:induction false} AllAccepted(plain: seq<int>, q: seq<int>)
    requires |plain| == |q| && forall l :: 0 <= l < |q| ==> plain[l] < q[l]
    ensures Accepted(plain, q) == |plain|
  {
  }

  // ------------------------------------------------------------------ correctness of decryption and shares

  /** Some integer has any given residues. */
  lemma CrtExists(r: seq<int>, q: seq<int>) returns (x: int)
    requires Base(q) && |r| == |q|
    ensures Represents(x, r, q)
  {
    hide Cong, Unit, Punctured;
    PuncturedUnits(q);
    var y := seq(|q|, l requires 0 <= l < |q| => r[l] * InvMod(Punctured(q, l), q[l]));
    x := ConvSum(y, q, |q|);
    forall l | 0 <= l < |q|
      ensures Cong(x, r[l], q[l])
    {
      ConvSumResidue(y, q, |q|, l);
      CrtTerm(r[l], Punctured(q, l), InvMod(Punctured(q, l), q[l]), x, q[l]);
    }
  }

  lemma CrtTerm(r: int, p: int, i: int, x: int, q: int)
    requires Cong(p * i, 1, q) && Cong(x, (r * i) * p, q)
    ensures Cong(x, r, q)
  {
    hide Cong;
    CongRefl(r, q);
    CongMul(p * i, 1, r, r, q);
    assert (r * i) * p == (p * i) * r;
    CongTrans(x, (r * i) * p, r, q);
  }

  /** Decryption is correct whenever the phase is the scaled message plus small noise. */
  lemma DecryptCorrect(ex: seq<Exact>, s: seq<int>, dot: seq<int>, out: int, h: Helper, m: int, e: int)
    requires h.Valid() && IsPhaseDown(ex, s, dot, out, h) && 0 <= m < Pow(2, h.k)
    requires PhaseIs(ex, s, RoundDiv(Prod(h.q) * m, Pow(2, h.k)) + e, h.q) && Quiet(e, h)
    ensures out == m
  {
    hide Cong, Pow, IsDown, PhaseIs, Represents, RoundDiv;
    h.UpThenDown(m, e, dot, out);
  }

  /** The noise bound t(|e| + 1/2) <= Q(1/2 - L/gamma), without fractions. */
  ghost predicate Quiet(e: int, h: Helper)
    reads h
  {
    h.gamma * (Pow(2, h.k) * (2 * Abs(e) + 1)) <= h.gamma * Prod(h.q) - 2 * (|h.q| * Prod(h.q))
  }

  /** Masking adds the mask to the phase. */
  lemma MaskedPhase(ex: seq<Exact>, s: seq<int>, x: int, random: seq<int>, y: int, q: seq<int>)
    requires PhaseIs(ex, s, x, q) && Represents(y, random, q)
    ensures PhaseIs(PlainSum(ex, 1, random, |random|), s, x + y, q)
  {
    hide Cong;
    forall l | 0 <= l < |q|
      ensures Cong(x + y, PlainSum(ex, 1, random, |random|)[l].Phase(s), q[l])
    {
      CongAdd(x, ex[l].Phase(s), y, random[l], q[l]);
    }
  }

  /** Two scaled values that differ by m*gamma up to gamma round to integers that differ by m up to one. */
  lemma RoundedApart(v: int, u: int, m: int, gamma: int)
    requires gamma > 0 && -gamma <= v - u - m * gamma <= gamma
    ensures -1 <= RoundDiv(v, gamma) - RoundDiv(u, gamma) - m <= 1
  {
    hide RoundDiv;
    RoundDivBounds(v, gamma);
    RoundDivBounds(u, gamma);
    var j, k := RoundDiv(v, gamma), RoundDiv(u, gamma);
    Spread(j, k, m, gamma);
    if j - k - m >= 2 { MulLe(2, j - k - m, gamma); }
    if j - k - m <= -2 { MulLe(j - k - m, -2, gamma); }
  }

  lemma Spread(j: int, k: int, m: int, gamma: int)
    ensures 2 * gamma * j - 2 * gamma * k - 2 * (m * gamma) == 2 * ((j - k - m) * gamma)
  {
  }

  lemma ScaledApart(t: int, x: int, y: int, m: int, e: int, bigQ: int, gamma: int, a: int, b: int, l: int)
    requires t > 0 && t % 2 == 0 && bigQ > 0 && gamma > 0 && 0 <= a < l && 0 <= b < l
    requires x == RoundDiv(bigQ * m, t) + e
    requires gamma * (t * (2 * Abs(e) + 1)) <= gamma * bigQ - 2 * (l * bigQ)
    ensures var w := Scaled(t * (x + y), bigQ, gamma, a) - Scaled(t * y, bigQ, gamma, b) - m * gamma;
            -gamma <= w <= gamma
  {
    hide RoundDiv, Scaled, Abs;
    NoiseBound(m, e, x, bigQ, t / 2);
    var d := t * x - m * bigQ;
    MulLe(2 * d, t * (2 * Abs(e) + 1), gamma);
    MulLe(-2 * d, t * (2 * Abs(e) + 1), gamma);
    Commute(d, gamma, t * (2 * Abs(e) + 1));
    ScaledBounds(t * (x + y), bigQ, gamma, a, l);
    ScaledBounds(t * y, bigQ, gamma, b, l);
    var v, u := Scaled(t * (x + y), bigQ, gamma, a), Scaled(t * y, bigQ, gamma, b);
    var w := v - u - m * gamma;
    ApartProducts(t, x, y, m, d, gamma, bigQ, v, u, w);
    if w > gamma { MulLe(gamma + 1, w, bigQ); }
    if w < -gamma { MulLe(w, -gamma - 1, bigQ); }
    assert (gamma + 1) * bigQ == gamma * bigQ + bigQ && (-gamma - 1) * bigQ == -(gamma * bigQ) - bigQ;
  }

  lemma ApartProducts(t: int, x: int, y: int, m: int, d: int, gamma: int, bigQ: int, v: int, u: int, w: int)
    requires d == t * x - m * bigQ && w == v - u - m * gamma
    ensures gamma * (t * (x + y)) == gamma * (t * y) + gamma * d + gamma * (m * bigQ)
    ensures w * bigQ == v * bigQ - u * bigQ - gamma * (m * bigQ)
  {
    assert t * (x + y) == t * y + d + m * bigQ;
  }

  /** The two modulus-downs, before reduction modulo t, differ by the message up to one. */
  lemma DownApart(m: int, e: int, y: int, random: seq<int>, dot: seq<int>, q: seq<int>, gamma: int, t: int,
                  g: seq<int>, inv: seq<int>)
    requires Tables(q, gamma, t, g, inv) && t % 2 == 0 && |random| == |q| == |dot|
    requires gamma * (t * (2 * Abs(e) + 1)) <= gamma * Prod(q) - 2 * (|q| * Prod(q))
    ensures -1 <= Down(RoundDiv(Prod(q) * m, t) + e + y, dot, q, gamma, t, g, inv)
                  - Down(y, random, q, gamma, t, g, inv) - m <= 1
  {
    hide Cong, Unit, RoundDiv, Overshoot, Scaled, Punctured, Abs;
    var x := RoundDiv(Prod(q) * m, t) + e;
    OvershootRange(random, q, gamma, t, g, inv);
    OvershootRange(dot, q, gamma, t, g, inv);
    var a, b := Overshoot(dot, q, g, inv), Overshoot(random, q, g, inv);
    ScaledApart(t, x, y, m, e, Prod(q), gamma, a, b, |q|);
    RoundedApart(Scaled(t * (x + y), Prod(q), gamma, a), Scaled(t * y, Prod(q), gamma, b), m, gamma);
  }

  /** a is m modulo t up to an error of at most one. */
  ghost predicate NearlyCong(a: int, m: int, t: int)
    requires t > 0
  {
    a % t == (m - 1) % t || a % t == m % t || a % t == (m + 1) % t
  }

  /** The shares: opening of the masked ciphertext plus the returned share is the message modulo 2^k, up
      to an error of at most one. */
  lemma SharesAddUp(m: int, e: int, y: int, random: seq<int>, dot: seq<int>, tmp: int, masked: int, h: Helper)
    requires h.Valid() && Quiet(e, h) && |random| == |h.q| == |dot|
    requires Represents(y, random, h.q)
    requires Represents(RoundDiv(Prod(h.q) * m, Pow(2, h.k)) + e + y, dot, h.q)
    requires IsDown(tmp, random, h.q, h.gamma, Pow(2, h.k), h.gammaTModQ, h.invPunctured)
    requires IsDown(masked, dot, h.q, h.gamma, Pow(2, h.k), h.gammaTModQ, h.invPunctured)
    ensures NearlyCong(masked + (-tmp) % Pow(2, h.k), m, Pow(2, h.k))
  {
    hide Cong, Unit, Pow, RoundDiv, Represents, Down, Tables, Abs, NearlyCong, IsDown;
    var q, gamma, t, g, inv := h.q, h.gamma, Pow(2, h.k), h.gammaTModQ, h.invPunctured;
    PowHalf(h.k);
    TablesPositive(q, gamma, t, g, inv);
    DownApart(m, e, y, random, dot, q, gamma, t, g, inv);
    var x := RoundDiv(Prod(q) * m, t) + e + y;
    DownAt(tmp, y, random, q, gamma, t, g, inv);
    DownAt(masked, x, dot, q, gamma, t, g, inv);
    ShareSum(m, Down(x, dot, q, gamma, t, g, inv), Down(y, random, q, gamma, t, g, inv), t);
  }

  lemma DownAt(o: int, x: int, r: seq<int>, q: seq<int>, gamma: int, t: int, g: seq<int>, inv: seq<int>)
    requires |r| == |g| == |inv| == |q| && gamma > 0 && t > 0 && forall l :: 0 <= l < |q| ==> q[l] > 1
    requires IsDown(o, r, q, gamma, t, g, inv) && Represents(x, r, q)
    ensures o == Down(x, r, q, gamma, t, g, inv) % t
  {
  }

  lemma ShareSum(m: int, j: int, k: int, t: int)
    requires t > 0 && -1 <= j - k - m <= 1
    ensures NearlyCong(j % t + (-(k % t)) % t, m, t)
  {
    hide Cong;
    CongMod(j, t);
    CongMod(k, t);
    CongMod(-(k % t), t);
    CongRefl(0, t);
    CongSub(0, 0, k % t, k, t);
    CongTrans((-(k % t)) % t, -(k % t), -k, t);
    CongAdd(j % t, j, (-(k % t)) % t, -k, t);
    ModFromCong(j % t + (-(k % t)) % t, j - k, t);
    assert j - k == m - 1 || j - k == m || j - k == m + 1;
  }

  /** Sharing and opening in sequence. */
  method ShareAndOpen(lwe: LWECt, random: seq<int>, sk: seq<seq<int>>, ghost s: seq<int>, h: Helper, c: Context, w: nat,
                      ghost m: int, ghost e: int) returns (ok: bool, share: int, masked: int, ghost tmp: int)
    requires c.Valid() && lwe.Valid(c) && h.Valid() && h.q == c.q && SecretRows(sk, s, c) && Quiet(e, h)
    requires |random| == |c.q| && forall l :: 0 <= l < |c.q| ==> 0 <= random[l] < c.q[l]
    requires PhaseIs(lwe.exact, s, RoundDiv(Prod(h.q) * m, Pow(2, h.k)) + e, h.q)
    modifies lwe
    ensures old(lwe.TakesPlain(random, c)) && WordFits(h.k, w) ==>
              IsDown(tmp, random, h.q, h.gamma, Pow(2, h.k), h.gammaTModQ, h.invPunctured)
              && ok == (tmp < Pow(2, h.k) - 1)
    ensures ok ==> NearlyCong(masked + share, m, Pow(2, h.k))
  {
    hide Cong, Pow, IsDown, RowsOk, PlainSum, RoundDiv, PhaseIs, Represents, SecretRows, Quiet, NearlyCong, IsPhaseDown,
         Tables, Prod, Punctured, LweSample.Accepted, MaximumLazy, BitCount;
    ghost var dot;
    masked := 0;
    ExactShape(lwe, c);
    ok, share, tmp := H2A(lwe, random, h, c, w);
    if !ok { return; }
    ExactShape(lwe, c);
    assert Decryptable(lwe, h, w);
    ok, masked, dot := Decrypt(lwe, sk, s, h, c, w);
    SharesOpen(old(lwe.exact), s, random, dot, tmp, masked, h, m, e);
  }

  lemma SharesOpen(ex: seq<Exact>, s: seq<int>, random: seq<int>, dot: seq<int>, tmp: int, masked: int, h: Helper,
                   m: int, e: int)
    requires h.Valid() && Quiet(e, h) && |random| == |h.q| == |ex|
    requires PhaseIs(ex, s, RoundDiv(Prod(h.q) * m, Pow(2, h.k)) + e, h.q)
    requires IsDown(tmp, random, h.q, h.gamma, Pow(2, h.k), h.gammaTModQ, h.invPunctured)
    requires IsPhaseDown(PlainSum(ex, 1, random, |random|), s, dot, masked, h)
    ensures NearlyCong(masked + (-tmp) % Pow(2, h.k), m, Pow(2, h.k))
  {
    hide Cong, Unit, Pow, IsDown, PlainSum, RoundDiv, PhaseIs, Represents, Quiet, NearlyCong, Punctured;
    var y := CrtExists(random, h.q);
    MaskedPhase(ex, s, RoundDiv(Prod(h.q) * m, Pow(2, h.k)) + e, random, y, h.q);
    SharesAddUp(m, e, y, random, dot, tmp, masked, h);
  }
}
