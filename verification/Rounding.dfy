/** Modulus-down as exact arithmetic: what the overshoot of fast base conversion does to rounding. */
module Rounding {
  import opened Arith

  /** a/b rounded to the nearest integer, halves up. */
  function RoundDiv(a: int, b: int): int
    requires b > 0
  {
    (2 * a + b) / (2 * b)
  }

  lemma RoundDivBounds(a: int, b: int)
    requires b > 0
    ensures 2 * b * RoundDiv(a, b) <= 2 * a + b < 2 * b * RoundDiv(a, b) + 2 * b
  {
    DivMod(2 * a + b, 2 * b);
  }

  lemma DivUnique(a: int, b: int, k: int)
    requires b > 0 && k * b <= a < k * b + b
    ensures a / b == k
  {
    DivMod(a, b);
    assert (a / b - k) * b == a - a % b - k * b;
    SmallMultiple(a / b - k, b);
  }

  lemma RoundDivUnique(a: int, b: int, k: int)
    requires b > 0 && 2 * b * k <= 2 * a + b < 2 * b * k + 2 * b
    ensures RoundDiv(a, b) == k
  {
    assert k * (2 * b) == 2 * b * k;
    DivUnique(2 * a + b, 2 * b, k);
  }

  /** Rounding halves up commutes with negation up to one. */
  lemma NegatedRound(a: int, b: int)
    requires b > 0
    ensures RoundDiv(-a, b) == -RoundDiv(a, b) || RoundDiv(-a, b) == -RoundDiv(a, b) + 1
  {
    hide RoundDiv;
    var k, m := RoundDiv(a, b), RoundDiv(-a, b);
    RoundDivBounds(a, b);
    RoundDivBounds(-a, b);
    assert 2 * b * k == 2 * (k * b) && 2 * b * m == 2 * (m * b) && (k + m) * b == k * b + m * b;
    if k + m >= 2 { MulLe(2, k + m, b); }
    if k + m <= -1 { MulLe(k + m, -1, b); }
  }

  /** Subtracting the centred residue modulo an odd gamma leaves gamma times the nearest integer. */
  lemma CentredResidue(v: int, gamma: int)
    requires gamma > 0 && gamma % 2 == 1
    ensures var g := v % gamma;
            v - (if g > gamma / 2 then g - gamma else g) == gamma * RoundDiv(v, gamma)
  {
    DivMod(v, gamma);
    var m, g := v / gamma, v % gamma;
    assert gamma == 2 * (gamma / 2) + 1;
    if g > gamma / 2 {
      assert 2 * gamma * (m + 1) == 2 * (m * gamma) + 2 * gamma;
      RoundDivUnique(v, gamma, m + 1);
      assert gamma * (m + 1) == m * gamma + gamma;
    } else {
      assert 2 * gamma * m == 2 * (m * gamma);
      RoundDivUnique(v, gamma, m);
      assert gamma * m == m * gamma;
    }
  }

  /** floor(gamma * y / Q) - alpha: the quantity the gamma and t residues both hold. */
  function Scaled(y: int, bigQ: int, gamma: int, alpha: int): int
    requires bigQ > 0
  {
    (gamma * y) / bigQ - alpha
  }

  /** Bounds on Scaled without division. */
  lemma ScaledBounds(y: int, bigQ: int, gamma: int, alpha: int, l: int)
    requires bigQ > 0 && 0 <= alpha < l
    ensures var v := Scaled(y, bigQ, gamma, alpha);
            v * bigQ <= gamma * y && gamma * y < v * bigQ + l * bigQ
  {
    var n := gamma * y;
    DivMod(n, bigQ);
    var w := n / bigQ;
    Overshot(w, alpha, l, bigQ);
  }

  lemma Overshot(w: int, alpha: int, l: int, bigQ: int)
    requires bigQ > 0 && 0 <= alpha < l
    ensures (w - alpha) * bigQ <= w * bigQ && w * bigQ + bigQ <= (w - alpha) * bigQ + l * bigQ
  {
    MulLe(w - alpha, w, bigQ);
    MulLe(w + 1, w - alpha + l, bigQ);
    assert (w + 1) * bigQ == w * bigQ + bigQ;
    assert (w - alpha + l) * bigQ == (w - alpha) * bigQ + l * bigQ;
  }

  // ------------------------------------------------------------------ scaling inequalities

  lemma MulLe(a: int, b: int, c: int)
    requires a <= b && c >= 0
    ensures a * c <= b * c
  {
    assert (b - a) * c >= 0;
  }

  lemma MulLt(a: int, b: int, c: int)
    requires a < b && c > 0
    ensures a * c < b * c
  {
    assert (b - a) * c > 0;
  }

  lemma Expand(v: int, gamma: int, bigQ: int, k: int)
    ensures (2 * v + gamma) * bigQ == 2 * (v * bigQ) + gamma * bigQ
    ensures (2 * gamma * k) * bigQ == 2 * (k * (gamma * bigQ))
  {
    assert (2 * gamma * k) * bigQ == 2 * ((gamma * k) * bigQ);
    assert (gamma * k) * bigQ == k * (gamma * bigQ);
  }

  lemma Step(k: int, g: int)
    ensures (k + 1) * g == k * g + g
  {
  }

  /** 2v + gamma >= 2*gamma*k, scaled by Q. */
  lemma ScaleLow(v: int, gamma: int, bigQ: int, k: int)
    requires bigQ > 0
    ensures 2 * gamma * k <= 2 * v + gamma <==> 2 * (k * (gamma * bigQ)) <= 2 * (v * bigQ) + gamma * bigQ
  {
    Expand(v, gamma, bigQ, k);
    if 2 * gamma * k <= 2 * v + gamma {
      MulLe(2 * gamma * k, 2 * v + gamma, bigQ);
    } else {
      MulLt(2 * v + gamma, 2 * gamma * k, bigQ);
    }
  }

  // ------------------------------------------------------------------ the overshoot's effect

  /** Whole multiples of gamma pass through, and what is left rounds to 0 or 1. */
  lemma RoundShifted(v: int, gamma: int, d: int, w: int)
    requires gamma > 0 && v == d * gamma + w && -gamma <= 2 * w < 3 * gamma
    ensures RoundDiv(v, gamma) == d + if 2 * w >= gamma then 1 else 0
  {
    hide RoundDiv;
    var k := d + if 2 * w >= gamma then 1 else 0;
    assert 2 * gamma * d == 2 * (d * gamma);
    NextMultiple(gamma, d);
    RoundDivUnique(v, gamma, k);
  }

  /** Splitting y into quotient and fraction: only the fraction is scaled and overshot. */
  lemma ScaledSplit(y: int, bigQ: int, gamma: int, alpha: int)
    requires bigQ > 0
    ensures Scaled(y, bigQ, gamma, alpha) == (y / bigQ) * gamma + ((gamma * (y % bigQ)) / bigQ - alpha)
  {
    var d, f := y / bigQ, y % bigQ;
    DivMod(y, bigQ);
    Distribute(gamma, d, bigQ, f);
    assert d * (gamma * bigQ) == (d * gamma) * bigQ;
    var u := (gamma * f) / bigQ;
    DivMod(gamma * f, bigQ);
    assert (d * gamma + u) * bigQ == (d * gamma) * bigQ + u * bigQ;
    DivUnique(gamma * y, bigQ, d * gamma + u);
  }

  /** The scaled fraction lies in [0, gamma), and below half of it for fractions below a half. */
  lemma FractionBounds(f: int, bigQ: int, gamma: int)
    requires 0 <= f < bigQ && gamma > 0
    ensures 0 <= (gamma * f) / bigQ < gamma
    ensures 2 * f < bigQ ==> 2 * ((gamma * f) / bigQ) < gamma
  {
    var u := (gamma * f) / bigQ;
    DivMod(gamma * f, bigQ);
    MulLe(0, f, gamma);
    MulLt(f, bigQ, gamma);
    assert gamma * f == f * gamma && bigQ * gamma == gamma * bigQ;
    assert (2 * u) * bigQ == 2 * (u * bigQ);
    if u < 0 { MulLe(u, -1, bigQ); }
    if u >= gamma { MulLe(gamma, u, bigQ); }
    if 2 * f < bigQ {
      MulLt(2 * f, bigQ, gamma);
      assert (2 * f) * gamma == 2 * (gamma * f);
      if 2 * u >= gamma { MulLe(gamma, 2 * u, bigQ); }
    }
  }

  /** The rounded overshot quotient is the rounded quotient or one less. It is right exactly when the fraction of
      y/Q is below a half, or when scaled to gamma it still exceeds a half after the overshoot. */
  lemma RoundingExact(y: int, bigQ: int, gamma: int, alpha: int, l: int)
    requires bigQ > 0 && 0 <= alpha < l && gamma > 2 * l && gamma % 2 == 1
    ensures var k, n, f := RoundDiv(Scaled(y, bigQ, gamma, alpha), gamma), RoundDiv(y, bigQ), y % bigQ;
            && (k == n || k == n - 1)
            && (k == n <==> 2 * f < bigQ || 2 * ((gamma * f) / bigQ - alpha) > gamma)
  {
    hide RoundDiv, Scaled;
    var d, f := y / bigQ, y % bigQ;
    DivMod(y, bigQ);
    FractionBounds(f, bigQ, gamma);
    ScaledSplit(y, bigQ, gamma, alpha);
    RoundShifted(Scaled(y, bigQ, gamma, alpha), gamma, d, (gamma * f) / bigQ - alpha);
    RoundShifted(y, bigQ, d, f);
  }

  lemma NextMultiple(b: int, k: int)
    ensures 2 * b * k + 2 * b == 2 * b * (k + 1)
  {
  }

  /** Outside a window of width l/gamma just above a half, the overshoot is harmless. */
  lemma NearestOutsideWindow(f: int, bigQ: int, gamma: int, alpha: int, l: int)
    requires bigQ > 0 && 0 <= alpha < l
    requires 2 * (gamma * f) >= gamma * bigQ + 2 * (l * bigQ)
    ensures 2 * ((gamma * f) / bigQ - alpha) > gamma
  {
    var u := (gamma * f) / bigQ;
    DivMod(gamma * f, bigQ);
    assert (2 * u) * bigQ == 2 * (u * bigQ);
    assert (gamma + 2 * (l - 1)) * bigQ == gamma * bigQ + 2 * (l * bigQ) - 2 * bigQ;
    if 2 * (u - alpha) <= gamma { MulLe(2 * u, gamma + 2 * (l - 1), bigQ); }
  }

  /** The smallest fraction above a half is lost even without overshoot, if Q is odd and larger than gamma. */
  lemma JustAboveHalf(h: int, gamma: int)
    requires 0 < gamma < 2 * h - 1
    ensures 2 * ((gamma * h) / (2 * h - 1)) <= gamma
  {
    var bigQ := 2 * h - 1;
    var u := (gamma * h) / bigQ;
    DivMod(gamma * h, bigQ);
    assert (2 * u) * bigQ == 2 * (u * bigQ);
    assert (gamma + 1) * bigQ == 2 * (gamma * h) - gamma + bigQ;
    if 2 * u > gamma { MulLe(gamma + 1, 2 * u, bigQ); }
  }

  lemma Distribute(gamma: int, d: int, bigQ: int, f: int)
    ensures gamma * (d * bigQ + f) == d * (gamma * bigQ) + gamma * f
  {
    assert gamma * (d * bigQ) == d * (gamma * bigQ);
  }

  /** A numerator within (1/2 - l/gamma) of m * Q rounds to m in spite of the overshoot. */
  lemma RoundsTo(y: int, bigQ: int, gamma: int, alpha: int, l: int, m: int)
    requires bigQ > 0 && 0 <= alpha < l && gamma > 0
    requires var d := y - m * bigQ;
             2 * (gamma * d) <= gamma * bigQ - 2 * (l * bigQ) && -2 * (gamma * d) <= gamma * bigQ - 2 * (l * bigQ)
    ensures RoundDiv(Scaled(y, bigQ, gamma, alpha), gamma) == m
  {
    hide RoundDiv, Scaled;
    var v, d := Scaled(y, bigQ, gamma, alpha), y - m * bigQ;
    ScaledBounds(y, bigQ, gamma, alpha, l);
    Distribute(gamma, m, bigQ, d);
    MulLt(0, l, bigQ);
    ScaleLow(v, gamma, bigQ, m);
    ScaleLow(v, gamma, bigQ, m + 1);
    Step(m, gamma * bigQ);
    NextMultiple(gamma, m);
    RoundDivUnique(v, gamma, m);
  }
}
