/** Signed plaintexts: the representative of a residue class closest to zero. */
module Centring {
  import opened Arith

  /** The last step of every decryptor: residues above half the modulus stand for negatives. */
  function Centre(m: int, n: int): (r: int)
    requires 0 <= m < n
    ensures -n < 2 * r <= n && Cong(r, m, n)
  {
    CongIntro(m, m, n, 0);
    CongIntro(m - n, m, n, -1);
    if m > n / 2 then m - n else m
  }

  /** Centring a residue recovers every number of absolute value at most half an odd modulus. */
  lemma CentreResidue(x: int, n: int)
    requires n > 0 && n % 2 == 1 && -(n / 2) <= x <= n / 2
    ensures Centre(x % n, n) == x
  {
    if x >= 0 {
      CongIntro(x, x, n, 0);
      ModIs(x, x, n);
    } else {
      CongIntro(x, x + n, n, -1);
      ModIs(x, x + n, n);
    }
  }
}
