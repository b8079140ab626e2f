/** Facts about remainders and finite sets that several modules need. */
module Basics {
  /** The remainder is determined by any representation of the number. */
  lemma ModUnique(a: nat, r: nat, q: nat, m: nat)
    requires r > 0 && a == q * r + m && m < r
    ensures a % r == m
  {
    var q', m' := a / r, a % r;
    assert (q - q') * r == m' - m;
    if q > q' {
      MulAtLeast(q - q', r);
    } else if q < q' {
      MulAtLeast(q' - q, r);
    }
  }

  lemma MulAtLeast(k: nat, r: nat)
    requires k > 0
    ensures k * r >= r
  {
    assert k * r == r + (k - 1) * r;
    assert (k - 1) * r >= 0;
  }

  /** Adding a multiple of the modulus changes nothing. */
  lemma ModShift(n: nat, q: nat, r: nat)
    requires r > 0
    ensures (n + q * r) % r == n % r
  {
    var k := n / r;
    assert n + q * r == (k + q) * r + n % r;
    ModUnique(n + q * r, r, k + q, n % r);
  }

  /** A remainder modulo a multiple of r leaves the remainder modulo r alone. */
  lemma ModOfMod(n: nat, p: nat, r: nat)
    requires p > 0 && r > 0
    ensures p * r > 0 && n % (p * r) % r == n % r
  {
    MulAtLeast(p, r);
    var q, m := n / (p * r), n % (p * r);
    assert n == m + (q * p) * r by { Regroup(q, p, r); }
    ModShift(m, q * p, r);
  }

  lemma Regroup(q: nat, p: nat, r: nat)
    ensures q * (p * r) == (q * p) * r
  {}

  lemma SubsetSize<T>(a: set<T>, b: set<T>)
    requires a <= b
    ensures |a| <= |b|
  {
    assert b == a + (b - a);
  }
}
