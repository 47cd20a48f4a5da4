/** Facts of integer arithmetic that several proofs lean on. */
module Arith {

  /** Quotient and remainder of naturals, with a value at divisor zero too. */
  function Quot(x: nat, d: nat): nat { if d == 0 then 0 else x / d }
  function Rem(x: nat, d: nat): (r: nat) ensures d > 0 ==> r < d { if d == 0 then 0 else x % d }

  lemma MulMono(x: int, y: int, z: int)
    requires x <= y && 0 <= z
    ensures x * z <= y * z
  {
  }

  /** Quotient and remainder are unique. */
  lemma DivModUnique(x: int, d: int, q: int, r: int)
    requires 0 <= r < d && x == q * d + r
    ensures x / d == q && x % d == r
  {
    assert x == (x / d) * d + x % d;
    assert (q - x / d) * d == x % d - r;
    if q > x / d {
      MulMono(1, q - x / d, d);
    } else if q < x / d {
      MulMono(1, x / d - q, d);
    }
  }

  lemma QuotRem(x: nat, d: nat, q: nat, r: nat)
    requires r < d && x == q * d + r
    ensures Quot(x, d) == q && Rem(x, d) == r
  {
    DivModUnique(x, d, q, r);
  }

  lemma QuotRemSum(x: nat, d: nat)
    requires d > 0
    ensures x == Quot(x, d) * d + Rem(x, d)
  {
  }

  /** `x` lies in one of `n` blocks of `d`. */
  lemma QuotBound(x: nat, d: nat, n: nat)
    requires x < n * d
    ensures d > 0 && Quot(x, d) < n
  {
    if d > 0 {
      QuotRemSum(x, d);
      if Quot(x, d) >= n { MulMono(n, Quot(x, d), d); }
    }
  }

  /** Element `x` of the share `t` when `shares` blocks of `per` make up `n`. */
  lemma BlockIndex(n: nat, shares: nat, per: nat, t: nat, x: nat)
    requires n == shares * per && t < shares && x < per
    ensures t * per + x < n
  {
    MulMono(t, shares - 1, per);
  }

  function Pow2(n: nat): (p: nat)
    ensures p > 0
  {
    if n == 0 then 1 else 2 * Pow2(n - 1)
  }

  lemma {:induction false} PowAdd(x: nat, y: nat)
    ensures Pow2(x + y) == Pow2(x) * Pow2(y)
  {
    if x > 0 {
      PowAdd(x - 1, y);
      assert Pow2(x) * Pow2(y) == 2 * (Pow2(x - 1) * Pow2(y));
    }
  }

  lemma WordPowers()
    ensures Pow2(8) == 0x100 && Pow2(16) == 0x1_0000 && Pow2(32) == 0x1_0000_0000
    ensures Pow2(63) == 0x8000_0000_0000_0000 && Pow2(64) == 0x1_0000_0000_0000_0000
  {
    assert Pow2(4) == 16 && Pow2(64) == 2 * Pow2(63);
    hide Pow2;
    PowAdd(4, 4);
    PowAdd(8, 8);
    PowAdd(16, 16);
    PowAdd(32, 32);
  }

  /** Numbers of the same residue are `m` apart. */
  lemma NextResidue(m: nat, r: nat, x: nat, y: nat)
    requires m > 0 && x % m == r
    ensures x <= y < x + m ==> (y % m == r <==> y == x)
    ensures (x + m) % m == r
  {
    var q := x / m;
    assert x == q * m + r && (q + 1) * m == q * m + m;
    DivModUnique(x + m, m, q + 1, r);
    if x <= y < x + m {
      var e := r + (y - x);
      if e < m { DivModUnique(y, m, q, e); } else { DivModUnique(y, m, q + 1, e - m); }
    }
  }
}
