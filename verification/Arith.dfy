/** Division facts for a variable divisor, powers, and choice from a set. */
module Arith {

  lemma NonzeroMultiple(d: int, m: nat)
    ensures d >= 1 ==> d * m >= m
    ensures d <= -1 ==> d * m <= 0 - m
  {
    if d >= 1 {
      assert (d - 1) * m >= 0;
    } else if d <= -1 {
      assert (d + 1) * m <= 0;
    }
  }

  lemma QuotientUnique(x: int, m: nat, q: int, r: int)
    requires m >= 1 && x == q * m + r && 0 <= r < m
    ensures x / m == q && x % m == r
  {
    NonzeroMultiple(q - x / m, m);
    assert (q - x / m) * m == x % m - r;
  }

  lemma DivMod(x: int, m: nat)
    requires m >= 1
    ensures x == (x / m) * m + x % m && 0 <= x % m < m
  {
  }

  /** Adding a multiple of the modulus does not change the residue. */
  lemma ModPlusMultiple(x: int, k: int, m: nat)
    requires m >= 1
    ensures (x + k * m) % m == x % m
  {
    DivMod(x, m);
    assert x + k * m == (x / m + k) * m + x % m;
    QuotientUnique(x + k * m, m, x / m + k, x % m);
  }

  lemma ModSmall(x: int, m: nat)
    requires 0 <= x < m
    ensures x % m == x && x / m == 0
  {
    QuotientUnique(x, m, 0, x);
  }

  function Pow(b: nat, g: nat): nat {
    if g == 0 then 1 else Pow(b, g - 1) * b
  }

  lemma {:induction false} PowPositive(b: nat, g: nat)
    requires b >= 1
    ensures Pow(b, g) >= 1
  {
    if g > 0 {
      PowPositive(b, g - 1);
      NonzeroMultiple(Pow(b, g - 1), b);
    }
  }

  lemma {:induction false} PowAdd(b: nat, g: nat, h: nat)
    ensures Pow(b, g + h) == Pow(b, g) * Pow(b, h)
    decreases h
  {
    if h > 0 {
      PowAdd(b, g, h - 1);
      assert Pow(b, g) * Pow(b, h - 1) * b == Pow(b, g) * (Pow(b, h - 1) * b);
    }
  }

  function Pow2(i: nat): (r: nat)
    ensures r >= 1
  {
    PowPositive(2, i);
    Pow(2, i)
  }

  lemma Member<T>(s: set<T>) returns (a: T)
    requires s != {}
    ensures a in s
  {
    a :| a in s;
  }
}
