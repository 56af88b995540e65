/** Modular inverses by the extended Euclidean algorithm. */
module Inverse {
  import opened Options
  import opened Arith
  import opened Field

  /** `d` divides `a`. */
  predicate Divides(d: nat, a: int)
    requires d >= 1
  {
    a % d == 0
  }

  ghost predicate IsPrime(p: int) {
    p >= 2 && forall d: nat :: 1 < d < p ==> !Divides(d, p)
  }

  datatype Gcd = Gcd(gcd: nat, x: int)

  /** The tail of the algorithm from remainders (r0, r1) and cofactors (s0, s1) of the operand. */
  function GcdFrom(r0: nat, r1: nat, s0: int, s1: int): Gcd
    decreases r0
  {
    if r0 == 0 then Gcd(r1, s1)
    else GcdFrom(r1 % r0, r0, s1 - (r1 / r0) * s0, s0)
  }

  lemma GcdUnfold(r0: nat, r1: nat, s0: int, s1: int)
    requires r0 > 0
    ensures r1 - (r1 / r0) * r0 == r1 % r0
    ensures GcdFrom(r0, r1, s0, s1) == GcdFrom(r1 % r0, r0, s1 - (r1 / r0) * s0, s0)
  {
    DivMod(r1, r0);
  }

  /** The loop of the num-integer library, on non-negative operands. */
  method ExtendedGcd(operand: nat, modulus: nat) returns (g: Gcd)
    ensures g == GcdFrom(modulus, operand, 0, 1)
  {
    var r0: nat, r1: nat, s0, s1 := modulus, operand, 0, 1;
    while r0 != 0
      invariant GcdFrom(r0, r1, s0, s1) == GcdFrom(modulus, operand, 0, 1)
      decreases r0
    {
      GcdUnfold(r0, r1, s0, s1);
      var q := r1 / r0;
      r0, r1, s0, s1 := r1 - q * r0, r0, s1 - q * s0, s0;
    }
    g := Gcd(r1, s1);
  }

  lemma RemainderBySubtraction(a: nat, b: nat)
    requires b > 0
    ensures a - (a / b) * b == a % b
  {
    DivMod(a, b);
  }

  lemma DividesCombination(d: nat, a: int, b: int, q: int)
    requires d >= 1 && Divides(d, a) && Divides(d, b)
    ensures Divides(d, a + q * b)
  {
    DivMod(a, d);
    DivMod(b, d);
    assert a + q * b == 0 + (a / d + q * (b / d)) * d;
    ModPlusMultiple(0, a / d + q * (b / d), d);
  }

  /** The result divides both starting remainders, and Bezout: it is congruent to x times the operand. */
  lemma {:induction false} GcdDivides(r0: nat, r1: nat, s0: int, s1: int)
    requires r0 > 0 || r1 > 0
    ensures var g := GcdFrom(r0, r1, s0, s1).gcd; g >= 1 && Divides(g, r0) && Divides(g, r1)
    decreases r0
  {
    if r0 == 0 {
      QuotientUnique(r1, r1, 1, 0);
      QuotientUnique(0, r1, 0, 0);
    } else {
      GcdDivides(r1 % r0, r0, s1 - (r1 / r0) * s0, s0);
      DivMod(r1, r0);
      DividesCombination(GcdFrom(r0, r1, s0, s1).gcd, r1 % r0, r0, r1 / r0);
    }
  }

  lemma BezoutStep(m: Modulus, r0: int, r1: int, s0: int, s1: int, q: int, a: int)
    requires Eq(m, r0, s0 * a) && Eq(m, r1, s1 * a)
    ensures Eq(m, r1 - q * r0, (s1 - q * s0) * a)
  {
    EqMul(m, q, q, r0, s0 * a);
    EqAdd(m, r1, s1 * a, q * r0, q * (s0 * a));
    BezoutIdentity(s0, s1, q, a);
  }

  lemma BezoutIdentity(s0: int, s1: int, q: int, a: int)
    ensures s1 * a - q * (s0 * a) == (s1 - q * s0) * a
  {
    assert q * (s0 * a) == q * s0 * a;
  }

  lemma {:induction false} GcdBezout(r0: nat, r1: nat, s0: int, s1: int, m: Modulus, a: int)
    requires Eq(m, r0, s0 * a) && Eq(m, r1, s1 * a)
    ensures Eq(m, GcdFrom(r0, r1, s0, s1).gcd, GcdFrom(r0, r1, s0, s1).x * a)
    decreases r0
  {
    if r0 > 0 {
      var q := r1 / r0;
      RemainderBySubtraction(r1, r0);
      BezoutStep(m, r0, r1, s0, s1, q, a);
      GcdBezout(r1 % r0, r0, s1 - q * s0, s0, m, a);
    }
  }

  function Abs(x: int): nat { if x < 0 then -x else x }

  lemma CofactorStep(r0: int, r1: int, t0: int, t1: int, q: int)
    ensures (t1 + q * t0) * r0 + t0 * (r1 - q * r0) == t0 * r1 + t1 * r0
  {
    assert (t1 + q * t0) * r0 == t1 * r0 + q * t0 * r0;
    assert t0 * (r1 - q * r0) == t0 * r1 - t0 * (q * r0);
    assert q * t0 * r0 == t0 * (q * r0);
  }

  predicate OppositeSigns(a: int, b: int) { a <= 0 <= b || b <= 0 <= a }

  lemma NextCofactor(s0: int, s1: int, q: nat)
    requires OppositeSigns(s0, s1)
    ensures Abs(s1 - q * s0) == Abs(s1) + q * Abs(s0) && OppositeSigns(s1 - q * s0, s0)
  {
    if s0 >= 0 { assert q * s0 >= 0; } else { assert q * s0 <= 0; assert q * (-s0) == -(q * s0); }
  }

  /** Until the end |s0| r1 + |s1| r0 stays equal to the modulus, so the cofactor never exceeds it. */
  lemma {:induction false} CofactorBound(r0: nat, r1: nat, s0: int, s1: int, m: nat)
    requires Abs(s0) * r1 + Abs(s1) * r0 == m && OppositeSigns(s0, s1)
    requires r0 < r1 && Abs(s1) <= Abs(s0)
    ensures GcdFrom(r0, r1, s0, s1).gcd == 1 ==> Abs(GcdFrom(r0, r1, s0, s1).x) <= m
    decreases r0
  {
    if r0 > 0 {
      var q := r1 / r0;
      GcdUnfold(r0, r1, s0, s1);
      NextCofactor(s0, s1, q);
      CofactorStep(r0, r1, Abs(s0), Abs(s1), q);
      QuotientAtLeastOne(r1, r0);
      assert q * Abs(s0) >= Abs(s0) by { NonzeroMultiple(q, Abs(s0)); }
      CofactorBound(r1 % r0, r0, s1 - q * s0, s0, m);
    }
  }

  lemma QuotientAtLeastOne(a: nat, b: nat)
    requires a > b > 0
    ensures a / b >= 1
  {
    DivMod(a, b);
  }

  // ----- the inverse -------------------------------------------------------------------------------

  /** The inverse modulo m of a number prime to it: the cofactor, made non-negative. */
  function InverseOf(m: Modulus, a: nat): int {
    var x := GcdFrom(m, a, 0, 1).x;
    if x < 0 then x + m else x
  }

  /** The operand is invertible exactly when the algorithm does not panic. */
  function GcdOf(m: Modulus, a: nat): nat { GcdFrom(m, a, 0, 1).gcd }

  lemma InverseIsInverse(m: Modulus, a: nat)
    requires GcdOf(m, a) == 1
    ensures 0 < InverseOf(m, a) < m && Eq(m, InverseOf(m, a) * a, 1)
  {
    hide GcdFrom;
    var x := GcdFrom(m, a, 0, 1).x;
    InverseCongruence(m, a, x);
    CofactorInRange(m, a, x);
    NotTrivial(m, a, x);
    ShiftedInverse(m, a, x);
  }

  lemma InverseCongruence(m: Modulus, a: nat, x: int)
    requires GcdOf(m, a) == 1 && x == GcdFrom(m, a, 0, 1).x
    ensures Eq(m, 1, x * a)
  {
    EqFrom(m, m, 0 * a, 1);
    GcdBezout(m, a, 0, 1, m, a);
  }

  lemma CofactorInRange(m: Modulus, a: nat, x: int)
    requires GcdOf(m, a) == 1 && x == GcdFrom(m, a, 0, 1).x
    ensures Abs(x) <= m
  {
    GcdUnfold(m, a, 0, 1);
    DivMod(a, m);
    assert (a / m) * 0 == 0;
    CofactorBound(a % m, m, 1, 0, m);
  }

  lemma ShiftedInverse(m: Modulus, a: nat, x: int)
    requires Eq(m, 1, x * a)
    ensures Eq(m, x * a, 1) && Eq(m, (x + m) * a, 1)
  {
    assert (x + m) * a == x * a + a * m;
    ModPlusMultiple(x * a, a, m);
  }

  /** Zero, and multiples of the modulus, invert nothing. */
  lemma NotTrivial(m: Modulus, a: nat, x: int)
    requires Eq(m, 1, x * a)
    ensures x != 0 && x != m && x != 0 - m
  {
    ModSmall(1, m);
    ModSmall(0, m);
    ModPlusMultiple(0, a, m);
    ModPlusMultiple(0, 0 - a, m);
    assert (0 - m) * a == 0 + (0 - a) * m;
    assert m * a == 0 + a * m;
  }

  /** Modulo a prime exactly the multiples of it are not invertible. */
  lemma GcdWithPrime(m: Modulus, a: nat)
    requires IsPrime(m)
    ensures GcdOf(m, a) == 1 <==> a % m != 0
  {
    GcdDivides(m, a, 0, 1);
    var g := GcdOf(m, a);
    DivMod(m, g);
    if g > m {
      ModSmall(m, g);
    }
    GcdUnfold(m, a, 0, 1);
  }

  /** `mod_inverse`: None where the code panics because the operand is not prime to the modulus. */
  function ModInv(m: Modulus, a: nat): (r: Option<int>)
    ensures r.Some? ==> 0 < r.value < m && Eq(m, r.value * a, 1)
  {
    if GcdOf(m, a) != 1 then None
    else
      InverseIsInverse(m, a);
      Some(InverseOf(m, a))
  }

  method ModInverse(operand: nat, modulus: Modulus) returns (r: Option<int>)
    ensures r == ModInv(modulus, operand)
  {
    var g := ExtendedGcd(operand, modulus);
    if g.gcd != 1 {
      return None;
    }
    r := Some(if g.x < 0 then g.x + modulus else g.x);
  }
}
