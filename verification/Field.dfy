/** Arithmetic modulo p, as field elements compute it: every operation returns the canonical residue. */
module Field {
  import opened Arith

  type Modulus = p: int | 2 <= p witness 2

  /** Congruence modulo p. */
  predicate Eq(p: Modulus, a: int, b: int) { a % p == b % p }

  predicate In(p: Modulus, a: int) { 0 <= a < p }

  function Add(p: Modulus, a: int, b: int): int { (a + b) % p }

  function Sub(p: Modulus, a: int, b: int): int { (a - b) % p }

  function Mul(p: Modulus, a: int, b: int): int { (a * b) % p }

  function Neg(p: Modulus, a: int): int { (-a) % p }

  /** Congruent numbers differ by a multiple. */
  lemma EqWitness(p: Modulus, a: int, b: int) returns (k: int)
    requires Eq(p, a, b)
    ensures a == b + k * p
  {
    DivMod(a, p);
    DivMod(b, p);
    k := a / p - b / p;
  }

  lemma EqFrom(p: Modulus, a: int, b: int, k: int)
    requires a == b + k * p
    ensures Eq(p, a, b)
  {
    ModPlusMultiple(b, k, p);
  }

  lemma EqAdd(p: Modulus, a: int, b: int, c: int, d: int)
    requires Eq(p, a, b) && Eq(p, c, d)
    ensures Eq(p, a + c, b + d) && Eq(p, a - c, b - d)
  {
    var k := EqWitness(p, a, b);
    var l := EqWitness(p, c, d);
    EqFrom(p, a + c, b + d, k + l);
    EqFrom(p, a - c, b - d, k - l);
  }

  lemma EqMul(p: Modulus, a: int, b: int, c: int, d: int)
    requires Eq(p, a, b) && Eq(p, c, d)
    ensures Eq(p, a * c, b * d)
  {
    var k := EqWitness(p, a, b);
    var l := EqWitness(p, c, d);
    ProductDifference(a, b, c, d, k, l, p);
    EqFrom(p, a * c, b * d, k * c + b * l);
  }

  lemma ProductDifference(a: int, b: int, c: int, d: int, k: int, l: int, p: int)
    requires a == b + k * p && c == d + l * p
    ensures a * c == b * d + (k * c + b * l) * p
  {
    assert a * c == b * c + k * p * c;
    assert b * c == b * d + b * l * p;
  }

  /** A result is congruent to the unreduced expression. */
  lemma Reduced(p: Modulus, a: int)
    ensures Eq(p, a % p, a) && In(p, a % p)
  {
    DivMod(a, p);
    EqFrom(p, a % p, a, -(a / p));
  }

  /** Canonical elements that are congruent are equal. */
  lemma Canonical(p: Modulus, a: int, b: int)
    requires In(p, a) && In(p, b) && Eq(p, a, b)
    ensures a == b
  {
    ModSmall(a, p);
    ModSmall(b, p);
  }
}
