/**
 The points of the curve as a cyclic group of prime order, and scalar multiplication by
 double-and-add. That the curve's points form such a group under the affine formulas is a hypothesis
 (`ValidCurve`): `pt(k)` names the k-th multiple of the generator, and adding points adds multiples.
*/
module CurveGroup {
  import opened Options
  import opened Arith
  import opened Field
  import opened Inverse
  import opened Curve

  datatype Params = Params(
    p: Modulus, beta: int,        // y^2 = x^3 + x + beta modulo p
    n: Modulus,                   // the group order
    pt: nat -> Affine,            // multiples of the generator
    sqrt: int -> Option<int>,     // the field's square root, either of the two
    width: nat)                   // bits of a scalar: p <= 2^width

  predicate OnCurve(c: Params, a: Affine) {
    a.infinity || Eq(c.p, a.y * a.y, a.x * a.x * a.x + a.x + c.beta)
  }

  predicate PointOk(c: Params, a: nat) {
    !c.pt(a).infinity && InAffine(c.p, c.pt(a)) && OnCurve(c, c.pt(a))
  }

  /** Adding the affine points adds the multiples. */
  predicate AddsUp(c: Params, a: nat, b: nat) {
    AddDefined(c.p, c.pt(a), c.pt(b)) ==> AffineAdd(c.p, c.pt(a), c.pt(b)) == c.pt((a + b) % c.n)
  }

  ghost predicate IsPoint(c: Params, q: Affine) {
    exists a: nat :: 0 < a < c.n && c.pt(a) == q
  }

  predicate SqrtOk(c: Params, v: int) {
    match c.sqrt(v)
    case None => true
    case Some(y) => In(c.p, y) && Eq(c.p, y * y, v)
  }

  /** A square root is found whenever there is one. */
  ghost predicate SqrtFinds(c: Params, y: int) {
    In(c.p, y) ==> c.sqrt((y * y) % c.p).Some?
  }

  /** The standing hypothesis: p and n are odd primes, the points below n are the distinct points of
      the curve, and they add like their multiples. */
  ghost predicate ValidCurve(c: Params) {
    && IsPrime(c.p) && c.p > 2 && IsPrime(c.n) && c.n > 2
    && c.pt(0) == IDENTITY
    && (forall a: nat :: 0 < a < c.n ==> PointOk(c, a))
    && (forall a: nat, b: nat :: a < c.n && b < c.n && c.pt(a) == c.pt(b) ==> a == b)
    && (forall q: Affine :: !q.infinity && InAffine(c.p, q) && OnCurve(c, q) ==> IsPoint(c, q))
    && (forall a: nat, b: nat :: a < c.n && b < c.n ==> AddsUp(c, a, b))
    && (forall v: int :: In(c.p, v) ==> SqrtOk(c, v))
    && (forall y: int :: SqrtFinds(c, y))
  }

  // ----- consequences ------------------------------------------------------------------------------------

  lemma Facts(c: Params, a: nat)
    requires ValidCurve(c) && 0 < a < c.n
    ensures IsPrime(c.p) && c.p > 2 && IsPrime(c.n) && c.n > 2 && c.pt(0) == IDENTITY && PointOk(c, a)
  {
    hide AddsUp, IsPoint, SqrtOk, SqrtFinds;
  }

  lemma Sums(c: Params, a: nat, b: nat)
    requires ValidCurve(c) && a < c.n && b < c.n
    ensures AddsUp(c, a, b)
  {
    hide PointOk, IsPoint, SqrtOk, SqrtFinds, AddsUp;
  }

  lemma Injective(c: Params, a: nat, b: nat)
    requires ValidCurve(c) && a < c.n && b < c.n && c.pt(a) == c.pt(b)
    ensures a == b
  {
    hide PointOk, IsPoint, SqrtOk, SqrtFinds, AddsUp;
  }

  /** Points with the same x have the same or opposite y. */
  lemma SameXSameOrOpposite(c: Params, a: Affine, b: Affine)
    requires IsPrime(c.p) && OnCurve(c, a) && OnCurve(c, b) && InAffine(c.p, a) && InAffine(c.p, b)
    ensures SameOrOpposite(c.p, a, b)
  {
    if !a.infinity && !b.infinity && a.x == b.x && a.y != b.y {
      var p := c.p;
      EqAdd(p, a.y * a.y, b.y * b.y, b.y * b.y, b.y * b.y);
      assert a.y * a.y - b.y * b.y == (a.y - b.y) * (a.y + b.y) by { DifferenceOfSquares(a.y, b.y); }
      DifferNonzero(p, a.y, b.y);
      ModSmall(0, p);
      if (a.y + b.y) % p != 0 {
        NonzeroProduct(p, a.y - b.y, a.y + b.y);
      }
      EqAdd(p, a.y + b.y, 0, b.y, b.y);
      Reduced(p, 0 - b.y);
      Canonical(p, a.y, Neg(p, b.y));
    }
  }

  lemma DifferenceOfSquares(x: int, y: int)
    ensures x * x - y * y == (x - y) * (x + y)
  {
  }

  /** No addition of points of the curve reaches a panicking inversion. */
  lemma AddIsDefined(c: Params, a: Affine, b: Affine)
    requires IsPrime(c.p) && c.p > 2 && OnCurve(c, a) && OnCurve(c, b) && InAffine(c.p, a) && InAffine(c.p, b)
    ensures AddDefined(c.p, a, b)
  {
    SameXSameOrOpposite(c, a, b);
    if !a.infinity && !b.infinity {
      if a.x != b.x {
        SubNonzero(c.p, b.x, a.x);
      } else if a.y != Neg(c.p, b.y) {
        TwiceNonzeroY(c.p, a.y);
      }
    }
  }

  /** For p odd, 2y vanishes only at a y that is its own opposite. */
  lemma TwiceNonzeroY(p: Modulus, y: int)
    requires IsPrime(p) && p > 2 && In(p, y) && y != Neg(p, y)
    ensures Mul(p, 2, y) % p != 0
  {
    Ops(p, 2, y);
    if (2 * y) % p == 0 {
      ModSmall(0, p);
      EqAdd(p, 2 * y, 0, y, y);
      Reduced(p, 0 - y);
      Canonical(p, y, Neg(p, y));
    }
  }

  /** The sum of two multiples is the multiple of the sum. */
  lemma SumIs(c: Params, a: nat, b: nat)
    requires ValidCurve(c) && a < c.n && b < c.n
    ensures AddDefined(c.p, c.pt(a), c.pt(b)) && AffineAdd(c.p, c.pt(a), c.pt(b)) == c.pt((a + b) % c.n)
    ensures SameOrOpposite(c.p, c.pt(a), c.pt(b))
    ensures InAffine(c.p, c.pt(a)) && OnCurve(c, c.pt(a))
  {
    Facts(c, 1);
    if a > 0 { Facts(c, a); }
    if b > 0 { Facts(c, b); }
    Sums(c, a, b);
    hide ValidCurve;
    AddIsDefined(c, c.pt(a), c.pt(b));
    SameXSameOrOpposite(c, c.pt(a), c.pt(b));
  }

  /** Only the identity is at infinity, and only opposite points cancel. */
  lemma IdentityOnly(c: Params, a: nat)
    requires ValidCurve(c) && a < c.n
    ensures c.pt(a).infinity <==> a == 0
    ensures c.pt(a) == IDENTITY <==> a == 0
  {
    Facts(c, 1);
    if a > 0 { Facts(c, a); }
  }

  predicate Opposite(p: Modulus, a: Affine, b: Affine) {
    !a.infinity && !b.infinity && a.x == b.x && a.y == Neg(p, b.y)
  }

  lemma OppositeIff(c: Params, a: nat, b: nat)
    requires ValidCurve(c) && 0 < a < c.n && 0 < b < c.n
    ensures Opposite(c.p, c.pt(a), c.pt(b)) <==> a + b == c.n
  {
    SumIs(c, a, b);
    Facts(c, a);
    Facts(c, b);
    DivMod(a + b, c.n);
    IdentityOnly(c, (a + b) % c.n);
    hide ValidCurve;
    SumZero(a, b, c.n);
    AddInfinity(c.p, c.pt(a), c.pt(b));
  }

  lemma SumZero(a: nat, b: nat, n: nat)
    requires 0 < a < n && 0 < b < n
    ensures (a + b) % n == 0 <==> a + b == n
  {
    if a + b < n {
      ModSmall(a + b, n);
    } else {
      ModPlusMultiple(a + b - n, 1, n);
      ModSmall(a + b - n, n);
    }
  }

  lemma AddInfinity(p: Modulus, a: Affine, b: Affine)
    requires AddDefined(p, a, b) && !a.infinity && !b.infinity
    ensures AffineAdd(p, a, b).infinity <==> Opposite(p, a, b)
  {
  }

  /** No point other than the identity is its own opposite, so 2y is never zero. */
  lemma NoTwoTorsion(c: Params, a: nat)
    requires ValidCurve(c) && 0 < a < c.n
    ensures Mul(c.p, 2, c.pt(a).y) % c.p != 0
  {
    OppositeIff(c, a, a);
    Facts(c, a);
    OddPrime(c.n, a);
    hide ValidCurve;
    TwiceNonzeroY(c.p, c.pt(a).y);
  }

  lemma OddPrime(n: nat, a: nat)
    requires IsPrime(n) && n > 2
    ensures 2 * a != n
  {
    assert !Divides(2, n);
  }

  /** The opposite multiple is the mirrored point. */
  lemma NegIs(c: Params, a: nat)
    requires ValidCurve(c) && 0 < a < c.n
    ensures c.pt(c.n - a) == AffineNeg(c.p, c.pt(a))
  {
    OppositeIff(c, c.n - a, a);
    Facts(c, c.n - a);
    Facts(c, a);
  }

  /** The x coordinate determines the multiple up to sign. */
  lemma SameX(c: Params, a: nat, b: nat)
    requires ValidCurve(c) && 0 < a < c.n && 0 < b < c.n
    ensures c.pt(a).x == c.pt(b).x <==> a == b || a + b == c.n
  {
    SumIs(c, a, b);
    OppositeIff(c, a, b);
    Facts(c, a);
    Facts(c, b);
    if c.pt(a).x == c.pt(b).x && c.pt(a).y == c.pt(b).y {
      Injective(c, a, b);
    }
  }

  lemma DoubleIs(c: Params, a: nat)
    requires ValidCurve(c) && a < c.n
    ensures c.pt(a).infinity || Mul(c.p, 2, c.pt(a).y) % c.p != 0
    ensures AffineDouble(c.p, c.pt(a)) == c.pt((2 * a) % c.n)
  {
    SumIs(c, a, a);
    IdentityOnly(c, a);
    if a > 0 {
      NoTwoTorsion(c, a);
      OppositeIff(c, a, a);
      OddPrime(c.n, a);
    } else {
      ModSmall(0, c.n);
    }
  }

  // ----- scalar multiplication -------------------------------------------------------------------------------

  /** The number a little-endian list of bits stands for. */
  function Value(bits: seq<bool>): nat {
    if bits == [] then 0 else (if bits[0] then 1 else 0) + 2 * Value(bits[1..])
  }

  /** Double-and-add from the most significant bit, over projective points. */
  function ProjMul(p: Modulus, q: Projective, bits: seq<bool>): Projective {
    if bits == [] then PROJECTIVE_IDENTITY
    else
      var doubled := ProjDouble(p, ProjMul(p, q, bits[1..]));
      if bits[0] then AddProjective(p, doubled, q) else doubled
  }

  method MulProjective(p: Modulus, q: Projective, bits: seq<bool>) returns (product: ProjectivePoint)
    ensures fresh(product) && product.View() == ProjMul(p, q, bits)
  {
    product := new ProjectivePoint(PROJECTIVE_IDENTITY);
    var i := |bits|;
    while i > 0
      invariant 0 <= i <= |bits| && fresh(product)
      invariant product.View() == ProjMul(p, q, bits[i..])
    {
      i := i - 1;
      assert bits[i..][1..] == bits[i + 1..];
      product.DoubleAssign(p);
      if bits[i] {
        product.AddAssign(p, q);
      }
    }
  }

  /** The same loop over affine points; None where an inversion would panic. */
  function AffineMul(p: Modulus, a: Affine, bits: seq<bool>): Option<Affine> {
    if bits == [] then Some(IDENTITY)
    else
      match AffineMul(p, a, bits[1..])
      case None => None
      case Some(acc) =>
        if !(acc.infinity || Mul(p, 2, acc.y) % p != 0) then None
        else
          var doubled := AffineDouble(p, acc);
          if !bits[0] then Some(doubled)
          else if AddDefined(p, doubled, a) then Some(AffineAdd(p, doubled, a))
          else None
  }

  /** Multiples of a multiple. */
  lemma Doubling(n: Modulus, m: nat, a: nat)
    ensures (2 * ((m * a) % n)) % n == (2 * m * a) % n
  {
    Reduced(n, m * a);
    EqMul(n, 2, 2, (m * a) % n, m * a);
    Assoc(2, m, a);
  }

  lemma PlusOne(n: Modulus, m: nat, a: nat)
    requires a < n
    ensures ((m * a) % n + a) % n == ((m + 1) * a) % n
  {
    Reduced(n, m * a);
    EqAdd(n, (m * a) % n, m * a, a, a);
    assert m * a + a == (m + 1) * a;
  }

  /** One turn of the loop: doubling and adding are defined, and give the next multiples. */
  lemma AffineStep(c: Params, a: nat, m: nat)
    requires ValidCurve(c) && 0 < a < c.n
    ensures c.pt((m * a) % c.n).infinity || Mul(c.p, 2, c.pt((m * a) % c.n).y) % c.p != 0
    ensures AffineDouble(c.p, c.pt((m * a) % c.n)) == c.pt((2 * m * a) % c.n)
    ensures AddDefined(c.p, c.pt((2 * m * a) % c.n), c.pt(a))
    ensures AffineAdd(c.p, c.pt((2 * m * a) % c.n), c.pt(a)) == c.pt(((2 * m + 1) * a) % c.n)
  {
    hide ValidCurve, AddDefined, AffineAdd, AffineDouble;
    Reduced(c.n, m * a);
    DoubleIs(c, (m * a) % c.n);
    Doubling(c.n, m, a);
    Reduced(c.n, 2 * m * a);
    SumIs(c, (2 * m * a) % c.n, a);
    PlusOne(c.n, 2 * m, a);
  }

  /** Over affine points double-and-add is right for every scalar. */
  lemma {:induction false} AffineMulIs(c: Params, a: nat, bits: seq<bool>)
    requires ValidCurve(c) && 0 < a < c.n
    ensures AffineMul(c.p, c.pt(a), bits) == Some(c.pt((Value(bits) * a) % c.n))
    decreases |bits|
  {
    Facts(c, a);
    hide ValidCurve, AddDefined, AffineAdd, AffineDouble, PointOk;
    if bits == [] {
      ModSmall(0, c.n);
    } else {
      AffineMulIs(c, a, bits[1..]);
      AffineStep(c, a, Value(bits[1..]));
    }
  }

  method MulAffine(c: Params, ghost a: nat, point: Affine, bits: seq<bool>) returns (product: AffinePoint)
    requires ValidCurve(c) && 0 < a < c.n && point == c.pt(a)
    ensures fresh(product) && Some(product.View()) == AffineMul(c.p, point, bits)
    ensures product.View() == c.pt((Value(bits) * a) % c.n)
  {
    hide ValidCurve, AddDefined, AffineAdd, AffineDouble;
    product := new AffinePoint(IDENTITY);
    var i := |bits|;
    AffineMulIs(c, a, bits[i..]);
    while i > 0
      invariant 0 <= i <= |bits| && fresh(product)
      invariant Some(product.View()) == AffineMul(c.p, point, bits[i..])
    {
      AffineMulIs(c, a, bits[i..]);
      AffineStep(c, a, Value(bits[i..]));
      i := i - 1;
      assert bits[i..][1..] == bits[i + 1..];
      product.DoubleAssign(c.p);
      if bits[i] {
        product.AddAssign(c.p, point);
      }
    }
    AffineMulIs(c, a, bits);
    assert bits[0..] == bits;
  }

  lemma ScaledNonzero(n: Modulus, k: nat, a: nat)
    requires IsPrime(n) && 0 < k < n && 0 < a < n
    ensures (k * a) % n != 0
  {
    ModSmall(k, n);
    ModSmall(a, n);
    NonzeroProduct(n, k, a);
  }

  /** One step of the projective loop: right unless the running product is the opposite of the point. */
  lemma ProjStep(c: Params, q: Projective, acc: Projective, a: nat, m: nat, bit: bool)
    requires ValidCurve(c) && 0 < a < c.n
    requires Represents(c.p, q, c.pt(a)) && Represents(c.p, acc, c.pt((m * a) % c.n))
    ensures Represents(c.p, ProjDouble(c.p, acc), c.pt((2 * m * a) % c.n))
    ensures bit && ((2 * m + 1) * a) % c.n != 0 ==>
      Represents(c.p, AddProjective(c.p, ProjDouble(c.p, acc), q), c.pt(((2 * m + 1) * a) % c.n))
    ensures bit && ((2 * m + 1) * a) % c.n == 0 && (2 * m * a) % c.n != 0 ==>
      Represents(c.p, AddProjective(c.p, ProjDouble(c.p, acc), q), c.pt((2 * (2 * m * a)) % c.n))
  {
    Facts(c, a);
    var e := (m * a) % c.n;
    var f := (2 * m * a) % c.n;
    Reduced(c.n, m * a);
    Reduced(c.n, 2 * m * a);
    DoubleIs(c, e);
    Doubling(c.n, m, a);
    DoubleRepresents(c.p, acc, c.pt(e));
    SumIs(c, f, a);
    PlusOne(c.n, 2 * m, a);
    DoubleIs(c, f);
    EqMul(c.n, 2, 2, f, 2 * m * a);
    IdentityOnly(c, f);
    IdentityOnly(c, (f + a) % c.n);
    hide ValidCurve;
    AddProjectiveRepresents(c.p, ProjDouble(c.p, acc), q, c.pt(f), c.pt(a));
  }

  /** The multiple the projective loop arrives at: where adding one would give zero it doubles instead. */
  function Reached(n: Modulus, bits: seq<bool>): (e: nat)
    ensures e < n
  {
    if bits == [] then 0
    else
      var f := 2 * Reached(n, bits[1..]) % n;
      if !bits[0] then f else if f == n - 1 then 2 * f % n else f + 1
  }

  lemma ScaledResidue(n: Modulus, x: int, a: int)
    ensures (x % n * a) % n == (x * a) % n
  {
    Reduced(n, x);
    EqMul(n, x % n, x, a, a);
  }

  lemma ScaledZero(n: Modulus, x: int, a: nat)
    requires IsPrime(n) && 0 < a < n
    ensures (x * a) % n == 0 <==> x % n == 0
  {
    ModSmall(a, n);
    ModSmall(0, n);
    ScaledResidue(n, x, a);
    if x % n != 0 { NonzeroProduct(n, x, a); }
  }

  lemma NextResidue(n: Modulus, x: int)
    ensures (x + 1) % n == if x % n == n - 1 then 0 else x % n + 1
  {
    DivMod(x, n);
    if x % n == n - 1 {
      assert x + 1 == (x / n + 1) * n + 0;
      QuotientUnique(x + 1, n, x / n + 1, 0);
    } else {
      QuotientUnique(x + 1, n, x / n, x % n + 1);
    }
  }

  /** One turn of the loop on residues. */
  lemma ReachedStep(n: Modulus, m: nat, a: nat)
    requires IsPrime(n) && 0 < a < n
    ensures (2 * m % n * a) % n == (2 * m * a) % n
    ensures 2 * m % n != n - 1 ==> ((2 * m + 1) * a) % n != 0
    ensures 2 * m % n != n - 1 ==> ((2 * m % n + 1) * a) % n == ((2 * m + 1) * a) % n
    ensures 2 * m % n == n - 1 ==> ((2 * m + 1) * a) % n == 0 && (2 * m * a) % n != 0
    ensures 2 * m % n == n - 1 ==> (2 * (2 * m % n) % n * a) % n == (2 * (2 * m * a)) % n
  {
    var f := 2 * m % n;
    ScaledResidue(n, 2 * m, a);
    NextResidue(n, 2 * m);
    ScaledZero(n, 2 * m + 1, a);
    ScaledZero(n, 2 * m, a);
    ScaledResidue(n, 2 * m + 1, a);
    if f == n - 1 {
      ScaledResidue(n, 2 * f, a);
      Assoc(2, f, a);
      EqMul(n, 2, 2, f * a, 2 * m * a);
    }
  }

  /** For every scalar whatever, double-and-add over projective points arrives at that multiple. */
  lemma {:induction false} ProjMulReaches(c: Params, a: nat, q: Projective, bits: seq<bool>)
    requires ValidCurve(c) && 0 < a < c.n && Represents(c.p, q, c.pt(a))
    ensures Represents(c.p, ProjMul(c.p, q, bits), c.pt((Reached(c.n, bits) * a) % c.n))
    decreases |bits|
  {
    Facts(c, a);
    hide ValidCurve, Represents, ProjDouble, AddProjective, PointOk;
    if bits == [] {
      ModSmall(0, c.n);
      IdentityRepresented(c);
    } else {
      ProjMulReaches(c, a, q, bits[1..]);
      var m := Reached(c.n, bits[1..]);
      ReachedStep(c.n, m, a);
      ProjStep(c, q, ProjMul(c.p, q, bits[1..]), a, m, bits[0]);
    }
  }

  lemma IdentityRepresented(c: Params)
    ensures Represents(c.p, PROJECTIVE_IDENTITY, IDENTITY)
  {
  }

  /** Below twice the order only the order itself is missed: no proper prefix of the scalar makes the
      running product opposite to the point. */
  lemma {:induction false} ReachedIs(n: Modulus, bits: seq<bool>)
    requires IsPrime(n) && n > 2 && Value(bits) < 2 * n
    ensures Reached(n, bits) == if Value(bits) == n then n - 2 else Value(bits) % n
  {
    ModSmall(0, n);
    if bits != [] {
      var m := Value(bits[1..]);
      ReachedIs(n, bits[1..]);
      OddPrime(n, m);
      ModSmall(m, n);
      Fold(n, 2 * m);
      Fold(n, Value(bits));
      Fold(n, 2 * (n - 1));
    }
  }

  lemma Fold(n: Modulus, x: nat)
    requires x < 2 * n
    ensures x % n == if x < n then x else x - n
  {
    if x < n { ModSmall(x, n); } else { QuotientUnique(x, n, 1, x - n); }
  }

  /** A projective point represents at most one multiple. */
  lemma RepresentsOnce(c: Params, q: Projective, a: nat, b: nat)
    requires ValidCurve(c) && a < c.n && b < c.n
    requires Represents(c.p, q, c.pt(a)) && Represents(c.p, q, c.pt(b))
    ensures a == b
  {
    IdentityOnly(c, a);
    IdentityOnly(c, b);
    if a > 0 && b > 0 {
      Facts(c, a);
      Facts(c, b);
      EqCancel(c.p, c.pt(a).x, c.pt(b).x, q.z);
      EqCancel(c.p, c.pt(a).y, c.pt(b).y, q.z);
      Injective(c, a, b);
    }
  }

  /** For every scalar: the projective loop computes the multiple exactly when the two residues agree. */
  lemma ProjMulIff(c: Params, a: nat, q: Projective, bits: seq<bool>)
    requires ValidCurve(c) && 0 < a < c.n && Represents(c.p, q, c.pt(a))
    ensures Represents(c.p, ProjMul(c.p, q, bits), c.pt((Value(bits) * a) % c.n))
      <==> Reached(c.n, bits) == Value(bits) % c.n
  {
    ProjMulReaches(c, a, q, bits);
    Facts(c, a);
    hide ValidCurve, Represents;
    var n, e, v := c.n, Reached(c.n, bits), Value(bits);
    ScaledResidue(n, v, a);
    Reduced(n, v * a);
    Reduced(n, e * a);
    Reduced(n, v);
    if Represents(c.p, ProjMul(c.p, q, bits), c.pt((v * a) % n)) {
      RepresentsOnce(c, ProjMul(c.p, q, bits), (e * a) % n, (v * a) % n);
      ModSmall(a, n);
      CancelFactor(n, e, v, a);
      ModSmall(e, n);
    }
  }

  /** Below twice the group order, which bounds every field element, the loop computes the multiple
      for every scalar but the order. */
  lemma ProjMulIs(c: Params, a: nat, q: Projective, bits: seq<bool>)
    requires ValidCurve(c) && 0 < a < c.n && Represents(c.p, q, c.pt(a)) && Value(bits) < 2 * c.n
    ensures Represents(c.p, ProjMul(c.p, q, bits), c.pt((Value(bits) * a) % c.n)) <==> Value(bits) != c.n
  {
    Facts(c, a);
    ProjMulIff(c, a, q, bits);
    hide ValidCurve, Represents;
    ReachedIs(c.n, bits);
    if Value(bits) == c.n { QuotientUnique(c.n, c.n, 1, 0); }
  }

  /** For the group order itself the last addition meets the opposite point, and the loop answers
      minus twice the point instead of the identity. */
  lemma ProjMulAtOrder(c: Params, a: nat, q: Projective, bits: seq<bool>)
    requires ValidCurve(c) && 0 < a < c.n && Represents(c.p, q, c.pt(a)) && Value(bits) == c.n
    ensures !ProjMul(c.p, q, bits).infinity
    ensures Represents(c.p, ProjMul(c.p, q, bits), c.pt(((c.n - 2) * a) % c.n))
  {
    Facts(c, a);
    ReachedIs(c.n, bits);
    ProjMulReaches(c, a, q, bits);
    ScaledNonzero(c.n, c.n - 2, a);
    Reduced(c.n, (c.n - 2) * a);
    IdentityOnly(c, ((c.n - 2) * a) % c.n);
  }

  // ----- bits of a scalar ---------------------------------------------------------------------------------------

  /** The low `count` bits of a number, least significant first. */
  function ToBitsLe(y: nat, count: nat): (bits: seq<bool>)
    ensures |bits| == count
  {
    if count == 0 then [] else [y % 2 == 1] + ToBitsLe(y / 2, count - 1)
  }

  lemma {:induction false} BitsValue(y: nat, count: nat)
    requires y < Pow2(count)
    ensures Value(ToBitsLe(y, count)) == y
    decreases count
  {
    if count > 0 {
      BitsValue(y / 2, count - 1);
      assert ToBitsLe(y, count)[1..] == ToBitsLe(y / 2, count - 1);
    }
  }

  /** Multiplying an affine point by a field element through projective coordinates; the infinity
      flag is lost on the way in and on the way out. None where the last inversion would panic. */
  function MulByBits(c: Params, a: Affine, y: nat): Option<Affine> {
    var z := ProjMul(c.p, FromAffine(a), ToBitsLe(y, c.width));
    if z.z % c.p == 0 then None else Some(ToAffine(c.p, z))
  }

  lemma FromAffineRepresents(c: Params, a: Affine)
    requires !a.infinity
    ensures Represents(c.p, FromAffine(a), a)
  {
    ModSmall(1, c.p);
  }

  /** For scalars below twice the order the result is the multiple exactly when the scalar is no
      multiple of the order: zero comes back as the pair (0, 0) with no infinity flag, and the order
      as minus twice the point. */
  lemma MulByBitsIs(c: Params, a: nat, y: nat)
    requires ValidCurve(c) && 0 < a < c.n && y < 2 * c.n && y < Pow2(c.width)
    ensures MulByBits(c, c.pt(a), y) == Some(c.pt((y * a) % c.n)) <==> y % c.n != 0
    ensures y == 0 ==> MulByBits(c, c.pt(a), y) == Some(Affine(0, 0, false))
    ensures y == c.n ==> MulByBits(c, c.pt(a), y) == Some(c.pt(((c.n - 2) * a) % c.n))
  {
    Facts(c, a);
    hide ValidCurve, PointOk, Represents, ProjMul;
    FromAffineRepresents(c, c.pt(a)) by { Facts(c, a); }
    var n := c.n;
    ModSmall(0, n);
    Fold(n, y);
    if y == 0 {
      ZeroMultiple(c, c.pt(a));
      IdentityOnly(c, 0);
    } else {
      MulByBitsReaches(c, a, y);
      if y == n {
        assert n * a == a * n;
        ModPlusMultiple(0, a, n);
        IdentityOnly(c, 0);
        NotInfinite(c, ((n - 2) * a) % n);
      }
    }
  }

  lemma NotInfinite(c: Params, e: nat)
    requires ValidCurve(c) && 0 < e < c.n
    ensures !c.pt(e).infinity
  {
    Facts(c, e);
  }

  lemma MulByBitsReaches(c: Params, a: nat, y: nat)
    requires ValidCurve(c) && 0 < a < c.n && 0 < y < 2 * c.n && y < Pow2(c.width)
    ensures var e := if y == c.n then c.n - 2 else y;
      0 < (e * a) % c.n < c.n && MulByBits(c, c.pt(a), y) == Some(c.pt((e * a) % c.n))
  {
    Facts(c, a);
    FromAffineRepresents(c, c.pt(a));
    BitsValue(y, c.width);
    var n, bits := c.n, ToBitsLe(y, c.width);
    ReachedIs(n, bits);
    Fold(n, y);
    ProjMulReaches(c, a, FromAffine(c.pt(a)), bits);
    ScaledNonzero(n, Reached(n, bits), a);
    ScaledResidue(n, y, a);
    var f := (Reached(n, bits) * a) % n;
    Reduced(n, Reached(n, bits) * a);
    Facts(c, f);
    hide ValidCurve, ProjMul, ToAffine, Reached;
    ToAffineIs(c.p, ProjMul(c.p, FromAffine(c.pt(a)), bits), c.pt(f));
  }

  lemma ZeroMultiple(c: Params, a: Affine)
    ensures MulByBits(c, a, 0) == Some(Affine(0, 0, false))
  {
    BitsValue(0, c.width);
    ZeroBits(c.p, FromAffine(a), ToBitsLe(0, c.width));
    ModSmall(1, c.p);
    ModSmall(0, c.p);
  }

  lemma {:induction false} ZeroBits(p: Modulus, q: Projective, bits: seq<bool>)
    requires Value(bits) == 0
    ensures ProjMul(p, q, bits) == PROJECTIVE_IDENTITY
    decreases |bits|
  {
    if bits != [] { ZeroBits(p, q, bits[1..]); }
  }
}
