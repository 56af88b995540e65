/**
 A curve small enough to compute with: y^2 = x^3 + x + 1 modulo 7, whose five points form a group of
 prime order. It shows that the standing hypothesis can be met, and that the results need message
 hashes to be non-zero.
*/
module ToyCurve {
  import opened Options
  import opened Arith
  import opened Field
  import opened Inverse
  import opened Curve
  import opened CurveGroup
  import opened Ecdsa
  import opened EcdsaVerify

  function Multiple(k: nat): Affine {
    if k == 1 then Affine(0, 1, false)
    else if k == 2 then Affine(2, 5, false)
    else if k == 3 then Affine(2, 2, false)
    else if k == 4 then Affine(0, 6, false)
    else IDENTITY
  }

  function Root(v: int): Option<int> {
    if v == 0 then Some(0) else if v == 1 then Some(1) else if v == 2 then Some(3) else if v == 4 then Some(2) else None
  }

  function Toy(): Params { Params(7, 1, 5, (k: nat) => Multiple(k), (v: int) => Root(v), 3) }

  /** One step of Euclid's algorithm, given its quotient. */
  lemma Euclid(r0: nat, r1: nat, s0: int, s1: int, q: nat, r: nat, s: int)
    requires r1 == q * r0 + r && r < r0 && s == s1 - q * s0
    ensures GcdFrom(r0, r1, s0, s1) == GcdFrom(r, r0, s, s0)
    ensures GcdFrom(0, r0, s, s0) == Gcd(r0, s0)
  {
    QuotientUnique(r1, r0, q, r);
  }

  lemma Inverse1()
    ensures InverseOf(7, 1) == 1
  {
    hide GcdFrom;
    Euclid(7, 1, 0, 1, 0, 1, 1); Euclid(1, 7, 1, 0, 7, 0, 0 - 7);
  }

  lemma Inverse2()
    ensures InverseOf(7, 2) == 4
  {
    hide GcdFrom;
    Euclid(7, 2, 0, 1, 0, 2, 1); Euclid(2, 7, 1, 0, 3, 1, 0 - 3); Euclid(1, 2, 0 - 3, 1, 2, 0, 7);
  }

  lemma Inverse3()
    ensures InverseOf(7, 3) == 5
  {
    hide GcdFrom;
    Euclid(7, 3, 0, 1, 0, 3, 1); Euclid(3, 7, 1, 0, 2, 1, 0 - 2); Euclid(1, 3, 0 - 2, 1, 3, 0, 7);
  }

  lemma Inverse4()
    ensures InverseOf(7, 4) == 2
  {
    hide GcdFrom;
    Euclid(7, 4, 0, 1, 0, 4, 1); Euclid(4, 7, 1, 0, 1, 3, 0 - 1); Euclid(3, 4, 0 - 1, 1, 1, 1, 2);
    Euclid(1, 3, 2, 0 - 1, 3, 0, 0 - 7);
  }

  lemma Inverse5()
    ensures InverseOf(7, 5) == 3
  {
    hide GcdFrom;
    Euclid(7, 5, 0, 1, 0, 5, 1); Euclid(5, 7, 1, 0, 1, 2, 0 - 1); Euclid(2, 5, 0 - 1, 1, 2, 1, 3);
    Euclid(1, 2, 3, 0 - 1, 2, 0, 0 - 7);
  }

  lemma Inverse6()
    ensures InverseOf(7, 6) == 6
  {
    hide GcdFrom;
    Euclid(7, 6, 0, 1, 0, 6, 1); Euclid(6, 7, 1, 0, 1, 1, 0 - 1); Euclid(1, 6, 0 - 1, 1, 6, 0, 7);
  }

  lemma Inverses()
    ensures InverseOf(7, 1) == 1 && InverseOf(7, 2) == 4 && InverseOf(7, 3) == 5
    ensures InverseOf(7, 4) == 2 && InverseOf(7, 5) == 3 && InverseOf(7, 6) == 6
  {
    hide InverseOf;
    Inverse1(); Inverse2(); Inverse3(); Inverse4(); Inverse5(); Inverse6();
  }

  lemma Primes()
    ensures IsPrime(7) && IsPrime(5)
  {
    forall d: nat | 1 < d < 7 ensures !Divides(d, 7) {
      assert d == 2 || d == 3 || d == 4 || d == 5 || d == 6;
    }
    forall d: nat | 1 < d < 5 ensures !Divides(d, 5) {
      assert d == 2 || d == 3 || d == 4;
    }
  }

  /** Following one addition, given its slope and result. */
  lemma Chord(a: Affine, b: Affine, l: int, rx: int, ry: int)
    requires !a.infinity && !b.infinity && a.x != b.x && Sub(7, b.x, a.x) % 7 != 0
    requires Mul(7, Sub(7, b.y, a.y), InverseOf(7, Sub(7, b.x, a.x) % 7)) == l
    requires Sub(7, Sub(7, Mul(7, l, l), a.x), b.x) == rx && Sub(7, Mul(7, l, Sub(7, a.x, rx)), a.y) == ry
    ensures AffineAdd(7, a, b) == Affine(rx, ry, false)
  {
    hide InverseOf, Sub, Mul;
  }

  lemma Tangent(a: Affine, l: int, rx: int, ry: int)
    requires !a.infinity && Mul(7, 2, a.y) % 7 != 0
    requires Mul(7, Add(7, Mul(7, 3, Mul(7, a.x, a.x)), 1), InverseOf(7, Mul(7, 2, a.y) % 7)) == l
    requires Sub(7, Sub(7, Mul(7, l, l), a.x), a.x) == rx && Sub(7, Mul(7, l, Sub(7, a.x, rx)), a.y) == ry
    ensures AffineDouble(7, a) == Affine(rx, ry, false)
  {
    hide InverseOf, Sub, Add, Mul;
  }

  lemma Times(a: nat, b: nat, q: nat)
    requires a * b - 7 * q == (a * b) % 7
    ensures Mul(7, a, b) == a * b - 7 * q
  {
  }

  lemma Less(a: int, b: int)
    requires 0 <= a < 7 && 0 <= b < 7
    ensures Sub(7, a, b) == if a >= b then a - b else a - b + 7
  {
  }

  lemma More(a: int, b: int)
    requires 0 <= a < 7 && 0 <= b < 7
    ensures Add(7, a, b) == if a + b < 7 then a + b else a + b - 7
  {
  }

  lemma Double1()
    ensures Mul(7, 2, 1) == 2
    ensures AffineDouble(7, Affine(0, 1, false)) == Affine(2, 5, false)
  {
    hide GcdFrom, InverseOf, AffineDouble, Mul, Sub, Add;
    Inverses();
    Times(2, 1, 0); Times(0, 0, 0); Times(3, 0, 0); More(0, 1); Times(1, 4, 0);
    Times(4, 4, 2); Less(2, 0); Less(2, 0); Less(0, 2); Times(4, 5, 2); Less(6, 1);
    Tangent(Affine(0, 1, false), 4, 2, 5);
  }

  lemma Double2()
    ensures Mul(7, 2, 5) == 3
    ensures AffineDouble(7, Affine(2, 5, false)) == Affine(0, 6, false)
  {
    hide GcdFrom, InverseOf, AffineDouble, Mul, Sub, Add;
    Inverses();
    Times(2, 5, 1); Times(2, 2, 0); Times(3, 4, 1); More(5, 1); Times(6, 5, 4);
    Times(2, 2, 0); Less(4, 2); Less(2, 2); Less(2, 0); Times(2, 2, 0); Less(4, 5);
    Tangent(Affine(2, 5, false), 2, 0, 6);
  }

  lemma Double3()
    ensures Mul(7, 2, 2) == 4
    ensures AffineDouble(7, Affine(2, 2, false)) == Affine(0, 1, false)
  {
    hide GcdFrom, InverseOf, AffineDouble, Mul, Sub, Add;
    Inverses();
    Times(2, 2, 0); Times(2, 2, 0); Times(3, 4, 1); More(5, 1); Times(6, 2, 1);
    Times(5, 5, 3); Less(4, 2); Less(2, 2); Less(2, 0); Times(5, 2, 1); Less(3, 2);
    Tangent(Affine(2, 2, false), 5, 0, 1);
  }

  lemma Double4()
    ensures Mul(7, 2, 6) == 5
    ensures AffineDouble(7, Affine(0, 6, false)) == Affine(2, 2, false)
  {
    hide GcdFrom, InverseOf, AffineDouble, Mul, Sub, Add;
    Inverses();
    Times(2, 6, 1); Times(0, 0, 0); Times(3, 0, 0); More(0, 1); Times(1, 3, 0);
    Times(3, 3, 1); Less(2, 0); Less(2, 0); Less(0, 2); Times(3, 5, 2); Less(1, 6);
    Tangent(Affine(0, 6, false), 3, 2, 2);
  }

  lemma Chord12()
    ensures Sub(7, 2, 0) == 2
    ensures AffineAdd(7, Affine(0, 1, false), Affine(2, 5, false)) == Affine(2, 2, false)
  {
    hide GcdFrom, InverseOf, AffineAdd, AffineDouble, Mul, Sub, Add;
    Inverses();
    Less(2, 0); Less(5, 1); Times(4, 4, 2);
    Times(2, 2, 0); Less(4, 0); Less(4, 2); Less(0, 2); Times(2, 5, 1); Less(3, 1);
    Chord(Affine(0, 1, false), Affine(2, 5, false), 2, 2, 2);
  }

  lemma Chord13()
    ensures Sub(7, 2, 0) == 2
    ensures AffineAdd(7, Affine(0, 1, false), Affine(2, 2, false)) == Affine(0, 6, false)
  {
    hide GcdFrom, InverseOf, AffineAdd, AffineDouble, Mul, Sub, Add;
    Inverses();
    Less(2, 0); Less(2, 1); Times(1, 4, 0);
    Times(4, 4, 2); Less(2, 0); Less(2, 2); Less(0, 0); Times(4, 0, 0); Less(0, 1);
    Chord(Affine(0, 1, false), Affine(2, 2, false), 4, 0, 6);
  }

  lemma Chord21()
    ensures Sub(7, 0, 2) == 5
    ensures AffineAdd(7, Affine(2, 5, false), Affine(0, 1, false)) == Affine(2, 2, false)
  {
    hide GcdFrom, InverseOf, AffineAdd, AffineDouble, Mul, Sub, Add;
    Inverses();
    Less(0, 2); Less(1, 5); Times(3, 3, 1);
    Times(2, 2, 0); Less(4, 2); Less(2, 0); Less(2, 2); Times(2, 0, 0); Less(0, 5);
    Chord(Affine(2, 5, false), Affine(0, 1, false), 2, 2, 2);
  }

  lemma Chord24()
    ensures Sub(7, 0, 2) == 5
    ensures AffineAdd(7, Affine(2, 5, false), Affine(0, 6, false)) == Affine(0, 1, false)
  {
    hide GcdFrom, InverseOf, AffineAdd, AffineDouble, Mul, Sub, Add;
    Inverses();
    Less(0, 2); Less(6, 5); Times(1, 3, 0);
    Times(3, 3, 1); Less(2, 2); Less(0, 0); Less(2, 0); Times(3, 2, 0); Less(6, 5);
    Chord(Affine(2, 5, false), Affine(0, 6, false), 3, 0, 1);
  }

  lemma Chord31()
    ensures Sub(7, 0, 2) == 5
    ensures AffineAdd(7, Affine(2, 2, false), Affine(0, 1, false)) == Affine(0, 6, false)
  {
    hide GcdFrom, InverseOf, AffineAdd, AffineDouble, Mul, Sub, Add;
    Inverses();
    Less(0, 2); Less(1, 2); Times(6, 3, 2);
    Times(4, 4, 2); Less(2, 2); Less(0, 0); Less(2, 0); Times(4, 2, 1); Less(1, 2);
    Chord(Affine(2, 2, false), Affine(0, 1, false), 4, 0, 6);
  }

  lemma Chord34()
    ensures Sub(7, 0, 2) == 5
    ensures AffineAdd(7, Affine(2, 2, false), Affine(0, 6, false)) == Affine(2, 5, false)
  {
    hide GcdFrom, InverseOf, AffineAdd, AffineDouble, Mul, Sub, Add;
    Inverses();
    Less(0, 2); Less(6, 2); Times(4, 3, 1);
    Times(5, 5, 3); Less(4, 2); Less(2, 0); Less(2, 2); Times(5, 0, 0); Less(0, 2);
    Chord(Affine(2, 2, false), Affine(0, 6, false), 5, 2, 5);
  }

  lemma Chord42()
    ensures Sub(7, 2, 0) == 2
    ensures AffineAdd(7, Affine(0, 6, false), Affine(2, 5, false)) == Affine(0, 1, false)
  {
    hide GcdFrom, InverseOf, AffineAdd, AffineDouble, Mul, Sub, Add;
    Inverses();
    Less(2, 0); Less(5, 6); Times(6, 4, 3);
    Times(3, 3, 1); Less(2, 0); Less(2, 2); Less(0, 0); Times(3, 0, 0); Less(0, 6);
    Chord(Affine(0, 6, false), Affine(2, 5, false), 3, 0, 1);
  }

  lemma Chord43()
    ensures Sub(7, 2, 0) == 2
    ensures AffineAdd(7, Affine(0, 6, false), Affine(2, 2, false)) == Affine(2, 5, false)
  {
    hide GcdFrom, InverseOf, AffineAdd, AffineDouble, Mul, Sub, Add;
    Inverses();
    Less(2, 0); Less(2, 6); Times(3, 4, 1);
    Times(5, 5, 3); Less(4, 0); Less(4, 2); Less(0, 2); Times(5, 5, 3); Less(4, 6);
    Chord(Affine(0, 6, false), Affine(2, 2, false), 5, 2, 5);
  }

  lemma AllAddUp(a: nat, b: nat)
    requires a < 5 && b < 5
    ensures AddsUp(Toy(), a, b)
  {
    hide AffineDouble, AffineAdd, AddDefined;
    Double1(); Double2(); Double3(); Double4();
    Chord12(); Chord13(); Chord21(); Chord24(); Chord31(); Chord34(); Chord42(); Chord43();
    if AddDefined(7, Multiple(a), Multiple(b)) { Trivial(Multiple(a), Multiple(b)); }
    assert a == 0 || a == 1 || a == 2 || a == 3 || a == 4;
    assert b == 0 || b == 1 || b == 2 || b == 3 || b == 4;
  }

  lemma Trivial(a: Affine, b: Affine)
    requires AddDefined(7, a, b)
    ensures b.infinity ==> AffineAdd(7, a, b) == a
    ensures a.infinity && !b.infinity ==> AffineAdd(7, a, b) == b
    ensures !a.infinity && !b.infinity && a.x == b.x ==>
      AffineAdd(7, a, b) == if a.y == Neg(7, b.y) then IDENTITY else AffineDouble(7, a)
  {
  }

  lemma PointsAt(x: int, y: int)
    requires 0 <= x < 7 && 0 <= y < 7 && (y * y) % 7 == (x * x * x + x + 1) % 7
    ensures (x == 0 && (y == 1 || y == 6)) || (x == 2 && (y == 2 || y == 5))
  {
    assert x == 0 || x == 1 || x == 2 || x == 3 || x == 4 || x == 5 || x == 6;
    assert y == 0 || y == 1 || y == 2 || y == 3 || y == 4 || y == 5 || y == 6;
  }

  lemma AllPoints(q: Affine)
    requires !q.infinity && InAffine(7, q) && OnCurve(Toy(), q)
    ensures IsPoint(Toy(), q)
  {
    PointsAt(q.x, q.y);
    var a: nat := if q == Multiple(1) then 1 else if q == Multiple(2) then 2 else if q == Multiple(3) then 3 else 4;
    assert Toy().pt(a) == q;
  }

  lemma AllRoots(v: int)
    ensures In(7, v) ==> SqrtOk(Toy(), v)
    ensures SqrtFinds(Toy(), v)
  {
    assert In(7, v) ==> v == 0 || v == 1 || v == 2 || v == 3 || v == 4 || v == 5 || v == 6;
  }

  /** The hypothesis of the curve theorems holds of this curve. */
  lemma ToyIsValid()
    ensures ValidCurve(Toy())
    ensures ValidScheme(Scheme(Toy(), 5))
  {
    var c := Toy();
    Primes();
    forall a: nat | 0 < a < 5 ensures PointOk(c, a) {
      assert a == 1 || a == 2 || a == 3 || a == 4;
    }
    forall a: nat, b: nat | a < 5 && b < 5 && c.pt(a) == c.pt(b) ensures a == b {
      assert a == 0 || a == 1 || a == 2 || a == 3 || a == 4;
    }
    forall q: Affine | !q.infinity && InAffine(7, q) && OnCurve(c, q) ensures IsPoint(c, q) { AllPoints(q); }
    forall a: nat, b: nat | a < 5 && b < 5 ensures AddsUp(c, a, b) { AllAddUp(a, b); }
    forall v: int | In(7, v) ensures SqrtOk(c, v) { AllRoots(v); }
    forall y: int ensures SqrtFinds(c, y) { AllRoots(y); }
    assert Pow2(3) == 8;
  }

  lemma ModInverses()
    ensures ModInv(5, 2) == Some(3) && ModInv(5, 1) == Some(1)
  {
  }

  lemma ZeroSigned()
    requires MulByBits(Toy(), Toy().pt(1), 2) == Some(Affine(2, 5, false)) && ModInv(5, 2) == Some(3)
    ensures Sign(Scheme(Toy(), 5), 1, 0, 2) == Ok(ExtendedSignature(2, 1, 1))
  {
    hide MulByBits, ModInv;
  }

  /** With message zero a signature can be refused: r = 2 is not lucky, as 2^3 is not 2 + 1 modulo 7. */
  lemma MessageZeroCanFail()
    ensures ValidScheme(Scheme(Toy(), 5))
    ensures Sign(Scheme(Toy(), 5), 1, 0, 2) == Ok(ExtendedSignature(2, 1, 1))
    ensures GetPublicKey(Scheme(Toy(), 5), 1) == Some(0)
    ensures Verify(Scheme(Toy(), 5), 0, 0, 2, 1) == Ok(false)
  {
    hide ValidCurve, ValidScheme, MulByBits, ModInv, Sign, Verify;
    ToyIsValid();
    ModInverses();
    var sch := Scheme(Toy(), 5);
    MulIs(sch, 1, 2);
    ZeroSigned();
    SignThenVerify(sch, 1, 0, 2);
  }

  lemma OffCurveDouble()
    ensures ProjDouble(7, Projective(6, 6, 1, false)) == Projective(1, 6, 6, false)
  {
    hide Mul, Sub, Add;
    Times(3, 6, 2); Times(4, 6, 3); Times(1, 1, 0); More(3, 1); Times(2, 6, 1); Times(5, 1, 0);
    Times(2, 5, 1); Times(4, 4, 2); Times(2, 3, 0); Less(2, 6); Times(5, 6, 4); Times(5, 3, 2);
    Less(3, 3); Times(4, 0, 0); Times(2, 2, 0); Times(4, 2, 1); Less(0, 1); Times(5, 5, 3); Times(4, 5, 2);
  }

  lemma OffCurveSum()
    ensures AddProjective(7, Projective(1, 6, 6, false), Projective(6, 6, 1, false)) == Projective(6, 6, 1, false)
  {
    hide Mul, Sub, Add;
    Times(1, 1, 0); Times(6, 6, 5); Times(3, 1, 0); More(3, 1); Times(2, 6, 1); Times(5, 6, 4);
    Times(2, 2, 0); Times(4, 1, 0); Times(4, 6, 3); Times(4, 4, 2); Times(2, 3, 0); Less(2, 6);
    Less(3, 3); Times(4, 0, 0); Times(2, 5, 1); Times(3, 5, 2); Less(0, 1); Times(4, 2, 1);
  }

  lemma OffCurveMultiple()
    ensures MulByBits(Toy(), Affine(6, 6, false), 3) == Some(Affine(6, 6, false))
  {
    hide Mul, Sub, Add, AddProjective, InverseOf, GcdFrom;
    var q := Projective(6, 6, 1, false);
    OffCurveDouble();
    OffCurveSum();
    Inverses();
    Times(6, 1, 0);
    assert ToBitsLe(3, 3) == [true, true, false];
    var bits := [true, true, false];
    assert bits[1..] == [true, false] && [true, false][1..] == [false] && [false][1..] == [];
    assert ProjMul(7, q, [false]) == PROJECTIVE_IDENTITY;
    assert ProjMul(7, q, [true, false]) == AddProjective(7, PROJECTIVE_IDENTITY, q);
    FromIdentity(q);
    assert ProjMul(7, q, bits) == q;
  }

  lemma FromIdentity(q: Projective)
    ensures AddProjective(7, PROJECTIVE_IDENTITY, q) == if q.infinity then PROJECTIVE_IDENTITY else q
  {
  }

  lemma LeavesTheCurve()
    ensures Minus(7, Affine(2, 5, false), Affine(0, 0, false)) == Some(Affine(6, 6, false))
  {
    hide InverseOf, AffineAdd, AffineDouble, Mul, Sub, Add;
    Inverses();
    Less(0, 2); Less(0, 5); Times(2, 3, 0); Times(6, 6, 5); Less(1, 2);
    Less(6, 0); Less(2, 6); Times(6, 3, 2); Less(4, 5);
    Chord(Affine(2, 5, false), Affine(0, 0, false), 6, 6, 6);
    assert AffineNeg(7, Affine(0, 0, false)) == Affine(0, 0, false);
  }

  lemma NonceRoot()
    ensures FromX(Toy(), 2) == Some(Affine(2, 2, false)) && Neg(7, 2) == 5
  {
    MirrorOfTwo();
    hide Mul, Sub, Add, Neg;
    Times(2, 2, 0); Times(4, 2, 1); Times(1, 2, 0); More(1, 2); More(3, 1);
  }

  lemma MirrorOfTwo()
    ensures Neg(7, 2) == 5
  {
  }

  lemma ZeroRecovered()
    requires FromX(Toy(), 2) == Some(Affine(2, 2, false)) && Neg(7, 2) == 5 && ModInv(5, 2) == Some(3)
    requires MulByBits(Toy(), Affine(2, 5, false), 1) == Some(Affine(2, 5, false))
    requires MulByBits(Toy(), Toy().pt(1), 0) == Some(Affine(0, 0, false))
    requires Minus(7, Affine(2, 5, false), Affine(0, 0, false)) == Some(Affine(6, 6, false))
    requires MulByBits(Toy(), Affine(6, 6, false), 3) == Some(Affine(6, 6, false))
    ensures Recover(Scheme(Toy(), 5), 0, 2, 1, 1) == Ok(6)
  {
    hide MulByBits, ModInv, Minus, FromX, Neg;
  }

  /** With message zero `recover` can return another key: here 6 where the signer's is 0. */
  lemma MessageZeroRecoversAnother()
    ensures Sign(Scheme(Toy(), 5), 1, 0, 2) == Ok(ExtendedSignature(2, 1, 1))
    ensures GetPublicKey(Scheme(Toy(), 5), 1) == Some(0)
    ensures Recover(Scheme(Toy(), 5), 0, 2, 1, 1) == Ok(6)
  {
    hide ValidCurve, ValidScheme, MulByBits, ModInv, Sign, Recover, Minus, FromX;
    MessageZeroCanFail();
    var sch := Scheme(Toy(), 5);
    SchemeCurve(sch);
    ModInverses();
    NonceRoot();
    MulIs(sch, 2, 1);
    MulByBitsIs(Toy(), 1, 0);
    LeavesTheCurve();
    OffCurveMultiple();
    ZeroRecovered();
  }

  lemma SchemeCurve(sch: Scheme)
    requires ValidScheme(sch)
    ensures ValidCurve(sch.c) && sch.c.n <= Pow2(sch.c.width)
  {
    hide ValidCurve;
  }
}
