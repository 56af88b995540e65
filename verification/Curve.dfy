/** Affine and projective point arithmetic over the integers modulo a prime, for y^2 = x^3 + x + b. */
module Curve {
  import opened Arith
  import opened Field
  import opened Inverse

  datatype Affine = Affine(x: int, y: int, infinity: bool)

  datatype Projective = Projective(x: int, y: int, z: int, infinity: bool)

  const IDENTITY: Affine := Affine(0, 0, true)

  const PROJECTIVE_IDENTITY: Projective := Projective(0, 0, 1, true)

  /** `invert().unwrap()`: the canonical inverse; zero would panic. */
  function Inv(p: Modulus, a: int): int
    requires a % p != 0
  {
    InverseOf(p, a % p)
  }

  // ----- affine points -----------------------------------------------------------------------------

  function AffineDouble(p: Modulus, a: Affine): Affine
    requires a.infinity || Mul(p, 2, a.y) % p != 0
  {
    if a.infinity then a
    else
      var lambda := Mul(p, Add(p, Mul(p, 3, Mul(p, a.x, a.x)), 1), Inv(p, Mul(p, 2, a.y)));
      var rx := Sub(p, Sub(p, Mul(p, lambda, lambda), a.x), a.x);
      Affine(rx, Sub(p, Mul(p, lambda, Sub(p, a.x, rx)), a.y), false)
  }

  /** The additions that do not reach a panicking inversion. */
  predicate AddDefined(p: Modulus, a: Affine, b: Affine) {
    a.infinity || b.infinity ||
    if a.x == b.x then a.y == Neg(p, b.y) || Mul(p, 2, a.y) % p != 0
    else Sub(p, b.x, a.x) % p != 0
  }

  function AffineAdd(p: Modulus, a: Affine, b: Affine): Affine
    requires AddDefined(p, a, b)
  {
    if b.infinity then a
    else if a.infinity then b
    else if a.x == b.x then
      if a.y == Neg(p, b.y) then IDENTITY else AffineDouble(p, a)
    else
      var lambda := Mul(p, Sub(p, b.y, a.y), Inv(p, Sub(p, b.x, a.x)));
      var rx := Sub(p, Sub(p, Mul(p, lambda, lambda), a.x), b.x);
      Affine(rx, Sub(p, Mul(p, lambda, Sub(p, a.x, rx)), a.y), false)
  }

  function AffineNeg(p: Modulus, a: Affine): Affine { Affine(a.x, Neg(p, a.y), a.infinity) }

  /** The affine point as the source keeps it, updated in place. */
  class AffinePoint {
    var x: int
    var y: int
    var infinity: bool

    function View(): Affine reads this { Affine(x, y, infinity) }

    constructor (a: Affine)
      ensures View() == a
    {
      x, y, infinity := a.x, a.y, a.infinity;
    }

    method DoubleAssign(p: Modulus)
      requires infinity || Mul(p, 2, y) % p != 0
      modifies this
      ensures View() == AffineDouble(p, old(View()))
    {
      if infinity {
        return;
      }
      var lambda := Mul(p, Add(p, Mul(p, 3, Mul(p, x, x)), 1), Inv(p, Mul(p, 2, y)));
      var resultX := Sub(p, Sub(p, Mul(p, lambda, lambda), x), x);
      y := Sub(p, Mul(p, lambda, Sub(p, x, resultX)), y);
      x := resultX;
    }

    method AddAssign(p: Modulus, rhs: Affine)
      requires AddDefined(p, View(), rhs)
      modifies this
      ensures View() == AffineAdd(p, old(View()), rhs)
    {
      if rhs.infinity {
        return;
      }
      if infinity {
        x, y, infinity := rhs.x, rhs.y, rhs.infinity;
        return;
      }
      if x == rhs.x {
        if y == Neg(p, rhs.y) {
          x, y, infinity := 0, 0, true;
          return;
        }
        DoubleAssign(p);
        return;
      }
      var lambda := Mul(p, Sub(p, rhs.y, y), Inv(p, Sub(p, rhs.x, x)));
      var resultX := Sub(p, Sub(p, Mul(p, lambda, lambda), x), rhs.x);
      y := Sub(p, Mul(p, lambda, Sub(p, x, resultX)), y);
      x := resultX;
    }

    method SubAssign(p: Modulus, rhs: Affine)
      requires AddDefined(p, View(), AffineNeg(p, rhs))
      modifies this
      ensures View() == AffineAdd(p, old(View()), AffineNeg(p, rhs))
    {
      AddAssign(p, Affine(rhs.x, Neg(p, rhs.y), rhs.infinity));
    }
  }

  // ----- projective points ---------------------------------------------------------------------------

  function ProjDouble(p: Modulus, q: Projective): Projective {
    if q.infinity then q
    else
      var t := Add(p, Mul(p, Mul(p, 3, q.x), q.x), Mul(p, q.z, q.z));
      var u := Mul(p, Mul(p, 2, q.y), q.z);
      var v := Mul(p, Mul(p, Mul(p, 2, u), q.x), q.y);
      var w := Sub(p, Mul(p, t, t), Mul(p, 2, v));
      var uy := Mul(p, u, q.y);
      Projective(Mul(p, u, w),
                 Sub(p, Mul(p, t, Sub(p, v, w)), Mul(p, Mul(p, 2, uy), uy)),
                 Mul(p, Mul(p, u, u), u), false)
  }

  /** The common tail of both projective additions, with v the product of the two z coordinates. */
  function ChordTail(p: Modulus, u0: int, u1: int, t0: int, t1: int, v: int): Projective {
    var t := Sub(p, t0, t1);
    var u := Sub(p, u0, u1);
    var u2 := Mul(p, u, u);
    var w := Sub(p, Mul(p, Mul(p, t, t), v), Mul(p, u2, Add(p, u0, u1)));
    var u3 := Mul(p, u, u2);
    Projective(Mul(p, u, w),
               Sub(p, Mul(p, t, Sub(p, Mul(p, u0, u2), w)), Mul(p, t0, u3)),
               Mul(p, u3, v), false)
  }

  /** Adding an affine point. */
  function AddMixed(p: Modulus, q: Projective, b: Affine): Projective {
    if b.infinity then q
    else if q.infinity then Projective(b.x, b.y, 1, b.infinity)
    else
      var u0, u1, t0, t1 := q.x, Mul(p, b.x, q.z), q.y, Mul(p, b.y, q.z);
      if u0 == u1 then
        if t0 != t1 then q.(infinity := true) else ProjDouble(p, q)
      else ChordTail(p, u0, u1, t0, t1, q.z)
  }

  /** Adding a projective point: equal x coordinates are doubled without a look at y. */
  function AddProjective(p: Modulus, q: Projective, b: Projective): Projective {
    if b.infinity then q
    else if q.infinity then b
    else
      var u0, u1 := Mul(p, q.x, b.z), Mul(p, b.x, q.z);
      if u0 == u1 then ProjDouble(p, q)
      else ChordTail(p, u0, u1, Mul(p, q.y, b.z), Mul(p, b.y, q.z), Mul(p, q.z, b.z))
  }

  function FromAffine(a: Affine): Projective { Projective(a.x, a.y, 1, false) }

  /** Back to affine coordinates; the infinity flag is dropped. */
  function ToAffine(p: Modulus, q: Projective): Affine
    requires q.z % p != 0
  {
    var zinv := Inv(p, q.z);
    Affine(Mul(p, q.x, zinv), Mul(p, q.y, zinv), false)
  }

  /** The projective point as the source keeps it, updated in place. */
  class ProjectivePoint {
    var x: int
    var y: int
    var z: int
    var infinity: bool

    function View(): Projective reads this { Projective(x, y, z, infinity) }

    constructor (q: Projective)
      ensures View() == q
    {
      x, y, z, infinity := q.x, q.y, q.z, q.infinity;
    }

    method DoubleAssign(p: Modulus)
      modifies this
      ensures View() == ProjDouble(p, old(View()))
    {
      if infinity {
        return;
      }
      var t := Add(p, Mul(p, Mul(p, 3, x), x), Mul(p, z, z));
      var u := Mul(p, Mul(p, 2, y), z);
      var v := Mul(p, Mul(p, Mul(p, 2, u), x), y);
      var w := Sub(p, Mul(p, t, t), Mul(p, 2, v));
      var uy := Mul(p, u, y);
      x := Mul(p, u, w);
      y := Sub(p, Mul(p, t, Sub(p, v, w)), Mul(p, Mul(p, 2, uy), uy));
      z := Mul(p, Mul(p, u, u), u);
    }

    method SetChord(p: Modulus, u0: int, u1: int, t0: int, t1: int, v: int)
      modifies this
      ensures View() == ChordTail(p, u0, u1, t0, t1, v).(infinity := old(infinity))
    {
      var t := Sub(p, t0, t1);
      var u := Sub(p, u0, u1);
      var u2 := Mul(p, u, u);
      var w := Sub(p, Mul(p, Mul(p, t, t), v), Mul(p, u2, Add(p, u0, u1)));
      var u3 := Mul(p, u, u2);
      x := Mul(p, u, w);
      y := Sub(p, Mul(p, t, Sub(p, Mul(p, u0, u2), w)), Mul(p, t0, u3));
      z := Mul(p, u3, v);
    }

    method AddAssignAffine(p: Modulus, rhs: Affine)
      modifies this
      ensures View() == AddMixed(p, old(View()), rhs)
    {
      if rhs.infinity {
        return;
      }
      if infinity {
        x, y, z, infinity := rhs.x, rhs.y, 1, rhs.infinity;
        return;
      }
      var u0, u1 := x, Mul(p, rhs.x, z);
      var t0, t1 := y, Mul(p, rhs.y, z);
      if u0 == u1 {
        if t0 != t1 {
          infinity := true;
        } else {
          DoubleAssign(p);
        }
        return;
      }
      SetChord(p, u0, u1, t0, t1, z);
    }

    method AddAssign(p: Modulus, rhs: Projective)
      modifies this
      ensures View() == AddProjective(p, old(View()), rhs)
    {
      if rhs.infinity {
        return;
      }
      if infinity {
        x, y, z, infinity := rhs.x, rhs.y, rhs.z, rhs.infinity;
        return;
      }
      var u0, u1 := Mul(p, x, rhs.z), Mul(p, rhs.x, z);
      if u0 == u1 {
        DoubleAssign(p);
        return;
      }
      SetChord(p, u0, u1, Mul(p, y, rhs.z), Mul(p, rhs.y, z), Mul(p, z, rhs.z));
    }
  }

  // ----- what the coordinates are congruent to -----------------------------------------------------

  lemma Ops(p: Modulus, a: int, b: int)
    ensures Eq(p, Add(p, a, b), a + b) && Eq(p, Sub(p, a, b), a - b) && Eq(p, Mul(p, a, b), a * b)
    ensures In(p, Add(p, a, b)) && In(p, Sub(p, a, b)) && In(p, Mul(p, a, b))
  {
    Reduced(p, a + b);
    Reduced(p, a - b);
    Reduced(p, a * b);
  }

  lemma Scale(p: Modulus, k: int, a: int, b: int)
    requires Eq(p, a, b)
    ensures Eq(p, k * a, k * b)
  {
    EqMul(p, k, k, a, b);
  }

  lemma InvIsInverse(p: Modulus, a: int)
    requires IsPrime(p) && a % p != 0
    ensures Eq(p, Inv(p, a) * a, 1) && In(p, Inv(p, a))
  {
    Reduced(p, a);
    GcdWithPrime(p, a % p);
    InverseIsInverse(p, a % p);
    EqMul(p, Inv(p, a), Inv(p, a), a, a % p);
  }

  lemma Assoc(a: int, b: int, c: int)
    ensures a * (b * c) == a * b * c
  {
  }

  lemma NonzeroProduct(p: Modulus, a: int, b: int)
    requires IsPrime(p) && a % p != 0 && b % p != 0
    ensures (a * b) % p != 0
  {
    if (a * b) % p == 0 {
      InvIsInverse(p, a);
      ModSmall(0, p);
      var i := Inv(p, a);
      EqMul(p, i, i, a * b, 0);
      EqMul(p, i * a, 1, b, b);
      Assoc(i, a, b);
    }
  }

  /** A quotient d / e is the number whose product with e is d. */
  lemma QuotientIs(p: Modulus, d: int, e: int)
    requires IsPrime(p) && e % p != 0
    ensures Eq(p, Mul(p, d, Inv(p, e)) * e, d)
  {
    var i := Inv(p, e);
    InvIsInverse(p, e);
    Ops(p, d, i);
    EqMul(p, Mul(p, d, i), d * i, e, e);
    EqMul(p, d, d, i * e, 1);
    assert d * i * e == d * (i * e);
  }

  /** The line through or tangent to given points: slope, third point. */
  predicate Slope(p: Modulus, l: int, a: Affine, b: Affine, r: Affine) {
    && Eq(p, r.x, l * l - a.x - b.x)
    && Eq(p, r.y, l * (a.x - r.x) - a.y)
    && In(p, r.x) && In(p, r.y) && !r.infinity
  }

  lemma ThirdPoint(p: Modulus, l: int, a: Affine, b: Affine)
    ensures var rx := Sub(p, Sub(p, Mul(p, l, l), a.x), b.x);
      Slope(p, l, a, b, Affine(rx, Sub(p, Mul(p, l, Sub(p, a.x, rx)), a.y), false))
  {
    var ll := Mul(p, l, l);
    var s := Sub(p, ll, a.x);
    var rx := Sub(p, s, b.x);
    Ops(p, l, l); Ops(p, ll, a.x); Ops(p, s, b.x);
    EqAdd(p, ll, l * l, a.x, a.x);
    EqAdd(p, s, l * l - a.x, b.x, b.x);
    var d := Sub(p, a.x, rx);
    var m := Mul(p, l, d);
    Ops(p, a.x, rx); Ops(p, l, d); Ops(p, m, a.y);
    EqMul(p, l, l, d, a.x - rx);
    EqAdd(p, m, l * (a.x - rx), a.y, a.y);
  }

  lemma DoubleSlope(p: Modulus, a: Affine) returns (l: int)
    requires IsPrime(p) && !a.infinity && Mul(p, 2, a.y) % p != 0
    ensures Eq(p, l * (2 * a.y), 3 * (a.x * a.x) + 1) && Slope(p, l, a, a, AffineDouble(p, a))
  {
    var e := Mul(p, 2, a.y);
    var xx := Mul(p, a.x, a.x);
    var txx := Mul(p, 3, xx);
    var d := Add(p, txx, 1);
    l := Mul(p, d, Inv(p, e));
    QuotientIs(p, d, e);
    Ops(p, 2, a.y); Ops(p, a.x, a.x); Ops(p, 3, xx); Ops(p, txx, 1);
    EqMul(p, l, l, e, 2 * a.y);
    EqMul(p, 3, 3, xx, a.x * a.x);
    EqAdd(p, txx, 3 * (a.x * a.x), 1, 1);
    ThirdPoint(p, l, a, a);
  }

  lemma ChordSlope(p: Modulus, a: Affine, b: Affine) returns (l: int)
    requires IsPrime(p) && !a.infinity && !b.infinity && a.x != b.x && Sub(p, b.x, a.x) % p != 0
    ensures Eq(p, l * (b.x - a.x), b.y - a.y) && Slope(p, l, a, b, AffineAdd(p, a, b))
  {
    var e, d := Sub(p, b.x, a.x), Sub(p, b.y, a.y);
    l := Mul(p, d, Inv(p, e));
    QuotientIs(p, d, e);
    Ops(p, b.x, a.x); Ops(p, b.y, a.y);
    EqMul(p, l, l, e, b.x - a.x);
    ThirdPoint(p, l, a, b);
  }

  // ----- the projective formulas represent the affine ones ----------------------------------------------

  /** (x : y : z) stands for the affine point (x / z, y / z). */
  predicate Represents(p: Modulus, q: Projective, a: Affine) {
    && q.infinity == a.infinity
    && (!q.infinity ==> q.z % p != 0 && Eq(p, q.x, a.x * q.z) && Eq(p, q.y, a.y * q.z))
  }

  /** u = 2 Y z^2 and t = l u. */
  lemma DoubleSlopeScaled(p: Modulus, q: Projective, a: Affine, l: int, t: int, u: int)
    requires Eq(p, q.x, a.x * q.z) && Eq(p, q.y, a.y * q.z) && Eq(p, l * (2 * a.y), 3 * (a.x * a.x) + 1)
    requires Eq(p, t, 3 * (q.x * q.x) + q.z * q.z) && Eq(p, u, 2 * (q.y * q.z))
    ensures Eq(p, u, 2 * (a.y * (q.z * q.z))) && Eq(p, t, l * u)
  {
    var z := q.z;
    UScaled(p, q.y, a.y, z, u);
    TScaled(p, q.x, a.x, z, t);
    var zz := z * z;
    EqMul(p, zz, zz, l * (2 * a.y), 3 * (a.x * a.x) + 1);
    EqMul(p, l, l, u, 2 * (a.y * zz));
    SlopeIdentity(zz, l, a.y);
  }

  lemma SlopeIdentity(zz: int, l: int, y: int)
    ensures zz * (l * (2 * y)) == l * (2 * (y * zz))
  {
    assert zz * (l * (2 * y)) == 2 * (l * (y * zz));
  }

  lemma UScaled(p: Modulus, y: int, Y: int, z: int, u: int)
    requires Eq(p, y, Y * z) && Eq(p, u, 2 * (y * z))
    ensures Eq(p, u, 2 * (Y * (z * z)))
  {
    EqMul(p, y, Y * z, z, z);
    Scale(p, 2, y * z, Y * z * z);
    Assoc(Y, z, z);
  }

  lemma TScaled(p: Modulus, x: int, X: int, z: int, t: int)
    requires Eq(p, x, X * z) && Eq(p, t, 3 * (x * x) + z * z)
    ensures Eq(p, t, z * z * (3 * (X * X) + 1))
  {
    EqMul(p, x, X * z, x, X * z);
    Scale(p, 3, x * x, X * z * (X * z));
    EqAdd(p, 3 * (x * x), 3 * (X * z * (X * z)), z * z, z * z);
    SquareFactor(X, z);
  }

  lemma SquareFactor(X: int, z: int)
    ensures 3 * (X * z * (X * z)) + z * z == z * z * (3 * (X * X) + 1)
  {
    assert X * z * (X * z) == z * z * (X * X);
  }

  /** v = X u^2. */
  lemma VScaled(p: Modulus, q: Projective, a: Affine, u: int, v: int)
    requires Eq(p, q.x, a.x * q.z) && Eq(p, q.y, a.y * q.z)
    requires Eq(p, u, 2 * (a.y * (q.z * q.z))) && Eq(p, v, 2 * (u * (q.x * q.y)))
    ensures Eq(p, v, a.x * (u * u))
  {
    var m := a.y * (q.z * q.z);
    EqMul(p, q.x, a.x * q.z, q.y, a.y * q.z);
    CrossIdentity(a.x, a.y, q.z);
    EqMul(p, 2 * u, 2 * u, q.x * q.y, a.x * m);
    EqMul(p, u * a.x, u * a.x, u, 2 * m);
    VIdentity(u, a.x, m, q.x * q.y);
  }

  lemma CrossIdentity(x: int, y: int, z: int)
    ensures x * z * (y * z) == x * (y * (z * z))
  {
  }

  lemma VIdentity(u: int, x: int, m: int, n: int)
    ensures 2 * u * (x * m) == u * x * (2 * m) && u * x * u == x * (u * u) && 2 * (u * n) == 2 * u * n
  {
    assert u * x * (2 * m) == 2 * (u * x * m);
    assert 2 * u * (x * m) == 2 * (u * (x * m));
    Assoc(u, x, m);
  }

  lemma DoubleFormula(p: Modulus, q: Projective, a: Affine, r: Affine, l: int, t: int, u: int, v: int, w: int)
    requires Eq(p, q.x, a.x * q.z) && Eq(p, q.y, a.y * q.z)
    requires Eq(p, l * (2 * a.y), 3 * (a.x * a.x) + 1) && Slope(p, l, a, a, r)
    requires Eq(p, t, 3 * (q.x * q.x) + q.z * q.z) && Eq(p, u, 2 * (q.y * q.z))
    requires Eq(p, v, 2 * (u * (q.x * q.y))) && Eq(p, w, t * t - 2 * v)
    ensures Eq(p, u, 2 * (a.y * (q.z * q.z)))
    ensures Eq(p, u * w, r.x * (u * u * u))
    ensures Eq(p, t * (v - w) - 2 * (u * q.y * (u * q.y)), r.y * (u * u * u))
  {
    DoubleSlopeScaled(p, q, a, l, t, u);
    VScaled(p, q, a, u, v);
    DoubleW(p, a, r, l, t, u, v, w);
    hide Eq;
    DoubleX(p, r.x, u, w);
    DoubleTail(p, a, r, l, t, u, v, w);
    DoubleY(p, q, a, u);
    DoubleYFinish(p, a, r, l, u, t * (v - w), 2 * (u * q.y * (u * q.y)));
  }

  /** w = r.x u^2. */
  lemma DoubleW(p: Modulus, a: Affine, r: Affine, l: int, t: int, u: int, v: int, w: int)
    requires Eq(p, t, l * u) && Eq(p, v, a.x * (u * u)) && Eq(p, w, t * t - 2 * v)
    requires Eq(p, r.x, l * l - a.x - a.x)
    ensures Eq(p, w, r.x * (u * u))
  {
    var uu := u * u;
    EqMul(p, t, l * u, t, l * u);
    Scale(p, 2, v, a.x * uu);
    EqAdd(p, t * t, l * u * (l * u), 2 * v, 2 * (a.x * uu));
    WIdentity(l, u, uu, a.x);
    EqMul(p, r.x, l * l - a.x - a.x, uu, uu);
  }

  lemma WIdentity(l: int, u: int, uu: int, x: int)
    requires uu == u * u
    ensures l * u * (l * u) - 2 * (x * uu) == (l * l - x - x) * uu
  {
    assert l * u * (l * u) == l * l * (u * u);
  }

  lemma DoubleX(p: Modulus, rx: int, u: int, w: int)
    requires Eq(p, w, rx * (u * u))
    ensures Eq(p, u * w, rx * (u * u * u))
  {
    EqMul(p, u, u, w, rx * (u * u));
    CubeIdentity(rx, u);
  }

  lemma CubeIdentity(x: int, u: int)
    ensures u * (x * (u * u)) == x * (u * u * u)
  {
    assert u * u * u == u * (u * u);
  }

  lemma DoubleTail(p: Modulus, a: Affine, r: Affine, l: int, t: int, u: int, v: int, w: int)
    requires Eq(p, t, l * u) && Eq(p, v, a.x * (u * u)) && Eq(p, w, r.x * (u * u))
    ensures Eq(p, t * (v - w), l * (a.x - r.x) * (u * u * u))
  {
    EqAdd(p, v, a.x * (u * u), w, r.x * (u * u));
    EqMul(p, t, l * u, v - w, a.x * (u * u) - r.x * (u * u));
    TailIdentity(l, u, a.x, r.x);
  }

  lemma TailIdentity(l: int, u: int, x: int, rx: int)
    ensures l * u * (x * (u * u) - rx * (u * u)) == l * (x - rx) * (u * u * u)
  {
    assert x * (u * u) - rx * (u * u) == (x - rx) * (u * u);
    assert l * u * ((x - rx) * (u * u)) == l * (x - rx) * (u * (u * u));
  }

  lemma DoubleYFinish(p: Modulus, a: Affine, r: Affine, l: int, u: int, f: int, g: int)
    requires Eq(p, f, l * (a.x - r.x) * (u * u * u)) && Eq(p, g, a.y * (u * u * u))
    requires Eq(p, r.y, l * (a.x - r.x) - a.y)
    ensures Eq(p, f - g, r.y * (u * u * u))
  {
    var c, m := u * u * u, l * (a.x - r.x);
    EqAdd(p, f, m * c, g, a.y * c);
    EqMul(p, r.y, m - a.y, c, c);
    assert (m - a.y) * c == m * c - a.y * c;
  }

  /** 2 (u y)^2 = Y u^3, because u = 2 y z and y = Y z. */
  lemma DoubleY(p: Modulus, q: Projective, a: Affine, u: int)
    requires Eq(p, q.y, a.y * q.z) && Eq(p, u, 2 * (q.y * q.z))
    ensures Eq(p, 2 * (u * q.y * (u * q.y)), a.y * (u * u * u))
  {
    EqMul(p, 2 * q.y, 2 * q.y, q.y, a.y * q.z);
    EqMul(p, a.y, a.y, u, 2 * (q.y * q.z));
    assert 2 * q.y * (a.y * q.z) == a.y * (2 * (q.y * q.z));
    assert Eq(p, 2 * (q.y * q.y), a.y * u) by { assert 2 * q.y * q.y == 2 * (q.y * q.y); }
    EqMul(p, u * u, u * u, 2 * (q.y * q.y), a.y * u);
    assert u * u * (2 * (q.y * q.y)) == 2 * (u * q.y * (u * q.y));
    assert u * u * (a.y * u) == a.y * (u * u * u);
  }

  /** Projective doubling computes the affine double. */
  lemma DoubleRepresents(p: Modulus, q: Projective, a: Affine)
    requires IsPrime(p) && Represents(p, q, a) && (a.infinity || Mul(p, 2, a.y) % p != 0)
    ensures Represents(p, ProjDouble(p, q), AffineDouble(p, a))
  {
    if !q.infinity {
      var l := DoubleSlope(p, a);
      var r := AffineDouble(p, a);
      var x3 := Mul(p, 3, q.x);
      var xx, zz := Mul(p, x3, q.x), Mul(p, q.z, q.z);
      var t := Add(p, xx, zz);
      var y2 := Mul(p, 2, q.y);
      var u := Mul(p, y2, q.z);
      DoubleTU(p, q, x3, xx, zz, t, y2, u);
      var u2 := Mul(p, 2, u);
      var u2x := Mul(p, u2, q.x);
      var v := Mul(p, u2x, q.y);
      var tt, v2 := Mul(p, t, t), Mul(p, 2, v);
      var w := Sub(p, tt, v2);
      DoubleVW(p, q, t, u, u2, u2x, v, tt, v2, w);
      DoubleFormula(p, q, a, r, l, t, u, v, w);
      var uy := Mul(p, u, q.y);
      var uy2 := Mul(p, 2, uy);
      var uyuy, vw := Mul(p, uy2, uy), Sub(p, v, w);
      var tvw, uu := Mul(p, t, vw), Mul(p, u, u);
      DoubleXYZ(p, q, t, u, v, w, uy, uy2, uyuy, vw, tvw, uu);
      var d := ProjDouble(p, q);
      EqMul(p, r.x, r.x, d.z, u * u * u);
      EqMul(p, r.y, r.y, d.z, u * u * u);
      TwiceNonzero(p, a.y, q.z);
      NonzeroProduct(p, u, u);
      NonzeroProduct(p, u * u, u);
    }
  }

  lemma TwiceNonzero(p: Modulus, y: int, z: int)
    requires IsPrime(p) && Mul(p, 2, y) % p != 0 && z % p != 0
    ensures (2 * (y * (z * z))) % p != 0
  {
    Ops(p, 2, y);
    NonzeroProduct(p, z, z);
    NonzeroProduct(p, 2 * y, z * z);
    assert 2 * y * (z * z) == 2 * (y * (z * z));
  }

  lemma MulMul(p: Modulus, a: int, b: int, c: int)
    ensures Eq(p, Mul(p, Mul(p, a, b), c), a * (b * c))
  {
    Ops(p, a, b);
    Ops(p, Mul(p, a, b), c);
    EqMul(p, Mul(p, a, b), a * b, c, c);
    Assoc(a, b, c);
  }

  lemma DoubleTU(p: Modulus, q: Projective, x3: int, xx: int, zz: int, t: int, y2: int, u: int)
    requires x3 == Mul(p, 3, q.x) && xx == Mul(p, x3, q.x) && zz == Mul(p, q.z, q.z) && t == Add(p, xx, zz)
    requires y2 == Mul(p, 2, q.y) && u == Mul(p, y2, q.z)
    ensures Eq(p, t, 3 * (q.x * q.x) + q.z * q.z) && Eq(p, u, 2 * (q.y * q.z))
  {
    MulMul(p, 3, q.x, q.x);
    MulMul(p, 2, q.y, q.z);
    Ops(p, q.z, q.z); Ops(p, xx, zz);
    EqAdd(p, xx, 3 * (q.x * q.x), zz, q.z * q.z);
  }

  lemma DoubleVW(p: Modulus, q: Projective, t: int, u: int, u2: int, u2x: int, v: int, tt: int, v2: int, w: int)
    requires u2 == Mul(p, 2, u) && u2x == Mul(p, u2, q.x) && v == Mul(p, u2x, q.y)
    requires tt == Mul(p, t, t) && v2 == Mul(p, 2, v) && w == Sub(p, tt, v2)
    ensures Eq(p, v, 2 * (u * (q.x * q.y))) && Eq(p, w, t * t - 2 * v)
  {
    MulMul(p, u2, q.x, q.y);
    Ops(p, 2, u);
    EqMul(p, u2, 2 * u, q.x * q.y, q.x * q.y);
    Assoc(2, u, q.x * q.y);
    SquareMinusTwice(p, t, v);
  }

  lemma SquareMinusTwice(p: Modulus, t: int, v: int)
    ensures Eq(p, Sub(p, Mul(p, t, t), Mul(p, 2, v)), t * t - 2 * v)
  {
    var tt, v2 := Mul(p, t, t), Mul(p, 2, v);
    Ops(p, t, t); Ops(p, 2, v); Ops(p, tt, v2);
    EqAdd(p, tt, t * t, v2, 2 * v);
  }

  lemma DoubleXYZ(p: Modulus, q: Projective, t: int, u: int, v: int, w: int,
                  uy: int, uy2: int, uyuy: int, vw: int, tvw: int, uu: int)
    requires uy == Mul(p, u, q.y) && uy2 == Mul(p, 2, uy) && uyuy == Mul(p, uy2, uy)
    requires vw == Sub(p, v, w) && tvw == Mul(p, t, vw) && uu == Mul(p, u, u)
    ensures Eq(p, Mul(p, u, w), u * w) && Eq(p, Mul(p, uu, u), u * u * u)
    ensures Eq(p, Sub(p, tvw, uyuy), t * (v - w) - 2 * (u * q.y * (u * q.y)))
  {
    Ops(p, u, w);
    MulMul(p, u, u, u);
    Assoc(u, u, u);
    Ops(p, v, w); Ops(p, t, vw);
    EqMul(p, t, t, vw, v - w);
    TwiceSquare(p, u, q.y);
    Ops(p, tvw, uyuy);
    EqAdd(p, tvw, t * (v - w), uyuy, 2 * (u * q.y * (u * q.y)));
  }

  lemma TwiceSquare(p: Modulus, u: int, y: int)
    ensures Eq(p, Mul(p, Mul(p, 2, Mul(p, u, y)), Mul(p, u, y)), 2 * (u * y * (u * y)))
  {
    var uy := Mul(p, u, y);
    MulMul(p, 2, uy, uy);
    Ops(p, u, y);
    EqMul(p, uy, u * y, uy, u * y);
    Scale(p, 2, uy * uy, u * y * (u * y));
  }

  // ----- the chord ----------------------------------------------------------------------------------------

  lemma ChordFormula(p: Modulus, a: Affine, b: Affine, r: Affine, l: int, u0: int, u1: int, t0: int, t1: int, v: int,
                     t: int, u: int, w: int)
    requires Eq(p, u0, a.x * v) && Eq(p, u1, b.x * v) && Eq(p, t0, a.y * v) && Eq(p, t1, b.y * v)
    requires Eq(p, l * (b.x - a.x), b.y - a.y) && Slope(p, l, a, b, r)
    requires Eq(p, t, t0 - t1) && Eq(p, u, u0 - u1) && Eq(p, w, t * t * v - u * u * (u0 + u1))
    ensures Eq(p, u * w, r.x * (u * (u * u) * v))
    ensures Eq(p, t * (u0 * (u * u) - w) - t0 * (u * (u * u)), r.y * (u * (u * u) * v))
  {
    hide Eq;
    ChordSlopeScaled(p, a, b, l, u0, u1, t0, t1, v, t, u);
    ChordW(p, a, b, r, l, u0, u1, v, t, u, w);
    ChordX(p, r.x, u, v, w);
    ChordLeft(p, a, r, l, u0, v, t, u, w);
    ChordRight(p, a, t0, v, u);
    ChordYFinish(p, a, r, l, u, v, t * (u0 * (u * u) - w), t0 * (u * (u * u)));
  }

  /** t = l u. */
  lemma ChordSlopeScaled(p: Modulus, a: Affine, b: Affine, l: int, u0: int, u1: int, t0: int, t1: int, v: int, t: int,
                         u: int)
    requires Eq(p, u0, a.x * v) && Eq(p, u1, b.x * v) && Eq(p, t0, a.y * v) && Eq(p, t1, b.y * v)
    requires Eq(p, l * (b.x - a.x), b.y - a.y) && Eq(p, t, t0 - t1) && Eq(p, u, u0 - u1)
    ensures Eq(p, t, l * u)
  {
    EqAdd(p, u0, a.x * v, u1, b.x * v);
    EqAdd(p, t0, a.y * v, t1, b.y * v);
    EqMul(p, 0 - v, 0 - v, l * (b.x - a.x), b.y - a.y);
    EqMul(p, l, l, u, a.x * v - b.x * v);
    ChordSlopeIdentity(v, l, a.x, b.x, a.y, b.y);
  }

  lemma ChordSlopeIdentity(v: int, l: int, ax: int, bx: int, ay: int, dy: int)
    ensures (0 - v) * (l * (bx - ax)) == l * (ax * v - bx * v)
    ensures (0 - v) * (dy - ay) == ay * v - dy * v
  {
    assert ax * v - bx * v == (0 - v) * (bx - ax);
    assert l * ((0 - v) * (bx - ax)) == (0 - v) * (l * (bx - ax));
  }

  /** w = r.x u^2 v. */
  lemma ChordW(p: Modulus, a: Affine, b: Affine, r: Affine, l: int, u0: int, u1: int, v: int, t: int, u: int, w: int)
    requires Eq(p, u0, a.x * v) && Eq(p, u1, b.x * v) && Eq(p, t, l * u)
    requires Slope(p, l, a, b, r) && Eq(p, w, t * t * v - u * u * (u0 + u1))
    ensures Eq(p, w, r.x * (u * u * v))
  {
    hide Eq;
    TSquared(p, t, l * u, v);
    ScaledSum(p, u0, a.x * v, u1, b.x * v, u * u);
    EqSub(p, t * t * v, l * u * (l * u) * v, u * u * (u0 + u1), u * u * (a.x * v + b.x * v));
    ChordWIdentity(l, u, v, a.x, b.x);
    SlopeX(p, l, a, b, r, u * u * v);
    EqTrans(p, w, t * t * v - u * u * (u0 + u1), (l * l - a.x - b.x) * (u * u * v));
    EqTrans(p, w, (l * l - a.x - b.x) * (u * u * v), r.x * (u * u * v));
  }

  lemma EqTrans(p: Modulus, a: int, b: int, c: int)
    requires Eq(p, a, b) && (Eq(p, b, c) || Eq(p, c, b))
    ensures Eq(p, a, c)
  {
  }

  lemma EqSub(p: Modulus, a: int, b: int, c: int, d: int)
    requires Eq(p, a, b) && Eq(p, c, d)
    ensures Eq(p, a - c, b - d)
  {
    EqAdd(p, a, b, c, d);
  }

  lemma TSquared(p: Modulus, t: int, s: int, v: int)
    requires Eq(p, t, s)
    ensures Eq(p, t * t * v, s * s * v)
  {
    EqMul(p, t, s, t, s);
    EqMul(p, t * t, s * s, v, v);
  }

  lemma ScaledSum(p: Modulus, a: int, b: int, c: int, d: int, k: int)
    requires Eq(p, a, b) && Eq(p, c, d)
    ensures Eq(p, k * (a + c), k * (b + d))
  {
    EqAdd(p, a, b, c, d);
    Scale(p, k, a + c, b + d);
  }

  lemma SlopeX(p: Modulus, l: int, a: Affine, b: Affine, r: Affine, c: int)
    requires Slope(p, l, a, b, r)
    ensures Eq(p, r.x * c, (l * l - a.x - b.x) * c)
  {
    EqMul(p, r.x, l * l - a.x - b.x, c, c);
  }

  lemma ChordWIdentity(l: int, u: int, v: int, ax: int, bx: int)
    ensures l * u * (l * u) * v - u * u * (ax * v + bx * v) == (l * l - ax - bx) * (u * u * v)
  {
    assert l * u * (l * u) == l * l * (u * u);
    assert l * l * (u * u) * v == l * l * (u * u * v);
    assert u * u * (ax * v + bx * v) == (ax + bx) * (u * u * v) by {
      assert ax * v + bx * v == (ax + bx) * v;
    }
  }

  lemma ChordX(p: Modulus, rx: int, u: int, v: int, w: int)
    requires Eq(p, w, rx * (u * u * v))
    ensures Eq(p, u * w, rx * (u * (u * u) * v))
  {
    EqMul(p, u, u, w, rx * (u * u * v));
    ChordXIdentity(rx, u, v);
  }

  lemma ChordXIdentity(x: int, u: int, v: int)
    ensures u * (x * (u * u * v)) == x * (u * (u * u) * v)
  {
    assert u * (u * u) * v == u * (u * u * v);
  }

  lemma ChordLeft(p: Modulus, a: Affine, r: Affine, l: int, u0: int, v: int, t: int, u: int, w: int)
    requires Eq(p, u0, a.x * v) && Eq(p, t, l * u) && Eq(p, w, r.x * (u * u * v))
    ensures Eq(p, t * (u0 * (u * u) - w), l * (a.x - r.x) * (u * (u * u) * v))
  {
    EqMul(p, u0, a.x * v, u * u, u * u);
    EqAdd(p, u0 * (u * u), a.x * v * (u * u), w, r.x * (u * u * v));
    EqMul(p, t, l * u, u0 * (u * u) - w, a.x * v * (u * u) - r.x * (u * u * v));
    ChordLeftIdentity(l, u, v, a.x, r.x);
  }

  lemma ChordLeftIdentity(l: int, u: int, v: int, x: int, rx: int)
    ensures l * u * (x * v * (u * u) - rx * (u * u * v)) == l * (x - rx) * (u * (u * u) * v)
  {
    assert x * v * (u * u) == x * (u * u * v);
    assert x * (u * u * v) - rx * (u * u * v) == (x - rx) * (u * u * v);
    assert l * u * ((x - rx) * (u * u * v)) == l * (x - rx) * (u * (u * u * v));
    assert u * (u * u * v) == u * (u * u) * v;
  }

  lemma ChordRight(p: Modulus, a: Affine, t0: int, v: int, u: int)
    requires Eq(p, t0, a.y * v)
    ensures Eq(p, t0 * (u * (u * u)), a.y * (u * (u * u) * v))
  {
    EqMul(p, t0, a.y * v, u * (u * u), u * (u * u));
    assert a.y * v * (u * (u * u)) == a.y * (u * (u * u) * v);
  }

  lemma ChordYFinish(p: Modulus, a: Affine, r: Affine, l: int, u: int, v: int, f: int, g: int)
    requires Eq(p, f, l * (a.x - r.x) * (u * (u * u) * v)) && Eq(p, g, a.y * (u * (u * u) * v))
    requires Eq(p, r.y, l * (a.x - r.x) - a.y)
    ensures Eq(p, f - g, r.y * (u * (u * u) * v))
  {
    var c, m := u * (u * u) * v, l * (a.x - r.x);
    EqAdd(p, f, m * c, g, a.y * c);
    EqMul(p, r.y, m - a.y, c, c);
    assert (m - a.y) * c == m * c - a.y * c;
  }

  lemma ChordTailIs(p: Modulus, u0: int, u1: int, t0: int, t1: int, v: int) returns (t: int, u: int, w: int)
    ensures Eq(p, t, t0 - t1) && Eq(p, u, u0 - u1) && Eq(p, w, t * t * v - u * u * (u0 + u1))
    ensures var c := ChordTail(p, u0, u1, t0, t1, v);
      && Eq(p, c.x, u * w) && Eq(p, c.y, t * (u0 * (u * u) - w) - t0 * (u * (u * u)))
      && Eq(p, c.z, u * (u * u) * v) && !c.infinity
  {
    t, u := Sub(p, t0, t1), Sub(p, u0, u1);
    var u2, tt, s := Mul(p, u, u), Mul(p, t, t), Add(p, u0, u1);
    var ttv, u2s := Mul(p, tt, v), Mul(p, u2, s);
    w := Sub(p, ttv, u2s);
    Ops(p, t0, t1); Ops(p, u0, u1); Ops(p, u, u); Ops(p, t, t); Ops(p, tt, v); Ops(p, u2, s); Ops(p, ttv, u2s);
    EqMul(p, tt, t * t, v, v);
    EqMul(p, u2, u * u, s, u0 + u1);
    EqAdd(p, ttv, t * t * v, u2s, u * u * (u0 + u1));
    ChordTailXYZ(p, u0, t0, v, t, u, u2, w);
  }

  lemma ChordTailXYZ(p: Modulus, u0: int, t0: int, v: int, t: int, u: int, u2: int, w: int)
    requires u2 == Mul(p, u, u)
    ensures Eq(p, Mul(p, u, w), u * w) && Eq(p, Mul(p, Mul(p, u, u2), v), u * (u * u) * v)
    ensures Eq(p, Sub(p, Mul(p, t, Sub(p, Mul(p, u0, u2), w)), Mul(p, t0, Mul(p, u, u2))),
                  t * (u0 * (u * u) - w) - t0 * (u * (u * u)))
  {
    var u3, a := Mul(p, u, u2), Mul(p, u0, u2);
    var d := Sub(p, a, w);
    var e, f := Mul(p, t, d), Mul(p, t0, u3);
    Ops(p, u, u); Ops(p, u, w); Ops(p, u, u2); Ops(p, u3, v); Ops(p, u0, u2);
    Ops(p, a, w); Ops(p, t, d); Ops(p, t0, u3); Ops(p, e, f);
    EqMul(p, u, u, u2, u * u);
    EqMul(p, u3, u * (u * u), v, v);
    EqMul(p, u0, u0, u2, u * u);
    EqAdd(p, a, u0 * (u * u), w, w);
    EqMul(p, t, t, d, u0 * (u * u) - w);
    EqMul(p, t0, t0, u3, u * (u * u));
    EqAdd(p, e, t * (u0 * (u * u) - w), f, t0 * (u * (u * u)));
  }

  /** Both additions' chord branch computes the affine chord. */
  lemma ChordRepresents(p: Modulus, a: Affine, b: Affine, u0: int, u1: int, t0: int, t1: int, v: int)
    requires IsPrime(p) && !a.infinity && !b.infinity && a.x != b.x && Sub(p, b.x, a.x) % p != 0
    requires Eq(p, u0, a.x * v) && Eq(p, u1, b.x * v) && Eq(p, t0, a.y * v) && Eq(p, t1, b.y * v)
    requires v % p != 0
    ensures Represents(p, ChordTail(p, u0, u1, t0, t1, v), AffineAdd(p, a, b))
  {
    var l := ChordSlope(p, a, b);
    var r, c := AffineAdd(p, a, b), ChordTail(p, u0, u1, t0, t1, v);
    var t, u, w := ChordTailIs(p, u0, u1, t0, t1, v);
    ChordFormula(p, a, b, r, l, u0, u1, t0, t1, v, t, u, w);
    EqMul(p, r.x, r.x, c.z, u * (u * u) * v);
    EqMul(p, r.y, r.y, c.z, u * (u * u) * v);
    ChordNonzero(p, a, b, u0, u1, v, u);
  }

  lemma ChordNonzero(p: Modulus, a: Affine, b: Affine, u0: int, u1: int, v: int, u: int)
    requires IsPrime(p) && Sub(p, b.x, a.x) % p != 0 && v % p != 0
    requires Eq(p, u0, a.x * v) && Eq(p, u1, b.x * v) && Eq(p, u, u0 - u1)
    ensures (u * (u * u) * v) % p != 0
  {
    Ops(p, b.x, a.x);
    EqAdd(p, u0, a.x * v, u1, b.x * v);
    NonzeroProduct(p, b.x - a.x, v);
    var m := (b.x - a.x) * v;
    assert a.x * v - b.x * v == 0 - m;
    NegNonzero(p, m);
    NonzeroProduct(p, u, u);
    NonzeroProduct(p, u, u * u);
    NonzeroProduct(p, u * (u * u), v);
  }

  lemma NegNonzero(p: Modulus, m: int)
    requires m % p != 0
    ensures (0 - m) % p != 0
  {
    if (0 - m) % p == 0 {
      ModSmall(0, p);
      EqAdd(p, 0, 0, 0 - m, 0);
    }
  }

  /** Canonical coordinates: equality is congruence. */
  predicate InAffine(p: Modulus, a: Affine) { In(p, a.x) && In(p, a.y) }

  predicate InProjective(p: Modulus, q: Projective) { In(p, q.x) && In(p, q.y) && In(p, q.z) }

  lemma EqCancel(p: Modulus, a: int, b: int, v: int)
    requires IsPrime(p) && v % p != 0 && In(p, a) && In(p, b)
    ensures Eq(p, a * v, b * v) <==> a == b
  {
    if Eq(p, a * v, b * v) && a != b {
      EqAdd(p, a * v, b * v, b * v, b * v);
      assert a * v - b * v == (a - b) * v && b * v - b * v == 0;
      ModSmall(0, p);
      DifferNonzero(p, a, b);
      NonzeroProduct(p, a - b, v);
    }
  }

  lemma CancelFactor(p: Modulus, a: int, b: int, v: int)
    requires IsPrime(p) && v % p != 0
    ensures Eq(p, a * v, b * v) <==> Eq(p, a, b)
  {
    if Eq(p, a * v, b * v) {
      EqAdd(p, a * v, b * v, b * v, b * v);
      assert a * v - b * v == (a - b) * v && b * v - b * v == 0;
      ModSmall(0, p);
      if (a - b) % p != 0 { NonzeroProduct(p, a - b, v); }
      EqAdd(p, a - b, 0, b, b);
    } else if Eq(p, a, b) {
      EqMul(p, a, b, v, v);
    }
  }

  lemma DifferNonzero(p: Modulus, a: int, b: int)
    requires In(p, a) && In(p, b) && a != b
    ensures (a - b) % p != 0
  {
    if (a - b) % p == 0 {
      ModSmall(0, p);
      EqAdd(p, a - b, 0, b, b);
      Canonical(p, a, b);
    }
  }

  lemma SubNonzero(p: Modulus, a: int, b: int)
    requires In(p, a) && In(p, b) && a != b
    ensures Sub(p, a, b) % p != 0
  {
    Ops(p, a, b);
    DifferNonzero(p, a, b);
  }

  /** Two points with the same x: equal, or opposite. */
  predicate SameOrOpposite(p: Modulus, a: Affine, b: Affine) {
    !a.infinity && !b.infinity && a.x == b.x ==> a.y == b.y || a.y == Neg(p, b.y)
  }

  /** Adding an affine point computes the affine sum, exceptional cases included. */
  lemma AddMixedRepresents(p: Modulus, q: Projective, a: Affine, b: Affine)
    requires IsPrime(p) && Represents(p, q, a) && AddDefined(p, a, b)
    requires InProjective(p, q) && InAffine(p, a) && InAffine(p, b) && SameOrOpposite(p, a, b)
    requires !a.infinity ==> Mul(p, 2, a.y) % p != 0
    ensures Represents(p, AddMixed(p, q, b), AffineAdd(p, a, b))
  {
    if b.infinity {
    } else if a.infinity {
      ModSmall(1, p);
    } else {
      var u1, t1 := Mul(p, b.x, q.z), Mul(p, b.y, q.z);
      Ops(p, b.x, q.z);
      Ops(p, b.y, q.z);
      EqCancel(p, a.x, b.x, q.z);
      EqCancel(p, a.y, b.y, q.z);
      CanonicalIff(p, q.x, u1);
      CanonicalIff(p, q.y, t1);
      if a.x != b.x {
        SubNonzero(p, b.x, a.x);
        ChordRepresents(p, a, b, q.x, u1, q.y, t1, q.z);
      } else {
        TwoTorsionFree(p, a, b);
        DoubleRepresents(p, q, a);
      }
    }
  }

  lemma CanonicalIff(p: Modulus, a: int, b: int)
    requires In(p, a) && In(p, b)
    ensures Eq(p, a, b) <==> a == b
  {
    if Eq(p, a, b) { Canonical(p, a, b); }
  }

  /** A point with 2y != 0 is not its own opposite. */
  lemma TwoTorsionFree(p: Modulus, a: Affine, b: Affine)
    requires InAffine(p, a) && InAffine(p, b) && Mul(p, 2, a.y) % p != 0
    ensures a.y == b.y ==> a.y != Neg(p, b.y)
  {
    if a.y == b.y && a.y == Neg(p, b.y) {
      Reduced(p, 0 - b.y);
      ModSmall(0, p);
      EqAdd(p, a.y, 0 - a.y, a.y, a.y);
      Ops(p, 2, a.y);
    }
  }

  /** Adding a projective point computes the affine sum exactly when the points are not opposite. */
  lemma AddProjectiveRepresents(p: Modulus, q: Projective, r: Projective, a: Affine, b: Affine)
    requires IsPrime(p) && Represents(p, q, a) && Represents(p, r, b) && AddDefined(p, a, b)
    requires InAffine(p, a) && InAffine(p, b) && SameOrOpposite(p, a, b)
    requires !a.infinity ==> Mul(p, 2, a.y) % p != 0
    ensures Represents(p, AddProjective(p, q, r), AffineAdd(p, a, b)) <==>
      !(!a.infinity && !b.infinity && a.x == b.x && a.y == Neg(p, b.y))
    ensures !a.infinity && !b.infinity && a.x == b.x ==>
      Represents(p, AddProjective(p, q, r), AffineDouble(p, a))
  {
    if !a.infinity && !b.infinity {
      var v := Mul(p, q.z, r.z);
      var u0, u1, t0, t1 := Mul(p, q.x, r.z), Mul(p, r.x, q.z), Mul(p, q.y, r.z), Mul(p, r.y, q.z);
      Ops(p, q.z, r.z);
      NonzeroProduct(p, q.z, r.z);
      CrossScaled(p, q.x, a.x, q.z, r.z, v);
      CrossScaled(p, r.x, b.x, r.z, q.z, v);
      CrossScaled(p, q.y, a.y, q.z, r.z, v);
      CrossScaled(p, r.y, b.y, r.z, q.z, v);
      EqCancel(p, a.x, b.x, v);
      Ops(p, q.x, r.z); Ops(p, r.x, q.z);
      CanonicalIff(p, u0, u1);
      if a.x != b.x {
        SubNonzero(p, b.x, a.x);
        ChordRepresents(p, a, b, u0, u1, t0, t1, v);
      } else {
        TwoTorsionFree(p, a, b);
        DoubleRepresents(p, q, a);
      }
    }
  }

  lemma CrossScaled(p: Modulus, x: int, X: int, z: int, z': int, v: int)
    requires Eq(p, x, X * z) && (v == Mul(p, z, z') || v == Mul(p, z', z))
    ensures Eq(p, Mul(p, x, z'), X * v)
  {
    Ops(p, x, z'); Ops(p, z, z'); Ops(p, z', z);
    EqMul(p, x, X * z, z', z');
    EqMul(p, X, X, v, z * z');
    assert X * z * z' == X * (z * z') && z * z' == z' * z;
  }

  /** Converting back divides by z. */
  lemma ToAffineIs(p: Modulus, q: Projective, a: Affine)
    requires IsPrime(p) && Represents(p, q, a) && InAffine(p, a) && q.z % p != 0
    ensures !a.infinity ==> ToAffine(p, q) == a
  {
    if !a.infinity {
      InvIsInverse(p, q.z);
      Undo(p, q.x, a.x, q.z, Inv(p, q.z));
      Undo(p, q.y, a.y, q.z, Inv(p, q.z));
    }
  }

  lemma Undo(p: Modulus, x: int, X: int, z: int, i: int)
    requires Eq(p, x, X * z) && Eq(p, i * z, 1) && In(p, X)
    ensures Mul(p, x, i) == X
  {
    Ops(p, x, i);
    EqMul(p, x, X * z, i, i);
    EqMul(p, X, X, i * z, 1);
    assert X * z * i == X * (i * z);
    Canonical(p, Mul(p, x, i), X);
  }
}
