/** ECDSA key recovery: its outcome on every non-zero message and signature in range. */
module EcdsaRecover {
  import opened Options
  import opened Arith
  import opened Field
  import opened Inverse
  import opened Curve
  import opened CurveGroup
  import opened Ecdsa
  import opened EcdsaVerify

  /** The nonce k whose point r and v are read off, and the key e for which s then signs z. */
  predicate KeyAt(sch: Scheme, z: nat, r: nat, s: nat, v: nat, k: nat, e: nat) {
    && 0 < k < sch.c.n && sch.c.pt(k).x == r && sch.c.pt(k).y % 2 == v
    && e < sch.c.n && Eq(sch.c.n, s * k, r * e + z)
  }

  /** Choosing the root whose parity is v gives back the signing point. */
  lemma RightRoot(c: Params, k: nat, found: Affine)
    requires ValidCurve(c) && 0 < k < c.n && (found == c.pt(k) || found == c.pt(c.n - k))
    ensures (if found.y % 2 != c.pt(k).y % 2 then found.(y := Neg(c.p, found.y)) else found) == c.pt(k)
  {
    Facts(c, k);
    NoTwoTorsion(c, k);
    NegIs(c, k);
    NegNeg(c, k);
    OppositeParity(c.p, c.pt(k).y);
  }

  /** s k - z = r e, and multiplying by the inverse of r leaves e. */
  lemma RecoverEquation(n: Modulus, r: int, e: nat, z: nat, k: int, s: int, rInv: int)
    requires Eq(n, s * k, r * e + z) && Eq(n, rInv * r, 1)
    requires 0 < z < n && e < n
    ensures ((s * k) % n + (n - z)) % n == (r * e) % n
    ensures (rInv * ((r * e) % n)) % n == e
  {
    Reduced(n, s * k);
    Reduced(n, r * e);
    EqAdd(n, (s * k) % n, r * e + z, n - z, n - z);
    assert r * e + z + (n - z) == r * e + 1 * n;
    ModPlusMultiple(r * e, 1, n);
    EqMul(n, rInv, rInv, (r * e) % n, r * e);
    EqMul(n, rInv * r, 1, e, e);
    Assoc(rInv, r, e);
    ModSmall(e, n);
  }

  /** Following `recover` through its steps. */
  lemma RecoverSteps(sch: Scheme, z: nat, r: nat, s: nat, v: nat, fullR: Affine, fullRs: Affine, zg: Affine,
                     rsZg: Affine)
    requires z < sch.bound && 0 < r < sch.bound && 0 < s < sch.c.n && v <= 1
    requires FromX(sch.c, r).Some? && ModInv(sch.c.n, r).Some?
    requires var found := FromX(sch.c, r).value;
      fullR == if found.y % 2 != v then found.(y := Neg(sch.c.p, found.y)) else found
    requires MulByBits(sch.c, fullR, s) == Some(fullRs) && MulByBits(sch.c, sch.c.pt(1), z) == Some(zg)
    requires Minus(sch.c.p, fullRs, zg) == Some(rsZg)
    ensures Recover(sch, z, r, s, v) ==
      match MulByBits(sch.c, rsZg, ModInv(sch.c.n, r).value)
      case None => Panic
      case Some(q) => Ok(q.x)
  {
    hide FromX, MulByBits, Minus, ModInv, Neg;
  }

  // ----- multiples of a lost identity -------------------------------------------------------------------------

  /** From x = 0 with y or z zero, doubling has x = z = 0. */
  lemma DegenerateDouble(p: Modulus, q: Projective)
    requires q.x == 0 && (q.y == 0 || q.z == 0) && !q.infinity
    ensures ProjDouble(p, q).x == 0 && ProjDouble(p, q).z == 0 && !ProjDouble(p, q).infinity
  {
    ModSmall(0, p);
    ZeroTimes(p, Mul(p, 2, q.y));
    ZeroTimes(p, q.z);
    ZeroTimes(p, 2);
    var u := Mul(p, Mul(p, 2, q.y), q.z);
    assert u == 0;
    var t := Add(p, Mul(p, Mul(p, 3, q.x), q.x), Mul(p, q.z, q.z));
    var w := Sub(p, Mul(p, t, t), Mul(p, 2, Mul(p, Mul(p, Mul(p, 2, u), q.x), q.y)));
    ZeroTimes(p, w);
    ZeroTimes(p, 0);
    hide Mul, Sub, Add;
  }

  lemma ZeroTimes(p: Modulus, x: int)
    ensures Mul(p, 0, x) == 0 && Mul(p, x, 0) == 0
  {
    ModSmall(0, p);
  }

  /** The identity enters double-and-add as (0, 0): one bit gives it back, more lose z. */
  lemma {:induction false} LostIdentity(p: Modulus, bits: seq<bool>)
    ensures var q := ProjMul(p, Projective(0, 0, 1, false), bits);
      && (Value(bits) == 0 ==> q == PROJECTIVE_IDENTITY)
      && (Value(bits) == 1 ==> q == Projective(0, 0, 1, false))
      && (Value(bits) >= 2 ==> q.x == 0 && q.z == 0 && !q.infinity)
    decreases |bits|
  {
    if bits != [] {
      LostIdentity(p, bits[1..]);
      var origin := Projective(0, 0, 1, false);
      var acc := ProjMul(p, origin, bits[1..]);
      if !acc.infinity {
        DegenerateDouble(p, acc);
        var doubled := ProjDouble(p, acc);
        DegenerateDouble(p, doubled);
        ZeroTimes(p, doubled.z);
        ZeroTimes(p, 1);
      }
      hide ProjDouble, Mul;
    }
  }

  lemma LostIdentityMultiple(c: Params, y: nat)
    requires 0 < y < Pow2(c.width)
    ensures MulByBits(c, IDENTITY, y) == None <==> y != 1
    ensures y == 1 ==> MulByBits(c, IDENTITY, y).value.x == 0
  {
    BitsValue(y, c.width);
    LostIdentity(c.p, ToBitsLe(y, c.width));
    hide ProjMul, ToBitsLe, Pow2;
    ModSmall(0, c.p);
    ModSmall(1, c.p);
    if y == 1 { ZeroTimes(c.p, Inv(c.p, 1)); }
    hide Inv, Mul;
  }

  // ----- non-zero messages --------------------------------------------------------------------------------------

  lemma RecoverAt(sch: Scheme, z: nat, r: nat, s: nat, v: nat, k: nat, e: nat)
    requires ValidScheme(sch) && 0 < z < sch.bound && 0 < r < sch.bound && 0 < s < sch.c.n
    requires KeyAt(sch, z, r, s, v, k, e)
    ensures Recover(sch, z, r, s, v) == if e != 0 then Ok(sch.c.pt(e).x) else if r == 1 then Ok(0) else Panic
  {
    var c, n := sch.c, sch.c.n;
    hide ValidCurve, FromX, MulByBits, Minus, AffineNeg, Eq, Recover, Neg, Pow2;
    Facts(c, k);
    FromXIs(c, k);
    RightRoot(c, k, FromX(c, r).value);
    ModSmall(s, n);
    ModSmall(z, n);
    ModSmall(r, n);
    MulIs(sch, k, s);
    MulIs(sch, 1, z);
    InverseExists(n, r);
    var rInv := ModInv(n, r).value;
    Reduced(n, r * e);
    MinusIs(c, (s * k) % n, z);
    RecoverEquation(n, r, e, z, k, s, rInv);
    RecoverSteps(sch, z, r, s, v, c.pt(k), c.pt((s * k) % n), c.pt(z), c.pt((r * e) % n));
    if e != 0 {
      ScaledNonzero(n, r, e);
      ModSmall(rInv, n);
      MulIs(sch, (r * e) % n, rInv);
    } else {
      ModSmall(0, n);
      InverseOfOne(n, r, rInv);
      LostIdentityMultiple(c, rInv);
    }
  }

  lemma InverseOfOne(n: Modulus, r: nat, rInv: int)
    requires 0 < r < n && 0 < rInv < n && Eq(n, rInv * r, 1)
    ensures rInv == 1 <==> r == 1
  {
    ModSmall(1, n);
    ModSmall(r, n);
    ModSmall(rInv, n);
  }

  /** Every x of a point and parity has its nonce, and every signature then its key. */
  lemma KeyAtExists(sch: Scheme, z: nat, r: nat, s: nat, v: nat) returns (k: nat, e: nat)
    requires ValidScheme(sch) && 0 < r < sch.c.n && v <= 1 && IsX(sch.c, r)
    ensures KeyAt(sch, z, r, s, v, k, e)
  {
    var c, n := sch.c, sch.c.n;
    k :| HasX(c, r, k);
    Facts(c, k);
    NoTwoTorsion(c, k);
    OppositeParity(c.p, c.pt(k).y);
    NegIs(c, k);
    Reduced(c.p, 0 - c.pt(k).y);
    if c.pt(k).y % 2 != v { k := n - k; }
    hide ValidCurve;
    ModSmall(r, n);
    InverseExists(n, r);
    var rInv := ModInv(n, r).value;
    Reduced(n, rInv * (s * k - z));
    e := (rInv * (s * k - z)) % n;
    EqMul(n, r, r, e, rInv * (s * k - z));
    EqMul(n, rInv * r, 1, s * k - z, s * k - z);
    Swapped(r, rInv, s * k - z);
    EqAdd(n, r * e, s * k - z, z, z);
  }

  lemma Swapped(r: int, i: int, x: int)
    ensures r * (i * x) == (i * r) * x
  {
    assert r * (i * x) == r * i * x;
  }

  /** There is only one. */
  lemma KeyAtUnique(sch: Scheme, z: nat, r: nat, s: nat, v: nat, k: nat, e: nat, k': nat, e': nat)
    requires ValidScheme(sch) && 0 < r < sch.c.n && KeyAt(sch, z, r, s, v, k, e) && KeyAt(sch, z, r, s, v, k', e')
    ensures k == k' && e == e'
  {
    var c, n := sch.c, sch.c.n;
    Facts(c, k);
    SameX(c, k, k');
    NoTwoTorsion(c, k);
    NegIs(c, k);
    OppositeParity(c.p, c.pt(k).y);
    hide ValidCurve;
    ModSmall(r, n);
    EqAdd(n, r * e + z, r * e' + z, z, z);
    assert r * e == e * r && r * e' == e' * r;
    CancelFactor(n, e, e', r);
    ModSmall(e, n);
    ModSmall(e', n);
  }

  ghost predicate HasKey(sch: Scheme, z: nat, r: nat, s: nat, v: nat, e: nat) {
    exists k: nat :: KeyAt(sch, z, r, s, v, k, e)
  }

  /** For every signature in range on a non-zero message, `recover` fails exactly when r is no x of a
      point, panics exactly when the key would be zero (and r is not 1), and returns x of any other key. */
  lemma RecoverIs(sch: Scheme, z: nat, r: nat, s: nat, v: nat)
    requires ValidScheme(sch) && 0 < z < sch.bound && 0 < r < sch.bound && 0 < s < sch.c.n && v <= 1
    ensures Recover(sch, z, r, s, v) == Err(RecoverR) <==> !IsX(sch.c, r)
    ensures Recover(sch, z, r, s, v).Err? <==> !IsX(sch.c, r)
    ensures Recover(sch, z, r, s, v).Panic? <==> HasKey(sch, z, r, s, v, 0) && r != 1
    ensures forall e: nat :: e > 0 && HasKey(sch, z, r, s, v, e) ==> Recover(sch, z, r, s, v) == Ok(sch.c.pt(e).x)
    ensures IsX(sch.c, r) ==> exists e: nat :: HasKey(sch, z, r, s, v, e)
  {
    FromXIff(sch.c, r);
    hide ValidCurve, Recover, KeyAt, IsX;
    if IsX(sch.c, r) {
      var k, e := KeyAtExists(sch, z, r, s, v);
      RecoverAt(sch, z, r, s, v, k, e);
      assert HasKey(sch, z, r, s, v, e);
      forall e': nat | HasKey(sch, z, r, s, v, e') ensures e' == e {
        var k': nat :| KeyAt(sch, z, r, s, v, k', e');
        KeyAtUnique(sch, z, r, s, v, k, e, k', e');
      }
    } else {
      forall e: nat ensures !HasKey(sch, z, r, s, v, e) {
        forall k: nat ensures !KeyAt(sch, z, r, s, v, k, e) { NotX(sch, z, r, s, v, k, e); }
      }
      RecoverNotX(sch, z, r, s, v);
    }
  }

  lemma NotX(sch: Scheme, z: nat, r: nat, s: nat, v: nat, k: nat, e: nat)
    requires !IsX(sch.c, r)
    ensures !KeyAt(sch, z, r, s, v, k, e)
  {
    assert !HasX(sch.c, r, k);
  }

  lemma RecoverNotX(sch: Scheme, z: nat, r: nat, s: nat, v: nat)
    requires z < sch.bound && 0 < r < sch.bound && 0 < s < sch.c.n && v <= 1 && FromX(sch.c, r) == None
    ensures Recover(sch, z, r, s, v) == Err(RecoverR)
  {
    hide FromX, MulByBits;
  }

  // ----- message zero ---------------------------------------------------------------------------------------------

  /** Subtracting (0, 0): on the axis it doubles, where the chord meets the starting x again it only
      mirrors, and elsewhere it leaves the curve. */
  lemma MinusOrigin(c: Params, a: nat)
    requires ValidCurve(c) && 0 < a < c.n
    ensures var q, m := c.pt(a), Minus(c.p, c.pt(a), Affine(0, 0, false));
      && m.Some?
      && (q.x == 0 ==> m.value == c.pt((2 * a) % c.n))
      && (ChordMeets(c, q.x, q.x) && q.x != 0 ==> m.value == c.pt(c.n - a))
      && (c.beta % c.p != 0 && !ChordMeets(c, q.x, q.x) && q.x != 0 ==> !OnCurve(c, m.value))
  {
    var q := c.pt(a);
    Facts(c, a);
    DoubleIs(c, a);
    NonzeroY(c, a);
    NegIs(c, a);
    hide ValidCurve;
    ModSmall(0, c.p);
    assert Neg(c.p, 0) == 0;
    if q.x != 0 {
      OriginChordBack(c, q);
    }
  }

  /** The chord from a point b to (0, 0): it stays on the curve exactly when it meets x again at x. */
  lemma OriginChordBack(c: Params, b: Affine)
    requires IsPrime(c.p) && !b.infinity && InAffine(c.p, b) && b.x != 0 && OnCurve(c, b)
    ensures AddDefined(c.p, b, Affine(0, 0, false))
    ensures ChordMeets(c, b.x, b.x) ==> AffineAdd(c.p, b, Affine(0, 0, false)) == AffineNeg(c.p, b)
    ensures c.beta % c.p != 0 && !ChordMeets(c, b.x, b.x) ==> !OnCurve(c, AffineAdd(c.p, b, Affine(0, 0, false)))
  {
    var p, x, y := c.p, b.x, b.y;
    var o := Affine(0, 0, false);
    SubNonzero(p, 0, x);
    Ops(p, 0, x);
    Ops(p, 0, y);
    var l := Mul(p, Sub(p, 0, y), Inv(p, Sub(p, 0, x)));
    QuotientIs(p, Sub(p, 0, y), Sub(p, 0, x));
    ThirdPoint(p, l, b, o);
    var sum := AffineAdd(p, b, o);
    hide AffineAdd, AddDefined, OnCurve, Mul, Sub, Inv;
    ModSmall(x, p);
    MirroredSlope(p, l, x, y, Sub(p, 0, x), Sub(p, 0, y));
    OnCurveIs(c, b);
    assert l * l - x - 0 == l * l - 0 - x;
    OriginX(p, l, x, y, c.beta, sum.x, x);
    OriginX(p, l, x, y, c.beta, sum.x, sum.x);
    if ChordMeets(c, x, x) {
      assert l * (x - x) - y == 0 - y;
      Reduced(p, 0 - y);
      Canonical(p, sum.y, Neg(p, y));
    } else if OnCurve(c, sum) && c.beta % p != 0 {
      OnCurveIs(c, sum);
      ThirdSquare(p, l, x, y, sum.x, sum.y);
      OffCurve(p, x, sum.x, c.beta);
    }
  }

  /** The third point's y is -l times its x, so y^2 = (x3 + x) x3^2. */
  lemma ThirdSquare(p: Modulus, l: int, x: int, y: int, x3: int, y3: int)
    requires Eq(p, l * x, y) && Eq(p, x3, l * l - x - 0) && Eq(p, y3, l * (x - x3) - y)
    ensures Eq(p, y3 * y3, x3 * x3 * x3 + x * (x3 * x3))
  {
    ThirdY(p, l, x, y, x3, y3);
    var m := x3 * x3;
    EqMul(p, y3, 0 - l * x3, y3, 0 - l * x3);
    NegatedSquare(l, x3);
    EqAdd(p, x3, l * l - x - 0, x, x);
    EqMul(p, x3 + x, l * l, m, m);
    SquareTimesSum(x, x3);
  }

  lemma ThirdY(p: Modulus, l: int, x: int, y: int, x3: int, y3: int)
    requires Eq(p, l * x, y) && Eq(p, y3, l * (x - x3) - y)
    ensures Eq(p, y3, 0 - l * x3)
  {
    assert l * (x - x3) == l * x - l * x3;
    EqAdd(p, l * x, y, l * x3 + y, l * x3 + y);
  }

  lemma NegatedSquare(l: int, x: int)
    ensures (0 - l * x) * (0 - l * x) == l * l * (x * x)
  {
    SquareOfProduct(l, x);
  }

  lemma SquareTimesSum(x: int, r: int)
    ensures (r + x) * (r * r) == r * r * r + x * (r * r)
  {
    Assoc(r, r, r);
  }

  /** Both x r^2 = r + beta and r x^2 = x + beta leave only r = x, or beta = 0. */
  lemma OffCurve(p: Modulus, x: int, r: int, beta: int)
    requires IsPrime(p) && In(p, x) && In(p, r) && beta % p != 0
    requires Eq(p, r * r * r + x * (r * r), r * r * r + r + beta) && Eq(p, r * (x * x), x + beta)
    ensures r == x
  {
    ModSmall(0, p);
    var m := r * r * r;
    EqAdd(p, m + x * (r * r), m + r + beta, m, m);
    if r != x {
      EqAdd(p, x * (r * r), r + beta, r * (x * x), x + beta);
      ProductOfDifference(x, r);
      DifferNonzero(p, r, x);
      CancelFactor(p, x * r, 1, r - x);
      EqMul(p, x * r, 1, x, x);
      assert x * r * x == r * (x * x) by { Assoc(r, x, x); }
      EqAdd(p, x + beta, 1 * x, x, x);
    }
  }

  lemma ProductOfDifference(x: int, r: int)
    ensures x * (r * r) - r * (x * x) == x * r * (r - x)
  {
    assert x * r * (r - x) == x * r * r - x * r * x;
    assert x * r * r == x * (r * r) && x * r * x == r * (x * x) by { Assoc(x, r, r); Assoc(r, x, x); }
  }

  lemma MirroredSlope(p: Modulus, l: int, x: int, y: int, x': int, y': int)
    requires Eq(p, l * x', y') && Eq(p, x', 0 - x) && Eq(p, y', 0 - y)
    ensures Eq(p, l * x, y)
  {
    EqMul(p, l, l, x', 0 - x);
    assert l * (0 - x) == 0 - l * x;
    EqAdd(p, 0, 0, 0 - l * x, 0 - y);
  }

  lemma RecoverZeroSteps(sch: Scheme, r: nat, s: nat, v: nat, k: nat, e: nat)
    requires ValidScheme(sch) && 0 < r < sch.bound && 0 < s < sch.c.n && KeyAt(sch, 0, r, s, v, k, e)
    ensures ModInv(sch.c.n, r).Some? && 0 < (s * k) % sch.c.n < sch.c.n
    ensures Minus(sch.c.p, sch.c.pt((s * k) % sch.c.n), Affine(0, 0, false)).Some? ==>
      var rsZg := Minus(sch.c.p, sch.c.pt((s * k) % sch.c.n), Affine(0, 0, false)).value;
      Recover(sch, 0, r, s, v) ==
        match MulByBits(sch.c, rsZg, ModInv(sch.c.n, r).value)
        case None => Panic
        case Some(q) => Ok(q.x)
  {
    var c, n := sch.c, sch.c.n;
    hide ValidCurve, FromX, MulByBits, Minus, AffineNeg, Eq, Recover, Neg, Pow2;
    Facts(c, k);
    FromXIs(c, k);
    RightRoot(c, k, FromX(c, r).value);
    ModSmall(s, n);
    ModSmall(r, n);
    MulIs(sch, k, s);
    ZeroMultiple(c, c.pt(1));
    InverseExists(n, r);
    var difference := Minus(c.p, c.pt((s * k) % n), Affine(0, 0, false));
    if difference.Some? {
      RecoverSteps(sch, 0, r, s, v, c.pt(k), c.pt((s * k) % n), Affine(0, 0, false), difference.value);
    }
  }

  /** The multiples by the inverse of r, with s k = r e. */
  lemma ZeroKeyMultiples(n: Modulus, r: nat, e: nat, s: nat, k: nat, rInv: int)
    requires Eq(n, s * k, r * e) && Eq(n, rInv * r, 1)
    ensures (rInv * ((s * k) % n)) % n == e % n
    ensures (rInv * ((2 * ((s * k) % n)) % n)) % n == (2 * e) % n
    ensures (rInv * (n - (s * k) % n)) % n == (0 - e) % n
  {
    var a := (s * k) % n;
    Reduced(n, s * k);
    EqMul(n, rInv, rInv, a, r * e);
    EqMul(n, rInv * r, 1, e, e);
    Assoc(rInv, r, e);
    Reduced(n, 2 * a);
    EqMul(n, rInv, rInv, (2 * a) % n, 2 * a);
    EqMul(n, 2, 2, rInv * a, e);
    TwiceSwapped(rInv, a);
    assert rInv * (n - a) == (0 - rInv * a) + rInv * n;
    ModPlusMultiple(0 - rInv * a, rInv, n);
    EqAdd(n, 0, 0, rInv * a, e);
  }

  lemma TwiceSwapped(i: int, a: int)
    ensures i * (2 * a) == 2 * (i * a)
  {
  }

  /** Recovering from message zero, x being that of s times the nonce's point: right where the chord
      meets x again, the double of the key on the axis, and otherwise a multiple of a point that is not
      on the curve. */
  lemma RecoverZero(sch: Scheme, r: nat, s: nat, v: nat, k: nat, e: nat)
    requires ValidScheme(sch) && 0 < r < sch.bound && 0 < s < sch.c.n && KeyAt(sch, 0, r, s, v, k, e)
    ensures 0 < (s * k) % sch.c.n < sch.c.n && 0 < e
    ensures ZeroOutcome(sch, r, e, sch.c.pt((s * k) % sch.c.n).x, Recover(sch, 0, r, s, v))
  {
    var c, n := sch.c, sch.c.n;
    Facts(c, k);
    BetaNonzero(c);
    RecoverZeroSteps(sch, r, s, v, k, e);
    MinusOrigin(c, (s * k) % n);
    ZeroKey(n, r, e, s, k);
    hide ValidCurve, Minus, MulByBits, Recover, Eq, Pow2, ChordMeets, OnCurve;
    var a, rInv, x := (s * k) % n, ModInv(n, r).value, c.pt((s * k) % n).x;
    if x == 0 || ChordMeets(c, x, x) {
      ZeroMultiples(sch, r, e, s, k, rInv);
    }
  }

  /** What recovery from message zero gives for the key e, in terms of x. */
  ghost predicate ZeroOutcome(sch: Scheme, r: nat, e: nat, x: int, outcome: Outcome<int, RecoverError>) {
    if x == 0 then outcome == Ok(sch.c.pt((2 * e) % sch.c.n).x)
    else if ChordMeets(sch.c, x, x) then outcome == Ok(sch.c.pt(e).x)
    else FromOffCurve(sch, r, outcome)
  }

  lemma ZeroMultiples(sch: Scheme, r: nat, e: nat, s: nat, k: nat, rInv: int)
    requires ValidScheme(sch) && 0 < rInv < sch.c.n && 0 < e < sch.c.n && 0 < (s * k) % sch.c.n < sch.c.n
    requires Eq(sch.c.n, s * k, r * e) && Eq(sch.c.n, rInv * r, 1)
    ensures var c, n, a := sch.c, sch.c.n, (s * k) % sch.c.n;
      && MulByBits(c, c.pt((2 * a) % n), rInv) == Some(c.pt((2 * e) % n))
      && MulByBits(c, c.pt(n - a), rInv) == Some(c.pt(n - e)) && c.pt(n - e).x == c.pt(e).x
  {
    var c, n, a := sch.c, sch.c.n, (s * k) % sch.c.n;
    Facts(c, e);
    ZeroKeyMultiples(n, r, e, s, k, rInv);
    NegatedResidue(n, e);
    ModSmall(rInv, n);
    TwiceInRange(n, a);
    MulIs(sch, (2 * a) % n, rInv);
    MulIs(sch, n - a, rInv);
    SameX(c, n - e, e);
  }

  /** (0, 0) would be its own opposite, so it is not on the curve. */
  lemma BetaNonzero(c: Params)
    requires ValidCurve(c)
    ensures c.beta % c.p != 0
  {
    if c.beta % c.p == 0 {
      ModSmall(0, c.p);
      var a := PointFound(c, Affine(0, 0, false));
      NonzeroY(c, a);
    }
  }

  lemma ZeroKey(n: Modulus, r: nat, e: nat, s: nat, k: nat)
    requires Eq(n, s * k, r * e + 0) && (s * k) % n != 0
    ensures e != 0 && Eq(n, s * k, r * e)
  {
    ModSmall(0, n);
  }

  lemma NegatedResidue(n: Modulus, e: nat)
    requires 0 < e < n
    ensures (0 - e) % n == n - e
  {
    QuotientUnique(0 - e, n, 0 - 1, n - e);
  }

  lemma TwiceInRange(n: Modulus, a: nat)
    requires IsPrime(n) && n > 2 && 0 < a < n
    ensures 0 < (2 * a) % n < n
  {
    OddPrime(n, a);
    Fold(n, 2 * a);
  }

  /** The outcome of multiplying some point off the curve by the inverse of r. */
  ghost predicate FromOffCurve(sch: Scheme, r: nat, outcome: Outcome<int, RecoverError>) {
    exists q: Affine :: !OnCurve(sch.c, q) && ModInv(sch.c.n, r).Some? && outcome ==
      match MulByBits(sch.c, q, ModInv(sch.c.n, r).value)
      case None => Panic
      case Some(m) => Ok(m.x)
  }

  // ----- every input ------------------------------------------------------------------------------------------

  lemma RecoverRanges(sch: Scheme, z: nat, r: nat, s: nat, v: nat)
    ensures z >= sch.bound ==> Recover(sch, z, r, s, v) == Err(RecoverMessage)
    ensures z < sch.bound && !(0 < r < sch.bound) ==> Recover(sch, z, r, s, v) == Err(RecoverR)
    ensures z < sch.bound && 0 < r < sch.bound && !(0 < s < sch.c.n) ==> Recover(sch, z, r, s, v) == Err(RecoverS)
    ensures z < sch.bound && 0 < r < sch.bound && 0 < s < sch.c.n && v > 1 ==>
      Recover(sch, z, r, s, v) == Err(RecoverV)
  {
    hide FromX, MulByBits, Minus, ModInv;
  }

  /** In range, only an r that is x of no point is an error. */
  lemma ErrorInRange(sch: Scheme, z: nat, r: nat, s: nat, v: nat)
    requires ValidScheme(sch) && z < sch.bound && 0 < r < sch.bound && 0 < s < sch.c.n && v <= 1
    ensures Recover(sch, z, r, s, v).Err? <==> !IsX(sch.c, r)
    ensures Recover(sch, z, r, s, v).Err? ==> Recover(sch, z, r, s, v) == Err(RecoverR)
  {
    if z != 0 {
      RecoverIs(sch, z, r, s, v);
    } else if IsX(sch.c, r) {
      var k, e := KeyAtExists(sch, 0, r, s, v);
      RecoverZero(sch, r, s, v, k, e);
      hide ValidCurve, Recover, KeyAt, ChordMeets, OnCurve, MulByBits, ModInv;
    } else {
      FromXIff(sch.c, r);
      hide ValidCurve, FromX, Recover;
      RecoverNotX(sch, 0, r, s, v);
    }
  }

  /** The x coordinate recovery answers: that of the key, or 0 for the key zero when r is 1. */
  ghost predicate Recovers(sch: Scheme, z: nat, r: nat, s: nat, v: nat, x: int) {
    || (exists e: nat :: 0 < e && HasKey(sch, z, r, s, v, e) && sch.c.pt(e).x == x)
    || (HasKey(sch, z, r, s, v, 0) && r == 1 && x == 0)
  }

  /** For every input: which error is reported when; and for non-zero messages exactly when the call
      panics and which key it returns. */
  lemma RecoverOutcome(sch: Scheme, z: nat, r: nat, s: nat, v: nat, x: int)
    requires ValidScheme(sch)
    ensures Recover(sch, z, r, s, v) == Err(RecoverMessage) <==> z >= sch.bound
    ensures Recover(sch, z, r, s, v) == Err(RecoverR) <==>
      z < sch.bound && (r == 0 || r >= sch.bound || (0 < s < sch.c.n && v <= 1 && !IsX(sch.c, r)))
    ensures Recover(sch, z, r, s, v) == Err(RecoverS) <==>
      z < sch.bound && 0 < r < sch.bound && (s == 0 || s >= sch.c.n)
    ensures Recover(sch, z, r, s, v) == Err(RecoverV) <==>
      z < sch.bound && 0 < r < sch.bound && 0 < s < sch.c.n && v > 1
    ensures z != 0 ==> (Recover(sch, z, r, s, v).Panic? <==>
      z < sch.bound && 0 < r < sch.bound && 0 < s < sch.c.n && v <= 1 && HasKey(sch, z, r, s, v, 0) && r != 1)
    ensures z != 0 ==> (Recover(sch, z, r, s, v) == Ok(x) <==>
      z < sch.bound && 0 < r < sch.bound && 0 < s < sch.c.n && v <= 1 && Recovers(sch, z, r, s, v, x))
  {
    RecoverRanges(sch, z, r, s, v);
    if z < sch.bound && 0 < r < sch.bound && 0 < s < sch.c.n && v <= 1 {
      ErrorInRange(sch, z, r, s, v);
      if z != 0 { RecoveredKey(sch, z, r, s, v, x); }
    }
    hide ValidCurve, Recover, IsX, HasKey, Recovers;
  }

  lemma RecoveredKey(sch: Scheme, z: nat, r: nat, s: nat, v: nat, x: int)
    requires ValidScheme(sch) && 0 < z < sch.bound && 0 < r < sch.bound && 0 < s < sch.c.n && v <= 1
    ensures Recover(sch, z, r, s, v).Panic? <==> HasKey(sch, z, r, s, v, 0) && r != 1
    ensures Recover(sch, z, r, s, v) == Ok(x) <==> Recovers(sch, z, r, s, v, x)
  {
    RecoverIs(sch, z, r, s, v);
    hide ValidCurve, Recover, KeyAt;
    if IsX(sch.c, r) {
      var k, e := KeyAtExists(sch, z, r, s, v);
      RecoverAt(sch, z, r, s, v, k, e);
      assert HasKey(sch, z, r, s, v, e);
      forall e': nat | HasKey(sch, z, r, s, v, e') ensures e' == e {
        var k': nat :| KeyAt(sch, z, r, s, v, k', e');
        KeyAtUnique(sch, z, r, s, v, k, e, k', e');
      }
    } else {
      forall e: nat ensures !HasKey(sch, z, r, s, v, e) {
        forall k: nat ensures !KeyAt(sch, z, r, s, v, k, e) { NotX(sch, z, r, s, v, k, e); }
      }
    }
  }

  // ----- what is signed or accepted is recovered -----------------------------------------------------------------

  /** From any signature on a non-zero message `recover` returns exactly the signer's x-only key, unless
      the private key is a multiple of the order: then it panics, or returns 0 for r = 1. */
  lemma SignThenRecover(sch: Scheme, d: nat, z: nat, k: nat)
    requires ValidScheme(sch) && d < sch.c.p && k < sch.c.p && 0 < z < sch.bound
    requires Sign(sch, d, z, k).Ok?
    ensures d % sch.c.n != 0 ==> GetPublicKey(sch, d) == Some(sch.c.pt(d % sch.c.n).x)
    ensures var sig := Sign(sch, d, z, k).value;
      && sig.r >= 0 && sig.s >= 0 && sig.v >= 0
      && Recover(sch, z, sig.r, sig.s, sig.v)
           == if d % sch.c.n != 0 then Ok(sch.c.pt(d % sch.c.n).x) else if sig.r == 1 then Ok(0) else Panic
  {
    var sig := SignedKey(sch, d, z, k);
    hide ValidCurve, Sign, Recover, KeyAt, GetPublicKey;
    RecoverAt(sch, z, sig.r, sig.s, sig.v, k % sch.c.n, d % sch.c.n);
  }

  lemma SignedKey(sch: Scheme, d: nat, z: nat, k: nat) returns (sig: ExtendedSignature)
    requires ValidScheme(sch) && d < sch.c.p && k < sch.c.p && z < sch.bound && Sign(sch, d, z, k).Ok?
    ensures sig == Sign(sch, d, z, k).value && 0 < sig.r < sch.bound && 0 < sig.s < sch.c.n && 0 <= sig.v
    ensures KeyAt(sch, z, sig.r, sig.s, sig.v, k % sch.c.n, d % sch.c.n)
    ensures d % sch.c.n != 0 ==> GetPublicKey(sch, d) == Some(sch.c.pt(d % sch.c.n).x)
  {
    var n := sch.c.n;
    SignIs(sch, d, z, k);
    PublicKeyIs(sch, d);
    ModSmall(0, n);
    QuotientUnique(n, n, 1, 0);
    sig := Sign(sch, d, z, k).value;
    hide ValidCurve, Sign, GetPublicKey;
    Reduced(n, d);
    Reduced(n, k);
    EqMul(n, sig.r, sig.r, d, d % n);
    EqAdd(n, sig.r * d, sig.r * (d % n), z, z);
  }

  /** From a signature on message zero: the signer's key where the chord from the point of r d meets its x
      again, the key of 2d on the axis. */
  lemma SignZeroThenRecover(sch: Scheme, d: nat, k: nat)
    requires ValidScheme(sch) && d < sch.c.p && k < sch.c.p && 0 < sch.bound
    requires Sign(sch, d, 0, k).Ok?
    ensures var sig, n := Sign(sch, d, 0, k).value, sch.c.n;
      && sig.r >= 0 && sig.s >= 0 && sig.v >= 0 && d % n != 0 && 0 < (sig.r * d) % n < n
      && ZeroOutcome(sch, sig.r, d % n, sch.c.pt((sig.r * d) % n).x, Recover(sch, 0, sig.r, sig.s, sig.v))
  {
    var n := sch.c.n;
    SignIs(sch, d, 0, k);
    var sig := SignedKey(sch, d, 0, k);
    hide ValidCurve, Sign, Recover, ZeroOutcome;
    assert (sig.s * (k % n)) % n == (sig.r * d) % n;
    RecoverZero(sch, sig.r, sig.s, sig.v, k % n, d % n);
  }

  /** Recovery undoes verification: for whatever verify accepts, one of the two parities recovers the key. */
  lemma AcceptedRecovers(sch: Scheme, d: nat, z: nat, r: nat, s: nat) returns (v: nat)
    requires ValidScheme(sch) && 0 < d < sch.c.n && 0 < z < sch.bound && 0 < r < sch.bound && 0 < s < sch.c.n
    requires Verify(sch, sch.c.pt(d).x, z, r, s) == Ok(true)
    ensures v <= 1 && Recover(sch, z, r, s, v) == Ok(sch.c.pt(d).x)
  {
    hide ValidCurve, Recover, Verify, Eq;
    VerifyIs(sch, d, z, r, s);
    var k: nat :| Explains(sch, d, z, r, s, k);
    var n := sch.c.n;
    Facts(sch.c, k);
    v := sch.c.pt(k).y % 2;
    if Eq(n, s * k, r * d + z) {
      RecoverAt(sch, z, r, s, v, k, d);
    } else {
      MinusIsOpposite(n, r, d, z, s * k);
      RecoverAt(sch, z, r, s, v, k, n - d);
      SameX(sch.c, d, n - d);
    }
  }
}
