/** What ECDSA verification accepts: from every key, message and signature in range. */
module EcdsaVerify {
  import opened Options
  import opened Arith
  import opened Field
  import opened Inverse
  import opened Curve
  import opened CurveGroup
  import opened Ecdsa

  // ----- sums of multiples ------------------------------------------------------------------------------------

  lemma PlusIs(c: Params, a: nat, b: nat)
    requires ValidCurve(c) && a < c.n && b < c.n
    ensures Plus(c.p, c.pt(a), c.pt(b)) == Some(c.pt((a + b) % c.n))
  {
    SumIs(c, a, b);
  }

  lemma MinusIs(c: Params, a: nat, b: nat)
    requires ValidCurve(c) && a < c.n && 0 < b < c.n
    ensures Minus(c.p, c.pt(a), c.pt(b)) == Some(c.pt((a + (c.n - b)) % c.n))
  {
    NegIs(c, b);
    PlusIs(c, a, c.n - b);
  }

  lemma OppositeProduct(n: Modulus, x: int, d: int)
    requires (x * d) % n != 0
    ensures (x * (n - d)) % n == n - (x * d) % n
  {
    Reduced(n, x * d);
    assert x * (n - d) == (0 - x * d) + x * n;
    ModPlusMultiple(0 - x * d, x, n);
    EqAdd(n, 0, 0, x * d, (x * d) % n);
    ModPlusMultiple(0 - (x * d) % n, 1, n);
    ModSmall(n - (x * d) % n, n);
  }

  /** The comparison of the two sums with r, in terms of multiples. */
  lemma CompareMultiples(c: Params, zw: nat, f: nat, r: int)
    requires ValidCurve(c) && zw < c.n && 0 < f < c.n
    ensures Compare(c.p, c.pt(zw), c.pt(f), r) == Ok(c.pt((zw + f) % c.n).x == r || c.pt((zw + (c.n - f)) % c.n).x == r)
  {
    PlusIs(c, zw, f);
    MinusIs(c, zw, f);
    hide ValidCurve, Plus, Minus;
  }

  // ----- message zero -------------------------------------------------------------------------------------------

  /** The chord from (0, 0) through the point of the curve with this x meets it again at r:
      r x^2 = x + beta. */
  predicate ChordMeets(c: Params, x: int, r: int) { Eq(c.p, r * (x * x), x + c.beta) }

  /** Where the chord formula leads from (0, 0), which is what a multiple by zero comes back as. */
  lemma OriginChord(c: Params, b: Affine, r: int)
    requires IsPrime(c.p) && !b.infinity && InAffine(c.p, b) && b.x != 0 && OnCurve(c, b) && In(c.p, r)
    ensures AddDefined(c.p, Affine(0, 0, false), b)
    ensures AffineAdd(c.p, Affine(0, 0, false), b).x == r <==> ChordMeets(c, b.x, r)
  {
    var p, x, y := c.p, b.x, b.y;
    var o := Affine(0, 0, false);
    ModSmall(x, p);
    ModSmall(y, p);
    var l := Mul(p, Sub(p, y, 0), Inv(p, Sub(p, x, 0)));
    QuotientIs(p, y, x);
    ThirdPoint(p, l, o, b);
    var rx := AffineAdd(p, o, b).x;
    hide AffineAdd, AddDefined, OnCurve;
    OnCurveIs(c, b);
    OriginX(p, l, x, y, c.beta, rx, r);
  }

  lemma OnCurveIs(c: Params, b: Affine)
    requires OnCurve(c, b) && !b.infinity
    ensures Eq(c.p, b.y * b.y, b.x * b.x * b.x + b.x + c.beta)
  {
  }

  /** With slope l = y / x and y^2 = x^3 + x + beta, l^2 - x = r means r x^2 = x + beta. */
  lemma OriginX(p: Modulus, l: int, x: int, y: int, beta: int, rx: int, r: int)
    requires IsPrime(p) && x % p != 0 && Eq(p, l * x, y) && Eq(p, y * y, x * x * x + x + beta)
    requires In(p, rx) && In(p, r) && Eq(p, rx, l * l - 0 - x)
    ensures rx == r <==> Eq(p, r * (x * x), x + beta)
  {
    hide IsPrime;
    var m := x * x;
    NonzeroProduct(p, x, x);
    EqMul(p, l * x, y, l * x, y);
    SquareOfProduct(l, x);
    assert x * x * x == x * m;
    EqMul(p, rx, l * l - 0 - x, m, m);
    assert (l * l - 0 - x) * m == l * l * m - x * m;
    EqAdd(p, l * l * m, x * m + x + beta, x * m, x * m);
    assert Eq(p, rx * m, x + beta);
    EqCancel(p, rx, r, m);
  }

  lemma SquareOfProduct(l: int, x: int)
    ensures l * l * (x * x) == (l * x) * (l * x)
  {
    assert (l * x) * (l * x) == l * (x * (l * x));
    assert x * (l * x) == l * (x * x);
  }

  lemma MirroredSquare(p: Modulus, y: int)
    ensures Eq(p, Neg(p, y) * Neg(p, y), y * y) && In(p, Neg(p, y))
    ensures In(p, y) && y != 0 ==> Neg(p, y) != 0
  {
    Reduced(p, 0 - y);
    EqMul(p, Neg(p, y), 0 - y, Neg(p, y), 0 - y);
    assert (0 - y) * (0 - y) == y * y;
    if In(p, y) && Neg(p, y) == 0 {
      EqAdd(p, 0, 0 - y, y, y);
      Canonical(p, y, 0);
    }
  }

  lemma MirrorOnCurve(c: Params, b: Affine)
    requires InAffine(c.p, b) && OnCurve(c, b)
    ensures InAffine(c.p, AffineNeg(c.p, b)) && OnCurve(c, AffineNeg(c.p, b))
  {
    MirroredSquare(c.p, b.y);
  }

  /** Doubling (0, 0) panics. */
  lemma OriginOnAxis(p: Modulus, b: Affine)
    requires !b.infinity && b.x == 0 && In(p, b.y) && b.y != 0
    ensures !AddDefined(p, Affine(0, 0, false), b) && !AddDefined(p, Affine(0, 0, false), AffineNeg(p, b))
  {
    TwiceZero(p);
    MirroredSquare(p, b.y);
    MirroredSquare(p, Neg(p, b.y));
    hide Mul, Neg;
  }

  /** Comparing with message zero: the sums are chords from (0, 0), or a doubling of it that panics. */
  lemma CompareZero(c: Params, b: Affine, r: int)
    requires IsPrime(c.p) && !b.infinity && InAffine(c.p, b) && OnCurve(c, b) && In(c.p, r) && b.y != 0
    ensures Compare(c.p, Affine(0, 0, false), b, r) == if b.x == 0 then Panic else Ok(ChordMeets(c, b.x, r))
  {
    hide AddDefined, AffineAdd, ChordMeets;
    if b.x == 0 {
      OriginOnAxis(c.p, b);
    } else {
      MirrorOnCurve(c, b);
      OriginChord(c, b, r);
      OriginChord(c, AffineNeg(c.p, b), r);
    }
  }

  // ----- non-zero messages --------------------------------------------------------------------------------------

  /** A nonce that explains the signature: r is its point's x, and s k = z + r d or s k = z - r d. */
  predicate Explains(sch: Scheme, d: nat, z: nat, r: nat, s: nat, k: nat) {
    0 < k < sch.c.n && sch.c.pt(k).x == r && (Eq(sch.c.n, s * k, r * d + z) || Eq(sch.c.n, s * k, z - r * d))
  }

  ghost predicate Explained(sch: Scheme, d: nat, z: nat, r: nat, s: nat) {
    exists k: nat :: Explains(sch, d, z, r, s, k)
  }

  /** The number k with s k = z + r e. */
  lemma NonceIs(n: Modulus, r: int, e: int, z: int, k: int, s: int, w: int)
    requires Eq(n, w * s, 1) && 0 <= k < n
    ensures Eq(n, s * k, r * e + z) <==> k == ((z * w) % n + ((r * w) % n * e) % n) % n
  {
    var m := (z * w) % n + ((r * w) % n * e) % n;
    if Eq(n, s * k, r * e + z) {
      VerifyEquation(n, r, e, z, k, s, w);
      EqToMod(n, m, k);
    } else if k == m % n {
      Reduced(n, z * w);
      Reduced(n, r * w);
      Reduced(n, (r * w) % n * e);
      Reduced(n, m);
      EqMul(n, (r * w) % n, r * w, e, e);
      EqAdd(n, (z * w) % n, z * w, ((r * w) % n * e) % n, r * w * e);
      VerifyIdentity(r, e, z, w);
      EqMul(n, s, s, k, w * (r * e + z));
      Assoc(s, w, r * e + z);
      EqMul(n, w * s, 1, r * e + z, r * e + z);
    }
  }

  /** z - r d = z + r (n - d). */
  lemma MinusIsOpposite(n: Modulus, r: int, d: int, z: int, x: int)
    ensures Eq(n, x, z - r * d) <==> Eq(n, x, r * (n - d) + z)
  {
    assert r * (n - d) + z == (z - r * d) + r * n;
    ModPlusMultiple(z - r * d, r, n);
  }

  /** The multiple (r / s) d, whose point stands beside that of the message. */
  function KeyPart(n: Modulus, d: nat, r: nat, w: int): nat { ((r * w) % n * d) % n }

  /** Whichever of the two keys e stands for, the two candidates are the sum and the difference. */
  lemma ExplainsIff(sch: Scheme, d: nat, z: nat, r: nat, s: nat, k: nat, e: nat, w: nat)
    requires 0 < d < sch.c.n && (e == d || e == sch.c.n - d) && Eq(sch.c.n, w * s, 1)
    requires 0 < KeyPart(sch.c.n, e, r, w) < sch.c.n
    ensures Explains(sch, d, z, r, s, k) <==>
      0 < k < sch.c.n && sch.c.pt(k).x == r && IsCandidate(sch.c.n, (z * w) % sch.c.n, KeyPart(sch.c.n, e, r, w), k)
  {
    hide Eq;
    var n: int := sch.c.n;
    if 0 < k < n {
      NonceIs(n, r, e, z, k, s, w);
      NonceIs(n, r, n - e, z, k, s, w);
      OppositeProduct(n, (r * w) % n, e);
      MinusIsOpposite(n, r, d, z, s * k);
      hide KeyPart;
      assert n - (n - d) == d;
      if e == d {
        assert Eq(n, s * k, r * d + z) <==> Eq(n, s * k, r * e + z);
        assert Eq(n, s * k, z - r * d) <==> Eq(n, s * k, r * (n - e) + z);
      } else {
        assert Eq(n, s * k, r * d + z) <==> Eq(n, s * k, r * (n - e) + z);
        assert Eq(n, s * k, z - r * d) <==> Eq(n, s * k, r * e + z);
      }
    }
  }

  /** The sum and the difference of the message's and the key's multiple. */
  predicate IsCandidate(n: Modulus, zw: nat, f: nat, k: nat) {
    k == (zw + f) % n || k == (zw + (n - f)) % n
  }

  lemma AcceptedSums(sch: Scheme, d: nat, z: nat, r: nat, s: nat, e: nat, w: nat, zw: nat, f: nat)
    requires ValidCurve(sch.c) && 0 < d < sch.c.n && (e == d || e == sch.c.n - d) && Eq(sch.c.n, w * s, 1) && r > 0
    requires zw == (z * w) % sch.c.n && f == KeyPart(sch.c.n, e, r, w) && 0 < f < sch.c.n
    ensures Explained(sch, d, z, r, s) <==>
      sch.c.pt((zw + f) % sch.c.n).x == r || sch.c.pt((zw + (sch.c.n - f)) % sch.c.n).x == r
  {
    Facts(sch.c, d);
    hide ValidCurve, Eq, Explains, KeyPart;
    var n := sch.c.n;
    forall k: nat ensures Explains(sch, d, z, r, s, k) <==>
      0 < k < n && sch.c.pt(k).x == r && IsCandidate(n, zw, f, k)
    {
      ExplainsIff(sch, d, z, r, s, k, e, w);
    }
    DivMod(zw + f, n);
    DivMod(zw + (n - f), n);
    assert Explains(sch, d, z, r, s, (zw + f) % n) || sch.c.pt((zw + f) % n).x != r;
    assert Explains(sch, d, z, r, s, (zw + (n - f)) % n) || sch.c.pt((zw + (n - f)) % n).x != r;
  }

  /** Following `verify` up to the comparison. */
  lemma VerifySteps(sch: Scheme, pk: int, z: nat, r: nat, s: nat, q: Affine, zwG: Affine, rwQ: Affine)
    requires z < sch.bound && 0 < r < sch.bound && 0 < s < sch.c.n
    requires FromX(sch.c, pk) == Some(q) && ModInv(sch.c.n, s).Some?
    requires var w := ModInv(sch.c.n, s).value;
      && MulByBits(sch.c, sch.c.pt(1), (z * w) % sch.c.n) == Some(zwG)
      && MulByBits(sch.c, q, (r * w) % sch.c.n) == Some(rwQ)
    ensures Verify(sch, pk, z, r, s)
      == if ModInv(sch.c.n, s).value < sch.bound then Compare(sch.c.p, zwG, rwQ, r) else Err(VerifyS)
  {
    hide FromX, MulByBits, Compare, ModInv;
  }

  /** What verification of r and s under the key of d gives, w being the inverse of s. For a non-zero
      message it accepts exactly when some nonce explains the signature: the x-only key cannot tell d
      from n - d. For message zero only x of the multiple (r / s) d counts, and x = 0 panics. */
  ghost function Verdict(sch: Scheme, d: nat, z: nat, r: nat, s: nat, w: int): Outcome<bool, VerifyError> {
    var x := sch.c.pt(KeyPart(sch.c.n, d, r, w)).x;
    if w >= sch.bound then Err(VerifyS)
    else if z != 0 then Ok(Explained(sch, d, z, r, s))
    else if x == 0 then Panic
    else Ok(ChordMeets(sch.c, x, r))
  }

  /** The key's multiple, whichever of the two keys e stands for. */
  lemma KeyPartIs(c: Params, d: nat, e: nat, r: nat, w: int)
    requires ValidCurve(c) && 0 < d < c.n && (e == d || e == c.n - d) && (r * w) % c.n != 0
    ensures 0 < KeyPart(c.n, d, r, w) < c.n && 0 < KeyPart(c.n, e, r, w) < c.n
    ensures c.pt(KeyPart(c.n, e, r, w)).x == c.pt(KeyPart(c.n, d, r, w)).x
  {
    Facts(c, d);
    var n, rw: nat := c.n, (r * w) % c.n;
    Reduced(n, r * w);
    ScaledZero(n, rw, d);
    ModSmall(rw, n);
    Reduced(n, rw * d);
    OppositeProduct(n, rw, d);
    SameX(c, KeyPart(n, e, r, w), KeyPart(n, d, r, w));
  }

  lemma CompareIs(sch: Scheme, d: nat, e: nat, z: nat, r: nat, s: nat, w: int, zwG: Affine)
    requires ValidScheme(sch) && 0 < d < sch.c.n && (e == d || e == sch.c.n - d) && Eq(sch.c.n, w * s, 1)
    requires 0 < r < sch.bound && 0 < w < sch.bound && (r * w) % sch.c.n != 0
    requires if z == 0 then zwG == Affine(0, 0, false) else zwG == sch.c.pt((z * w) % sch.c.n)
    ensures Compare(sch.c.p, zwG, sch.c.pt(KeyPart(sch.c.n, e, r, w)), r) == Verdict(sch, d, z, r, s, w)
  {
    KeyPartIs(sch.c, d, e, r, w);
    var zw: nat := (z * w) % sch.c.n;
    hide ValidCurve, Compare, Eq, Explained, ChordMeets, OnCurve, KeyPart;
    var c, f := sch.c, KeyPart(sch.c.n, e, r, w);
    if z == 0 {
      Facts(c, f);
      NonzeroY(c, f);
      CompareZero(c, c.pt(f), r);
    } else {
      DivMod(z * w, c.n);
      CompareMultiples(c, zw, f, r);
      AcceptedSums(sch, d, z, r, s, e, w, zw, f);
    }
  }

  lemma NonzeroY(c: Params, a: nat)
    requires ValidCurve(c) && 0 < a < c.n
    ensures c.pt(a).y != 0
  {
    NoTwoTorsion(c, a);
    TwiceZero(c.p);
  }

  lemma MessagePart(sch: Scheme, z: nat, w: int)
    requires ValidScheme(sch) && z < sch.bound && 0 < w < sch.c.n
    ensures 0 <= (z * w) % sch.c.n
    ensures MulByBits(sch.c, sch.c.pt(1), (z * w) % sch.c.n)
      == Some(if z == 0 then Affine(0, 0, false) else sch.c.pt((z * w) % sch.c.n))
  {
    Facts(sch.c, 1);
    hide ValidCurve, MulByBits, PointOk;
    var n := sch.c.n;
    if z == 0 {
      ModSmall(0, n);
      ZeroMultiple(sch.c, sch.c.pt(1));
    } else {
      ScaledNonzero(n, z, w);
      var zw: nat := (z * w) % n;
      DivMod(z * w, n);
      ModSmall(zw, n);
      MulIs(sch, 1, zw);
      assert zw * 1 == zw;
    }
  }

  /** For every r and s in range, every message and the x-only key of every multiple. */
  lemma VerifyIs(sch: Scheme, d: nat, z: nat, r: nat, s: nat)
    requires ValidScheme(sch) && 0 < d < sch.c.n && z < sch.bound && 0 < r < sch.bound && 0 < s < sch.c.n
    ensures ModInv(sch.c.n, s).Some?
    ensures Verify(sch, sch.c.pt(d).x, z, r, s) == Verdict(sch, d, z, r, s, ModInv(sch.c.n, s).value)
  {
    hide ValidCurve, FromX, MulByBits, Compare, Eq, Explained, ChordMeets, Verify;
    var c, n := sch.c, sch.c.n;
    Facts(c, d);
    FromXIs(c, d);
    ModSmall(s, n);
    InverseExists(n, s);
    var e := if FromX(c, c.pt(d).x) == Some(c.pt(d)) then d else n - d;
    var w := ModInv(n, s).value;
    MessagePart(sch, z, w);
    ScaledNonzero(n, r, w);
    Reduced(n, r * w);
    ModSmall((r * w) % n, n);
    MulIs(sch, e, (r * w) % n);
    var zwG := if z == 0 then Affine(0, 0, false) else c.pt((z * w) % n);
    VerifySteps(sch, c.pt(d).x, z, r, s, c.pt(e), zwG, c.pt(KeyPart(n, e, r, w)));
    if w < sch.bound {
      CompareIs(sch, d, e, z, r, s, w, zwG);
    }
  }

  /** The other public keys are those of no point, and exactly those are reported invalid. */
  lemma KeyRejectedIff(sch: Scheme, pk: int, z: nat, r: nat, s: nat)
    requires ValidScheme(sch) && In(sch.c.p, pk) && z < sch.bound && 0 < r < sch.bound && 0 < s < sch.c.n
    ensures Verify(sch, pk, z, r, s) == Err(VerifyPublicKey) <==> !IsX(sch.c, pk)
  {
    FromXIff(sch.c, pk);
    if IsX(sch.c, pk) {
      var d: nat :| HasX(sch.c, pk, d);
      VerifyIs(sch, d, z, r, s);
    } else {
      hide FromX, ValidCurve, IsX;
    }
  }

  // ----- every input ------------------------------------------------------------------------------------------

  predicate InRanges(sch: Scheme, z: nat, r: nat, s: nat) {
    z < sch.bound && 0 < r < sch.bound && 0 < s < sch.c.n
  }

  /** The inverse of s stays below the element bound. */
  predicate Usable(sch: Scheme, s: nat) {
    ModInv(sch.c.n, s).Some? && ModInv(sch.c.n, s).value < sch.bound
  }

  /** x of the multiple (r / s) d. */
  function KeyX(sch: Scheme, d: nat, r: nat, s: nat): int
    requires ModInv(sch.c.n, s).Some?
  {
    sch.c.pt(KeyPart(sch.c.n, d, r, ModInv(sch.c.n, s).value)).x
  }

  /** The public key is x of a multiple d for which the signature is good. */
  ghost predicate GoodFor(sch: Scheme, pk: int, z: nat, r: nat, s: nat, d: nat)
    requires Usable(sch, s)
  {
    && HasX(sch.c, pk, d)
    && if z != 0 then Explained(sch, d, z, r, s)
       else KeyX(sch, d, r, s) != 0 && ChordMeets(sch.c, KeyX(sch, d, r, s), r)
  }

  ghost predicate Good(sch: Scheme, pk: int, z: nat, r: nat, s: nat) {
    Usable(sch, s) && exists d: nat :: GoodFor(sch, pk, z, r, s, d)
  }

  /** A message of zero meets a key whose multiple lies on the axis. */
  ghost predicate OnAxisFor(sch: Scheme, pk: int, r: nat, s: nat, d: nat)
    requires Usable(sch, s)
  {
    HasX(sch.c, pk, d) && KeyX(sch, d, r, s) == 0
  }

  ghost predicate OnAxis(sch: Scheme, pk: int, r: nat, s: nat) {
    Usable(sch, s) && exists d: nat :: OnAxisFor(sch, pk, r, s, d)
  }

  lemma VerifyRanges(sch: Scheme, pk: int, z: nat, r: nat, s: nat)
    ensures z >= sch.bound ==> Verify(sch, pk, z, r, s) == Err(VerifyMessage)
    ensures z < sch.bound && !(0 < r < sch.bound) ==> Verify(sch, pk, z, r, s) == Err(VerifyR)
    ensures z < sch.bound && 0 < r < sch.bound && !(0 < s < sch.c.n) ==> Verify(sch, pk, z, r, s) == Err(VerifyS)
  {
    hide FromX, MulByBits, Compare, ModInv;
  }

  lemma InRangeOutcome(sch: Scheme, pk: int, z: nat, r: nat, s: nat)
    requires ValidScheme(sch) && In(sch.c.p, pk) && InRanges(sch, z, r, s)
    ensures Verify(sch, pk, z, r, s) == (
      if !IsX(sch.c, pk) then Err(VerifyPublicKey)
      else if !Usable(sch, s) then Err(VerifyS)
      else if z == 0 && OnAxis(sch, pk, r, s) then Panic
      else Ok(Good(sch, pk, z, r, s)))
    ensures z == 0 && Good(sch, pk, 0, r, s) ==> !OnAxis(sch, pk, r, s)
  {
    hide ValidCurve, Verify, Explained, ChordMeets, KeyPart, HasX;
    KeyRejectedIff(sch, pk, z, r, s);
    if IsX(sch.c, pk) {
      forall d: nat | HasX(sch.c, pk, d)
        ensures ModInv(sch.c.n, s).Some?
        ensures Verify(sch, pk, z, r, s) == Verdict(sch, d, z, r, s, ModInv(sch.c.n, s).value)
      {
        KeyInRange(sch, pk, d);
        VerifyIs(sch, d, z, r, s);
      }
      var d: nat :| HasX(sch.c, pk, d);
      if Usable(sch, s) {
        assert OnAxisFor(sch, pk, r, s, d) || KeyX(sch, d, r, s) != 0;
        assert GoodFor(sch, pk, z, r, s, d) || Verdict(sch, d, z, r, s, ModInv(sch.c.n, s).value) != Ok(true);
      }
    }
  }

  lemma KeyInRange(sch: Scheme, pk: int, d: nat)
    requires HasX(sch.c, pk, d)
    ensures 0 < d < sch.c.n && sch.c.pt(d).x == pk
  {
  }

  /** For every input: which error is reported when, when the call panics, and exactly which signatures
      are accepted. */
  lemma VerifyOutcome(sch: Scheme, pk: int, z: nat, r: nat, s: nat)
    requires ValidScheme(sch) && In(sch.c.p, pk)
    ensures Verify(sch, pk, z, r, s) == Ok(true) <==>
      z < sch.bound && 0 < r < sch.bound && 0 < s < sch.c.n && Good(sch, pk, z, r, s)
    ensures Verify(sch, pk, z, r, s) == Err(VerifyMessage) <==> z >= sch.bound
    ensures Verify(sch, pk, z, r, s) == Err(VerifyR) <==> z < sch.bound && (r == 0 || r >= sch.bound)
    ensures Verify(sch, pk, z, r, s) == Err(VerifyS) <==>
      z < sch.bound && 0 < r < sch.bound && (s == 0 || s >= sch.c.n || (IsX(sch.c, pk) && !Usable(sch, s)))
    ensures Verify(sch, pk, z, r, s) == Err(VerifyPublicKey) <==>
      z < sch.bound && 0 < r < sch.bound && 0 < s < sch.c.n && !IsX(sch.c, pk)
    ensures Verify(sch, pk, z, r, s) == Panic <==>
      z == 0 < sch.bound && 0 < r < sch.bound && 0 < s < sch.c.n && OnAxis(sch, pk, r, s)
  {
    VerifyRanges(sch, pk, z, r, s);
    if InRanges(sch, z, r, s) {
      InRangeOutcome(sch, pk, z, r, s);
      AcceptedKeys(sch, pk, z, r, s);
    }
    hide ValidCurve, Verify, IsX, Good, OnAxis, Usable;
  }

  lemma AcceptedKeys(sch: Scheme, pk: int, z: nat, r: nat, s: nat)
    ensures Good(sch, pk, z, r, s) || OnAxis(sch, pk, r, s) ==> IsX(sch.c, pk) && Usable(sch, s)
  {
    hide HasX, Explained, Usable;
  }

  // ----- what is signed verifies -------------------------------------------------------------------------------------

  /** When the key of j accepts what was signed with d. */
  predicate Passes(n: Modulus, r: int, d: int, j: int, z: int) {
    Eq(n, d, j) || Eq(n, d, 0 - j) || Eq(n, 2 * z + r * d, r * j) || Eq(n, 2 * z + r * d, 0 - r * j)
  }

  /** s k = r d + z, and s (-k) = -(r d + z). */
  lemma ExplainedByNonce(n: Modulus, r: int, d: int, j: int, z: int, s: int, k: int)
    requires IsPrime(n) && r % n != 0 && Eq(n, s * k, r * d + z)
    ensures Eq(n, s * k, r * j + z) <==> Eq(n, d, j)
    ensures Eq(n, s * k, z - r * j) <==> Eq(n, d, 0 - j)
    ensures Eq(n, s * (n - k), r * j + z) <==> Eq(n, 2 * z + r * d, 0 - r * j)
    ensures Eq(n, s * (n - k), z - r * j) <==> Eq(n, 2 * z + r * d, r * j)
  {
    ShiftedEq(n, s * k, r * d + z, r * j + z, 0 - z);
    assert r * d == d * r && r * j == j * r && (0 - j) * r == 0 - r * j by { Commuted(r, d, j); }
    CancelFactor(n, d, j, r);
    ShiftedEq(n, s * k, r * d + z, z - r * j, 0 - z);
    CancelFactor(n, d, 0 - j, r);
    NegatedEq(n, s, k, r * d + z);
    ShiftedEq(n, s * (n - k), 0 - (r * d + z), r * j + z, r * d - r * j);
    ShiftedEq(n, s * (n - k), 0 - (r * d + z), z - r * j, r * d + r * j);
    ShiftedEq(n, 0 - z - r * j, 0 - z - r * j, r * d + z, z);
    ShiftedEq(n, 0 - z + r * j, 0 - z + r * j, r * d + z, z);
  }

  lemma Commuted(r: int, d: int, j: int)
    ensures r * d == d * r && r * j == j * r && (0 - j) * r == 0 - r * j
  {
  }

  /** Adding the same to both sides, after replacing the left. */
  lemma ShiftedEq(n: Modulus, x: int, y: int, z: int, t: int)
    requires Eq(n, x, y)
    ensures Eq(n, x, z) <==> Eq(n, y + t, z + t)
  {
    if Eq(n, x, z) { EqAdd(n, y, z, t, t); }
    if Eq(n, y + t, z + t) { EqAdd(n, y + t, z + t, t, t); }
  }

  lemma NegatedEq(n: Modulus, s: int, k: int, x: int)
    requires Eq(n, s * k, x)
    ensures Eq(n, s * (n - k), 0 - x)
  {
    assert s * (n - k) == (0 - s * k) + s * n;
    ModPlusMultiple(0 - s * k, s, n);
    EqAdd(n, 0, 0, s * k, x);
  }

  lemma ExplainedIffPasses(sch: Scheme, d: nat, j: nat, z: nat, k: nat, sig: ExtendedSignature)
    requires ValidScheme(sch) && 0 < k < sch.c.n && IsSigned(sch, d, z, k, sig)
    ensures Explained(sch, j, z, sig.r, sig.s) <==> Passes(sch.c.n, sig.r, d, j, z)
  {
    hide ValidCurve, Eq, Passes;
    var n: int := sch.c.n;
    Facts(sch.c, k);
    ModSmall(sig.r, n);
    ExplainedByNonce(n, sig.r, d, j, z, sig.s, k);
    forall k': nat | Explains(sch, j, z, sig.r, sig.s, k') ensures k' == k || k' == n - k {
      SameX(sch.c, k', k);
    }
    SameX(sch.c, n - k, k);
    PassesIs(n, sig.r, d, j, z);
    assert Explains(sch, j, z, sig.r, sig.s, k) <==> Eq(n, d, j) || Eq(n, d, 0 - j);
    assert Explains(sch, j, z, sig.r, sig.s, n - k)
      <==> Eq(n, 2 * z + sig.r * d, sig.r * j) || Eq(n, 2 * z + sig.r * d, 0 - sig.r * j);
  }

  lemma PassesIs(n: Modulus, r: int, d: int, j: int, z: int)
    ensures Passes(n, r, d, j, z)
      <==> Eq(n, d, j) || Eq(n, d, 0 - j) || Eq(n, 2 * z + r * d, r * j) || Eq(n, 2 * z + r * d, 0 - r * j)
  {
  }

  /** Verifying a signature on a non-zero message, made with any key, under the key of any j. */
  lemma VerifyUnderKey(sch: Scheme, d: nat, j: nat, z: nat, k: nat)
    requires ValidScheme(sch) && d < sch.c.p && k < sch.c.p && 0 < j < sch.c.n && 0 < z < sch.bound
    requires Sign(sch, d, z, k).Ok?
    ensures var sig := Sign(sch, d, z, k).value;
      && sig.r >= 0 && sig.s >= 0 && ModInv(sch.c.n, sig.s).Some?
      && Verify(sch, sch.c.pt(j).x, z, sig.r, sig.s)
           == if ModInv(sch.c.n, sig.s).value < sch.bound then Ok(Passes(sch.c.n, sig.r, d, j, z)) else Err(VerifyS)
  {
    SignIs(sch, d, z, k);
    var sig := Sign(sch, d, z, k).value;
    hide ValidCurve, Eq, Passes, Sign, Verify, Explained;
    Reduced(sch.c.n, k);
    ExplainedIffPasses(sch, d, j, z, k % sch.c.n, sig);
    VerifyIs(sch, j, z, sig.r, sig.s);
  }

  lemma SignedZero(sch: Scheme, d: nat, j: nat, k: nat, sig: ExtendedSignature, w: int)
    requires ValidScheme(sch) && 0 < k < sch.c.n && IsSigned(sch, d, 0, k, sig) && Eq(sch.c.n, d, j)
    requires Eq(sch.c.n, w * sig.s, 1)
    ensures KeyPart(sch.c.n, j, sig.r, w) == k
  {
    hide ValidCurve;
    var n := sch.c.n;
    EqMul(n, sig.r, sig.r, d, j);
    assert Eq(n, sig.s * k, sig.r * j + 0);
    VerifyEquation(n, sig.r, j, 0, k, sig.s, w);
    ModSmall(0, n);
    EqToMod(n, 0 + (sig.r * w % n * j) % n, k);
    Reduced(n, sig.r * w % n * j);
    ModSmall((sig.r * w % n * j) % n, n);
  }

  /** Whatever `sign` produces with a key that is no multiple of the order, `verify` against the signer's
      x-only key answers true, except that it reports s as invalid when the inverse of s reaches the
      element bound, and answers false exactly for message zero when r^3 is not r + beta. */
  lemma SignThenVerify(sch: Scheme, d: nat, z: nat, k: nat)
    requires ValidScheme(sch) && d < sch.c.p && k < sch.c.p && d % sch.c.n != 0 && z < sch.bound
    requires Sign(sch, d, z, k).Ok?
    ensures GetPublicKey(sch, d) == Some(sch.c.pt(d % sch.c.n).x)
    ensures var sig := Sign(sch, d, z, k).value;
      && sig.r >= 0 && sig.s >= 0 && ModInv(sch.c.n, sig.s).Some?
      && Verify(sch, sch.c.pt(d % sch.c.n).x, z, sig.r, sig.s)
           == if ModInv(sch.c.n, sig.s).value < sch.bound then Ok(z != 0 || ChordMeets(sch.c, sig.r, sig.r))
              else Err(VerifyS)
  {
    var n := sch.c.n;
    PublicKeyIs(sch, d);
    QuotientUnique(n, n, 1, 0);
    ModSmall(0, n);
    SignIs(sch, d, z, k);
    Reduced(n, d);
    Reduced(n, k);
    var sig := Sign(sch, d, z, k).value;
    hide ValidCurve, Sign, Verify, GetPublicKey, Explained, ChordMeets, KeyPart;
    if z != 0 {
      VerifyUnderKey(sch, d, d % n, z, k);
      PassesIs(n, sig.r, d, d % n, z);
    } else {
      VerifyIs(sch, d % n, 0, sig.r, sig.s);
      SignedZero(sch, d, d % n, k % n, sig, ModInv(n, sig.s).value);
    }
  }

  /** The group order as private key has the public key of 2, which accepts its signatures only by chance. */
  lemma OrderKeyVerifies(sch: Scheme, z: nat, k: nat)
    requires ValidScheme(sch) && sch.c.n < sch.c.p && k < sch.c.p && 0 < z < sch.bound
    requires Sign(sch, sch.c.n, z, k).Ok?
    ensures GetPublicKey(sch, sch.c.n) == Some(sch.c.pt(2).x)
    ensures var sig := Sign(sch, sch.c.n, z, k).value;
      && sig.r >= 0 && sig.s >= 0 && ModInv(sch.c.n, sig.s).Some?
      && Verify(sch, sch.c.pt(2).x, z, sig.r, sig.s)
           == if ModInv(sch.c.n, sig.s).value < sch.bound then Ok(sig.r == z || sig.r + z == sch.c.n) else Err(VerifyS)
  {
    var n := sch.c.n;
    Facts(sch.c, 1);
    PublicKeyIs(sch, n);
    SignIs(sch, n, z, k);
    VerifyUnderKey(sch, n, 2, z, k);
    hide ValidCurve, Sign, Verify, GetPublicKey;
    var sig := Sign(sch, n, z, k).value;
    OrderKeyPasses(n, sig.r, z);
  }

  lemma OrderKeyPasses(n: Modulus, r: nat, z: nat)
    requires IsPrime(n) && n > 2 && 0 < r < n && 0 < z < n
    ensures Passes(n, r, n, 2, z) <==> r == z || r + z == n
  {
    ModSmall(0, n);
    ModSmall(2, n);
    ModSmall(n - 2, n);
    QuotientUnique(n, n, 1, 0);
    ModPlusMultiple(0 - 2, 1, n);
    ModPlusMultiple(2 * z, r, n);
    assert r * 2 == 2 * r && 2 * z == z * 2 && 0 - r * 2 == (0 - r) * 2;
    CancelFactor(n, z, r, 2);
    CancelFactor(n, z, 0 - r, 2);
    ModSmall(z, n);
    ModSmall(r, n);
    ModPlusMultiple(0 - r, 1, n);
    ModSmall(n - r, n);
    PassesIs(n, r, n, 2, z);
  }
}
