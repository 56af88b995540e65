/** The Stark-curve ECDSA functions: sign, verify against an x-only public key, recover. */
module Ecdsa {
  import opened Options
  import opened Arith
  import opened Field
  import opened Inverse
  import opened Curve
  import opened CurveGroup

  datatype SignError = SignMessage | SignK

  datatype VerifyError = VerifyMessage | VerifyR | VerifyS | VerifyPublicKey

  datatype RecoverError = RecoverMessage | RecoverR | RecoverS | RecoverV

  /** A call returns a value or an error, or panics in an `unwrap`. */
  datatype Outcome<T, E> = Ok(value: T) | Err(error: E) | Panic

  datatype ExtendedSignature = ExtendedSignature(r: int, s: int, v: int)

  /** A curve, and the bound all messages and r values must stay below. */
  datatype Scheme = Scheme(c: Params, bound: nat)

  /** The curve is valid, and bound <= n <= p < 2n and p <= 2^width as for the Stark curve. */
  ghost predicate ValidScheme(sch: Scheme) {
    ValidCurve(sch.c) && sch.bound <= sch.c.n <= sch.c.p < 2 * sch.c.n && sch.c.p <= Pow2(sch.c.width)
  }

  /** A point with the given x coordinate, with whichever root the field finds. */
  function FromX(c: Params, x: int): Option<Affine> {
    var ySquared := Add(c.p, Add(c.p, Mul(c.p, Mul(c.p, x, x), x), Mul(c.p, 1, x)), c.beta);
    match c.sqrt(ySquared)
    case None => None
    case Some(y) => Some(Affine(x, y, false))
  }

  function GetPublicKey(sch: Scheme, privateKey: nat): Option<int> {
    match MulByBits(sch.c, sch.c.pt(1), privateKey)
    case None => None
    case Some(q) => Some(q.x)
  }

  function Sign(sch: Scheme, privateKey: nat, message: nat, k: nat): Outcome<ExtendedSignature, SignError> {
    if message >= sch.bound then Err(SignMessage)
    else if k == 0 then Err(SignK)
    else
      match MulByBits(sch.c, sch.c.pt(1), k)
      case None => Panic
      case Some(fullR) =>
        var r := fullR.x;
        if r == 0 || r >= sch.bound then Err(SignK)
        else
          match ModInv(sch.c.n, k)
          case None => Panic
          case Some(kInv) =>
            var s := ((r * privateKey + message) * kInv) % sch.c.n;
            if s == 0 || s >= sch.c.n then Err(SignK)
            else Ok(ExtendedSignature(r, s, fullR.y % 2))
  }

  function Plus(p: Modulus, a: Affine, b: Affine): Option<Affine> {
    if AddDefined(p, a, b) then Some(AffineAdd(p, a, b)) else None
  }

  function Minus(p: Modulus, a: Affine, b: Affine): Option<Affine> {
    Plus(p, a, AffineNeg(p, b))
  }

  function Verify(sch: Scheme, publicKey: int, message: nat, r: nat, s: nat): Outcome<bool, VerifyError> {
    var c := sch.c;
    if message >= sch.bound then Err(VerifyMessage)
    else if r == 0 || r >= sch.bound then Err(VerifyR)
    else if s == 0 || s >= c.n then Err(VerifyS)
    else
      match FromX(c, publicKey)
      case None => Err(VerifyPublicKey)
      case Some(fullPublicKey) =>
        match ModInv(c.n, s)
        case None => Panic
        case Some(w) =>
          if w == 0 || w >= sch.bound then Err(VerifyS)
          else
            match (MulByBits(c, c.pt(1), (message * w) % c.n), MulByBits(c, fullPublicKey, (r * w) % c.n))
            case (Some(zwG), Some(rwQ)) => Compare(c.p, zwG, rwQ, r)
            case _ => Panic
  }

  /** Either sign of the x-only key may match. */
  function Compare(p: Modulus, zwG: Affine, rwQ: Affine, r: int): Outcome<bool, VerifyError> {
    match Plus(p, zwG, rwQ)
    case None => Panic
    case Some(sum) =>
      if sum.x == r then Ok(true)
      else
        match Minus(p, zwG, rwQ)
        case None => Panic
        case Some(diff) => Ok(diff.x == r)
  }

  function Recover(sch: Scheme, message: nat, r: nat, s: nat, v: nat): Outcome<int, RecoverError> {
    var c := sch.c;
    if message >= sch.bound then Err(RecoverMessage)
    else if r == 0 || r >= sch.bound then Err(RecoverR)
    else if s == 0 || s >= c.n then Err(RecoverS)
    else if v > 1 then Err(RecoverV)
    else
      match FromX(c, r)
      case None => Err(RecoverR)
      case Some(found) =>
        var fullR := if found.y % 2 != v then found.(y := Neg(c.p, found.y)) else found;
        match (MulByBits(c, fullR, s), MulByBits(c, c.pt(1), message), ModInv(c.n, r))
        case (Some(fullRs), Some(zg), Some(rInv)) =>
          (match Minus(c.p, fullRs, zg)
           case None => Panic
           case Some(rsZg) =>
             match MulByBits(c, rsZg, rInv)
             case None => Panic
             case Some(k) => Ok(k.x))
        case _ => Panic
  }

  // ----- points from x coordinates --------------------------------------------------------------------------

  lemma CurveValue(c: Params, x: int)
    ensures Eq(c.p, Add(c.p, Add(c.p, Mul(c.p, Mul(c.p, x, x), x), Mul(c.p, 1, x)), c.beta), x * x * x + x + c.beta)
    ensures In(c.p, Add(c.p, Add(c.p, Mul(c.p, Mul(c.p, x, x), x), Mul(c.p, 1, x)), c.beta))
  {
    var p := c.p;
    var xxx, ax := Mul(p, Mul(p, x, x), x), Mul(p, 1, x);
    var s := Add(p, xxx, ax);
    MulMul(p, x, x, x);
    Assoc(x, x, x);
    Ops(p, 1, x); Ops(p, xxx, ax); Ops(p, s, c.beta);
    EqAdd(p, xxx, x * x * x, ax, x);
    EqAdd(p, s, x * x * x + x, c.beta, c.beta);
  }

  lemma SqrtFacts(c: Params, v: int, y: int)
    requires ValidCurve(c)
    ensures In(c.p, v) ==> SqrtOk(c, v)
    ensures SqrtFinds(c, y)
  {
    hide PointOk, IsPoint, AddsUp, SqrtFinds, SqrtOk;
  }

  /** The point found for a multiple's x coordinate is that multiple or its opposite. */
  lemma FromXIs(c: Params, a: nat)
    requires ValidCurve(c) && 0 < a < c.n
    ensures FromX(c, c.pt(a).x) == Some(c.pt(a)) || FromX(c, c.pt(a).x) == Some(c.pt(c.n - a))
  {
    var q := c.pt(a);
    var v := Add(c.p, Add(c.p, Mul(c.p, Mul(c.p, q.x, q.x), q.x), Mul(c.p, 1, q.x)), c.beta);
    Facts(c, a);
    NegIs(c, a);
    CurveValue(c, q.x);
    SqrtFacts(c, v, q.y);
    hide ValidCurve;
    Reduced(c.p, q.y * q.y);
    Canonical(c.p, v, (q.y * q.y) % c.p);
    var found := Affine(q.x, c.sqrt(v).value, false);
    SameXSameOrOpposite(c, found, q);
  }

  /** Some multiple has this x coordinate. */
  ghost predicate IsX(c: Params, x: int) {
    exists a: nat :: HasX(c, x, a)
  }

  predicate HasX(c: Params, x: int, a: nat) { 0 < a < c.n && c.pt(a).x == x }

  lemma PointFound(c: Params, q: Affine) returns (a: nat)
    requires ValidCurve(c) && !q.infinity && InAffine(c.p, q) && OnCurve(c, q)
    ensures 0 < a < c.n && c.pt(a) == q
  {
    hide PointOk, AddsUp, SqrtOk, SqrtFinds, OnCurve;
    assert IsPoint(c, q);
    a :| 0 < a < c.n && c.pt(a) == q;
  }

  /** An x coordinate is accepted exactly when it belongs to a point. */
  lemma FromXIff(c: Params, x: int)
    requires ValidCurve(c) && In(c.p, x)
    ensures FromX(c, x).Some? <==> IsX(c, x)
  {
    if FromX(c, x).Some? {
      var q := FromX(c, x).value;
      var v := Add(c.p, Add(c.p, Mul(c.p, Mul(c.p, x, x), x), Mul(c.p, 1, x)), c.beta);
      CurveValue(c, x);
      SqrtFacts(c, v, 0);
      assert OnCurve(c, q);
      var a := PointFound(c, q);
      assert HasX(c, x, a);
    } else if IsX(c, x) {
      var a: nat :| HasX(c, x, a);
      FromXIs(c, a);
    }
  }

  lemma NegNonzeroIs(p: Modulus, y: int)
    requires 0 < y < p
    ensures Neg(p, y) == p - y
  {
    ModPlusMultiple(0 - y, 1, p);
    ModSmall(p - y, p);
  }

  lemma PrimeIsOdd(p: int)
    requires IsPrime(p) && p > 2
    ensures p % 2 == 1
  {
    assert !Divides(2, p);
  }

  lemma TwiceZero(p: Modulus)
    ensures Mul(p, 2, 0) % p == 0
  {
    ModSmall(0, p);
  }

  /** A non-zero coordinate and its negation have opposite parity. */
  lemma OppositeParity(p: Modulus, y: int)
    requires IsPrime(p) && p > 2 && In(p, y) && Mul(p, 2, y) % p != 0
    ensures Neg(p, y) % 2 != y % 2
  {
    hide Mul, IsPrime, Neg;
    TwiceZero(p);
    NegNonzeroIs(p, y);
    PrimeIsOdd(p);
  }

  lemma NegNeg(c: Params, a: nat)
    requires ValidCurve(c) && 0 < a < c.n
    ensures AffineNeg(c.p, c.pt(c.n - a)) == c.pt(a)
  {
    NegIs(c, c.n - a);
  }

  // ----- scalar bookkeeping ------------------------------------------------------------------------------------

  /** s k = r d + z. */
  lemma SignEquation(n: Modulus, r: int, d: int, z: int, k: nat, kInv: int, s: int)
    requires Eq(n, kInv * k, 1) && s == ((r * d + z) * kInv) % n
    ensures Eq(n, s * k, r * d + z)
  {
    var m := r * d + z;
    Reduced(n, m * kInv);
    EqMul(n, s, m * kInv, k, k);
    EqMul(n, m, m, kInv * k, 1);
    Assoc(m, kInv, k);
  }

  /** z w + (r w) d = k, with w the inverse of s. */
  lemma VerifyEquation(n: Modulus, r: int, d: int, z: int, k: int, s: int, w: int)
    requires Eq(n, s * k, r * d + z) && Eq(n, w * s, 1)
    ensures Eq(n, (z * w) % n + ((r * w) % n * d) % n, k)
  {
    Reduced(n, z * w);
    Reduced(n, r * w);
    Reduced(n, (r * w) % n * d);
    EqMul(n, (r * w) % n, r * w, d, d);
    EqAdd(n, (z * w) % n, z * w, ((r * w) % n * d) % n, r * w * d);
    VerifyIdentity(r, d, z, w);
    EqMul(n, w, w, s * k, r * d + z);
    EqMul(n, w * s, 1, k, k);
    Assoc(w, s, k);
  }

  lemma VerifyIdentity(r: int, d: int, z: int, w: int)
    ensures z * w + r * w * d == w * (r * d + z)
  {
    assert w * (r * d + z) == w * (r * d) + w * z;
    assert r * w * d == w * (r * d);
  }

  lemma EqToMod(n: Modulus, a: int, k: int)
    requires Eq(n, a, k) && 0 <= k < n
    ensures a % n == k
  {
    ModSmall(k, n);
  }

  // ----- keys and signatures --------------------------------------------------------------------------------------

  lemma ScaledRange(n: Modulus, y: nat, a: nat)
    requires IsPrime(n) && 0 < a < n && y % n != 0
    ensures 0 < (y * a) % n < n
    ensures a == 1 ==> (y * a) % n == y % n
  {
    hide IsPrime;
    ScaledZero(n, y, a);
    var m := y * a;
    assert a == 1 ==> m == y;
    DivMod(m, n);
  }

  /** Multiples of a point by scalars in range. */
  lemma MulIs(sch: Scheme, a: nat, y: nat)
    requires ValidScheme(sch) && 0 < a < sch.c.n && y < sch.c.p && y % sch.c.n != 0
    ensures MulByBits(sch.c, sch.c.pt(a), y) == Some(sch.c.pt((y * a) % sch.c.n))
    ensures 0 < (y * a) % sch.c.n < sch.c.n
    ensures a == 1 ==> (y * a) % sch.c.n == y % sch.c.n
  {
    Facts(sch.c, a);
    hide ValidCurve, MulByBits, PointOk, Pow2;
    ScaledRange(sch.c.n, y, a);
    MulByBitsIs(sch.c, a, y);
  }

  /** The multiple of the generator that the product by a field element is. */
  function GeneratorMultiple(n: Modulus, k: nat): nat { if k == n then n - 2 else k % n }

  lemma GeneratorMultipleIs(sch: Scheme, k: nat)
    requires ValidScheme(sch) && 0 < k < sch.c.p
    ensures 0 < GeneratorMultiple(sch.c.n, k) < sch.c.n
    ensures MulByBits(sch.c, sch.c.pt(1), k) == Some(sch.c.pt(GeneratorMultiple(sch.c.n, k)))
    ensures k % sch.c.n == 0 <==> k == sch.c.n
    ensures sch.c.pt(GeneratorMultiple(sch.c.n, sch.c.n)).x == sch.c.pt(2).x
  {
    var c := sch.c;
    Facts(c, 1);
    MulByBitsReaches(c, 1, k);
    SameX(c, c.n - 2, 2);
    hide ValidCurve, MulByBits;
    Fold(c.n, k);
    ModSmall(c.n - 2, c.n);
  }

  /** The public key of every field element: for the group order it is that of 2, for zero it is 0. */
  lemma PublicKeyIs(sch: Scheme, d: nat)
    requires ValidScheme(sch) && d < sch.c.p
    ensures GetPublicKey(sch, d)
      == Some(if d == 0 then 0 else if d == sch.c.n then sch.c.pt(2).x else sch.c.pt(d % sch.c.n).x)
  {
    hide ValidScheme, MulByBits;
    if d == 0 {
      ZeroMultiple(sch.c, sch.c.pt(1));
    } else {
      GeneratorMultipleIs(sch, d);
    }
  }

  lemma InverseExists(n: Modulus, a: nat)
    requires IsPrime(n)
    ensures ModInv(n, a).Some? <==> a % n != 0
  {
    GcdWithPrime(n, a);
  }

  /** What a successful signature with secrets d and k consists of. */
  predicate IsSigned(sch: Scheme, d: nat, z: nat, k: nat, sig: ExtendedSignature) {
    && 0 < sig.r < sch.bound && 0 < sig.s < sch.c.n
    && sig.r == sch.c.pt(k).x && sig.v == sch.c.pt(k).y % 2
    && Eq(sch.c.n, sig.s * k, sig.r * d + z)
  }

  lemma SignatureScalar(n: Modulus, m: int, kInv: int)
    requires IsPrime(n) && 0 < kInv < n
    ensures 0 <= (m * kInv) % n < n
    ensures (m * kInv) % n == 0 <==> m % n == 0
  {
    Reduced(n, m * kInv);
    ScaledZero(n, m, kInv);
  }

  /** How `sign` goes on from the nonce's point. */
  lemma SignSteps(sch: Scheme, d: nat, z: nat, k: nat, fullR: Affine)
    requires k > 0 && MulByBits(sch.c, sch.c.pt(1), k) == Some(fullR) && fullR.x >= 0
    ensures z >= sch.bound ==> Sign(sch, d, z, k) == Err(SignMessage)
    ensures z < sch.bound && !(0 < fullR.x < sch.bound) ==> Sign(sch, d, z, k) == Err(SignK)
    ensures z < sch.bound && 0 < fullR.x < sch.bound && ModInv(sch.c.n, k).None? ==> Sign(sch, d, z, k) == Panic
  {
    hide MulByBits, ModInv;
  }

  lemma SignedIs(sch: Scheme, d: nat, z: nat, k: nat, fullR: Affine)
    requires IsPrime(sch.c.n) && z < sch.bound && k % sch.c.n != 0 && 0 < fullR.x < sch.bound && k > 0
    requires ModInv(sch.c.n, k).Some? && MulByBits(sch.c, sch.c.pt(1), k) == Some(fullR)
    ensures Sign(sch, d, z, k).Ok? || Sign(sch, d, z, k) == Err(SignK)
    ensures Sign(sch, d, z, k).Ok? <==> (fullR.x * d + z) % sch.c.n != 0
    ensures Sign(sch, d, z, k).Ok? ==> var sig := Sign(sch, d, z, k).value;
      && sig.r == fullR.x && sig.v == fullR.y % 2 && 0 < sig.s < sch.c.n
      && Eq(sch.c.n, sig.s * (k % sch.c.n), sig.r * d + z)
  {
    hide MulByBits;
    var n, r, kInv := sch.c.n, fullR.x, ModInv(sch.c.n, k).value;
    var s := ((r * d + z) * kInv) % n;
    SignatureScalar(n, r * d + z, kInv);
    SignEquation(n, r, d, z, k, kInv, s);
    Reduced(n, k);
    EqMul(n, s, s, k % n, k);
    SignResult(sch, d, z, k, fullR, kInv, s);
    hide Eq, ModInv, Sign;
  }

  lemma SignResult(sch: Scheme, d: nat, z: nat, k: nat, fullR: Affine, kInv: int, s: int)
    requires z < sch.bound && 0 < fullR.x < sch.bound && k > 0
    requires ModInv(sch.c.n, k) == Some(kInv) && MulByBits(sch.c, sch.c.pt(1), k) == Some(fullR)
    requires s == ((fullR.x * d + z) * kInv) % sch.c.n && 0 <= s < sch.c.n
    ensures Sign(sch, d, z, k) == if s == 0 then Err(SignK) else Ok(ExtendedSignature(fullR.x, s, fullR.y % 2))
  {
    hide MulByBits, ModInv;
  }

  /** The message is looked at first, then the nonce. */
  lemma SignEdges(sch: Scheme, d: nat, z: nat, k: nat)
    ensures Sign(sch, d, z, k) == Err(SignMessage) <==> z >= sch.bound
    ensures z < sch.bound && k == 0 ==> Sign(sch, d, z, k) == Err(SignK)
  {
    hide MulByBits, ModInv;
  }

  /** For every key, message and nonce that are field elements: `sign` panics exactly for the group
      order as nonce, when x of twice the generator would do as r; it signs exactly when r and s are
      usable; and what it returns satisfies the signing equation. */
  lemma SignIs(sch: Scheme, d: nat, z: nat, k: nat)
    requires ValidScheme(sch) && k < sch.c.p
    ensures Sign(sch, d, z, k).Panic? <==> z < sch.bound && k == sch.c.n && 0 < sch.c.pt(2).x < sch.bound
    ensures Sign(sch, d, z, k).Ok? <==> z < sch.bound && Signs(sch, d, z, k)
    ensures Sign(sch, d, z, k).Ok? ==> IsSigned(sch, d, z, k % sch.c.n, Sign(sch, d, z, k).value)
    ensures Sign(sch, d, z, k) == Err(SignMessage) <==> z >= sch.bound
  {
    var c, n := sch.c, sch.c.n;
    Facts(c, 1);
    SignEdges(sch, d, z, k);
    if k == 0 {
      ModSmall(0, n);
      hide Sign;
    } else {
      GeneratorMultipleIs(sch, k);
      InverseExists(n, k);
      var fullR := c.pt(GeneratorMultiple(n, k));
      Facts(c, GeneratorMultiple(n, k));
      hide ValidScheme, ValidCurve, MulByBits, Eq, ModInv;
      SignSteps(sch, d, z, k, fullR);
      if z < sch.bound && k % n != 0 && 0 < fullR.x < sch.bound {
        SignedIs(sch, d, z, k, fullR);
      }
      hide Sign, OnCurve;
    }
  }

  /** The nonce is no multiple of the order, and gives an r and an s in range. */
  predicate Signs(sch: Scheme, d: nat, z: nat, k: nat) {
    var r := sch.c.pt(k % sch.c.n).x;
    k % sch.c.n != 0 && 0 < r < sch.bound && (r * d + z) % sch.c.n != 0
  }
}
