/** The Pedersen hash: the generator of its lookup tables, and the accumulation that uses them. */
module Pedersen {
  import opened Arith
  import opened Field
  import opened Inverse
  import opened Curve
  import opened CurveGroup

  function Min(a: nat, b: nat): nat { if a <= b then a else b }

  /** A point as the generator writes it: coordinates, and never at infinity. */
  function Pushed(a: Affine): Affine { Affine(a.x, a.y, false) }

  // ----- the tables ------------------------------------------------------------------------------------

  /** The entries 1..count of a chunk whose unit is the multiple e. */
  function ChunkEntries(c: Params, e: nat, count: nat): (r: seq<Affine>)
    ensures |r| == count && forall k :: 0 <= k < count ==> r[k] == Pushed(c.pt(((k + 1) * e) % c.n))
  {
    if count == 0 then []
    else ChunkEntries(c, e, count - 1) + [Pushed(c.pt((count * e) % c.n))]
  }

  /** The table for `left` more bits in windows of `bits`, the first having unit e. */
  function TableFrom(c: Params, e: nat, left: nat, bits: nat): seq<Affine>
    requires bits >= 1
    decreases left
  {
    if left == 0 then []
    else
      var eat := Min(left, bits);
      ChunkEntries(c, e, Pow2(eat) - 1) + TableFrom(c, (Pow2(bits) * e) % c.n, left - eat, bits)
  }

  /** The length the generated array is declared with. */
  function DeclaredLen(maxBits: nat, bits: nat): int
    requires bits >= 1
  {
    maxBits / bits * (Pow2(bits) - 1) + (Pow2(maxBits % bits) - 1)
  }

  lemma TableStep(c: Params, e: nat, left: nat, bits: nat)
    requires left > 0 && bits >= 1
    ensures TableFrom(c, e, left, bits)
         == ChunkEntries(c, e, Pow2(Min(left, bits)) - 1)
            + TableFrom(c, (Pow2(bits) * e) % c.n, left - Min(left, bits), bits)
  {
    hide ChunkEntries;
  }

  lemma InnerStep(c: Params, e: nat, k: nat)
    requires ValidCurve(c) && e < c.n
    ensures AddDefined(c.p, c.pt((k * e) % c.n), c.pt(e))
    ensures AffineAdd(c.p, c.pt((k * e) % c.n), c.pt(e)) == c.pt(((k + 1) * e) % c.n)
  {
    hide ValidCurve, AffineAdd, AddDefined;
    DivMod(k * e, c.n);
    SumIs(c, (k * e) % c.n, e);
    PlusOne(c.n, k, e);
  }

  lemma OuterStep(c: Params, e: nat, j: nat)
    requires ValidCurve(c) && e < c.n
    ensures c.pt((Pow2(j) * e) % c.n).infinity || Mul(c.p, 2, c.pt((Pow2(j) * e) % c.n).y) % c.p != 0
    ensures AffineDouble(c.p, c.pt((Pow2(j) * e) % c.n)) == c.pt((Pow2(j + 1) * e) % c.n)
  {
    hide ValidCurve, AffineDouble;
    DivMod(Pow2(j) * e, c.n);
    DoubleIs(c, (Pow2(j) * e) % c.n);
    Doubling(c.n, Pow2(j), e);
  }

  /** The running sum of the inner loop fills one chunk of the table. */
  method PushChunk(c: Params, ghost e: nat, outerPoint: Affine, tableSize: nat) returns (buf: seq<Affine>)
    requires ValidCurve(c) && e < c.n && outerPoint == c.pt(e)
    ensures buf == ChunkEntries(c, e, tableSize)
  {
    hide ValidCurve, AffineAdd, AddDefined;
    buf := [];
    var innerPoint := outerPoint;
    ModSmall(e, c.n);
    for k := 0 to tableSize
      invariant innerPoint == c.pt(((k + 1) * e) % c.n)
      invariant buf == ChunkEntries(c, e, k)
    {
      buf := buf + [Pushed(innerPoint)];
      InnerStep(c, e, k + 1);
      innerPoint := AffineAdd(c.p, innerPoint, outerPoint);
    }
  }

  /** The generator's loops write the table of the base point. */
  method PushPoints(c: Params, ghost a: nat, base: Affine, maxBits: nat, bits: nat) returns (buf: seq<Affine>)
    requires ValidCurve(c) && 0 < a < c.n && base == c.pt(a) && bits >= 1
    ensures buf == TableFrom(c, a, maxBits, bits)
  {
    hide ValidCurve, AffineAdd, AddDefined, AffineDouble, ChunkEntries, TableFrom, Pow2;
    buf := [];
    var bitsLeft := maxBits;
    var outerPoint := base;
    ghost var e: nat := a;
    while bitsLeft > 0
      invariant 0 <= e < c.n && outerPoint == c.pt(e)
      invariant buf + TableFrom(c, e, bitsLeft, bits) == TableFrom(c, a, maxBits, bits)
    {
      var eatBits := Min(bitsLeft, bits);
      TableStep(c, e, bitsLeft, bits);
      var chunk := PushChunk(c, e, outerPoint, Pow2(eatBits) - 1);
      buf := buf + chunk;
      bitsLeft := bitsLeft - eatBits;
      ghost var unit := e;
      PowZero();
      ModSmall(e, c.n);
      for j := 0 to bits
        invariant outerPoint == c.pt((Pow2(j) * unit) % c.n)
      {
        OuterStep(c, unit, j);
        outerPoint := AffineDouble(c.p, outerPoint);
      }
      e := (Pow2(bits) * unit) % c.n;
      DivMod(Pow2(bits) * unit, c.n);
    }
    EmptyTable(c, e, bits);
  }

  lemma EmptyTable(c: Params, e: nat, bits: nat)
    requires bits >= 1
    ensures TableFrom(c, e, 0, bits) == []
  {
  }

  lemma DivStep(left: nat, bits: nat)
    requires left >= bits >= 1
    ensures left / bits == (left - bits) / bits + 1 && left % bits == (left - bits) % bits
  {
    DivMod(left - bits, bits);
    assert left == ((left - bits) / bits + 1) * bits + (left - bits) % bits;
    QuotientUnique(left, bits, (left - bits) / bits + 1, (left - bits) % bits);
  }

  lemma LengthStep(q: nat, size: nat, rest: int)
    ensures (q + 1) * size + rest == size + (q * size + rest)
  {
  }

  /** One full window more. */
  lemma DeclaredStep(left: nat, bits: nat)
    requires left >= bits >= 1
    ensures DeclaredLen(left, bits) == Pow2(bits) - 1 + DeclaredLen(left - bits, bits)
  {
    hide Pow2;
    DivStep(left, bits);
    LengthStep((left - bits) / bits, Pow2(bits) - 1, Pow2(left % bits) - 1);
  }

  lemma DeclaredLast(left: nat, bits: nat)
    requires left < bits
    ensures DeclaredLen(left, bits) == Pow2(left) - 1
  {
    hide Pow2;
    ModSmall(left, bits);
  }

  /** The generator emits exactly the declared number of points. */
  lemma {:induction false} TableLength(c: Params, e: nat, left: nat, bits: nat)
    requires bits >= 1
    ensures |TableFrom(c, e, left, bits)| == DeclaredLen(left, bits)
    decreases left
  {
    hide TableFrom, Pow2, DeclaredLen;
    if left == 0 {
      EmptyTable(c, e, bits);
      DeclaredLast(0, bits);
      PowZero();
    } else {
      TableStep(c, e, left, bits);
      var e' := (Pow2(bits) * e) % c.n;
      if left < bits {
        DeclaredLast(left, bits);
        EmptyTable(c, e', bits);
      } else {
        DeclaredStep(left, bits);
        TableLength(c, e', left - bits, bits);
      }
    }
  }

  lemma PowZero()
    ensures Pow2(0) == 1
  {
  }

  /** Bits in chunk `i`. */
  function ChunkBits(left: nat, bits: nat, i: nat): nat
    requires bits * i <= left
  {
    Min(left - bits * i, bits)
  }

  lemma UnitShift(n: Modulus, v: nat, w: nat, s: nat, e: nat)
    ensures (v * Pow2(s) * ((Pow2(w) * e) % n)) % n == (v * Pow2(w + s) * e) % n
  {
    Reduced(n, Pow2(w) * e);
    EqMul(n, v * Pow2(s), v * Pow2(s), (Pow2(w) * e) % n, Pow2(w) * e);
    PowAdd(2, w, s);
    UnitIdentity(v, Pow2(s), Pow2(w), e);
  }

  lemma UnitIdentity(v: nat, a: nat, b: nat, e: nat)
    ensures v * a * (b * e) == v * (b * a) * e
  {
    assert v * (b * a) == v * a * b;
  }

  /** The first entries of a table are those of its first chunk. */
  lemma FirstChunk(c: Params, e: nat, left: nat, bits: nat, v: nat)
    requires left > 0 && bits >= 1 && 1 <= v < Pow2(Min(left, bits))
    ensures v - 1 < |TableFrom(c, e, left, bits)|
    ensures TableFrom(c, e, left, bits)[v - 1] == Pushed(c.pt((v * e) % c.n))
  {
    hide TableFrom, Pow2;
    TableStep(c, e, left, bits);
  }

  /** The entries after a full chunk are those of the rest. */
  lemma LaterChunk(c: Params, e: nat, left: nat, bits: nat)
    requires left > bits >= 1
    ensures Pow2(bits) - 1 <= |TableFrom(c, e, left, bits)|
    ensures TableFrom(c, e, left, bits)[Pow2(bits) - 1..] == TableFrom(c, (Pow2(bits) * e) % c.n, left - bits, bits)
  {
    hide TableFrom, Pow2;
    TableStep(c, e, left, bits);
  }

  /** Entry v of chunk i is v 2^(bits i) times the base point. */
  lemma {:induction false} TableEntry(c: Params, e: nat, left: nat, bits: nat, i: nat, v: nat)
    requires bits >= 1 && bits * i < left && 1 <= v < Pow2(ChunkBits(left, bits, i))
    ensures 0 <= Lookup(bits, i, v) < |TableFrom(c, e, left, bits)|
    ensures TableFrom(c, e, left, bits)[Lookup(bits, i, v)] == Pushed(c.pt((v * Pow2(bits * i) * e) % c.n))
    decreases i
  {
    hide TableFrom, Pow2, Pushed;
    Steps(bits, i);
    if i == 0 {
      PowZero();
      FirstChunk(c, e, left, bits, v);
    } else {
      Steps(Pow2(bits) - 1, i);
      TableEntry(c, (Pow2(bits) * e) % c.n, left - bits, bits, i - 1, v);
      UnitShift(c.n, v, bits, bits * (i - 1), e);
      LaterChunk(c, e, left, bits);
    }
  }

  lemma Steps(w: int, i: nat)
    ensures i > 0 ==> w * i == w * (i - 1) + w && i * w == (i - 1) * w + w
    ensures i == 0 ==> w * i == 0
    ensures w >= 0 ==> w * i >= 0 && i * w >= 0
  {
  }

  /** Where chunk `i` with value `offset` looks, given the table size of a full chunk. */
  function Lookup(bits: nat, i: nat, offset: nat): int { i * (Pow2(bits) - 1) + offset - 1 }

  // ----- the accumulation -----------------------------------------------------------------------------------

  method BoolsToUsizeLe(bools: seq<bool>) returns (result: nat)
    ensures result == Value(bools)
  {
    result := 0;
    assert bools[..0] == [];
    for ind := 0 to |bools|
      invariant result == Value(bools[..ind])
    {
      ValueAppend(bools[..ind], bools[ind]);
      assert bools[..ind] + [bools[ind]] == bools[..ind + 1];
      if bools[ind] {
        result := result + Pow2(ind);
      }
    }
    assert bools[..|bools|] == bools;
  }

  lemma {:induction false} ValueAppend(bits: seq<bool>, b: bool)
    ensures Value(bits + [b]) == Value(bits) + (if b then Pow2(|bits|) else 0)
    decreases |bits|
  {
    if bits == [] {
      assert bits + [b] == [b] && [b][1..] == [];
    } else {
      assert (bits + [b])[1..] == bits[1..] + [b];
      ValueAppend(bits[1..], b);
    }
  }

  lemma {:induction false} ValueSplit(bits: seq<bool>, w: nat)
    requires w <= |bits|
    ensures Value(bits) == Value(bits[..w]) + Pow2(w) * Value(bits[w..])
    decreases w
  {
    if w == 0 {
      assert bits[0..] == bits && bits[..0] == [];
    } else {
      ValueSplit(bits[1..], w - 1);
      assert bits[..w][1..] == bits[1..][..w - 1] && bits[1..][w - 1..] == bits[w..];
      TwiceProduct(Pow2(w - 1), Value(bits[w..]));
    }
  }

  lemma TwiceProduct(a: nat, b: nat)
    ensures 2 * (a * b) == (2 * a) * b
  {
  }

  lemma {:induction false} ValueBound(bits: seq<bool>)
    ensures Value(bits) < Pow2(|bits|)
    decreases |bits|
  {
    if bits != [] { ValueBound(bits[1..]); }
  }

  /** Chunk `i` and those after it, `rest` being their bits. */
  function AddPointsFrom(p: Modulus, acc: Projective, rest: seq<bool>, prep: seq<Affine>, bits: nat, i: nat): Projective
    requires bits >= 1
    decreases |rest|
  {
    if rest == [] then acc
    else
      var eat := Min(|rest|, bits);
      var offset := Value(rest[..eat]);
      var at := Lookup(bits, i, offset);
      AddPointsFrom(p, if offset > 0 && 0 <= at < |prep| then AddMixed(p, acc, prep[at]) else acc,
                    rest[eat..], prep, bits, i + 1)
  }

  /** No lookup of a chunk is out of range of a table for all the bits. */
  predicate InBounds(rest: seq<bool>, prep: seq<Affine>, bits: nat, i: nat)
    requires bits >= 1
    decreases |rest|
  {
    rest == [] ||
    (var eat := Min(|rest|, bits);
     var offset := Value(rest[..eat]);
     (offset > 0 ==> 0 <= Lookup(bits, i, offset) < |prep|) && InBounds(rest[eat..], prep, bits, i + 1))
  }

  /** The accumulator stands for the multiple m, and can be converted back; at infinity it still has the
      coordinates of the point that the multiple added last cancelled. */
  predicate Holds(c: Params, acc: Projective, m: nat, last: nat) {
    && Represents(c.p, acc, c.pt(m)) && acc.z % c.p != 0 && InProjective(c.p, acc)
    && (m == 0 ==> 0 < last < c.n && Represents(c.p, acc.(infinity := false), c.pt(c.n - last)))
  }

  /** The multiple of the last table entry added for these chunks, `last` being the one before them. */
  function LastAdded(n: Modulus, e: nat, rest: seq<bool>, bits: nat, last: nat): nat
    requires bits >= 1
    decreases |rest|
  {
    if rest == [] then last
    else
      var eat := Min(|rest|, bits);
      var v := Value(rest[..eat]);
      LastAdded(n, (Pow2(bits) * e) % n, rest[eat..], bits, if v > 0 then (v * e) % n else last)
  }

  lemma AddMixedIn(p: Modulus, q: Projective, b: Affine)
    requires InProjective(p, q) && InAffine(p, b)
    ensures InProjective(p, AddMixed(p, q, b))
  {
    if !b.infinity && !q.infinity {
      var u0, u1, t0, t1 := q.x, Mul(p, b.x, q.z), q.y, Mul(p, b.y, q.z);
      if u0 == u1 {
        DoubleIn(p, q);
      } else {
        ChordIn(p, u0, u1, t0, t1, q.z);
      }
    }
  }

  lemma DoubleIn(p: Modulus, q: Projective)
    requires InProjective(p, q)
    ensures InProjective(p, ProjDouble(p, q))
  {
    hide Eq;
    if !q.infinity {
      var t := Add(p, Mul(p, Mul(p, 3, q.x), q.x), Mul(p, q.z, q.z));
      var u := Mul(p, Mul(p, 2, q.y), q.z);
      var v := Mul(p, Mul(p, Mul(p, 2, u), q.x), q.y);
      var w := Sub(p, Mul(p, t, t), Mul(p, 2, v));
      var uy := Mul(p, u, q.y);
      Ops(p, u, w);
      Ops(p, Mul(p, t, Sub(p, v, w)), Mul(p, Mul(p, 2, uy), uy));
      Ops(p, Mul(p, u, u), u);
    }
  }

  lemma ChordIn(p: Modulus, u0: int, u1: int, t0: int, t1: int, v: int)
    ensures InProjective(p, ChordTail(p, u0, u1, t0, t1, v))
  {
    hide Eq;
    var t := Sub(p, t0, t1);
    var u := Sub(p, u0, u1);
    var u2 := Mul(p, u, u);
    var w := Sub(p, Mul(p, Mul(p, t, t), v), Mul(p, u2, Add(p, u0, u1)));
    var u3 := Mul(p, u, u2);
    Ops(p, u, w);
    Ops(p, Mul(p, t, Sub(p, Mul(p, u0, u2), w)), Mul(p, t0, u3));
    Ops(p, u3, v);
  }

  /** Adding a table entry adds its multiple, whatever the accumulator holds. */
  lemma AddEntry(c: Params, acc: Projective, m: nat, k: nat, last: nat)
    requires ValidCurve(c) && m < c.n && 0 < k < c.n && Holds(c, acc, m, last)
    ensures Holds(c, AddMixed(c.p, acc, c.pt(k)), (m + k) % c.n, k)
  {
    hide ValidCurve, InProjective, AddMixed, AffineAdd;
    Facts(c, k);
    SumIs(c, m, k);
    SumIs(c, k, m);
    IdentityOnly(c, m);
    if m > 0 { NoTwoTorsion(c, m); }
    AddMixedRepresents(c.p, acc, c.pt(m), c.pt(k));
    AddMixedIn(c.p, acc, c.pt(k));
    AddMixedZ(c.p, acc, c.pt(k), c.pt((m + k) % c.n));
    DivMod(m + k, c.n);
    IdentityOnly(c, (m + k) % c.n);
    if (m + k) % c.n == 0 {
      Cancelled(c.p, acc, c.pt(k));
      Fold(c.n, m + k);
    }
  }

  /** A cancelling addition only raises the infinity flag. */
  lemma Cancelled(p: Modulus, q: Projective, b: Affine)
    requires AddMixed(p, q, b).infinity && !b.infinity
    ensures !q.infinity && AddMixed(p, q, b) == q.(infinity := true)
  {
  }

  lemma AddMixedZ(p: Modulus, q: Projective, b: Affine, r: Affine)
    requires Represents(p, AddMixed(p, q, b), r) && q.z % p != 0
    ensures AddMixed(p, q, b).z % p != 0
  {
    ModSmall(1, p);
  }

  /** A multiple below the order of a point is a proper point. */
  lemma EntryIsPoint(c: Params, v: nat, e: nat)
    requires ValidCurve(c) && v % c.n != 0 && 0 < e < c.n
    ensures 0 < (v * e) % c.n < c.n
    ensures Pushed(c.pt((v * e) % c.n)) == c.pt((v * e) % c.n)
  {
    Facts(c, e);
    hide ValidCurve;
    ModSmall(e, c.n);
    NonzeroProduct(c.n, v, e);
    DivMod(v * e, c.n);
    Facts(c, (v * e) % c.n);
  }

  lemma {:induction false} Pow2Unit(n: Modulus, s: nat)
    requires IsPrime(n) && n > 2
    ensures Pow2(s) % n != 0
  {
    if s == 0 {
      ModSmall(1, n);
    } else {
      Pow2Unit(n, s - 1);
      ModSmall(2, n);
      NonzeroProduct(n, 2, Pow2(s - 1));
    }
  }

  /** What is left of a table for the chunks from `i` on, when there are any. */
  predicate TableRest(c: Params, prep: seq<Affine>, e: nat, left: nat, bits: nat, i: nat)
    requires bits >= 1
  {
    left > 0 ==> 0 <= Lookup(bits, i, 1) <= |prep| && prep[Lookup(bits, i, 1)..] == TableFrom(c, e, left, bits)
  }

  lemma RestLookup(c: Params, prep: seq<Affine>, e: nat, left: nat, bits: nat, i: nat, v: nat)
    requires bits >= 1 && TableRest(c, prep, e, left, bits, i) && left > 0 && 1 <= v < Pow2(Min(left, bits))
    ensures 0 <= Lookup(bits, i, v) < |prep| && prep[Lookup(bits, i, v)] == Pushed(c.pt((v * e) % c.n))
  {
    hide TableFrom, Pow2, Pushed;
    FirstChunk(c, e, left, bits, v);
  }

  lemma RestNext(c: Params, prep: seq<Affine>, e: nat, left: nat, bits: nat, i: nat)
    requires bits >= 1 && TableRest(c, prep, e, left, bits, i) && left > 0
    ensures TableRest(c, prep, (Pow2(bits) * e) % c.n, left - Min(left, bits), bits, i + 1)
  {
    hide TableFrom, Pow2;
    if left > bits {
      LaterChunk(c, e, left, bits);
      Steps(Pow2(bits) - 1, i + 1);
    }
  }

  /** Adding one chunk: its lookup is in range, and it adds the chunk's value times the unit. */
  lemma AddChunk(c: Params, acc: Projective, m: nat, e: nat, v: nat, left: nat, prep: seq<Affine>, bits: nat, i: nat,
                 last: nat)
    returns (acc': Projective)
    requires ValidCurve(c) && 0 < e < c.n && m < c.n && Holds(c, acc, m, last) && bits >= 1
    requires TableRest(c, prep, e, left, bits, i) && left > 0 && v < Pow2(Min(left, bits)) && v < c.n
    ensures v > 0 ==> 0 <= Lookup(bits, i, v) < |prep|
    ensures acc' == if v > 0 then AddMixed(c.p, acc, prep[Lookup(bits, i, v)]) else acc
    ensures Holds(c, acc', (m + v * e) % c.n, if v > 0 then (v * e) % c.n else last)
  {
    hide ValidCurve, Holds, AddMixed, TableFrom, TableRest, Lookup, Pow2, Pushed;
    acc' := acc;
    if v > 0 {
      RestLookup(c, prep, e, left, bits, i, v);
      ModSmall(v, c.n);
      EntryIsPoint(c, v, e);
      AddEntry(c, acc, m, (v * e) % c.n, last);
      Reduced(c.n, v * e);
      EqAdd(c.n, m, m, (v * e) % c.n, v * e);
      acc' := AddMixed(c.p, acc, prep[Lookup(bits, i, v)]);
    } else {
      ModSmall(m, c.n);
    }
  }

  /** Chunks from `i` on add the value of their bits times the unit of chunk `i`; all lookups are in range. */
  lemma {:induction false} AddPointsIs(c: Params, acc: Projective, m: nat, e: nat, rest: seq<bool>, prep: seq<Affine>,
                                       bits: nat, i: nat, last: nat)
    requires ValidCurve(c) && 0 < e < c.n && m < c.n && Holds(c, acc, m, last) && bits >= 1
    requires TableRest(c, prep, e, |rest|, bits, i) && Pow2(|rest|) <= c.n
    ensures InBounds(rest, prep, bits, i)
    ensures Holds(c, AddPointsFrom(c.p, acc, rest, prep, bits, i), (m + Value(rest) * e) % c.n,
                  LastAdded(c.n, e, rest, bits, last))
    decreases |rest|
  {
    hide ValidCurve, Holds, AddMixed, TableFrom, TableRest, Lookup, Pow2, Value;
    if rest == [] {
      ModSmall(m, c.n);
      EmptyValue();
    } else {
      var eat := Min(|rest|, bits);
      var v, r := Value(rest[..eat]), rest[eat..];
      ValueBound(rest[..eat]);
      ValueSplit(rest, eat);
      Pow2Monotone(eat, |rest|);
      Pow2Monotone(|r|, |rest|);
      var acc' := AddChunk(c, acc, m, e, v, |rest|, prep, bits, i, last);
      DivMod(m + v * e, c.n);
      NextUnit(c, bits, e);
      RestNext(c, prep, e, |rest|, bits, i);
      AddPointsIs(c, acc', (m + v * e) % c.n, (Pow2(bits) * e) % c.n, r, prep, bits, i + 1,
                  if v > 0 then (v * e) % c.n else last);
      if r == [] { EmptyValue(); }
      ChunkSum(c.n, m, v, Value(r), Pow2(bits), Pow2(eat), e);
    }
  }

  lemma EmptyValue()
    ensures Value([]) == 0
  {
  }

  lemma NextUnit(c: Params, bits: nat, e: nat)
    requires ValidCurve(c) && 0 < e < c.n
    ensures 0 < (Pow2(bits) * e) % c.n < c.n
  {
    hide ValidCurve;
    Facts(c, e);
    Pow2Unit(c.n, bits);
    EntryIsPoint(c, Pow2(bits), e);
  }

  lemma {:induction false} Pow2Monotone(a: nat, b: nat)
    requires a <= b
    ensures Pow2(a) <= Pow2(b)
  {
    if a < b { Pow2Monotone(a, b - 1); }
  }

  lemma ChunkSum(n: Modulus, m: nat, v: nat, r: nat, w: nat, w': nat, e: nat)
    requires w == w' || r == 0
    ensures ((m + v * e) % n + r * ((w * e) % n)) % n == (m + (v + w' * r) * e) % n
  {
    Reduced(n, m + v * e);
    Reduced(n, w * e);
    EqMul(n, r, r, (w * e) % n, w * e);
    EqAdd(n, (m + v * e) % n, m + v * e, r * ((w * e) % n), r * (w * e));
    ChunkIdentity(v, r, w, w', e);
  }

  lemma ChunkIdentity(v: nat, r: nat, w: nat, w': nat, e: nat)
    requires w == w' || r == 0
    ensures v * e + r * (w * e) == (v + w' * r) * e
  {
    assert r * (w * e) == (w * r) * e;
    assert w * r == w' * r;
    assert (v + w' * r) * e == v * e + w' * r * e;
  }

  // ----- the hash -----------------------------------------------------------------------------------------------

  /** The tables for the four base points and the shift point, as multiples of the generator. */
  datatype Bases = Bases(shift: nat, p0: nat, p1: nat, p2: nat, p3: nat)

  predicate ValidBases(c: Params, b: Bases) {
    && 0 < b.shift < c.n && 0 < b.p0 < c.n && 0 < b.p1 < c.n && 0 < b.p2 < c.n && 0 < b.p3 < c.n
  }

  /** The multiple m plus k times the multiple a. */
  function Plus(n: Modulus, m: int, k: int, a: int): int { (m + k * a) % n }

  /** The multiple the hash of x and y stands for, with `low` low bits (248 in the source). */
  function HashMultiple(c: Params, b: Bases, x: nat, y: nat, low: nat): int {
    var m := Pow2(low);
    Plus(c.n, Plus(c.n, Plus(c.n, Plus(c.n, b.shift, x % m, b.p0), x / m, b.p1), y % m, b.p2), y / m, b.p3)
  }

  /** The multiple of the last table entry that hashing adds. */
  function HashLast(c: Params, b: Bases, xBits: seq<bool>, yBits: seq<bool>, low: nat, high: nat, bits: nat): nat
    requires bits >= 1 && low + high <= |xBits| && low + high <= |yBits|
  {
    var l1 := LastAdded(c.n, b.p0, xBits[..low], bits, 0);
    var l2 := LastAdded(c.n, b.p1, xBits[low..low + high], bits, l1);
    var l3 := LastAdded(c.n, b.p2, yBits[..low], bits, l2);
    LastAdded(c.n, b.p3, yBits[low..low + high], bits, l3)
  }

  /** Slicing the bits loses nothing of a number below 2^(low + high). */
  lemma SlicedBits(x: nat, width: nat, low: nat, high: nat)
    requires x < Pow2(low + high) && low + high <= width
    ensures Value(ToBitsLe(x, width)[..low]) == x % Pow2(low)
    ensures Value(ToBitsLe(x, width)[low..low + high]) == x / Pow2(low)
  {
    hide Value, ToBitsLe, Pow2;
    var bits := ToBitsLe(x, width);
    Pow2Monotone(low + high, width);
    BitsValue(x, width);
    var used := bits[..low + high];
    ValueSplit(bits, low + high);
    ValueBound(used);
    HighZero(Value(used), Value(bits[low + high..]), Pow2(low + high), x);
    ValueSplit(used, low);
    assert used[..low] == bits[..low] && used[low..] == bits[low..low + high];
    ValueBound(bits[..low]);
    QuotientUnique(x, Pow2(low), Value(used[low..]), Value(used[..low]));
  }

  lemma HighZero(l: nat, h: nat, m: nat, x: nat)
    requires x == l + m * h && x < m
    ensures h == 0 && x == l
  {
    NonzeroMultiple(h, m);
  }

  /** The hash: four accumulations from the shift point, then the affine x coordinate. It is the x
      coordinate of shift + x_low P0 + x_high P1 + y_low P2 + y_high P3 whenever that sum is a point,
      and that of the table entry added last when the sum is the identity. */
  method PedersenHash(c: Params, ghost b: Bases, shiftPoint: Affine, t0: seq<Affine>, t1: seq<Affine>, t2: seq<Affine>,
                      t3: seq<Affine>, x: nat, y: nat, low: nat, high: nat, bits: nat) returns (r: int)
    requires ValidCurve(c) && ValidBases(c, b) && shiftPoint == c.pt(b.shift) && bits >= 1
    requires x < c.p && y < c.p && c.p <= Pow2(low + high) && low + high <= c.width
    requires Pow2(low) <= c.n && Pow2(high) <= c.n
    requires t0 == TableFrom(c, b.p0, low, bits) && t1 == TableFrom(c, b.p1, high, bits)
    requires t2 == TableFrom(c, b.p2, low, bits) && t3 == TableFrom(c, b.p3, high, bits)
    ensures HashMultiple(c, b, x, y, low) != 0 ==> r == c.pt(HashMultiple(c, b, x, y, low)).x
    ensures HashMultiple(c, b, x, y, low) == 0 ==>
      r == c.pt(HashLast(c, b, ToBitsLe(x, c.width), ToBitsLe(y, c.width), low, high, bits)).x
  {
    hide ValidCurve, Holds, AddPointsFrom, InBounds, TableFrom, ProjDouble, AddMixed, ToAffine, Value, ToBitsLe, Pow2,
      Represents, InProjective, Plus, LastAdded;
    var xBits, yBits := ToBitsLe(x, c.width), ToBitsLe(y, c.width);
    SlicedBits(x, c.width, low, high);
    SlicedBits(y, c.width, low, high);
    var acc := new ProjectivePoint(FromAffine(shiftPoint));
    ShiftHolds(c, b.shift);
    ghost var l1 := LastAdded(c.n, b.p0, xBits[..low], bits, 0);
    ghost var m1 := AddPoints(c, acc, b.shift, b.p0, xBits[..low], t0, bits, 0);
    ghost var l2 := LastAdded(c.n, b.p1, xBits[low..low + high], bits, l1);
    ghost var m2 := AddPoints(c, acc, m1, b.p1, xBits[low..low + high], t1, bits, l1);
    ghost var l3 := LastAdded(c.n, b.p2, yBits[..low], bits, l2);
    ghost var m3 := AddPoints(c, acc, m2, b.p2, yBits[..low], t2, bits, l2);
    ghost var m4 := AddPoints(c, acc, m3, b.p3, yBits[low..low + high], t3, bits, l3);
    assert m4 == HashMultiple(c, b, x, y, low);
    HashReads(c, acc.View(), m4, HashLast(c, b, xBits, yBits, low, high, bits));
    var result := ToAffine(c.p, acc.View());
    r := result.x;
  }

  lemma ShiftHolds(c: Params, a: nat)
    requires ValidCurve(c) && 0 < a < c.n
    ensures Holds(c, FromAffine(c.pt(a)), a, 0)
  {
    hide ValidCurve;
    Facts(c, a);
    FromAffineRepresents(c, c.pt(a));
    ModSmall(1, c.p);
  }

  lemma AfterBits(c: Params, acc: Projective, m: nat, a: nat, bitList: seq<bool>, bits: nat, last: nat)
    returns (m': nat)
    requires ValidCurve(c) && 0 < a < c.n && m < c.n && Holds(c, acc, m, last) && bits >= 1
    requires Pow2(|bitList|) <= c.n
    ensures InBounds(bitList, TableFrom(c, a, |bitList|, bits), bits, 0)
    ensures m' == Plus(c.n, m, Value(bitList), a) && m' < c.n
    ensures Holds(c, AddPointsFrom(c.p, acc, bitList, TableFrom(c, a, |bitList|, bits), bits, 0), m',
                  LastAdded(c.n, a, bitList, bits, last))
  {
    hide ValidCurve, Holds, AddPointsFrom, InBounds, TableFrom, Value, LastAdded;
    assert TableRest(c, TableFrom(c, a, |bitList|, bits), a, |bitList|, bits, 0);
    AddPointsIs(c, acc, m, a, bitList, TableFrom(c, a, |bitList|, bits), bits, 0, last);
    m' := (m + Value(bitList) * a) % c.n;
    DivMod(m + Value(bitList) * a, c.n);
  }

  /** Adds one table's chunks: the accumulator moves by the value of the bits times the table's base. */
  method AddPoints(c: Params, acc: ProjectivePoint, ghost m: nat, ghost a: nat, bitList: seq<bool>, prep: seq<Affine>,
                   bits: nat, ghost last: nat)
    returns (ghost m': nat)
    requires ValidCurve(c) && 0 < a < c.n && m < c.n && Holds(c, acc.View(), m, last) && bits >= 1
    requires Pow2(|bitList|) <= c.n && prep == TableFrom(c, a, |bitList|, bits)
    modifies acc
    ensures acc.View() == AddPointsFrom(c.p, old(acc.View()), bitList, prep, bits, 0)
    ensures m' == Plus(c.n, m, Value(bitList), a) && m' < c.n
    ensures Holds(c, acc.View(), m', LastAdded(c.n, a, bitList, bits, last))
  {
    hide ValidCurve, Holds, TableFrom, Value, AddMixed, Plus, LastAdded;
    m' := AfterBits(c, acc.View(), m, a, bitList, bits, last);
    var tableSize := Pow2(bits) - 1;
    var rest, i := bitList, 0;
    while rest != []
      invariant InBounds(rest, prep, bits, i)
      invariant AddPointsFrom(c.p, acc.View(), rest, prep, bits, i)
             == AddPointsFrom(c.p, old(acc.View()), bitList, prep, bits, 0)
      decreases |rest|
    {
      var eat := Min(|rest|, bits);
      var offset := BoolsToUsizeLe(rest[..eat]);
      if offset > 0 {
        acc.AddAssignAffine(c.p, prep[i * tableSize + offset - 1]);
      }
      rest, i := rest[eat..], i + 1;
    }
  }

  lemma PlusIs(n: Modulus, m: int, k: nat, a: nat)
    ensures Plus(n, m, k, a) == Add(n, m, Times(k, a)) >= 0
  {
  }

  lemma FourSumsOf(n: Modulus, s: nat, a: nat, b: nat, c: nat, d: nat)
    ensures Add(n, Add(n, Add(n, Add(n, s, a), b), c), d) == (s + a + b + c + d) % n
  {
    Reduced(n, s + a);
    EqAdd(n, (s + a) % n, s + a, b, b);
    Reduced(n, (s + a) % n + b);
    EqAdd(n, ((s + a) % n + b) % n, s + a + b, c, c);
    Reduced(n, ((s + a) % n + b) % n + c);
    EqAdd(n, (((s + a) % n + b) % n + c) % n, s + a + b + c, d, d);
  }

  function Times(k: nat, a: nat): nat { k * a }

  lemma PlusFour(n: Modulus, s: nat, k: (nat, nat, nat, nat), a: (nat, nat, nat, nat))
    ensures Plus(n, Plus(n, Plus(n, Plus(n, s, k.0, a.0), k.1, a.1), k.2, a.2), k.3, a.3)
         == (s + Times(k.0, a.0) + Times(k.1, a.1) + Times(k.2, a.2) + Times(k.3, a.3)) % n
  {
    hide Plus, Times, Add;
    var p0, p1, p2, p3 := Times(k.0, a.0), Times(k.1, a.1), Times(k.2, a.2), Times(k.3, a.3);
    PlusIs(n, s, k.0, a.0);
    var m1 := Plus(n, s, k.0, a.0);
    var m2 := Plus(n, m1, k.1, a.1);
    PlusIs(n, m1, k.1, a.1);
    PlusIs(n, m2, k.2, a.2);
    PlusIs(n, Plus(n, m2, k.2, a.2), k.3, a.3);
    FourSumsOf(n, s, p0, p1, p2, p3);
  }

  /** The hash's multiple is the shift plus the four products. */
  lemma HashMultipleIs(c: Params, b: Bases, x: nat, y: nat, low: nat)
    ensures var m := Pow2(low);
      HashMultiple(c, b, x, y, low)
        == (b.shift + Times(x % m, b.p0) + Times(x / m, b.p1) + Times(y % m, b.p2) + Times(y / m, b.p3)) % c.n
  {
    hide Plus, Pow2, Times;
    var m := Pow2(low);
    PlusFour(c.n, b.shift, (x % m, x / m, y % m, y / m), (b.p0, b.p1, b.p2, b.p3));
  }

  lemma HashReads(c: Params, acc: Projective, m: nat, last: nat)
    requires ValidCurve(c) && m < c.n && Holds(c, acc, m, last)
    ensures acc.z % c.p != 0
    ensures ToAffine(c.p, acc).x == c.pt(if m != 0 then m else last).x
  {
    if m != 0 {
      Facts(c, m);
      hide ValidCurve, ToAffine;
      ToAffineIs(c.p, acc, c.pt(m));
    } else {
      Facts(c, c.n - last);
      NegIs(c, last);
      hide ValidCurve;
      ToAffineIs(c.p, acc.(infinity := false), c.pt(c.n - last));
    }
  }
}
