/**
 The permutation that runs on the generated table as a run of rounds in plain arithmetic, the hash in
 terms of it, and that the permutation is one: it is injective.
*/
module PoseidonLaws {
  import opened Arith
  import opened Field
  import opened Inverse
  import opened Poseidon
  import Curve

  // ----- the permutation ----------------------------------------------------------------------------------

  /** A run over all the keys: full rounds, partial rounds, full rounds. */
  ghost predicate PlainRun(sh: Shape, rcs: Keys, states: seq<St>) {
    && |rcs| >= 2 * sh.half + sh.partial && |states| == 2 * sh.half + sh.partial + 1
    && forall i :: 0 <= i < 2 * sh.half + sh.partial ==>
         if sh.half <= i < sh.half + sh.partial then PartialRound(sh.p, states[i], rcs[i], states[i + 1])
         else FullRound(sh.p, states[i], rcs[i], states[i + 1])
  }

  lemma SameFull(p: Modulus, s: St, k: St, t: St)
    requires FullRound(p, s, k, t)
    ensures t == PlainRound(p, s, k, true)
  {
    RoundIs(p, s, k);
    hide PlainRound;
  }

  lemma SamePartial(p: Modulus, s: St, k: St, t: St)
    requires PartialRound(p, s, k, t)
    ensures t == PlainRound(p, s, k, false)
  {
    RoundIs(p, s, k);
    hide PlainRound;
  }

  lemma {:induction false} RunIsPlain(sh: Shape, rcs: Keys, states: seq<St>, n: nat)
    requires PlainRun(sh, rcs, states) && n < |states|
    ensures states[n] == Plain(sh, rcs, states[0], n)
    decreases n
  {
    if n > 0 {
      RunIsPlain(sh, rcs, states, n - 1);
      hide PlainRound, FullRound, PartialRound;
      if sh.half <= n - 1 < sh.half + sh.partial {
        SamePartial(sh.p, states[n - 1], rcs[n - 1], states[n]);
      } else {
        SameFull(sh.p, states[n - 1], rcs[n - 1], states[n]);
      }
    }
  }

  /** The permutation on the generated table ends where the run over all the keys ends. */
  lemma PermutationIs(sh: Shape, rcs: Keys, states: seq<St>)
    requires sh.half >= 1 && PlainRun(sh, rcs, states)
    ensures Used(sh, Rounds(sh)) <= |Compressed(sh, rcs)|
    ensures Comp(sh, Compressed(sh, rcs), states[0], Rounds(sh)) == states[|states| - 1]
  {
    hide Comp, Compressed, Plain, Used;
    CompressionPreservesPermutation(sh, rcs, states[0]);
    RunIsPlain(sh, rcs, states, |states| - 1);
  }

  /** Every state has such a run. */
  lemma RunExists(sh: Shape, rcs: Keys, s: St) returns (states: seq<St>)
    requires Rounds(sh) <= |rcs|
    ensures PlainRun(sh, rcs, states) && states[0] == s
  {
    states := seq(Rounds(sh) + 1, n requires 0 <= n <= Rounds(sh) => Plain(sh, rcs, s, n));
    forall i | 0 <= i < Rounds(sh)
      ensures if sh.half <= i < sh.half + sh.partial then PartialRound(sh.p, states[i], rcs[i], states[i + 1])
              else FullRound(sh.p, states[i], rcs[i], states[i + 1])
    {
      RoundIs(sh.p, states[i], rcs[i]);
      hide PlainRound, FullRound, PartialRound;
      assert states[i + 1] == PlainRound(sh.p, states[i], rcs[i], IsFull(sh, i));
    }
  }

  // ----- the hash --------------------------------------------------------------------------------------------

  /** The state after absorbing an even number of elements, pair by pair from zero. */
  ghost predicate AbsorbedTo(sh: Shape, rcs: Keys, msgs: seq<int>, states: seq<St>) {
    && Rounds(sh) <= |rcs| && |msgs| % 2 == 0 && |states| == |msgs| / 2 + 1
    && states[0] == St(0, 0, 0)
    && forall i :: 0 <= i < |msgs| / 2 ==> AbsorbedAt(sh, rcs, states[i], msgs[2 * i], msgs[2 * i + 1], states[i + 1])
  }

  predicate AbsorbedAt(sh: Shape, rcs: Keys, s: St, x: int, y: int, t: St)
    requires Rounds(sh) <= |rcs|
  {
    t == PlainPermute(sh, rcs, St((s.a + x) % sh.p, (s.b + y) % sh.p, s.c))
  }

  lemma {:induction false} LastPair(sh: Shape, rcs: Keys, msgs: seq<int>)
    requires Rounds(sh) <= |rcs| && |msgs| % 2 == 0 && |msgs| > 0
    ensures AbsorbedAt(sh, rcs, PlainAbsorb(sh, rcs, msgs[..|msgs| - 2]), msgs[|msgs| - 2], msgs[|msgs| - 1],
                       PlainAbsorb(sh, rcs, msgs))
  {
    hide PlainPermute;
  }

  lemma {:induction false} AbsorbedPairs(sh: Shape, rcs: Keys, msgs: seq<int>, states: seq<St>, n: nat)
    requires AbsorbedTo(sh, rcs, msgs, states) && n < |states|
    ensures PlainAbsorb(sh, rcs, msgs[..2 * n]) == states[n]
    decreases n
  {
    hide PlainPermute, PlainAbsorb, Rounds;
    if n == 0 {
      assert msgs[..0] == [];
      PlainAbsorbNone(sh, rcs);
    } else {
      var m := 2 * n - 2;
      AbsorbedPairs(sh, rcs, msgs, states, n - 1);
      assert AbsorbedAt(sh, rcs, states[n - 1], msgs[2 * (n - 1)], msgs[2 * (n - 1) + 1], states[n]);
      LastPair(sh, rcs, msgs[..2 * n]);
      assert msgs[..2 * n][..m] == msgs[..2 * (n - 1)];
    }
  }

  lemma {:induction false} PlainAbsorbNone(sh: Shape, rcs: Keys)
    requires Rounds(sh) <= |rcs|
    ensures PlainAbsorb(sh, rcs, []) == St(0, 0, 0)
  {
  }

  /** The hash of a list with the generated table: pad with a one, and a zero if that leaves it odd,
      absorb pair by pair with the plain permutation, and read the first cell. */
  lemma HashIs(sh: Shape, rcs: Keys, msgs: seq<int>, states: seq<St>)
    requires sh.half >= 1
    requires AbsorbedTo(sh, rcs, if |msgs| % 2 == 1 then msgs + [1] else msgs + [1, 0], states)
    ensures Used(sh, Rounds(sh)) <= |Compressed(sh, rcs)|
    ensures HashMany(sh, Compressed(sh, rcs), msgs) == states[|states| - 1].a
  {
    hide Compressed, PlainAbsorb, Absorb, Used;
    var padded := if |msgs| % 2 == 1 then msgs + [1] else msgs + [1, 0];
    HashIsPlainSponge(sh, rcs, padded);
    AbsorbedPairs(sh, rcs, padded, states, |states| - 1);
    assert padded[..2 * (|states| - 1)] == padded;
  }

  // ----- injectivity -------------------------------------------------------------------------------------------

  function UpTo(n: nat): (r: set<int>)
    ensures |r| == n && forall i :: i in r <==> 1 <= i <= n
  {
    if n == 0 then {} else UpTo(n - 1) + {n}
  }

  /** Multiplying by t moves every residue round a cycle of three. */
  lemma CycleOfThree(p: Modulus, t: int, a: int)
    requires IsPrime(p) && Eq(p, t * t * t, 1) && !Eq(p, t, 1) && 0 < a < p
    ensures var b := Mul(p, t, a); var c := Mul(p, t, b); a != b && b != c && c != a && Mul(p, t, c) == a
  {
    hide IsPrime;
    var b := (t * a) % p;
    var c := (t * b) % p;
    Reduced(p, t * a);
    Reduced(p, t * b);
    ModSmall(a, p);
    EqMul(p, t, t, b, t * a);
    Curve.Assoc(t, t, a);
    EqMul(p, t, t, c, t * t * a);
    Curve.Assoc(t, t * t, a);
    Curve.Assoc(t, t, t);
    EqMul(p, t * t * t, 1, a, a);
    Curve.CancelFactor(p, t, 1, a);
    if c == a {
      Curve.CancelFactor(p, t * t, 1, a);
      EqMul(p, t, t, t * t, 1);
    }
    if b == c {
      NextInCycle(p, t, a, b, c);
    }
  }

  /** Multiplication by t is injective, as t^3 = 1. */
  lemma NextInCycle(p: Modulus, t: int, a: int, b: int, c: int)
    requires Eq(p, t * t * t, 1) && b == (t * a) % p && c == (t * b) % p && b == c && 0 < a < p
    ensures a == b
  {
    Reduced(p, t * a);
    Reduced(p, t * b);
    EqMul(p, t * t, t * t, t * a, t * b);
    Curve.Assoc(t * t, t, a);
    Curve.Assoc(t * t, t, b);
    EqMul(p, t * t * t, 1, a, a);
    EqMul(p, t * t * t, 1, b, b);
    ModSmall(a, p);
    ModSmall(b, p);
  }

  lemma SameImage(p: Modulus, t: int, x: int, y: int)
    requires Eq(p, t * t * t, 1) && In(p, x) && In(p, y) && Mul(p, t, x) == Mul(p, t, y)
    ensures x == y
  {
    EqMul(p, t * t, t * t, t * x, t * y);
    Curve.Assoc(t * t, t, x);
    Curve.Assoc(t * t, t, y);
    EqMul(p, t * t * t, 1, x, x);
    EqMul(p, t * t * t, 1, y, y);
    Canonical(p, x, y);
  }

  predicate ClosedAt(p: Modulus, t: int, s: set<int>, a: int) { a in s ==> 0 < a < p && Mul(p, t, a) in s }

  /** Multiplication by t does not lead out of the set. */
  ghost predicate Closed(p: Modulus, t: int, s: set<int>) {
    forall a :: ClosedAt(p, t, s, a)
  }

  lemma RestClosed(p: Modulus, t: int, s: set<int>, a: int, x: int)
    requires IsPrime(p) && Eq(p, t * t * t, 1) && !Eq(p, t, 1) && Closed(p, t, s) && a in s
    ensures var b := Mul(p, t, a); var c := Mul(p, t, b); ClosedAt(p, t, s - {a, b, c}, x)
  {
    assert ClosedAt(p, t, s, a) && ClosedAt(p, t, s, x);
    CycleOfThree(p, t, a);
    hide IsPrime, Eq, Mul, Closed;
    var b := Mul(p, t, a);
    var c := Mul(p, t, b);
    assert ClosedAt(p, t, s, b) by { assert ClosedAt(p, t, s, a); ClosedIs(p, t, s, b); }
    assert ClosedAt(p, t, s, c) by { ClosedIs(p, t, s, c); }
    if x in s - {a, b, c} {
      if Mul(p, t, x) == a { SameImage(p, t, x, c); }
      if Mul(p, t, x) == b { SameImage(p, t, x, a); }
      if Mul(p, t, x) == c { SameImage(p, t, x, b); }
    }
  }

  lemma ClosedIs(p: Modulus, t: int, s: set<int>, a: int)
    requires Closed(p, t, s)
    ensures ClosedAt(p, t, s, a)
  {
  }

  /** Taking out a cycle leaves a smaller set of the same kind. */
  lemma TakeCycle(p: Modulus, t: int, s: set<int>, a: int) returns (rest: set<int>)
    requires IsPrime(p) && Eq(p, t * t * t, 1) && !Eq(p, t, 1) && Closed(p, t, s) && a in s
    ensures |s| == |rest| + 3 && Closed(p, t, rest)
  {
    ClosedIs(p, t, s, a);
    CycleOfThree(p, t, a);
    ClosedIs(p, t, s, Mul(p, t, a));
    ghost var b, c := Mul(p, t, a), Mul(p, t, Mul(p, t, a));
    rest := s - {a, b, c};
    forall x ensures ClosedAt(p, t, rest, x) { RestClosed(p, t, s, a, x); }
    hide IsPrime, Eq, Mul, ClosedAt;
    assert s == rest + {a, b, c};
    assert |{a, b, c}| == 3;
  }

  /** So a set of residues closed under it falls into threes. */
  lemma {:induction false} ClosedSet(p: Modulus, t: int, s: set<int>)
    requires IsPrime(p) && Eq(p, t * t * t, 1) && !Eq(p, t, 1) && Closed(p, t, s)
    ensures |s| % 3 == 0
    decreases |s|
  {
    hide IsPrime, Eq, Mul, Closed;
    if s != {} {
      var a := Member(s);
      var rest := TakeCycle(p, t, s, a);
      ClosedSet(p, t, rest);
    }
  }

  lemma AllClosed(p: Modulus, t: int)
    requires IsPrime(p) && Eq(p, t * t * t, 1)
    ensures Closed(p, t, UpTo(p - 1))
  {
    var all := UpTo(p - 1);
    forall a: int ensures ClosedAt(p, t, all, a) {
      if 0 < a < p { UnitTimes(p, t, a); }
      hide IsPrime, Eq, Mul;
    }
  }

  /** No residue but 1 has order three unless 3 divides p - 1. */
  lemma OnlyRoot(p: Modulus, t: int)
    requires IsPrime(p) && p % 3 != 1 && Eq(p, t * t * t, 1)
    ensures Eq(p, t, 1)
  {
    hide IsPrime, Closed, Eq;
    if !Eq(p, t, 1) {
      AllClosed(p, t);
      ClosedSet(p, t, UpTo(p - 1));
    }
  }

  /** Modulo a prime without elements of order three, cubing loses nothing. */
  lemma CubeInjective(p: Modulus, x: int, y: int)
    requires IsPrime(p) && p % 3 != 1 && In(p, x) && In(p, y) && Eq(p, x * x * x, y * y * y)
    ensures x == y
  {
    ModSmall(0, p);
    ModSmall(x, p);
    ModSmall(y, p);
    if x != 0 { CubeNonzero(p, x); }
    if y != 0 {
      CubeNonzero(p, y);
      var t := Mul(p, x, Curve.Inv(p, y));
      Curve.QuotientIs(p, x, y);
      RatioCubed(p, t, x, y);
      OnlyRoot(p, t);
      EqMul(p, t, 1, y, y);
      hide IsPrime;
    }
  }

  lemma CubeNonzero(p: Modulus, x: int)
    requires IsPrime(p) && x % p != 0
    ensures (x * x * x) % p != 0
  {
    Curve.NonzeroProduct(p, x, x);
    Curve.NonzeroProduct(p, x * x, x);
  }

  lemma RatioCubed(p: Modulus, t: int, x: int, y: int)
    requires IsPrime(p) && y % p != 0 && Eq(p, t * y, x) && Eq(p, x * x * x, y * y * y)
    ensures Eq(p, t * t * t, 1)
  {
    CubeNonzero(p, y);
    EqMul(p, t * y, x, t * y, x);
    EqMul(p, (t * y) * (t * y), x * x, t * y, x);
    CubeOfProduct(t, y);
    Curve.CancelFactor(p, t * t * t, 1, y * y * y);
  }

  lemma CubeOfProduct(t: int, y: int)
    ensures (t * y) * (t * y) * (t * y) == t * t * t * (y * y * y)
  {
    Exchange(t, y, t, y);
    Exchange(t * t, y * y, t, y);
  }

  lemma Exchange(a: int, b: int, c: int, d: int)
    ensures (a * b) * (c * d) == (a * c) * (b * d)
  {
    assert (a * b) * (c * d) == a * (b * (c * d));
    assert b * (c * d) == c * (b * d);
    assert a * (c * (b * d)) == (a * c) * (b * d);
  }

  lemma UnitTimes(p: Modulus, t: int, a: int)
    requires IsPrime(p) && Eq(p, t * t * t, 1) && 0 < a < p
    ensures 0 < Mul(p, t, a) < p
  {
    ModSmall(1, p);
    ModSmall(0, p);
    if t % p == 0 {
      EqMul(p, t * t, t * t, t, 0);
    }
    ModSmall(a, p);
    Curve.NonzeroProduct(p, t, a);
    Reduced(p, t * a);
  }

  /** The linear layer is invertible modulo an odd prime: its determinant is 8. */
  lemma MixInjective(p: Modulus, s: St, t: St)
    requires IsPrime(p) && p > 2 && InSt(p, s) && InSt(p, t) && MixOf(p, s) == MixOf(p, t)
    ensures s == t
  {
    MixIsLinear(p, s);
    MixIsLinear(p, t);
    hide MixOf;
    var a, b, c := s.a - t.a, s.b - t.b, s.c - t.c;
    Difference(p, 3 * s.a + s.b + s.c, 3 * t.a + t.b + t.c);
    Difference(p, s.a - s.b + s.c, t.a - t.b + t.c);
    Difference(p, s.a + s.b - 2 * s.c, t.a + t.b - 2 * t.c);
    LinearKernel(p, a, b, c);
    Equal(p, s.a, t.a);
    Equal(p, s.b, t.b);
    Equal(p, s.c, t.c);
  }

  lemma Difference(p: Modulus, x: int, y: int)
    requires Eq(p, x, y)
    ensures Eq(p, x - y, 0)
  {
    EqAdd(p, x, y, y, y);
  }

  lemma Equal(p: Modulus, x: int, y: int)
    requires In(p, x) && In(p, y) && Eq(p, x - y, 0)
    ensures x == y
  {
    EqAdd(p, x - y, 0, y, y);
    Canonical(p, x, y);
  }

  lemma LinearKernel(p: Modulus, a: int, b: int, c: int)
    requires IsPrime(p) && p > 2
    requires Eq(p, 3 * a + b + c, 0) && Eq(p, a - b + c, 0) && Eq(p, a + b - 2 * c, 0)
    ensures Eq(p, a, 0) && Eq(p, b, 0) && Eq(p, c, 0)
  {
    ModSmall(0, p);
    ModSmall(2, p);
    EqAdd(p, a - b + c, 0, a + b - 2 * c, 0);
    EqAdd(p, 3 * a + b + c, 0, a + b - 2 * c, 0);
    EqAdd(p, 2 * a + 3 * c, 0, 2 * a - c, 0);
    Curve.CancelFactor(p, 2 * c, 0, 2);
    Curve.CancelFactor(p, c, 0, 2);
    EqAdd(p, 2 * a - c, 0, c, 0);
    Curve.CancelFactor(p, a, 0, 2);
    EqAdd(p, a, 0, c, 0);
    EqAdd(p, a + c, 0, a - b + c, 0);
  }

  lemma AddInjective(p: Modulus, s: St, t: St, k: St)
    requires InSt(p, s) && InSt(p, t) && AddSt(p, s, k) == AddSt(p, t, k)
    ensures s == t
  {
    SumCancels(p, s.a, t.a, k.a);
    SumCancels(p, s.b, t.b, k.b);
    SumCancels(p, s.c, t.c, k.c);
  }

  lemma SumCancels(p: Modulus, x: int, y: int, k: int)
    requires In(p, x) && In(p, y) && Add(p, x, k) == Add(p, y, k)
    ensures x == y
  {
    EqAdd(p, x + k, y + k, k, k);
    Canonical(p, x, y);
  }

  lemma CubesAgree(p: Modulus, x: int, y: int)
    requires IsPrime(p) && p % 3 != 1 && In(p, x) && In(p, y) && Cube(p, x) == Cube(p, y)
    ensures x == y
  {
    CubeIs(p, x, x);
    CubeIs(p, y, y);
    CubeInjective(p, x, y);
  }

  lemma RoundInjective(p: Modulus, s: St, t: St, k: St, full: bool)
    requires IsPrime(p) && p > 2 && p % 3 != 1 && InSt(p, s) && InSt(p, t)
    requires PlainRound(p, s, k, full) == PlainRound(p, t, k, full)
    ensures s == t
  {
    hide MixOf, Cube, IsPrime;
    var u, v := AddSt(p, s, k), AddSt(p, t, k);
    CubeIs(p, u.a, u.a); CubeIs(p, u.b, u.b); CubeIs(p, u.c, u.c);
    CubeIs(p, v.a, v.a); CubeIs(p, v.b, v.b); CubeIs(p, v.c, v.c);
    if full {
      MixInjective(p, St(Cube(p, u.a), Cube(p, u.b), Cube(p, u.c)), St(Cube(p, v.a), Cube(p, v.b), Cube(p, v.c)));
      CubesAgree(p, u.a, v.a);
      CubesAgree(p, u.b, v.b);
    } else {
      MixInjective(p, St(u.a, u.b, Cube(p, u.c)), St(v.a, v.b, Cube(p, v.c)));
    }
    CubesAgree(p, u.c, v.c);
    AddInjective(p, s, t, k);
  }

  lemma PlainIn(sh: Shape, rcs: Keys, s: St, n: nat)
    requires n <= Rounds(sh) <= |rcs| && InSt(sh.p, s)
    ensures InSt(sh.p, Plain(sh, rcs, s, n))
  {
  }

  lemma {:induction false} PlainInjective(sh: Shape, rcs: Keys, s: St, t: St, n: nat)
    requires IsPrime(sh.p) && sh.p > 2 && sh.p % 3 != 1 && InSt(sh.p, s) && InSt(sh.p, t)
    requires n <= Rounds(sh) <= |rcs| && Plain(sh, rcs, s, n) == Plain(sh, rcs, t, n)
    ensures s == t
    decreases n
  {
    hide PlainRound, IsPrime;
    if n > 0 {
      PlainIn(sh, rcs, s, n - 1);
      PlainIn(sh, rcs, t, n - 1);
      RoundInjective(sh.p, Plain(sh, rcs, s, n - 1), Plain(sh, rcs, t, n - 1), rcs[n - 1], IsFull(sh, n - 1));
      PlainInjective(sh, rcs, s, t, n - 1);
    }
  }

  /** Two states that the permutation on the generated table takes to the same state are the same, for
      every odd prime that is not 1 modulo 3, whatever the keys and round counts. */
  lemma PermutationInjective(sh: Shape, rcs: Keys, s: St, t: St)
    requires IsPrime(sh.p) && sh.p > 2 && sh.p % 3 != 1 && InSt(sh.p, s) && InSt(sh.p, t)
    requires sh.half >= 1 && Rounds(sh) <= |rcs|
    ensures Used(sh, Rounds(sh)) <= |Compressed(sh, rcs)|
    ensures Comp(sh, Compressed(sh, rcs), s, Rounds(sh)) == Comp(sh, Compressed(sh, rcs), t, Rounds(sh)) <==> s == t
  {
    hide Comp, Compressed, Plain, Used, IsPrime;
    CompressionPreservesPermutation(sh, rcs, s);
    CompressionPreservesPermutation(sh, rcs, t);
    if PlainPermute(sh, rcs, s) == PlainPermute(sh, rcs, t) {
      PlainInjective(sh, rcs, s, t, Rounds(sh));
    }
  }
}
