/**
 The Poseidon permutation on the compressed round keys the code generator emits, against the plain
 permutation that adds a full key in every round; and the sponge built on it.
*/
module Poseidon {
  import opened Options
  import opened Arith
  import opened Field

  datatype St = St(a: int, b: int, c: int)

  /** Modulus, half the number of full rounds, number of partial rounds. */
  datatype Shape = Shape(p: Modulus, half: nat, partial: nat)

  predicate InSt(p: Modulus, s: St) { In(p, s.a) && In(p, s.b) && In(p, s.c) }

  function AddSt(p: Modulus, s: St, k: St): (r: St)
    ensures InSt(p, r)
  {
    Reduced(p, s.a + k.a); Reduced(p, s.b + k.b); Reduced(p, s.c + k.c);
    St(Add(p, s.a, k.a), Add(p, s.b, k.b), Add(p, s.c, k.c))
  }

  function Cube(p: Modulus, x: int): int { Mul(p, Mul(p, x, x), x) }

  /** What the linear layer computes; its last row is (1, 1, -2). */
  function MixOf(p: Modulus, s: St): (r: St)
    ensures InSt(p, r)
  {
    var t := Add(p, Add(p, s.a, s.b), s.c);
    Reduced(p, t + Mul(p, 2, s.a)); Reduced(p, t - Mul(p, 2, s.b)); Reduced(p, t - Mul(p, 3, s.c));
    St(Add(p, t, Mul(p, 2, s.a)), Sub(p, t, Mul(p, 2, s.b)), Sub(p, t, Mul(p, 3, s.c)))
  }

  // ----- the plain permutation ----------------------------------------------------------------------

  type Keys = seq<St>

  function PlainRound(p: Modulus, s: St, key: St, full: bool): St {
    var k := AddSt(p, s, key);
    MixOf(p, if full then St(Cube(p, k.a), Cube(p, k.b), Cube(p, k.c)) else St(k.a, k.b, Cube(p, k.c)))
  }

  predicate IsFull(sh: Shape, round: nat) { round < sh.half || round >= sh.half + sh.partial }

  function Rounds(sh: Shape): nat { sh.half + sh.partial + sh.half }

  /** The state after `n` rounds with all the uncompressed keys. */
  function Plain(sh: Shape, rcs: Keys, s: St, n: nat): St
    requires n <= Rounds(sh) <= |rcs|
  {
    if n == 0 then s else PlainRound(sh.p, Plain(sh, rcs, s, n - 1), rcs[n - 1], IsFull(sh, n - 1))
  }

  function PlainPermute(sh: Shape, rcs: Keys, s: St): St
    requires Rounds(sh) <= |rcs|
  {
    Plain(sh, rcs, s, Rounds(sh))
  }

  // ----- the compressed table -------------------------------------------------------------------------

  function Flatten(keys: Keys): (r: seq<int>)
    ensures |r| == 3 * |keys|
    ensures forall i :: 0 <= i < |keys| ==>
      r[3 * i] == keys[i].a && r[3 * i + 1] == keys[i].b && r[3 * i + 2] == keys[i].c
  {
    if keys == [] then []
    else Flatten(keys[..|keys| - 1]) + [keys[|keys| - 1].a, keys[|keys| - 1].b, keys[|keys| - 1].c]
  }

  /** The key not yet added after `i` partial rounds, pushed through the linear layers. */
  function Carried(sh: Shape, rcs: Keys, i: nat): St
    requires i <= sh.partial && sh.half + sh.partial <= |rcs|
  {
    if i == 0 then St(0, 0, 0)
    else MixOf(sh.p, AddSt(sh.p, Carried(sh, rcs, i - 1), rcs[sh.half + i - 1]).(c := 0))
  }

  /** What is still owed when round `half + i` adds its key. */
  function Owed(sh: Shape, rcs: Keys, i: nat): (k: St)
    requires i <= sh.partial && sh.half + sh.partial < |rcs|
    ensures InSt(sh.p, k)
  {
    AddSt(sh.p, Carried(sh, rcs, i), rcs[sh.half + i])
  }

  function PartialKeys(sh: Shape, rcs: Keys, n: nat): (r: seq<int>)
    requires n <= sh.partial && sh.half + sh.partial < |rcs|
    ensures |r| == n && forall i :: 0 <= i < n ==> r[i] == Owed(sh, rcs, i).c
  {
    if n == 0 then [] else PartialKeys(sh, rcs, n - 1) + [Owed(sh, rcs, n - 1).c]
  }

  /** The table: the first full keys, one number a partial round, the first of the last full keys
      with everything still owed, and the remaining full keys. */
  function Compressed(sh: Shape, rcs: Keys): seq<int>
    requires sh.half >= 1 && Rounds(sh) <= |rcs|
  {
    var last := Owed(sh, rcs, sh.partial);
    Flatten(rcs[..sh.half]) + (PartialKeys(sh, rcs, sh.partial) + [last.a, last.b, last.c])
      + Flatten(rcs[sh.half + sh.partial + 1..])
  }

  method CompressRoundkeysPartial(sh: Shape, rcs: Keys) returns (result: seq<int>)
    requires sh.half + sh.partial < |rcs|
    ensures result == PartialKeys(sh, rcs, sh.partial) +
      [Owed(sh, rcs, sh.partial).a, Owed(sh, rcs, sh.partial).b, Owed(sh, rcs, sh.partial).c]
  {
    var p := sh.p;
    result := [];
    var idx := sh.half;
    var state := St(0, 0, 0);
    for i := 0 to sh.partial
      invariant idx == sh.half + i
      invariant state == Carried(sh, rcs, i)
      invariant result == PartialKeys(sh, rcs, i)
    {
      state := St(Add(p, state.a, rcs[idx].a), Add(p, state.b, rcs[idx].b), Add(p, state.c, rcs[idx].c));
      result := result + [state.c];
      state := state.(c := 0);
      var t := Add(p, Add(p, state.a, state.b), state.c);
      state := St(Add(p, t, Mul(p, 2, state.a)), Sub(p, t, Mul(p, 2, state.b)), Sub(p, t, Mul(p, 3, state.c)));
      idx := idx + 1;
    }
    state := St(Add(p, state.a, rcs[idx].a), Add(p, state.b, rcs[idx].b), Add(p, state.c, rcs[idx].c));
    result := result + [state.a, state.b, state.c];
  }

  method CompressRoundkeys(sh: Shape, rcs: Keys) returns (result: seq<int>)
    requires sh.half >= 1 && Rounds(sh) <= |rcs|
    ensures result == Compressed(sh, rcs)
  {
    result := Flatten(rcs[..sh.half]);
    var partial := CompressRoundkeysPartial(sh, rcs);
    result := result + partial;
    result := result + Flatten(rcs[sh.half + sh.partial + 1..]);
  }

  // ----- the rounds, cell by cell ------------------------------------------------------------------------

  /** t follows s in a full round with key k: all three sums are cubed. */
  predicate FullRound(p: Modulus, s: St, k: St, t: St) {
    var x, y, w := s.a + k.a, s.b + k.b, s.c + k.c;
    && t.a == (3 * (x * x * x) + y * y * y + w * w * w) % p
    && t.b == (x * x * x - y * y * y + w * w * w) % p
    && t.c == (x * x * x + y * y * y - 2 * (w * w * w)) % p
  }

  /** t follows s in a partial round with key k: only the last sum is cubed. */
  predicate PartialRound(p: Modulus, s: St, k: St, t: St) {
    var x, y, w := s.a + k.a, s.b + k.b, s.c + k.c;
    && t.a == (3 * x + y + w * w * w) % p
    && t.b == (x - y + w * w * w) % p
    && t.c == (x + y - 2 * (w * w * w)) % p
  }

  lemma CubeIs(p: Modulus, x: int, y: int)
    requires Eq(p, x, y)
    ensures Eq(p, Cube(p, x), y * y * y) && In(p, Cube(p, x))
  {
    AddReduces(p, x, x);
    EqMul(p, x, y, x, y);
    EqMul(p, Mul(p, x, x), y * y, x, y);
    Reduced(p, Mul(p, x, x) * x);
  }

  lemma MixCongruent(p: Modulus, s: St, t: St)
    requires Eq(p, s.a, t.a) && Eq(p, s.b, t.b) && Eq(p, s.c, t.c)
    ensures MixOf(p, s).a == (3 * t.a + t.b + t.c) % p
    ensures MixOf(p, s).b == (t.a - t.b + t.c) % p
    ensures MixOf(p, s).c == (t.a + t.b - 2 * t.c) % p
  {
    MixIsLinear(p, s);
    EqScale(p, 3, s.a, t.a);
    EqScale(p, 2, s.c, t.c);
    EqAdd(p, 3 * s.a, 3 * t.a, s.b, t.b);
    EqAdd(p, 3 * s.a + s.b, 3 * t.a + t.b, s.c, t.c);
    EqAdd(p, s.a, t.a, s.b, t.b);
    EqAdd(p, s.a - s.b, t.a - t.b, s.c, t.c);
    EqAdd(p, s.a + s.b, t.a + t.b, 2 * s.c, 2 * t.c);
  }

  /** The rounds of the plain permutation are these. */
  lemma RoundIs(p: Modulus, s: St, k: St)
    ensures FullRound(p, s, k, PlainRound(p, s, k, true))
    ensures PartialRound(p, s, k, PlainRound(p, s, k, false))
  {
    var x, y, w := s.a + k.a, s.b + k.b, s.c + k.c;
    var a := AddSt(p, s, k);
    Reduced(p, x);
    Reduced(p, y);
    Reduced(p, w);
    CubeIs(p, a.a, x);
    CubeIs(p, a.b, y);
    CubeIs(p, a.c, w);
    hide MixOf, Cube, Eq;
    MixCongruent(p, St(Cube(p, a.a), Cube(p, a.b), Cube(p, a.c)), St(x * x * x, y * y * y, w * w * w));
    MixCongruent(p, St(a.a, a.b, Cube(p, a.c)), St(x, y, w * w * w));
  }

  /** So are those that run: a full round adds three constants, a partial one only the last. */
  lemma CompRoundIs(p: Modulus, s: St, consts: seq<int>, idx: nat, full: bool)
    requires idx + (if full then 3 else 1) <= |consts| && InSt(p, s)
    ensures full ==> FullRound(p, s, Entry(consts, idx), CompRound(p, s, consts, idx, true))
    ensures !full ==> PartialRound(p, s, St(0, 0, consts[idx]), CompRound(p, s, consts, idx, false))
  {
    RoundIs(p, s, if full then Entry(consts, idx) else St(0, 0, consts[idx]));
    AddZero(p, s.a);
    AddZero(p, s.b);
    hide MixOf, Cube, FullRound, PartialRound;
  }

  // ----- the permutation that runs ------------------------------------------------------------------------

  function CompRound(p: Modulus, s: St, consts: seq<int>, idx: nat, full: bool): St
    requires idx + (if full then 3 else 1) <= |consts|
  {
    if full then
      var k := AddSt(p, s, St(consts[idx], consts[idx + 1], consts[idx + 2]));
      MixOf(p, St(Cube(p, k.a), Cube(p, k.b), Cube(p, k.c)))
    else
      MixOf(p, s.(c := Cube(p, Add(p, s.c, consts[idx]))))
  }

  /** Position in the table after `n` rounds. */
  function Used(sh: Shape, n: nat): nat
    requires n <= Rounds(sh)
  {
    if n <= sh.half then 3 * n
    else if n <= sh.half + sh.partial then 3 * sh.half + (n - sh.half)
    else 3 * sh.half + sh.partial + 3 * (n - sh.half - sh.partial)
  }

  function Comp(sh: Shape, consts: seq<int>, s: St, n: nat): St
    requires n <= Rounds(sh) && Used(sh, Rounds(sh)) <= |consts|
  {
    if n == 0 then s
    else CompRound(sh.p, Comp(sh, consts, s, n - 1), consts, Used(sh, n - 1), IsFull(sh, n - 1))
  }

  ghost function View(state: array<int>): St
    requires state.Length == 3
    reads state
  {
    St(state[0], state[1], state[2])
  }

  method Mix(p: Modulus, state: array<int>)
    requires state.Length == 3
    modifies state
    ensures View(state) == MixOf(p, old(View(state)))
  {
    var t := Add(p, Add(p, state[0], state[1]), state[2]);
    state[0] := Add(p, t, Mul(p, 2, state[0]));
    state[1] := Sub(p, t, Mul(p, 2, state[1]));
    state[2] := Sub(p, t, Mul(p, 3, state[2]));
  }

  method RoundComp(p: Modulus, state: array<int>, consts: seq<int>, idx: nat, full: bool)
    requires state.Length == 3 && idx + (if full then 3 else 1) <= |consts|
    modifies state
    ensures View(state) == CompRound(p, old(View(state)), consts, idx, full)
    ensures InSt(p, old(View(state))) && full ==> FullRound(p, old(View(state)), Entry(consts, idx), View(state))
    ensures InSt(p, old(View(state))) && !full ==>
      PartialRound(p, old(View(state)), St(0, 0, consts[idx]), View(state))
  {
    if InSt(p, View(state)) { CompRoundIs(p, View(state), consts, idx, full); }
    hide FullRound, PartialRound;
    if full {
      state[0] := Add(p, state[0], consts[idx]);
      state[1] := Add(p, state[1], consts[idx + 1]);
      state[2] := Add(p, state[2], consts[idx + 2]);
      state[0] := Mul(p, Mul(p, state[0], state[0]), state[0]);
      state[1] := Mul(p, Mul(p, state[1], state[1]), state[1]);
      state[2] := Mul(p, Mul(p, state[2], state[2]), state[2]);
    } else {
      state[2] := Add(p, state[2], consts[idx]);
      state[2] := Mul(p, Mul(p, state[2], state[2]), state[2]);
    }
    Mix(p, state);
  }

  /** The round counter and the table index move together and stay in range. */
  lemma NextRound(sh: Shape, consts: seq<int>, s: St, n: nat)
    requires n < Rounds(sh) && Used(sh, Rounds(sh)) <= |consts|
    ensures Used(sh, n + 1) == Used(sh, n) + (if IsFull(sh, n) then 3 else 1) <= |consts|
    ensures Comp(sh, consts, s, n + 1) == CompRound(sh.p, Comp(sh, consts, s, n), consts, Used(sh, n), IsFull(sh, n))
  {
  }

  method PoseidonPermuteComp(sh: Shape, consts: seq<int>, state: array<int>)
    requires state.Length == 3 && Used(sh, Rounds(sh)) <= |consts|
    modifies state
    ensures View(state) == Comp(sh, consts, old(View(state)), Rounds(sh))
  {
    hide CompRound;
    ghost var start := View(state);
    var idx := 0;
    for i := 0 to sh.half
      invariant idx == Used(sh, i) && View(state) == Comp(sh, consts, start, i)
    {
      NextRound(sh, consts, start, i);
      RoundComp(sh.p, state, consts, idx, true);
      idx := idx + 3;
    }
    for i := 0 to sh.partial
      invariant idx == Used(sh, sh.half + i) && View(state) == Comp(sh, consts, start, sh.half + i)
    {
      NextRound(sh, consts, start, sh.half + i);
      RoundComp(sh.p, state, consts, idx, false);
      idx := idx + 1;
    }
    for i := 0 to sh.half
      invariant idx == Used(sh, sh.half + sh.partial + i)
      invariant View(state) == Comp(sh, consts, start, sh.half + sh.partial + i)
    {
      NextRound(sh, consts, start, sh.half + sh.partial + i);
      RoundComp(sh.p, state, consts, idx, true);
      idx := idx + 3;
    }
  }

  // ----- the refinement -------------------------------------------------------------------------------------

  lemma AddReduces(p: Modulus, x: int, y: int)
    ensures Eq(p, Add(p, x, y), x + y) && Eq(p, Sub(p, x, y), x - y) && Eq(p, Mul(p, x, y), x * y)
  {
    Reduced(p, x + y);
    Reduced(p, x - y);
    Reduced(p, x * y);
  }

  /** Each output of the linear layer is an integer combination of its inputs, reduced once. */
  lemma MixIsLinear(p: Modulus, s: St)
    ensures MixOf(p, s).a == (3 * s.a + s.b + s.c) % p
    ensures MixOf(p, s).b == (s.a - s.b + s.c) % p
    ensures MixOf(p, s).c == (s.a + s.b - 2 * s.c) % p
  {
    var ab := Add(p, s.a, s.b);
    var t := Add(p, ab, s.c);
    AddReduces(p, s.a, s.b);
    AddReduces(p, ab, s.c);
    EqAdd(p, ab, s.a + s.b, s.c, s.c);
    AddReduces(p, 2, s.a);
    AddReduces(p, 2, s.b);
    AddReduces(p, 3, s.c);
    EqAdd(p, t, s.a + s.b + s.c, Mul(p, 2, s.a), 2 * s.a);
    EqAdd(p, t, s.a + s.b + s.c, Mul(p, 2, s.b), 2 * s.b);
    EqAdd(p, t, s.a + s.b + s.c, Mul(p, 3, s.c), 3 * s.c);
  }

  lemma EqScale(p: Modulus, k: int, x: int, y: int)
    requires Eq(p, x, y)
    ensures Eq(p, k * x, k * y)
  {
    EqMul(p, k, k, x, y);
  }

  /** The linear layer commutes with adding keys. */
  lemma MixAdds(p: Modulus, s: St, k: St)
    ensures MixOf(p, AddSt(p, s, k)) == AddSt(p, MixOf(p, s), MixOf(p, k))
  {
    var t := AddSt(p, s, k);
    MixIsLinear(p, s); MixIsLinear(p, k); MixIsLinear(p, t);
    AddReduces(p, s.a, k.a); AddReduces(p, s.b, k.b); AddReduces(p, s.c, k.c);
    LinearAdds(p, 3, 1, 1, s, k, t);
    LinearAdds(p, 1, -1, 1, s, k, t);
    LinearAdds(p, 1, 1, -2, s, k, t);
  }

  lemma LinearAdds(p: Modulus, i: int, j: int, l: int, s: St, k: St, t: St)
    requires Eq(p, t.a, s.a + k.a) && Eq(p, t.b, s.b + k.b) && Eq(p, t.c, s.c + k.c)
    ensures (i * t.a + j * t.b + l * t.c) % p ==
      Add(p, (i * s.a + j * s.b + l * s.c) % p, (i * k.a + j * k.b + l * k.c) % p)
  {
    var f, g := i * s.a + j * s.b + l * s.c, i * k.a + j * k.b + l * k.c;
    EqScale(p, i, t.a, s.a + k.a);
    EqScale(p, j, t.b, s.b + k.b);
    EqScale(p, l, t.c, s.c + k.c);
    EqAdd(p, i * t.a, i * (s.a + k.a), j * t.b, j * (s.b + k.b));
    EqAdd(p, i * t.a + j * t.b, i * (s.a + k.a) + j * (s.b + k.b), l * t.c, l * (s.c + k.c));
    Distribute(i, s.a, k.a); Distribute(j, s.b, k.b); Distribute(l, s.c, k.c);
    Reduced(p, f); Reduced(p, g);
    EqAdd(p, f % p, f, g % p, g);
  }

  lemma Distribute(i: int, x: int, y: int)
    ensures i * (x + y) == i * x + i * y
  {
  }

  lemma AddAssoc(p: Modulus, x: int, y: int, z: int)
    ensures Add(p, Add(p, x, y), z) == Add(p, x, Add(p, y, z))
  {
    Reduced(p, x + y);
    Reduced(p, y + z);
    EqAdd(p, (x + y) % p, x + y, z, z);
    EqAdd(p, x, x, (y + z) % p, y + z);
  }

  lemma AddZero(p: Modulus, x: int)
    requires In(p, x)
    ensures Add(p, x, 0) == x
  {
    ModSmall(x, p);
  }

  /** One partial round: the plain state is the running state plus what is owed, before and after. */
  lemma PartialRoundStep(sh: Shape, rcs: Keys, consts: seq<int>, idx: nat, comp: St, i: nat)
    requires i < sh.partial && sh.half + sh.partial < |rcs|
    requires idx < |consts| && consts[idx] == Owed(sh, rcs, i).c
    ensures PlainRound(sh.p, AddSt(sh.p, comp, Carried(sh, rcs, i)), rcs[sh.half + i], false)
         == AddSt(sh.p, CompRound(sh.p, comp, consts, idx, false), Carried(sh, rcs, i + 1))
  {
    var p, off, key, owed := sh.p, Carried(sh, rcs, i), rcs[sh.half + i], Owed(sh, rcs, i);
    AddAssoc(p, comp.a, off.a, key.a);
    AddAssoc(p, comp.b, off.b, key.b);
    AddAssoc(p, comp.c, off.c, key.c);
    var cubed := Cube(p, Add(p, comp.c, owed.c));
    Reduced(p, Mul(p, Add(p, comp.c, owed.c), Add(p, comp.c, owed.c)) * Add(p, comp.c, owed.c));
    AddZero(p, cubed);
    assert AddSt(p, comp.(c := cubed), owed.(c := 0)) == St(Add(p, comp.a, owed.a), Add(p, comp.b, owed.b), cubed);
    MixAdds(p, comp.(c := cubed), owed.(c := 0));
  }

  function Entry(t: seq<int>, b: nat): St
    requires b + 3 <= |t|
  {
    St(t[b], t[b + 1], t[b + 2])
  }

  lemma TableLength(sh: Shape, rcs: Keys)
    requires sh.half >= 1 && Rounds(sh) <= |rcs|
    ensures |Compressed(sh, rcs)| == 3 * sh.half + sh.partial + 3 + 3 * (|rcs| - sh.half - sh.partial - 1)
    ensures |Compressed(sh, rcs)| >= Used(sh, Rounds(sh)) == 3 * sh.half + sh.partial + 3 * sh.half
  {
  }

  lemma FirstKeys(sh: Shape, rcs: Keys, i: nat)
    requires sh.half >= 1 && Rounds(sh) <= |rcs| && i < sh.half && 3 * i + 3 <= |Compressed(sh, rcs)|
    ensures Entry(Compressed(sh, rcs), 3 * i) == rcs[i]
  {
    var first := Flatten(rcs[..sh.half]);
    assert forall k :: 0 <= k < |first| ==> Compressed(sh, rcs)[k] == first[k];
  }

  lemma MiddleKeys(sh: Shape, rcs: Keys, i: nat)
    requires sh.half >= 1 && Rounds(sh) <= |rcs| && i < sh.partial && 3 * sh.half + i < |Compressed(sh, rcs)|
    ensures Compressed(sh, rcs)[3 * sh.half + i] == Owed(sh, rcs, i).c
  {
    assert Compressed(sh, rcs)[3 * sh.half + i] == PartialKeys(sh, rcs, sh.partial)[i];
  }

  lemma JoiningKey(sh: Shape, rcs: Keys)
    requires sh.half >= 1 && Rounds(sh) <= |rcs| && 3 * sh.half + sh.partial + 3 <= |Compressed(sh, rcs)|
    ensures Entry(Compressed(sh, rcs), 3 * sh.half + sh.partial) == Owed(sh, rcs, sh.partial)
  {
  }

  lemma LastKeys(sh: Shape, rcs: Keys, i: nat)
    requires sh.half >= 1 && Rounds(sh) <= |rcs| && 1 <= i < sh.half
    requires 3 * sh.half + sh.partial + 3 * i + 3 <= |Compressed(sh, rcs)|
    ensures Entry(Compressed(sh, rcs), 3 * sh.half + sh.partial + 3 * i) == rcs[sh.half + sh.partial + i]
  {
    var rest := rcs[sh.half + sh.partial + 1..];
    var m := 3 * sh.half + sh.partial + 3;
    assert Compressed(sh, rcs)[m..] == Flatten(rest);
    assert Entry(Compressed(sh, rcs), m + 3 * (i - 1)) == Entry(Flatten(rest), 3 * (i - 1)) == rest[i - 1];
  }

  /** How the plain state follows from the running one after `n` rounds. */
  function Owing(sh: Shape, rcs: Keys, comp: St, n: nat): St
    requires n <= Rounds(sh) <= |rcs|
  {
    if sh.half <= n <= sh.half + sh.partial then AddSt(sh.p, comp, Carried(sh, rcs, n - sh.half)) else comp
  }

  lemma FullRoundStep(p: Modulus, comp: St, off: St, key: St, t: seq<int>, idx: nat)
    requires idx + 3 <= |t| && Entry(t, idx) == AddSt(p, off, key)
    ensures PlainRound(p, AddSt(p, comp, off), key, true) == CompRound(p, comp, t, idx, true)
  {
    AddAssoc(p, comp.a, off.a, key.a);
    AddAssoc(p, comp.b, off.b, key.b);
    AddAssoc(p, comp.c, off.c, key.c);
  }

  lemma NothingCarried(p: Modulus, s: St)
    requires InSt(p, s)
    ensures AddSt(p, s, St(0, 0, 0)) == s
  {
    AddZero(p, s.a); AddZero(p, s.b); AddZero(p, s.c);
  }

  /** One round of either permutation, from states related by what is owed: the rounds before ... */
  lemma EarlyRoundStep(sh: Shape, rcs: Keys, comp: St, n: nat)
    requires 1 <= sh.half && n < sh.half && Rounds(sh) <= |rcs|
    requires Used(sh, n) + (if IsFull(sh, n) then 3 else 1) <= |Compressed(sh, rcs)|
    ensures PlainRound(sh.p, Owing(sh, rcs, comp, n), rcs[n], IsFull(sh, n))
         == Owing(sh, rcs, CompRound(sh.p, comp, Compressed(sh, rcs), Used(sh, n), IsFull(sh, n)), n + 1)
  {
    hide Compressed, PlainRound, CompRound;
    var t := Compressed(sh, rcs);
    FirstKeys(sh, rcs, n);
    SameFullRound(sh.p, comp, t, 3 * n);
    CompRoundIn(sh.p, comp, t, 3 * n, true);
    NothingCarried(sh.p, CompRound(sh.p, comp, t, 3 * n, true));
  }

  /** ... among ... */
  lemma MiddleRoundStep(sh: Shape, rcs: Keys, comp: St, n: nat)
    requires 1 <= sh.half <= n < sh.half + sh.partial && Rounds(sh) <= |rcs|
    requires Used(sh, n) + (if IsFull(sh, n) then 3 else 1) <= |Compressed(sh, rcs)|
    ensures PlainRound(sh.p, Owing(sh, rcs, comp, n), rcs[n], IsFull(sh, n))
         == Owing(sh, rcs, CompRound(sh.p, comp, Compressed(sh, rcs), Used(sh, n), IsFull(sh, n)), n + 1)
  {
    hide Compressed, PlainRound, CompRound;
    MiddleKeys(sh, rcs, n - sh.half);
    PartialRoundStep(sh, rcs, Compressed(sh, rcs), 3 * sh.half + (n - sh.half), comp, n - sh.half);
  }

  /** ... and after the partial ones. */
  lemma LateRoundStep(sh: Shape, rcs: Keys, comp: St, n: nat)
    requires 1 <= sh.half && sh.half + sh.partial <= n < Rounds(sh) <= |rcs|
    requires Used(sh, n) + (if IsFull(sh, n) then 3 else 1) <= |Compressed(sh, rcs)|
    ensures PlainRound(sh.p, Owing(sh, rcs, comp, n), rcs[n], IsFull(sh, n))
         == Owing(sh, rcs, CompRound(sh.p, comp, Compressed(sh, rcs), Used(sh, n), IsFull(sh, n)), n + 1)
  {
    hide Compressed, PlainRound, CompRound;
    var t, h, r := Compressed(sh, rcs), sh.half, sh.partial;
    if n == h + r {
      JoiningKey(sh, rcs);
      FullRoundStep(sh.p, comp, Carried(sh, rcs, r), rcs[n], t, 3 * h + r);
    } else {
      LastKeys(sh, rcs, n - h - r);
      SameFullRound(sh.p, comp, t, 3 * h + r + 3 * (n - h - r));
    }
  }

  lemma SameFullRound(p: Modulus, s: St, t: seq<int>, idx: nat)
    requires idx + 3 <= |t|
    ensures PlainRound(p, s, Entry(t, idx), true) == CompRound(p, s, t, idx, true)
  {
  }

  lemma CompRoundIn(p: Modulus, s: St, t: seq<int>, idx: nat, full: bool)
    requires idx + (if full then 3 else 1) <= |t|
    ensures InSt(p, CompRound(p, s, t, idx, full))
  {
  }

  lemma AnyRoundStep(sh: Shape, rcs: Keys, comp: St, n: nat)
    requires 1 <= sh.half && n < Rounds(sh) <= |rcs|
    requires Used(sh, n) + (if IsFull(sh, n) then 3 else 1) <= |Compressed(sh, rcs)|
    ensures PlainRound(sh.p, Owing(sh, rcs, comp, n), rcs[n], IsFull(sh, n))
         == Owing(sh, rcs, CompRound(sh.p, comp, Compressed(sh, rcs), Used(sh, n), IsFull(sh, n)), n + 1)
  {
    hide Compressed, Owing, CompRound, PlainRound, Used, IsFull;
    if n < sh.half {
      EarlyRoundStep(sh, rcs, comp, n);
    } else if n < sh.half + sh.partial {
      MiddleRoundStep(sh, rcs, comp, n);
    } else {
      LateRoundStep(sh, rcs, comp, n);
    }
  }

  lemma {:induction false} InStep(sh: Shape, rcs: Keys, s: St, n: nat)
    requires sh.half >= 1 && n <= Rounds(sh) <= |rcs|
    requires Used(sh, Rounds(sh)) <= |Compressed(sh, rcs)|
    ensures Plain(sh, rcs, s, n) == Owing(sh, rcs, Comp(sh, Compressed(sh, rcs), s, n), n)
    decreases n
  {
    hide Compressed, CompRound, PlainRound, Used, IsFull;
    if n > 0 {
      InStep(sh, rcs, s, n - 1);
      hide Owing;
      NextRound(sh, Compressed(sh, rcs), s, n - 1);
      AnyRoundStep(sh, rcs, Comp(sh, Compressed(sh, rcs), s, n - 1), n - 1);
    }
  }

  /** For every state, round counts and key table, the permutation run on the compressed table is
      the plain permutation with all the keys, and no constant is read out of range. */
  lemma CompressionPreservesPermutation(sh: Shape, rcs: Keys, s: St)
    requires sh.half >= 1 && Rounds(sh) <= |rcs|
    ensures Used(sh, Rounds(sh)) <= |Compressed(sh, rcs)|
    ensures Comp(sh, Compressed(sh, rcs), s, Rounds(sh)) == PlainPermute(sh, rcs, s)
  {
    TableLength(sh, rcs);
    InStep(sh, rcs, s, Rounds(sh));
  }

  // ----- the sponge ---------------------------------------------------------------------------------------

  /** Absorbing one pair of field elements. */
  function AbsorbPair(sh: Shape, consts: seq<int>, s: St, x: int, y: int): St
    requires Used(sh, Rounds(sh)) <= |consts|
  {
    Comp(sh, consts, St(Add(sh.p, s.a, x), Add(sh.p, s.b, y), s.c), Rounds(sh))
  }

  /** The state after all complete pairs of `msgs`. */
  function Absorb(sh: Shape, consts: seq<int>, msgs: seq<int>): St
    requires Used(sh, Rounds(sh)) <= |consts|
    decreases |msgs|
  {
    if |msgs| == 0 then St(0, 0, 0)
    else if |msgs| % 2 == 1 then Absorb(sh, consts, msgs[..|msgs| - 1])
    else AbsorbPair(sh, consts, Absorb(sh, consts, msgs[..|msgs| - 2]), msgs[|msgs| - 2], msgs[|msgs| - 1])
  }

  lemma {:induction false} AbsorbOdd(sh: Shape, consts: seq<int>, msgs: seq<int>)
    requires Used(sh, Rounds(sh)) <= |consts| && |msgs| % 2 == 1
    ensures Absorb(sh, consts, msgs) == Absorb(sh, consts, msgs[..|msgs| - 1])
  {
  }

  lemma {:induction false} AbsorbEven(sh: Shape, consts: seq<int>, msgs: seq<int>)
    requires Used(sh, Rounds(sh)) <= |consts| && |msgs| % 2 == 0 && |msgs| > 0
    ensures Absorb(sh, consts, msgs) ==
      AbsorbPair(sh, consts, Absorb(sh, consts, msgs[..|msgs| - 2]), msgs[|msgs| - 2], msgs[|msgs| - 1])
  {
    hide AbsorbPair;
  }

  /** Absorbing one more element: it waits for its partner, or completes a pair. */
  lemma {:induction false} AbsorbOne(sh: Shape, consts: seq<int>, msgs: seq<int>, x: int)
    requires Used(sh, Rounds(sh)) <= |consts|
    ensures Absorb(sh, consts, msgs + [x]) ==
      if |msgs| % 2 == 0 then Absorb(sh, consts, msgs)
      else AbsorbPair(sh, consts, Absorb(sh, consts, msgs), msgs[|msgs| - 1], x)
  {
    hide AbsorbPair, Used, Absorb;
    var n, more := |msgs|, msgs + [x];
    if n % 2 == 0 {
      AbsorbOdd(sh, consts, more);
      assert more[..n] == msgs;
    } else {
      AbsorbEven(sh, consts, more);
      AbsorbOdd(sh, consts, msgs);
      assert more[..n - 1] == msgs[..n - 1];
    }
  }

  /** The list padded with a one, and with a zero if needed to make the length even. */
  function Padded(msgs: seq<int>): seq<int> {
    if |msgs| % 2 == 1 then msgs + [1] else msgs + [1, 0]
  }

  /** The hash of a list: absorb the padded list and read the first cell. */
  function HashMany(sh: Shape, consts: seq<int>, msgs: seq<int>): int
    requires Used(sh, Rounds(sh)) <= |consts|
  {
    Absorb(sh, consts, Padded(msgs)).a
  }

  lemma AbsorbedIn(sh: Shape, consts: seq<int>, msgs: seq<int>)
    requires Used(sh, Rounds(sh)) <= |consts| && sh.half >= 1
    ensures InSt(sh.p, Absorb(sh, consts, msgs))
    decreases |msgs|
  {
    if |msgs| > 0 && |msgs| % 2 == 1 {
      AbsorbedIn(sh, consts, msgs[..|msgs| - 1]);
    } else if |msgs| > 0 {
      var s := Absorb(sh, consts, msgs[..|msgs| - 2]);
      CompIn(sh, consts, St(Add(sh.p, s.a, msgs[|msgs| - 2]), Add(sh.p, s.b, msgs[|msgs| - 1]), s.c));
    }
  }

  lemma CompIn(sh: Shape, consts: seq<int>, s: St)
    requires Used(sh, Rounds(sh)) <= |consts| && sh.half >= 1
    ensures InSt(sh.p, Comp(sh, consts, s, Rounds(sh)))
  {
    var n := Rounds(sh) - 1;
    NextRound(sh, consts, s, n);
    CompRoundIn(sh.p, Comp(sh, consts, s, n), consts, Used(sh, n), IsFull(sh, n));
  }

  /** The streaming hasher: a state and at most one element waiting for its partner. */
  class PoseidonHasher {
    const sh: Shape
    const consts: seq<int>
    const state: array<int>
    var buffer: Option<int>
    ghost var absorbed: seq<int>

    ghost predicate Valid()
      reads this, state
    {
      && sh.half >= 1 && Used(sh, Rounds(sh)) <= |consts| && state.Length == 3
      && View(state) == Absorb(sh, consts, absorbed)
      && (buffer.Some? <==> |absorbed| % 2 == 1)
      && (buffer.Some? ==> buffer.value == absorbed[|absorbed| - 1])
    }

    constructor (sh: Shape, consts: seq<int>)
      requires sh.half >= 1 && Used(sh, Rounds(sh)) <= |consts|
      ensures Valid() && fresh(state) && this.sh == sh && this.consts == consts
      ensures absorbed == []
    {
      this.sh, this.consts := sh, consts;
      state := new int[3](_ => 0);
      buffer, absorbed := None, [];
    }

    method Update(msg: int)
      requires Valid()
      modifies this, state
      ensures Valid() && absorbed == old(absorbed) + [msg]
    {
      hide Comp, Used;
      AbsorbOne(sh, consts, absorbed, msg);
      match buffer {
        case Some(previous) =>
          buffer := None;
          state[0] := Add(sh.p, state[0], previous);
          state[1] := Add(sh.p, state[1], msg);
          PoseidonPermuteComp(sh, consts, state);
        case None =>
          buffer := Some(msg);
      }
      absorbed := absorbed + [msg];
    }

    /** Finishing yields the hash of exactly the elements absorbed, in order. */
    method Finalize() returns (hash: int)
      requires Valid()
      modifies this, state
      ensures hash == HashMany(sh, consts, old(absorbed))
    {
      AbsorbedIn(sh, consts, absorbed);
      FinishIs(sh, consts, absorbed);
      match buffer {
        case Some(last) =>
          buffer := None;
          state[0] := Add(sh.p, state[0], last);
          state[1] := Add(sh.p, state[1], 1);
        case None =>
          state[0] := Add(sh.p, state[0], 1);
      }
      PoseidonPermuteComp(sh, consts, state);
      hash := state[0];
    }
  }

  /** The padding both implementations write is the padded list's last pair. */
  lemma {:induction false} FinishIs(sh: Shape, consts: seq<int>, msgs: seq<int>)
    requires Used(sh, Rounds(sh)) <= |consts| && InSt(sh.p, Absorb(sh, consts, msgs))
    ensures var s := Absorb(sh, consts, msgs);
      HashMany(sh, consts, msgs) ==
        (if |msgs| % 2 == 1 then AbsorbPair(sh, consts, s, msgs[|msgs| - 1], 1)
         else Comp(sh, consts, St(Add(sh.p, s.a, 1), s.b, s.c), Rounds(sh))).a
  {
    hide Comp, Used, Absorb;
    AbsorbOne(sh, consts, msgs, 1);
    if |msgs| % 2 == 0 {
      AbsorbOne(sh, consts, msgs + [1], 0);
      assert msgs + [1] + [0] == Padded(msgs);
      AddZero(sh.p, Absorb(sh, consts, msgs).b);
    }
  }

  lemma AbsorbNothing(sh: Shape, consts: seq<int>)
    requires Used(sh, Rounds(sh)) <= |consts|
    ensures Absorb(sh, consts, []) == St(0, 0, 0)
  {
  }

  /** One-shot hashing of a list, pair by pair. */
  method PoseidonHashMany(sh: Shape, consts: seq<int>, msgs: seq<int>) returns (hash: int)
    requires sh.half >= 1 && Used(sh, Rounds(sh)) <= |consts|
    ensures hash == HashMany(sh, consts, msgs)
  {
    hide Comp, Used, Absorb;
    var state := new int[3](_ => 0);
    AbsorbNothing(sh, consts);
    assert msgs[..0] == [];
    for i := 0 to |msgs| / 2
      invariant View(state) == Absorb(sh, consts, msgs[..2 * i])
    {
      AbsorbOne(sh, consts, msgs[..2 * i], msgs[2 * i]);
      AbsorbOne(sh, consts, msgs[..2 * i + 1], msgs[2 * i + 1]);
      assert msgs[..2 * i] + [msgs[2 * i]] == msgs[..2 * i + 1];
      assert msgs[..2 * i + 1] + [msgs[2 * i + 1]] == msgs[..2 * (i + 1)];
      state[0] := Add(sh.p, state[0], msgs[2 * i]);
      state[1] := Add(sh.p, state[1], msgs[2 * i + 1]);
      PoseidonPermuteComp(sh, consts, state);
    }
    AbsorbedIn(sh, consts, msgs);
    FinishIs(sh, consts, msgs);
    var r := |msgs| % 2;
    if r == 1 {
      AbsorbOne(sh, consts, msgs[..|msgs| - 1], msgs[|msgs| - 1]);
      assert msgs[..|msgs| - 1] + [msgs[|msgs| - 1]] == msgs && 2 * (|msgs| / 2) == |msgs| - 1;
      state[0] := Add(sh.p, state[0], msgs[|msgs| - 1]);
    } else {
      assert msgs[..2 * (|msgs| / 2)] == msgs;
    }
    state[r] := Add(sh.p, state[r], 1);
    PoseidonPermuteComp(sh, consts, state);
    hash := state[0];
  }

  /** The same hash computed with the plain permutation: the sponge over all the keys. */
  function PlainAbsorb(sh: Shape, rcs: Keys, msgs: seq<int>): St
    requires Rounds(sh) <= |rcs|
    decreases |msgs|
  {
    if |msgs| == 0 then St(0, 0, 0)
    else if |msgs| % 2 == 1 then PlainAbsorb(sh, rcs, msgs[..|msgs| - 1])
    else
      var s := PlainAbsorb(sh, rcs, msgs[..|msgs| - 2]);
      PlainPermute(sh, rcs, St(Add(sh.p, s.a, msgs[|msgs| - 2]), Add(sh.p, s.b, msgs[|msgs| - 1]), s.c))
  }

  /** Hashing with the generated table is the sponge over the uncompressed keys. */
  lemma {:induction false} HashIsPlainSponge(sh: Shape, rcs: Keys, msgs: seq<int>)
    requires sh.half >= 1 && Rounds(sh) <= |rcs|
    ensures Used(sh, Rounds(sh)) <= |Compressed(sh, rcs)|
    ensures Absorb(sh, Compressed(sh, rcs), msgs) == PlainAbsorb(sh, rcs, msgs)
    decreases |msgs|
  {
    hide Comp, PlainPermute, Compressed;
    TableLength(sh, rcs);
    if |msgs| > 0 && |msgs| % 2 == 1 {
      HashIsPlainSponge(sh, rcs, msgs[..|msgs| - 1]);
    } else if |msgs| > 0 {
      HashIsPlainSponge(sh, rcs, msgs[..|msgs| - 2]);
      var s := PlainAbsorb(sh, rcs, msgs[..|msgs| - 2]);
      CompressionPreservesPermutation(sh, rcs,
        St(Add(sh.p, s.a, msgs[|msgs| - 2]), Add(sh.p, s.b, msgs[|msgs| - 1]), s.c));
    }
  }
}
