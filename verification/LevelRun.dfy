/**
 One level of the parallel batch update, as a machine over its lock regions.

 The dirty children of a level are iterated in some order and split among tasks that run
 concurrently; the code cuts it into chunks of STRIDE positions, and here any split is allowed.
 A task handles its positions one after the other; each position goes through up to four lock
 regions (the tree, the tree, the preimage, and for a left leaf the tree once more), and when all
 are handled the task publishes its results in the shared next-row map under that map's lock. An action is one such
 region, so a sequence of enabled actions is one interleaving.
*/
module LevelRun {
  import opened Merkle

  type Witness = map<Digest, (Digest, Digest)>

  /** What the tasks of one level share and never change. */
  datatype Level = Level(
    h: Hash2,
    first: bool,                  // children are leaves (build_first_row) or inner nodes
    zc: Digest, zp: Digest,       // zero hashes of the child and of the parent level
    hashes: map<nat, Digest>,     // first row: new leaves; later rows: previous child values
    order: seq<nat>,              // the map's iteration order
    task: seq<nat>, tasks: nat)   // which of the `tasks` tasks handles each position

  /** The program counter and the local variables of one loop iteration. */
  datatype Phase =
    | Ready
    | Fetched(left: Digest, right: Digest, prevLeft: Digest, prevRight: Digest)
    | Stored(left: Digest, right: Digest, prevLeft: Digest, prevRight: Digest, prevRes: Digest)
    | Recorded(prevRes: Digest)
    | Done(prevRes: Digest)
    | Skipped

  datatype State = State(
    child: seq<Digest>, parent: seq<Digest>,
    preimage: Witness,
    next: map<nat, Digest>,
    phases: seq<Phase>,
    published: set<nat>)

  datatype Action = Advance(p: nat) | Publish(t: nat)

  ghost predicate ValidLevel(lv: Level) {
    && |lv.task| == |lv.order|
    && (forall p :: 0 <= p < |lv.task| ==> lv.task[p] < lv.tasks)
    && (forall p, q :: 0 <= p < q < |lv.order| ==> lv.order[p] != lv.order[q])
    && (forall p :: 0 <= p < |lv.order| ==> lv.order[p] in lv.hashes)
    && (forall x :: x in lv.hashes ==> x in lv.order)
  }

  function Init(lv: Level, child: seq<Digest>, parent: seq<Digest>, preimage: Witness): State {
    State(child, parent, preimage, map[], seq(|lv.order|, p => Ready), {})
  }

  predicate Finished(ph: Phase) { ph.Done? || ph.Skipped? }

  // ----- the lock regions ------------------------------------------------------------------

  /** First region of an iteration: read both children (and, for a right leaf, write them). */
  function FetchChildren(lv: Level, child: seq<Digest>, idx: nat): (r: (seq<Digest>, Phase))
    requires idx in lv.hashes
  {
    if idx % 2 == 0 then
      if idx + 1 in lv.hashes then
        (child, Skipped)
      else
        var right := Get(child, lv.zc, idx + 1);
        if lv.first then
          (child, Fetched(lv.hashes[idx], right, Get(child, lv.zc, idx), right))
        else
          (child, Fetched(Get(child, lv.zc, idx), right, lv.hashes[idx], right))
    else if lv.first then
      var prevLeft, prevRight := Get(child, lv.zc, idx - 1), Get(child, lv.zc, idx);
      if idx - 1 in lv.hashes then
        (Put(Put(child, lv.zc, idx - 1, lv.hashes[idx - 1]), lv.zc, idx, lv.hashes[idx]),
         Fetched(lv.hashes[idx - 1], lv.hashes[idx], prevLeft, prevRight))
      else
        (Put(child, lv.zc, idx, lv.hashes[idx]),
         Fetched(prevLeft, lv.hashes[idx], prevLeft, prevRight))
    else
      var left := Get(child, lv.zc, idx - 1);
      (child, Fetched(left, Get(child, lv.zc, idx),
                      if idx - 1 in lv.hashes then lv.hashes[idx - 1] else left,
                      lv.hashes[idx]))
  }

  /** The preimage region: keep an older entry of the previous parent, overwrite the new one's. */
  function RecordPair(h: Hash2, pre: Witness, ph: Phase): Witness
    requires ph.Stored?
  {
    var kept := if ph.prevRes in pre then pre else pre[ph.prevRes := (ph.prevLeft, ph.prevRight)];
    kept[h(ph.left, ph.right) := (ph.left, ph.right)]
  }

  function AdvanceStep(lv: Level, s: State, p: nat): State
    requires p < |s.phases| && p < |lv.order| && lv.order[p] in lv.hashes
    requires !Finished(s.phases[p])
  {
    var idx := lv.order[p];
    match s.phases[p]
    case Ready =>
      var (child, ph) := FetchChildren(lv, s.child, idx);
      s.(child := child, phases := s.phases[p := ph])
    case Fetched(l, r, pl, pr) =>
      var prevRes := Get(s.parent, lv.zp, idx / 2);
      s.(parent := Put(s.parent, lv.zp, idx / 2, lv.h(l, r)),
         phases := s.phases[p := Stored(l, r, pl, pr, prevRes)])
    case Stored(_, _, _, _, prevRes) =>
      s.(preimage := RecordPair(lv.h, s.preimage, s.phases[p]),
         phases := s.phases[p := if lv.first && idx % 2 == 0 then Recorded(prevRes) else Done(prevRes)])
    case Recorded(prevRes) =>
      s.(child := Put(s.child, lv.zc, idx, lv.hashes[idx]),
         phases := s.phases[p := Done(prevRes)])
  }

  /** Inserting the results of task `t` in the next-row map, in iteration order. */
  function InsertResults(lv: Level, phases: seq<Phase>, next: map<nat, Digest>, t: nat, n: nat): map<nat, Digest>
    requires n <= |phases| && |phases| == |lv.order| == |lv.task|
    decreases n
  {
    if n == 0 then next
    else
      var before := InsertResults(lv, phases, next, t, n - 1);
      if lv.task[n - 1] == t && phases[n - 1].Done? then before[lv.order[n - 1] / 2 := phases[n - 1].prevRes]
      else before
  }

  /** The split the code makes, with STRIDE = 250: task `n` skips `250 * n` positions and takes 250. */
  function StrideSplit(count: nat): (r: seq<nat>)
    ensures |r| == count
  {
    seq(count, p requires 0 <= p < count => p / 250)
  }

  function StrideTasks(count: nat): nat { (count + 249) / 250 }

  /** Its tasks take consecutive runs of at most 250 positions, none of them empty. */
  lemma StrideSplitIs(count: nat, t: nat, p: nat)
    requires p < count
    ensures StrideSplit(count)[p] < StrideTasks(count)
    ensures StrideSplit(count)[p] == t <==> 250 * t <= p < 250 * t + 250
    ensures t < StrideTasks(count) <==> 250 * t < count
  {
  }

  // ----- runs ------------------------------------------------------------------------------

  predicate Enabled(lv: Level, s: State, a: Action) {
    |s.phases| == |lv.order| == |lv.task| &&
    match a
    case Advance(p) =>
      p < |lv.order| && lv.order[p] in lv.hashes && !Finished(s.phases[p]) &&
      forall q :: 0 <= q < p && lv.task[q] == lv.task[p] ==> Finished(s.phases[q])
    case Publish(t) =>
      t < lv.tasks && t !in s.published &&
      forall q :: 0 <= q < |lv.task| && lv.task[q] == t ==> Finished(s.phases[q])
  }

  function Step(lv: Level, s: State, a: Action): State
    requires Enabled(lv, s, a)
  {
    match a
    case Advance(p) => AdvanceStep(lv, s, p)
    case Publish(t) =>
      s.(next := InsertResults(lv, s.phases, s.next, t, |lv.order|), published := s.published + {t})
  }

  /** `acts` is an interleaving: every action is enabled when it is taken. */
  predicate Schedule(lv: Level, s: State, acts: seq<Action>)
    decreases |acts|
  {
    acts == [] || (Enabled(lv, s, acts[0]) && Schedule(lv, Step(lv, s, acts[0]), acts[1..]))
  }

  function Exec(lv: Level, s: State, acts: seq<Action>): State
    requires Schedule(lv, s, acts)
    decreases |acts|
  {
    if acts == [] then s else Exec(lv, Step(lv, s, acts[0]), acts[1..])
  }

  /** All tasks have returned. */
  ghost predicate Complete(lv: Level, s: State) {
    && |s.phases| == |lv.order|
    && (forall p :: 0 <= p < |s.phases| ==> Finished(s.phases[p]))
    && (forall t: nat :: t < lv.tasks ==> t in s.published)
  }

  // ----- what a level is meant to compute -----------------------------------------------------

  function NewChild(lv: Level, child0: seq<Digest>, x: nat): Digest {
    if lv.first && x in lv.hashes then lv.hashes[x] else Get(child0, lv.zc, x)
  }

  function OldChild(lv: Level, child0: seq<Digest>, x: nat): Digest {
    if !lv.first && x in lv.hashes then lv.hashes[x] else Get(child0, lv.zc, x)
  }

  predicate Dirty(hashes: map<nat, Digest>, j: nat) {
    2 * j in hashes || 2 * j + 1 in hashes
  }

  /** The one child that computes its parent: the right one if it is dirty, else the left one. */
  predicate Owner(lv: Level, x: nat) {
    x in lv.hashes && (x % 2 == 0 ==> x + 1 !in lv.hashes)
  }

  function NewParent(lv: Level, child0: seq<Digest>, parent0: seq<Digest>, j: nat): Digest {
    if Dirty(lv.hashes, j) then lv.h(NewChild(lv, child0, 2 * j), NewChild(lv, child0, 2 * j + 1))
    else Get(parent0, lv.zp, j)
  }

  function OldPair(lv: Level, child0: seq<Digest>, j: nat): (Digest, Digest) {
    (OldChild(lv, child0, 2 * j), OldChild(lv, child0, 2 * j + 1))
  }

  function NewPair(lv: Level, child0: seq<Digest>, j: nat): (Digest, Digest) {
    (NewChild(lv, child0, 2 * j), NewChild(lv, child0, 2 * j + 1))
  }

  /** Every entry of the witness hashes to its key. */
  ghost predicate ValidWitness(h: Hash2, pre: Witness) {
    forall k :: k in pre ==> h(pre[k].0, pre[k].1) == k
  }

  /** The rows before the level: each old parent is the hash of its two old children. */
  ghost predicate OldConsistent(lv: Level, child0: seq<Digest>, parent0: seq<Digest>) {
    forall j: nat :: Get(parent0, lv.zp, j) == lv.h(OldPair(lv, child0, j).0, OldPair(lv, child0, j).1)
  }

  /** The vector `row` is `row0` extended just far enough to hold the written positions. */
  ghost predicate Extends(row0: seq<Digest>, row: seq<Digest>, written: iset<nat>) {
    && |row0| <= |row|
    && (|row| == |row0| || |row| - 1 in written)
  }

  ghost predicate Within(written: iset<nat>, n: nat) {
    forall x: nat :: x in written ==> x < n
  }

  /** Everything a completed level guarantees, without mention of order, split or interleaving. */
  ghost predicate LevelResult(lv: Level, child0: seq<Digest>, parent0: seq<Digest>, pre0: Witness, s: State) {
    && (forall x: nat :: Get(s.child, lv.zc, x) == NewChild(lv, child0, x))
    && (forall j: nat :: Get(s.parent, lv.zp, j) == NewParent(lv, child0, parent0, j))
    && Extends(child0, s.child, iset x: nat | lv.first && x in lv.hashes)
    && Extends(parent0, s.parent, iset j: nat | Dirty(lv.hashes, j))
    && (forall x :: lv.first && x in lv.hashes ==> x < |s.child|)
    && (forall j: nat :: Dirty(lv.hashes, j) ==> j < |s.parent|)
    && (forall j: nat :: j in s.next <==> Dirty(lv.hashes, j))
    && (forall j: nat :: j in s.next ==> s.next[j] == Get(parent0, lv.zp, j))
    && ValidWitness(lv.h, s.preimage)
    && pre0.Keys <= s.preimage.Keys
    && (forall j: nat :: EntriesAt(lv, child0, parent0, s.preimage, j))
    && (forall k :: SourcedKey(lv, child0, pre0, s.preimage, k))
  }

  /** A dirty parent's old and new values are both keys of the witness. */
  predicate EntriesAt(lv: Level, child0: seq<Digest>, parent0: seq<Digest>, pre: Witness, j: nat) {
    Dirty(lv.hashes, j) ==> Get(parent0, lv.zp, j) in pre && NewParent(lv, child0, parent0, j) in pre
  }

  ghost predicate SourcedKey(lv: Level, child0: seq<Digest>, pre0: Witness, pre: Witness, k: Digest) {
    k in pre ==> Sourced(lv, child0, pre0, pre[k])
  }

  /** Every recorded pair was already there, or is an old or a new pair of children. */
  ghost predicate Sourced(lv: Level, child0: seq<Digest>, pre0: Witness, v: (Digest, Digest)) {
    || (exists k :: k in pre0 && pre0[k] == v)
    || (exists j: nat :: Dirty(lv.hashes, j) && (v == OldPair(lv, child0, j) || v == NewPair(lv, child0, j)))
  }

  // ----- the invariant -------------------------------------------------------------------------

  /** In a first row, whether the leaves owned by `x` have been written. */
  predicate LeavesWritten(lv: Level, x: nat, ph: Phase) {
    lv.first && (if x % 2 == 0 then ph.Done? else !ph.Ready?)
  }

  predicate ParentWritten(ph: Phase) {
    ph.Stored? || ph.Recorded? || ph.Done?
  }

  /** What the phase of a position says about its own locals. */
  ghost predicate LocalsOk(lv: Level, child0: seq<Digest>, parent0: seq<Digest>, x: nat, ph: Phase) {
    var j := x / 2;
    && (ph.Skipped? <==> !Owner(lv, x) && !ph.Ready?)
    && (ph.Fetched? || ph.Stored? ==>
          (ph.left, ph.right) == NewPair(lv, child0, j) && (ph.prevLeft, ph.prevRight) == OldPair(lv, child0, j))
    && (ParentWritten(ph) ==> ph.prevRes == Get(parent0, lv.zp, j))
    && (ph.Recorded? ==> lv.first && x % 2 == 0)
  }

  /** The children owned by `x` are still old, or are already new. */
  ghost predicate ChildrenOk(lv: Level, child0: seq<Digest>, child: seq<Digest>, x: nat, ph: Phase) {
    Owner(lv, x) && lv.first ==>
      if LeavesWritten(lv, x, ph) then
        && x < |child| && Get(child, lv.zc, x) == lv.hashes[x]
        && (x % 2 == 1 && x - 1 in lv.hashes ==> Get(child, lv.zc, x - 1) == lv.hashes[x - 1])
      else
        && Get(child, lv.zc, x) == Get(child0, lv.zc, x)
        && (x % 2 == 1 ==> Get(child, lv.zc, x - 1) == Get(child0, lv.zc, x - 1))
  }

  ghost predicate ParentOk(lv: Level, child0: seq<Digest>, parent0: seq<Digest>, parent: seq<Digest>, x: nat,
                           ph: Phase) {
    Owner(lv, x) ==>
      if ParentWritten(ph) then
        x / 2 < |parent| && Get(parent, lv.zp, x / 2) == NewParent(lv, child0, parent0, x / 2)
      else
        Get(parent, lv.zp, x / 2) == Get(parent0, lv.zp, x / 2)
  }

  ghost predicate WitnessOk(lv: Level, child0: seq<Digest>, parent0: seq<Digest>, pre: Witness, x: nat, ph: Phase) {
    ph.Recorded? || ph.Done? ==>
      Get(parent0, lv.zp, x / 2) in pre && NewParent(lv, child0, parent0, x / 2) in pre
  }

  ghost predicate PosOk(lv: Level, child0: seq<Digest>, parent0: seq<Digest>, s: State, p: nat)
    requires p < |lv.order| == |s.phases|
  {
    var x, ph := lv.order[p], s.phases[p];
    && LocalsOk(lv, child0, parent0, x, ph)
    && ChildrenOk(lv, child0, s.child, x, ph)
    && ParentOk(lv, child0, parent0, s.parent, x, ph)
    && WitnessOk(lv, child0, parent0, s.preimage, x, ph)
  }

  ghost predicate RowsOk(lv: Level, child0: seq<Digest>, parent0: seq<Digest>, s: State) {
    && (forall x: nat :: (!lv.first || x !in lv.hashes) ==> Get(s.child, lv.zc, x) == Get(child0, lv.zc, x))
    && (forall j: nat :: !Dirty(lv.hashes, j) ==> Get(s.parent, lv.zp, j) == Get(parent0, lv.zp, j))
    && Extends(child0, s.child, iset x: nat | lv.first && x in lv.hashes)
    && Extends(parent0, s.parent, iset j: nat | Dirty(lv.hashes, j))
  }

  ghost predicate PreimageOk(lv: Level, child0: seq<Digest>, pre0: Witness, s: State) {
    && ValidWitness(lv.h, s.preimage)
    && pre0.Keys <= s.preimage.Keys
    && (forall k :: SourcedKey(lv, child0, pre0, s.preimage, k))
  }

  ghost predicate NextOk(lv: Level, parent0: seq<Digest>, s: State)
    requires |lv.order| == |s.phases| == |lv.task|
  {
    && (forall j: nat :: j in s.next ==> Dirty(lv.hashes, j) && s.next[j] == Get(parent0, lv.zp, j))
    && (forall p :: 0 <= p < |lv.order| && Owner(lv, lv.order[p]) && lv.task[p] in s.published ==>
          lv.order[p] / 2 in s.next)
  }

  ghost predicate Inv(lv: Level, child0: seq<Digest>, parent0: seq<Digest>, pre0: Witness, s: State) {
    && |s.phases| == |lv.order| == |lv.task|
    && (forall p :: 0 <= p < |lv.order| ==> PosOk(lv, child0, parent0, s, p))
    && RowsOk(lv, child0, parent0, s)
    && PreimageOk(lv, child0, pre0, s)
    && NextOk(lv, parent0, s)
  }

  lemma InitInv(lv: Level, child0: seq<Digest>, parent0: seq<Digest>, pre0: Witness)
    requires ValidLevel(lv) && ValidWitness(lv.h, pre0)
    ensures Inv(lv, child0, parent0, pre0, Init(lv, child0, parent0, pre0))
  {
    forall k ensures SourcedKey(lv, child0, pre0, pre0, k) {}
  }

  // ----- preservation, one lock region at a time ---------------------------------------------

  /** A level with its starting rows and witness. */
  ghost predicate Start(lv: Level, child0: seq<Digest>, parent0: seq<Digest>, pre0: Witness) {
    ValidLevel(lv) && ValidWitness(lv.h, pre0) && OldConsistent(lv, child0, parent0)
  }

  lemma OwnersDiffer(lv: Level, p: nat, q: nat)
    requires ValidLevel(lv) && p < |lv.order| && q < |lv.order| && p != q
    requires Owner(lv, lv.order[p]) && Owner(lv, lv.order[q])
    ensures lv.order[p] / 2 != lv.order[q] / 2
  {
    var x, y := lv.order[p], lv.order[q];
    assert x != y;
  }

  /** Reading the children of `x` changes only leaves that `x` owns. */
  lemma FetchChanges(lv: Level, child: seq<Digest>, x: nat, y: nat)
    requires x in lv.hashes
    ensures var c := FetchChildren(lv, child, x).0;
      if lv.first && x % 2 == 1 && (y == x || (y == x - 1 && y in lv.hashes)) then Get(c, lv.zc, y) == lv.hashes[y]
      else Get(c, lv.zc, y) == Get(child, lv.zc, y)
    ensures var c := FetchChildren(lv, child, x).0;
      |child| <= |c| && (|c| == |child| || (lv.first && |c| == x + 1)) && (lv.first && x % 2 == 1 ==> x < |c|)
  {
  }

  lemma FetchSelf(lv: Level, child0: seq<Digest>, parent0: seq<Digest>, s: State, p: nat)
    requires ValidLevel(lv) && |s.phases| == |lv.order| && p < |lv.order| && s.phases[p].Ready?
    requires PosOk(lv, child0, parent0, s, p) && RowsOk(lv, child0, parent0, s)
    ensures PosOk(lv, child0, parent0, AdvanceStep(lv, s, p), p)
  {
    var x := lv.order[p];
    FetchChanges(lv, s.child, x, x);
    if x % 2 == 1 {
      FetchChanges(lv, s.child, x, x - 1);
      assert x == 2 * (x / 2) + 1;
    } else {
      assert x == 2 * (x / 2);
      if Owner(lv, x) {
        assert Get(s.child, lv.zc, x + 1) == Get(child0, lv.zc, x + 1);
      }
    }
  }

  lemma FetchOther(lv: Level, child0: seq<Digest>, parent0: seq<Digest>, s: State, p: nat, q: nat)
    requires ValidLevel(lv) && |s.phases| == |lv.order| && p < |lv.order| && s.phases[p].Ready?
    requires q < |lv.order| && q != p && PosOk(lv, child0, parent0, s, q)
    ensures PosOk(lv, child0, parent0, AdvanceStep(lv, s, p), q)
  {
    var x, y := lv.order[p], lv.order[q];
    if Owner(lv, y) {
      if Owner(lv, x) {
        OwnersDiffer(lv, p, q);
      }
      FetchChanges(lv, s.child, x, y);
      if y % 2 == 1 {
        FetchChanges(lv, s.child, x, y - 1);
      }
    }
  }

  lemma FetchRows(lv: Level, child0: seq<Digest>, parent0: seq<Digest>, s: State, p: nat)
    requires ValidLevel(lv) && |s.phases| == |lv.order| && p < |lv.order| && s.phases[p].Ready?
    requires RowsOk(lv, child0, parent0, s)
    ensures RowsOk(lv, child0, parent0, AdvanceStep(lv, s, p))
  {
    var x := lv.order[p];
    forall y: nat | !lv.first || y !in lv.hashes
      ensures Get(FetchChildren(lv, s.child, x).0, lv.zc, y) == Get(child0, lv.zc, y)
    {
      FetchChanges(lv, s.child, x, y);
    }
    FetchChanges(lv, s.child, x, x);
  }

  /** No step but publishing touches the next-row map. */
  lemma NextUnchanged(lv: Level, parent0: seq<Digest>, s: State, s': State)
    requires |s.phases| == |s'.phases| == |lv.order| == |lv.task|
    requires s'.next == s.next && s'.published == s.published && NextOk(lv, parent0, s)
    ensures NextOk(lv, parent0, s')
  {
  }

  lemma FetchKeeps(lv: Level, child0: seq<Digest>, parent0: seq<Digest>, pre0: Witness, s: State, p: nat)
    requires Start(lv, child0, parent0, pre0) && Inv(lv, child0, parent0, pre0, s)
    requires p < |lv.order| && s.phases[p].Ready?
    ensures Inv(lv, child0, parent0, pre0, AdvanceStep(lv, s, p))
  {
    var s' := AdvanceStep(lv, s, p);
    forall q | 0 <= q < |lv.order| ensures PosOk(lv, child0, parent0, s', q) {
      assert PosOk(lv, child0, parent0, s, q);
      if q == p {
        FetchSelf(lv, child0, parent0, s, p);
      } else {
        FetchOther(lv, child0, parent0, s, p, q);
      }
    }
    FetchRows(lv, child0, parent0, s, p);
    NextUnchanged(lv, parent0, s, s');
  }

  lemma StorePos(lv: Level, child0: seq<Digest>, parent0: seq<Digest>, s: State, p: nat, q: nat)
    requires ValidLevel(lv) && |s.phases| == |lv.order| && p < |lv.order| && s.phases[p].Fetched?
    requires q < |lv.order| && PosOk(lv, child0, parent0, s, p) && PosOk(lv, child0, parent0, s, q)
    ensures PosOk(lv, child0, parent0, AdvanceStep(lv, s, p), q)
  {
    if q != p && Owner(lv, lv.order[q]) {
      OwnersDiffer(lv, p, q);
    }
    assert Dirty(lv.hashes, lv.order[p] / 2);
  }

  lemma StoreRows(lv: Level, child0: seq<Digest>, parent0: seq<Digest>, s: State, p: nat)
    requires ValidLevel(lv) && |s.phases| == |lv.order| && p < |lv.order| && s.phases[p].Fetched?
    requires RowsOk(lv, child0, parent0, s)
    ensures RowsOk(lv, child0, parent0, AdvanceStep(lv, s, p))
  {
    assert Dirty(lv.hashes, lv.order[p] / 2);
  }

  lemma StoreKeeps(lv: Level, child0: seq<Digest>, parent0: seq<Digest>, pre0: Witness, s: State, p: nat)
    requires Start(lv, child0, parent0, pre0) && Inv(lv, child0, parent0, pre0, s)
    requires p < |lv.order| && s.phases[p].Fetched?
    ensures Inv(lv, child0, parent0, pre0, AdvanceStep(lv, s, p))
  {
    hide PosOk, RowsOk, NextOk, OldConsistent;
    var s' := AdvanceStep(lv, s, p);
    forall q | 0 <= q < |lv.order| ensures PosOk(lv, child0, parent0, s', q) {
      StorePos(lv, child0, parent0, s, p, q);
    }
    StoreRows(lv, child0, parent0, s, p);
    NextUnchanged(lv, parent0, s, s');
  }

  /** Recording keeps the witness valid, loses no key, and adds only the position's own pairs. */
  lemma RecordPairIs(h: Hash2, pre: Witness, ph: Phase)
    requires ph.Stored? && ph.prevRes == h(ph.prevLeft, ph.prevRight) && ValidWitness(h, pre)
    ensures var pre' := RecordPair(h, pre, ph);
      && ValidWitness(h, pre') && pre.Keys <= pre'.Keys
      && ph.prevRes in pre' && h(ph.left, ph.right) in pre'
      && (forall k :: k in pre' ==>
            pre'[k] == (ph.left, ph.right) || pre'[k] == (ph.prevLeft, ph.prevRight) || (k in pre && pre'[k] == pre[k]))
  {
  }

  lemma RecordPos(lv: Level, child0: seq<Digest>, parent0: seq<Digest>, s: State, p: nat, q: nat)
    requires ValidLevel(lv) && |s.phases| == |lv.order| && p < |lv.order| && s.phases[p].Stored?
    requires q < |lv.order| && PosOk(lv, child0, parent0, s, p) && PosOk(lv, child0, parent0, s, q)
    requires s.preimage.Keys <= RecordPair(lv.h, s.preimage, s.phases[p]).Keys
    requires s.phases[p].prevRes in RecordPair(lv.h, s.preimage, s.phases[p])
    ensures PosOk(lv, child0, parent0, AdvanceStep(lv, s, p), q)
  {
    assert Dirty(lv.hashes, lv.order[p] / 2);
  }

  lemma RecordSources(lv: Level, child0: seq<Digest>, parent0: seq<Digest>, pre0: Witness, s: State, p: nat)
    requires ValidLevel(lv) && |s.phases| == |lv.order| && p < |lv.order| && s.phases[p].Stored?
    requires OldConsistent(lv, child0, parent0)
    requires PosOk(lv, child0, parent0, s, p) && PreimageOk(lv, child0, pre0, s)
    ensures PreimageOk(lv, child0, pre0, AdvanceStep(lv, s, p))
    ensures s.preimage.Keys <= RecordPair(lv.h, s.preimage, s.phases[p]).Keys
    ensures s.phases[p].prevRes in RecordPair(lv.h, s.preimage, s.phases[p])
  {
    var ph, j := s.phases[p], lv.order[p] / 2;
    assert Dirty(lv.hashes, j);
    assert ph.prevRes == lv.h(ph.prevLeft, ph.prevRight);
    RecordPairIs(lv.h, s.preimage, ph);
    var pre' := RecordPair(lv.h, s.preimage, ph);
    forall k ensures SourcedKey(lv, child0, pre0, pre', k) {
      assert SourcedKey(lv, child0, pre0, s.preimage, k);
      if k in pre' && (pre'[k] == (ph.left, ph.right) || pre'[k] == (ph.prevLeft, ph.prevRight)) {
        assert pre'[k] == NewPair(lv, child0, j) || pre'[k] == OldPair(lv, child0, j);
      }
    }
  }

  lemma RecordKeeps(lv: Level, child0: seq<Digest>, parent0: seq<Digest>, pre0: Witness, s: State, p: nat)
    requires Start(lv, child0, parent0, pre0) && Inv(lv, child0, parent0, pre0, s)
    requires p < |lv.order| && s.phases[p].Stored?
    ensures Inv(lv, child0, parent0, pre0, AdvanceStep(lv, s, p))
  {
    hide PosOk, NextOk, OldConsistent, PreimageOk, RecordPair;
    var s' := AdvanceStep(lv, s, p);
    RecordSources(lv, child0, parent0, pre0, s, p);
    forall q | 0 <= q < |lv.order| ensures PosOk(lv, child0, parent0, s', q) {
      RecordPos(lv, child0, parent0, s, p, q);
    }
    NextUnchanged(lv, parent0, s, s');
  }

  lemma WriteLeafPos(lv: Level, child0: seq<Digest>, parent0: seq<Digest>, s: State, p: nat, q: nat)
    requires ValidLevel(lv) && |s.phases| == |lv.order| && p < |lv.order| && s.phases[p].Recorded?
    requires q < |lv.order| && PosOk(lv, child0, parent0, s, p) && PosOk(lv, child0, parent0, s, q)
    ensures PosOk(lv, child0, parent0, AdvanceStep(lv, s, p), q)
  {
    var x, y := lv.order[p], lv.order[q];
    if q != p && Owner(lv, y) {
      OwnersDiffer(lv, p, q);
      assert y != x && y != x + 1;
    }
  }

  lemma WriteLeafRows(lv: Level, child0: seq<Digest>, parent0: seq<Digest>, s: State, p: nat)
    requires ValidLevel(lv) && |s.phases| == |lv.order| && p < |lv.order| && s.phases[p].Recorded?
    requires RowsOk(lv, child0, parent0, s) && PosOk(lv, child0, parent0, s, p)
    ensures RowsOk(lv, child0, parent0, AdvanceStep(lv, s, p))
  {
  }

  lemma WriteLeafKeeps(lv: Level, child0: seq<Digest>, parent0: seq<Digest>, pre0: Witness, s: State, p: nat)
    requires Start(lv, child0, parent0, pre0) && Inv(lv, child0, parent0, pre0, s)
    requires p < |lv.order| && s.phases[p].Recorded?
    ensures Inv(lv, child0, parent0, pre0, AdvanceStep(lv, s, p))
  {
    hide PosOk, RowsOk, NextOk, OldConsistent;
    var s' := AdvanceStep(lv, s, p);
    forall q | 0 <= q < |lv.order| ensures PosOk(lv, child0, parent0, s', q) {
      WriteLeafPos(lv, child0, parent0, s, p, q);
    }
    WriteLeafRows(lv, child0, parent0, s, p);
    NextUnchanged(lv, parent0, s, s');
  }

  lemma {:induction false} InsertResultsIs(lv: Level, parent0: seq<Digest>, phases: seq<Phase>, next: map<nat, Digest>,
                                           t: nat, n: nat)
    requires n <= |phases| && |phases| == |lv.order| == |lv.task|
    requires forall p :: 0 <= p < n && phases[p].Done? ==>
      Owner(lv, lv.order[p]) && phases[p].prevRes == Get(parent0, lv.zp, lv.order[p] / 2)
    requires forall j: nat :: j in next ==> Dirty(lv.hashes, j) && next[j] == Get(parent0, lv.zp, j)
    ensures var r := InsertResults(lv, phases, next, t, n);
      && (forall j: nat :: j in r ==> Dirty(lv.hashes, j) && r[j] == Get(parent0, lv.zp, j))
      && (forall j: nat :: j in next ==> j in r)
      && (forall p :: 0 <= p < n && lv.task[p] == t && phases[p].Done? ==> lv.order[p] / 2 in r)
    decreases n
  {
    if n > 0 {
      InsertResultsIs(lv, parent0, phases, next, t, n - 1);
      if phases[n - 1].Done? {
        assert Owner(lv, lv.order[n - 1]);
        assert Dirty(lv.hashes, lv.order[n - 1] / 2);
      }
    }
  }

  lemma PublishKeeps(lv: Level, child0: seq<Digest>, parent0: seq<Digest>, pre0: Witness, s: State, t: nat)
    requires Inv(lv, child0, parent0, pre0, s)
    requires Enabled(lv, s, Publish(t))
    ensures Inv(lv, child0, parent0, pre0, Step(lv, s, Publish(t)))
  {
    hide RowsOk, PreimageOk, ChildrenOk, ParentOk, WitnessOk;
    var s' := Step(lv, s, Publish(t));
    forall q | 0 <= q < |lv.order| ensures PosOk(lv, child0, parent0, s', q) {
      assert PosOk(lv, child0, parent0, s, q);
    }
    forall p | 0 <= p < |lv.order| && s.phases[p].Done?
      ensures Owner(lv, lv.order[p]) && s.phases[p].prevRes == Get(parent0, lv.zp, lv.order[p] / 2)
    {
      assert PosOk(lv, child0, parent0, s, p);
    }
    InsertResultsIs(lv, parent0, s.phases, s.next, t, |lv.order|);
    forall p | 0 <= p < |lv.order| && Owner(lv, lv.order[p]) && lv.task[p] in s'.published
      ensures lv.order[p] / 2 in s'.next
    {
      if lv.task[p] == t {
        assert PosOk(lv, child0, parent0, s, p);
        assert s.phases[p].Done?;
      }
    }
    RestKept(lv, child0, parent0, pre0, s, s');
  }

  lemma RestKept(lv: Level, child0: seq<Digest>, parent0: seq<Digest>, pre0: Witness, s: State, s': State)
    requires s'.child == s.child && s'.parent == s.parent && s'.preimage == s.preimage
    requires RowsOk(lv, child0, parent0, s) && PreimageOk(lv, child0, pre0, s)
    ensures RowsOk(lv, child0, parent0, s') && PreimageOk(lv, child0, pre0, s')
  {
  }

  lemma StepKeeps(lv: Level, child0: seq<Digest>, parent0: seq<Digest>, pre0: Witness, s: State, a: Action)
    requires Start(lv, child0, parent0, pre0) && Inv(lv, child0, parent0, pre0, s)
    requires Enabled(lv, s, a)
    ensures Inv(lv, child0, parent0, pre0, Step(lv, s, a))
  {
    match a
    case Publish(t) => PublishKeeps(lv, child0, parent0, pre0, s, t);
    case Advance(p) =>
      match s.phases[p]
      case Ready => FetchKeeps(lv, child0, parent0, pre0, s, p);
      case Fetched(_, _, _, _) => StoreKeeps(lv, child0, parent0, pre0, s, p);
      case Stored(_, _, _, _, _) => RecordKeeps(lv, child0, parent0, pre0, s, p);
      case Recorded(_) => WriteLeafKeeps(lv, child0, parent0, pre0, s, p);
  }

  lemma {:induction false} ExecKeeps(lv: Level, child0: seq<Digest>, parent0: seq<Digest>, pre0: Witness, s: State,
                                     acts: seq<Action>)
    requires Start(lv, child0, parent0, pre0) && Inv(lv, child0, parent0, pre0, s)
    requires Schedule(lv, s, acts)
    ensures Inv(lv, child0, parent0, pre0, Exec(lv, s, acts))
    decreases |acts|
  {
    if acts != [] {
      StepKeeps(lv, child0, parent0, pre0, s, acts[0]);
      ExecKeeps(lv, child0, parent0, pre0, Step(lv, s, acts[0]), acts[1..]);
    }
  }

  // ----- the results -----------------------------------------------------------------------------

  lemma OwnerOf(lv: Level, j: nat) returns (p: nat)
    requires ValidLevel(lv) && Dirty(lv.hashes, j)
    ensures p < |lv.order| && Owner(lv, lv.order[p]) && lv.order[p] / 2 == j
  {
    var x := if 2 * j + 1 in lv.hashes then 2 * j + 1 else 2 * j;
    assert x in lv.order;
    p :| 0 <= p < |lv.order| && lv.order[p] == x;
  }

  /** A finished owner has written the leaves it owns. */
  lemma OwnerWrote(lv: Level, child0: seq<Digest>, child: seq<Digest>, y: nat, ph: Phase, x: nat)
    requires lv.first && Owner(lv, y) && ph.Done? && ChildrenOk(lv, child0, child, y, ph)
    requires x in lv.hashes && x / 2 == y / 2
    ensures x < |child| && Get(child, lv.zc, x) == lv.hashes[x]
  {
    assert y == x || (y == x + 1 && y % 2 == 1);
  }

  lemma UnwrittenChild(lv: Level, child0: seq<Digest>, parent0: seq<Digest>, s: State, x: nat)
    requires RowsOk(lv, child0, parent0, s) && !(lv.first && x in lv.hashes)
    ensures Get(s.child, lv.zc, x) == Get(child0, lv.zc, x)
  {
    hide Extends;
  }

  lemma CompleteChild(lv: Level, child0: seq<Digest>, parent0: seq<Digest>, pre0: Witness, s: State, x: nat)
    requires ValidLevel(lv) && Inv(lv, child0, parent0, pre0, s) && Complete(lv, s)
    ensures Get(s.child, lv.zc, x) == NewChild(lv, child0, x)
    ensures lv.first && x in lv.hashes ==> x < |s.child|
  {
    hide NextOk, RowsOk, PreimageOk, ValidLevel, ChildrenOk;
    if lv.first && x in lv.hashes {
      var p := OwnerOf(lv, x / 2);
      assert PosOk(lv, child0, parent0, s, p) && Finished(s.phases[p]);
      OwnerWrote(lv, child0, s.child, lv.order[p], s.phases[p], x);
    } else {
      UnwrittenChild(lv, child0, parent0, s, x);
    }
  }

  lemma CompleteParent(lv: Level, child0: seq<Digest>, parent0: seq<Digest>, pre0: Witness, s: State, j: nat)
    requires ValidLevel(lv) && Inv(lv, child0, parent0, pre0, s) && Complete(lv, s)
    ensures Get(s.parent, lv.zp, j) == NewParent(lv, child0, parent0, j)
    ensures Dirty(lv.hashes, j) ==> j < |s.parent| && j in s.next
    ensures EntriesAt(lv, child0, parent0, s.preimage, j)
  {
    if Dirty(lv.hashes, j) {
      var p := OwnerOf(lv, j);
      assert lv.task[p] in s.published;
      assert j in s.next;
      hide NextOk, RowsOk, PreimageOk;
      assert PosOk(lv, child0, parent0, s, p);
      assert Finished(s.phases[p]);
    }
  }

  lemma CompleteRest(lv: Level, child0: seq<Digest>, parent0: seq<Digest>, pre0: Witness, s: State)
    requires Inv(lv, child0, parent0, pre0, s)
    ensures Extends(child0, s.child, iset x: nat | lv.first && x in lv.hashes)
    ensures Extends(parent0, s.parent, iset j: nat | Dirty(lv.hashes, j))
    ensures forall j: nat :: j in s.next ==> Dirty(lv.hashes, j) && s.next[j] == Get(parent0, lv.zp, j)
    ensures PreimageOk(lv, child0, pre0, s)
  {
    hide PosOk, Extends, Sourced, Get, Dirty, PreimageOk;
  }

  /** A completed level has computed what it is meant to compute. */
  lemma CompleteResult(lv: Level, child0: seq<Digest>, parent0: seq<Digest>, pre0: Witness, s: State)
    requires ValidLevel(lv)
    requires Inv(lv, child0, parent0, pre0, s) && Complete(lv, s)
    ensures LevelResult(lv, child0, parent0, pre0, s)
  {
    hide Inv, Complete, ValidLevel, NewParent, NewChild, Sourced, Dirty, Extends, ValidWitness;
    forall x: nat
      ensures Get(s.child, lv.zc, x) == NewChild(lv, child0, x)
      ensures lv.first && x in lv.hashes ==> x < |s.child|
    {
      CompleteChild(lv, child0, parent0, pre0, s, x);
    }
    forall j: nat
      ensures Get(s.parent, lv.zp, j) == NewParent(lv, child0, parent0, j)
      ensures Dirty(lv.hashes, j) ==> j < |s.parent| && j in s.next
      ensures EntriesAt(lv, child0, parent0, s.preimage, j)
    {
      CompleteParent(lv, child0, parent0, pre0, s, j);
    }
    CompleteRest(lv, child0, parent0, pre0, s);
  }

  /** Every interleaving, in every order and with every split among tasks, ends in the level's result. */
  lemma EveryInterleaving(lv: Level, child0: seq<Digest>, parent0: seq<Digest>, pre0: Witness, acts: seq<Action>)
    requires Start(lv, child0, parent0, pre0)
    requires Schedule(lv, Init(lv, child0, parent0, pre0), acts)
    requires Complete(lv, Exec(lv, Init(lv, child0, parent0, pre0), acts))
    ensures LevelResult(lv, child0, parent0, pre0, Exec(lv, Init(lv, child0, parent0, pre0), acts))
  {
    hide Inv, LevelResult, OldConsistent, Exec, Complete;
    InitInv(lv, child0, parent0, pre0);
    ExecKeeps(lv, child0, parent0, pre0, Init(lv, child0, parent0, pre0), acts);
    CompleteResult(lv, child0, parent0, pre0, Exec(lv, Init(lv, child0, parent0, pre0), acts));
  }

  /** The part of a level's result about one child and one parent. */
  lemma ResultAt(lv: Level, child0: seq<Digest>, parent0: seq<Digest>, pre0: Witness, s: State, x: nat, j: nat)
    requires LevelResult(lv, child0, parent0, pre0, s)
    ensures Get(s.child, lv.zc, x) == NewChild(lv, child0, x)
    ensures Get(s.parent, lv.zp, j) == NewParent(lv, child0, parent0, j)
  {
  }

  lemma WitnessGrows(lv: Level, child0: seq<Digest>, parent0: seq<Digest>, pre0: Witness, s: State)
    requires LevelResult(lv, child0, parent0, pre0, s)
    ensures forall k :: k in pre0 ==> k in s.preimage
  {
  }

  /** Two levels that differ at most in iteration order and split. */
  ghost predicate SameWork(a: Level, b: Level) {
    a.h == b.h && a.first == b.first && a.zc == b.zc && a.zp == b.zp && a.hashes == b.hashes
  }

  /** The final vectors (lengths included) and the next-row map do not depend on iteration order,
      split or interleaving; in particular they are those of a sequential run. */
  lemma Deterministic(lv: Level, lv': Level, child0: seq<Digest>, parent0: seq<Digest>, pre0: Witness,
                      acts: seq<Action>, acts': seq<Action>)
    requires SameWork(lv, lv')
    requires Start(lv, child0, parent0, pre0) && Start(lv', child0, parent0, pre0)
    requires Schedule(lv, Init(lv, child0, parent0, pre0), acts)
    requires Schedule(lv', Init(lv', child0, parent0, pre0), acts')
    requires Complete(lv, Exec(lv, Init(lv, child0, parent0, pre0), acts))
    requires Complete(lv', Exec(lv', Init(lv', child0, parent0, pre0), acts'))
    ensures var s := Exec(lv, Init(lv, child0, parent0, pre0), acts);
      var s' := Exec(lv', Init(lv', child0, parent0, pre0), acts');
      s.child == s'.child && s.parent == s'.parent && s.next == s'.next
  {
    var s, s' := Exec(lv, Init(lv, child0, parent0, pre0), acts), Exec(lv', Init(lv', child0, parent0, pre0), acts');
    EveryInterleaving(lv, child0, parent0, pre0, acts);
    EveryInterleaving(lv', child0, parent0, pre0, acts');
    SameResult(lv, lv', child0, parent0, pre0, pre0, s, s');
  }

  /** Two extensions of one row, each holding all the written positions, are equally long. */
  lemma SameLength(row0: seq<Digest>, a: seq<Digest>, b: seq<Digest>, written: iset<nat>)
    requires Extends(row0, a, written) && Extends(row0, b, written)
    requires Within(written, |a|) && Within(written, |b|)
    ensures |a| == |b|
  {
  }

  lemma SameRow(row0: seq<Digest>, a: seq<Digest>, b: seq<Digest>, z: Digest, written: iset<nat>)
    requires Extends(row0, a, written) && Extends(row0, b, written)
    requires Within(written, |a|) && Within(written, |b|)
    requires forall x: nat :: Get(a, z, x) == Get(b, z, x)
    ensures a == b
  {
    SameLength(row0, a, b, written);
    RowExtensionality(a, b, z);
  }

  lemma ResultShape(lv: Level, child0: seq<Digest>, parent0: seq<Digest>, pre0: Witness, s: State)
    requires LevelResult(lv, child0, parent0, pre0, s)
    ensures Extends(child0, s.child, iset x: nat | lv.first && x in lv.hashes)
    ensures Within(iset x: nat | lv.first && x in lv.hashes, |s.child|)
    ensures Extends(parent0, s.parent, iset j: nat | Dirty(lv.hashes, j))
    ensures Within(iset j: nat | Dirty(lv.hashes, j), |s.parent|)
  {
    hide NewParent, NewChild, Sourced, Extends;
  }

  lemma SameNext(lv: Level, lv': Level, child0: seq<Digest>, parent0: seq<Digest>, pre0: Witness, pre0': Witness,
                 s: State, s': State)
    requires SameWork(lv, lv')
    requires LevelResult(lv, child0, parent0, pre0, s) && LevelResult(lv', child0, parent0, pre0', s')
    ensures s.next == s'.next
  {
    hide NewParent, NewChild, Sourced, Extends, ValidWitness, Dirty;
    assert forall j: nat :: j in s.next <==> Dirty(lv.hashes, j);
    assert forall j: nat :: j in s'.next <==> Dirty(lv.hashes, j);
  }

  lemma SameResult(lv: Level, lv': Level, child0: seq<Digest>, parent0: seq<Digest>, pre0: Witness, pre0': Witness,
                   s: State, s': State)
    requires SameWork(lv, lv')
    requires LevelResult(lv, child0, parent0, pre0, s) && LevelResult(lv', child0, parent0, pre0', s')
    ensures s.child == s'.child && s.parent == s'.parent && s.next == s'.next
  {
    hide LevelResult, Extends;
    ResultShape(lv, child0, parent0, pre0, s);
    ResultShape(lv', child0, parent0, pre0', s');
    forall x: nat ensures Get(s.child, lv.zc, x) == Get(s'.child, lv.zc, x) {
      ResultAt(lv, child0, parent0, pre0, s, x, x);
      ResultAt(lv', child0, parent0, pre0', s', x, x);
    }
    SameRow(child0, s.child, s'.child, lv.zc, iset x: nat | lv.first && x in lv.hashes);
    forall j: nat ensures Get(s.parent, lv.zp, j) == Get(s'.parent, lv.zp, j) {
      ResultAt(lv, child0, parent0, pre0, s, j, j);
      ResultAt(lv', child0, parent0, pre0', s', j, j);
    }
    SameRow(parent0, s.parent, s'.parent, lv.zp, iset j: nat | Dirty(lv.hashes, j));
    SameNext(lv, lv', child0, parent0, pre0, pre0', s, s');
  }
}
