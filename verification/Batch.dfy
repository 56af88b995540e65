/**
 A whole batch: one completed run per level, from the leaves to the root, for arbitrary
 interleavings on every level. The rows are the leaves followed by the inner rows, bottom up.
*/
module Batch {
  import opened Arith
  import opened Merkle
  import opened LevelRun

  datatype Snapshot = Snapshot(rows: seq<seq<Digest>>, preimage: Witness, dirty: map<nat, Digest>)

  /** How one level was run: its iteration order, its split among tasks and its interleaving. */
  datatype Trace = Trace(order: seq<nat>, task: seq<nat>, tasks: nat, acts: seq<Action>)

  /** The logical value of node `x` of level `k`: absent nodes read as that level's zero hash. */
  function At(h: Hash2, rows: seq<seq<Digest>>, k: nat, x: nat): Digest
    requires k < |rows|
  {
    Get(rows[k], Zero(h, k), x)
  }

  /** The pair of children of the inner node `(k, j)`. */
  function Pair(h: Hash2, rows: seq<seq<Digest>>, k: nat, j: nat): (Digest, Digest)
    requires 1 <= k <= |rows|
  {
    (At(h, rows, k - 1, 2 * j), At(h, rows, k - 1, 2 * j + 1))
  }

  function PairHash(h: Hash2, v: (Digest, Digest)): Digest { h(v.0, v.1) }

  predicate NodeOk(h: Hash2, rows: seq<seq<Digest>>, k: nat, j: nat)
    requires 1 <= k < |rows|
  {
    At(h, rows, k, j) == PairHash(h, Pair(h, rows, k, j))
  }

  /** Every inner node is the hash of its two children. */
  ghost predicate Consistent(h: Hash2, rows: seq<seq<Digest>>) {
    forall k: nat, j: nat :: 1 <= k < |rows| ==> NodeOk(h, rows, k, j)
  }

  /** In a consistent tree every node is the recursive Merkle value of the leaves. */
  lemma {:induction false} ConsistentIsNode(h: Hash2, rows: seq<seq<Digest>>, k: nat, j: nat)
    requires Consistent(h, rows) && k < |rows|
    ensures At(h, rows, k, j) == Node(h, rows[0], k, j)
    decreases k
  {
    if k > 0 {
      assert NodeOk(h, rows, k, j);
      ConsistentIsNode(h, rows, k - 1, 2 * j);
      ConsistentIsNode(h, rows, k - 1, 2 * j + 1);
    }
  }

  function LevelOf(h: Hash2, i: nat, a: Snapshot, tr: Trace): Level {
    Level(h, i == 0, Zero(h, i), Zero(h, i + 1), a.dirty, tr.order, tr.task, tr.tasks)
  }

  function StartOf(h: Hash2, i: nat, a: Snapshot, tr: Trace): State
    requires i + 1 < |a.rows|
  {
    Init(LevelOf(h, i, a, tr), a.rows[i], a.rows[i + 1], a.preimage)
  }

  ghost predicate LevelRuns(h: Hash2, i: nat, a: Snapshot, tr: Trace) {
    && i + 1 < |a.rows|
    && ValidLevel(LevelOf(h, i, a, tr))
    && Schedule(LevelOf(h, i, a, tr), StartOf(h, i, a, tr), tr.acts)
    && Complete(LevelOf(h, i, a, tr), Exec(LevelOf(h, i, a, tr), StartOf(h, i, a, tr), tr.acts))
  }

  function WithLevel(i: nat, a: Snapshot, s: State): Snapshot
    requires i + 1 < |a.rows|
  {
    Snapshot(a.rows[i := s.child][i + 1 := s.parent], s.preimage, s.next)
  }

  function RunLevel(h: Hash2, i: nat, a: Snapshot, tr: Trace): (b: Snapshot)
    requires i + 1 < |a.rows|
    requires Schedule(LevelOf(h, i, a, tr), StartOf(h, i, a, tr), tr.acts)
    ensures |b.rows| == |a.rows|
  {
    WithLevel(i, a, Exec(LevelOf(h, i, a, tr), StartOf(h, i, a, tr), tr.acts))
  }

  /** `snaps[i + 1]` is what a complete run of level `i` makes of `snaps[i]`. */
  ghost predicate LevelStep(h: Hash2, snaps: seq<Snapshot>, trs: seq<Trace>, i: nat)
    requires i < |trs| && |snaps| == |trs| + 1
  {
    LevelRuns(h, i, snaps[i], trs[i]) && snaps[i + 1] == RunLevel(h, i, snaps[i], trs[i])
  }

  /** A run of the levels `0..|trs|` from the leaves up, with the state between levels in `snaps`. */
  ghost predicate BatchRun(h: Hash2, snaps: seq<Snapshot>, trs: seq<Trace>) {
    && |snaps| == |trs| + 1
    && forall i: nat :: i < |trs| ==> LevelStep(h, snaps, trs, i)
  }

  /** A batch of updates on a consistent tree, run on all its levels. */
  ghost predicate IsBatch(h: Hash2, rows0: seq<seq<Digest>>, updates: map<nat, Digest>, pre0: Witness,
                          snaps: seq<Snapshot>, trs: seq<Trace>) {
    && Consistent(h, rows0) && ValidWitness(h, pre0)
    && |rows0| == |trs| + 1 && |trs| >= 1
    && BatchRun(h, snaps, trs)
    && snaps[0] == Snapshot(rows0, pre0, updates)
  }

  function Last(snaps: seq<Snapshot>): Snapshot
    requires snaps != []
  {
    snaps[|snaps| - 1]
  }

  // ----- what a batch is meant to do -------------------------------------------------------------

  /** The leaves after the batch: the old ones overridden by the updates. */
  function Overridden(updates: map<nat, Digest>, leaves: seq<Digest>, x: nat): Digest {
    if x in updates then updates[x] else Get(leaves, 0, x)
  }

  /** Node `x` of level `k` has an updated leaf below it. */
  ghost predicate Touched(updates: map<nat, Digest>, k: nat, x: nat) {
    exists u :: u in updates && Anc(u, k) == x
  }

  /** Rows `0..i` are new: overridden leaves, hashes above them, old values away from updates. */
  ghost predicate RowsProgress(h: Hash2, rows0: seq<seq<Digest>>, updates: map<nat, Digest>, i: nat,
                               rows: seq<seq<Digest>>)
    requires i < |rows0| == |rows|
  {
    && (forall x: nat :: At(h, rows, 0, x) == if i == 0 then At(h, rows0, 0, x) else Overridden(updates, rows0[0], x))
    && (forall k: nat, j: nat :: 1 <= k <= i ==> NodeOk(h, rows, k, j))
    && (forall k: nat :: i < k < |rows0| ==> rows[k] == rows0[k])
    && (forall k: nat, x: nat :: k <= i && !Touched(updates, k, x) ==> At(h, rows, k, x) == At(h, rows0, k, x))
  }

  /** The map passed on to level `i`: its touched nodes with their old values (new ones for leaves). */
  ghost predicate DirtyProgress(h: Hash2, rows0: seq<seq<Digest>>, updates: map<nat, Digest>, i: nat,
                                dirty: map<nat, Digest>)
    requires i < |rows0|
  {
    && (forall x: nat :: x in dirty <==> Touched(updates, i, x))
    && (forall x: nat :: x in dirty ==> dirty[x] == if i == 0 then updates[x] else At(h, rows0, i, x))
  }

  /** Levels `0..i` have been run. */
  ghost predicate Progress(h: Hash2, rows0: seq<seq<Digest>>, updates: map<nat, Digest>, pre0: Witness, i: nat,
                           b: Snapshot) {
    && i < |rows0| == |b.rows|
    && RowsProgress(h, rows0, updates, i, b.rows)
    && DirtyProgress(h, rows0, updates, i, b.dirty)
    && WitnessProgress(h, rows0, updates, pre0, i, b)
  }

  /** `v` was in the witness before, or is a pair of siblings above an update, old or new. */
  ghost predicate Occurs(h: Hash2, rows0: seq<seq<Digest>>, rows: seq<seq<Digest>>, updates: map<nat, Digest>,
                         pre0: Witness, i: nat, v: (Digest, Digest))
    requires i < |rows0| == |rows|
  {
    || (exists k :: k in pre0 && pre0[k] == v)
    || (exists k: nat, j: nat ::
          1 <= k <= i && Touched(updates, k, j) && (v == Pair(h, rows0, k, j) || v == Pair(h, rows, k, j)))
  }

  ghost predicate WitnessProgress(h: Hash2, rows0: seq<seq<Digest>>, updates: map<nat, Digest>, pre0: Witness, i: nat,
                                  b: Snapshot)
    requires i < |rows0| == |b.rows|
  {
    && ValidWitness(h, b.preimage)
    && pre0.Keys <= b.preimage.Keys
    && (forall k: nat, j: nat :: k <= i ==> Entries(h, rows0, b.rows, updates, b.preimage, k, j))
    && (forall key :: OccursKey(h, rows0, b.rows, updates, pre0, i, b.preimage, key))
  }

  /** The old and the new value of a touched inner node are keys of the witness. */
  ghost predicate Entries(h: Hash2, rows0: seq<seq<Digest>>, rows: seq<seq<Digest>>, updates: map<nat, Digest>,
                          pre: Witness, k: nat, j: nat)
    requires k < |rows0| == |rows|
  {
    k >= 1 && Touched(updates, k, j) ==> At(h, rows0, k, j) in pre && At(h, rows, k, j) in pre
  }

  ghost predicate OccursKey(h: Hash2, rows0: seq<seq<Digest>>, rows: seq<seq<Digest>>, updates: map<nat, Digest>,
                            pre0: Witness, i: nat, pre: Witness, key: Digest)
    requires i < |rows0| == |rows|
  {
    key in pre ==> Occurs(h, rows0, rows, updates, pre0, i, pre[key])
  }

  lemma TouchedUp(updates: map<nat, Digest>, k: nat, j: nat)
    ensures Touched(updates, k + 1, j) <==> Touched(updates, k, 2 * j) || Touched(updates, k, 2 * j + 1)
  {
    if Touched(updates, k + 1, j) {
      var u :| u in updates && Anc(u, k + 1) == j;
      assert Anc(u, k) == 2 * j || Anc(u, k) == 2 * j + 1;
    }
    forall u | u in updates && (Anc(u, k) == 2 * j || Anc(u, k) == 2 * j + 1)
      ensures Anc(u, k + 1) == j
    {}
  }

  lemma ProgressStart(h: Hash2, rows0: seq<seq<Digest>>, updates: map<nat, Digest>, pre0: Witness)
    requires Consistent(h, rows0) && ValidWitness(h, pre0) && |rows0| >= 1
    ensures Progress(h, rows0, updates, pre0, 0, Snapshot(rows0, pre0, updates))
  {
    forall x: nat ensures x in updates <==> Touched(updates, 0, x) {
      if x in updates { assert Anc(x, 0) == x; }
    }
  }

  /** What is known when level `i` has been run and its result is `s`. */
  ghost predicate LevelDone(h: Hash2, rows0: seq<seq<Digest>>, updates: map<nat, Digest>, pre0: Witness, i: nat,
                            a: Snapshot, tr: Trace, s: State) {
    && Consistent(h, rows0) && Progress(h, rows0, updates, pre0, i, a) && i + 1 < |rows0|
    && ValidLevel(LevelOf(h, i, a, tr))
    && LevelResult(LevelOf(h, i, a, tr), a.rows[i], a.rows[i + 1], a.preimage, s)
  }

  /** Before level `i` runs, its old child pairs hash to its old parents. */
  lemma StartOk(h: Hash2, rows0: seq<seq<Digest>>, updates: map<nat, Digest>, pre0: Witness, i: nat, a: Snapshot,
                tr: Trace)
    requires Consistent(h, rows0) && Progress(h, rows0, updates, pre0, i, a) && i + 1 < |rows0|
    requires ValidLevel(LevelOf(h, i, a, tr))
    ensures Start(LevelOf(h, i, a, tr), a.rows[i], a.rows[i + 1], a.preimage)
    ensures forall j: nat :: OldPair(LevelOf(h, i, a, tr), a.rows[i], j) == Pair(h, rows0, i + 1, j)
    ensures forall j: nat :: Dirty(a.dirty, j) <==> Touched(updates, i + 1, j)
  {
    var lv := LevelOf(h, i, a, tr);
    forall x: nat ensures OldChild(lv, a.rows[i], x) == At(h, rows0, i, x) {
      assert At(h, a.rows, i, x) == Get(a.rows[i], lv.zc, x);
    }
    assert a.rows[i + 1] == rows0[i + 1];
    forall j: nat
      ensures Get(a.rows[i + 1], lv.zp, j) == lv.h(OldPair(lv, a.rows[i], j).0, OldPair(lv, a.rows[i], j).1)
    {
      assert NodeOk(h, rows0, i + 1, j);
    }
    forall j: nat ensures Dirty(a.dirty, j) <==> Touched(updates, i + 1, j) {
      TouchedUp(updates, i, j);
    }
  }

  /** Level `i` leaves the rows away from it alone. */
  lemma OtherRows(h: Hash2, i: nat, a: Snapshot, s: State, k: nat, x: nat)
    requires i + 1 < |a.rows| && k < |a.rows|
    ensures k != i && k != i + 1 ==> At(h, WithLevel(i, a, s).rows, k, x) == At(h, a.rows, k, x)
    ensures k == i ==> At(h, WithLevel(i, a, s).rows, k, x) == Get(s.child, Zero(h, i), x)
    ensures k == i + 1 ==> At(h, WithLevel(i, a, s).rows, k, x) == Get(s.parent, Zero(h, i + 1), x)
  {
  }

  /** Rows up to `i` after level `i`: the leaves are new after level 0, inner rows are unchanged. */
  lemma ChildRow(h: Hash2, rows0: seq<seq<Digest>>, updates: map<nat, Digest>, pre0: Witness, i: nat, a: Snapshot,
                 tr: Trace, s: State, k: nat, x: nat)
    requires LevelDone(h, rows0, updates, pre0, i, a, tr, s) && k <= i
    ensures var rows := WithLevel(i, a, s).rows;
      && At(h, rows, k, x) == (if i == 0 then Overridden(updates, rows0[0], x) else At(h, a.rows, k, x))
      && (!Touched(updates, k, x) ==> At(h, rows, k, x) == At(h, rows0, k, x))
  {
    var lv := LevelOf(h, i, a, tr);
    OtherRows(h, i, a, s, k, x);
    assert Get(s.child, lv.zc, x) == NewChild(lv, a.rows[i], x);
    assert At(h, a.rows, k, x) == Get(a.rows[k], Zero(h, k), x);
    if i == 0 {
      assert At(h, a.rows, 0, x) == At(h, rows0, 0, x) == Get(rows0[0], 0, x);
      if x in updates { assert Anc(x, 0) == x; }
      assert x in a.dirty <==> x in updates by {
        assert x in a.dirty <==> Touched(updates, 0, x);
      }
    }
  }

  lemma RowAhead(h: Hash2, rows0: seq<seq<Digest>>, updates: map<nat, Digest>, pre0: Witness, i: nat, a: Snapshot)
    requires Progress(h, rows0, updates, pre0, i, a) && i + 1 < |rows0|
    ensures |a.rows| == |rows0| && a.rows[i + 1] == rows0[i + 1]
  {
  }

  lemma ParentRowNew(h: Hash2, rows0: seq<seq<Digest>>, updates: map<nat, Digest>, pre0: Witness, i: nat, a: Snapshot,
                     tr: Trace, s: State, j: nat)
    requires LevelDone(h, rows0, updates, pre0, i, a, tr, s)
    ensures var rows := WithLevel(i, a, s).rows;
      && NewPair(LevelOf(h, i, a, tr), a.rows[i], j) == Pair(h, rows, i + 1, j)
      && NewParent(LevelOf(h, i, a, tr), a.rows[i], a.rows[i + 1], j) == At(h, rows, i + 1, j)
      && (Dirty(a.dirty, j) ==> NodeOk(h, rows, i + 1, j))
      && (!Dirty(a.dirty, j) ==> At(h, rows, i + 1, j) == At(h, rows0, i + 1, j))
  {
    hide LevelResult, RowsProgress, DirtyProgress, WitnessProgress;
    var lv := LevelOf(h, i, a, tr);
    RowAhead(h, rows0, updates, pre0, i, a);
    ResultAt(lv, a.rows[i], a.rows[i + 1], a.preimage, s, 2 * j, j);
    ResultAt(lv, a.rows[i], a.rows[i + 1], a.preimage, s, 2 * j + 1, j);
  }

  /** The parent row after level `i`: hashes of the new children, and unchanged where untouched. */
  lemma ParentRow(h: Hash2, rows0: seq<seq<Digest>>, updates: map<nat, Digest>, pre0: Witness, i: nat, a: Snapshot,
                  tr: Trace, s: State, j: nat)
    requires LevelDone(h, rows0, updates, pre0, i, a, tr, s)
    ensures var rows := WithLevel(i, a, s).rows;
      && NewPair(LevelOf(h, i, a, tr), a.rows[i], j) == Pair(h, rows, i + 1, j)
      && NewParent(LevelOf(h, i, a, tr), a.rows[i], a.rows[i + 1], j) == At(h, rows, i + 1, j)
      && NodeOk(h, rows, i + 1, j)
      && (!Touched(updates, i + 1, j) ==> At(h, rows, i + 1, j) == At(h, rows0, i + 1, j))
      && (Touched(updates, i + 1, j) <==> Dirty(a.dirty, j))
  {
    hide LevelResult, RowsProgress, DirtyProgress, WitnessProgress, Touched, NewParent, NewPair;
    ParentRowNew(h, rows0, updates, pre0, i, a, tr, s, j);
    StartOk(h, rows0, updates, pre0, i, a, tr);
    assert Touched(updates, i + 1, j) <==> Dirty(a.dirty, j);
    if !Touched(updates, i + 1, j) {
      TouchedUp(updates, i, j);
      assert NodeOk(h, rows0, i + 1, j);
      ChildRow(h, rows0, updates, pre0, i, a, tr, s, i, 2 * j);
      ChildRow(h, rows0, updates, pre0, i, a, tr, s, i, 2 * j + 1);
    }
  }

  /** Child pairs below level `i` are not affected by running it. */
  lemma PairKept(h: Hash2, rows0: seq<seq<Digest>>, updates: map<nat, Digest>, pre0: Witness, i: nat, a: Snapshot,
                 tr: Trace, s: State, k: nat, j: nat)
    requires LevelDone(h, rows0, updates, pre0, i, a, tr, s) && 1 <= k <= i
    ensures var rows := WithLevel(i, a, s).rows;
      Pair(h, rows, k, j) == Pair(h, a.rows, k, j) && At(h, rows, k, j) == At(h, a.rows, k, j)
  {
    hide LevelResult, Touched, NewPair;
    ChildRow(h, rows0, updates, pre0, i, a, tr, s, k - 1, 2 * j);
    ChildRow(h, rows0, updates, pre0, i, a, tr, s, k - 1, 2 * j + 1);
    ChildRow(h, rows0, updates, pre0, i, a, tr, s, k, j);
  }

  lemma WitnessStep(h: Hash2, rows0: seq<seq<Digest>>, updates: map<nat, Digest>, pre0: Witness, i: nat, a: Snapshot,
                    tr: Trace, s: State)
    requires LevelDone(h, rows0, updates, pre0, i, a, tr, s)
    ensures WitnessProgress(h, rows0, updates, pre0, i + 1, WithLevel(i, a, s))
  {
    var b := WithLevel(i, a, s);
    forall k: nat, j: nat | k <= i + 1 ensures Entries(h, rows0, b.rows, updates, b.preimage, k, j) {
      if k >= 1 && Touched(updates, k, j) {
        EntryKept(h, rows0, updates, pre0, i, a, tr, s, k, j);
      }
    }
    forall key | key in b.preimage
      ensures Occurs(h, rows0, b.rows, updates, pre0, i + 1, b.preimage[key])
    {
      assert SourcedKey(LevelOf(h, i, a, tr), a.rows[i], a.preimage, s.preimage, key);
      SourceOccurs(h, rows0, updates, pre0, i, a, tr, s, b.preimage[key]);
    }
  }

  lemma EntryKept(h: Hash2, rows0: seq<seq<Digest>>, updates: map<nat, Digest>, pre0: Witness, i: nat, a: Snapshot,
                  tr: Trace, s: State, k: nat, j: nat)
    requires LevelDone(h, rows0, updates, pre0, i, a, tr, s)
    requires 1 <= k <= i + 1 && Touched(updates, k, j)
    ensures var b := WithLevel(i, a, s); At(h, rows0, k, j) in b.preimage && At(h, b.rows, k, j) in b.preimage
  {
    hide LevelResult, RowsProgress, DirtyProgress, WitnessProgress, Touched, At, Pair;
    if k <= i {
      EntryBefore(h, rows0, updates, pre0, i, a, tr, s, k, j);
      PairKept(h, rows0, updates, pre0, i, a, tr, s, k, j);
    } else {
      ParentRow(h, rows0, updates, pre0, i, a, tr, s, j);
      EntryAdded(h, rows0, updates, pre0, i, a, tr, s, j);
    }
  }

  lemma EntryBefore(h: Hash2, rows0: seq<seq<Digest>>, updates: map<nat, Digest>, pre0: Witness, i: nat, a: Snapshot,
                    tr: Trace, s: State, k: nat, j: nat)
    requires LevelDone(h, rows0, updates, pre0, i, a, tr, s)
    requires 1 <= k <= i && Touched(updates, k, j)
    ensures At(h, rows0, k, j) in s.preimage && At(h, a.rows, k, j) in s.preimage
  {
    hide LevelResult, Touched, At, Occurs, ValidWitness, NodeOk, Consistent;
    WitnessGrows(LevelOf(h, i, a, tr), a.rows[i], a.rows[i + 1], a.preimage, s);
    assert Entries(h, rows0, a.rows, updates, a.preimage, k, j);
  }

  lemma EntryAdded(h: Hash2, rows0: seq<seq<Digest>>, updates: map<nat, Digest>, pre0: Witness, i: nat, a: Snapshot,
                   tr: Trace, s: State, j: nat)
    requires LevelDone(h, rows0, updates, pre0, i, a, tr, s) && Dirty(a.dirty, j)
    ensures At(h, rows0, i + 1, j) in s.preimage
    ensures NewParent(LevelOf(h, i, a, tr), a.rows[i], a.rows[i + 1], j) in s.preimage
  {
    assert a.rows[i + 1] == rows0[i + 1];
    assert EntriesAt(LevelOf(h, i, a, tr), a.rows[i], a.rows[i + 1], s.preimage, j);
  }

  lemma SourceOccurs(h: Hash2, rows0: seq<seq<Digest>>, updates: map<nat, Digest>, pre0: Witness, i: nat, a: Snapshot,
                     tr: Trace, s: State, v: (Digest, Digest))
    requires LevelDone(h, rows0, updates, pre0, i, a, tr, s)
    requires Sourced(LevelOf(h, i, a, tr), a.rows[i], a.preimage, v)
    ensures Occurs(h, rows0, WithLevel(i, a, s).rows, updates, pre0, i + 1, v)
  {
    hide LevelResult, Touched, NewPair, OldPair, Pair;
    var lv := LevelOf(h, i, a, tr);
    if key :| key in a.preimage && a.preimage[key] == v {
      assert OccursKey(h, rows0, a.rows, updates, pre0, i, a.preimage, key);
      assert Occurs(h, rows0, a.rows, updates, pre0, i, v);
      if !(exists k :: k in pre0 && pre0[k] == v) {
        var k: nat, j: nat :|
          1 <= k <= i && Touched(updates, k, j) && (v == Pair(h, rows0, k, j) || v == Pair(h, a.rows, k, j));
        PairKept(h, rows0, updates, pre0, i, a, tr, s, k, j);
      }
    } else {
      var j: nat :| Dirty(lv.hashes, j) && (v == OldPair(lv, a.rows[i], j) || v == NewPair(lv, a.rows[i], j));
      StartOk(h, rows0, updates, pre0, i, a, tr);
      ParentRow(h, rows0, updates, pre0, i, a, tr, s, j);
      assert Touched(updates, i + 1, j);
    }
  }

  lemma NodesBelow(h: Hash2, rows0: seq<seq<Digest>>, updates: map<nat, Digest>, pre0: Witness, i: nat, a: Snapshot,
                   k: nat, x: nat)
    requires Progress(h, rows0, updates, pre0, i, a) && 1 <= k <= i
    ensures |a.rows| == |rows0| > i && NodeOk(h, a.rows, k, x)
  {
    hide WitnessProgress, At, NodeOk;
  }

  lemma LeavesStep(h: Hash2, rows0: seq<seq<Digest>>, updates: map<nat, Digest>, pre0: Witness, i: nat, a: Snapshot,
                   tr: Trace, s: State, x: nat)
    requires LevelDone(h, rows0, updates, pre0, i, a, tr, s)
    ensures At(h, WithLevel(i, a, s).rows, 0, x) == Overridden(updates, rows0[0], x)
  {
    hide LevelResult, Touched, DirtyProgress, WitnessProgress;
    ChildRow(h, rows0, updates, pre0, i, a, tr, s, 0, x);
    if i > 0 {
      assert At(h, a.rows, 0, x) == Overridden(updates, rows0[0], x);
    }
  }

  lemma RowsStep(h: Hash2, rows0: seq<seq<Digest>>, updates: map<nat, Digest>, pre0: Witness, i: nat, a: Snapshot,
                 tr: Trace, s: State, k: nat, x: nat)
    requires LevelDone(h, rows0, updates, pre0, i, a, tr, s) && k <= i + 1
    ensures var b := WithLevel(i, a, s);
      && (k >= 1 ==> NodeOk(h, b.rows, k, x))
      && (!Touched(updates, k, x) ==> At(h, b.rows, k, x) == At(h, rows0, k, x))
      && At(h, b.rows, 0, x) == Overridden(updates, rows0[0], x)
  {
    hide LevelResult, Touched, RowsProgress, DirtyProgress, WitnessProgress;
    LeavesStep(h, rows0, updates, pre0, i, a, tr, s, x);
    if k <= i {
      ChildRow(h, rows0, updates, pre0, i, a, tr, s, k, x);
      if k >= 1 {
        NodesBelow(h, rows0, updates, pre0, i, a, k, x);
        PairKept(h, rows0, updates, pre0, i, a, tr, s, k, x);
      }
    } else {
      ParentRow(h, rows0, updates, pre0, i, a, tr, s, x);
    }
  }

  lemma NextDirty(h: Hash2, rows0: seq<seq<Digest>>, updates: map<nat, Digest>, pre0: Witness, i: nat, a: Snapshot,
                  tr: Trace, s: State, x: nat)
    requires LevelDone(h, rows0, updates, pre0, i, a, tr, s)
    ensures x in s.next <==> Touched(updates, i + 1, x)
    ensures x in s.next ==> s.next[x] == At(h, rows0, i + 1, x)
  {
    assert a.rows[i + 1] == rows0[i + 1];
    ParentRow(h, rows0, updates, pre0, i, a, tr, s, x);
    assert x in s.next <==> Dirty(LevelOf(h, i, a, tr).hashes, x);
  }

  lemma LevelProgress(h: Hash2, rows0: seq<seq<Digest>>, updates: map<nat, Digest>, pre0: Witness, i: nat, a: Snapshot,
                      tr: Trace, s: State)
    requires LevelDone(h, rows0, updates, pre0, i, a, tr, s)
    ensures Progress(h, rows0, updates, pre0, i + 1, WithLevel(i, a, s))
  {
    hide LevelResult, RowsProgress, DirtyProgress, WitnessProgress, Consistent;
    WitnessStep(h, rows0, updates, pre0, i, a, tr, s);
    RowsProgressStep(h, rows0, updates, pre0, i, a, tr, s);
    forall x: nat
      ensures x in s.next <==> Touched(updates, i + 1, x)
      ensures x in s.next ==> s.next[x] == At(h, rows0, i + 1, x)
    {
      NextDirty(h, rows0, updates, pre0, i, a, tr, s, x);
    }
    IsDirtyProgress(h, rows0, updates, i + 1, s.next);
  }

  lemma IsDirtyProgress(h: Hash2, rows0: seq<seq<Digest>>, updates: map<nat, Digest>, i: nat, dirty: map<nat, Digest>)
    requires 1 <= i < |rows0|
    requires forall x: nat :: x in dirty <==> Touched(updates, i, x)
    requires forall x: nat :: x in dirty ==> dirty[x] == At(h, rows0, i, x)
    ensures DirtyProgress(h, rows0, updates, i, dirty)
  {
  }

  lemma RowsProgressStep(h: Hash2, rows0: seq<seq<Digest>>, updates: map<nat, Digest>, pre0: Witness, i: nat,
                         a: Snapshot, tr: Trace, s: State)
    requires LevelDone(h, rows0, updates, pre0, i, a, tr, s)
    ensures RowsProgress(h, rows0, updates, i + 1, WithLevel(i, a, s).rows)
  {
    var rows := WithLevel(i, a, s).rows;
    forall k: nat | i + 1 < k < |rows0| ensures rows[k] == rows0[k] {
      RowsAbove(h, rows0, updates, i, a, s, k);
    }
    hide LevelDone, WithLevel, At, NodeOk, Touched;
    forall k: nat, x: nat | k <= i + 1
      ensures k >= 1 ==> NodeOk(h, rows, k, x)
      ensures !Touched(updates, k, x) ==> At(h, rows, k, x) == At(h, rows0, k, x)
    {
      RowsStep(h, rows0, updates, pre0, i, a, tr, s, k, x);
    }
    forall x: nat ensures At(h, rows, 0, x) == Overridden(updates, rows0[0], x) {
      RowsStep(h, rows0, updates, pre0, i, a, tr, s, 0, x);
    }
  }

  lemma RowsAbove(h: Hash2, rows0: seq<seq<Digest>>, updates: map<nat, Digest>, i: nat, a: Snapshot, s: State, k: nat)
    requires i + 1 < k < |rows0| == |a.rows| && RowsProgress(h, rows0, updates, i, a.rows)
    ensures WithLevel(i, a, s).rows[k] == rows0[k]
  {
    hide At, NodeOk;
  }

  lemma {:induction false} BatchProgress(h: Hash2, rows0: seq<seq<Digest>>, updates: map<nat, Digest>, pre0: Witness,
                                         snaps: seq<Snapshot>, trs: seq<Trace>, i: nat)
    requires IsBatch(h, rows0, updates, pre0, snaps, trs) && i <= |trs|
    ensures Progress(h, rows0, updates, pre0, i, snaps[i])
    decreases i
  {
    hide LevelResult, Exec, Schedule, Complete, RowsProgress, DirtyProgress, WitnessProgress, Consistent, Start;
    if i == 0 {
      ProgressStart(h, rows0, updates, pre0);
    } else {
      BatchProgress(h, rows0, updates, pre0, snaps, trs, i - 1);
      var a, tr := snaps[i - 1], trs[i - 1];
      assert LevelStep(h, snaps, trs, i - 1);
      StartOk(h, rows0, updates, pre0, i - 1, a, tr);
      EveryInterleaving(LevelOf(h, i - 1, a, tr), a.rows[i - 1], a.rows[i], a.preimage, tr.acts);
      LevelProgress(h, rows0, updates, pre0, i - 1, a, tr,
                    Exec(LevelOf(h, i - 1, a, tr), StartOf(h, i - 1, a, tr), tr.acts));
    }
  }

  /** The batch update refines the simple specification: whatever the orders, splits and
      interleavings, the result is a consistent tree over the overridden leaves, so that its top
      node is the recursive Merkle root of those leaves. */
  lemma BatchRefinesSpec(h: Hash2, rows0: seq<seq<Digest>>, updates: map<nat, Digest>, pre0: Witness,
                         snaps: seq<Snapshot>, trs: seq<Trace>)
    requires IsBatch(h, rows0, updates, pre0, snaps, trs)
    ensures var rows := Last(snaps).rows;
      && |rows| == |rows0| && Consistent(h, rows)
      && (forall x: nat :: Get(rows[0], 0, x) == Overridden(updates, rows0[0], x))
      && (forall x: nat :: At(h, rows, |trs|, x) == Node(h, rows[0], |trs|, x))
  {
    BatchProgress(h, rows0, updates, pre0, snaps, trs, |trs|);
    var rows := Last(snaps).rows;
    ProgressIsSpec(h, rows0, updates, pre0, |trs|, Last(snaps));
  }

  /** A batch with at least one update stores the root, whatever key it has. */
  lemma TopRowExists(h: Hash2, rows0: seq<seq<Digest>>, updates: map<nat, Digest>, pre0: Witness, snaps: seq<Snapshot>,
                     trs: seq<Trace>)
    requires IsBatch(h, rows0, updates, pre0, snaps, trs) && updates != map[]
    ensures |Last(snaps).rows| == |rows0| && |Last(snaps).rows[|trs|]| > 0
  {
    hide LevelResult, Exec, Schedule, Complete, RowsProgress, DirtyProgress, WitnessProgress, Consistent, Start,
      ValidWitness, ValidLevel;
    var i := |trs| - 1;
    BatchProgress(h, rows0, updates, pre0, snaps, trs, i);
    var a, tr := snaps[i], trs[i];
    assert LevelStep(h, snaps, trs, i);
    StartOk(h, rows0, updates, pre0, i, a, tr);
    EveryInterleaving(LevelOf(h, i, a, tr), a.rows[i], a.rows[i + 1], a.preimage, tr.acts);
    var u :| u in updates;
    assert Touched(updates, i + 1, Anc(u, i + 1));
    DirtyIsStored(LevelOf(h, i, a, tr), a.rows[i], a.rows[i + 1], a.preimage,
                  Exec(LevelOf(h, i, a, tr), StartOf(h, i, a, tr), tr.acts), Anc(u, i + 1));
  }

  lemma DirtyIsStored(lv: Level, child0: seq<Digest>, parent0: seq<Digest>, pre0: Witness, s: State, j: nat)
    requires LevelResult(lv, child0, parent0, pre0, s) && Dirty(lv.hashes, j)
    ensures j < |s.parent|
  {
  }

  /** The leaf vector never outgrows the tree when no key does. */
  lemma {:induction false} LeavesFit(h: Hash2, rows0: seq<seq<Digest>>, updates: map<nat, Digest>, pre0: Witness,
                                     snaps: seq<Snapshot>, trs: seq<Trace>, i: nat, n: nat)
    requires IsBatch(h, rows0, updates, pre0, snaps, trs) && i <= |trs|
    requires |rows0[0]| <= n && forall x :: x in updates ==> x < n
    ensures |snaps[i].rows| == |rows0| && |snaps[i].rows[0]| <= n
    decreases i
  {
    hide LevelResult, Exec, Schedule, Complete, RowsProgress, DirtyProgress, WitnessProgress, Consistent, Start,
      ValidWitness, ValidLevel;
    if i > 0 {
      LeavesFit(h, rows0, updates, pre0, snaps, trs, i - 1, n);
      var a, tr := snaps[i - 1], trs[i - 1];
      assert LevelStep(h, snaps, trs, i - 1);
      if i == 1 {
        BatchProgress(h, rows0, updates, pre0, snaps, trs, 0);
        StartOk(h, rows0, updates, pre0, 0, a, tr);
        EveryInterleaving(LevelOf(h, 0, a, tr), a.rows[0], a.rows[1], a.preimage, tr.acts);
        ResultShape(LevelOf(h, 0, a, tr), a.rows[0], a.rows[1], a.preimage,
                    Exec(LevelOf(h, 0, a, tr), StartOf(h, 0, a, tr), tr.acts));
      }
    }
  }

  lemma ProgressIsSpec(h: Hash2, rows0: seq<seq<Digest>>, updates: map<nat, Digest>, pre0: Witness, d: nat, b: Snapshot)
    requires d >= 1 && |rows0| == d + 1 && Progress(h, rows0, updates, pre0, d, b)
    ensures Consistent(h, b.rows)
    ensures forall x: nat :: Get(b.rows[0], 0, x) == Overridden(updates, rows0[0], x)
    ensures forall x: nat :: At(h, b.rows, d, x) == Node(h, b.rows[0], d, x)
  {
    forall x: nat ensures Get(b.rows[0], 0, x) == Overridden(updates, rows0[0], x) {
      assert At(h, b.rows, 0, x) == Get(b.rows[0], Zero(h, 0), x);
    }
    assert Consistent(h, b.rows);
    forall x: nat ensures At(h, b.rows, d, x) == Node(h, b.rows[0], d, x) {
      ConsistentIsNode(h, b.rows, d, x);
    }
  }

  // ----- the witness -------------------------------------------------------------------------------

  datatype Walked = Lost | Reached(leaf: Digest, siblings: seq<Digest>)

  /** Descending the witness from `node` at level `i` to leaf `idx`; siblings bottom up. */
  function Walk(pre: Witness, node: Digest, i: nat, idx: nat): Walked
    decreases i
  {
    if i == 0 then Reached(node, [])
    else if node !in pre then Lost
    else
      var (l, r) := pre[node];
      var right := Anc(idx, i - 1) % 2 == 1;
      match Walk(pre, if right then r else l, i - 1, idx)
      case Lost => Lost
      case Reached(leaf, sibs) => Reached(leaf, sibs + [if right then l else r])
  }

  /** The siblings of the path of `idx`, read from the tree, bottom up. */
  function Siblings(h: Hash2, rows: seq<seq<Digest>>, i: nat, idx: nat): (r: seq<Digest>)
    requires i <= |rows|
    ensures |r| == i && forall k :: 0 <= k < i ==> r[k] == At(h, rows, k, Sibling(Anc(idx, k)))
  {
    if i == 0 then [] else Siblings(h, rows, i - 1, idx) + [At(h, rows, i - 1, Sibling(Anc(idx, i - 1)))]
  }

  /** The hash is collision-free on the sibling pairs that occur in this batch. */
  ghost predicate CollisionFree(h: Hash2, rows0: seq<seq<Digest>>, rows: seq<seq<Digest>>, updates: map<nat, Digest>,
                                pre0: Witness)
    requires 1 <= |rows0| == |rows|
  {
    forall v, w ::
      Occurs(h, rows0, rows, updates, pre0, |rows| - 1, v) && Occurs(h, rows0, rows, updates, pre0, |rows| - 1, w) &&
      PairHash(h, v) == PairHash(h, w)
      ==> v == w
  }

  /** The witness maps the node above `idx` at level `k` to that node's children. */
  ghost predicate Opens(h: Hash2, rows: seq<seq<Digest>>, pre: Witness, k: nat, idx: nat)
    requires 1 <= k < |rows|
  {
    && At(h, rows, k, Anc(idx, k)) in pre
    && pre[At(h, rows, k, Anc(idx, k))] == Pair(h, rows, k, Anc(idx, k))
  }

  /** If every node above `idx` is opened to its children, the walk follows the tree. */
  lemma {:induction false} WalkFollows(h: Hash2, rows: seq<seq<Digest>>, pre: Witness, i: nat, idx: nat)
    requires i < |rows|
    requires forall k: nat :: 1 <= k <= i ==> Opens(h, rows, pre, k, idx)
    ensures Walk(pre, At(h, rows, i, Anc(idx, i)), i, idx) == Reached(At(h, rows, 0, idx), Siblings(h, rows, i, idx))
    decreases i
  {
    if i > 0 {
      assert Anc(idx, i) == Anc(idx, i - 1) / 2;
      assert Opens(h, rows, pre, i, idx);
      WalkFollows(h, rows, pre, i - 1, idx);
    }
  }

  lemma WitnessOpens(h: Hash2, rows0: seq<seq<Digest>>, updates: map<nat, Digest>, pre0: Witness, b: Snapshot, i: nat,
                     k: nat, idx: nat)
    requires i + 1 == |rows0| == |b.rows| && 1 <= k <= i && idx in updates
    requires Consistent(h, rows0) && Progress(h, rows0, updates, pre0, i, b)
    requires CollisionFree(h, rows0, b.rows, updates, pre0)
    ensures Opens(h, rows0, b.preimage, k, idx) && Opens(h, b.rows, b.preimage, k, idx)
  {
    var j := Anc(idx, k);
    assert Touched(updates, k, j);
    assert NodeOk(h, rows0, k, j) && NodeOk(h, b.rows, k, j);
    assert Entries(h, rows0, b.rows, updates, b.preimage, k, j);
    EntryIsPair(h, rows0, updates, pre0, b, i, At(h, rows0, k, j), Pair(h, rows0, k, j));
    EntryIsPair(h, rows0, updates, pre0, b, i, At(h, b.rows, k, j), Pair(h, b.rows, k, j));
  }

  lemma EntryIsPair(h: Hash2, rows0: seq<seq<Digest>>, updates: map<nat, Digest>, pre0: Witness, b: Snapshot, i: nat,
                    key: Digest, v: (Digest, Digest))
    requires i + 1 == |rows0| == |b.rows| && WitnessProgress(h, rows0, updates, pre0, i, b)
    requires CollisionFree(h, rows0, b.rows, updates, pre0)
    requires key in b.preimage && key == PairHash(h, v) && Occurs(h, rows0, b.rows, updates, pre0, i, v)
    ensures b.preimage[key] == v
  {
    assert OccursKey(h, rows0, b.rows, updates, pre0, i, b.preimage, key);
    assert PairHash(h, b.preimage[key]) == key;
  }

  /** What a verifier who only has the witness sees below the two roots at leaf `idx`. */
  ghost predicate WitnessesBoth(h: Hash2, rows0: seq<seq<Digest>>, updates: map<nat, Digest>, b: Snapshot, d: nat,
                                idx: nat)
    requires d < |rows0| == |b.rows| && idx in updates
  {
    && Walk(b.preimage, At(h, rows0, d, 0), d, idx) == Reached(Get(rows0[0], 0, idx), Siblings(h, rows0, d, idx))
    && Walk(b.preimage, At(h, b.rows, d, 0), d, idx) == Reached(updates[idx], Siblings(h, b.rows, d, idx))
    && forall k: nat :: k < d && !Touched(updates, k, Sibling(Anc(idx, k))) ==>
         Siblings(h, rows0, d, idx)[k] == Siblings(h, b.rows, d, idx)[k]
  }

  /** The preimage map is a witness for both roots: for every updated leaf, the walk from the old
      root reaches the old leaf and the walk from the new root the new leaf, along the siblings of
      either tree, and a sibling above no update is the same on both walks. */
  lemma WitnessForBothRoots(h: Hash2, rows0: seq<seq<Digest>>, updates: map<nat, Digest>, pre0: Witness,
                            snaps: seq<Snapshot>, trs: seq<Trace>, idx: nat)
    requires IsBatch(h, rows0, updates, pre0, snaps, trs)
    requires idx in updates && idx < Pow2(|trs|) && |Last(snaps).rows| == |rows0|
    requires CollisionFree(h, rows0, Last(snaps).rows, updates, pre0)
    ensures ValidWitness(h, Last(snaps).preimage)
    ensures WitnessesBoth(h, rows0, updates, Last(snaps), |trs|, idx)
  {
    hide Occurs, At, Siblings, Walk, Touched, NodeOk, LevelStep, OccursKey, Entries;
    BatchProgress(h, rows0, updates, pre0, snaps, trs, |trs|);
    WitnessWalks(h, rows0, updates, pre0, Last(snaps), |trs|, idx);
  }

  lemma WitnessWalks(h: Hash2, rows0: seq<seq<Digest>>, updates: map<nat, Digest>, pre0: Witness, b: Snapshot, d: nat,
                     idx: nat)
    requires 1 <= d && d + 1 == |rows0| == |b.rows| && idx in updates && idx < Pow2(d)
    requires Consistent(h, rows0) && Progress(h, rows0, updates, pre0, d, b)
    requires CollisionFree(h, rows0, b.rows, updates, pre0)
    ensures WitnessesBoth(h, rows0, updates, b, d, idx)
  {
    forall k: nat | 1 <= k <= d ensures Opens(h, rows0, b.preimage, k, idx) && Opens(h, b.rows, b.preimage, k, idx) {
      WitnessOpens(h, rows0, updates, pre0, b, d, k, idx);
    }
    AncOfRoot(idx, d);
    WalkFollows(h, rows0, b.preimage, d, idx);
    WalkFollows(h, b.rows, b.preimage, d, idx);
    assert At(h, b.rows, 0, idx) == updates[idx];
    assert At(h, rows0, 0, idx) == Get(rows0[0], 0, idx);
  }

  /** Two batches over the same tree that differ in every scheduling choice leave the same
      vectors, lengths included, and hand the same map to the next level. */
  lemma {:induction false} BatchDeterministic(h: Hash2, rows0: seq<seq<Digest>>, updates: map<nat, Digest>,
                                              pre0: Witness, snaps: seq<Snapshot>, trs: seq<Trace>,
                                              snaps': seq<Snapshot>, trs': seq<Trace>, i: nat)
    requires IsBatch(h, rows0, updates, pre0, snaps, trs) && IsBatch(h, rows0, updates, pre0, snaps', trs')
    requires i <= |trs|
    ensures snaps[i].rows == snaps'[i].rows && snaps[i].dirty == snaps'[i].dirty
    decreases i
  {
    hide LevelResult, Exec, Schedule, Complete, RowsProgress, DirtyProgress, WitnessProgress, Consistent, Start;
    if i > 0 {
      BatchDeterministic(h, rows0, updates, pre0, snaps, trs, snaps', trs', i - 1);
      BatchProgress(h, rows0, updates, pre0, snaps, trs, i - 1);
      BatchProgress(h, rows0, updates, pre0, snaps', trs', i - 1);
      assert LevelStep(h, snaps, trs, i - 1) && LevelStep(h, snaps', trs', i - 1);
      var a, a', tr, tr' := snaps[i - 1], snaps'[i - 1], trs[i - 1], trs'[i - 1];
      StartOk(h, rows0, updates, pre0, i - 1, a, tr);
      StartOk(h, rows0, updates, pre0, i - 1, a', tr');
      var lv, lv' := LevelOf(h, i - 1, a, tr), LevelOf(h, i - 1, a', tr');
      EveryInterleaving(lv, a.rows[i - 1], a.rows[i], a.preimage, tr.acts);
      EveryInterleaving(lv', a'.rows[i - 1], a'.rows[i], a'.preimage, tr'.acts);
      SameResult(lv, lv', a.rows[i - 1], a.rows[i], a.preimage, a'.preimage,
        Exec(lv, StartOf(h, i - 1, a, tr), tr.acts), Exec(lv', StartOf(h, i - 1, a', tr'), tr'.acts));
    }
  }

  /** The keys the witness must have, and no others: those it had, and the old and new values of touched
      inner nodes. */
  ghost predicate IsWitnessKey(h: Hash2, rows0: seq<seq<Digest>>, rows: seq<seq<Digest>>, updates: map<nat, Digest>,
                               pre0: Witness, d: nat, key: Digest)
    requires d < |rows0| == |rows|
  {
    key in pre0 || exists k: nat, j: nat :: KeyOfNode(h, rows0, rows, updates, d, key, k, j)
  }

  ghost predicate KeyOfNode(h: Hash2, rows0: seq<seq<Digest>>, rows: seq<seq<Digest>>, updates: map<nat, Digest>,
                            d: nat, key: Digest, k: nat, j: nat)
    requires d < |rows0| == |rows|
  {
    1 <= k <= d && Touched(updates, k, j) && (key == At(h, rows0, k, j) || key == At(h, rows, k, j))
  }

  /** The witness has exactly these keys. */
  ghost predicate KeysAre(h: Hash2, rows0: seq<seq<Digest>>, rows: seq<seq<Digest>>, updates: map<nat, Digest>,
                          pre0: Witness, d: nat, pre: Witness)
    requires d < |rows0| == |rows|
  {
    forall key :: key in pre <==> IsWitnessKey(h, rows0, rows, updates, pre0, d, key)
  }

  lemma ProgressKeys(h: Hash2, rows0: seq<seq<Digest>>, updates: map<nat, Digest>, pre0: Witness, d: nat, b: Snapshot,
                     key: Digest)
    requires Consistent(h, rows0) && ValidWitness(h, pre0) && Progress(h, rows0, updates, pre0, d, b)
    ensures key in b.preimage <==> IsWitnessKey(h, rows0, b.rows, updates, pre0, d, key)
  {
    if key in b.preimage {
      assert OccursKey(h, rows0, b.rows, updates, pre0, d, b.preimage, key);
      var v := b.preimage[key];
      assert key == PairHash(h, v);
      if !(exists k :: k in pre0 && pre0[k] == v) {
        var k: nat, j: nat :|
          1 <= k <= d && Touched(updates, k, j) && (v == Pair(h, rows0, k, j) || v == Pair(h, b.rows, k, j));
        assert NodeOk(h, rows0, k, j) && NodeOk(h, b.rows, k, j);
        assert KeyOfNode(h, rows0, b.rows, updates, d, key, k, j);
      }
    }
    if IsWitnessKey(h, rows0, b.rows, updates, pre0, d, key) && key !in pre0 {
      var k: nat, j: nat :| KeyOfNode(h, rows0, b.rows, updates, d, key, k, j);
      assert Entries(h, rows0, b.rows, updates, b.preimage, k, j);
    }
  }

  /** Exactly which keys a batch records. */
  lemma WitnessKeys(h: Hash2, rows0: seq<seq<Digest>>, updates: map<nat, Digest>, pre0: Witness, snaps: seq<Snapshot>,
                    trs: seq<Trace>)
    requires IsBatch(h, rows0, updates, pre0, snaps, trs)
    ensures |Last(snaps).rows| == |rows0|
    ensures KeysAre(h, rows0, Last(snaps).rows, updates, pre0, |trs|, Last(snaps).preimage)
  {
    BatchProgress(h, rows0, updates, pre0, snaps, trs, |trs|);
    hide LevelStep, IsWitnessKey, RowsProgress, DirtyProgress, WitnessProgress, Consistent;
    var b := Last(snaps);
    forall key ensures key in b.preimage <==> IsWitnessKey(h, rows0, b.rows, updates, pre0, |trs|, key) {
      ProgressKeys(h, rows0, updates, pre0, |trs|, b, key);
    }
  }

  lemma SameKeys(h: Hash2, rows0: seq<seq<Digest>>, rows: seq<seq<Digest>>, updates: map<nat, Digest>, pre0: Witness,
                 d: nat, pre: Witness, pre': Witness)
    requires d < |rows0| == |rows|
    requires KeysAre(h, rows0, rows, updates, pre0, d, pre) && KeysAre(h, rows0, rows, updates, pre0, d, pre')
    ensures pre.Keys == pre'.Keys
  {
    hide IsWitnessKey;
    forall key ensures key in pre.Keys <==> key in pre'.Keys {
      assert key in pre <==> IsWitnessKey(h, rows0, rows, updates, pre0, d, key);
    }
  }

  /** The witness does not depend on scheduling: its keys never do, and its entries do not unless the hash
      collides on the pairs that occur. */
  lemma WitnessDeterministic(h: Hash2, rows0: seq<seq<Digest>>, updates: map<nat, Digest>, pre0: Witness,
                             snaps: seq<Snapshot>, trs: seq<Trace>, snaps': seq<Snapshot>, trs': seq<Trace>)
    requires IsBatch(h, rows0, updates, pre0, snaps, trs) && IsBatch(h, rows0, updates, pre0, snaps', trs')
    ensures |Last(snaps).rows| == |rows0| && Last(snaps).preimage.Keys == Last(snaps').preimage.Keys
    ensures CollisionFree(h, rows0, Last(snaps).rows, updates, pre0) ==> Last(snaps).preimage == Last(snaps').preimage
  {
    hide RowsProgress, DirtyProgress, Consistent, Occurs, LevelStep, KeysAre, WitnessProgress, CollisionFree;
    BatchDeterministic(h, rows0, updates, pre0, snaps, trs, snaps', trs', |trs|);
    WitnessKeys(h, rows0, updates, pre0, snaps, trs);
    WitnessKeys(h, rows0, updates, pre0, snaps', trs');
    BatchProgress(h, rows0, updates, pre0, snaps, trs, |trs|);
    BatchProgress(h, rows0, updates, pre0, snaps', trs', |trs|);
    var b, b' := Last(snaps), Last(snaps');
    SameKeys(h, rows0, b.rows, updates, pre0, |trs|, b.preimage, b'.preimage);
    if CollisionFree(h, rows0, b.rows, updates, pre0) {
      forall key | key in b.preimage ensures b.preimage[key] == b'.preimage[key] {
        SameEntry(h, rows0, updates, pre0, b, b', |trs|, key);
      }
    }
  }

  lemma SameEntry(h: Hash2, rows0: seq<seq<Digest>>, updates: map<nat, Digest>, pre0: Witness, b: Snapshot,
                  b': Snapshot, d: nat, key: Digest)
    requires d + 1 == |rows0| == |b.rows| && b.rows == b'.rows && key in b.preimage && key in b'.preimage
    requires WitnessProgress(h, rows0, updates, pre0, d, b) && WitnessProgress(h, rows0, updates, pre0, d, b')
    requires CollisionFree(h, rows0, b.rows, updates, pre0)
    ensures b.preimage[key] == b'.preimage[key]
  {
    assert OccursKey(h, rows0, b'.rows, updates, pre0, d, b'.preimage, key);
    EntryIsPair(h, rows0, updates, pre0, b, d, key, b'.preimage[key]);
  }
}
