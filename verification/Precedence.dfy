/**
 Which entry of the preimage map wins when keys coincide: an entry under an old value never replaces
 one that is there, an entry under a new value always does. So an earlier entry survives a batch unless
 its key is a new value, and under a new value stands a pair of new children.
*/
module Precedence {
  import opened Merkle
  import opened LevelRun
  import opened Batch

  // ----- one level ------------------------------------------------------------------------------------------

  function NewHash(lv: Level, child0: seq<Digest>, j: nat): Digest {
    lv.h(NewPair(lv, child0, j).0, NewPair(lv, child0, j).1)
  }

  predicate NewAt(lv: Level, child0: seq<Digest>, k: Digest, j: nat) {
    Dirty(lv.hashes, j) && k == NewHash(lv, child0, j)
  }

  ghost predicate IsNew(lv: Level, child0: seq<Digest>, k: Digest) {
    exists j: nat :: NewAt(lv, child0, k, j)
  }

  predicate PairAt(lv: Level, child0: seq<Digest>, v: (Digest, Digest), j: nat) {
    Dirty(lv.hashes, j) && v == NewPair(lv, child0, j)
  }

  ghost predicate IsNewPair(lv: Level, child0: seq<Digest>, v: (Digest, Digest)) {
    exists j: nat :: PairAt(lv, child0, v, j)
  }

  /** An entry that was there is there still, unless its key is a new value. */
  ghost predicate Kept(lv: Level, child0: seq<Digest>, pre0: Witness, pre: Witness, k: Digest) {
    k in pre0 && !IsNew(lv, child0, k) ==> k in pre && pre[k] == pre0[k]
  }

  /** Under the key stands a pair of new children. */
  ghost predicate Wins(lv: Level, child0: seq<Digest>, pre: Witness, k: Digest) {
    k in pre && IsNewPair(lv, child0, pre[k])
  }

  ghost predicate WinsAt(lv: Level, child0: seq<Digest>, s: State, p: nat) {
    p < |s.phases| && p < |lv.order| && (s.phases[p].Recorded? || s.phases[p].Done?) ==>
      Wins(lv, child0, s.preimage, NewHash(lv, child0, lv.order[p] / 2))
  }

  ghost predicate Precedes(lv: Level, child0: seq<Digest>, pre0: Witness, s: State) {
    (forall k :: Kept(lv, child0, pre0, s.preimage, k)) && (forall p: nat :: WinsAt(lv, child0, s, p))
  }

  /** The preimage region: under the new value the new pair, an old value's pair only where nothing was. */
  lemma RecordKeepsEntries(lv: Level, child0: seq<Digest>, pre: Witness, ph: Phase, j: nat, k: Digest)
    requires ph.Stored? && Dirty(lv.hashes, j) && (ph.left, ph.right) == NewPair(lv, child0, j)
    ensures var pre' := RecordPair(lv.h, pre, ph);
      && Wins(lv, child0, pre', NewHash(lv, child0, j))
      && (k in pre ==> k in pre' && (pre'[k] == pre[k] || (IsNew(lv, child0, k) && IsNewPair(lv, child0, pre'[k]))))
  {
    assert NewAt(lv, child0, NewHash(lv, child0, j), j) && PairAt(lv, child0, (ph.left, ph.right), j);
  }

  lemma RecordPrecedes(lv: Level, child0: seq<Digest>, parent0: seq<Digest>, pre0: Witness, s: State, p: nat)
    requires Inv(lv, child0, parent0, pre0, s) && Precedes(lv, child0, pre0, s)
    requires p < |lv.order| && lv.order[p] in lv.hashes && p < |s.phases| && s.phases[p].Stored?
    ensures Precedes(lv, child0, pre0, AdvanceStep(lv, s, p))
  {
    var s', j := AdvanceStep(lv, s, p), lv.order[p] / 2;
    assert PosOk(lv, child0, parent0, s, p);
    assert Dirty(lv.hashes, j) by { assert lv.order[p] == 2 * j || lv.order[p] == 2 * j + 1; }
    assert (s.phases[p].left, s.phases[p].right) == NewPair(lv, child0, j);
    hide Inv, NewPair, NewHash, Dirty, RecordPair, IsNewPair, IsNew;
    forall k ensures Kept(lv, child0, pre0, s'.preimage, k) {
      assert Kept(lv, child0, pre0, s.preimage, k);
      RecordKeepsEntries(lv, child0, s.preimage, s.phases[p], j, k);
    }
    forall q: nat ensures WinsAt(lv, child0, s', q) {
      assert WinsAt(lv, child0, s, q);
      if q < |lv.order| {
        RecordKeepsEntries(lv, child0, s.preimage, s.phases[p], j, NewHash(lv, child0, lv.order[q] / 2));
      }
    }
  }

  lemma StepPrecedes(lv: Level, child0: seq<Digest>, parent0: seq<Digest>, pre0: Witness, s: State, a: Action)
    requires Inv(lv, child0, parent0, pre0, s) && Precedes(lv, child0, pre0, s) && Enabled(lv, s, a)
    ensures Precedes(lv, child0, pre0, Step(lv, s, a))
  {
    hide Inv, Wins, Kept, InsertResults, FetchChildren;
    match a
    case Publish(t) =>
      SamePrecedence(lv, child0, pre0, s, Step(lv, s, a));
    case Advance(p) =>
      if s.phases[p].Stored? {
        RecordPrecedes(lv, child0, parent0, pre0, s, p);
      } else {
        FetchedPhase(lv, s.child, lv.order[p]);
        SamePrecedence(lv, child0, pre0, s, Step(lv, s, a));
      }
  }

  lemma FetchedPhase(lv: Level, child: seq<Digest>, idx: nat)
    requires idx in lv.hashes
    ensures FetchChildren(lv, child, idx).1.Skipped? || FetchChildren(lv, child, idx).1.Fetched?
  {
  }

  lemma SamePrecedence(lv: Level, child0: seq<Digest>, pre0: Witness, s: State, s': State)
    requires Precedes(lv, child0, pre0, s) && s'.preimage == s.preimage && |s'.phases| == |s.phases|
    requires forall p :: 0 <= p < |s.phases| && (s'.phases[p].Recorded? || s'.phases[p].Done?) ==>
      s.phases[p].Recorded? || s.phases[p].Done?
    ensures Precedes(lv, child0, pre0, s')
  {
    hide Kept, Wins;
    forall k ensures Kept(lv, child0, pre0, s'.preimage, k) { assert Kept(lv, child0, pre0, s.preimage, k); }
    forall p: nat ensures WinsAt(lv, child0, s', p) { assert WinsAt(lv, child0, s, p); }
  }

  lemma {:induction false} ExecPrecedes(lv: Level, child0: seq<Digest>, parent0: seq<Digest>, pre0: Witness, s: State,
                                        acts: seq<Action>)
    requires Start(lv, child0, parent0, pre0) && Inv(lv, child0, parent0, pre0, s)
    requires Precedes(lv, child0, pre0, s) && Schedule(lv, s, acts)
    ensures Precedes(lv, child0, pre0, Exec(lv, s, acts))
    decreases |acts|
  {
    hide Inv, Precedes, Start, Step, Enabled;
    if acts != [] {
      StepKeeps(lv, child0, parent0, pre0, s, acts[0]);
      StepPrecedes(lv, child0, parent0, pre0, s, acts[0]);
      ExecPrecedes(lv, child0, parent0, pre0, Step(lv, s, acts[0]), acts[1..]);
    }
  }

  /** After every complete interleaving of a level. */
  lemma LevelPrecedence(lv: Level, child0: seq<Digest>, parent0: seq<Digest>, pre0: Witness, acts: seq<Action>)
    requires Start(lv, child0, parent0, pre0)
    requires Schedule(lv, Init(lv, child0, parent0, pre0), acts)
    requires Complete(lv, Exec(lv, Init(lv, child0, parent0, pre0), acts))
    ensures var pre := Exec(lv, Init(lv, child0, parent0, pre0), acts).preimage;
      && (forall k :: Kept(lv, child0, pre0, pre, k))
      && (forall k :: IsNew(lv, child0, k) ==> Wins(lv, child0, pre, k))
  {
    var s0 := Init(lv, child0, parent0, pre0);
    var s := Exec(lv, s0, acts);
    InitInv(lv, child0, parent0, pre0);
    assert Precedes(lv, child0, pre0, s0);
    ExecPrecedes(lv, child0, parent0, pre0, s0, acts);
    ExecKeeps(lv, child0, parent0, pre0, s0, acts);
    hide Exec, Schedule, Kept, Wins, NewPair, NewHash;
    forall k | IsNew(lv, child0, k) ensures Wins(lv, child0, s.preimage, k) {
      var j: nat :| NewAt(lv, child0, k, j);
      var p := OwnerOf(lv, j);
      assert PosOk(lv, child0, parent0, s, p) && Finished(s.phases[p]);
      assert WinsAt(lv, child0, s, p);
    }
  }

  // ----- a batch ----------------------------------------------------------------------------------------------

  /** The key is the new value of this node above an update. */
  ghost predicate NewNode(h: Hash2, rows: seq<seq<Digest>>, updates: map<nat, Digest>, d: nat, key: Digest, k: nat,
                          j: nat)
    requires d < |rows|
  {
    1 <= k <= d && Touched(updates, k, j) && key == At(h, rows, k, j)
  }

  ghost predicate IsNewNode(h: Hash2, rows: seq<seq<Digest>>, updates: map<nat, Digest>, d: nat, key: Digest)
    requires d < |rows|
  {
    exists k: nat, j: nat :: NewNode(h, rows, updates, d, key, k, j)
  }

  /** The pair is that of the new children of this node. */
  ghost predicate NewChildren(h: Hash2, rows: seq<seq<Digest>>, updates: map<nat, Digest>, d: nat, v: (Digest, Digest),
                              k: nat, j: nat)
    requires d < |rows|
  {
    1 <= k <= d && Touched(updates, k, j) && v == Pair(h, rows, k, j)
  }

  ghost predicate AreNewChildren(h: Hash2, rows: seq<seq<Digest>>, updates: map<nat, Digest>, d: nat,
                                 v: (Digest, Digest))
    requires d < |rows|
  {
    exists k: nat, j: nat :: NewChildren(h, rows, updates, d, v, k, j)
  }

  /** What stands under a key once levels up to d have run. */
  ghost predicate EntryIs(h: Hash2, updates: map<nat, Digest>, pre0: Witness, d: nat, b: Snapshot, key: Digest)
    requires d < |b.rows|
  {
    if IsNewNode(h, b.rows, updates, d, key) then
      key in b.preimage && AreNewChildren(h, b.rows, updates, d, b.preimage[key])
    else key in pre0 ==> key in b.preimage && b.preimage[key] == pre0[key]
  }

  lemma RowCounts(h: Hash2, rows0: seq<seq<Digest>>, updates: map<nat, Digest>, pre0: Witness, i: nat, a: Snapshot,
                  tr: Trace, s: State)
    requires LevelDone(h, rows0, updates, pre0, i, a, tr, s)
    ensures i + 1 < |a.rows| == |WithLevel(i, a, s).rows|
  {
  }

  /** Running level i changes nothing about the nodes below, ... */
  lemma BelowNode(h: Hash2, rows0: seq<seq<Digest>>, updates: map<nat, Digest>, pre0: Witness, i: nat, a: Snapshot,
                  tr: Trace, s: State, key: Digest, v: (Digest, Digest), k: nat, j: nat)
    requires LevelDone(h, rows0, updates, pre0, i, a, tr, s) && k <= i
    ensures NewNode(h, WithLevel(i, a, s).rows, updates, i + 1, key, k, j)
      <==> NewNode(h, a.rows, updates, i, key, k, j)
    ensures NewChildren(h, WithLevel(i, a, s).rows, updates, i + 1, v, k, j)
      <==> NewChildren(h, a.rows, updates, i, v, k, j)
  {
    RowCounts(h, rows0, updates, pre0, i, a, tr, s);
    hide LevelDone, WithLevel, Pair, At, Touched;
    if k >= 1 { PairKept(h, rows0, updates, pre0, i, a, tr, s, k, j); }
  }

  lemma NodeRange(h: Hash2, rows: seq<seq<Digest>>, updates: map<nat, Digest>, d: nat, key: Digest,
                  v: (Digest, Digest), k: nat, j: nat)
    requires d < |rows|
    ensures NewNode(h, rows, updates, d, key, k, j) || NewChildren(h, rows, updates, d, v, k, j) ==> k <= d
  {
  }

  /** ... and makes the parents new nodes. */
  lemma TopNode(h: Hash2, rows0: seq<seq<Digest>>, updates: map<nat, Digest>, pre0: Witness, i: nat, a: Snapshot,
                tr: Trace, s: State, key: Digest, v: (Digest, Digest), j: nat)
    requires LevelDone(h, rows0, updates, pre0, i, a, tr, s)
    ensures var b, lv := WithLevel(i, a, s), LevelOf(h, i, a, tr);
      && (NewNode(h, b.rows, updates, i + 1, key, i + 1, j) <==> NewAt(lv, a.rows[i], key, j))
      && (NewChildren(h, b.rows, updates, i + 1, v, i + 1, j) <==> PairAt(lv, a.rows[i], v, j))
  {
    ParentRow(h, rows0, updates, pre0, i, a, tr, s, j);
    hide LevelDone, Pair, At, Touched, Dirty, NewPair;
  }

  lemma FromBelow(h: Hash2, rows0: seq<seq<Digest>>, updates: map<nat, Digest>, pre0: Witness, i: nat, a: Snapshot,
                  tr: Trace, s: State, key: Digest, k: nat, j: nat)
    requires LevelDone(h, rows0, updates, pre0, i, a, tr, s) && k <= i
    requires NewNode(h, WithLevel(i, a, s).rows, updates, i + 1, key, k, j)
    ensures IsNewNode(h, a.rows, updates, i, key)
  {
    RowCounts(h, rows0, updates, pre0, i, a, tr, s);
    BelowNode(h, rows0, updates, pre0, i, a, tr, s, key, (0, 0), k, j);
    hide LevelDone, WithLevel, NewNode, NewChildren;
  }

  lemma FromTop(h: Hash2, rows0: seq<seq<Digest>>, updates: map<nat, Digest>, pre0: Witness, i: nat, a: Snapshot,
                tr: Trace, s: State, key: Digest, j: nat)
    requires LevelDone(h, rows0, updates, pre0, i, a, tr, s)
    requires NewNode(h, WithLevel(i, a, s).rows, updates, i + 1, key, i + 1, j)
    ensures IsNew(LevelOf(h, i, a, tr), a.rows[i], key)
  {
    RowCounts(h, rows0, updates, pre0, i, a, tr, s);
    TopNode(h, rows0, updates, pre0, i, a, tr, s, key, (0, 0), j);
    hide LevelDone, WithLevel, LevelOf, NewNode, NewChildren, NewAt, PairAt;
  }

  lemma NewNodeFrom(h: Hash2, rows0: seq<seq<Digest>>, updates: map<nat, Digest>, pre0: Witness, i: nat, a: Snapshot,
                    tr: Trace, s: State, key: Digest, k: nat, j: nat)
    requires LevelDone(h, rows0, updates, pre0, i, a, tr, s)
    requires NewNode(h, WithLevel(i, a, s).rows, updates, i + 1, key, k, j)
    ensures IsNewNode(h, a.rows, updates, i, key) || IsNew(LevelOf(h, i, a, tr), a.rows[i], key)
  {
    hide LevelDone, LevelOf, WithLevel, NewNode, NewChildren, IsNewNode, IsNew, LevelResult, Progress, Consistent;
    RowCounts(h, rows0, updates, pre0, i, a, tr, s);
    NodeRange(h, WithLevel(i, a, s).rows, updates, i + 1, key, (0, 0), k, j);
    if k <= i {
      FromBelow(h, rows0, updates, pre0, i, a, tr, s, key, k, j);
    } else {
      FromTop(h, rows0, updates, pre0, i, a, tr, s, key, j);
    }
  }

  lemma NewValueFrom(h: Hash2, rows0: seq<seq<Digest>>, updates: map<nat, Digest>, pre0: Witness, i: nat, a: Snapshot,
                     tr: Trace, s: State, key: Digest)
    requires LevelDone(h, rows0, updates, pre0, i, a, tr, s)
    requires IsNewNode(h, WithLevel(i, a, s).rows, updates, i + 1, key)
    ensures IsNewNode(h, a.rows, updates, i, key) || IsNew(LevelOf(h, i, a, tr), a.rows[i], key)
  {
    RowCounts(h, rows0, updates, pre0, i, a, tr, s);
    hide LevelDone, LevelOf, WithLevel, NewNode, IsNew;
    var k: nat, j: nat :| NewNode(h, WithLevel(i, a, s).rows, updates, i + 1, key, k, j);
    NewNodeFrom(h, rows0, updates, pre0, i, a, tr, s, key, k, j);
  }

  lemma NewValueStays(h: Hash2, rows0: seq<seq<Digest>>, updates: map<nat, Digest>, pre0: Witness, i: nat, a: Snapshot,
                      tr: Trace, s: State, key: Digest)
    requires LevelDone(h, rows0, updates, pre0, i, a, tr, s)
    requires IsNewNode(h, a.rows, updates, i, key) || IsNew(LevelOf(h, i, a, tr), a.rows[i], key)
    ensures IsNewNode(h, WithLevel(i, a, s).rows, updates, i + 1, key)
  {
    RowCounts(h, rows0, updates, pre0, i, a, tr, s);
    var lv, none := LevelOf(h, i, a, tr), (0, 0);
    hide LevelDone, LevelOf, WithLevel, NewNode, NewChildren, NewAt, PairAt;
    if IsNewNode(h, a.rows, updates, i, key) {
      var k: nat, j: nat :| NewNode(h, a.rows, updates, i, key, k, j);
      NodeRange(h, a.rows, updates, i, key, none, k, j);
      BelowNode(h, rows0, updates, pre0, i, a, tr, s, key, none, k, j);
    } else {
      var j: nat :| NewAt(lv, a.rows[i], key, j);
      TopNode(h, rows0, updates, pre0, i, a, tr, s, key, none, j);
    }
  }

  /** The new values are those of before and those of the level. */
  lemma NewValues(h: Hash2, rows0: seq<seq<Digest>>, updates: map<nat, Digest>, pre0: Witness, i: nat, a: Snapshot,
                  tr: Trace, s: State, key: Digest)
    requires LevelDone(h, rows0, updates, pre0, i, a, tr, s)
    ensures i + 1 < |a.rows| == |WithLevel(i, a, s).rows|
    ensures IsNewNode(h, WithLevel(i, a, s).rows, updates, i + 1, key) <==>
      IsNewNode(h, a.rows, updates, i, key) || IsNew(LevelOf(h, i, a, tr), a.rows[i], key)
  {
    RowCounts(h, rows0, updates, pre0, i, a, tr, s);
    hide LevelDone, LevelOf, WithLevel, IsNewNode, IsNew;
    if IsNewNode(h, WithLevel(i, a, s).rows, updates, i + 1, key) {
      NewValueFrom(h, rows0, updates, pre0, i, a, tr, s, key);
    } else if IsNewNode(h, a.rows, updates, i, key) || IsNew(LevelOf(h, i, a, tr), a.rows[i], key) {
      NewValueStays(h, rows0, updates, pre0, i, a, tr, s, key);
    }
  }

  /** Pairs of new children stay such. */
  lemma NewPairs(h: Hash2, rows0: seq<seq<Digest>>, updates: map<nat, Digest>, pre0: Witness, i: nat, a: Snapshot,
                 tr: Trace, s: State, v: (Digest, Digest))
    requires LevelDone(h, rows0, updates, pre0, i, a, tr, s)
    requires AreNewChildren(h, a.rows, updates, i, v) || IsNewPair(LevelOf(h, i, a, tr), a.rows[i], v)
    ensures AreNewChildren(h, WithLevel(i, a, s).rows, updates, i + 1, v)
  {
    RowCounts(h, rows0, updates, pre0, i, a, tr, s);
    var lv := LevelOf(h, i, a, tr);
    hide LevelDone, LevelOf, WithLevel, NewNode, NewChildren, NewAt, PairAt;
    if AreNewChildren(h, a.rows, updates, i, v) {
      var k: nat, j: nat :| NewChildren(h, a.rows, updates, i, v, k, j);
      NodeRange(h, a.rows, updates, i, 0, v, k, j);
      BelowNode(h, rows0, updates, pre0, i, a, tr, s, 0, v, k, j);
    } else {
      var j: nat :| PairAt(lv, a.rows[i], v, j);
      TopNode(h, rows0, updates, pre0, i, a, tr, s, 0, v, j);
    }
  }

  lemma EntryStep(h: Hash2, rows0: seq<seq<Digest>>, updates: map<nat, Digest>, pre0: Witness, i: nat, a: Snapshot,
                  tr: Trace, s: State, key: Digest)
    requires LevelDone(h, rows0, updates, pre0, i, a, tr, s) && EntryIs(h, updates, pre0, i, a, key)
    requires Kept(LevelOf(h, i, a, tr), a.rows[i], a.preimage, s.preimage, key)
    requires IsNew(LevelOf(h, i, a, tr), a.rows[i], key) ==> Wins(LevelOf(h, i, a, tr), a.rows[i], s.preimage, key)
    ensures EntryIs(h, updates, pre0, i + 1, WithLevel(i, a, s), key)
  {
    hide LevelDone, LevelOf, IsNewNode, AreNewChildren, IsNew, IsNewPair;
    NewValues(h, rows0, updates, pre0, i, a, tr, s, key);
    if IsNewNode(h, WithLevel(i, a, s).rows, updates, i + 1, key) {
      NewPairs(h, rows0, updates, pre0, i, a, tr, s, s.preimage[key]);
    }
  }

  lemma {:induction false} EntriesUpTo(h: Hash2, rows0: seq<seq<Digest>>, updates: map<nat, Digest>, pre0: Witness,
                                       snaps: seq<Snapshot>, trs: seq<Trace>, i: nat, key: Digest)
    requires IsBatch(h, rows0, updates, pre0, snaps, trs) && i <= |trs|
    ensures i < |snaps[i].rows| && EntryIs(h, updates, pre0, i, snaps[i], key)
    decreases i
  {
    hide LevelResult, Exec, Schedule, Complete, RowsProgress, DirtyProgress, WitnessProgress, Consistent, Start,
      EntryIs, Kept, Wins, IsNew;
    BatchProgress(h, rows0, updates, pre0, snaps, trs, i);
    if i == 0 {
      EntryStart(h, updates, pre0, snaps[0], key);
    } else {
      EntriesUpTo(h, rows0, updates, pre0, snaps, trs, i - 1, key);
      BatchProgress(h, rows0, updates, pre0, snaps, trs, i - 1);
      var a, tr := snaps[i - 1], trs[i - 1];
      assert LevelStep(h, snaps, trs, i - 1);
      var lv := LevelOf(h, i - 1, a, tr);
      StartOk(h, rows0, updates, pre0, i - 1, a, tr);
      EveryInterleaving(lv, a.rows[i - 1], a.rows[i], a.preimage, tr.acts);
      LevelPrecedence(lv, a.rows[i - 1], a.rows[i], a.preimage, tr.acts);
      EntryStep(h, rows0, updates, pre0, i - 1, a, tr, Exec(lv, StartOf(h, i - 1, a, tr), tr.acts), key);
    }
  }

  lemma EntryStart(h: Hash2, updates: map<nat, Digest>, pre0: Witness, b: Snapshot, key: Digest)
    requires |b.rows| > 0 && b.preimage == pre0
    ensures EntryIs(h, updates, pre0, 0, b, key)
  {
  }

  /** After a batch, whatever the scheduling: under a new value stands a pair of new children, under any
      other key that was there before what was there before. */
  lemma WitnessPrecedence(h: Hash2, rows0: seq<seq<Digest>>, updates: map<nat, Digest>, pre0: Witness,
                          snaps: seq<Snapshot>, trs: seq<Trace>, key: Digest)
    requires IsBatch(h, rows0, updates, pre0, snaps, trs)
    ensures |Last(snaps).rows| == |trs| + 1
    ensures IsNewNode(h, Last(snaps).rows, updates, |trs|, key) ==>
      key in Last(snaps).preimage && AreNewChildren(h, Last(snaps).rows, updates, |trs|, Last(snaps).preimage[key])
    ensures key in pre0 && !IsNewNode(h, Last(snaps).rows, updates, |trs|, key) ==>
      key in Last(snaps).preimage && Last(snaps).preimage[key] == pre0[key]
  {
    hide IsNewNode, AreNewChildren, LevelStep, RowsProgress, DirtyProgress, WitnessProgress;
    BatchProgress(h, rows0, updates, pre0, snaps, trs, |trs|);
    EntriesUpTo(h, rows0, updates, pre0, snaps, trs, |trs|, key);
  }
}
